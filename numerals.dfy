/** The functional specification of `App.numberToChinese` (app.js:242-259): the
    numeral tables, one group of four digits, the composition of up to three
    groups, the clean-up rewrites, and the properties of the formatted amount.
 */
module Numerals {
  import opened JsRegex

  /** `digit` (app.js:245): the numeral for each decimal digit. */
  const DIGITS: string := "零壹貳參肆伍陸柒捌玖"
  /** `unit[1]` (app.js:246): the unit after each position of a group, units first. */
  const POSITION_UNITS: seq<string> := ["", "拾", "佰", "仟"]
  /** `unit[0]` (app.js:246): the unit after each group, lowest group first. */
  const GROUP_UNITS: string := "元萬億"
  /** One group holds as many digits as there are position units. */
  const GROUP_BASE: nat := 10000

  const YUAN: char := '元'
  const WHOLE: char := '整'
  const MINUS: string := "負"
  const ZERO_YUAN: string := "零元"

  predicate IsDigitGlyph(c: char) { c in DIGITS }
  predicate IsPositionUnit(c: char) { c == '拾' || c == '佰' || c == '仟' }
  predicate IsGroupUnit(c: char) { c == '元' || c == '萬' || c == '億' }
  /** Every character the digit loops can produce. */
  predicate IsGlyph(c: char) { IsDigitGlyph(c) || IsPositionUnit(c) || IsGroupUnit(c) }

  function Abs(n: int): nat { if n < 0 then -n else n }

  /** The group string that the inner loop (app.js:252-255) builds from the
      remaining value `v`, starting at position `j`: each digit, least
      significant first, is prepended with its position unit, until four
      positions are used or `v` runs out. */
  function GroupDigits(v: nat, j: nat): string
    requires j <= |POSITION_UNITS|
    decreases |POSITION_UNITS| - j
  {
    if j == |POSITION_UNITS| || v == 0 then ""
    else GroupDigits(v / 10, j + 1) + [DIGITS[v % 10]] + POSITION_UNITS[j]
  }

  /** `p.replace(/(零.)*零$/, '')` (app.js:256). */
  function TrimTrailingZeros(p: string): string {
    ReplaceFirst(p, [ZERO], true, [])
  }

  /** `p.replace(/(零.)*零$/, '').replace(/^$/, '零')` (app.js:256). */
  function CleanGroup(p: string): string {
    ReplaceWhole(TrimTrailingZeros(p), [], [ZERO])
  }

  /** The accumulated string `s` after the outer loop (app.js:250-257), for the
      remaining value `v` from group `i` on: higher groups come first, and each
      group is its cleaned digits followed by its group unit. */
  function Compose(v: nat, i: nat): string
    requires i <= |GROUP_UNITS|
    decreases |GROUP_UNITS| - i
  {
    if i == |GROUP_UNITS| || v == 0 then ""
    else Compose(v / GROUP_BASE, i + 1) + CleanGroup(GroupDigits(v, 0)) + [GROUP_UNITS[i]]
  }

  /** `s.replace(/(零.)*零元/, '元')` (app.js:258). */
  function DropZerosBeforeYuan(s: string): string {
    ReplaceFirst(s, [ZERO, YUAN], false, [YUAN])
  }

  /** `.replace(/(零.)+/g, '零')` (app.js:258). */
  function CollapseZeroRuns(s: string): string {
    ReplaceAllRuns(s, [ZERO])
  }

  /** The three rewrites of app.js:258, in order; the last is `.replace(/^整$/, '零元')`. */
  function Cleanup(s: string): string {
    ReplaceWhole(CollapseZeroRuns(DropZerosBeforeYuan(s)), [WHOLE], ZERO_YUAN)
  }

  /** `head` (app.js:247): the sign written before a negative amount. */
  function Head(n: int): string {
    if n < 0 then MINUS else ""
  }

  /** `numberToChinese(n)` for an integer `n` (app.js:242-259). */
  function Format(n: int): string {
    if n == 0 then ZERO_YUAN
    else Head(n) + Cleanup(Compose(Abs(n), 0))
  }

  /** Every 零 is followed by a character other than 零. */
  predicate ZeroFollowed(s: string) {
    forall i :: 0 <= i < |s| && s[i] == ZERO ==> i + 1 < |s| && s[i + 1] != ZERO
  }

  /** Digits sit at even positions of a group string, position units at odd ones. */
  predicate Alternates(p: string) {
    forall k :: 0 <= k < |p| ==> if k % 2 == 0 then IsDigitGlyph(p[k]) else IsPositionUnit(p[k])
  }

  /** A group string read from position `j` alternates digit and unit; it has
      an odd length when it starts at the units position and is not empty,
      an even one otherwise. */
  lemma {:induction false} GroupDigitsAlternate(v: nat, j: nat)
    requires j <= |POSITION_UNITS|
    ensures Alternates(GroupDigits(v, j))
    ensures |GroupDigits(v, j)| % 2 == (if j == 0 && v > 0 then 1 else 0)
    decreases |POSITION_UNITS| - j
  {
    if j < |POSITION_UNITS| && v > 0 {
      GroupDigitsAlternate(v / 10, j + 1);
      var a := GroupDigits(v / 10, j + 1);
      var d := DIGITS[v % 10];
      var u := POSITION_UNITS[j];
      var p := a + [d] + u;
      assert GroupDigits(v, j) == p;
      assert |a| % 2 == 0;
      assert IsDigitGlyph(d);
      assert j > 0 ==> |u| == 1 && IsPositionUnit(u[0]);
      assert j == 0 ==> u == [];
      forall k | 0 <= k < |p|
        ensures if k % 2 == 0 then IsDigitGlyph(p[k]) else IsPositionUnit(p[k])
      {
        if k < |a| {
          assert p[k] == a[k];
        } else if k == |a| {
          assert p[k] == d;
        } else {
          assert k == |a| + 1 && p[k] == u[0];
        }
      }
    }
  }

  /** The cleaned group (app.js:256) for a non-zero remaining value: never
      empty, either the placeholder 零 or ending in something other than 零,
      made of digits and position units only, and every 零 in it is followed
      by another character once the group unit is appended. */
  lemma CleanGroupShape(v: nat, g: char)
    requires v > 0 && g != ZERO
    ensures var c := CleanGroup(GroupDigits(v, 0));
      && c != []
      && (c == [ZERO] || c[|c| - 1] != ZERO)
      && (forall k :: 0 <= k < |c| ==> IsDigitGlyph(c[k]) || IsPositionUnit(c[k]))
      && ZeroFollowed(c + [g])
  {
    GroupDigitsAlternate(v, 0);
    CleanAlternating(GroupDigits(v, 0), g);
  }

  lemma CleanAlternating(p: string, g: char)
    requires Alternates(p) && |p| % 2 == 1 && g != ZERO
    ensures var c := CleanGroup(p);
      && c != []
      && (c == [ZERO] || c[|c| - 1] != ZERO)
      && (forall k :: 0 <= k < |c| ==> IsDigitGlyph(c[k]) || IsPositionUnit(c[k]))
      && ZeroFollowed(c + [g])
  {
    var r := TrimTrailingZeros(p);
    assert |r| <= |p| && r == p[..|r|] && (|r| == |p| ==> p[|p| - 1] != ZERO)
      && (|r| < |p| ==> p[|r|] == ZERO) by {
      TrimTrailingZerosSpec(p);
    }
    TrimmedGroupShape(p, r, g);
    assert CleanGroup(p) == if r == [] then [ZERO] else r;
  }

  /** What the trim leaves of a group string: a prefix that is empty or ends
      in a position unit. */
  lemma TrimmedGroupShape(p: string, r: string, g: char)
    requires Alternates(p) && |p| % 2 == 1 && g != ZERO
    requires |r| <= |p| && r == p[..|r|] && (|r| == |p| ==> p[|p| - 1] != ZERO)
    requires |r| < |p| ==> p[|r|] == ZERO
    ensures r != [] ==> r[|r| - 1] != ZERO && ZeroFollowed(r + [g])
    ensures forall k :: 0 <= k < |r| ==> IsDigitGlyph(r[k]) || IsPositionUnit(r[k])
  {
    if r != [] {
      assert p[|r| - 1] != ZERO by {
        if |r| < |p| {
          var k := |r|;
          assert !IsPositionUnit(p[k]);
          assert k % 2 == 0;
          assert (k - 1) % 2 == 1;
          assert IsPositionUnit(p[k - 1]);
        }
      }
      AlternatesPrefix(p, |r|, g);
    }
  }

  /** A prefix of a group string that does not end in 零 keeps every 零 followed. */
  lemma AlternatesPrefix(p: string, k: nat, g: char)
    requires Alternates(p) && 0 < k <= |p| && p[k - 1] != ZERO && g != ZERO
    ensures ZeroFollowed(p[..k] + [g])
    ensures forall i :: 0 <= i < k ==> IsDigitGlyph(p[..k][i]) || IsPositionUnit(p[..k][i])
  {
    var q := p[..k] + [g];
    forall i | 0 <= i < |q| && q[i] == ZERO
      ensures i + 1 < |q| && q[i + 1] != ZERO
    {
      assert i < k && q[i] == p[i];
      assert i % 2 == 0;
      assert i + 1 < k ==> q[i + 1] == p[i + 1] && (i + 1) % 2 == 1;
    }
    forall i | 0 <= i < k
      ensures IsDigitGlyph(p[..k][i]) || IsPositionUnit(p[..k][i])
    {
      assert p[..k][i] == p[i];
    }
  }

  /** `ZeroFollowed` is kept by concatenation. */
  lemma ZeroFollowedAppend(a: string, b: string)
    requires ZeroFollowed(a) && ZeroFollowed(b)
    ensures ZeroFollowed(a + b)
  {
    forall i | 0 <= i < |a + b| && (a + b)[i] == ZERO
      ensures i + 1 < |a + b| && (a + b)[i + 1] != ZERO
    {
      if i >= |a| { assert (a + b)[i] == b[i - |a|]; }
    }
  }

  /** The composed string (app.js:250-257) consists of glyphs, every 零 in it is
      followed by a character other than 零, and only group 0 contributes 元. */
  lemma {:induction false} ComposeShape(v: nat, i: nat)
    requires i <= |GROUP_UNITS|
    ensures ZeroFollowed(Compose(v, i))
    ensures forall k :: 0 <= k < |Compose(v, i)| ==> IsGlyph(Compose(v, i)[k])
    ensures i > 0 ==> YUAN !in Compose(v, i)
    decreases |GROUP_UNITS| - i
  {
    if i < |GROUP_UNITS| && v > 0 {
      ComposeShape(v / GROUP_BASE, i + 1);
      var g := GROUP_UNITS[i];
      assert IsGroupUnit(g) && (i > 0 ==> g != YUAN);
      CleanGroupShape(v, g);
      var c := CleanGroup(GroupDigits(v, 0));
      GroupAppend(Compose(v / GROUP_BASE, i + 1), c, g);
    }
  }

  /** One step of the outer loop keeps the shape of the accumulated string. */
  lemma GroupAppend(a: string, c: string, g: char)
    requires ZeroFollowed(a) && forall k :: 0 <= k < |a| ==> IsGlyph(a[k])
    requires ZeroFollowed(c + [g]) && forall k :: 0 <= k < |c| ==> IsDigitGlyph(c[k]) || IsPositionUnit(c[k])
    requires IsGroupUnit(g)
    ensures ZeroFollowed(a + c + [g])
    ensures forall k :: 0 <= k < |a + c + [g]| ==> IsGlyph((a + c + [g])[k])
    ensures forall k :: 0 <= k < |a + c| ==> IsGlyph((a + c)[k])
    ensures YUAN !in a ==> YUAN !in a + c
    ensures YUAN !in a && g != YUAN ==> YUAN !in a + c + [g]
  {
    ZeroFollowedAppend(a, c + [g]);
    assert a + c + [g] == a + (c + [g]);
    forall k | 0 <= k < |a + c + [g]|
      ensures IsGlyph((a + c + [g])[k])
    {
      if k < |a| { assert (a + c + [g])[k] == a[k]; }
      else if k < |a| + |c| { assert (a + c + [g])[k] == c[k - |a|]; }
    }
    forall k | 0 <= k < |a + c|
      ensures IsGlyph((a + c)[k])
    {
      assert (a + c)[k] == (a + c + [g])[k];
    }
    if YUAN !in a {
      assert YUAN !in c by {
        forall k | 0 <= k < |c| ensures c[k] != YUAN {
          assert IsDigitGlyph(c[k]) || IsPositionUnit(c[k]);
        }
      }
    }
  }

  /** For a non-zero value the accumulated string is the higher groups and the
      cleaned group 0, then the single 元 of group 0. */
  lemma ComposeEndsInYuan(v: nat) returns (x: string)
    requires v > 0
    ensures Compose(v, 0) == x + [YUAN]
    ensures YUAN !in x
    ensures ZeroFollowed(x + [YUAN])
    ensures forall k :: 0 <= k < |x| ==> IsGlyph(x[k])
  {
    var a := Compose(v / GROUP_BASE, 1);
    var c := CleanGroup(GroupDigits(v, 0));
    x := a + c;
    assert Compose(v, 0) == x + [YUAN];
    assert YUAN !in a && ZeroFollowed(a) && forall k :: 0 <= k < |a| ==> IsGlyph(a[k]) by {
      ComposeShape(v / GROUP_BASE, 1);
    }
    assert ZeroFollowed(c + [YUAN]) && forall k :: 0 <= k < |c| ==> IsDigitGlyph(c[k]) || IsPositionUnit(c[k]) by {
      CleanGroupShape(v, YUAN);
    }
    GroupAppend(a, c, YUAN);
  }

  /** `p.replace(/(零.)*零$/, '')` removes the longest suffix of shape
      `(零.)*零`, and nothing when `p` does not end in 零. */
  lemma TrimTrailingZerosSpec(p: string)
    ensures var r := TrimTrailingZeros(p);
      && |r| <= |p| && r == p[..|r|]
      && (|r| == |p| ==> p == [] || p[|p| - 1] != ZERO)
      && (|r| < |p| ==> p[|r|] == ZERO && MatchesWith(p[|r|..], [ZERO], true, (|p| - |r| - 1) / 2))
      && forall j: nat, m: nat :: j < |r| ==> !MatchesWith(p[j..], [ZERO], true, m)
  {
    var found := SearchFrom(p, [ZERO], true, 0);
    if found.None? {
      ReplaceFirstNoMatch(p, [ZERO], true, []);
      if p != [] {
        assert !MatchesWith(p[|p| - 1..], [ZERO], true, 0);
      }
      assert p[..|p|] == p;
    } else {
      var k, l := found.value.start, found.value.len;
      ReplaceFirstMatch(p, [ZERO], true, [], k, l);
      MatchesWithShape(p[k..], [ZERO], true, (l - 1) / 2);
      assert TrimTrailingZeros(p) == p[..k];
    }
  }

  /** A string that does not end in 零 is left as it is by app.js:256's first rewrite. */
  lemma TrimTrailingZerosKeeps(p: string)
    requires p == [] || p[|p| - 1] != ZERO
    ensures TrimTrailingZeros(p) == p
  {
    TrimTrailingZerosSpec(p);
    var r := TrimTrailingZeros(p);
    if |r| < |p| {
      MatchesWithShape(p[|r|..], [ZERO], true, (|p| - |r| - 1) / 2);
    }
  }

  /** `/(零.)*零元/` on a string whose only 元 is its last character matches
      exactly where `/(零.)*零$/` matches on what precedes the 元, so the first
      clean-up rewrite of app.js:258 trims the text before 元 as app.js:256 trims a group. */
  lemma DropZerosIsTrim(x: string)
    requires YUAN !in x
    ensures DropZerosBeforeYuan(x + [YUAN]) == TrimTrailingZeros(x) + [YUAN]
  {
    ReplaceBeforeLast(x, YUAN);
  }

  /** Hence what is left before 元 is a prefix of `x` that does not end in 零. */
  lemma DropZerosBeforeYuanShape(x: string) returns (u: string)
    requires YUAN !in x && ZeroFollowed(x + [YUAN])
    ensures u == TrimTrailingZeros(x) && DropZerosBeforeYuan(x + [YUAN]) == u + [YUAN]
    ensures |u| <= |x| && u == x[..|u|]
    ensures u == [] || u[|u| - 1] != ZERO
  {
    DropZerosIsTrim(x);
    TrimTrailingZerosSpec(x);
    u := TrimTrailingZeros(x);
    if 0 < |u| < |x| {
      assert (x + [YUAN])[|u| - 1] == x[|u| - 1] && (x + [YUAN])[|u|] == ZERO;
    }
  }

  /** The clean-up of app.js:258 on the accumulated string of a non-zero value:
      the `/^整$/` rewrite never fires, the result ends in its only 元, holds no
      整, and has no two adjacent 零. */
  lemma CleanupShape(x: string)
    requires YUAN !in x && ZeroFollowed(x + [YUAN])
    requires forall k :: 0 <= k < |x| ==> IsGlyph(x[k])
    ensures var r := Cleanup(x + [YUAN]);
      && r == CollapseZeroRuns(DropZerosBeforeYuan(x + [YUAN]))
      && |r| > 0 && r[|r| - 1] == YUAN && YUAN !in r[..|r| - 1]
      && NoDoubledZero(r) && WHOLE !in r
  {
    var u := DropZerosBeforeYuanShape(x);
    GlyphPrefix(x, |u|);
    var w := ReplaceAllRuns(u, [ZERO]);
    assert CollapseZeroRuns(u + [YUAN]) == w + [YUAN] by {
      ReplaceAllRunsConcat(u, [YUAN], [ZERO]);
      ReplaceAllRunsNoZero([YUAN], [ZERO]);
    }
    assert YUAN !in w && WHOLE !in w by {
      ReplaceAllRunsAbsent(u, YUAN, [ZERO]);
      ReplaceAllRunsAbsent(u, WHOLE, [ZERO]);
    }
    assert NoDoubledZero(w) by {
      ReplaceAllRunsNoDoubledZero(u);
    }
    AppendNonZero(w, YUAN);
  }

  /** A prefix of glyphs without 元 is made of characters `.` matches and holds neither 元 nor 整. */
  lemma GlyphPrefix(x: string, k: nat)
    requires k <= |x| && YUAN !in x
    requires forall i :: 0 <= i < |x| ==> IsGlyph(x[i])
    ensures AllDots(x[..k]) && YUAN !in x[..k] && WHOLE !in x[..k]
  {
    forall i | 0 <= i < k
      ensures IsDot(x[..k][i]) && x[..k][i] != YUAN && x[..k][i] != WHOLE
    {
      assert x[..k][i] == x[i] && IsGlyph(x[i]);
    }
  }

  /** Appending a character other than 零 keeps 零 undoubled. */
  lemma AppendNonZero(w: string, c: char)
    requires NoDoubledZero(w) && c != ZERO
    ensures NoDoubledZero(w + [c]) && (w + [c])[..|w|] == w
  {
    var r := w + [c];
    forall i | 0 < i < |r| && r[i] == ZERO ensures r[i - 1] != ZERO {
      assert i < |w| && r[i] == w[i] && r[i - 1] == w[i - 1];
    }
  }

  /** For a non-zero value the result is the composed groups with the zeros
      before 元 trimmed and every run of `零.` pairs collapsed, then 元. */
  lemma FormatFromParts(v: nat, x: string)
    requires v > 0 && Compose(v, 0) == x + [YUAN]
    ensures Format(v) == CollapseZeroRuns(TrimTrailingZeros(x)) + [YUAN]
  {
    var x' := ComposeEndsInYuan(v);
    assert x' == x by {
      assert (x + [YUAN])[..|x|] == x && (x' + [YUAN])[..|x'|] == x';
    }
    var u := DropZerosBeforeYuanShape(x);
    var w := CollapseZeroRuns(u);
    assert Cleanup(x + [YUAN]) == CollapseZeroRuns(u + [YUAN]) by {
      CleanupShape(x);
    }
    assert CollapseZeroRuns(u + [YUAN]) == w + [YUAN] by {
      ReplaceAllRunsConcat(u, [YUAN], [ZERO]);
      ReplaceAllRunsNoZero([YUAN], [ZERO]);
    }
    assert Format(v) == "" + Cleanup(Compose(v, 0));
  }

  /** 0 is written 零元 without entering the loops (app.js:243). */
  lemma FormatZero()
    ensures Format(0) == ['零', '元']
  {
  }

  /** A negative amount is 負 followed by the numeral of its magnitude (app.js:247-248). */
  lemma FormatNegative(n: int)
    requires n > 0
    ensures Format(-n) == MINUS + Format(n)
  {
    var r := Cleanup(Compose(n, 0));
    assert Format(n) == r by {
      assert Abs(n) == n && Head(n) == "" && "" + r == r;
    }
    assert Format(-n) == MINUS + r by {
      assert Abs(-n) == n && Head(-n) == MINUS;
    }
  }

  /** Every result ends in 元, and that is its only 元 (app.js:250, 256, 258). */
  lemma FormatEndsInSingleYuan(n: int)
    ensures var r := Format(n); |r| > 0 && r[|r| - 1] == YUAN && YUAN !in r[..|r| - 1]
  {
    if n != 0 {
      var x := ComposeEndsInYuan(Abs(n));
      CleanupShape(x);
      var head := Head(n);
      var r := Cleanup(Compose(Abs(n), 0));
      assert Format(n) == head + r;
      assert (head + r)[..|head + r| - 1] == head + r[..|r| - 1];
    }
  }

  /** No result holds two adjacent 零: runs of `零.` pairs are collapsed after
      the zeros before 元 are gone (app.js:258). */
  lemma FormatNoDoubledZero(n: int)
    ensures NoDoubledZero(Format(n))
  {
    if n != 0 {
      var x := ComposeEndsInYuan(Abs(n));
      CleanupShape(x);
      var head := Head(n);
      var r := Cleanup(Compose(Abs(n), 0));
      var f := head + r;
      forall i | 0 < i < |f| && f[i] == ZERO ensures f[i - 1] != ZERO {
        if i > |head| { assert f[i] == r[i - |head|] && f[i - 1] == r[i - 1 - |head|]; }
      }
    }
  }

  /** No intermediate string holds 整, so the final `/^整$/` rewrite of
      app.js:258 never fires: 整 only comes from the caller (app.js:232). */
  lemma FormatNeverWhole(n: int)
    requires n != 0
    ensures var s := Compose(Abs(n), 0);
      && WHOLE !in s
      && Cleanup(s) == CollapseZeroRuns(DropZerosBeforeYuan(s))
      && WHOLE !in Format(n)
  {
    var s := Compose(Abs(n), 0);
    var x := ComposeEndsInYuan(Abs(n));
    assert WHOLE !in s by {
      forall k | 0 <= k < |x| ensures x[k] != WHOLE { assert IsGlyph(x[k]); }
    }
    var r := Cleanup(s);
    assert r == CollapseZeroRuns(DropZerosBeforeYuan(s)) && WHOLE !in r by {
      CleanupShape(x);
    }
    assert Format(n) == Head(n) + r;
  }
}
