/** The three kinds of regular-expression rewrites that `numberToChinese` applies
    (app.js:256 and app.js:258), written as plain string functions with the exact
    semantics of JavaScript's `String.prototype.replace`:

    - `s.replace(/(零.)*LIT/, R)` and `s.replace(/(零.)*LIT$/, R)`: the leftmost
      position where the pattern matches wins, and at that position the greedy
      star with backtracking takes as many `零.` pairs as still let LIT follow;
    - `s.replace(/(零.)+/g, R)`: scan from left to right, replacing every maximal
      run of `零.` pairs and resuming after it;
    - `s.replace(/^LIT$/, R)`: the whole string equals LIT.

    No flag is used, so `.` matches any UTF-16 code unit except a line
    terminator. Every glyph in the formatter lies in the Basic Multilingual
    Plane, so one Dafny `char` is one code unit.
 */
module JsRegex {

  datatype Option<T> = None | Some(value: T)

  /** A match: where it starts and how many characters it covers. */
  datatype Match = Match(start: nat, len: nat)

  const ZERO: char := '零'

  /** What `.` matches without the `s` flag. */
  predicate IsDot(c: char) {
    c != '\n' && c != '\r' && c != '\U{2028}' && c != '\U{2029}'
  }

  /** LIT at the start of `s`; with `anchored` (a trailing `$`) LIT must also end `s`. */
  predicate LitAt(s: seq<char>, lit: seq<char>, anchored: bool) {
    if anchored then s == lit else lit <= s
  }

  /** Reference semantics: `s` starts with exactly `m` pairs `零.` followed by LIT. */
  predicate MatchesWith(s: seq<char>, lit: seq<char>, anchored: bool, m: nat)
    decreases m
  {
    if m == 0 then LitAt(s, lit, anchored)
    else 2 <= |s| && s[0] == ZERO && IsDot(s[1]) && MatchesWith(s[2..], lit, anchored, m - 1)
  }

  /** The backtracking matcher for `(零.)*LIT` at the start of `s`: try one more
      pair first, and fall back to LIT only when the longer attempt fails.
      Returns the length of the match. */
  function MatchPairsThen(s: seq<char>, lit: seq<char>, anchored: bool): (r: Option<nat>)
    ensures r.Some? ==> |lit| <= r.value <= |s|
    decreases |s|
  {
    var more := if 2 <= |s| && s[0] == ZERO && IsDot(s[1])
                then MatchPairsThen(s[2..], lit, anchored) else None;
    if more.Some? then Some(more.value + 2)
    else if LitAt(s, lit, anchored) then Some(|lit|)
    else None
  }

  /** The greedy matcher finds a match exactly when some number of pairs works,
      and then it takes the largest such number. */
  lemma {:induction false} MatchPairsThenIsGreedy(s: seq<char>, lit: seq<char>, anchored: bool)
    ensures MatchPairsThen(s, lit, anchored).Some? ==>
      var l := MatchPairsThen(s, lit, anchored).value;
      (l - |lit|) % 2 == 0 && MatchesWith(s, lit, anchored, (l - |lit|) / 2)
    ensures forall m: nat :: MatchesWith(s, lit, anchored, m) ==>
      MatchPairsThen(s, lit, anchored).Some? && 2 * m + |lit| <= MatchPairsThen(s, lit, anchored).value
    decreases |s|
  {
    var r := MatchPairsThen(s, lit, anchored);
    if 2 <= |s| && s[0] == ZERO && IsDot(s[1]) {
      var t := s[2..];
      MatchPairsThenIsGreedy(t, lit, anchored);
      var more := MatchPairsThen(t, lit, anchored);
      if more.Some? {
        var m' := (more.value - |lit|) / 2;
        assert MatchesWith(s, lit, anchored, m' + 1);
      }
      forall m: nat | MatchesWith(s, lit, anchored, m)
        ensures r.Some? && 2 * m + |lit| <= r.value
      {
        if m > 0 {
          assert MatchesWith(t, lit, anchored, m - 1);
        }
      }
    } else {
      forall m: nat | MatchesWith(s, lit, anchored, m)
        ensures r.Some? && 2 * m + |lit| <= r.value
      {
        assert m == 0;
      }
    }
  }

  /** The leftmost position at or after `k` where `(零.)*LIT` matches, tried in
      order as the regular-expression engine does. */
  function SearchFrom(s: seq<char>, lit: seq<char>, anchored: bool, k: nat): (r: Option<Match>)
    requires k <= |s|
    ensures r.Some? ==>
              && k <= r.value.start <= |s|
              && MatchPairsThen(s[r.value.start..], lit, anchored) == Some(r.value.len)
              && r.value.start + r.value.len <= |s|
    ensures r.Some? ==> forall j :: k <= j < r.value.start ==> MatchPairsThen(s[j..], lit, anchored).None?
    ensures r.None? ==> forall j :: k <= j <= |s| ==> MatchPairsThen(s[j..], lit, anchored).None?
    decreases |s| - k
  {
    var here := MatchPairsThen(s[k..], lit, anchored);
    if here.Some? then Some(Match(k, here.value))
    else if k == |s| then None
    else SearchFrom(s, lit, anchored, k + 1)
  }

  /** `s.replace(/(零.)*LIT/, repl)`, or with a trailing `$` when `anchored`. */
  function ReplaceFirst(s: seq<char>, lit: seq<char>, anchored: bool, repl: seq<char>): seq<char> {
    match SearchFrom(s, lit, anchored, 0)
    case None => s
    case Some(m) => s[..m.start] + repl + s[m.start + m.len..]
  }

  /** `s.replace(/^LIT$/, repl)`. */
  function ReplaceWhole(s: seq<char>, lit: seq<char>, repl: seq<char>): seq<char> {
    if s == lit then repl else s
  }

  /** Length of the maximal run of `零.` pairs at the start of `s` (greedy `(零.)+` or nothing). */
  function PairRun(s: seq<char>): (r: nat)
    ensures r <= |s| && r % 2 == 0
    ensures r > 0 <==> 2 <= |s| && s[0] == ZERO && IsDot(s[1])
    decreases |s|
  {
    if 2 <= |s| && s[0] == ZERO && IsDot(s[1]) then 2 + PairRun(s[2..]) else 0
  }

  /** `s.replace(/(零.)+/g, repl)`: leftmost match, replace, resume after it. */
  function ReplaceAllRuns(s: seq<char>, repl: seq<char>): seq<char>
    decreases |s|
  {
    var run := PairRun(s);
    if run > 0 then repl + ReplaceAllRuns(s[run..], repl)
    else if s == [] then []
    else [s[0]] + ReplaceAllRuns(s[1..], repl)
  }

  /** Every character of `s` is matched by `.`: `s` holds no line terminator. */
  predicate AllDots(s: seq<char>) {
    forall i :: 0 <= i < |s| ==> IsDot(s[i])
  }

  /** No 零 immediately follows another 零. */
  predicate NoDoubledZero(s: seq<char>) {
    forall i :: 0 < i < |s| && s[i] == ZERO ==> s[i - 1] != ZERO
  }

  /** What a match of `m` pairs and LIT covers: LIT sits right after the pairs,
      the match starts with 零 when there is a pair, and an anchored match
      reaches the end. */
  lemma {:induction false} MatchesWithShape(s: seq<char>, lit: seq<char>, anchored: bool, m: nat)
    requires MatchesWith(s, lit, anchored, m)
    ensures 2 * m + |lit| <= |s| && s[2 * m..2 * m + |lit|] == lit
    ensures anchored ==> |s| == 2 * m + |lit|
    ensures m > 0 ==> s[0] == ZERO
    decreases m
  {
    if m > 0 {
      MatchesWithShape(s[2..], lit, anchored, m - 1);
      assert s[2..][2 * (m - 1)..2 * (m - 1) + |lit|] == s[2 * m..2 * m + |lit|];
    }
  }

  /** With no match anywhere, the first-match replacement leaves the string unchanged. */
  lemma ReplaceFirstNoMatch(s: seq<char>, lit: seq<char>, anchored: bool, repl: seq<char>)
    requires SearchFrom(s, lit, anchored, 0).None?
    ensures ReplaceFirst(s, lit, anchored, repl) == s
    ensures forall j: nat, m: nat :: j <= |s| ==> !MatchesWith(s[j..], lit, anchored, m)
  {
    forall j: nat, m: nat | j <= |s|
      ensures !MatchesWith(s[j..], lit, anchored, m)
    {
      MatchPairsThenIsGreedy(s[j..], lit, anchored);
    }
  }

  /** Otherwise the leftmost match, of some number of pairs followed by LIT, is
      replaced, and an anchored match runs to the end of the string. */
  lemma ReplaceFirstMatch(s: seq<char>, lit: seq<char>, anchored: bool, repl: seq<char>, k: nat, l: nat)
    requires SearchFrom(s, lit, anchored, 0) == Some(Match(k, l))
    ensures k + l <= |s| && |lit| <= l && (l - |lit|) % 2 == 0
    ensures MatchesWith(s[k..], lit, anchored, (l - |lit|) / 2)
    ensures ReplaceFirst(s, lit, anchored, repl) == s[..k] + repl + s[k + l..]
    ensures anchored ==> k + l == |s|
    ensures forall j: nat, m: nat :: j < k ==> !MatchesWith(s[j..], lit, anchored, m)
  {
    forall j: nat, m: nat | j < k
      ensures !MatchesWith(s[j..], lit, anchored, m)
    {
      MatchPairsThenIsGreedy(s[j..], lit, anchored);
    }
    MatchPairsThenIsGreedy(s[k..], lit, anchored);
    MatchesWithShape(s[k..], lit, anchored, (l - |lit|) / 2);
  }

  /** The greedy `(零.)+` run is maximal: `s` starts with `m` pairs exactly when they fit in the run. */
  lemma {:induction false} PairRunIsMaximal(s: seq<char>, m: nat)
    ensures MatchesWith(s, [], false, m) <==> 2 * m <= PairRun(s)
    decreases m
  {
    if m > 0 && 2 <= |s| && s[0] == ZERO && IsDot(s[1]) {
      PairRunIsMaximal(s[2..], m - 1);
    }
  }

  /** After a maximal run, no further pair starts. */
  lemma {:induction false} PairRunStops(s: seq<char>)
    ensures PairRun(s[PairRun(s)..]) == 0
    decreases |s|
  {
    if PairRun(s) > 0 {
      PairRunStops(s[2..]);
      assert s[PairRun(s)..] == s[2..][PairRun(s[2..])..];
    }
  }

  /** The global rewrite agrees with the reference reading of `(零.)+`: up to
      the leftmost position where one pair `零.` matches, the string is copied;
      there the greedy run of pairs is replaced, and the scan resumes after it. */
  lemma ReplaceAllRunsLeftmost(s: seq<char>, repl: seq<char>, k: nat)
    requires k <= |s| && MatchesWith(s[k..], [], false, 1)
    requires forall j :: 0 <= j < k ==> !MatchesWith(s[j..], [], false, 1)
    ensures PairRun(s[k..]) > 0
    ensures ReplaceAllRuns(s, repl) == s[..k] + repl + ReplaceAllRuns(s[k + PairRun(s[k..])..], repl)
  {
    PairRunIsMaximal(s[k..], 1);
    forall j | 0 <= j < k
      ensures PairRun(s[j..]) == 0
    {
      PairRunIsMaximal(s[j..], 1);
    }
    ReplaceAllRunsFirstRun(s, repl, k);
  }

  /** The same, with the leftmost match given as the first non-empty greedy run. */
  lemma {:induction false} ReplaceAllRunsFirstRun(s: seq<char>, repl: seq<char>, k: nat)
    requires k <= |s| && PairRun(s[k..]) > 0
    requires forall j :: 0 <= j < k ==> PairRun(s[j..]) == 0
    ensures ReplaceAllRuns(s, repl) == s[..k] + repl + ReplaceAllRuns(s[k + PairRun(s[k..])..], repl)
    decreases k
  {
    if k == 0 {
      assert s[k..] == s && s[..k] == [];
    } else {
      var t := s[1..];
      assert PairRun(s) == 0 by {
        assert s[0..] == s;
      }
      ReplaceAllRunsKeep(s, repl);
      forall j | 0 <= j < k - 1
        ensures PairRun(t[j..]) == 0
      {
        assert t[j..] == s[j + 1..];
      }
      assert t[k - 1..] == s[k..];
      ReplaceAllRunsFirstRun(t, repl, k - 1);
      var run := PairRun(s[k..]);
      TailSlices(s, k, run);
      var rest := ReplaceAllRuns(s[k + run..], repl);
      assert ReplaceAllRuns(t, repl) == t[..k - 1] + repl + rest;
      PrependKept(s[0], t[..k - 1], repl, rest);
    }
  }

  /** Where no run starts, the global rewrite keeps the first character. */
  lemma ReplaceAllRunsKeep(s: seq<char>, repl: seq<char>)
    requires s != [] && PairRun(s) == 0
    ensures ReplaceAllRuns(s, repl) == [s[0]] + ReplaceAllRuns(s[1..], repl)
  {
  }

  lemma PrependKept(c: char, a: seq<char>, repl: seq<char>, rest: seq<char>)
    ensures [c] + (a + repl + rest) == ([c] + a) + repl + rest
  {
  }

  /** Slicing `s` after its first character shifts every index by one. */
  lemma TailSlices(s: seq<char>, k: nat, run: nat)
    requires 0 < k && k + run <= |s|
    ensures s[1..][k - 1 + run..] == s[k + run..]
    ensures [s[0]] + s[1..][..k - 1] == s[..k]
  {
  }

  /** Where no pair `零.` matches at any position, the global rewrite changes nothing. */
  lemma {:induction false} ReplaceAllRunsNoMatch(s: seq<char>, repl: seq<char>)
    requires forall j :: 0 <= j <= |s| ==> !MatchesWith(s[j..], [], false, 1)
    ensures ReplaceAllRuns(s, repl) == s
    decreases |s|
  {
    if s != [] {
      assert !MatchesWith(s[0..], [], false, 1);
      assert s[0..] == s;
      PairRunIsMaximal(s, 1);
      var t := s[1..];
      forall j | 0 <= j <= |t|
        ensures !MatchesWith(t[j..], [], false, 1)
      {
        assert t[j..] == s[j + 1..];
      }
      ReplaceAllRunsNoMatch(t, repl);
      assert [s[0]] + t == s;
    }
  }

  /** Cutting a string where it neither ends in 零 on the left nor starts with
      零 on the right splits no run, so the global replacement works on each
      side separately. */
  lemma {:induction false} ReplaceAllRunsConcat(a: seq<char>, b: seq<char>, repl: seq<char>)
    requires a == [] || a[|a| - 1] != ZERO
    requires b == [] || b[0] != ZERO
    ensures ReplaceAllRuns(a + b, repl) == ReplaceAllRuns(a, repl) + ReplaceAllRuns(b, repl)
    decreases |a|
  {
    if a == [] {
      assert a + b == b;
    } else {
      PairRunConcat(a, b);
      var run := if PairRun(a) > 0 then PairRun(a) else 1;
      var head := if PairRun(a) > 0 then repl else [a[0]];
      var rest := a[run..];
      assert (a + b)[run..] == rest + b;
      assert rest == [] || rest[|rest| - 1] == a[|a| - 1];
      ReplaceAllRunsConcat(rest, b, repl);
      ReplaceAllRunsUnfold(a + b, repl);
      ReplaceAllRunsUnfold(a, repl);
      ConcatAssoc(head, ReplaceAllRuns(rest, repl), ReplaceAllRuns(b, repl));
    }
  }

  lemma ReplaceAllRunsUnfold(s: seq<char>, repl: seq<char>)
    requires s != []
    ensures ReplaceAllRuns(s, repl) ==
      (if PairRun(s) > 0 then repl else [s[0]]) + ReplaceAllRuns(s[if PairRun(s) > 0 then PairRun(s) else 1..], repl)
  {
  }

  lemma ConcatAssoc<T>(h: seq<T>, x: seq<T>, y: seq<T>)
    ensures h + (x + y) == (h + x) + y
  {
  }

  lemma {:induction false} PairRunConcat(a: seq<char>, b: seq<char>)
    requires a != [] && a[|a| - 1] != ZERO
    requires b == [] || b[0] != ZERO
    ensures PairRun(a + b) == PairRun(a)
    decreases |a|
  {
    if 2 <= |a| && a[0] == ZERO && IsDot(a[1]) {
      assert (a + b)[2..] == a[2..] + b;
      if |a| > 2 {
        PairRunConcat(a[2..], b);
      } else {
        assert a[2..] + b == b;
      }
    }
  }

  /** Without 零 there is nothing to replace. */
  lemma {:induction false} ReplaceAllRunsNoZero(u: seq<char>, repl: seq<char>)
    requires ZERO !in u
    ensures ReplaceAllRuns(u, repl) == u
    decreases |u|
  {
    if u != [] {
      ReplaceAllRunsNoZero(u[1..], repl);
      assert u == [u[0]] + u[1..];
    }
  }

  /** Once every run of `零.` pairs has become a single 零, no two 零 are
      adjacent, provided the input has no line terminator and does not end in 零. */
  lemma {:induction false} ReplaceAllRunsNoDoubledZero(u: seq<char>)
    requires AllDots(u)
    requires u == [] || u[|u| - 1] != ZERO
    ensures NoDoubledZero(ReplaceAllRuns(u, [ZERO]))
    ensures u != [] ==> ReplaceAllRuns(u, [ZERO])[0] == u[0]
    decreases |u|
  {
    var run := PairRun(u);
    if run > 0 {
      var w := u[run..];
      PairRunStops(u);
      ReplaceAllRunsNoDoubledZero(w);
      if w != [] {
        assert w[0] != ZERO by {
          if |w| == 1 { assert w[0] == u[|u| - 1]; }
          else { assert IsDot(w[1]) by { assert w[1] == u[run + 1]; } }
        }
      }
    } else if u != [] {
      ReplaceAllRunsNoDoubledZero(u[1..]);
    }
  }

  /** The global replacement introduces no character other than those of `repl`. */
  lemma {:induction false} ReplaceAllRunsAbsent(u: seq<char>, c: char, repl: seq<char>)
    requires c !in u && c !in repl
    ensures c !in ReplaceAllRuns(u, repl)
    decreases |u|
  {
    var run := PairRun(u);
    if run > 0 {
      ReplaceAllRunsAbsent(u[run..], c, repl);
    } else if u != [] {
      ReplaceAllRunsAbsent(u[1..], c, repl);
    }
  }

  /** When `c` occurs only as the last character, `(零.)*零c` matches at the
      start of `t + [c]` exactly when `(零.)*零$` matches at the start of `t`,
      and covers the `c` as well. */
  lemma {:induction false} MatchBeforeLast(t: seq<char>, c: char)
    requires c !in t
    ensures MatchPairsThen(t + [c], [ZERO, c], false) ==
      match MatchPairsThen(t, [ZERO], true)
      case None => None
      case Some(l) => Some(l + 1)
    decreases |t|
  {
    var s := t + [c];
    if |t| >= 2 {
      assert s[0] == t[0] && s[1] == t[1];
      if t[0] == ZERO && IsDot(t[1]) {
        assert s[2..] == t[2..] + [c];
        MatchBeforeLast(t[2..], c);
      }
      assert s[1] == t[1] && t[1] != c;
    } else if |t| == 1 {
      assert s == [t[0], c];
      assert MatchPairsThen(s[2..], [ZERO, c], false) == None;
    } else {
      assert s == [c];
    }
  }

  /** The searches for the two patterns find the same leftmost start. */
  lemma {:induction false} SearchBeforeLast(t: seq<char>, c: char, k: nat)
    requires c !in t && k <= |t|
    ensures SearchFrom(t + [c], [ZERO, c], false, k) ==
      match SearchFrom(t, [ZERO], true, k)
      case None => None
      case Some(m) => Some(Match(m.start, m.len + 1))
    decreases |t| - k
  {
    var s := t + [c];
    if k == |t| {
      assert s[k..] == [c];
      assert SearchFrom(s, [ZERO, c], false, k + 1) == None by {
        assert s[k + 1..] == [];
      }
    } else {
      assert s[k..] == t[k..] + [c];
      MatchBeforeLast(t[k..], c);
      if MatchPairsThen(t[k..], [ZERO], true).None? {
        SearchBeforeLast(t, c, k + 1);
      }
    }
  }

  /** So `s.replace(/(零.)*零c/, c)` on `t + [c]` is `t.replace(/(零.)*零$/, '')` followed by `c`. */
  lemma ReplaceBeforeLast(t: seq<char>, c: char)
    requires c !in t
    ensures ReplaceFirst(t + [c], [ZERO, c], false, [c]) == ReplaceFirst(t, [ZERO], true, []) + [c]
  {
    SearchBeforeLast(t, c, 0);
    var s := t + [c];
    match SearchFrom(t, [ZERO], true, 0)
    case None =>
    case Some(m) =>
      ReplaceFirstMatch(t, [ZERO], true, [], m.start, m.len);
      assert s[..m.start] == t[..m.start];
      assert s[m.start + m.len + 1..] == [];
  }

  /** Removing a tail of shape `(零.)*零` from `a + z`: when neither of the last
      two characters of `a` is 零, no match can start inside `a`, so exactly
      `z` is removed. */
  lemma TrimAfter(a: seq<char>, z: seq<char>, m: nat)
    requires MatchesWith(z, [ZERO], true, m)
    requires |a| >= 1 ==> a[|a| - 1] != ZERO
    requires |a| >= 2 ==> a[|a| - 2] != ZERO
    ensures ReplaceFirst(a + z, [ZERO], true, []) == a
  {
    var s := a + z;
    assert s[|a|..] == z;
    MatchPairsThenIsGreedy(z, [ZERO], true);
    forall j: nat | j < |a|
      ensures MatchPairsThen(s[j..], [ZERO], true).None?
    {
      NoTrailingMatchInside(a, z, j);
    }
    var found := SearchFrom(s, [ZERO], true, 0);
    assert found.Some? && found.value.start == |a|;
    ReplaceFirstMatch(s, [ZERO], true, [], |a|, found.value.len);
  }

  lemma NoTrailingMatchInside(a: seq<char>, z: seq<char>, j: nat)
    requires j < |a|
    requires |a| >= 1 ==> a[|a| - 1] != ZERO
    requires |a| >= 2 ==> a[|a| - 2] != ZERO
    ensures MatchPairsThen((a + z)[j..], [ZERO], true).None?
  {
    var t := (a + z)[j..];
    MatchPairsThenIsGreedy(t, [ZERO], true);
    if MatchPairsThen(t, [ZERO], true).Some? {
      var l := MatchPairsThen(t, [ZERO], true).value;
      var d := if (|a| - j) % 2 == 1 then |a| - 1 - j else |a| - 2 - j;
      TrailingZerosAtEven(t, (l - 1) / 2, d);
      assert false;
    }
  }

  /** A match of `(零.)*零$` has 零 at every even offset. */
  lemma {:induction false} TrailingZerosAtEven(t: seq<char>, m: nat, d: nat)
    requires MatchesWith(t, [ZERO], true, m) && d % 2 == 0 && d < |t|
    ensures t[d] == ZERO
    decreases m
  {
    if d > 0 && m > 0 {
      TrailingZerosAtEven(t[2..], m - 1, d - 2);
    }
  }

  /** A prefix without 零 is copied unchanged by the global replacement. */
  lemma {:induction false} ReplaceAllRunsNoZeroPrefix(c: seq<char>, t: seq<char>, repl: seq<char>)
    requires ZERO !in c
    ensures ReplaceAllRuns(c + t, repl) == c + ReplaceAllRuns(t, repl)
    decreases |c|
  {
    if c != [] {
      assert (c + t)[1..] == c[1..] + t;
      ReplaceAllRunsNoZeroPrefix(c[1..], t, repl);
      ReplaceAllRunsUnfold(c + t, repl);
      ConcatAssoc([c[0]], c[1..], ReplaceAllRuns(t, repl));
      assert [c[0]] + c[1..] == c;
    } else {
      assert c + t == t;
    }
  }

  /** A whole run of pairs followed by something that starts no pair becomes one `repl`. */
  lemma ReplaceAllRunsRun(z: seq<char>, t: seq<char>, repl: seq<char>)
    requires z != [] && PairRun(z) == |z| && PairRun(t) == 0
    ensures ReplaceAllRuns(z + t, repl) == repl + ReplaceAllRuns(t, repl)
  {
    PairRunWhole(z, t);
    assert (z + t)[|z|..] == t;
  }

  lemma {:induction false} PairRunWhole(z: seq<char>, t: seq<char>)
    requires PairRun(z) == |z|
    ensures PairRun(z + t) == |z| + PairRun(t)
    decreases |z|
  {
    if z == [] {
      assert z + t == t;
    } else {
      assert (z + t)[2..] == z[2..] + t;
      PairRunWhole(z[2..], t);
    }
  }
}
