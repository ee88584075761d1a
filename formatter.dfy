/** `App.numberToChinese` as the nested loops of app.js:242-259 run it, and
    the one use of it on app.js:232. Each method is proved against the
    functional specification in module Numerals. */
module Formatter {
  import opened JsRegex
  import opened Numerals

  /** `Number.MAX_SAFE_INTEGER`: up to this magnitude `n % 10` and
      `Math.floor(n / 10)` are exact on JavaScript numbers. */
  const MAX_SAFE_INTEGER: int := 9007199254740991

  /** The most digits the loops can read: three groups of four. */
  const MAX_DIGITS: nat := 12

  function Pow10(k: nat): (r: nat)
    ensures r > 0
  {
    if k == 0 then 1 else 10 * Pow10(k - 1)
  }

  /** Quotient and remainder determine each other. */
  lemma DivUnique(a: nat, d: nat, q: nat, r: nat)
    requires d > 0 && a == q * d + r && r < d
    ensures a / d == q
  {
    var q0 := a / d;
    if q0 < q {
      MulLe(q0 + 1, q, d);
    } else if q < q0 {
      MulLe(q + 1, q0, d);
    }
  }

  lemma MulLe(x: nat, y: nat, d: nat)
    requires x <= y
    ensures x * d <= y * d
  {
    assert y * d == x * d + (y - x) * d;
  }

  /** `a` with its lowest `k` decimal digits dropped, one division by 10 at a
      time, as the inner loop of app.js:252-255 does it. */
  function DropDigits(a: nat, k: nat): nat {
    if k == 0 then a else DropDigits(a, k - 1) / 10
  }

  /** The number of decimal digits of `a`, none for 0. */
  function Digits(a: nat): nat {
    if a == 0 then 0 else 1 + Digits(a / 10)
  }

  /** Dropping `k` digits leaves the other digits, and none once all are dropped. */
  lemma {:induction false} DigitsAfterDrop(a: nat, k: nat)
    ensures Digits(DropDigits(a, k)) == if k <= Digits(a) then Digits(a) - k else 0
  {
    if k > 0 {
      DigitsAfterDrop(a, k - 1);
    }
  }

  /** Something is left after dropping `k` digits exactly when `a` has more than `k`. */
  lemma DigitsDrop(a: nat, k: nat)
    ensures DropDigits(a, k) > 0 <==> k < Digits(a)
  {
    DigitsAfterDrop(a, k);
  }

  /** Dropping `k` digits one at a time is dividing by 10^k. */
  lemma {:induction false} DropDigitsIsDiv(a: nat, k: nat)
    ensures DropDigits(a, k) == a / Pow10(k)
  {
    if k > 0 {
      DropDigitsIsDiv(a, k - 1);
      DivStep(a, k - 1);
    }
  }

  lemma DropOne(a: nat, k: nat)
    ensures DropDigits(a, k + 1) == DropDigits(a, k) / 10
  {
  }

  /** Dropping `j` more digits from what is left after `k`. */
  lemma {:induction false} DropMore(a: nat, k: nat, j: nat)
    ensures DropDigits(DropDigits(a, k), j) == DropDigits(a, k + j)
  {
    if j > 0 {
      DropMore(a, k, j - 1);
    }
  }

  /** Once every digit has been dropped, dropping more leaves 0. */
  lemma {:induction false} DropDigitsExhausted(a: nat, j: nat, k: nat)
    requires j <= k && DropDigits(a, j) == 0
    ensures DropDigits(a, k) == 0
    decreases k
  {
    if k > j {
      DropDigitsExhausted(a, j, k - 1);
    }
  }

  /** Dropping one more digit is dividing by the next power of ten. */
  lemma DivStep(a: nat, k: nat)
    ensures a / Pow10(k) / 10 == a / Pow10(k + 1)
  {
    var p := Pow10(k);
    var q, r := a / p, a % p;
    var q', r' := q / 10, q % 10;
    assert a == q * p + r;
    assert q * p == q' * (10 * p) + r' * p by {
      assert q == q' * 10 + r';
    }
    MulLe(r', 9, p);
    DivUnique(a, 10 * p, q', r' * p + r);
  }

  /** Four digits dropped is one group dropped. */
  lemma GroupDropped(a: nat)
    ensures DropDigits(a, |POSITION_UNITS|) == a / GROUP_BASE
  {
    DropDigitsIsDiv(a, |POSITION_UNITS|);
    assert Pow10(4) == GROUP_BASE;
  }

  /** One inner-loop step (app.js:253-254) moves the lowest remaining digit,
      with its position unit, to the front of the group string. */
  lemma DigitStep(v: nat, m: nat, j: nat, p: string)
    requires j < |POSITION_UNITS| && m > 0
    requires GroupDigits(v, 0) == GroupDigits(m, j) + p
    ensures GroupDigits(v, 0) == GroupDigits(m / 10, j + 1) + ([DIGITS[m % 10]] + POSITION_UNITS[j] + p)
  {
    var rest := GroupDigits(m / 10, j + 1);
    var d := [DIGITS[m % 10]] + POSITION_UNITS[j];
    assert GroupDigits(m, j) == rest + d;
    ConcatAssoc(rest, d, p);
  }

  /** One outer-loop step (app.js:256) moves the lowest remaining group,
      cleaned and with its group unit, to the front of the accumulator. */
  lemma GroupStep(v: nat, i: nat, s: string)
    requires v > 0 && i < |GROUP_UNITS|
    ensures Compose(v, i) + s
      == Compose(v / GROUP_BASE, i + 1) + (CleanGroup(GroupDigits(v, 0)) + [GROUP_UNITS[i]] + s)
  {
    var higher := Compose(v / GROUP_BASE, i + 1);
    var c := CleanGroup(GroupDigits(v, 0));
    var u := [GROUP_UNITS[i]];
    assert Compose(v, i) == higher + c + u;
    ConcatAssoc(higher, c, u);
    ConcatAssoc(higher, c + u, s);
  }

  /** The inner loop of `numberToChinese` (app.js:252-255): up to four digits
      of `v`, least significant first, each prepended to the group string
      with its position unit. It takes `j` steps, each dividing by 10: as
      many as `v` has digits, but at most four. What remains is `v` with its
      lowest group dropped. */
  method ReadGroup(v: nat) returns (p: string, m: nat, j: nat)
    ensures p == GroupDigits(v, 0)
    ensures m == DropDigits(v, |POSITION_UNITS|)
    ensures j <= |POSITION_UNITS| && m == DropDigits(v, j)
    ensures j == |POSITION_UNITS| || m == 0
    ensures j <= Digits(v) && Digits(m) == Digits(v) - j
    ensures j == if Digits(v) < |POSITION_UNITS| then Digits(v) else |POSITION_UNITS|
  {
    m := v;
    p := "";
    j := 0;
    while j < |POSITION_UNITS| && m > 0
      invariant j <= |POSITION_UNITS|
      invariant GroupDigits(v, 0) == GroupDigits(m, j) + p
      invariant m == DropDigits(v, j)
      invariant j <= Digits(v) && Digits(m) == Digits(v) - j
      decreases |POSITION_UNITS| - j
    {
      DigitStep(v, m, j, p);
      DropOne(v, j);
      p := [DIGITS[m % 10]] + POSITION_UNITS[j] + p;
      m := m / 10;
      j := j + 1;
    }
    assert GroupDigits(m, j) == "";
    if j < |POSITION_UNITS| {
      DropDigitsExhausted(v, j, |POSITION_UNITS|);
    }
  }

  /** What the outer loop of `numberToChinese` (app.js:250-257) keeps after
      `i` groups of the magnitude `a`: `s` is the lower groups of the final
      accumulated string, and `m` is `a` with the `digits` digits read so far
      dropped, which is four per group unless the value ran out. */
  ghost predicate Progress(a: nat, m: nat, i: nat, s: string, digits: nat) {
    && i <= |GROUP_UNITS|
    && Compose(a, 0) == Compose(m, i) + s
    && digits <= 4 * i
    && m == DropDigits(a, digits)
    && (m > 0 ==> digits == 4 * i)
    && digits <= Digits(a)
  }

  /** The digit count across one pass of the outer loop: `j` more digits are
      dropped, and there were at least that many left. */
  lemma CountStep(a: nat, digits: nat, v: nat, j: nat, m: nat, digits': nat)
    requires v == DropDigits(a, digits) && digits <= Digits(a)
    requires m == DropDigits(v, j) && j <= Digits(v) && digits' == digits + j
    ensures m == DropDigits(a, digits') && digits' <= Digits(a)
  {
    DropMore(a, digits, j);
    DigitsAfterDrop(a, digits);
  }

  /** One pass of the outer loop keeps `Progress`. */
  lemma ProgressStep(a: nat, v: nat, i: nat, s: string, digits: nat, p: string, m: nat, j: nat,
                      i': nat, s': string, digits': nat)
    requires Progress(a, v, i, s, digits) && i < |GROUP_UNITS| && v > 0
    requires p == GroupDigits(v, 0) && m == DropDigits(v, |POSITION_UNITS|)
    requires j <= |POSITION_UNITS| && m == DropDigits(v, j)
    requires j == |POSITION_UNITS| || m == 0
    requires j <= Digits(v)
    requires i' == i + 1 && s' == CleanGroup(p) + [GROUP_UNITS[i]] + s && digits' == digits + j
    ensures Progress(a, m, i', s', digits')
  {
    assert Compose(a, 0) == Compose(m, i') + s' by {
      GroupDropped(v);
      GroupStep(v, i, s);
    }
    CountStep(a, digits, v, j, m, digits');
  }

  /** `numberToChinese(n)` (app.js:242-259). The ghost `digits` counts the
      inner-loop steps, each of which divides the magnitude by 10: as many as
      the magnitude has decimal digits, but at most twelve. */
  method NumberToChinese(n: int) returns (r: string, ghost digits: nat)
    requires -MAX_SAFE_INTEGER <= n <= MAX_SAFE_INTEGER
    ensures r == Format(n)
    ensures digits <= MAX_DIGITS
    ensures n != 0 ==> digits == MAX_DIGITS || DropDigits(Abs(n), digits) == 0
    ensures digits == if Digits(Abs(n)) < MAX_DIGITS then Digits(Abs(n)) else MAX_DIGITS
  {
    digits := 0;
    if n == 0 {
      return ZERO_YUAN, digits;
    }
    var head := if n < 0 then MINUS else "";
    var m: nat := Abs(n);
    ghost var a := m;
    var s := "";
    var i := 0;
    while i < |GROUP_UNITS| && m > 0
      invariant Progress(a, m, i, s, digits)
      decreases |GROUP_UNITS| - i
    {
      var v := m;
      var p, j;
      p, m, j := ReadGroup(v);
      ghost var s0, i0, digits0 := s, i, digits;
      s := CleanGroup(p) + [GROUP_UNITS[i]] + s;
      i := i + 1;
      digits := digits + j;
      ProgressStep(a, v, i0, s0, digits0, p, m, j, i, s, digits);
    }
    assert s == Compose(a, 0) by {
      assert Compose(m, i) == "";
    }
    assert digits == if Digits(a) < MAX_DIGITS then Digits(a) else MAX_DIGITS by {
      DigitsAfterDrop(a, digits);
    }
    r := head + Cleanup(s);
  }

  /** The Chinese total on the invoice (app.js:232): the amount in words
      followed by 整. */
  method TotalInWords(total: int) returns (words: string)
    requires -MAX_SAFE_INTEGER <= total <= MAX_SAFE_INTEGER
    ensures words == Format(total) + [WHOLE]
  {
    var amount, _ := NumberToChinese(total);
    words := amount + [WHOLE];
  }

  /** The invoice total always reads `…元整`, and its only 整 is the last
      character: the amount never holds one (app.js:232, 258). */
  lemma TotalInWordsShape(total: int)
    ensures var w := Format(total) + [WHOLE];
      && |w| >= 2 && w[|w| - 2] == YUAN && w[|w| - 1] == WHOLE
      && WHOLE !in w[..|w| - 1]
  {
    FormatEndsInSingleYuan(total);
    var f := Format(total);
    if total != 0 {
      FormatNeverWhole(total);
    } else {
      assert f == ['零', '元'];
    }
    assert (f + [WHOLE])[..|f|] == f;
  }
}
