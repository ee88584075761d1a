# Chinese financial numerals for invoice totals

The quotation page writes the invoice total in traditional Chinese financial
numerals: `App.numberToChinese(n)` (app.js:242-259) turns a signed integer
into a string such as 壹佰零伍元 for 105, and the page shows that string
followed by 整 (app.js:232).

The function works as follows:

- it returns 零元 at once for 0;
- it keeps the sign as a prefix 負;
- it reads the magnitude in up to three groups of four decimal digits, lowest
  group first, with nested loops that prepend each digit and its position
  unit (拾 佰 仟) to a group string;
- it cleans each group with `/(零.)*零$/ → ''` and then `/^$/ → '零'`;
- it prepends the cleaned group and its group unit (元 萬 億) to the
  accumulated string;
- it rewrites the result with `/(零.)*零元/ → '元'`, `/(零.)+/g → '零'` and
  `/^整$/ → '零元'`.

Two consequences of the code are proved:

- every result has exactly one 元, as its last character, exact multiples of
  10^4 and 10^8 included (`FormatEndsInSingleYuan`);
- `/^整$/` matches only the one-character string 整, which never occurs, so
  that rewrite never fires (`FormatNeverWhole`).

The project has four modules:

- `JsRegex`: the three JavaScript regular-expression rewrites as plain
  functions, with JavaScript semantics:
  - the greedy, backtracking `(零.)*` that takes the largest number of pairs
    that still lets the rest match;
  - the leftmost match for a replace without `/g`;
  - the repeated leftmost scan for `/g`;
  - `.` does not match a line terminator.

  The non-global matcher is proved greedy against a reference reading of its
  pattern, `MatchesWith` (`MatchPairsThenIsGreedy`), and `SearchFrom` is
  proved to find the leftmost match. The global rewrite is proved to replace
  the leftmost greedy run and resume after it (`ReplaceAllRunsLeftmost`), and
  to keep a string in which nothing matches (`ReplaceAllRunsNoMatch`).
- `Numerals`: the tables, the functional specification `Format` of
  `numberToChinese`, and the properties the function promises, proved for
  every integer.
- `NumeralValues`: the concrete amounts and numerals, each derived from the
  definitions.
- `Formatter`: the nested loops of `numberToChinese` as methods with loop
  invariants, proved to compute `Format`, and the caller on app.js:232.

## Model

| member | source | states |
|---|---|---|
| JsRegex.MatchPairsThen | app.js:256-258 | Defines the backtracking matcher for `(零.)*LIT` (with `$` when anchored) at one position; a match is never shorter than LIT and never runs past the string. Its greediness is `MatchPairsThenIsGreedy`. |
| JsRegex.MatchPairsThenIsGreedy | app.js:256-258 | The backtracking matcher for `(零.)*LIT` at a position succeeds exactly when some number of `零.` pairs followed by LIT matches there, and then it takes the largest such number, as JavaScript's greedy star does. |
| JsRegex.SearchFrom | app.js:256-258 | A non-global `replace` uses the leftmost start at which the pattern matches: no earlier start matches, and none at all when the result is None. |
| JsRegex.ReplaceFirst | app.js:256-258 | Defines a non-global `replace` of `(零.)*LIT`: the leftmost match found by `SearchFrom` is replaced. Its two cases are `ReplaceFirstNoMatch` and `ReplaceFirstMatch`. |
| JsRegex.ReplaceWhole | app.js:256-258 | Defines `.replace(/^$/, '零')` and `.replace(/^整$/, '零元')`: the replacement applies only when the whole string equals the literal. `CleanGroupShape` and `FormatNeverWhole` state what they do in place. |
| JsRegex.ReplaceFirstNoMatch | app.js:256-258 | When the pattern matches nowhere, the string is left unchanged. |
| JsRegex.ReplaceFirstMatch | app.js:256-258 | Otherwise exactly the leftmost match, made of pairs followed by LIT and reaching the end when `$` is present, is replaced, and the rest of the string is kept. |
| JsRegex.PairRun | app.js:258 | The greedy run of `(零.)+` at a position has even length and is non-empty exactly when a 零 is followed by a character other than a line terminator. |
| JsRegex.ReplaceAllRuns | app.js:258 | Defines `.replace(/(零.)+/g, repl)` as a scan that replaces each greedy run and resumes after it. Its partners are `ReplaceAllRunsLeftmost` and `ReplaceAllRunsNoMatch` below. |
| JsRegex.PairRunIsMaximal | app.js:258 | A string starts with `m` pairs `零.` exactly when `2m` fits in the greedy run. |
| JsRegex.ReplaceAllRunsLeftmost | app.js:258 | When the reference reading of `(零.)+` first matches at position k, the global rewrite keeps the k characters before it, writes the replacement for the whole greedy run there, and goes on after the run. |
| JsRegex.ReplaceAllRunsFirstRun | app.js:258 | When position k starts the first non-empty greedy run, the global rewrite keeps the k characters before it, replaces that run and goes on after it. |
| JsRegex.ReplaceAllRunsNoMatch | app.js:258 | When `(零.)+` matches at no position, the global rewrite leaves the string unchanged. |
| JsRegex.ReplaceAllRunsConcat | app.js:258 | The global `(零.)+` rewrite acts separately on two parts when the cut is not after a 零 and not before one. |
| JsRegex.ReplaceAllRunsNoZero | app.js:258 | A string without 零 is left unchanged by the global rewrite. |
| JsRegex.ReplaceAllRunsNoDoubledZero | app.js:258 | After the global rewrite of a string of dot-matched characters that does not end in 零, no 零 follows another, and the first character is kept. |
| JsRegex.ReplaceAllRunsAbsent | app.js:258 | The global rewrite introduces no character other than those of its replacement. |
| JsRegex.ReplaceBeforeLast | app.js:256-258 | On a string whose only `c` is the last character, `/(零.)*零c/ → c` is the trailing-zero trim of the part before `c`, followed by `c`. |
| JsRegex.TrimAfter | app.js:256 | A tail of shape `(零.)*零` after a part that does not end in 零 with its last two characters is removed, leaving that part. |
| Numerals.GroupDigits | app.js:252-255 | Defines the group string `p` of the inner loop: each remaining digit, least significant first, is prepended with its position unit, until four positions are used or the value runs out. `Formatter.ReadGroup` computes it and `GroupDigitsAlternate` states its shape. |
| Numerals.GroupDigitsAlternate | app.js:252-255 | The group string built by the inner loop alternates digit and position unit, and has odd length exactly when it is read from position 0 of a non-zero value. |
| Numerals.TrimTrailingZeros | app.js:256 | Defines `p.replace(/(零.)*零$/, '')`. `TrimTrailingZerosSpec` states what it removes. |
| Numerals.CleanGroup | app.js:256 | Defines the cleaned group `p.replace(/(零.)*零$/, '').replace(/^$/, '零')`. `CleanGroupShape` states its shape. |
| Numerals.TrimTrailingZerosSpec | app.js:256 | `/(零.)*零$/ → ''` removes the longest suffix of shape `(零.)*零` and keeps the prefix before it: no earlier start matches, and the string is unchanged when it does not end in 零. |
| Numerals.TrimTrailingZerosKeeps | app.js:256 | A string that does not end in 零 is not changed by the trim. |
| Numerals.CleanGroupShape | app.js:256 | The cleaned group of a non-zero remaining value is never empty. It is either the placeholder 零 or does not end in 零, holds only digits and position units, and every 零 in it is followed by something other than 零. |
| Numerals.Compose | app.js:250-257 | Defines the accumulated string `s` after the outer loop: the higher groups first, each as its cleaned group followed by its group unit, for at most three groups. `Formatter.NumberToChinese` computes it, and `ComposeShape` and `ComposeEndsInYuan` state its shape. |
| Numerals.ComposeShape | app.js:250-257 | The accumulated string consists of glyphs from the tables, every 零 in it is followed by a character other than 零, and only group 0 contributes 元. |
| Numerals.ComposeEndsInYuan | app.js:250-257 | For a non-zero magnitude the accumulated string is the higher groups followed by a single 元 as its last character. |
| Numerals.DropZerosBeforeYuan | app.js:258 | Defines `s.replace(/(零.)*零元/, '元')`. `DropZerosIsTrim` states what it does on the accumulated string. |
| Numerals.CollapseZeroRuns | app.js:258 | Defines `.replace(/(零.)+/g, '零')`. `FormatNoDoubledZero` states what it leaves. |
| Numerals.Cleanup | app.js:258 | Defines the three final rewrites in order. `CleanupShape` states their combined effect. |
| Numerals.Head | app.js:247 | Defines `head`, the sign 負 written before a negative amount. `FormatNegative` states its use. |
| Numerals.Format | app.js:242-259 | Defines the value of `numberToChinese(n)` for every integer `n`. `Formatter.NumberToChinese` is proved to compute it, and the `Format…` lemmas state its properties. |
| Numerals.DropZerosIsTrim | app.js:258 | On the accumulated string, `/(零.)*零元/ → '元'` is the trailing-zero trim of what comes before 元. |
| Numerals.CleanupShape | app.js:258 | The three final rewrites end the string in its only 元, leave no two adjacent 零 and no 整, and `/^整$/` never fires. |
| Numerals.FormatFromParts | app.js:242-259 | For a positive value, the numeral is the composed groups with trailing zeros trimmed and zero runs collapsed, followed by 元. |
| Numerals.FormatZero | app.js:243 | 0 is written 零元. |
| Numerals.FormatNegative | app.js:247-248 | For n > 0 the numeral of −n is 負 followed by the numeral of n. |
| Numerals.FormatEndsInSingleYuan | app.js:242-259 | Every numeral, for every integer, ends in 元, and that is its only 元. |
| Numerals.FormatNoDoubledZero | app.js:258 | No numeral holds two adjacent 零. |
| Numerals.FormatNeverWhole | app.js:258 | For n ≠ 0 no intermediate string and no result holds 整, so the rewrite `/^整$/ → '零元'` never changes anything. |
| NumeralValues.Value100 | app.js:242-259 | 100 is written 壹佰元. |
| NumeralValues.Value105 | app.js:242-259 | 105 is written 壹佰零伍元. |
| NumeralValues.Value500 | app.js:242-259 | 500 is written 伍佰元. |
| NumeralValues.ValueMinus500 | app.js:242-259 | −500 is written 負伍佰元. |
| NumeralValues.Value1000 | app.js:242-259 | 1000 is written 壹仟元. |
| NumeralValues.Value10000 | app.js:242-259 | 10000 is written 壹萬元. |
| NumeralValues.Value10001 | app.js:242-259 | 10001 is written 壹萬零壹元. |
| NumeralValues.Value100000000 | app.js:242-259 | 100000000 is written 壹億元. |
| NumeralValues.Value100000001 | app.js:242-259 | 100000001 is written 壹億零壹元. |
| NumeralValues.ValueOneTrillion | app.js:250 | 10^12 is written 元: three groups of zeros are read and the digit 1 above them is dropped. |
| NumeralValues.CollapseBetween | app.js:258 | A whole run of `零.` pairs between two parts without 零 becomes one 零. |
| Formatter.DropDigitsIsDiv | app.js:254 | Dropping `k` digits with `Math.floor(n / 10)` one at a time is dividing by 10^k. |
| Formatter.DigitsDrop | app.js:252-254 | Something is left after dropping `k` digits exactly when the number has more than `k` decimal digits. |
| Formatter.DigitsAfterDrop | app.js:252-254 | Dropping `k` digits leaves a number with `k` fewer digits, or none once all are dropped. |
| Formatter.CountStep | app.js:250-257 | Over one pass of the outer loop, the digits read add up: the remaining value is the magnitude with all the digits read so far dropped, and no more digits are read than the magnitude has. |
| Formatter.DigitStep | app.js:253-254 | One inner-loop step moves the lowest remaining digit, with its position unit, to the front of the group string. |
| Formatter.GroupStep | app.js:256 | One outer-loop step moves the cleaned lowest group, with its group unit, to the front of the accumulated string. |
| Formatter.ReadGroup | app.js:252-255 | The inner loop builds the group string `GroupDigits(v, 0)` and leaves `v` with its lowest group dropped. It takes one step per decimal digit of `v`, each dividing by 10, and at most four steps. |
| Formatter.ProgressStep | app.js:250-257 | One pass of the outer loop keeps the loop invariant: the accumulator holds the lower groups of the final string, and the remaining value is the magnitude with the digits read so far dropped. |
| Formatter.NumberToChinese | app.js:242-259 | The loops compute `Format(n)`. They read exactly as many digits as the magnitude has, but at most twelve. |
| Formatter.TotalInWords | app.js:232 | The displayed total is the numeral of the total followed by 整. |
| Formatter.TotalInWordsShape | app.js:232 | The displayed total always ends in 元整, and its only 整 is the last character. |

## Left out

- The rest of app.js is not modelled, and neither are the Google Sheets and
  sign-in integration and settings storage:
  - DOM wiring, table rows, selectors, photo upload and print scaling are
    browser plumbing;
  - the Sheets code is network calls;
  - the quotation ID depends on the clock and a random number.
- `recalculate` (app.js:213-235) is left out: it computes the total from form
  fields with `parseFloat`, floating-point products and `Math.round`. The
  model takes the integer `total` as a parameter of `TotalInWords`.
- The table `['角','分']` (app.js:244) is declared but never read, so it is
  not part of the model.
- Formatter.NumberToChinese and Formatter.TotalInWords require
  |n| ≤ 2^53 − 1 (`Number.MAX_SAFE_INTEGER`):
  - within that range, JavaScript's `n % 10` and `Math.floor(n / 10)` are
    exact, and the model uses integer division;
  - beyond it the source works on rounded doubles, which the model does not
    capture;
  - that the double operations are exact in the safe range is stated, not
    proved.
- Fractional, NaN and infinite inputs are not modelled; the model's input is
  an integer.
- Inputs of 10^12 and above are modelled as the code handles them: digits
  beyond three groups are dropped (`NumeralValues.ValueOneTrillion`).
- The zero collapse is not claimed to be idempotent. The global rewrite is
  applied once, and applying it again can change its result: 壹佰零伍元
  becomes 壹佰零元. What holds, and is proved, is that no result has two
  adjacent 零.
