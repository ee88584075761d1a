/** Concrete amounts and their numerals for `numberToChinese` (app.js:242-259),
    each derived from the definitions one group and one rewrite at a time:
    first the raw group strings, then the cleaned groups, then the composed
    string and finally the clean-up passes. Strings that a rewrite splits are
    written as the concatenation of the parts it sees. */
module NumeralValues {
  import opened JsRegex
  import opened Numerals

  // General steps

  /** One turn of the group loop (app.js:250-257), with the cleaned group and
      the group unit given. */
  lemma ComposeStep(v: nat, i: nat, g: string, u: string)
    requires 0 < v && i < |GROUP_UNITS| && [GROUP_UNITS[i]] == u
    requires CleanGroup(GroupDigits(v, 0)) == g
    ensures Compose(v, i) == Compose(v / GROUP_BASE, i + 1) + g + u
  {
  }

  /** A group string ending in `(零.)*零` after a part that does not end in 零
      is cleaned to that part. */
  lemma CleanTrailing(a: string, z: string, m: nat)
    requires a != [] && a[|a| - 1] != ZERO && (|a| >= 2 ==> a[|a| - 2] != ZERO)
    requires MatchesWith(z, [ZERO], true, m)
    ensures CleanGroup(a + z) == a
  {
    TrimAfter(a, z, m);
  }

  /** A string that does not end in 零 is kept by both group rewrites. */
  lemma CleanKeeps(p: string)
    requires p != [] && p[|p| - 1] != ZERO
    ensures CleanGroup(p) == p
  {
    TrimTrailingZerosKeeps(p);
  }

  /** Text without 零 passes both clean-up rewrites unchanged. */
  lemma PlainText(p: string)
    requires ZERO !in p
    ensures TrimTrailingZeros(p) == p && CollapseZeroRuns(p) == p
  {
    TrimTrailingZerosKeeps(p);
    ReplaceAllRunsNoZero(p, [ZERO]);
  }

  /** A run of `零.` pairs between two parts without 零 collapses to one 零. */
  lemma CollapseBetween(c: string, z: string, d: string)
    requires ZERO !in c && ZERO !in d && z != [] && PairRun(z) == |z|
    ensures CollapseZeroRuns(c + z + d) == c + [ZERO] + d
  {
    ConcatAssoc(c, z, d);
    ReplaceAllRunsNoZeroPrefix(c, z + d, [ZERO]);
    assert PairRun(d) == 0 by {
      if d != [] { assert d[0] in d; }
    }
    ReplaceAllRunsRun(z, d, [ZERO]);
    ReplaceAllRunsNoZero(d, [ZERO]);
    ConcatAssoc(c, [ZERO], d);
  }

  // Raw group strings (app.js:252-255)

  lemma GroupOf100()
    ensures GroupDigits(100, 0) == "壹佰" + "零拾零"
  {
    assert GroupDigits(1, 2) == "壹佰";
    assert GroupDigits(10, 1) == "壹佰零拾";
  }

  lemma GroupOf105()
    ensures GroupDigits(105, 0) == "壹佰零拾伍"
  {
    assert GroupDigits(1, 2) == "壹佰";
    assert GroupDigits(10, 1) == "壹佰零拾";
  }

  lemma GroupOf500()
    ensures GroupDigits(500, 0) == "伍佰" + "零拾零"
  {
    assert GroupDigits(5, 2) == "伍佰";
    assert GroupDigits(50, 1) == "伍佰零拾";
  }

  lemma GroupOf1000()
    ensures GroupDigits(1000, 0) == "壹仟" + "零佰零拾零"
  {
    assert GroupDigits(1, 3) == "壹仟";
    assert GroupDigits(10, 2) == "壹仟零佰";
    assert GroupDigits(100, 1) == "壹仟零佰零拾";
  }

  lemma GroupOf10000()
    ensures GroupDigits(10000, 0) == "零仟零佰零拾零"
  {
    assert GroupDigits(10, 3) == "零仟";
    assert GroupDigits(100, 2) == "零仟零佰";
    assert GroupDigits(1000, 1) == "零仟零佰零拾";
  }

  lemma GroupOf10001()
    ensures GroupDigits(10001, 0) == "零仟零佰零拾壹"
  {
    assert GroupDigits(10, 3) == "零仟";
    assert GroupDigits(100, 2) == "零仟零佰";
    assert GroupDigits(1000, 1) == "零仟零佰零拾";
  }

  lemma GroupOf100000000()
    ensures GroupDigits(100000000, 0) == "零仟零佰零拾零"
  {
    assert GroupDigits(100000, 3) == "零仟";
    assert GroupDigits(1000000, 2) == "零仟零佰";
    assert GroupDigits(10000000, 1) == "零仟零佰零拾";
  }

  lemma GroupOf100000001()
    ensures GroupDigits(100000001, 0) == "零仟零佰零拾壹"
  {
    assert GroupDigits(100000, 3) == "零仟";
    assert GroupDigits(1000000, 2) == "零仟零佰";
    assert GroupDigits(10000000, 1) == "零仟零佰零拾";
  }

  lemma GroupOfOneTrillion()
    ensures GroupDigits(1000000000000, 0) == "零仟零佰零拾零"
  {
    assert GroupDigits(1000000000, 3) == "零仟";
    assert GroupDigits(10000000000, 2) == "零仟零佰";
    assert GroupDigits(100000000000, 1) == "零仟零佰零拾";
  }

  // Cleaned groups (app.js:256)

  /** Four zero digits are cleaned to the placeholder 零. */
  lemma ZeroGroupCleans()
    ensures CleanGroup("零仟零佰零拾零") == [ZERO]
  {
    TrimAfter([], "零仟零佰零拾零", 3);
    assert [] + "零仟零佰零拾零" == "零仟零佰零拾零";
  }

  lemma OneCleans()
    ensures CleanGroup(GroupDigits(1, 0)) == "壹"
  {
    assert GroupDigits(1, 0) == "壹";
    CleanKeeps("壹");
  }

  lemma Clean100()
    ensures CleanGroup("壹佰" + "零拾零") == "壹佰"
  {
    CleanTrailing("壹佰", "零拾零", 1);
  }

  lemma Clean105()
    ensures CleanGroup("壹佰零拾伍") == "壹佰零拾伍"
  {
    CleanKeeps("壹佰零拾伍");
  }

  lemma Clean500()
    ensures CleanGroup("伍佰" + "零拾零") == "伍佰"
  {
    CleanTrailing("伍佰", "零拾零", 1);
  }

  lemma Clean1000()
    ensures CleanGroup("壹仟" + "零佰零拾零") == "壹仟"
  {
    CleanTrailing("壹仟", "零佰零拾零", 2);
  }

  lemma LowOneCleans()
    ensures CleanGroup("零仟零佰零拾壹") == "零仟零佰零拾壹"
  {
    CleanKeeps("零仟零佰零拾壹");
  }

  // Composed strings (app.js:250-257)

  lemma Composed100()
    ensures Compose(100, 0) == "壹佰" + [YUAN]
  {
    GroupOf100();
    Clean100();
    ComposeStep(100, 0, "壹佰", [YUAN]);
  }

  lemma Composed105()
    ensures Compose(105, 0) == "壹佰零拾伍" + [YUAN]
  {
    GroupOf105();
    Clean105();
    ComposeStep(105, 0, "壹佰零拾伍", [YUAN]);
  }

  lemma Composed500()
    ensures Compose(500, 0) == "伍佰" + [YUAN]
  {
    GroupOf500();
    Clean500();
    ComposeStep(500, 0, "伍佰", [YUAN]);
  }

  lemma Composed1000()
    ensures Compose(1000, 0) == "壹仟" + [YUAN]
  {
    GroupOf1000();
    Clean1000();
    ComposeStep(1000, 0, "壹仟", [YUAN]);
  }

  /** A leading group 1 in group `i`: 壹 and that group's unit. */
  lemma ComposedOneAt(i: nat, u: string)
    requires i < |GROUP_UNITS| && [GROUP_UNITS[i]] == u
    ensures Compose(1, i) == "壹" + u
  {
    OneCleans();
    ComposeStep(1, i, "壹", u);
  }

  lemma Composed10000()
    ensures Compose(10000, 0) == "壹" + "萬" + [ZERO] + [YUAN]
  {
    GroupOf10000();
    ZeroGroupCleans();
    ComposeStep(10000, 0, [ZERO], [YUAN]);
    ComposedOneAt(1, "萬");
  }

  lemma Composed10001()
    ensures Compose(10001, 0) == "壹" + "萬" + "零仟零佰零拾壹" + [YUAN]
  {
    GroupOf10001();
    LowOneCleans();
    ComposeStep(10001, 0, "零仟零佰零拾壹", [YUAN]);
    ComposedOneAt(1, "萬");
  }

  lemma ComposedTenThousandAt1()
    ensures Compose(10000, 1) == "壹" + "億" + [ZERO] + "萬"
  {
    GroupOf10000();
    ZeroGroupCleans();
    ComposeStep(10000, 1, [ZERO], "萬");
    ComposedOneAt(2, "億");
  }

  lemma Composed100000000()
    ensures Compose(100000000, 0) == "壹" + "億" + [ZERO] + "萬" + [ZERO] + [YUAN]
  {
    GroupOf100000000();
    ZeroGroupCleans();
    ComposeStep(100000000, 0, [ZERO], [YUAN]);
    ComposedTenThousandAt1();
  }

  lemma Composed100000001()
    ensures Compose(100000001, 0) == "壹" + "億" + [ZERO] + "萬" + "零仟零佰零拾壹" + [YUAN]
  {
    GroupOf100000001();
    LowOneCleans();
    ComposeStep(100000001, 0, "零仟零佰零拾壹", [YUAN]);
    ComposedTenThousandAt1();
  }

  lemma ComposedTenThousandAt2()
    ensures Compose(10000, 2) == [ZERO] + "億"
  {
    GroupOf10000();
    ZeroGroupCleans();
    ComposeStep(10000, 2, [ZERO], "億");
  }

  lemma ComposedTenThousandSquaredAt1()
    ensures Compose(100000000, 1) == [ZERO] + "億" + [ZERO] + "萬"
  {
    GroupOf100000000();
    ZeroGroupCleans();
    ComposeStep(100000000, 1, [ZERO], "萬");
    ComposedTenThousandAt2();
  }

  /** The fourth group of 10^12 has no unit, so the loop stops before it. */
  lemma ComposedOneTrillion()
    ensures Compose(1000000000000, 0) == [ZERO] + "億" + [ZERO] + "萬" + [ZERO] + [YUAN]
  {
    GroupOfOneTrillion();
    ZeroGroupCleans();
    ComposeStep(1000000000000, 0, [ZERO], [YUAN]);
    ComposedTenThousandSquaredAt1();
  }

  // Clean-up passes (app.js:258)

  lemma Trim105()
    ensures TrimTrailingZeros("壹佰零拾伍") == "壹佰零拾伍"
  {
    TrimTrailingZerosKeeps("壹佰零拾伍");
  }

  lemma Trim10000()
    ensures TrimTrailingZeros("壹" + "萬" + [ZERO]) == "壹" + "萬"
  {
    TrimAfter("壹" + "萬", [ZERO], 0);
  }

  lemma Cleanup10000()
    ensures CollapseZeroRuns(TrimTrailingZeros("壹" + "萬" + [ZERO])) == "壹萬"
  {
    Trim10000();
    PlainText("壹" + "萬");
    assert "壹" + "萬" == "壹萬";
  }

  lemma Trim10001()
    ensures TrimTrailingZeros("壹" + "萬" + "零仟零佰零拾壹") == "壹" + "萬" + "零仟零佰零拾壹"
  {
    TrimTrailingZerosKeeps("壹" + "萬" + "零仟零佰零拾壹");
  }

  lemma Trim100000000()
    ensures TrimTrailingZeros("壹" + "億" + [ZERO] + "萬" + [ZERO]) == "壹" + "億"
  {
    TrimAfter("壹" + "億", "零萬零", 1);
    assert "壹" + "億" + [ZERO] + "萬" + [ZERO] == "壹" + "億" + "零萬零";
  }

  lemma Cleanup100000000()
    ensures CollapseZeroRuns(TrimTrailingZeros("壹" + "億" + [ZERO] + "萬" + [ZERO])) == "壹億"
  {
    Trim100000000();
    PlainText("壹" + "億");
    assert "壹" + "億" == "壹億";
  }

  lemma Trim100000001()
    ensures var x := "壹" + "億" + [ZERO] + "萬" + "零仟零佰零拾壹";
      TrimTrailingZeros(x) == x
  {
    TrimTrailingZerosKeeps("壹" + "億" + [ZERO] + "萬" + "零仟零佰零拾壹");
  }

  lemma TrimOneTrillion()
    ensures TrimTrailingZeros([ZERO] + "億" + [ZERO] + "萬" + [ZERO]) == []
  {
    TrimAfter([], "零億零萬零", 2);
    assert [ZERO] + "億" + [ZERO] + "萬" + [ZERO] == [] + "零億零萬零";
  }

  lemma Runs105()
    ensures CollapseZeroRuns("壹佰零拾伍") == "壹佰零伍"
  {
    CollapseBetween("壹佰", "零拾", "伍");
    assert "壹佰" + "零拾" + "伍" == "壹佰零拾伍";
  }

  lemma Runs10001()
    ensures CollapseZeroRuns("壹" + "萬" + "零仟零佰零拾壹") == "壹萬零壹"
  {
    assert PairRun("零仟零佰零拾") == 6 by {
      assert PairRun("零佰零拾") == 4;
    }
    CollapseBetween("壹萬", "零仟零佰零拾", "壹");
    assert "壹" + "萬" + "零仟零佰零拾壹" == "壹萬" + "零仟零佰零拾" + "壹";
  }

  lemma Runs100000001()
    ensures CollapseZeroRuns("壹" + "億" + [ZERO] + "萬" + "零仟零佰零拾壹") == "壹億零壹"
  {
    assert PairRun("零萬零仟零佰零拾") == 8 by {
      assert PairRun("零佰零拾") == 4;
    }
    CollapseBetween("壹億", "零萬零仟零佰零拾", "壹");
    assert "壹" + "億" + [ZERO] + "萬" + "零仟零佰零拾壹" == "壹億" + "零萬零仟零佰零拾" + "壹";
  }

  // Whole numerals (app.js:242-259)

  lemma Value100()
    ensures Format(100) == "壹佰元"
  {
    Composed100();
    PlainText("壹佰");
    FormatFromParts(100, "壹佰");
  }

  lemma Value105()
    ensures Format(105) == "壹佰零伍元"
  {
    Composed105();
    Trim105();
    Runs105();
    FormatFromParts(105, "壹佰零拾伍");
  }

  lemma Value1000()
    ensures Format(1000) == "壹仟元"
  {
    Composed1000();
    PlainText("壹仟");
    FormatFromParts(1000, "壹仟");
  }

  lemma Value10000()
    ensures Format(10000) == "壹萬元"
  {
    Composed10000();
    Cleanup10000();
    FormatFromParts(10000, "壹" + "萬" + [ZERO]);
  }

  lemma Value10001()
    ensures Format(10001) == "壹萬零壹元"
  {
    Composed10001();
    Trim10001();
    Runs10001();
    FormatFromParts(10001, "壹" + "萬" + "零仟零佰零拾壹");
  }

  lemma Value100000000()
    ensures Format(100000000) == "壹億元"
  {
    Composed100000000();
    Cleanup100000000();
    FormatFromParts(100000000, "壹" + "億" + [ZERO] + "萬" + [ZERO]);
  }

  lemma Value100000001()
    ensures Format(100000001) == "壹億零壹元"
  {
    Composed100000001();
    Trim100000001();
    Runs100000001();
    FormatFromParts(100000001, "壹" + "億" + [ZERO] + "萬" + "零仟零佰零拾壹");
  }

  lemma Value500()
    ensures Format(500) == "伍佰元"
  {
    Composed500();
    PlainText("伍佰");
    FormatFromParts(500, "伍佰");
  }

  lemma ValueMinus500()
    ensures Format(-500) == "負伍佰元"
  {
    Value500();
    FormatNegative(500);
  }

  /** 10^12 loses its leading digit: only three group units exist. */
  lemma ValueOneTrillion()
    ensures Format(1000000000000) == "元"
  {
    ComposedOneTrillion();
    TrimOneTrillion();
    FormatFromParts(1000000000000, [ZERO] + "億" + [ZERO] + "萬" + [ZERO]);
  }
}
