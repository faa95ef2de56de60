/**
 * The JUnit-style result logger of the test harness: how elapsed milliseconds are
 * rendered as seconds, how a suite's result file is named, and the per-suite counters.
 */
module JUnitLog {
  import opened Results
  import opened Decimal
  import opened Text

  /** One test outcome as the harness reports it. */
  datatype TestResult = TestResult(id: nat, name: string, pass: bool, output: Option<string>)

  /** The record the logger keeps per test of the current suite. */
  datatype TestInfo = TestInfo(name: string, time: int, isFailed: bool, output: Option<string>)

  /** Elapsed milliseconds rendered as seconds by inserting a decimal point before the last three digits. */
  function TimeString(l: int): (r: string)
    ensures var s := IntToString(l);
      && (|s| > 3 ==> |r| == |s| + 1 && r[|r| - 4] == '.' && r[..|r| - 4] + r[|r| - 3..] == s)
      && (|s| <= 3 ==> r == "0." + s)
  {
    var str := IntToString(l);
    if |str| > 3 then str[..|str| - 3] + "." + str[|str| - 3..] else "0." + str
  }

  /**
   * The number of milliseconds a seconds text such as "12.345" stands for: the digits
   * before the point are whole seconds, up to three digits after it are fractions of a second.
   */
  function MillisOf(t: string): Option<nat> {
    var i := IndexOf(t, '.');
    if i < 0 then None else MillisOfParts(t[..i], t[i + 1..])
  }

  /** The milliseconds of whole seconds and a fraction of up to three digits. */
  function MillisOfParts(whole: string, frac: string): Option<nat> {
    if AllDigits(whole) && AllDigits(frac) && |frac| <= 3
    then Some(ParseNat(whole) * 1000 + ParseNat(frac + Zeros(3 - |frac|)))
    else None
  }

  /** From one second upwards the rendering reads back as the number of milliseconds. */
  lemma TimeStringFaithfulFromOneSecond(l: nat)
    requires l >= 1000
    ensures MillisOf(TimeString(l)) == Some(l)
  {
    var s := NatToString(l);
    LongValueLongText(l);
    SplitReadsBack(s, |s| - 3);
    ParseNatToString(l);
  }

  /** Five milliseconds are rendered as "0.5", which reads as half a second. */
  lemma TimeStringShortValueMisread()
    ensures TimeString(5) == "0.5"
    ensures MillisOf(TimeString(5)) == Some(500)
  {
    assert NatToString(5) == "5";
    PointSplit("0", "5");
    assert "5" + Zeros(2) == "500";
    ReadsFiveHundred();
  }

  lemma ReadsFiveHundred()
    ensures ParseNat("0") == 0 && ParseNat("500") == 500
  {
    assert "0"[..0] == "";
    assert "500"[..2] == "50" && "50"[..1] == "5" && "5"[..0] == "";
  }

  /** The rendering with the fraction padded to three digits. */
  function TimeStringPadded(l: nat): (r: string)
    ensures MillisOf(r) == Some(l)
  {
    var str := NatToString(l);
    if |str| > 3 then
      SplitReadsBack(str, |str| - 3);
      ParseNatToString(l);
      str[..|str| - 3] + "." + str[|str| - 3..]
    else
      ShortReadsBack(l);
      "0." + Zeros(3 - |str|) + str
  }

  /** A digit text split before its last three digits reads back as the number it spells. */
  lemma {:induction false} SplitReadsBack(s: string, k: nat)
    requires AllDigits(s) && k + 3 == |s|
    ensures MillisOf(s[..k] + "." + s[k..]) == Some(ParseNat(s))
  {
    assert s == s[..k] + s[k..];
    ParseNatAppend(s[..k], s[k..]);
    PointReadsBack(s[..k], s[k..]);
  }

  lemma {:induction false} PointReadsBack(whole: string, frac: string)
    requires AllDigits(whole) && AllDigits(frac) && |frac| == 3
    ensures MillisOf(whole + "." + frac) == Some(ParseNat(whole) * 1000 + ParseNat(frac))
  {
    NoPointInDigits(whole);
    PointSplit(whole, frac);
    assert frac + Zeros(3 - |frac|) == frac;
  }

  lemma NoPointInDigits(s: string)
    requires AllDigits(s)
    ensures '.' !in s
  {
    assert forall j | 0 <= j < |s| :: s[j] != '.';
  }

  /** A text joined at its only point reads as the whole seconds and fraction it was joined from. */
  lemma {:induction false} PointSplit(whole: string, frac: string)
    requires '.' !in whole
    ensures MillisOf(whole + "." + frac) == MillisOfParts(whole, frac)
  {
    var t := whole + "." + frac;
    IndexOfAfter(whole, '.', frac);
    assert t[..|whole|] == whole;
    assert t[|whole| + 1..] == frac;
  }

  lemma {:induction false} ShortReadsBack(l: nat)
    requires |NatToString(l)| <= 3
    ensures MillisOf("0." + Zeros(3 - |NatToString(l)|) + NatToString(l)) == Some(l)
  {
    var str := NatToString(l);
    var frac := Zeros(3 - |str|) + str;
    ParseNatZeros(3 - |str|, str);
    ParseNatToString(l);
    assert "0." + Zeros(3 - |str|) + str == "0" + "." + frac;
    PointReadsBack("0", frac);
    assert ParseNat("0") == 0 by { assert "0"[..0] == ""; }
  }

  lemma LongValueLongText(l: nat)
    requires l >= 1000
    ensures |NatToString(l)| >= 4
  {
    var a := l / 10;
    var b := a / 10;
    assert a >= 100 && b >= 10;
    assert |NatToString(b)| >= 2;
    assert |NatToString(a)| == |NatToString(b)| + 1;
    assert |NatToString(l)| == |NatToString(a)| + 1;
  }

  /** The name of the XML result file of a suite. */
  function SuiteFileName(suiteName: string): (f: string)
    ensures |f| == |suiteName| + 9
    ensures f[..5] == "TEST-" && f[5..|f| - 4] == suiteName && f[|f| - 4..] == ".xml"
  {
    "TEST-" + suiteName + ".xml"
  }

  /** Different suites never share a result file. */
  lemma SuiteFileNameInjective(a: string, b: string)
    requires SuiteFileName(a) == SuiteFileName(b)
    ensures a == b
  {
    var f := SuiteFileName(a);
    assert a == f[5..|f| - 4];
  }

  /** The number of failed tests among the records. */
  function FailedCount(tests: seq<TestInfo>): nat {
    if tests == [] then 0
    else FailedCount(tests[..|tests| - 1]) + (if tests[|tests| - 1].isFailed then 1 else 0)
  }

  lemma {:induction false} FailedCountBound(tests: seq<TestInfo>)
    ensures FailedCount(tests) <= |tests|
    ensures FailedCount(tests) == |tests| <==> forall i :: 0 <= i < |tests| ==> tests[i].isFailed
  {
    if tests != [] {
      var init := tests[..|tests| - 1];
      FailedCountBound(init);
      assert forall i :: 0 <= i < |init| ==> init[i] == tests[i];
    }
  }

  /** A test number in the "000" pattern: at least three digits, zero-padded, reading back as the number. */
  function TestNumber(id: nat): (s: string)
    ensures |s| >= 3 && AllDigits(s) && ParseNat(s) == id
    ensures |NatToString(id)| >= 3 ==> s == NatToString(id)
  {
    var digits := NatToString(id);
    ParseNatToString(id);
    if |digits| >= 3 then digits
    else
      ParseNatZeros(3 - |digits|, digits);
      Zeros(3 - |digits|) + digits
  }

  /** The test name as the logger records it: the test's number, then its name in brackets. */
  function RecordName(test: TestResult): string {
    TestNumber(test.id) + " [" + test.name + " ]"
  }

  class JUnitTestLogger {
    var failuresCount: int
    var testsCount: int
    var lastTime: int
    var suiteTime: int
    /** The records of the current suite; `started` is false while Java's list is still null. */
    var tests: seq<TestInfo>
    var started: bool

    /** The counters always describe the records of the current suite. */
    ghost predicate Valid()
      reads this
    {
      testsCount == |tests| && failuresCount == FailedCount(tests)
    }

    constructor ()
      ensures Valid() && !started && tests == []
    {
      failuresCount, testsCount, lastTime, suiteTime := 0, 0, 0, 0;
      tests, started := [], false;
    }

    /** Opens a suite at clock time `now`: no tests, no failures. */
    method StartSuite(suiteName: string, now: int)
      modifies this
      ensures Valid() && started
      ensures tests == [] && testsCount == 0 && failuresCount == 0
      ensures lastTime == now && suiteTime == now
    {
      lastTime := now;
      suiteTime := lastTime;
      tests := [];
      testsCount := 0;
      failuresCount := 0;
      started := true;
    }

    /** Records one test finished at clock time `now`. */
    method HandleTest(test: TestResult, now: int)
      requires Valid() && started
      modifies this
      ensures Valid() && started && suiteTime == old(suiteTime)
      ensures |tests| == |old(tests)| + 1 && tests[..|old(tests)|] == old(tests)
      ensures testsCount == old(testsCount) + 1
      ensures failuresCount == old(failuresCount) + (if test.pass then 0 else 1)
      ensures failuresCount <= testsCount
      ensures var info := tests[|tests| - 1];
        && info.name == RecordName(test)
        && info.time == now - old(lastTime)
        && info.isFailed == !test.pass
        && (info.output.Some? <==> !test.pass && test.output.Some?)
        && (info.output.Some? ==> info.output == test.output)
      ensures lastTime == now
    {
      var info := TestInfo(RecordName(test), now - lastTime, !test.pass, None);
      if !test.pass && test.output.Some? {
        info := info.(output := test.output);
      }
      if !test.pass {
        failuresCount := failuresCount + 1;
      }
      testsCount := testsCount + 1;
      lastTime := now;
      tests := tests + [info];
      assert tests[..|tests| - 1] == old(tests);
      FailedCountBound(tests);
    }
  }
}
