/**
 * The worked examples of the health report pipeline, proved on the model:
 * a value inside, above and beyond a printed reference range, and a line
 * naming a test outside the allow-list.
 */
module Scenarios {
  import opened Base
  import opened Text
  import opened Records
  import opened Analysis
  import opened Charts

  lemma Digits1(s: string)
    requires |s| == 1 && AllDigits(s)
    ensures DigitsValue(s) == DigitValue(s[0])
  {
    assert s[..0] == [];
  }

  lemma Digits2(s: string)
    requires |s| == 2 && AllDigits(s)
    ensures DigitsValue(s) == 10 * DigitValue(s[0]) + DigitValue(s[1])
  {
    var h := s[..1];
    assert AllDigits(h) by { assert h[0] == s[0]; }
    Digits1(h);
    assert DigitsValue(s) == 10 * DigitsValue(h) + DigitValue(s[1]);
  }

  lemma OneDecimalValue(w: string, f: char)
    requires AllDigits(w) && IsDigit(f)
    ensures PointValue(w, [f]) == DigitsValue(w) as real + DigitValue(f) as real / 10.0
  {
    var d := DigitsValue([f]);
    assert d == DigitValue(f) by { Digits1([f]); }
    assert Pow10(|[f]|) == 10;
  }

  lemma OneDecimal(w: string, f: char)
    requires AllDigits(w) && IsDigit(f)
    ensures Float(w + "." + [f]) == Some(DigitsValue(w) as real + DigitValue(f) as real / 10.0)
  {
    var s := w + "." + [f];
    var x := DigitsValue(w) as real + DigitValue(f) as real / 10.0;
    OneDecimalValue(w, f);
    FloatOfPoint(w, [f]);
    assert Float(s) == Some(PointValue(w, [f]));
    assert PointValue(w, [f]) == x;
  }

  lemma Lit13_0() ensures Float("13.0") == Some(13.0) {
    Digits2("13"); OneDecimal("13", '0');
    assert "13" + "." + ['0'] == "13.0";
  }
  lemma Lit17_0() ensures Float("17.0") == Some(17.0) {
    Digits2("17"); OneDecimal("17", '0');
    assert "17" + "." + ['0'] == "17.0";
  }
  lemma Lit13_5() ensures Float("13.5") == Some(13.5) {
    Digits2("13"); OneDecimal("13", '5');
    assert "13" + "." + ['5'] == "13.5";
  }
  lemma Lit18_2() ensures Float("18.2") == Some(18.2) {
    Digits2("18"); OneDecimal("18", '2');
    assert "18" + "." + ['2'] == "18.2";
  }
  lemma Lit6_1() ensures Float("6.1") == Some(6.1) {
    Digits1("6"); OneDecimal("6", '1');
    assert "6" + "." + ['1'] == "6.1";
  }
  lemma Lit4_5() ensures Float("4.5") == Some(4.5) {
    Digits1("4"); OneDecimal("4", '5');
    assert "4" + "." + ['5'] == "4.5";
  }

  /** A sign is read: `-4.5` is minus four and a half. */
  lemma LitMinus4_5() ensures Float("-4.5") == Some(-4.5) {
    Digits1("4"); OneDecimalValue("4", '5');
    FloatOfSignedPoint('-', "4", "5");
    assert ['-'] + "4" + "." + "5" == "-4.5";
  }

  /** Leading zeros are read: `02` is two. */
  lemma Lit02() ensures Float("02") == Some(2.0) {
    Digits2("02");
    FloatOfDigits("02");
  }

  /** Nothing before the point is needed: `.5` is one half. */
  lemma LitPoint5() ensures Float(".5") == Some(0.5) {
    OneDecimal("", '5');
    assert "" + "." + ['5'] == ".5";
  }

  lemma RangeBounds()
    ensures Float("13.0 - 17.0"[..5]) == Some(13.0)
    ensures Float("13.0 - 17.0"[6..]) == Some(17.0)
  {
    var r := "13.0 - 17.0";
    assert r[..5] == "13.0 ";
    assert r[6..] == " 17.0";
    assert LeadingSpaces("13.0 ") == 0;
    assert TrailingSpaces("13.0 ") == 1;
    assert Strip("13.0 ") == "13.0";
    assert LeadingSpaces(" 17.0") == 1;
    assert TrailingSpaces(" 17.0") == 0;
    assert Strip(" 17.0") == "17.0";
    FloatOfStrip("13.0 ");
    FloatOfStrip(" 17.0");
    Lit13_0(); Lit17_0();
  }

  lemma RangeDash() ensures Count("13.0 - 17.0", '-') == 1 {
  }

  /** Hemoglobin 13.5 against `13.0 - 17.0` is Normal. */
  lemma ScenarioNormal()
    ensures Classify("13.5", "13.0 - 17.0") == Ok(Normal)
  {
    RangeBounds(); RangeDash(); Lit13_5();
    ClassifyTwoSided("13.5", "13.0 - 17.0", 5, 13.5, 13.0, 17.0);
  }

  /** Hemoglobin 18.2 against `13.0 - 17.0` is High. */
  lemma ScenarioHigh()
    ensures Classify("18.2", "13.0 - 17.0") == Ok(High)
  {
    RangeBounds(); RangeDash(); Lit18_2();
    ClassifyTwoSided("18.2", "13.0 - 17.0", 5, 18.2, 13.0, 17.0);
  }

  /** TSH 6.1 against the ceiling `<4.5` is High. */
  lemma ScenarioCeiling()
    ensures Classify("6.1", "<4.5") == Ok(High)
  {
    assert "<4.5"[1..] == "4.5";
    assert Count("<4.5", '-') == 0;
    Lit6_1(); Lit4_5();
    ClassifyCeiling("6.1", "<4.5", 6.1, 4.5);
  }

  /** `xx` is not an allowed unit. */
  lemma UnknownUnit()
    ensures "xx" !in ValidUnits
  {
    var units := ValidUnits;
    forall k | 0 <= k < |units|
      ensures units[k] != "xx"
    {
      assert units[k][0] != 'x';
    }
  }

  /** A match whose record the allow-list refuses leaves nothing behind. */
  lemma DroppedMatch(m: Match, name: Option<string>, date: Option<string>)
    requires !IsValid(ToRecord(m, name, date))
    ensures Cleaned(Assembled([m], name, date)) == []
  {
    var r := ToRecord(m, name, date);
    assert Assembled([m], name, date) == [r];
    assert [r][..0] == [];
  }

  /** `RandomNoise` is not an allowed test name. */
  lemma UnknownTestName()
    ensures "RandomNoise" !in ValidTestNames
  {
  }

  /** A line with a unit outside the allow-list yields no record. */
  lemma ScenarioUnknownTest(name: Option<string>, date: Option<string>)
    ensures Cleaned(Assembled([Match("RandomNoise", "42", "xx", "some text")], name, date)) == []
  {
    var m := Match("RandomNoise", "42", "xx", "some text");
    assert Strip(m.unit) == "xx" by { StripUnchanged("xx"); }
    UnknownUnit();
    DroppedMatch(m, name, date);
  }

  /** The unknown test name alone is enough: with an allowed unit the line still yields no record. */
  lemma ScenarioUnknownTestName(name: Option<string>, date: Option<string>)
    ensures Cleaned(Assembled([Match("RandomNoise", "42", "mg/dL", "some text")], name, date)) == []
  {
    var m := Match("RandomNoise", "42", "mg/dL", "some text");
    assert Strip(m.title) == "RandomNoise" by { StripUnchanged("RandomNoise"); }
    UnknownTestName();
    DroppedMatch(m, name, date);
  }

  /** `3.0-17.0` is not a number: the '-' after its first digits is neither a digit nor a point. */
  lemma NotANumber()
    ensures Float("3.0-17.0") == None
  {
    var u := "3.0-17.0";
    StripUnchanged(u);
    FloatAccepts(u);
    assert !(IsDigit(u[3]) || u[3] == '.');
  }

  /** A string with no space holds no " - ". */
  lemma NoSpacedDash(s: string)
    requires forall k :: 0 <= k < |s| ==> s[k] != ' '
    ensures !Contains(s, " - ")
  {
    forall i | 0 <= i <= |s|
      ensures !OccursAt(s, " - ", i)
    {
      if i + 3 <= |s| {
        assert s[i..i + 3][0] == s[i] != ' ';
      }
    }
  }

  /** Classification reads `13.0-17.0` as the two-sided range from 13.0 to 17.0. */
  lemma UnspacedRangeClassifies()
    ensures ParseRange("13.0-17.0") == Ok(TwoSided(13.0, 17.0))
  {
    var range := "13.0-17.0";
    assert Count(range, '-') == 1;
    assert range[..4] == "13.0" && range[5..] == "17.0";
    Lit13_0(); Lit17_0();
    ParseTwoSided(range, 4);
  }

  /**
   * The chart bounds of `13.0-17.0` fail: split on " - " it is a single
   * piece, and `3.0-17.0` after its first character is no number.
   */
  lemma UnspacedRangeBreaksChart()
    ensures DisplayBounds("13.0-17.0") == Err(BoundUnreadable)
  {
    var range := "13.0-17.0";
    NoSpacedDash(range);
    assert range[1..] == "3.0-17.0";
    NotANumber();
  }

  /**
   * Two reports of the same patient and test give one series of two points,
   * newest first, whenever the series can be drawn at all.
   */
  lemma ScenarioTwoReports(first: Record, second: Record, selected: seq<string>, p: string, t: string)
    requires InGroup(first, selected, p, t) && InGroup(second, selected, p, t)
    requires ValuesParse([first, second], selected)
    requires PatientSeries([first, second], selected, p, t).Ok?
    ensures var part := PatientSeries([first, second], selected, p, t).value;
            part.Some? && part.value.patient == p && |part.value.points| == 2 && NewestFirst(part.value.points)
  {
    var table := [first, second];
    assert table[..1] == [first] && [first][..0] == [];
    assert RowsOf([first], selected, p, t) == [first];
    assert RowsOf(table, selected, p, t) == [first] + [second];
    TestsOfMembers(table, selected, p, t);
    PatientSeriesPoints(table, selected, p, t);
  }
}
