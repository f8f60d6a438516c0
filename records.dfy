/**
 * Lab-test records: the allow-list filter (`clean_data`) and the assembly of
 * records from the matches found in one report's text
 * (`extract_all_data_from_pdf`).
 */
module Records {
  import opened Base
  import opened Text
  import opened Dates

  /**
   * One observation, with the six keys of a table row: `Name`, `Date`,
   * `Test Name`, `Value`, `Unit` and `Reference Range`. Name and date are
   * None when the report's text did not reveal them.
   */
  datatype Record = Record(
    name: Option<string>,
    date: Option<string>,
    testName: string,
    value: string,
    unit: string,
    referenceRange: string)

  /** The column ids of the uploaded-data table, in display order. */
  const TableColumns: seq<string> := ["Name", "Date", "Test Name", "Value", "Unit", "Reference Range"]

  /** `VALID_UNITS`. */
  const ValidUnits: seq<string> := [
    "g/dL", "mg/dL", "mmol/L", "IU/L", "%", "fl", "pg", "pg/mL", "\U{00B5}L", "nmol/L",
    "\U{00B5}IU/mL", "mL/min/1.73m2", "U/L", "thou/mm3"]

  /** `VALID_TEST_NAMES`, repeated entries included, one display per line of its definition. */
  const ValidTestNames: seq<string> :=
    ["Creatinine", "GFR Estimated", "Glucose Fasting", "Cyanocobalamin"] +
    ["Hemoglobin", "RBC", "WBC", "Platelets", "Cholesterol", "25 Hydroxy", "T3, Total", "T4, Total"] +
    ["TSH", "Phosphorus", "Sodium", "Potassium", "Chloride", "GFR Category G2"] +
    ["Urea", "Urea Nitrogen Blood", "Total", "Triglycerides", "HDL Cholesterol"] +
    ["Calculated", "HDL Cholesterol"] +
    ["Uric Acid", "GGTP", "00 RBC Count", "HbA1c", "MCV", "MCH", "MCHC", "Segmented Neutrophils"] +
    ["Lymphocytes", "Monocytes", "Eosinophils", "Basophils", "Absolute Leucocyte Count"] +
    ["Neutrophils", "Lymphocytes", "Monocytes", "Eosinophils", "Basophils", "Platelet Count"] +
    ["Bilirubin Direct", "Bilirubin Total", "Bilirubin Indirect", "Total Protein", "Albumin", "G Ratio"]

  /** The record names a known test in a known unit (exact, case-sensitive comparison). */
  predicate IsValid(r: Record) {
    r.testName in ValidTestNames && r.unit in ValidUnits
  }

  /** The valid records of `data`, in their order. */
  function Cleaned(data: seq<Record>): seq<Record> {
    if data == [] then []
    else Cleaned(data[..|data| - 1]) + (if IsValid(data[|data| - 1]) then [data[|data| - 1]] else [])
  }

  /** `clean_data`: keeps the entries whose test name and unit are both allowed. */
  method CleanData(data: seq<Record>) returns (cleaned: seq<Record>)
    ensures cleaned == Cleaned(data)
  {
    cleaned := [];
    for i := 0 to |data|
      invariant cleaned == Cleaned(data[..i])
    {
      assert data[..i + 1] == data[..i] + [data[i]];
      CleanedSnoc(data[..i], data[i]);
      if IsValid(data[i]) {
        cleaned := cleaned + [data[i]];
      }
    }
    assert data[..|data|] == data;
  }

  /** One more record is kept at the end exactly when it is valid. */
  lemma CleanedSnoc(data: seq<Record>, x: Record)
    ensures Cleaned(data + [x]) == Cleaned(data) + if IsValid(x) then [x] else []
  {
    assert (data + [x])[..|data|] == data;
  }

  /** Filtering works piece by piece, so it keeps the input order. */
  lemma {:induction false} CleanedConcat(a: seq<Record>, b: seq<Record>)
    ensures Cleaned(a + b) == Cleaned(a) + Cleaned(b)
    decreases |b|
  {
    if b == [] {
      assert a + b == a;
    } else {
      var init := b[..|b| - 1];
      CleanedConcat(a, init);
      assert (a + b)[..|a + b| - 1] == a + init;
      assert (a + b)[|a + b| - 1] == b[|b| - 1];
    }
  }

  /** A record survives the filter exactly when it was in the input and is valid. */
  lemma {:induction false} CleanedMembers(data: seq<Record>)
    ensures forall r :: r in Cleaned(data) <==> r in data && IsValid(r)
  {
    if data != [] {
      var init := data[..|data| - 1];
      CleanedMembers(init);
      assert data == init + [data[|data| - 1]];
    }
  }

  /** The filter never lengthens its input. */
  lemma {:induction false} CleanedShorter(data: seq<Record>)
    ensures |Cleaned(data)| <= |data|
  {
    if data != [] {
      CleanedShorter(data[..|data| - 1]);
    }
  }

  /** Filtering twice is filtering once. */
  lemma {:induction false} CleanedIdempotent(data: seq<Record>)
    ensures Cleaned(Cleaned(data)) == Cleaned(data)
  {
    if data != [] {
      var init := data[..|data| - 1];
      var last := data[|data| - 1];
      CleanedIdempotent(init);
      CleanedConcat(Cleaned(init), if IsValid(last) then [last] else []);
      if IsValid(last) {
        assert Cleaned([last]) == Cleaned([]) + [last] by { assert [last][..0] == []; }
      }
    }
  }

  /** The four groups of the generic pattern `([\w\s]+):?\s+([\d.,]+)\s*([^\s]*)\s*(.*)` for one match. */
  datatype Match = Match(title: string, number: string, unit: string, rest: string)

  /** The record one match becomes: every field stripped, the report's name and date attached. */
  function ToRecord(m: Match, name: Option<string>, date: Option<string>): Record {
    Record(name, date, Strip(m.title), Strip(m.number), Strip(m.unit), Strip(m.rest))
  }

  /** One record per match, in match order. */
  function Assembled(matches: seq<Match>, name: Option<string>, date: Option<string>): seq<Record> {
    seq(|matches|, k requires 0 <= k < |matches| => ToRecord(matches[k], name, date))
  }

  /** The record loop of `extract_all_data_from_pdf`: one record per match, fields stripped, in match order. */
  method BuildRecords(matches: seq<Match>, patientName: Option<string>, collectionDate: Option<string>)
    returns (extracted: seq<Record>)
    ensures |extracted| == |matches|
    ensures forall k :: 0 <= k < |matches| ==> extracted[k] == ToRecord(matches[k], patientName, collectionDate)
  {
    extracted := [];
    for i := 0 to |matches|
      invariant |extracted| == i
      invariant forall k :: 0 <= k < i ==> extracted[k] == ToRecord(matches[k], patientName, collectionDate)
    {
      var m := matches[i];
      extracted := extracted + [Record(patientName, collectionDate, Strip(m.title), Strip(m.number), Strip(m.unit), Strip(m.rest))];
    }
  }

  /**
   * `extract_all_data_from_pdf` after the page text is known: `matches` is what
   * `re.findall` returns for the generic pattern on `text`, `nameMatch` the
   * captured name of the first `Name:` match; the collection date is the first
   * date token in `text`.
   */
  method ExtractAllData(text: string, matches: seq<Match>, nameMatch: Option<string>)
    returns (records: seq<Record>)
    ensures records == Cleaned(Assembled(matches, nameMatch, SearchDate(text)))
  {
    var patientName := nameMatch;
    var collectionDate := SearchDate(text);
    var extracted := BuildRecords(matches, patientName, collectionDate);
    assert extracted == Assembled(matches, patientName, collectionDate);
    records := CleanData(extracted);
  }

  /**
   * What extraction yields: only allowed records, each made from one of the
   * matches with its fields stripped, all sharing the report's name and date;
   * no matches, no records.
   */
  lemma ExtractedRecords(matches: seq<Match>, name: Option<string>, date: Option<string>)
    ensures var rs := Cleaned(Assembled(matches, name, date));
            |rs| <= |matches| &&
            (matches == [] ==> rs == []) &&
            forall r :: r in rs ==>
              IsValid(r) && r.name == name && r.date == date &&
              Strip(r.testName) == r.testName && Strip(r.value) == r.value &&
              Strip(r.unit) == r.unit && Strip(r.referenceRange) == r.referenceRange &&
              exists m :: m in matches && r == ToRecord(m, name, date)
  {
    var all := Assembled(matches, name, date);
    CleanedShorter(all);
    CleanedMembers(all);
    forall r | r in all
      ensures Strip(r.testName) == r.testName && Strip(r.value) == r.value
      ensures Strip(r.unit) == r.unit && Strip(r.referenceRange) == r.referenceRange
      ensures exists m :: m in matches && r == ToRecord(m, name, date)
    {
      var k :| 0 <= k < |all| && all[k] == r;
      var m := matches[k];
      assert r == ToRecord(m, name, date);
      StripIdempotent(m.title);
      StripIdempotent(m.number);
      StripIdempotent(m.unit);
      StripIdempotent(m.rest);
    }
  }
}
