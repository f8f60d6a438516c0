/**
 * File upload (`handle_upload`): the records extracted from every uploaded
 * report are concatenated, projected onto the six table columns, and the
 * distinct patient names become the options of the patient dropdown.
 */
module Upload {
  import opened Base
  import opened Text
  import opened Dates
  import opened Records

  /**
   * One uploaded report as extraction sees it: its page text, the generic
   * pattern's matches in that text, and the captured patient name, if any.
   */
  datatype Report = Report(text: string, matches: seq<Match>, nameMatch: Option<string>)

  /** The records extraction yields for one report. */
  function ReportRecords(u: Report): seq<Record> {
    Cleaned(Assembled(u.matches, u.nameMatch, SearchDate(u.text)))
  }

  /** `files_data`: the records of every report, report by report, in upload order. */
  function FilesData(uploads: seq<Report>): seq<Record> {
    if uploads == [] then []
    else FilesData(uploads[..|uploads| - 1]) + ReportRecords(uploads[|uploads| - 1])
  }

  /** The names the dropdown may offer: every name a row carries that is neither None nor empty. */
  function PatientNames(rows: seq<Record>): set<string> {
    set r | r in rows && r.name.Some? && r.name.value != "" :: r.name.value
  }

  predicate Distinct(names: seq<string>) {
    forall i, j :: 0 <= i < j < |names| ==> names[i] != names[j]
  }

  /**
   * `list(set(...))` filtered by truthiness: each patient name once. The order
   * of a Python set is unspecified, so only the members and their
   * distinctness are promised.
   */
  method DropdownOptions(rows: seq<Record>) returns (names: seq<string>)
    ensures Distinct(names)
    ensures forall n :: n in names <==> n in PatientNames(rows)
  {
    names := [];
    for i := 0 to |rows|
      invariant Distinct(names)
      invariant forall n :: n in names <==> n in PatientNames(rows[..i])
    {
      assert rows[..i + 1] == rows[..i] + [rows[i]];
      var name := rows[i].name;
      if name.Some? && name.value != "" && name.value !in names {
        names := names + [name.value];
      }
    }
    assert rows[..|rows|] == rows;
  }

  /** The extraction loop of `handle_upload`: each report's records appended in turn. */
  method ExtractFiles(uploads: seq<Report>) returns (filesData: seq<Record>)
    ensures filesData == FilesData(uploads)
  {
    filesData := [];
    for i := 0 to |uploads|
      invariant filesData == FilesData(uploads[..i])
    {
      var u := uploads[i];
      var extracted := ExtractAllData(u.text, u.matches, u.nameMatch);
      FilesDataStep(uploads, i);
      filesData := filesData + extracted;
    }
    assert uploads[..|uploads|] == uploads;
  }

  /** The table rows: each record projected onto the six columns, in order. */
  method ProjectRows(filesData: seq<Record>) returns (table: seq<Record>)
    ensures table == filesData
  {
    table := [];
    for i := 0 to |filesData|
      invariant table == filesData[..i]
    {
      var entry := filesData[i];
      table := table + [Record(entry.name, entry.date, entry.testName, entry.value, entry.unit, entry.referenceRange)];
    }
  }

  /**
   * `handle_upload`: no contents, no data; otherwise every report's records in
   * order, one table row each with the six columns, the column list when
   * there is at least one row, and the patient names.
   */
  method HandleUpload(contents: Option<seq<Report>>)
    returns (table: seq<Record>, columns: seq<string>, options: seq<string>)
    ensures contents.None? ==> table == [] && columns == [] && options == []
    ensures contents.Some? ==> table == FilesData(contents.value)
    ensures columns == if table == [] then [] else TableColumns
    ensures Distinct(options)
    ensures forall n :: n in options <==> n in PatientNames(table)
  {
    if contents.None? {
      return [], [], [];
    }
    var filesData := ExtractFiles(contents.value);
    if filesData == [] {
      return [], [], [];
    }
    table := ProjectRows(filesData);
    columns := TableColumns;
    options := DropdownOptions(filesData);
  }

  /** Each further report appends exactly its own records. */
  lemma FilesDataStep(uploads: seq<Report>, i: nat)
    requires i < |uploads|
    ensures FilesData(uploads[..i + 1]) == FilesData(uploads[..i]) + ReportRecords(uploads[i])
  {
    assert uploads[..i + 1][..i] == uploads[..i];
  }

  /**
   * Every uploaded row passed the allow-list and carries the name and the
   * date of a report it was extracted from.
   */
  lemma {:induction false} FilesDataOrigin(uploads: seq<Report>)
    ensures forall r :: r in FilesData(uploads) ==>
              IsValid(r) &&
              exists u :: u in uploads && r.name == u.nameMatch && r.date == SearchDate(u.text)
  {
    if uploads != [] {
      var init := uploads[..|uploads| - 1];
      var last := uploads[|uploads| - 1];
      FilesDataOrigin(init);
      ExtractedRecords(last.matches, last.nameMatch, SearchDate(last.text));
      forall r | r in FilesData(uploads)
        ensures IsValid(r)
        ensures exists u :: u in uploads && r.name == u.nameMatch && r.date == SearchDate(u.text)
      {
        if r in FilesData(init) {
          var u :| u in init && r.name == u.nameMatch && r.date == SearchDate(u.text);
          assert u in uploads;
        } else {
          assert r in ReportRecords(last);
          assert last in uploads;
        }
      }
    }
  }

  /** Every dropdown option is the name captured from one of the uploaded reports. */
  lemma OptionsFromReports(uploads: seq<Report>, n: string)
    requires n in PatientNames(FilesData(uploads))
    ensures n != "" && exists u :: u in uploads && u.nameMatch == Some(n)
  {
    FilesDataOrigin(uploads);
    var r :| r in FilesData(uploads) && r.name.Some? && r.name.value != "" && r.name.value == n;
  }
}
