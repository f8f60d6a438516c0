/**
 * Comparison charts (`update_charts`): the rows of the selected patients are
 * grouped by patient and then by test, each group becomes one series sorted
 * by date, newest first, and each test of the first selected patient becomes
 * one chart holding a series per selected patient who has that test.
 */
module Charts {
  import opened Base
  import opened Text
  import opened Dates
  import opened Records

  /**
   * What makes the chart callback raise: a value `float()` cannot read, a
   * missing date or one `strptime` refuses, or a one-sided display bound
   * whose number cannot be read.
   */
  datatype ChartError = ValueUnreadable | DateUnreadable | BoundUnreadable

  /** A row enters the charts: its patient is selected and its value is not 'N/A'. */
  predicate Kept(row: Record, selected: seq<string>) {
    row.name.Some? && row.name.value in selected && row.value != "N/A"
  }

  /** Every row that enters the charts has a value `float()` can read. */
  predicate ValuesParse(table: seq<Record>, selected: seq<string>) {
    table == [] ||
    (ValuesParse(table[..|table| - 1], selected) &&
     (Kept(table[|table| - 1], selected) ==> Float(table[|table| - 1].value).Some?))
  }

  /** The row belongs to the group of patient `p` and test `t`. */
  predicate InGroup(row: Record, selected: seq<string>, p: string, t: string) {
    Kept(row, selected) && row.name == Some(p) && row.testName == t
  }

  /** The rows of the group of patient `p` and test `t`, in table order. */
  function RowsOf(table: seq<Record>, selected: seq<string>, p: string, t: string): seq<Record> {
    if table == [] then []
    else
      var row := table[|table| - 1];
      RowsOf(table[..|table| - 1], selected, p, t) + (if InGroup(row, selected, p, t) then [row] else [])
  }

  /** The tests of patient `p`'s kept rows, each once, in the order they first appear (dictionary key order). */
  function TestsOf(table: seq<Record>, selected: seq<string>, p: string): seq<string> {
    if table == [] then []
    else
      var tests := TestsOf(table[..|table| - 1], selected, p);
      var row := table[|table| - 1];
      if Kept(row, selected) && row.name == Some(p) && row.testName !in tests then tests + [row.testName]
      else tests
  }

  /** The three lists one (patient, test) entry of the grouping holds. */
  datatype Group = Group(values: seq<real>, dates: seq<Option<string>>, ranges: seq<string>)

  const EmptyGroup := Group([], [], [])

  /** Appending one row's value, date and reference range. */
  function Add(g: Group, row: Record): Group
    requires Float(row.value).Some?
  {
    Group(g.values + [Float(row.value).value], g.dates + [row.date], g.ranges + [row.referenceRange])
  }

  /** The group the grouping loop builds for patient `p` and test `t`: one entry per row of the group. */
  function GroupOf(table: seq<Record>, selected: seq<string>, p: string, t: string): (g: Group)
    requires ValuesParse(table, selected)
    ensures var n := |RowsOf(table, selected, p, t)|;
            |g.values| == n && |g.dates| == n && |g.ranges| == n
  {
    if table == [] then EmptyGroup
    else
      var row := table[|table| - 1];
      var g := GroupOf(table[..|table| - 1], selected, p, t);
      if InGroup(row, selected, p, t) then Add(g, row) else g
  }

  /** The k-th value, date and range of a group all come from the k-th row of the group, in table order. */
  lemma {:induction false} GroupOfRows(table: seq<Record>, selected: seq<string>, p: string, t: string, k: nat)
    requires ValuesParse(table, selected)
    requires k < |RowsOf(table, selected, p, t)|
    ensures var g, row := GroupOf(table, selected, p, t), RowsOf(table, selected, p, t)[k];
            Float(row.value) == Some(g.values[k]) && g.dates[k] == row.date && g.ranges[k] == row.referenceRange
  {
    var init := table[..|table| - 1];
    if k < |RowsOf(init, selected, p, t)| {
      GroupOfRows(init, selected, p, t, k);
    }
  }

  /** The rows of a group are rows of the table that belong to it. */
  lemma {:induction false} RowsOfMembers(table: seq<Record>, selected: seq<string>, p: string, t: string)
    ensures forall r :: r in RowsOf(table, selected, p, t) <==> r in table && InGroup(r, selected, p, t)
  {
    if table != [] {
      var init := table[..|table| - 1];
      RowsOfMembers(init, selected, p, t);
      assert table == init + [table[|table| - 1]];
      RowsOfSnoc(init, table[|table| - 1], selected, p, t);
    }
  }

  /** The nested `defaultdict` after the grouping loop: tests per patient in key order, and the groups. */
  datatype Grouping = Grouping(tests: map<string, seq<string>>, groups: map<(string, string), Group>)

  function TestsAt(g: Grouping, p: string): seq<string> {
    if p in g.tests then g.tests[p] else []
  }

  function GroupAt(g: Grouping, p: string, t: string): Group {
    if (p, t) in g.groups then g.groups[(p, t)] else EmptyGroup
  }

  lemma RowsOfSnoc(table: seq<Record>, row: Record, selected: seq<string>, p: string, t: string)
    ensures RowsOf(table + [row], selected, p, t) ==
            RowsOf(table, selected, p, t) + (if InGroup(row, selected, p, t) then [row] else [])
  {
    assert (table + [row])[..|table|] == table;
  }

  lemma TestsOfSnoc(table: seq<Record>, row: Record, selected: seq<string>, p: string)
    ensures TestsOf(table + [row], selected, p) ==
            var tests := TestsOf(table, selected, p);
            if Kept(row, selected) && row.name == Some(p) && row.testName !in tests then tests + [row.testName]
            else tests
  {
    assert (table + [row])[..|table|] == table;
  }

  /** A table whose kept values all parse has prefixes whose kept values all parse. */
  lemma {:induction false} ValuesParsePrefix(table: seq<Record>, selected: seq<string>, n: nat)
    requires ValuesParse(table, selected) && n <= |table|
    ensures ValuesParse(table[..n], selected)
    decreases |table|
  {
    if n < |table| {
      var init := table[..|table| - 1];
      ValuesParsePrefix(init, selected, n);
      assert init[..n] == table[..n];
    } else {
      assert table[..n] == table;
    }
  }

  /** The values of a table parse exactly when every kept row's value is a number `float()` reads. */
  lemma {:induction false} ValuesParseMembers(table: seq<Record>, selected: seq<string>)
    ensures ValuesParse(table, selected) <==>
              forall row :: row in table && Kept(row, selected) ==> Float(row.value).Some?
  {
    if table != [] {
      var init, last := table[..|table| - 1], table[|table| - 1];
      ValuesParseMembers(init, selected);
      assert table == init + [last];
    }
  }

  lemma ValuesParseSnoc(table: seq<Record>, row: Record, selected: seq<string>)
    ensures ValuesParse(table + [row], selected) <==>
            ValuesParse(table, selected) && (Kept(row, selected) ==> Float(row.value).Some?)
  {
    assert (table + [row])[..|table|] == table;
  }

  /** One more row adds to its own group only. */
  lemma GroupOfSnoc(table: seq<Record>, row: Record, selected: seq<string>, p: string, t: string)
    requires ValuesParse(table + [row], selected)
    ensures ValuesParse(table, selected)
    ensures GroupOf(table + [row], selected, p, t) ==
            if InGroup(row, selected, p, t) then Add(GroupOf(table, selected, p, t), row)
            else GroupOf(table, selected, p, t)
  {
    assert (table + [row])[..|table|] == table;
  }

  /** `g` holds, for every patient, the tests and groups the rows of `table` give. */
  ghost predicate Mirrors(g: Grouping, table: seq<Record>, selected: seq<string>)
    requires ValuesParse(table, selected)
  {
    (forall p :: TestsAt(g, p) == TestsOf(table, selected, p)) &&
    (forall p, t :: GroupAt(g, p, t) == GroupOf(table, selected, p, t))
  }

  /** The grouping after a kept row: its value, date and range appended, its test listed if new. */
  function Grow(g: Grouping, row: Record): Grouping
    requires row.name.Some? && Float(row.value).Some?
  {
    var p, t := row.name.value, row.testName;
    Grouping(if t in TestsAt(g, p) then g.tests else g.tests[p := TestsAt(g, p) + [t]],
             g.groups[(p, t) := Add(GroupAt(g, p, t), row)])
  }

  /** Growing by a kept row keeps one group in step with the rows seen. */
  lemma GrowGroup(g: Grouping, table: seq<Record>, row: Record, selected: seq<string>, q: string, u: string)
    requires ValuesParse(table + [row], selected) && Kept(row, selected) && Float(row.value).Some?
    requires ValuesParse(table, selected) && GroupAt(g, q, u) == GroupOf(table, selected, q, u)
    ensures GroupAt(Grow(g, row), q, u) == GroupOf(table + [row], selected, q, u)
  {
    GroupOfSnoc(table, row, selected, q, u);
  }

  /** Growing by a kept row keeps one patient's test list in step with the rows seen. */
  lemma GrowTests(g: Grouping, table: seq<Record>, row: Record, selected: seq<string>, q: string)
    requires Kept(row, selected) && Float(row.value).Some?
    requires TestsAt(g, q) == TestsOf(table, selected, q)
    ensures TestsAt(Grow(g, row), q) == TestsOf(table + [row], selected, q)
  {
    TestsOfSnoc(table, row, selected, q);
  }

  /** Growing by a kept row keeps the grouping in step with the rows seen. */
  lemma GrowMirrors(g: Grouping, table: seq<Record>, row: Record, selected: seq<string>)
    requires ValuesParse(table + [row], selected) && Kept(row, selected) && Float(row.value).Some?
    requires ValuesParse(table, selected) && Mirrors(g, table, selected)
    ensures Mirrors(Grow(g, row), table + [row], selected)
  {
    forall q
      ensures TestsAt(Grow(g, row), q) == TestsOf(table + [row], selected, q)
    {
      GrowTests(g, table, row, selected, q);
    }
    forall q, u
      ensures GroupAt(Grow(g, row), q, u) == GroupOf(table + [row], selected, q, u)
    {
      GrowGroup(g, table, row, selected, q, u);
    }
  }

  /** A row that is not kept changes no test list and no group. */
  lemma SkipMirrors(g: Grouping, table: seq<Record>, row: Record, selected: seq<string>)
    requires !Kept(row, selected)
    requires ValuesParse(table, selected) && Mirrors(g, table, selected)
    ensures ValuesParse(table + [row], selected) && Mirrors(g, table + [row], selected)
  {
    ValuesParseSnoc(table, row, selected);
    forall q
      ensures TestsAt(g, q) == TestsOf(table + [row], selected, q)
    {
      TestsOfSnoc(table, row, selected, q);
    }
    forall q, u
      ensures GroupAt(g, q, u) == GroupOf(table + [row], selected, q, u)
    {
      GroupOfSnoc(table, row, selected, q, u);
    }
  }

  /** One kept row whose value cannot be read makes the whole table fail to group. */
  lemma UnreadableValue(table: seq<Record>, selected: seq<string>, i: nat)
    requires i < |table| && Kept(table[i], selected) && Float(table[i].value).None?
    ensures !ValuesParse(table, selected)
  {
    ValuesParseSnoc(table[..i], table[i], selected);
    assert table[..i + 1] == table[..i] + [table[i]];
    if ValuesParse(table, selected) {
      ValuesParsePrefix(table, selected, i + 1);
    }
  }

  /**
   * The grouping loop of `update_charts`: for every row of a selected patient
   * whose value is not 'N/A', the value (read by `float()`), date and range
   * are appended to the patient's entry for the row's test. A value
   * `float()` cannot read makes the loop raise.
   */
  method GroupRows(selected: seq<string>, table: seq<Record>) returns (r: Result<Grouping, ChartError>)
    ensures r.Err? <==> !ValuesParse(table, selected)
    ensures r.Err? ==> r.error == ValueUnreadable
    ensures r.Ok? ==> forall p :: TestsAt(r.value, p) == TestsOf(table, selected, p)
    ensures r.Ok? ==> forall p, t :: GroupAt(r.value, p, t) == GroupOf(table, selected, p, t)
  {
    var tests: map<string, seq<string>> := map[];
    var groups: map<(string, string), Group> := map[];
    for i := 0 to |table|
      invariant ValuesParse(table[..i], selected)
      invariant Mirrors(Grouping(tests, groups), table[..i], selected)
    {
      var row := table[i];
      assert table[..i + 1] == table[..i] + [row];
      var before := Grouping(tests, groups);
      if row.name.Some? && row.name.value in selected && row.value != "N/A" {
        var p, t := row.name.value, row.testName;
        var parsed := Float(row.value);
        if parsed.None? {
          UnreadableValue(table, selected, i);
          return Err(ValueUnreadable);
        }
        groups := groups[(p, t) := Add(GroupAt(before, p, t), row)];
        if t !in TestsAt(before, p) {
          tests := tests[p := TestsAt(before, p) + [t]];
        }
        ValuesParseSnoc(table[..i], row, selected);
        GrowMirrors(before, table[..i], row, selected);
        assert Grouping(tests, groups) == Grow(before, row);
      } else {
        SkipMirrors(before, table[..i], row, selected);
      }
    }
    assert table[..|table|] == table;
    return Ok(Grouping(tests, groups));
  }

  /** A test is among a patient's tests exactly when the patient's group for it has rows. */
  lemma {:induction false} TestsOfMembers(table: seq<Record>, selected: seq<string>, p: string, t: string)
    ensures t in TestsOf(table, selected, p) <==> RowsOf(table, selected, p, t) != []
  {
    if table != [] {
      TestsOfMembers(table[..|table| - 1], selected, p, t);
    }
  }

  /** Each test is listed once. */
  lemma {:induction false} TestsOfDistinct(table: seq<Record>, selected: seq<string>, p: string)
    ensures forall i, j :: 0 <= i < j < |TestsOf(table, selected, p)| ==>
              TestsOf(table, selected, p)[i] != TestsOf(table, selected, p)[j]
  {
    if table != [] {
      TestsOfDistinct(table[..|table| - 1], selected, p);
    }
  }

  /** One point of a series: the parsed date and the value. */
  datatype Point = Point(date: Date, value: real)

  /**
   * `[datetime.strptime(date, '%d/%m/%Y') for date in ...]`: every date read,
   * or None when one is missing or refused.
   */
  function ParseDates(dates: seq<Option<string>>): (r: Option<seq<Date>>)
    ensures r.Some? ==> |r.value| == |dates|
    ensures r.Some? ==> forall k :: 0 <= k < |dates| ==> dates[k].Some? && ParseDate(dates[k].value) == Some(r.value[k])
    ensures r.None? ==> exists k :: 0 <= k < |dates| && (dates[k].None? || ParseDate(dates[k].value).None?)
  {
    if dates == [] then Some([])
    else
      var last := dates[|dates| - 1];
      match ParseDates(dates[..|dates| - 1])
      case None => None
      case Some(ds) =>
        if last.None? then None
        else
          match ParseDate(last.value)
          case None => None
          case Some(d) => Some(ds + [d])
  }

  /** `zip(dates, values)`. */
  function Zip(dates: seq<Date>, values: seq<real>): seq<Point>
    requires |dates| == |values|
  {
    seq(|dates|, k requires 0 <= k < |dates| => Point(dates[k], values[k]))
  }

  /** Every point is dated no earlier than the ones after it. */
  predicate NewestFirst(ps: seq<Point>) {
    forall i, j :: 0 <= i < j < |ps| ==> NotBefore(ps[i].date, ps[j].date)
  }

  /** Places `p` after every point of `s` dated on or after it, before the first one dated earlier. */
  function Insert(p: Point, s: seq<Point>): seq<Point> {
    if s == [] then [p]
    else if NotBefore(s[0].date, p.date) then [s[0]] + Insert(p, s[1..])
    else [p] + s
  }

  /** Inserting adds exactly the one point. */
  lemma {:induction false} InsertCounts(p: Point, s: seq<Point>)
    ensures multiset(Insert(p, s)) == multiset(s) + multiset{p}
  {
    if s != [] {
      assert s == [s[0]] + s[1..];
      if NotBefore(s[0].date, p.date) {
        InsertCounts(p, s[1..]);
      }
    }
  }

  lemma {:induction false} InsertNewestFirst(p: Point, s: seq<Point>)
    requires NewestFirst(s)
    ensures NewestFirst(Insert(p, s))
  {
    if s != [] && NotBefore(s[0].date, p.date) {
      InsertNewestFirst(p, s[1..]);
      InsertCounts(p, s[1..]);
      var r := Insert(p, s);
      forall j | 0 < j < |r|
        ensures NotBefore(r[0].date, r[j].date)
      {
        assert r[j] in multiset(Insert(p, s[1..]));
        assert r[j] in multiset(s[1..]) + multiset{p};
        if r[j] != p {
          var k :| 0 <= k < |s[1..]| && s[1..][k] == r[j];
          assert s[k + 1] == r[j];
        }
      }
    } else if s != [] {
      NotBeforeTotal(s[0].date, p.date);
      forall j | 0 <= j < |s|
        ensures NotBefore(p.date, s[j].date)
      {
        if j > 0 {
          NotBeforeTransitive(p.date, s[0].date, s[j].date);
        }
      }
    }
  }

  /**
   * `sorted(points, key=date, reverse=True)`: each point in turn is placed
   * after the points already placed that are dated on or after it.
   */
  function SortNewestFirst(ps: seq<Point>): (r: seq<Point>)
    ensures NewestFirst(r)
  {
    if ps == [] then []
    else
      var init, last := ps[..|ps| - 1], ps[|ps| - 1];
      assert ps == init + [last];
      InsertNewestFirst(last, SortNewestFirst(init));
      Insert(last, SortNewestFirst(init))
  }

  /** Sorting only reorders: the same points, each as often. */
  lemma {:induction false} SortPermutes(ps: seq<Point>)
    ensures multiset(SortNewestFirst(ps)) == multiset(ps)
  {
    if ps != [] {
      var init, last := ps[..|ps| - 1], ps[|ps| - 1];
      SortPermutes(init);
      InsertCounts(last, SortNewestFirst(init));
      assert ps == init + [last];
    }
  }

  /** The points of `ps` dated `d`, in their order. */
  function OnDate(ps: seq<Point>, d: Date): seq<Point> {
    if ps == [] then [] else (if ps[0].date == d then [ps[0]] else []) + OnDate(ps[1..], d)
  }

  lemma {:induction false} OnDateConcat(a: seq<Point>, b: seq<Point>, d: Date)
    ensures OnDate(a + b, d) == OnDate(a, d) + OnDate(b, d)
  {
    if a == [] {
      assert a + b == b;
    } else {
      OnDateConcat(a[1..], b, d);
      assert (a + b)[0] == a[0];
      assert (a + b)[1..] == a[1..] + b;
    }
  }

  /** A newest-first sequence that opens with a point dated before `d` holds no point dated `d`. */
  lemma {:induction false} OnDateNone(s: seq<Point>, d: Date)
    requires NewestFirst(s) && s != [] && !NotBefore(s[0].date, d)
    ensures OnDate(s, d) == []
  {
    if |s| > 1 {
      assert NotBefore(s[0].date, s[1].date);
      if NotBefore(s[1].date, d) {
        NotBeforeTransitive(s[0].date, s[1].date, d);
      }
      OnDateNone(s[1..], d);
    }
  }

  /** The points of a sequence that opens with `x`. */
  lemma OnDateCons(x: Point, rest: seq<Point>, d: Date)
    ensures OnDate([x] + rest, d) == (if x.date == d then [x] else []) + OnDate(rest, d)
  {
    assert ([x] + rest)[1..] == rest;
  }

  lemma NewestFirstTail(s: seq<Point>)
    requires NewestFirst(s) && s != []
    ensures NewestFirst(s[1..])
  {
    var tail := s[1..];
    forall i, j | 0 <= i < j < |tail|
      ensures NotBefore(tail[i].date, tail[j].date)
    {
      assert tail[i] == s[i + 1] && tail[j] == s[j + 1];
    }
  }

  /** Inserting a point puts it after the points already there on its date. */
  lemma {:induction false} InsertOnDate(p: Point, s: seq<Point>, d: Date)
    requires NewestFirst(s)
    ensures OnDate(Insert(p, s), d) == if p.date == d then OnDate(s, d) + [p] else OnDate(s, d)
  {
    if s == [] {
      OnDateCons(p, [], d);
    } else if NotBefore(s[0].date, p.date) {
      NewestFirstTail(s);
      InsertOnDate(p, s[1..], d);
      OnDateCons(s[0], Insert(p, s[1..]), d);
      OnDateCons(s[0], s[1..], d);
      assert [s[0]] + s[1..] == s;
    } else {
      if p.date == d {
        OnDateNone(s, d);
      }
      OnDateCons(p, s, d);
    }
  }

  /** Inserting the last point into the sorted earlier points keeps each date's order. */
  lemma SnocStable(init: seq<Point>, last: Point, sorted: seq<Point>, d: Date)
    requires NewestFirst(sorted) && OnDate(sorted, d) == OnDate(init, d)
    ensures OnDate(Insert(last, sorted), d) == OnDate(init + [last], d)
  {
    InsertOnDate(last, sorted, d);
    OnDateConcat(init, [last], d);
    OnDateCons(last, [], d);
    assert [last] + [] == [last];
  }

  /** Sorting is stable: the points of any one date keep their original order. */
  lemma {:induction false} SortStable(ps: seq<Point>, d: Date)
    ensures OnDate(SortNewestFirst(ps), d) == OnDate(ps, d)
  {
    if ps != [] {
      var init, last := ps[..|ps| - 1], ps[|ps| - 1];
      SortStable(init, d);
      SnocStable(init, last, SortNewestFirst(init), d);
      assert ps == init + [last];
    }
  }

  /** The high display bound: the text after the separator, or the number after the first character. */
  datatype High = TextBound(text: string) | NumBound(limit: real)

  /**
   * The reference lines of a series, from one range split on " - ": two
   * pieces are the low and high texts; otherwise the low is the first piece
   * and the high is the number after that piece's first character.
   */
  function DisplayBounds(range: string): (r: Result<(string, High), ChartError>)
    ensures r.Err? ==> r.error == BoundUnreadable
    ensures r.Ok? && r.value.1.TextBound? ==>
              range == r.value.0 + " - " + r.value.1.text &&
              !Contains(r.value.0, " - ") && !Contains(r.value.1.text, " - ")
    ensures r.Ok? && r.value.1.NumBound? ==>
              var low := r.value.0;
              low != [] && |low| <= |range| && range[..|low|] == low && !Contains(low, " - ") &&
              Float(low[1..]) == Some(r.value.1.limit)
    ensures !Contains(range, " - ") ==>
              r == if range != [] && Float(range[1..]).Some? then Ok((range, NumBound(Float(range[1..]).value)))
                   else Err(BoundUnreadable)
  {
    var parts := Split(range, " - ");
    SplitFirstPiece(range, " - ");
    SplitPartsAvoidSep(range, " - ");
    if |parts| == 2 then Ok((parts[0], TextBound(parts[1])))
    else
      var first := parts[0];
      if first == [] then Err(BoundUnreadable)
      else
        match Float(first[1..])
        case None => Err(BoundUnreadable)
        case Some(high) => Ok((first, NumBound(high)))
  }

  /**
   * A range written as two texts around one " - " shows exactly those two
   * texts, provided the first does not end in " -" (which would make the
   * separator start one character earlier).
   */
  lemma DisplayBoundsOfPair(low: string, high: string)
    requires !Contains(low, " - ") && !Contains(high, " - ")
    requires !(|low| >= 2 && low[|low| - 2..] == " -")
    ensures DisplayBounds(low + " - " + high) == Ok((low, TextBound(high)))
  {
    var sep := " - ";
    var s := low + sep + high;
    assert OccursAt(s, sep, |low|) by { assert s[|low|..|low| + 3] == sep; }
    assert s[..|low|] == low;
    forall j | 0 <= j < |low|
      ensures !OccursAt(s, sep, j)
    {
      if j + 3 <= |low| {
        assert s[j..j + 3] == s[..|low|][j..j + 3];
        assert s[j..j + 3] == low[j..j + 3];
        assert !OccursAt(low, sep, j);
      } else if j == |low| - 1 {
        assert s[j + 1] == sep[0] == ' ';
        assert s[j..j + 3][1] != sep[1];
      } else {
        assert s[j..j + 3][..2] == low[|low| - 2..];
        assert sep[..2] == " -";
        assert s[j..j + 3][..2] != sep[..2];
      }
    }
    var i := Find(s, sep, 0).value;
    assert i == |low|;
    assert s[..i] == low && s[i + 3..] == high;
    SplitFirstPiece(high, sep);
    assert Split(s, sep) == [low, high];
  }

  /**
   * A numeric high comes with the text before the first " - " (the whole
   * range when there is none) as its low. With other than two pieces the
   * result is decided by that first piece alone: BoundUnreadable when it is empty or
   * the text after its first character is no number, and otherwise that
   * number as the high.
   */
  lemma DisplayBoundsFirstPiece(range: string)
    ensures var first := if Contains(range, " - ") then range[..Find(range, " - ", 0).value] else range;
            var r := DisplayBounds(range);
            (r.Ok? && r.value.1.NumBound? ==> r.value.0 == first) &&
            (|Split(range, " - ")| != 2 ==>
               (r.Err? <==> first == [] || Float(first[1..]).None?) &&
               (r.Ok? ==> r.value.0 == first && r.value.1 == NumBound(Float(first[1..]).value)))
  {
    SplitHead(range, " - ");
  }

  /** One line of a chart: a patient's points, newest first, with its reference bounds. */
  datatype Series = Series(patient: string, points: seq<Point>, low: string, high: High)

  /**
   * The series of patient `p` from its group: the dates read, paired with the
   * values, sorted newest first, with the bounds of the group's first range.
   */
  function MakeSeries(p: string, g: Group): (r: Result<Series, ChartError>)
    requires |g.dates| == |g.values| && g.ranges != []
    ensures r.Ok? <==> ParseDates(g.dates).Some? && DisplayBounds(g.ranges[0]).Ok?
    ensures r.Err? ==> r.error == if ParseDates(g.dates).None? then DateUnreadable else BoundUnreadable
    ensures r.Ok? ==> r.value.patient == p && DisplayBounds(g.ranges[0]) == Ok((r.value.low, r.value.high))
  {
    match ParseDates(g.dates)
    case None => Err(DateUnreadable)
    case Some(dates) =>
      match DisplayBounds(g.ranges[0])
      case Err(e) => Err(e)
      case Ok((low, high)) => Ok(Series(p, SortNewestFirst(Zip(dates, g.values)), low, high))
  }

  /**
   * The points of a series are the group's (date, value) pairs, newest first,
   * and pairs of the same date keep their order in the group.
   */
  lemma SeriesPoints(p: string, g: Group)
    requires |g.dates| == |g.values| && g.ranges != []
    requires MakeSeries(p, g).Ok?
    ensures var pairs, points := Zip(ParseDates(g.dates).value, g.values), MakeSeries(p, g).value.points;
            NewestFirst(points) && multiset(points) == multiset(pairs) &&
            forall d :: OnDate(points, d) == OnDate(pairs, d)
  {
    var pairs := Zip(ParseDates(g.dates).value, g.values);
    SortPermutes(pairs);
    forall d
      ensures OnDate(SortNewestFirst(pairs), d) == OnDate(pairs, d)
    {
      SortStable(pairs, d);
    }
  }

  /** One chart: a test and its series. */
  datatype Chart = Chart(test: string, series: seq<Series>)

  /**
   * Patient `p`'s part of the chart of test `t`: nothing when the patient has
   * no such test, otherwise its series or the error making it raises.
   */
  function PatientSeries(table: seq<Record>, selected: seq<string>, p: string, t: string)
    : (r: Result<Option<Series>, ChartError>)
    requires ValuesParse(table, selected)
    ensures r == Ok(None) <==> t !in TestsOf(table, selected, p)
    ensures r.Ok? && r.value.Some? ==> r.value.value.patient == p
  {
    if t !in TestsOf(table, selected, p) then Ok(None)
    else
      TestsOfMembers(table, selected, p, t);
      match MakeSeries(p, GroupOf(table, selected, p, t))
      case Err(e) => Err(e)
      case Ok(s) => Ok(Some(s))
  }

  /**
   * The series of the chart of test `t`: each patient's part in turn; the
   * first part that cannot be made raises its error.
   */
  function SeriesFor(table: seq<Record>, selected: seq<string>, patients: seq<string>, t: string)
    : Result<seq<Series>, ChartError>
    requires ValuesParse(table, selected)
  {
    if patients == [] then Ok([])
    else
      match SeriesFor(table, selected, patients[..|patients| - 1], t)
      case Err(e) => Err(e)
      case Ok(ss) =>
        match PatientSeries(table, selected, patients[|patients| - 1], t)
        case Err(e) => Err(e)
        case Ok(None) => Ok(ss)
        case Ok(Some(s)) => Ok(ss + [s])
  }

  /** The charts of `tests`, in order; the first chart that cannot be made raises its error. */
  function ChartsFor(table: seq<Record>, selected: seq<string>, tests: seq<string>): Result<seq<Chart>, ChartError>
    requires ValuesParse(table, selected)
  {
    if tests == [] then Ok([])
    else
      var t := tests[|tests| - 1];
      match ChartsFor(table, selected, tests[..|tests| - 1])
      case Err(e) => Err(e)
      case Ok(cs) =>
        match SeriesFor(table, selected, selected, t)
        case Err(e) => Err(e)
        case Ok(ss) => Ok(cs + [Chart(t, ss)])
  }

  /** Once a patient's series fails, the whole list of series fails with that error. */
  lemma {:induction false} SeriesForPrefixErr(table: seq<Record>, selected: seq<string>, patients: seq<string>, n: nat, t: string)
    requires ValuesParse(table, selected)
    requires n <= |patients| && SeriesFor(table, selected, patients[..n], t).Err?
    ensures SeriesFor(table, selected, patients, t) == SeriesFor(table, selected, patients[..n], t)
    decreases |patients|
  {
    if n < |patients| {
      var init := patients[..|patients| - 1];
      assert init[..n] == patients[..n];
      SeriesForPrefixErr(table, selected, init, n, t);
    } else {
      assert patients[..n] == patients;
    }
  }

  /** Once a chart fails, the whole list of charts fails with that error. */
  lemma {:induction false} ChartsForPrefixErr(table: seq<Record>, selected: seq<string>, tests: seq<string>, n: nat)
    requires ValuesParse(table, selected)
    requires n <= |tests| && ChartsFor(table, selected, tests[..n]).Err?
    ensures ChartsFor(table, selected, tests) == ChartsFor(table, selected, tests[..n])
    decreases |tests|
  {
    if n < |tests| {
      var init := tests[..|tests| - 1];
      assert init[..n] == tests[..n];
      ChartsForPrefixErr(table, selected, init, n);
    } else {
      assert tests[..n] == tests;
    }
  }

  /**
   * The patient loop of `update_charts` for test `t`: a series for each
   * selected patient who has the test, in selection order; the first one
   * that cannot be made raises its error.
   */
  method SeriesOfTest(selected: seq<string>, table: seq<Record>, g: Grouping, t: string)
    returns (r: Result<seq<Series>, ChartError>)
    requires ValuesParse(table, selected) && Mirrors(g, table, selected)
    ensures r == SeriesFor(table, selected, selected, t)
  {
    var series := [];
    for j := 0 to |selected|
      invariant SeriesFor(table, selected, selected[..j], t) == Ok(series)
    {
      var p := selected[j];
      assert selected[..j + 1][..j] == selected[..j];
      if t in TestsAt(g, p) {
        TestsOfMembers(table, selected, p, t);
        var made := MakeSeries(p, GroupAt(g, p, t));
        assert PatientSeries(table, selected, p, t) == if made.Err? then Err(made.error) else Ok(Some(made.value));
        if made.Err? {
          SeriesForPrefixErr(table, selected, selected, j + 1, t);
          return Err(made.error);
        }
        series := series + [made.value];
      }
    }
    assert selected[..|selected|] == selected;
    return Ok(series);
  }

  /**
   * `update_charts`: no selection or no table, no charts. Otherwise the rows
   * are grouped, and for each test of the first selected patient, in the
   * order the tests first appear, one chart with a series for each selected
   * patient that has the test.
   */
  method UpdateCharts(selected: seq<string>, table: seq<Record>) returns (r: Result<seq<Chart>, ChartError>)
    ensures selected == [] || table == [] ==> r == Ok([])
    ensures selected != [] && table != [] && !ValuesParse(table, selected) ==> r == Err(ValueUnreadable)
    ensures selected != [] && table != [] && ValuesParse(table, selected) ==>
              r == ChartsFor(table, selected, TestsOf(table, selected, selected[0]))
  {
    if selected == [] || table == [] {
      return Ok([]);
    }
    var grouped := GroupRows(selected, table);
    if grouped.Err? {
      return Err(grouped.error);
    }
    var g := grouped.value;
    var tests := TestsAt(g, selected[0]);
    var charts := [];
    for i := 0 to |tests|
      invariant ChartsFor(table, selected, tests[..i]) == Ok(charts)
    {
      var t := tests[i];
      assert tests[..i + 1][..i] == tests[..i];
      var series := SeriesOfTest(selected, table, g, t);
      if series.Err? {
        ChartsForPrefixErr(table, selected, tests, i + 1);
        return Err(series.error);
      }
      charts := charts + [Chart(t, series.value)];
    }
    assert tests[..|tests|] == tests;
    return Ok(charts);
  }

  /** There is one chart per test, in order, exactly when every test's series can be made. */
  lemma {:induction false} ChartsForShape(table: seq<Record>, selected: seq<string>, tests: seq<string>)
    requires ValuesParse(table, selected)
    ensures ChartsFor(table, selected, tests).Ok? <==>
              forall k :: 0 <= k < |tests| ==> SeriesFor(table, selected, selected, tests[k]).Ok?
    ensures ChartsFor(table, selected, tests).Ok? ==>
              var charts := ChartsFor(table, selected, tests).value;
              |charts| == |tests| &&
              forall k :: 0 <= k < |tests| ==>
                charts[k] == Chart(tests[k], SeriesFor(table, selected, selected, tests[k]).value)
  {
    if tests != [] {
      var init := tests[..|tests| - 1];
      ChartsForShape(table, selected, init);
      assert forall k :: 0 <= k < |init| ==> init[k] == tests[k];
    }
  }

  /** A patient's series has one point per row of its group, newest first. */
  lemma PatientSeriesPoints(table: seq<Record>, selected: seq<string>, p: string, t: string)
    requires ValuesParse(table, selected)
    requires PatientSeries(table, selected, p, t).Ok? && PatientSeries(table, selected, p, t).value.Some?
    ensures var s := PatientSeries(table, selected, p, t).value.value;
            |s.points| == |RowsOf(table, selected, p, t)| && NewestFirst(s.points)
  {
    TestsOfMembers(table, selected, p, t);
    var g := GroupOf(table, selected, p, t);
    SeriesPoints(p, g);
    var pairs := Zip(ParseDates(g.dates).value, g.values);
    var points := MakeSeries(p, g).value.points;
    assert |points| == |multiset(points)| == |multiset(pairs)| == |pairs|;
  }

  /** A chart fails only with the error of some patient's part. */
  lemma {:induction false} SeriesForErr(table: seq<Record>, selected: seq<string>, patients: seq<string>, t: string)
    requires ValuesParse(table, selected)
    requires SeriesFor(table, selected, patients, t).Err?
    ensures exists k :: 0 <= k < |patients| &&
              PatientSeries(table, selected, patients[k], t) == Err(SeriesFor(table, selected, patients, t).error)
  {
    var init := patients[..|patients| - 1];
    if SeriesFor(table, selected, init, t).Err? {
      SeriesForErr(table, selected, init, t);
      var k :| 0 <= k < |init| && PatientSeries(table, selected, init[k], t) == Err(SeriesFor(table, selected, init, t).error);
      assert patients[k] == init[k];
    } else {
      assert PatientSeries(table, selected, patients[|init|], t) == Err(SeriesFor(table, selected, patients, t).error);
    }
  }

  /**
   * The series of a chart belong to the patients that have the test, one
   * each, in patient order: every series is of such a patient, and every such
   * patient has a series.
   */
  lemma {:induction false} SeriesForMembers(table: seq<Record>, selected: seq<string>, patients: seq<string>, t: string)
    requires ValuesParse(table, selected)
    requires SeriesFor(table, selected, patients, t).Ok?
    ensures var series := SeriesFor(table, selected, patients, t).value;
            |series| <= |patients| &&
            (forall s :: s in series ==> s.patient in patients && t in TestsOf(table, selected, s.patient)) &&
            (forall p :: p in patients && t in TestsOf(table, selected, p) ==> exists s :: s in series && s.patient == p)
  {
    if patients != [] {
      var init, last := patients[..|patients| - 1], patients[|patients| - 1];
      var series := SeriesFor(table, selected, patients, t).value;
      var part := PatientSeries(table, selected, last, t);
      var before := SeriesFor(table, selected, init, t).value;
      SeriesForMembers(table, selected, init, t);
      assert patients == init + [last];
      var extra := if part.value.Some? then [part.value.value] else [];
      assert series == before + extra;
      forall s | s in series
        ensures s.patient in patients && t in TestsOf(table, selected, s.patient)
      {
        if s !in before {
          assert s == part.value.value;
        }
      }
      forall p | p in patients && t in TestsOf(table, selected, p)
        ensures exists s :: s in series && s.patient == p
      {
        if p in init {
          var s :| s in before && s.patient == p;
          assert s in series;
        } else {
          assert p == last && part.value.Some?;
          assert part.value.value in series;
        }
      }
    }
  }
}
