/**
 * Range classification (`analyze_test_results`): each row's value is compared
 * with its reference range and the row is given a `Category` of Low, Normal
 * or High, in place.
 */
module Analysis {
  import opened Base
  import opened Text
  import opened Records

  datatype Category = Low | Normal | High

  /** How a reference range bounds a value. */
  datatype Bound = TwoSided(low: real, high: real) | Ceiling(limit: real) | Floor(limit: real)

  /**
   * What makes classification raise: a value `float()` cannot read, an empty
   * range (its first character does not exist), or a bound `float()` cannot read.
   */
  datatype ClassifyError = BadValue | EmptyRange | BadBound

  /**
   * Reads a reference range: with exactly one '-' it is a two-sided bound,
   * otherwise a ceiling when it starts with '<' and a floor whatever else it
   * starts with; the limit of a one-sided bound is the rest after the first character.
   */
  function ParseRange(range: string): Result<Bound, ClassifyError> {
    var parts := Split(range, "-");
    if |parts| == 2 then
      match Float(Strip(parts[0]))
      case None => Err(BadBound)
      case Some(low) =>
        match Float(Strip(parts[1]))
        case None => Err(BadBound)
        case Some(high) => Ok(TwoSided(low, high))
    else if range == [] then Err(EmptyRange)
    else
      match Float(range[1..])
      case None => Err(BadBound)
      case Some(limit) => Ok(if range[0] == '<' then Ceiling(limit) else Floor(limit))
  }

  /**
   * Only the empty range has no first character; a range is two-sided exactly
   * when it has one '-'; a one-sided range is a ceiling exactly when it starts
   * with '<', and its limit is read after the first character.
   */
  lemma ParseRangeShape(range: string)
    ensures var r := ParseRange(range);
            (r == Err(EmptyRange) <==> range == []) &&
            (r.Ok? ==> (r.value.TwoSided? <==> Count(range, '-') == 1)) &&
            (r.Ok? && !r.value.TwoSided? ==>
               (r.value.Ceiling? <==> range[0] == '<') && Float(range[1..]) == Some(r.value.limit))
  {
    SplitCount(range, '-');
  }

  /** A range with a single '-' is read as the numbers on either side of it. */
  lemma ParseTwoSided(range: string, i: nat)
    requires Count(range, '-') == 1 && i < |range| && range[i] == '-'
    ensures ParseRange(range) ==
              match (Float(range[..i]), Float(range[i + 1..]))
              case (Some(low), Some(high)) => Ok(TwoSided(low, high))
              case _ => Err(BadBound)
  {
    SplitOneDash(range, i);
    FloatOfStrip(range[..i]);
    FloatOfStrip(range[i + 1..]);
  }

  /** A range with a single '-' at index `i` splits into the texts on either side of it. */
  lemma SplitOneDash(range: string, i: nat)
    requires Count(range, '-') == 1 && i < |range| && range[i] == '-'
    ensures Split(range, "-") == [range[..i], range[i + 1..]]
  {
    var before, after := range[..i], range[i + 1..];
    assert range == before + (['-'] + after);
    CountConcat(before, ['-'] + after, '-');
    assert (['-'] + after)[1..] == after;
    CountZeroAbsent(before, '-');
    CountZeroAbsent(after, '-');
    SplitWithout(after, '-');
    SplitAtFirst(before, '-', after);
    assert range == before + ['-'] + after;
  }

  /** The category of value `v` under bound `b`. */
  function CategoryOf(v: real, b: Bound): (c: Category)
    ensures b.TwoSided? ==> (c == Low <==> v < b.low)
    ensures b.TwoSided? ==> (c == High <==> b.low <= v && b.high < v)
    ensures b.TwoSided? ==> (c == Normal <==> b.low <= v <= b.high)
    ensures b.Ceiling? ==> c != Low && (c == High <==> v > b.limit)
    ensures b.Floor? ==> c != High && (c == Low <==> v < b.limit)
  {
    match b
    case TwoSided(low, high) => if v < low then Low else if v > high then High else Normal
    case Ceiling(limit) => if v > limit then High else Normal
    case Floor(limit) => if v < limit then Low else Normal
  }

  /** The category of one row, or the error that classifying it raises (the value is read first). */
  function Classify(value: string, range: string): Result<Category, ClassifyError> {
    match Float(value)
    case None => Err(BadValue)
    case Some(v) =>
      match ParseRange(range)
      case Err(e) => Err(e)
      case Ok(b) => Ok(CategoryOf(v, b))
  }

  /** The value is read first: its failure is the error; a category exists exactly when both value and range read. */
  lemma ClassifyOutcome(value: string, range: string)
    ensures Classify(value, range) == Err(BadValue) <==> Float(value).None?
    ensures Classify(value, range).Ok? <==> Float(value).Some? && ParseRange(range).Ok?
  {
    ParseRangeShape(range);
  }

  /** Two-sided range `low-high`: Low below low, High above high, Normal in between, ends included. */
  lemma ClassifyTwoSided(value: string, range: string, i: nat, v: real, low: real, high: real)
    requires Float(value) == Some(v)
    requires Count(range, '-') == 1 && i < |range| && range[i] == '-'
    requires Float(range[..i]) == Some(low) && Float(range[i + 1..]) == Some(high)
    ensures Classify(value, range) == Ok(Low) <==> v < low
    ensures Classify(value, range) == Ok(Normal) <==> low <= v <= high
    ensures Classify(value, range) == Ok(High) <==> low <= v && high < v
  {
    ParseTwoSided(range, i);
  }

  /** A range starting with '<' (and not two-sided): High above the limit, otherwise Normal, never Low. */
  lemma ClassifyCeiling(value: string, range: string, v: real, limit: real)
    requires Float(value) == Some(v)
    requires Count(range, '-') != 1 && range != [] && range[0] == '<'
    requires Float(range[1..]) == Some(limit)
    ensures Classify(value, range) == Ok(if v > limit then High else Normal)
  {
    SplitCount(range, '-');
    assert |Split(range, "-")| != 2;
  }

  /** A range starting with anything but '<' (and not two-sided): Low below the limit, otherwise Normal, never High. */
  lemma ClassifyFloor(value: string, range: string, v: real, limit: real)
    requires Float(value) == Some(v)
    requires Count(range, '-') != 1 && range != [] && range[0] != '<'
    requires Float(range[1..]) == Some(limit)
    ensures Classify(value, range) == Ok(if v < limit then Low else Normal)
  {
    SplitCount(range, '-');
    assert |Split(range, "-")| != 2;
  }

  /** A row of the analysis table: a record and, once analysed, its `Category`. */
  datatype Row = Row(record: Record, category: Option<Category>)

  /** The category of a row's record, or the error classifying it raises. */
  function ClassifyRow(row: Row): Result<Category, ClassifyError> {
    Classify(row.record.value, row.record.referenceRange)
  }

  /** `after` is `before` with the category its classification gives, and nothing else changed. */
  predicate Categorised(before: Row, after: Row) {
    ClassifyRow(before).Ok? && after == before.(category := Some(ClassifyRow(before).value))
  }

  /** One step of `analyze_test_results`: classifies item `i` and, when that succeeds, stores its category; nothing else changes. */
  method CategoriseItem(items: array<Row>, i: nat) returns (outcome: Result<Category, ClassifyError>)
    requires i < items.Length
    modifies items
    ensures outcome == ClassifyRow(old(items[i]))
    ensures outcome.Ok? ==> Categorised(old(items[i]), items[i])
    ensures outcome.Err? ==> items[i] == old(items[i])
    ensures forall j :: 0 <= j < items.Length && j != i ==> items[j] == old(items[j])
  {
    var item := items[i];
    outcome := ClassifyRow(item);
    if outcome.Ok? {
      items[i] := item.(category := Some(outcome.value));
    }
  }

  /**
   * `analyze_test_results`: sets each item's category in place, in order.
   * The first item whose value or range cannot be read stops the loop with
   * its error; the items before it are categorised and the rest untouched.
   */
  method AnalyzeTestResults(items: array<Row>) returns (failure: Option<(nat, ClassifyError)>)
    modifies items
    ensures failure.None? ==> forall j :: 0 <= j < items.Length ==> Categorised(old(items[j]), items[j])
    ensures failure.Some? ==>
              var k := failure.value.0;
              k < items.Length && ClassifyRow(old(items[k])) == Err(failure.value.1) &&
              (forall j :: 0 <= j < k ==> Categorised(old(items[j]), items[j])) &&
              (forall j :: k <= j < items.Length ==> items[j] == old(items[j]))
  {
    var i := 0;
    while i < items.Length
      invariant 0 <= i <= items.Length
      invariant forall j :: 0 <= j < i ==> Categorised(old(items[j]), items[j])
      invariant forall j :: i <= j < items.Length ==> items[j] == old(items[j])
    {
      var outcome := CategoriseItem(items, i);
      if outcome.Err? {
        return Some((i, outcome.error));
      }
      i := i + 1;
    }
    return None;
  }
}
