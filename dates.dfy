/**
 * Collection dates: the `d/m/yyyy` token the report text is searched for,
 * `datetime.strptime(s, '%d/%m/%Y')`, and the order in which dates compare.
 */
module Dates {
  import opened Base
  import opened Text

  /** A calendar day. */
  datatype Date = Date(year: int, month: int, day: int)

  predicate IsLeapYear(year: int) {
    year % 4 == 0 && (year % 100 != 0 || year % 400 == 0)
  }

  function DaysInMonth(month: int, year: int): int
    requires 1 <= month <= 12
  {
    if month == 2 then (if IsLeapYear(year) then 29 else 28)
    else if month == 4 || month == 6 || month == 9 || month == 11 then 30
    else 31
  }

  /** The days Python's `datetime` can hold. */
  predicate ValidDate(d: Date) {
    1 <= d.year <= 9999 && 1 <= d.month <= 12 && 1 <= d.day <= DaysInMonth(d.month, d.year)
  }

  /**
   * `datetime.strptime(s, '%d/%m/%Y')`: one or two day digits, one or two month
   * digits and exactly four year digits, separated by '/', naming a real day.
   */
  function ParseDate(s: string): (r: Option<Date>)
    ensures r.Some? ==> ValidDate(r.value)
  {
    var parts := Split(s, "/");
    if |parts| != 3 then None
    else
      var d, m, y := parts[0], parts[1], parts[2];
      if 1 <= |d| <= 2 && 1 <= |m| <= 2 && |y| == 4 && AllDigits(d) && AllDigits(m) && AllDigits(y) then
        var date := Date(DigitsValue(y), DigitsValue(m), DigitsValue(d));
        if ValidDate(date) then Some(date) else None
      else None
  }

  /** Digit pieces joined by '/' are read back piece by piece; only the calendar check can reject them. */
  lemma ParseDatePieces(d: string, m: string, y: string)
    requires 1 <= |d| <= 2 && 1 <= |m| <= 2 && |y| == 4
    requires AllDigits(d) && AllDigits(m) && AllDigits(y)
    ensures var date := Date(DigitsValue(y), DigitsValue(m), DigitsValue(d));
            ParseDate(d + "/" + m + "/" + y) == if ValidDate(date) then Some(date) else None
  {
    SplitDate(d, m, y);
  }

  /** Digit pieces joined by '/' split back into those pieces. */
  lemma SplitDate(d: string, m: string, y: string)
    requires AllDigits(d) && AllDigits(m) && AllDigits(y)
    ensures Split(d + "/" + m + "/" + y, "/") == [d, m, y]
  {
    SplitWithout(y, '/');
    SplitAtFirst(m, '/', y);
    assert m + "/" + y == m + ['/'] + y;
    SplitAtFirst(d, '/', m + "/" + y);
    assert d + "/" + m + "/" + y == d + ['/'] + (m + "/" + y);
  }

  /**
   * Only `d/m/yyyy`-shaped text is accepted: whatever is read is one or two
   * day digits, one or two month digits and four year digits joined by '/',
   * and the day returned is the one those digits name.
   */
  lemma ParseDateShape(s: string)
    requires ParseDate(s).Some?
    ensures exists d, m, y ::
              1 <= |d| <= 2 && 1 <= |m| <= 2 && |y| == 4 &&
              AllDigits(d) && AllDigits(m) && AllDigits(y) && s == d + "/" + m + "/" + y &&
              ParseDate(s).value == Date(DigitsValue(y), DigitsValue(m), DigitsValue(d))
  {
    var parts := Split(s, "/");
    JoinSplit(s, "/");
    assert Join(parts[1..], "/") == parts[1] + "/" + parts[2] by {
      assert parts[1..][1..] == [parts[2]];
    }
    assert s == parts[0] + "/" + parts[1] + "/" + parts[2];
  }

  /** `n` written with exactly `width` digits, zero-padded on the left. */
  function Padded(n: nat, width: nat): (s: string)
    ensures |s| == width && AllDigits(s)
  {
    if width == 0 then [] else Padded(n / 10, width - 1) + [DigitChar(n % 10)]
  }

  lemma {:induction false} PaddedValue(n: nat, width: nat)
    requires n < Pow10(width)
    ensures DigitsValue(Padded(n, width)) == n
  {
    if width > 0 {
      var s := Padded(n, width);
      assert n / 10 < Pow10(width - 1);
      PaddedValue(n / 10, width - 1);
      assert s[..|s| - 1] == Padded(n / 10, width - 1);
    }
  }

  /** The `dd/mm/yyyy` text of a day. */
  function FormatDate(date: Date): string
    requires ValidDate(date)
  {
    Padded(date.day, 2) + "/" + Padded(date.month, 2) + "/" + Padded(date.year, 4)
  }

  /** Every day is read back from its own `dd/mm/yyyy` text. */
  lemma ParseFormatDate(date: Date)
    requires ValidDate(date)
    ensures ParseDate(FormatDate(date)) == Some(date)
  {
    PaddedValue(date.day, 2);
    PaddedValue(date.month, 2);
    PaddedValue(date.year, 4);
    ParseDatePieces(Padded(date.day, 2), Padded(date.month, 2), Padded(date.year, 4));
  }

  /** `a` is the same day as `b` or a later one, comparing year, then month, then day. */
  predicate NotBefore(a: Date, b: Date) {
    a.year > b.year || (a.year == b.year && (a.month > b.month || (a.month == b.month && a.day >= b.day)))
  }

  lemma NotBeforeTotal(a: Date, b: Date)
    ensures NotBefore(a, b) || NotBefore(b, a)
  {
  }

  lemma NotBeforeTransitive(a: Date, b: Date, c: Date)
    requires NotBefore(a, b) && NotBefore(b, c)
    ensures NotBefore(a, c)
  {
  }

  lemma NotBeforeAntisymmetric(a: Date, b: Date)
    requires NotBefore(a, b) && NotBefore(b, a)
    ensures a == b
  {
  }

  /** Python's `\w` restricted to ASCII: letters, digits and underscore. */
  predicate IsWordChar(c: char) {
    'a' <= c <= 'z' || 'A' <= c <= 'Z' || IsDigit(c) || c == '_'
  }

  /** How many digits, at most `max`, stand in `text` from index `i` on. */
  function DigitRun(text: string, i: nat, max: nat): (n: nat)
    requires i <= |text|
    ensures n <= max && i + n <= |text|
    ensures forall k :: i <= k < i + n ==> IsDigit(text[k])
    ensures n < max && i + n < |text| ==> !IsDigit(text[i + n])
    decreases max
  {
    if max == 0 || i == |text| || !IsDigit(text[i]) then 0 else 1 + DigitRun(text, i + 1, max - 1)
  }

  /** `t` is `a` digits, '/', `b` digits, '/', four digits. */
  predicate DateShape(t: string, a: nat, b: nat) {
    |t| == a + b + 6 && t[a] == '/' && t[a + b + 1] == '/' &&
    AllDigits(t[..a]) && AllDigits(t[a + 1..a + b + 1]) && AllDigits(t[a + b + 2..])
  }

  lemma DateShapeAt(text: string, i: nat, a: nat, b: nat)
    requires i + a + b + 6 <= |text|
    requires forall k :: i <= k < i + a ==> IsDigit(text[k])
    requires text[i + a] == '/'
    requires forall k :: i + a + 1 <= k < i + a + b + 1 ==> IsDigit(text[k])
    requires text[i + a + b + 1] == '/'
    requires forall k :: i + a + b + 2 <= k < i + a + b + 6 ==> IsDigit(text[k])
    ensures DateShape(text[i..i + a + b + 6], a, b)
  {
    var t := text[i..i + a + b + 6];
    assert t[..a] == text[i..i + a];
    var mid := t[a + 1..a + b + 1];
    forall k | 0 <= k < |mid|
      ensures IsDigit(mid[k])
    {
      assert mid[k] == text[i + a + 1 + k];
    }
    assert t[a + b + 2..] == text[i + a + b + 2..i + a + b + 6];
  }

  /** What the pattern `\d{1,2}/\d{1,2}/\d{4}` matches. */
  predicate IsDateToken(t: string) {
    DateShape(t, 1, 1) || DateShape(t, 1, 2) || DateShape(t, 2, 1) || DateShape(t, 2, 2)
  }

  /**
   * The length of the match of `\b\d{1,2}/\d{1,2}/\d{4}\b` that starts at
   * index `i` of `text`, or 0 when none starts there.
   */
  function DateTokenAt(text: string, i: nat): (n: nat)
    requires i <= |text|
    ensures i + n <= |text|
  {
    if 0 < i && IsWordChar(text[i - 1]) then 0
    else
      var a := DigitRun(text, i, 2);
      if a == 0 || i + a == |text| || text[i + a] != '/' then 0
      else
        var j := i + a + 1;
        var b := DigitRun(text, j, 2);
        if b == 0 || j + b == |text| || text[j + b] != '/' then 0
        else
          var k := j + b + 1;
          if DigitRun(text, k, 4) != 4 || (k + 4 < |text| && IsWordChar(text[k + 4])) then 0
          else k + 4 - i
  }

  /** What the scanner measures is a date token standing between word boundaries. */
  lemma DateTokenAtSound(text: string, i: nat)
    requires i <= |text|
    ensures var n := DateTokenAt(text, i);
            n > 0 ==>
              IsDateToken(text[i..i + n]) &&
              (i == 0 || !IsWordChar(text[i - 1])) && (i + n == |text| || !IsWordChar(text[i + n]))
  {
    if DateTokenAt(text, i) > 0 {
      var a := DigitRun(text, i, 2);
      var b := DigitRun(text, i + a + 1, 2);
      DateShapeAt(text, i, a, b);
    }
  }

  /** The leftmost index at or after `from` where a date token starts. */
  function SearchDateFrom(text: string, from: nat): (r: Option<nat>)
    requires from <= |text|
    ensures r.Some? ==> from <= r.value <= |text| && DateTokenAt(text, r.value) > 0
    ensures forall j :: from <= j <= |text| && (r.None? || j < r.value) ==> DateTokenAt(text, j) == 0
    decreases |text| - from
  {
    if DateTokenAt(text, from) > 0 then Some(from)
    else if from == |text| then None
    else SearchDateFrom(text, from + 1)
  }

  /** `re.search(r'\b\d{1,2}\/\d{1,2}\/\d{4}\b', text).group()`, or None when nothing matches. */
  function SearchDate(text: string): (r: Option<string>)
    ensures r.Some? ==> IsDateToken(r.value)
    ensures r.None? <==> forall j :: 0 <= j <= |text| ==> DateTokenAt(text, j) == 0
  {
    match SearchDateFrom(text, 0)
    case None => None
    case Some(i) =>
      DateTokenAtSound(text, i);
      Some(text[i..i + DateTokenAt(text, i)])
  }

  /** A run of exactly `n` digits, ended by a non-digit or by reaching `max`, is what DigitRun measures. */
  lemma DigitRunIs(text: string, i: nat, max: nat, n: nat)
    requires i + n <= |text| && n <= max
    requires forall k :: i <= k < i + n ==> IsDigit(text[k])
    requires n < max ==> i + n < |text| && !IsDigit(text[i + n])
    ensures DigitRun(text, i, max) == n
  {
  }

  /** The characters of an all-digit slice of a piece `t` of `text` are digits of `text`. */
  lemma DigitsAt(text: string, i: nat, t: string, s: nat, n: nat)
    requires i + |t| <= |text| && t == text[i..i + |t|]
    requires s + n <= |t| && AllDigits(t[s..s + n])
    ensures forall k :: i + s <= k < i + s + n ==> IsDigit(text[k])
  {
    forall k | i + s <= k < i + s + n
      ensures IsDigit(text[k])
    {
      assert t[s..s + n][k - i - s] == t[k - i];
    }
  }

  /** The digit runs and slashes of a token of shape (a, b) at index `i`, as the scanner reads them. */
  lemma ShapeRuns(text: string, i: nat, a: nat, b: nat)
    requires 1 <= a <= 2 && 1 <= b <= 2 && i + a + b + 6 <= |text|
    requires DateShape(text[i..i + a + b + 6], a, b)
    ensures DigitRun(text, i, 2) == a && text[i + a] == '/'
    ensures DigitRun(text, i + a + 1, 2) == b && text[i + a + b + 1] == '/'
    ensures DigitRun(text, i + a + b + 2, 4) == 4
  {
    var t := text[i..i + a + b + 6];
    var j, y := i + a + 1, i + a + b + 2;
    assert t[..a] == t[0..a];
    assert t[a + b + 2..] == t[a + b + 2..a + b + 6];
    DigitsAt(text, i, t, 0, a);
    DigitsAt(text, i, t, a + 1, b);
    DigitsAt(text, i, t, a + b + 2, 4);
    DigitRunIs(text, i, 2, a);
    DigitRunIs(text, j, 2, b);
    DigitRunIs(text, y, 4, 4);
  }

  /** Runs and slashes of a token of shape (a, b), between word boundaries, make the scanner measure it. */
  lemma DateTokenAtOfRuns(text: string, i: nat, a: nat, b: nat)
    requires 1 <= a <= 2 && 1 <= b <= 2 && i + a + b + 6 <= |text|
    requires i == 0 || !IsWordChar(text[i - 1])
    requires DigitRun(text, i, 2) == a && text[i + a] == '/'
    requires DigitRun(text, i + a + 1, 2) == b && text[i + a + b + 1] == '/'
    requires DigitRun(text, i + a + b + 2, 4) == 4
    requires i + a + b + 6 == |text| || !IsWordChar(text[i + a + b + 6])
    ensures DateTokenAt(text, i) == a + b + 6
  {
  }

  /**
   * The scanner misses no match: a date token that stands at index `i` between
   * word boundaries is exactly what DateTokenAt measures there.
   */
  lemma DateTokenAtComplete(text: string, i: nat, m: nat)
    requires i + m <= |text| && IsDateToken(text[i..i + m])
    requires i == 0 || !IsWordChar(text[i - 1])
    requires i + m == |text| || !IsWordChar(text[i + m])
    ensures DateTokenAt(text, i) == m && 8 <= m <= 10
  {
    var t := text[i..i + m];
    var a := if DateShape(t, 1, 1) || DateShape(t, 1, 2) then 1 else 2;
    var b := if DateShape(t, a, 1) then 1 else 2;
    ShapeRuns(text, i, a, b);
    DateTokenAtOfRuns(text, i, a, b);
  }

  /** A found date is the token at the leftmost index where one starts. */
  lemma SearchDateLeftmost(text: string)
    ensures var r := SearchDate(text);
            r.Some? ==>
              exists i :: 0 <= i <= |text| && DateTokenAt(text, i) > 0 &&
                r.value == text[i..i + DateTokenAt(text, i)] &&
                forall j :: 0 <= j < i ==> DateTokenAt(text, j) == 0
  {
    var found := SearchDateFrom(text, 0);
    if found.Some? {
      var i := found.value;
      assert SearchDate(text).value == text[i..i + DateTokenAt(text, i)];
    }
  }

  /** A date token between word boundaries anywhere in the text makes the search succeed. */
  lemma SearchDateFinds(text: string, i: nat, m: nat)
    requires i + m <= |text| && IsDateToken(text[i..i + m])
    requires i == 0 || !IsWordChar(text[i - 1])
    requires i + m == |text| || !IsWordChar(text[i + m])
    ensures SearchDate(text).Some?
  {
    DateTokenAtComplete(text, i, m);
  }

  /** The day a date token names, read piece by piece. */
  function TokenDate(t: string): Date
    requires IsDateToken(t)
  {
    var a := if t[1] == '/' then 1 else 2;
    var b := if t[a + 2] == '/' then 1 else 2;
    Date(DigitsValue(t[a + b + 2..]), DigitsValue(t[a + 1..a + b + 1]), DigitsValue(t[..a]))
  }

  /** `strptime` can refuse a found date token only because the day it names does not exist. */
  lemma ParseDateToken(t: string)
    requires IsDateToken(t)
    ensures ParseDate(t) == if ValidDate(TokenDate(t)) then Some(TokenDate(t)) else None
  {
    var a := if t[1] == '/' then 1 else 2;
    var b := if t[a + 2] == '/' then 1 else 2;
    assert DateShape(t, a, b);
    var d, m, y := t[..a], t[a + 1..a + b + 1], t[a + b + 2..];
    assert t == d + "/" + m + "/" + y;
    ParseDatePieces(d, m, y);
  }
}
