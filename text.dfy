/**
 * The string operations the pipeline leans on, with Python's meaning:
 * `str.strip()`, `str.split(sep)`, `str.count`, and `float()` restricted to
 * plain decimal numerals.
 */
module Text {
  import opened Base

  /** The characters Python's `str.isspace()` accepts; `strip()` and `float()` discard them at the ends. */
  predicate IsSpace(c: char) {
    var n := c as int;
    n == 0x20 || 0x09 <= n <= 0x0D || 0x1C <= n <= 0x1F || n == 0x85 || n == 0xA0 || n == 0x1680 ||
    0x2000 <= n <= 0x200A || n == 0x2028 || n == 0x2029 || n == 0x202F || n == 0x205F || n == 0x3000
  }

  /** How many whitespace characters open `s`. */
  function LeadingSpaces(s: string): (n: nat)
    ensures n <= |s|
    ensures forall k :: 0 <= k < n ==> IsSpace(s[k])
    ensures n < |s| ==> !IsSpace(s[n])
  {
    if s == [] || !IsSpace(s[0]) then 0 else 1 + LeadingSpaces(s[1..])
  }

  /** How many whitespace characters close `s`. */
  function TrailingSpaces(s: string): (n: nat)
    ensures n <= |s|
    ensures forall k :: |s| - n <= k < |s| ==> IsSpace(s[k])
    ensures n < |s| ==> !IsSpace(s[|s| - 1 - n])
  {
    if s == [] || !IsSpace(s[|s| - 1]) then 0 else 1 + TrailingSpaces(s[..|s| - 1])
  }

  /** Python's `s.strip()`: the piece of `s` left once whitespace is cut from both ends. */
  function Strip(s: string): (r: string)
    ensures r == [] || (!IsSpace(r[0]) && !IsSpace(r[|r| - 1]))
    ensures LeadingSpaces(s) + |r| <= |s| && s[LeadingSpaces(s)..LeadingSpaces(s) + |r|] == r
    ensures forall k :: LeadingSpaces(s) + |r| <= k < |s| ==> IsSpace(s[k])
  {
    var t := s[LeadingSpaces(s)..];
    t[..|t| - TrailingSpaces(t)]
  }

  /** A string that neither starts nor ends with whitespace is its own strip. */
  lemma StripUnchanged(s: string)
    requires s == [] || (!IsSpace(s[0]) && !IsSpace(s[|s| - 1]))
    ensures Strip(s) == s
  {
    assert LeadingSpaces(s) == 0;
    assert s[0..] == s;
    assert TrailingSpaces(s) == 0;
  }

  /** Stripping twice is stripping once. */
  lemma StripIdempotent(s: string)
    ensures Strip(Strip(s)) == Strip(s)
  {
    StripUnchanged(Strip(s));
  }

  /** Python's `s.count(c)` for a single character. */
  function Count(s: string, c: char): nat {
    if s == [] then 0 else (if s[0] == c then 1 else 0) + Count(s[1..], c)
  }

  lemma {:induction false} CountConcat(a: string, b: string, c: char)
    ensures Count(a + b, c) == Count(a, c) + Count(b, c)
  {
    if a != [] {
      assert (a + b)[1..] == a[1..] + b;
      CountConcat(a[1..], b, c);
    } else {
      assert a + b == b;
    }
  }

  lemma {:induction false} CountAbsent(a: string, c: char)
    requires forall k :: 0 <= k < |a| ==> a[k] != c
    ensures Count(a, c) == 0
  {
    if a != [] {
      CountAbsent(a[1..], c);
    }
  }

  /** `sep` occurs in `s` starting at index `i`. */
  predicate OccursAt(s: string, sep: string, i: int) {
    0 <= i && i + |sep| <= |s| && s[i..i + |sep|] == sep
  }

  /** A one-character separator occurs exactly where that character stands. */
  lemma OccursAtChar(s: string, c: char, k: int)
    ensures OccursAt(s, [c], k) <==> 0 <= k < |s| && s[k] == c
  {
    if 0 <= k < |s| {
      assert s[k..k + 1] == [s[k]];
    }
  }

  /** `sep` occurs somewhere in `s`. */
  predicate Contains(s: string, sep: string) {
    exists i :: 0 <= i <= |s| && OccursAt(s, sep, i)
  }

  /** The leftmost occurrence of `sep` in `s` at or after `from`, as Python's `s.find(sep, from)`. */
  function Find(s: string, sep: string, from: nat): (r: Option<nat>)
    requires sep != []
    ensures r.Some? ==> from <= r.value && OccursAt(s, sep, r.value)
    ensures forall j :: from <= j && (r.None? || j < r.value) ==> !OccursAt(s, sep, j)
    decreases |s| - from
  {
    if from + |sep| > |s| then None
    else if OccursAt(s, sep, from) then Some(from)
    else Find(s, sep, from + 1)
  }

  /** Python's `s.split(sep)`: the pieces between the leftmost non-overlapping occurrences of `sep`. */
  function Split(s: string, sep: string): (parts: seq<string>)
    requires sep != []
    ensures parts != []
    decreases |s|
  {
    match Find(s, sep, 0)
    case None => [s]
    case Some(i) => [s[..i]] + Split(s[i + |sep|..], sep)
  }

  /** Python's `sep.join(parts)`. */
  function Join(parts: seq<string>, sep: string): string
    requires parts != []
  {
    if |parts| == 1 then parts[0] else parts[0] + sep + Join(parts[1..], sep)
  }

  /** Splitting loses nothing: joining the pieces back with the separator gives the string again. */
  lemma {:induction false} JoinSplit(s: string, sep: string)
    requires sep != []
    ensures Join(Split(s, sep), sep) == s
    decreases |s|
  {
    match Find(s, sep, 0)
    case None =>
    case Some(i) =>
      var rest := s[i + |sep|..];
      JoinSplit(rest, sep);
      assert Split(s, sep)[1..] == Split(rest, sep);
      assert s == s[..i] + sep + rest;
  }

  /** No piece of a split contains the separator. */
  lemma {:induction false} SplitPartsAvoidSep(s: string, sep: string)
    requires sep != []
    ensures forall k :: 0 <= k < |Split(s, sep)| ==> !Contains(Split(s, sep)[k], sep)
    decreases |s|
  {
    match Find(s, sep, 0)
    case None =>
      assert Split(s, sep) == [s];
    case Some(i) =>
      var rest := s[i + |sep|..];
      SplitPartsAvoidSep(rest, sep);
      forall j | OccursAt(s[..i], sep, j)
        ensures false
      {
        assert s[..i][j..j + |sep|] == s[j..j + |sep|];
        assert OccursAt(s, sep, j);
      }
      assert Split(s, sep) == [s[..i]] + Split(rest, sep);
  }

  /**
   * The first piece of a split is a prefix of the string; with exactly two
   * pieces the string is the two joined by one separator; a string without
   * the separator is its own only piece.
   */
  lemma SplitFirstPiece(s: string, sep: string)
    requires sep != []
    ensures var parts := Split(s, sep);
            |parts[0]| <= |s| && s[..|parts[0]|] == parts[0] &&
            (|parts| == 2 ==> s == parts[0] + sep + parts[1]) &&
            (!Contains(s, sep) ==> parts == [s])
  {
    match Find(s, sep, 0)
    case None =>
    case Some(i) =>
      var rest := s[i + |sep|..];
      assert Contains(s, sep) by { assert OccursAt(s, sep, i); }
      if Find(rest, sep, 0).Some? {
        assert |Split(rest, sep)| >= 2;
      } else {
        assert s == s[..i] + sep + rest;
      }
  }

  /** The first piece of a split is the text before the leftmost separator, or all of it when there is none. */
  lemma SplitHead(s: string, sep: string)
    requires sep != []
    ensures Split(s, sep)[0] == if Contains(s, sep) then s[..Find(s, sep, 0).value] else s
  {
    match Find(s, sep, 0)
    case None =>
    case Some(i) =>
      assert OccursAt(s, sep, i);
  }

  /** Splitting on one character gives one piece more than the character occurs. */
  lemma {:induction false} SplitCount(s: string, c: char)
    ensures |Split(s, [c])| == Count(s, c) + 1
    decreases |s|
  {
    match Find(s, [c], 0)
    case None =>
      forall k | 0 <= k < |s|
        ensures s[k] != c
      {
        assert s[k] == c ==> OccursAt(s, [c], k);
      }
      CountAbsent(s, c);
    case Some(i) =>
      var rest := s[i + 1..];
      SplitCount(rest, c);
      forall k | 0 <= k < i
        ensures s[..i][k] != c
      {
        assert s[k] == c ==> OccursAt(s, [c], k);
      }
      CountAbsent(s[..i], c);
      assert Split(s, [c]) == [s[..i]] + Split(rest, [c]);
      assert s[i..i + 1] == [c];
      assert s == s[..i] + ([c] + rest);
      CountConcat(s[..i], [c] + rest, c);
      assert ([c] + rest)[1..] == rest;
  }

  /** Splitting on a character that the first piece does not hold cuts exactly there. */
  lemma SplitAtFirst(a: string, c: char, b: string)
    requires forall k :: 0 <= k < |a| ==> a[k] != c
    ensures Split(a + [c] + b, [c]) == [a] + Split(b, [c])
  {
    var s := a + [c] + b;
    assert OccursAt(s, [c], |a|) by { assert s[|a|..|a| + 1] == [c]; }
    forall j | 0 <= j < |a|
      ensures !OccursAt(s, [c], j)
    {
      assert s[j] == a[j];
    }
    assert Find(s, [c], 0) == Some(|a|);
    assert s[..|a|] == a && s[|a| + 1..] == b;
  }

  /** Splitting a string on a character it does not hold gives the string back alone. */
  lemma SplitWithout(s: string, c: char)
    requires forall k :: 0 <= k < |s| ==> s[k] != c
    ensures Split(s, [c]) == [s]
  {
    forall j | 0 <= j
      ensures !OccursAt(s, [c], j)
    {
      OccursAtChar(s, c, j);
    }
    assert Find(s, [c], 0) == None;
  }

  predicate IsDigit(c: char) {
    '0' <= c <= '9'
  }

  predicate AllDigits(s: string) {
    forall k :: 0 <= k < |s| ==> IsDigit(s[k])
  }

  /** The value of one decimal digit character. */
  function DigitValue(c: char): int {
    c as int - '0' as int
  }

  /** The value of a string of decimal digits, most significant digit first. */
  function DigitsValue(s: string): nat
    requires AllDigits(s)
  {
    if s == [] then 0 else 10 * DigitsValue(s[..|s| - 1]) + DigitValue(s[|s| - 1])
  }

  function Pow10(n: nat): (p: nat)
    ensures p >= 1
  {
    if n == 0 then 1 else 10 * Pow10(n - 1)
  }

  /** An unsigned decimal numeral (digits, at most one '.', at least one digit) and its exact value. */
  function Unsigned(t: string): Option<real> {
    match Find(t, ".", 0)
    case None =>
      if t != [] && AllDigits(t) then Some(DigitsValue(t) as real) else None
    case Some(i) =>
      var whole, frac := t[..i], t[i + 1..];
      if (whole != [] || frac != []) && AllDigits(whole) && AllDigits(frac)
      then Some(PointValue(whole, frac))
      else None
  }

  /** The value of the numeral `whole.frac`. */
  function PointValue(whole: string, frac: string): real
    requires AllDigits(whole) && AllDigits(frac)
  {
    DigitsValue(whole) as real + DigitsValue(frac) as real / Pow10(|frac|) as real
  }

  /** Python's `float(s)` on decimal numerals: surrounding whitespace is ignored, one sign is allowed. */
  function Float(s: string): Option<real> {
    var t := Strip(s);
    if t != [] && (t[0] == '+' || t[0] == '-') then
      match Unsigned(t[1..])
      case None => None
      case Some(x) => Some(if t[0] == '-' then -x else x)
    else Unsigned(t)
  }

  /** The strings `float()` accepts here, described character by character. */
  predicate IsUnsignedNumeral(u: string) {
    (forall k :: 0 <= k < |u| ==> IsDigit(u[k]) || u[k] == '.') &&
    Count(u, '.') <= 1 &&
    exists k :: 0 <= k < |u| && IsDigit(u[k])
  }

  predicate IsNumeral(t: string) {
    if t != [] && (t[0] == '+' || t[0] == '-') then IsUnsignedNumeral(t[1..]) else IsUnsignedNumeral(t)
  }

  lemma {:induction false} CountZeroAbsent(a: string, c: char)
    requires Count(a, c) == 0
    ensures forall k :: 0 <= k < |a| ==> a[k] != c
  {
    if a != [] {
      CountZeroAbsent(a[1..], c);
      assert forall k :: 1 <= k < |a| ==> a[k] == a[1..][k - 1];
    }
  }

  /** A numeral candidate without a '.' has no '.' at all. */
  lemma NoDot(u: string)
    requires Find(u, ".", 0) == None
    ensures forall k :: 0 <= k < |u| ==> u[k] != '.'
    ensures Count(u, '.') == 0
  {
    forall k | 0 <= k < |u|
      ensures u[k] != '.'
    {
      OccursAtChar(u, '.', k);
    }
    CountAbsent(u, '.');
  }

  /** The first '.' cuts a numeral candidate into a dot-free whole part and the rest. */
  lemma FirstDot(u: string, i: nat)
    requires Find(u, ".", 0) == Some(i)
    ensures i < |u| && u[i] == '.'
    ensures forall k :: 0 <= k < i ==> u[k] != '.'
    ensures Count(u, '.') == 1 + Count(u[i + 1..], '.')
  {
    assert OccursAt(u, ".", i);
    OccursAtChar(u, '.', i);
    forall k | 0 <= k < i
      ensures u[k] != '.'
    {
      assert !OccursAt(u, ".", k);
      OccursAtChar(u, '.', k);
    }
    DotCount(u, i);
  }

  /** A string whose first '.' stands at `i` has one '.' more than the part after it. */
  lemma DotCount(u: string, i: nat)
    requires i < |u| && u[i] == '.'
    requires forall k :: 0 <= k < i ==> u[k] != '.'
    ensures Count(u, '.') == 1 + Count(u[i + 1..], '.')
  {
    var whole, frac := u[..i], u[i + 1..];
    CountAbsent(whole, '.');
    assert u == whole + (['.'] + frac);
    CountConcat(whole, ['.'] + frac, '.');
    assert (['.'] + frac)[1..] == frac;
  }

  lemma UnsignedSound(u: string)
    requires Unsigned(u).Some?
    ensures IsUnsignedNumeral(u)
  {
    match Find(u, ".", 0)
    case None =>
      NoDot(u);
      assert IsDigit(u[0]);
    case Some(i) =>
      FirstDot(u, i);
      var whole, frac := u[..i], u[i + 1..];
      CountAbsent(frac, '.');
      forall k | 0 <= k < |u|
        ensures IsDigit(u[k]) || u[k] == '.'
      {
        if k < i {
          assert u[k] == whole[k];
        } else if k > i {
          assert u[k] == frac[k - i - 1];
        }
      }
      if whole != [] {
        assert IsDigit(u[0]);
      } else {
        assert IsDigit(frac[0]) && u[i + 1] == frac[0];
      }
  }

  lemma UnsignedComplete(u: string)
    requires IsUnsignedNumeral(u)
    ensures Unsigned(u).Some?
  {
    var d :| 0 <= d < |u| && IsDigit(u[d]);
    match Find(u, ".", 0)
    case None =>
      NoDot(u);
      assert AllDigits(u);
    case Some(i) =>
      FirstDot(u, i);
      var whole, frac := u[..i], u[i + 1..];
      CountZeroAbsent(frac, '.');
      forall k | 0 <= k < |frac|
        ensures IsDigit(frac[k])
      {
        assert frac[k] == u[i + 1 + k];
      }
      forall k | 0 <= k < |whole|
        ensures IsDigit(whole[k])
      {
        assert whole[k] == u[k];
      }
      assert d != i;
      if d < i {
        assert whole != [];
      } else {
        assert frac != [];
      }
  }

  lemma UnsignedAccepts(u: string)
    ensures Unsigned(u).Some? <==> IsUnsignedNumeral(u)
  {
    if Unsigned(u).Some? {
      UnsignedSound(u);
    }
    if IsUnsignedNumeral(u) {
      UnsignedComplete(u);
    }
  }

  /** The leftmost occurrence is the one with none before it. */
  lemma FindFirst(s: string, sep: string, i: nat)
    requires sep != [] && OccursAt(s, sep, i)
    requires forall j :: 0 <= j < i ==> !OccursAt(s, sep, j)
    ensures Find(s, sep, 0) == Some(i)
  {
  }

  lemma UnsignedOfPoint(whole: string, frac: string)
    requires (whole != [] || frac != []) && AllDigits(whole) && AllDigits(frac)
    ensures Unsigned(whole + "." + frac) == Some(PointValue(whole, frac))
  {
    var s := whole + "." + frac;
    OccursAtChar(s, '.', |whole|);
    forall j | 0 <= j < |whole|
      ensures !OccursAt(s, ".", j)
    {
      OccursAtChar(s, '.', j);
    }
    FindFirst(s, ".", |whole|);
    assert s[..|whole|] == whole;
    assert s[|whole| + 1..] == frac;
  }

  /** `float()` reads `whole.frac` as whole plus frac tenths, hundredths, ... */
  lemma FloatOfPoint(whole: string, frac: string)
    requires (whole != [] || frac != []) && AllDigits(whole) && AllDigits(frac)
    ensures Float(whole + "." + frac) == Some(PointValue(whole, frac))
  {
    var s := whole + "." + frac;
    assert !IsSpace(s[0]) && s[0] != '+' && s[0] != '-' by {
      if whole == [] {
        assert s[0] == '.';
      } else {
        assert s[0] == whole[0];
      }
    }
    assert !IsSpace(s[|s| - 1]) by {
      if frac == [] {
        assert s[|s| - 1] == '.';
      } else {
        assert s[|s| - 1] == frac[|frac| - 1];
      }
    }
    StripUnchanged(s);
    UnsignedOfPoint(whole, frac);
  }

  /** A sign in front of unpadded text: `float()` reads the rest unsigned and negates it after a '-'. */
  lemma FloatOfSigned(sign: char, u: string)
    requires sign == '+' || sign == '-'
    requires u != [] && !IsSpace(u[|u| - 1])
    ensures Float([sign] + u) == match Unsigned(u)
                                 case None => None
                                 case Some(x) => Some(if sign == '-' then -x else x)
  {
    var s := [sign] + u;
    assert s[|s| - 1] == u[|u| - 1];
    StripUnchanged(s);
    assert s[1..] == u;
  }

  /** `float()` reads a signed `whole.frac` as that value, negated after a '-'. */
  lemma FloatOfSignedPoint(sign: char, whole: string, frac: string)
    requires sign == '+' || sign == '-'
    requires (whole != [] || frac != []) && AllDigits(whole) && AllDigits(frac)
    ensures Float([sign] + whole + "." + frac) ==
            Some(if sign == '-' then -PointValue(whole, frac) else PointValue(whole, frac))
  {
    var u := whole + "." + frac;
    assert [sign] + whole + "." + frac == [sign] + u;
    assert !IsSpace(u[|u| - 1]) by {
      if frac == [] {
        assert u[|u| - 1] == '.';
      } else {
        assert u[|u| - 1] == frac[|frac| - 1];
      }
    }
    UnsignedOfPoint(whole, frac);
    FloatOfSigned(sign, u);
  }

  /** `float()` succeeds exactly on a stripped numeral: optional sign, digits, at most one dot. */
  lemma FloatAccepts(s: string)
    ensures Float(s).Some? <==> IsNumeral(Strip(s))
  {
    var t := Strip(s);
    if t != [] && (t[0] == '+' || t[0] == '-') {
      UnsignedAccepts(t[1..]);
    } else {
      UnsignedAccepts(t);
    }
  }

  /** `float()` cannot read a string that is empty once stripped. */
  lemma FloatRejectsBlank(s: string)
    requires Strip(s) == []
    ensures Float(s) == None
  {
    FloatAccepts(s);
  }

  /** `float()` ignores the whitespace `strip()` would remove. */
  lemma FloatOfStrip(s: string)
    ensures Float(Strip(s)) == Float(s)
  {
    StripIdempotent(s);
  }

  function DigitChar(d: nat): (c: char)
    requires d < 10
    ensures IsDigit(c) && DigitValue(c) == d
  {
    ('0' as int + d) as char
  }

  /** The decimal numeral of `n`, without leading zeros. */
  function DecimalString(n: nat): (s: string)
    ensures s != [] && AllDigits(s)
  {
    if n < 10 then [DigitChar(n)] else DecimalString(n / 10) + [DigitChar(n % 10)]
  }

  lemma {:induction false} DecimalRoundTrip(n: nat)
    ensures DigitsValue(DecimalString(n)) == n
  {
    var s := DecimalString(n);
    if n >= 10 {
      DecimalRoundTrip(n / 10);
      assert s[..|s| - 1] == DecimalString(n / 10);
    } else {
      assert s[..0] == [];
    }
  }

  /** `float()` reads a run of digits, leading zeros included, as the value of those digits. */
  lemma FloatOfDigits(w: string)
    requires w != [] && AllDigits(w)
    ensures Float(w) == Some(DigitsValue(w) as real)
  {
    StripUnchanged(w);
    forall j | 0 <= j
      ensures !OccursAt(w, ".", j)
    {
      if j + 1 <= |w| {
        assert w[j..j + 1][0] == w[j];
      }
    }
    assert Find(w, ".", 0) == None;
  }

  /** `float()` reads back the numeral of any natural number as that number. */
  lemma FloatOfDecimalString(n: nat)
    ensures Float(DecimalString(n)) == Some(n as real)
  {
    FloatOfDigits(DecimalString(n));
    DecimalRoundTrip(n);
  }
}
