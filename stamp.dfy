/**
 * The timestamp embedded in every entry name: written with the format
 * "%Y-%m-%d-%H-%M-%S" and read back by searching a name for the first run
 * of the shape \d{4}-\d{2}-\d{2}-\d{2}-\d{2}-\d{2} and parsing it as a
 * calendar date-time.
 */
module Stamp {
  import opened Outcomes

  /** A naive date-time to the second, as Python's `datetime` holds it. */
  datatype DateTime = DateTime(year: int, month: int, day: int, hour: int, minute: int, second: int)

  predicate IsLeapYear(year: int) {
    year % 4 == 0 && (year % 100 != 0 || year % 400 == 0)
  }

  function DaysInMonth(year: int, month: int): int
    requires 1 <= month <= 12
  {
    if month == 2 then (if IsLeapYear(year) then 29 else 28)
    else if month == 4 || month == 6 || month == 9 || month == 11 then 30
    else 31
  }

  /** The fields `datetime` accepts: years 1..9999 of the proleptic Gregorian calendar. */
  predicate Valid(t: DateTime) {
    && 1 <= t.year <= 9999
    && 1 <= t.month <= 12
    && 1 <= t.day <= DaysInMonth(t.year, t.month)
    && 0 <= t.hour <= 23
    && 0 <= t.minute <= 59
    && 0 <= t.second <= 59
  }

  /** Strict chronological order; datetimes compare field by field. */
  predicate Before(a: DateTime, b: DateTime) {
    if a.year != b.year then a.year < b.year
    else if a.month != b.month then a.month < b.month
    else if a.day != b.day then a.day < b.day
    else if a.hour != b.hour then a.hour < b.hour
    else if a.minute != b.minute then a.minute < b.minute
    else a.second < b.second
  }

  // ---------------------------------------------------------------------
  // Decimal digits

  predicate IsDigit(c: char) {
    '0' <= c <= '9'
  }

  predicate AllDigits(s: string) {
    forall i :: 0 <= i < |s| ==> IsDigit(s[i])
  }

  predicate NoDigits(s: string) {
    forall i :: 0 <= i < |s| ==> !IsDigit(s[i])
  }

  function Pow10(n: nat): nat {
    if n == 0 then 1 else 10 * Pow10(n - 1)
  }

  function DigitChar(d: nat): char
    requires d < 10
  {
    ('0' as int + d) as char
  }

  function DigitValue(c: char): nat
    requires IsDigit(c)
  {
    c as int - '0' as int
  }

  /** `n` written with exactly `width` decimal digits, zero-padded on the left. */
  function Padded(n: nat, width: nat): (s: string)
    ensures |s| == width
  {
    if width == 0 then [] else Padded(n / 10, width - 1) + [DigitChar(n % 10)]
  }

  /** The number a run of decimal digits denotes. */
  function DecimalValue(s: string): nat
    requires AllDigits(s)
  {
    if s == [] then 0 else 10 * DecimalValue(s[..|s| - 1]) + DigitValue(s[|s| - 1])
  }

  /** Padding a number that fits the width and reading it back gives the number. */
  lemma {:induction false} PaddedRoundTrip(n: nat, width: nat)
    requires n < Pow10(width)
    ensures |Padded(n, width)| == width
    ensures AllDigits(Padded(n, width))
    ensures DecimalValue(Padded(n, width)) == n
  {
    if width > 0 {
      PaddedRoundTrip(n / 10, width - 1);
      var s := Padded(n, width);
      assert s[..|s| - 1] == Padded(n / 10, width - 1);
    }
  }

  /** Reading a run of digits and padding it back to its length gives the run. */
  lemma {:induction false} DecimalRoundTrip(s: string)
    requires AllDigits(s)
    ensures DecimalValue(s) < Pow10(|s|)
    ensures Padded(DecimalValue(s), |s|) == s
  {
    if s != [] {
      var init, last := s[..|s| - 1], s[|s| - 1];
      DecimalRoundTrip(init);
      var v := DecimalValue(s);
      assert v / 10 == DecimalValue(init) && v % 10 == DigitValue(last);
      assert s == init + [last];
    }
  }

  lemma TwoDigitValue(s: string)
    requires |s| == 2 && AllDigits(s)
    ensures DecimalValue(s) == 10 * DigitValue(s[0]) + DigitValue(s[1])
  {
    assert s[..1][..0] == [] && s[..1][0] == s[0];
    assert DecimalValue(s[..1]) == DigitValue(s[0]);
  }

  lemma FourDigitValue(s: string)
    requires |s| == 4 && AllDigits(s)
    ensures DecimalValue(s) == 1000 * DigitValue(s[0]) + 100 * DigitValue(s[1]) + 10 * DigitValue(s[2]) + DigitValue(s[3])
  {
    TwoDigitValue(s[..2]);
    assert s[..3][..2] == s[..2];
  }

  // ---------------------------------------------------------------------
  // The pattern \d{4}-\d{2}-\d{2}-\d{2}-\d{2}-\d{2}

  const StampLength: nat := 19

  /** The positions of the five hyphens in a timestamp. */
  predicate IsHyphenPosition(k: int) {
    k == 4 || k == 7 || k == 10 || k == 13 || k == 16
  }

  predicate IsStampShape(w: string) {
    && |w| == StampLength
    && forall k :: 0 <= k < |w| ==> if IsHyphenPosition(k) then w[k] == '-' else IsDigit(w[k])
  }

  /** The pattern matches the 19 characters of `s` that start at `i`. */
  predicate MatchesAt(s: string, i: nat) {
    i + StampLength <= |s| && IsStampShape(s[i..i + StampLength])
  }

  predicate IsLeftmostMatch(s: string, i: nat) {
    MatchesAt(s, i) && forall j: nat :: j < i ==> !MatchesAt(s, j)
  }

  /** The first position at or after `from` where the pattern matches (a regex search). */
  function Search(s: string, from: nat): (r: Option<nat>)
    decreases |s| - from
    ensures r.Some? ==> from <= r.value && MatchesAt(s, r.value)
    ensures r.Some? ==> forall j: nat :: from <= j < r.value ==> !MatchesAt(s, j)
    ensures r.None? ==> forall j: nat :: from <= j ==> !MatchesAt(s, j)
  {
    if from + StampLength > |s| then None
    else if MatchesAt(s, from) then Some(from)
    else Search(s, from + 1)
  }

  // ---------------------------------------------------------------------
  // Formatting and parsing

  /** The six numbers of a timestamp-shaped window, before any range check. */
  function DecodeFields(w: string): (t: DateTime)
    requires IsStampShape(w)
    ensures 0 <= t.year < 10000 && 0 <= t.month < 100 && 0 <= t.day < 100
    ensures 0 <= t.hour < 100 && 0 <= t.minute < 100 && 0 <= t.second < 100
  {
    assert AllDigits(w[0..4]) && AllDigits(w[5..7]) && AllDigits(w[8..10]);
    assert AllDigits(w[11..13]) && AllDigits(w[14..16]) && AllDigits(w[17..19]);
    DecimalRoundTrip(w[0..4]);
    DecimalRoundTrip(w[5..7]);
    DecimalRoundTrip(w[8..10]);
    DecimalRoundTrip(w[11..13]);
    DecimalRoundTrip(w[14..16]);
    DecimalRoundTrip(w[17..19]);
    DateTime(DecimalValue(w[0..4]), DecimalValue(w[5..7]), DecimalValue(w[8..10]),
             DecimalValue(w[11..13]), DecimalValue(w[14..16]), DecimalValue(w[17..19]))
  }

  /** strftime with "%Y-%m-%d-%H-%M-%S". */
  function Format(t: DateTime): (w: string)
    requires Valid(t)
    ensures |w| == StampLength
    ensures forall k :: 0 <= k < |w| && IsHyphenPosition(k) ==> w[k] == '-'
  {
    Padded(t.year, 4) + "-" + Padded(t.month, 2) + "-" + Padded(t.day, 2) + "-"
      + Padded(t.hour, 2) + "-" + Padded(t.minute, 2) + "-" + Padded(t.second, 2)
  }

  /** Where the six fields and the five hyphens sit in a joined timestamp. */
  lemma JoinedSlices(y: string, mo: string, d: string, h: string, mi: string, s: string)
    requires |y| == 4 && |mo| == 2 && |d| == 2 && |h| == 2 && |mi| == 2 && |s| == 2
    ensures var w := y + "-" + mo + "-" + d + "-" + h + "-" + mi + "-" + s;
      && |w| == StampLength
      && w[0..4] == y && w[5..7] == mo && w[8..10] == d
      && w[11..13] == h && w[14..16] == mi && w[17..19] == s
      && w[4] == '-' && w[7] == '-' && w[10] == '-' && w[13] == '-' && w[16] == '-'
  {
  }

  /** A formatted date-time has the searched-for shape and decodes to itself. */
  lemma FormatDecodes(t: DateTime)
    requires Valid(t)
    ensures IsStampShape(Format(t))
    ensures DecodeFields(Format(t)) == t
  {
    var y, mo, d := Padded(t.year, 4), Padded(t.month, 2), Padded(t.day, 2);
    var h, mi, s := Padded(t.hour, 2), Padded(t.minute, 2), Padded(t.second, 2);
    PaddedRoundTrip(t.year, 4);
    PaddedRoundTrip(t.month, 2);
    PaddedRoundTrip(t.day, 2);
    PaddedRoundTrip(t.hour, 2);
    PaddedRoundTrip(t.minute, 2);
    PaddedRoundTrip(t.second, 2);
    JoinedSlices(y, mo, d, h, mi, s);
    var w := Format(t);
    assert w == y + "-" + mo + "-" + d + "-" + h + "-" + mi + "-" + s;
    forall k | 0 <= k < |w|
      ensures if IsHyphenPosition(k) then w[k] == '-' else IsDigit(w[k])
    {
      if k < 4 { assert w[k] == w[0..4][k]; }
      else if 4 < k < 7 { assert w[k] == w[5..7][k - 5]; }
      else if 7 < k < 10 { assert w[k] == w[8..10][k - 8]; }
      else if 10 < k < 13 { assert w[k] == w[11..13][k - 11]; }
      else if 13 < k < 16 { assert w[k] == w[14..16][k - 14]; }
      else if 16 < k { assert w[k] == w[17..19][k - 17]; }
    }
  }

  /** A timestamp-shaped window whose fields are in range is the formatting of its fields. */
  lemma DecodeFormats(w: string)
    requires IsStampShape(w) && Valid(DecodeFields(w))
    ensures Format(DecodeFields(w)) == w
  {
    var y, mo, d := w[0..4], w[5..7], w[8..10];
    var h, mi, s := w[11..13], w[14..16], w[17..19];
    assert AllDigits(y) && AllDigits(mo) && AllDigits(d);
    assert AllDigits(h) && AllDigits(mi) && AllDigits(s);
    DecimalRoundTrip(y);
    DecimalRoundTrip(mo);
    DecimalRoundTrip(d);
    DecimalRoundTrip(h);
    DecimalRoundTrip(mi);
    DecimalRoundTrip(s);
    JoinedSlices(y, mo, d, h, mi, s);
    var v := y + "-" + mo + "-" + d + "-" + h + "-" + mi + "-" + s;
    assert Format(DecodeFields(w)) == v;
    forall k | 0 <= k < |w| ensures v[k] == w[k] {
      if k < 4 { assert v[k] == v[0..4][k]; }
      else if 4 < k < 7 { assert v[k] == v[5..7][k - 5]; }
      else if 7 < k < 10 { assert v[k] == v[8..10][k - 8]; }
      else if 10 < k < 13 { assert v[k] == v[11..13][k - 11]; }
      else if 13 < k < 16 { assert v[k] == v[14..16][k - 14]; }
      else if 16 < k { assert v[k] == v[17..19][k - 17]; }
    }
  }

  /**
   * `_sylte_time`: the date-time written by the leftmost timestamp-shaped run
   * of `name`. No such run is an AttributeError; a run whose fields are not a
   * calendar date-time (month 13, hour 24, 30 February, second 60, year 0)
   * is a ValueError. `ParseTimeReadsLeftmostMatch` states which run is read.
   */
  function ParseTime(name: string): (r: Result<DateTime, Failure>)
    ensures r.Err? ==> r.error == AttributeError || r.error == ValueError
    ensures r.Ok? ==> Valid(r.value)
  {
    match Search(name, 0)
    case None => Err(AttributeError)
    case Some(i) =>
      var t := DecodeFields(name[i..i + StampLength]);
      if Valid(t) then Ok(t) else Err(ValueError)
  }

  /**
   * What `ParseTime` reads: no match at all is an AttributeError; otherwise
   * the leftmost match decides, a ValueError when its fields are out of range
   * and else the time it spells, which formats back to exactly that run.
   */
  lemma ParseTimeReadsLeftmostMatch(name: string)
    ensures ParseTime(name) == Err(AttributeError) <==> forall i: nat :: !MatchesAt(name, i)
    ensures ParseTime(name) == Err(ValueError) <==>
      exists i: nat :: IsLeftmostMatch(name, i) && !Valid(DecodeFields(name[i..i + StampLength]))
    ensures ParseTime(name).Ok? ==>
      exists i: nat :: IsLeftmostMatch(name, i) && name[i..i + StampLength] == Format(ParseTime(name).value)
  {
    match Search(name, 0)
    case None =>
    case Some(i) =>
      assert IsLeftmostMatch(name, i);
      var w := name[i..i + StampLength];
      if Valid(DecodeFields(w)) {
        DecodeFormats(w);
      }
  }

  /** A name's time, for names that parse. */
  function TimeOf(name: string): DateTime
    requires ParseTime(name).Ok?
  {
    ParseTime(name).value
  }
}
