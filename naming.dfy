/**
 * Entry names: "{stem}-{function name}-{timestamp}", where the stem is the
 * calling file's name without its directory and without its final extension.
 */
module Naming {
  import opened Outcomes
  import opened Stamp

  /** os.path.basename: what follows the last '/'. */
  function BaseName(path: string): (b: string)
    ensures '/' !in b
    ensures |b| <= |path| && b == path[|path| - |b|..]
    ensures |b| < |path| ==> path[|path| - |b| - 1] == '/'
  {
    if path == [] then []
    else if path[|path| - 1] == '/' then []
    else BaseName(path[..|path| - 1]) + [path[|path| - 1]]
  }

  /** str.rfind('.'): the index of the last dot. */
  function LastDot(s: string): (r: Option<nat>)
    ensures r.Some? ==> r.value < |s| && s[r.value] == '.' && '.' !in s[r.value + 1..]
    ensures r.None? ==> '.' !in s
  {
    if s == [] then None
    else if s[|s| - 1] == '.' then Some(|s| - 1)
    else
      var r := LastDot(s[..|s| - 1]);
      assert s == s[..|s| - 1] + [s[|s| - 1]];
      r
  }

  predicate OnlyDotsBefore(s: string, d: nat)
    requires d <= |s|
  {
    forall k :: 0 <= k < d ==> s[k] == '.'
  }

  /**
   * os.path.splitext(name)[0] for a name without '/': the name up to its last
   * dot, unless nothing but dots comes before that dot (".bashrc" keeps its dot).
   */
  function DropExtension(name: string): (root: string)
    ensures |root| <= |name| && root == name[..|root|]
    ensures root != name ==> name[|root|] == '.' && '.' !in name[|root| + 1..] && !OnlyDotsBefore(name, |root|)
    ensures root == name ==> forall d :: 0 <= d < |name| && name[d] == '.' && '.' !in name[d + 1..] ==> OnlyDotsBefore(name, d)
  {
    match LastDot(name)
    case None => name
    case Some(d) =>
      if OnlyDotsBefore(name, d) then
        name
      else name[..d]
  }

  /** The first part of an entry name: the calling file's stem. */
  function CallerStem(path: string): (stem: string)
    ensures '/' !in stem
    ensures |stem| <= |BaseName(path)| && stem == BaseName(path)[..|stem|]
  {
    DropExtension(BaseName(path))
  }

  /** The name `_sylt` stores a call under: stem, function name and timestamp, joined by hyphens. */
  function EntryName(stem: string, funcName: string, t: DateTime): (name: string)
    requires Valid(t)
    ensures |name| == |stem| + 1 + |funcName| + 1 + StampLength
    ensures name[..|stem|] == stem && name[|stem|] == '-'
    ensures name[|stem| + 1..|stem| + 1 + |funcName|] == funcName && name[|stem| + 1 + |funcName|] == '-'
    ensures name[|name| - StampLength..] == Format(t)
  {
    stem + "-" + funcName + "-" + Format(t)
  }

  /**
   * When nothing before a timestamp-shaped run holds a digit, that run is the
   * one parsed: its fields if they are in range, a ValueError if not.
   */
  lemma ParseAfterPlainPrefix(prefix: string, w: string, t: DateTime)
    requires NoDigits(prefix) && IsStampShape(w) && DecodeFields(w) == t
    ensures ParseTime(prefix + w) == if Valid(t) then Ok(t) else Err(ValueError)
  {
    var name := prefix + w;
    assert name[|prefix|..|prefix| + StampLength] == w;
    assert MatchesAt(name, |prefix|);
    forall j: nat | j < |prefix| ensures !MatchesAt(name, j) {
      assert name[j] == prefix[j];
    }
    assert Search(name, 0) == Some(|prefix|);
  }

  /**
   * Parsing the time back out of an entry name gives exactly the time it was
   * built with, as long as neither the stem nor the function name holds a digit
   * (a digit there could start an earlier match of the timestamp pattern).
   */
  lemma EntryNameRoundTrip(stem: string, funcName: string, t: DateTime)
    requires Valid(t) && NoDigits(stem) && NoDigits(funcName)
    ensures ParseTime(EntryName(stem, funcName, t)) == Ok(t)
  {
    var prefix := stem + "-" + funcName + "-";
    assert EntryName(stem, funcName, t) == prefix + Format(t);
    assert NoDigits(prefix) by {
      forall i | 0 <= i < |prefix| ensures !IsDigit(prefix[i]) {
        if i < |stem| { assert prefix[i] == stem[i]; }
        else if |stem| < i < |stem| + 1 + |funcName| { assert prefix[i] == funcName[i - |stem| - 1]; }
      }
    }
    FormatDecodes(t);
    ParseAfterPlainPrefix(prefix, Format(t), t);
  }

  /** The fields of a timestamp spelled out, read digit by digit. */
  lemma DecodeLiteral(w: string)
    requires IsStampShape(w)
    ensures DecodeFields(w) == DateTime(
      1000 * DigitValue(w[0]) + 100 * DigitValue(w[1]) + 10 * DigitValue(w[2]) + DigitValue(w[3]),
      10 * DigitValue(w[5]) + DigitValue(w[6]), 10 * DigitValue(w[8]) + DigitValue(w[9]),
      10 * DigitValue(w[11]) + DigitValue(w[12]), 10 * DigitValue(w[14]) + DigitValue(w[15]),
      10 * DigitValue(w[17]) + DigitValue(w[18]))
  {
    assert AllDigits(w[0..4]) && AllDigits(w[5..7]) && AllDigits(w[8..10]);
    assert AllDigits(w[11..13]) && AllDigits(w[14..16]) && AllDigits(w[17..19]);
    FourDigitValue(w[0..4]);
    TwoDigitValue(w[5..7]);
    TwoDigitValue(w[8..10]);
    TwoDigitValue(w[11..13]);
    TwoDigitValue(w[14..16]);
    TwoDigitValue(w[17..19]);
  }

  /**
   * The name in the example of tests/test_sylte.py, "test_sylte-func-2022-01-14-15-16-37",
   * parses to 14 January 2022, 15:16:37.
   */
  // The example lemmas take the name as a prefix and a timestamp pinned by
  // their requires, so that the solver works on the two literals separately
  // instead of on their concatenation.
  lemma SampleNameParses(prefix: string, w: string)
    requires prefix == "test_sylte-func-" && w == "2022-01-14-15-16-37"
    ensures ParseTime(prefix + w) == Ok(DateTime(2022, 1, 14, 15, 16, 37))
  {
    assert NoDigits(prefix) && IsStampShape(w);
    DecodeLiteral(w);
    ParseAfterPlainPrefix(prefix, w, DateTime(2022, 1, 14, 15, 16, 37));
  }

  /** The earlier name in the example of tests/test_sylte.py for picking the later entry. */
  lemma EarlierSampleParses(prefix: string, w: string)
    requires prefix == "test_sylte-func-" && w == "2022-01-14-15-16-39"
    ensures ParseTime(prefix + w) == Ok(DateTime(2022, 1, 14, 15, 16, 39))
  {
    assert NoDigits(prefix) && IsStampShape(w);
    DecodeLiteral(w);
    ParseAfterPlainPrefix(prefix, w, DateTime(2022, 1, 14, 15, 16, 39));
  }

  /** The later name of the same example, one second on. */
  lemma LaterSampleParses(prefix: string, w: string)
    requires prefix == "test_sylte-func-" && w == "2022-01-14-15-16-40"
    ensures ParseTime(prefix + w) == Ok(DateTime(2022, 1, 14, 15, 16, 40))
  {
    assert NoDigits(prefix) && IsStampShape(w);
    DecodeLiteral(w);
    ParseAfterPlainPrefix(prefix, w, DateTime(2022, 1, 14, 15, 16, 40));
  }

  /** Month 13 matches the pattern but is not a date: a ValueError. */
  lemma MonthThirteenFails(prefix: string, w: string)
    requires prefix == "test_sylte-func-" && w == "2022-13-01-00-00-00"
    ensures ParseTime(prefix + w) == Err(ValueError)
  {
    assert NoDigits(prefix) && IsStampShape(w);
    DecodeLiteral(w);
    ParseAfterPlainPrefix(prefix, w, DateTime(2022, 13, 1, 0, 0, 0));
  }

  /** Hour 24 matches the pattern but is not a time of day: a ValueError. */
  lemma HourTwentyFourFails(prefix: string, w: string)
    requires prefix == "test_sylte-func-" && w == "2022-01-14-24-00-00"
    ensures ParseTime(prefix + w) == Err(ValueError)
  {
    assert NoDigits(prefix) && IsStampShape(w);
    DecodeLiteral(w);
    ParseAfterPlainPrefix(prefix, w, DateTime(2022, 1, 14, 24, 0, 0));
  }

  /** 30 February matches the pattern but is not a date: a ValueError, whatever digit-free text precedes it. */
  lemma FebruaryThirtiethFails(prefix: string)
    requires NoDigits(prefix)
    ensures ParseTime(prefix + "2022-02-30-00-00-00") == Err(ValueError)
  {
    DecodeLiteral("2022-02-30-00-00-00");
    ParseAfterPlainPrefix(prefix, "2022-02-30-00-00-00", DateTime(2022, 2, 30, 0, 0, 0));
  }

  /** 29 February of a leap year is a date. */
  lemma LeapDayParses(prefix: string, w: string)
    requires prefix == "test_sylte-func-" && w == "2024-02-29-23-59-59"
    ensures ParseTime(prefix + w) == Ok(DateTime(2024, 2, 29, 23, 59, 59))
  {
    assert NoDigits(prefix) && IsStampShape(w);
    DecodeLiteral(w);
    ParseAfterPlainPrefix(prefix, w, DateTime(2024, 2, 29, 23, 59, 59));
  }

  /** A name without a timestamp-shaped run fails to parse. */
  lemma NoStampFails()
    ensures ParseTime("test_sylte-func") == Err(AttributeError)
  {
  }
}
