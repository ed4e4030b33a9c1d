/**
 * Chronological selection over entry names: the later of two names, all
 * names sorted by their parsed time (a stable sort, so names with equal
 * times keep the order the directory listed them in), and the latest name
 * that contains a given substring.
 */
module Chrono {
  import opened Outcomes
  import opened Stamp
  import Naming

  /** Strict chronological order is a strict total order on date-times. */
  lemma BeforeTotal(a: DateTime, b: DateTime)
    ensures !Before(a, a)
    ensures a != b ==> Before(a, b) || Before(b, a)
    ensures Before(a, b) ==> !Before(b, a)
  {
  }

  lemma BeforeTransitive(a: DateTime, b: DateTime, c: DateTime)
    requires Before(a, b) && Before(b, c)
    ensures Before(a, c)
  {
  }

  /**
   * `_latest`: the later of two names by parsed time; when the times are
   * equal the second name wins. `a` is parsed first, so its error is the one
   * raised when both fail.
   */
  function Later(a: string, b: string): (r: Result<string, Failure>)
    ensures ParseTime(a).Err? ==> r == Err(ParseTime(a).error)
    ensures ParseTime(a).Ok? && ParseTime(b).Err? ==> r == Err(ParseTime(b).error)
    ensures r.Ok? <==> ParseTime(a).Ok? && ParseTime(b).Ok?
    ensures r.Ok? ==> r.value == a || r.value == b
    ensures r.Ok? ==> !Before(TimeOf(r.value), TimeOf(a)) && !Before(TimeOf(r.value), TimeOf(b))
    ensures r.Ok? && TimeOf(a) == TimeOf(b) ==> r.value == b
  {
    match ParseTime(a)
    case Err(e) => Err(e)
    case Ok(ta) =>
      match ParseTime(b)
      case Err(e) => Err(e)
      case Ok(tb) => Ok(if Before(tb, ta) then a else b)
  }

  /** When the two times differ, the argument order does not matter. */
  lemma LaterIgnoresOrder(a: string, b: string)
    requires ParseTime(a).Ok? && ParseTime(b).Ok? && TimeOf(a) != TimeOf(b)
    ensures Later(a, b) == Later(b, a)
    ensures Later(a, b) == Ok(if Before(TimeOf(a), TimeOf(b)) then b else a)
  {
    BeforeTotal(TimeOf(a), TimeOf(b));
  }

  /** Once both names are known to parse, the strictly later one wins in either order. */
  lemma LaterOfParsed(a: string, b: string, ta: DateTime, tb: DateTime)
    requires ParseTime(a) == Ok(ta) && ParseTime(b) == Ok(tb) && Before(ta, tb)
    ensures Later(a, b) == Ok(b) && Later(b, a) == Ok(b)
  {
  }

  /**
   * The example in tests/test_sylte.py: of "test_sylte-func-2022-01-14-15-16-39" and the
   * name one second later, the later one wins in either argument order. The
   * prefix and the timestamps are parameters pinned by the requires, so that
   * the solver works on the literals separately instead of on their
   * concatenation.
   */
  lemma SampleLater(prefix: string, wa: string, wb: string)
    requires prefix == "test_sylte-func-"
    requires wa == "2022-01-14-15-16-39" && wb == "2022-01-14-15-16-40"
    ensures Later(prefix + wa, prefix + wb) == Ok(prefix + wb)
    ensures Later(prefix + wb, prefix + wa) == Ok(prefix + wb)
  {
    Naming.EarlierSampleParses(prefix, wa);
    Naming.LaterSampleParses(prefix, wb);
    LaterOfParsed(prefix + wa, prefix + wb, DateTime(2022, 1, 14, 15, 16, 39), DateTime(2022, 1, 14, 15, 16, 40));
  }

  // ---------------------------------------------------------------------
  // Sorting by time

  /** A stored name with its parsed time and its position in the directory listing. */
  datatype Stamped = Stamped(name: string, time: DateTime, pos: nat)

  /** The order a stable sort by time leaves entries in: by time, then by listing position. */
  predicate Precedes(x: Stamped, y: Stamped) {
    Before(x.time, y.time) || (x.time == y.time && x.pos < y.pos)
  }

  predicate Ordered(s: seq<Stamped>) {
    forall i, j :: 0 <= i < j < |s| ==> Precedes(s[i], s[j])
  }

  predicate PositionsIncrease(s: seq<Stamped>) {
    forall i, j :: 0 <= i < j < |s| ==> s[i].pos < s[j].pos
  }

  /** The names of tagged entries, in the same order. */
  function NamesOf(s: seq<Stamped>): (names: seq<string>)
    ensures |names| == |s| && forall k :: 0 <= k < |s| ==> names[k] == s[k].name
  {
    seq(|s|, k requires 0 <= k < |s| => s[k].name)
  }

  lemma NamesOfCons(x: Stamped, s: seq<Stamped>)
    ensures NamesOf([x] + s) == [x.name] + NamesOf(s)
  {
  }

  /** An entry that precedes every entry of an ordered sequence can go in front of it. */
  lemma OrderedCons(x: Stamped, s: seq<Stamped>)
    requires Ordered(s) && forall k :: 0 <= k < |s| ==> Precedes(x, s[k])
    ensures Ordered([x] + s)
  {
    forall i, j | 0 <= i < j < |[x] + s| ensures Precedes(([x] + s)[i], ([x] + s)[j]) {
      if i > 0 { assert ([x] + s)[i] == s[i - 1]; }
      assert ([x] + s)[j] == s[j - 1];
    }
  }

  /** An entry listed before all of `s` and not earlier than `s[0]` precedes every entry of `s`. */
  lemma PrecedesOrdered(x: Stamped, s: seq<Stamped>)
    requires Ordered(s) && s != [] && !Before(s[0].time, x.time)
    requires forall k :: 0 <= k < |s| ==> x.pos < s[k].pos
    ensures forall k :: 0 <= k < |s| ==> Precedes(x, s[k])
  {
    forall k | 0 <= k < |s| ensures Precedes(x, s[k]) {
      BeforeTotal(x.time, s[0].time);
      if k > 0 {
        assert Precedes(s[0], s[k]);
        if Before(x.time, s[0].time) && Before(s[0].time, s[k].time) {
          BeforeTransitive(x.time, s[0].time, s[k].time);
        }
      }
    }
  }

  /** Whatever is inserted after `y`, `y` precedes all of it when it precedes `x` and all of `s`. */
  lemma PrecedesInserted(y: Stamped, x: Stamped, s: seq<Stamped>, rest: seq<Stamped>)
    requires multiset(rest) == multiset(s) + multiset{x}
    requires Precedes(y, x) && forall k :: 0 <= k < |s| ==> Precedes(y, s[k])
    ensures forall k :: 0 <= k < |rest| ==> Precedes(y, rest[k])
  {
    forall k | 0 <= k < |rest| ensures Precedes(y, rest[k]) {
      assert rest[k] in multiset(rest);
      if rest[k] != x {
        assert rest[k] in multiset(s);
        var j :| 0 <= j < |s| && s[j] == rest[k];
      }
    }
  }

  /** The insertion step of a stable sort: `x` goes before the first entry that is not earlier than it. */
  function Insert(x: Stamped, s: seq<Stamped>): (r: seq<Stamped>)
    requires Ordered(s)
    requires forall k :: 0 <= k < |s| ==> x.pos < s[k].pos
    ensures Ordered(r)
    ensures multiset(r) == multiset(s) + multiset{x}
  {
    if s == [] then [x]
    else if !Before(s[0].time, x.time) then
      PrecedesOrdered(x, s);
      OrderedCons(x, s);
      [x] + s
    else
      var rest := Insert(x, s[1..]);
      assert Precedes(s[0], x) && forall k :: 0 <= k < |s[1..]| ==> Precedes(s[0], s[1..][k]);
      PrecedesInserted(s[0], x, s[1..], rest);
      OrderedCons(s[0], rest);
      assert s == [s[0]] + s[1..];
      [s[0]] + rest
  }

  /** Inserting an entry adds its name to the names. */
  lemma {:induction false} InsertNames(x: Stamped, s: seq<Stamped>)
    requires Ordered(s)
    requires forall k :: 0 <= k < |s| ==> x.pos < s[k].pos
    ensures multiset(NamesOf(Insert(x, s))) == multiset(NamesOf(s)) + multiset{x.name}
  {
    if s == [] {
    } else if !Before(s[0].time, x.time) {
      NamesOfCons(x, s);
    } else {
      var rest := Insert(x, s[1..]);
      assert Ordered(s[1..]);
      InsertNames(x, s[1..]);
      assert s == [s[0]] + s[1..];
      NamesOfCons(s[0], s[1..]);
      NamesOfCons(s[0], rest);
    }
  }

  /** An entry of a permutation of `s` is an entry of `s`. */
  lemma PermutedEntry(r: seq<Stamped>, s: seq<Stamped>, k: int)
    requires multiset(r) == multiset(s) && 0 <= k < |r|
    ensures exists j :: 0 <= j < |s| && s[j] == r[k]
  {
    assert r[k] in multiset(s);
  }

  /** The head of a sequence with increasing positions is listed before every entry of a permutation of its tail. */
  lemma HeadListedFirst(s: seq<Stamped>, rest: seq<Stamped>)
    requires PositionsIncrease(s) && s != [] && multiset(rest) == multiset(s[1..])
    ensures PositionsIncrease(s[1..])
    ensures forall k :: 0 <= k < |rest| ==> s[0].pos < rest[k].pos
  {
    forall k | 0 <= k < |rest| ensures s[0].pos < rest[k].pos {
      PermutedEntry(rest, s[1..], k);
    }
  }

  /** Splitting off the head splits both multisets. */
  lemma HeadAndTail(s: seq<Stamped>)
    requires s != []
    ensures multiset(s) == multiset(s[1..]) + multiset{s[0]}
    ensures multiset(NamesOf(s)) == multiset(NamesOf(s[1..])) + multiset{s[0].name}
  {
    assert s == [s[0]] + s[1..];
    NamesOfCons(s[0], s[1..]);
  }

  /** A stable insertion sort by time. */
  function Sort(s: seq<Stamped>): (r: seq<Stamped>)
    requires PositionsIncrease(s)
    ensures Ordered(r)
    ensures multiset(r) == multiset(s)
    ensures multiset(NamesOf(r)) == multiset(NamesOf(s))
  {
    if s == [] then []
    else
      assert PositionsIncrease(s[1..]);
      var rest := Sort(s[1..]);
      HeadListedFirst(s, rest);
      HeadAndTail(s);
      InsertNames(s[0], rest);
      Insert(s[0], rest)
  }

  /** No entry precedes an entry that precedes it. */
  lemma PrecedesAsymmetric(x: Stamped, y: Stamped)
    requires Precedes(x, y)
    ensures !Precedes(y, x)
  {
    BeforeTotal(x.time, y.time);
  }

  /** Two ordered arrangements of the same entries start with the same entry. */
  lemma SameFirst(a: seq<Stamped>, b: seq<Stamped>)
    requires Ordered(a) && Ordered(b) && multiset(a) == multiset(b) && a != [] && b != []
    ensures a[0] == b[0]
  {
    assert a[0] in multiset(b) && b[0] in multiset(a);
    var i :| 0 <= i < |b| && b[i] == a[0];
    var j :| 0 <= j < |a| && a[j] == b[0];
    if a[0] != b[0] {
      assert Precedes(b[0], b[i]) && Precedes(a[0], a[j]);
      PrecedesAsymmetric(a[0], b[0]);
    }
  }

  /** Dropping the same first entry leaves ordered arrangements of the same entries. */
  lemma SameTail(a: seq<Stamped>, b: seq<Stamped>)
    requires Ordered(a) && Ordered(b) && multiset(a) == multiset(b) && a != [] && b != [] && a[0] == b[0]
    ensures Ordered(a[1..]) && Ordered(b[1..]) && multiset(a[1..]) == multiset(b[1..])
  {
    assert a == [a[0]] + a[1..] && b == [b[0]] + b[1..];
    assert multiset(a) == multiset{a[0]} + multiset(a[1..]);
    assert multiset(b) == multiset{b[0]} + multiset(b[1..]);
    forall e ensures multiset(a[1..])[e] == multiset(b[1..])[e] {
      assert multiset(a)[e] == multiset(b)[e];
    }
  }

  /**
   * Stable order leaves no choice: two ordered arrangements of the same
   * entries are the same sequence.
   */
  lemma {:induction false} StableOrderUnique(a: seq<Stamped>, b: seq<Stamped>)
    requires Ordered(a) && Ordered(b) && multiset(a) == multiset(b)
    ensures a == b
    decreases |a|
  {
    assert |a| == |multiset(a)| == |multiset(b)| == |b|;
    if a != [] {
      SameFirst(a, b);
      SameTail(a, b);
      StableOrderUnique(a[1..], b[1..]);
      assert a == [a[0]] + a[1..] && b == [b[0]] + b[1..];
    }
  }

  // ---------------------------------------------------------------------
  // Listing

  predicate AllParse(names: seq<string>) {
    forall i :: 0 <= i < |names| ==> ParseTime(names[i]).Ok?
  }

  /** `names[i]` is the first name that fails to parse, and it fails with `e`. */
  predicate FirstFailsWith(names: seq<string>, i: int, e: Failure) {
    && 0 <= i < |names|
    && ParseTime(names[i]) == Err(e)
    && forall j :: 0 <= j < i ==> ParseTime(names[j]).Ok?
  }

  /** Each listed name with its time and position. */
  function Tags(listing: seq<string>): (tags: seq<Stamped>)
    requires AllParse(listing)
    ensures |tags| == |listing| && forall i :: 0 <= i < |listing| ==> tags[i] == Stamped(listing[i], TimeOf(listing[i]), i)
  {
    seq(|listing|, i requires 0 <= i < |listing| => Stamped(listing[i], TimeOf(listing[i]), i))
  }

  /** The error `sorted(..., key=_sylte_time)` raises: keys are computed in listing order. */
  function FirstFailure(names: seq<string>): (e: Failure)
    requires !AllParse(names)
    ensures exists i :: FirstFailsWith(names, i, e)
  {
    if ParseTime(names[0]).Err? then
      assert FirstFailsWith(names, 0, ParseTime(names[0]).error);
      ParseTime(names[0]).error
    else
      var e := FirstFailure(names[1..]);
      var i :| FirstFailsWith(names[1..], i, e);
      assert FirstFailsWith(names, i + 1, e);
      e
  }

  /** The listed names, tagged with time and position, in stable chronological order. */
  function Chronological(listing: seq<string>): (r: Result<seq<Stamped>, Failure>)
    ensures r.Ok? <==> AllParse(listing)
    ensures r.Err? ==> exists i :: FirstFailsWith(listing, i, r.error)
    ensures r.Ok? ==> Ordered(r.value) && multiset(r.value) == multiset(Tags(listing))
    ensures r.Ok? ==> multiset(NamesOf(r.value)) == multiset(listing)
  {
    if AllParse(listing) then
      var tags := Tags(listing);
      assert NamesOf(tags) == listing;
      Ok(Sort(tags))
    else Err(FirstFailure(listing))
  }

  /**
   * `_Sylted.list`: every listed name, sorted ascending by parsed time; the
   * first name that does not parse makes the whole call fail.
   */
  function ListNames(listing: seq<string>): (r: Result<seq<string>, Failure>)
    ensures r.Ok? <==> AllParse(listing)
    ensures r.Err? ==> exists i :: FirstFailsWith(listing, i, r.error)
    ensures r.Ok? ==> multiset(r.value) == multiset(listing) && AllParse(r.value)
    ensures r.Ok? ==> forall i, j :: 0 <= i < j < |r.value| ==> !Before(TimeOf(r.value[j]), TimeOf(r.value[i]))
    ensures r.Ok? ==> r.value == NamesOf(Chronological(listing).value)
  {
    match Chronological(listing)
    case Err(e) => Err(e)
    case Ok(st) =>
      var names := NamesOf(st);
      assert AllParse(names) && forall k :: 0 <= k < |st| ==> st[k].time == TimeOf(names[k]) by {
        forall k | 0 <= k < |st| ensures ParseTime(names[k]).Ok? && st[k].time == TimeOf(names[k]) {
          assert st[k] in multiset(Tags(listing));
        }
      }
      forall i, j | 0 <= i < j < |names| ensures !Before(TimeOf(names[j]), TimeOf(names[i])) {
        assert Precedes(st[i], st[j]);
        BeforeTotal(st[i].time, st[j].time);
      }
      Ok(names)
  }

  /**
   * `list()` is the only arrangement of the listed names that is sorted by
   * time with ties kept in listing order.
   */
  lemma ListIsTheStableSort(listing: seq<string>, st: seq<Stamped>)
    requires AllParse(listing)
    requires Ordered(st) && multiset(st) == multiset(Tags(listing))
    ensures ListNames(listing) == Ok(NamesOf(st))
  {
    StableOrderUnique(st, Chronological(listing).value);
  }

  // ---------------------------------------------------------------------
  // Substring filter and the latest match

  /** `sub` occurs in `s` starting at `i`. */
  predicate OccursAt(s: string, sub: string, i: nat) {
    i + |sub| <= |s| && s[i..i + |sub|] == sub
  }

  /** Python's `sub in s` on strings. */
  predicate Contains(s: string, sub: string) {
    exists i: nat :: i <= |s| && OccursAt(s, sub, i)
  }

  /** The empty substring is in every name, so `latest()` with no argument considers every entry. */
  lemma EmptyIsInEveryName(s: string)
    ensures Contains(s, "")
  {
    assert OccursAt(s, "", 0);
  }

  /** The names that contain `sub`, in their original order. */
  function Filter(names: seq<string>, sub: string): (r: seq<string>)
    ensures forall n :: n in r <==> n in names && Contains(n, sub)
  {
    if names == [] then []
    else
      assert names == [names[0]] + names[1..];
      (if Contains(names[0], sub) then [names[0]] else []) + Filter(names[1..], sub)
  }

  /** The tagged entries whose name contains `sub`, in their original order. */
  function Matching(st: seq<Stamped>, sub: string): (m: seq<Stamped>)
    ensures forall e :: e in m <==> e in st && Contains(e.name, sub)
  {
    if st == [] then []
    else
      assert st == [st[0]] + st[1..];
      (if Contains(st[0].name, sub) then [st[0]] else []) + Matching(st[1..], sub)
  }

  /** Keeping only some entries keeps them in order. */
  lemma {:induction false} MatchingKeepsOrder(st: seq<Stamped>, sub: string)
    requires Ordered(st)
    ensures Ordered(Matching(st, sub))
  {
    if st != [] {
      var rest := Matching(st[1..], sub);
      MatchingKeepsOrder(st[1..], sub);
      if Contains(st[0].name, sub) {
        forall k | 0 <= k < |rest| ensures Precedes(st[0], rest[k]) {
          var j :| 0 <= j < |st[1..]| && st[1..][j] == rest[k];
          assert st[j + 1] == rest[k];
        }
        assert Matching(st, sub) == [st[0]] + rest;
      }
    }
  }

  /** Filtering tagged entries and then dropping the tags is filtering the names. */
  lemma {:induction false} MatchingNames(st: seq<Stamped>, sub: string)
    ensures NamesOf(Matching(st, sub)) == Filter(NamesOf(st), sub)
  {
    if st != [] {
      var rest := Matching(st[1..], sub);
      MatchingNames(st[1..], sub);
      assert st == [st[0]] + st[1..];
      NamesOfCons(st[0], st[1..]);
      assert NamesOf(st)[0] == st[0].name && NamesOf(st)[1..] == NamesOf(st[1..]);
      if Contains(st[0].name, sub) {
        NamesOfCons(st[0], rest);
        assert Matching(st, sub) == [st[0]] + rest;
      } else {
        assert Matching(st, sub) == rest;
      }
    }
  }

  /**
   * Position `p` holds a name that contains `sub` and comes last among such
   * names in stable chronological order: no matching name is later, and a
   * matching name with the same time is not listed after it.
   */
  predicate IsLatestMatch(listing: seq<string>, sub: string, p: int)
    requires AllParse(listing)
  {
    && 0 <= p < |listing|
    && Contains(listing[p], sub)
    && forall q :: 0 <= q < |listing| && Contains(listing[q], sub) ==>
         Before(TimeOf(listing[q]), TimeOf(listing[p])) || (TimeOf(listing[q]) == TimeOf(listing[p]) && q <= p)
  }

  /** Every listed name that contains `sub` is, tagged, among the matching sorted entries. */
  lemma TagIsMatched(listing: seq<string>, sub: string, q: int)
    requires AllParse(listing) && 0 <= q < |listing| && Contains(listing[q], sub)
    ensures Tags(listing)[q] in Matching(Chronological(listing).value, sub)
  {
    assert Tags(listing)[q] in multiset(Chronological(listing).value);
  }

  /** An entry of the sorted listing is the tag of the name at its own position. */
  lemma SortedEntryIsTag(listing: seq<string>, e: Stamped)
    requires AllParse(listing) && e in Chronological(listing).value
    ensures e.pos < |listing| && Tags(listing)[e.pos] == e
  {
    var tags := Tags(listing);
    assert e in multiset(Chronological(listing).value);
    assert e in multiset(tags);
    var i :| 0 <= i < |tags| && tags[i] == e;
  }

  /** Stable order between two tags, read back as times and positions. */
  lemma TagOrder(listing: seq<string>, q: int, p: int)
    requires AllParse(listing) && 0 <= q < |listing| && 0 <= p < |listing|
    requires q == p || Precedes(Tags(listing)[q], Tags(listing)[p])
    ensures Before(TimeOf(listing[q]), TimeOf(listing[p])) || (TimeOf(listing[q]) == TimeOf(listing[p]) && q <= p)
  {
  }

  /** In an ordered sequence every entry other than the last precedes the last. */
  lemma LastIsGreatest(m: seq<Stamped>, e: Stamped)
    requires Ordered(m) && m != [] && e in m
    ensures e == m[|m| - 1] || Precedes(e, m[|m| - 1])
  {
    var k :| 0 <= k < |m| && m[k] == e;
    if k < |m| - 1 { assert Precedes(m[k], m[|m| - 1]); }
  }

  /** The last matching sorted entry names the latest match, at its own listing position. */
  lemma LastMatchIsLatest(listing: seq<string>, sub: string, m: seq<Stamped>)
    requires AllParse(listing) && m == Matching(Chronological(listing).value, sub) && m != []
    ensures m[|m| - 1].pos < |listing| && listing[m[|m| - 1].pos] == m[|m| - 1].name
    ensures IsLatestMatch(listing, sub, m[|m| - 1].pos)
  {
    var st := Chronological(listing).value;
    MatchingKeepsOrder(st, sub);
    var last := m[|m| - 1];
    assert last in st;
    SortedEntryIsTag(listing, last);
    assert listing[last.pos] == Tags(listing)[last.pos].name;
    LastOfOrderedMatches(listing, sub, m);
  }

  /** Given that the matching entries are ordered and the last is a tag, its position is the latest match. */
  lemma LastOfOrderedMatches(listing: seq<string>, sub: string, m: seq<Stamped>)
    requires AllParse(listing) && m == Matching(Chronological(listing).value, sub)
    requires Ordered(m) && m != []
    requires m[|m| - 1].pos < |listing| && Tags(listing)[m[|m| - 1].pos] == m[|m| - 1]
    ensures IsLatestMatch(listing, sub, m[|m| - 1].pos)
  {
    var p := m[|m| - 1].pos;
    assert Contains(m[|m| - 1].name, sub);
    forall q | 0 <= q < |listing| && Contains(listing[q], sub)
      ensures Before(TimeOf(listing[q]), TimeOf(listing[p])) || (TimeOf(listing[q]) == TimeOf(listing[p]) && q <= p)
    {
      MatchNotAfterLast(listing, sub, m, q);
    }
  }

  /** A listed name that contains `sub` is not later, in stable order, than the last matching sorted entry. */
  lemma MatchNotAfterLast(listing: seq<string>, sub: string, m: seq<Stamped>, q: int)
    requires AllParse(listing) && m == Matching(Chronological(listing).value, sub)
    requires Ordered(m) && m != [] && 0 <= q < |listing| && Contains(listing[q], sub)
    requires m[|m| - 1].pos < |listing| && Tags(listing)[m[|m| - 1].pos] == m[|m| - 1]
    ensures var p := m[|m| - 1].pos;
      Before(TimeOf(listing[q]), TimeOf(listing[p])) || (TimeOf(listing[q]) == TimeOf(listing[p]) && q <= p)
  {
    TagIsMatched(listing, sub, q);
    LastIsGreatest(m, Tags(listing)[q]);
    TagOrder(listing, q, m[|m| - 1].pos);
  }

  /** No matching sorted entry means no listed name contains `sub`. */
  lemma NoMatchingEntry(listing: seq<string>, sub: string)
    requires AllParse(listing) && Matching(Chronological(listing).value, sub) == []
    ensures forall q :: 0 <= q < |listing| ==> !Contains(listing[q], sub)
  {
    forall q | 0 <= q < |listing| ensures !Contains(listing[q], sub) {
      if Contains(listing[q], sub) { TagIsMatched(listing, sub, q); }
    }
  }

  /** Filtering the sorted names is naming the matching sorted entries. */
  lemma FilterIsMatching(listing: seq<string>, sub: string)
    requires AllParse(listing)
    ensures Filter(ListNames(listing).value, sub) == NamesOf(Matching(Chronological(listing).value, sub))
  {
    MatchingNames(Chronological(listing).value, sub);
  }

  /** Filtering the sorted names leaves nothing exactly when no listed name contains `sub`. */
  lemma NothingFiltered(listing: seq<string>, sub: string)
    requires AllParse(listing)
    ensures Filter(ListNames(listing).value, sub) == [] <==> forall q :: 0 <= q < |listing| ==> !Contains(listing[q], sub)
  {
    var m := Matching(Chronological(listing).value, sub);
    FilterIsMatching(listing, sub);
    if m == [] {
      NoMatchingEntry(listing, sub);
    } else {
      var e := m[0];
      SortedEntryIsTag(listing, e);
      assert Contains(listing[e.pos], sub);
    }
  }

  /** Otherwise the last name the filter leaves is the latest match. */
  lemma LastFiltered(listing: seq<string>, sub: string)
    requires AllParse(listing) && Filter(ListNames(listing).value, sub) != []
    ensures var matches := Filter(ListNames(listing).value, sub);
      exists p :: IsLatestMatch(listing, sub, p) && listing[p] == matches[|matches| - 1]
  {
    var matches := Filter(ListNames(listing).value, sub);
    var m := Matching(Chronological(listing).value, sub);
    FilterIsMatching(listing, sub);
    var names := NamesOf(m);
    assert matches == names;
    assert |names| == |m|;
    assert names[|m| - 1] == m[|m| - 1].name;
    LastMatchIsLatest(listing, sub, m);
    var last := m[|m| - 1];
    assert IsLatestMatch(listing, sub, last.pos) && listing[last.pos] == matches[|matches| - 1];
  }

  /**
   * The name `_Sylted.latest(substring)` loads: the last of the sorted names
   * that contain `sub`, or None when no name contains it.
   */
  function LatestName(listing: seq<string>, sub: string): (r: Result<Option<string>, Failure>)
    ensures r.Ok? <==> AllParse(listing)
    ensures r.Err? ==> exists i :: FirstFailsWith(listing, i, r.error)
    ensures r == Ok(None) <==> AllParse(listing) && forall q :: 0 <= q < |listing| ==> !Contains(listing[q], sub)
    ensures r.Ok? && r.value.Some? ==> exists p :: IsLatestMatch(listing, sub, p) && listing[p] == r.value.value
  {
    match ListNames(listing)
    case Err(e) => Err(e)
    case Ok(names) =>
      var matches := Filter(names, sub);
      NothingFiltered(listing, sub);
      if matches == [] then Ok(None)
      else
        LastFiltered(listing, sub);
        Ok(Some(matches[|matches| - 1]))
  }
}
