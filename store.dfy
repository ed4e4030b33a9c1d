/**
 * The cache directory and the lazy attribute index over it.
 *
 * The directory maps each entry name (a pickle file's stem) to the pickled
 * payload. The index is the attribute dictionary of the `sylted` object: every
 * name it knows maps either to a value or to the placeholder `...`, which a
 * lookup replaces by the payload read from the directory.
 */
module Store {
  import opened Outcomes
  import opened Values
  import opened Stamp
  import opened Naming
  import opened Chrono

  /** `listing` is one order in which a directory listing can yield the names in `keys`: each exactly once. */
  predicate Enumerates(listing: seq<string>, keys: set<string>) {
    (forall i, j :: 0 <= i < j < |listing| ==> listing[i] != listing[j]) &&
    (forall n :: n in listing ==> n in keys) && (forall n :: n in keys ==> n in listing)
  }

  /** Every stored name carries a valid timestamp. */
  predicate StoredNamesParse(keys: set<string>) {
    forall n :: n in keys ==> ParseTime(n).Ok?
  }

  /** The cache directory: one pickle file per entry name. */
  class Directory {
    var files: map<string, Value>

    constructor(files0: map<string, Value>)
      ensures files == files0
    {
      files := files0;
    }
  }

  /** The `_Sylted` namespace: an attribute dictionary over a cache directory. */
  class Sylted {
    const dir: Directory
    var attrs: map<string, Value>

    /** Every stored entry is an index key holding the placeholder. */
    predicate Indexed()
      reads this, dir
    {
      forall n :: n in dir.files ==> n in attrs && attrs[n] == Ellipsis
    }

    /**
     * `_Sylted(**kwargs)`: the given attributes, with every stored name added
     * (or overridden) as a placeholder.
     */
    constructor(dir: Directory, initial: map<string, Value>)
      ensures this.dir == dir
      ensures attrs == initial + map n | n in dir.files :: Ellipsis
      ensures Indexed()
    {
      this.dir := dir;
      attrs := initial + map n | n in dir.files :: Ellipsis;
    }

    /**
     * Attribute lookup (and calling the namespace with a name): an unknown
     * name fails, a placeholder is replaced by the stored payload (which must
     * exist), any other value is returned as it is.
     */
    function Get(name: string): (r: Result<Value, Failure>)
      reads this, dir
      ensures r.Err? <==> name !in attrs || (attrs[name] == Ellipsis && name !in dir.files)
      ensures r.Err? ==> r.error == (if name in attrs then FileNotFoundError else AttributeError)
      ensures r.Ok? && attrs[name] == Ellipsis ==> r.value == dir.files[name]
      ensures r.Ok? && attrs[name] != Ellipsis ==> r.value == attrs[name]
    {
      if name !in attrs then Err(AttributeError)
      else if attrs[name] != Ellipsis then Ok(attrs[name])
      else if name in dir.files then Ok(dir.files[name])
      else Err(FileNotFoundError)
    }

    /** While the index is coherent, every stored entry reads back as its payload. */
    lemma StoredEntriesLoad()
      requires Indexed()
      ensures forall n :: n in dir.files ==> Get(n) == Ok(dir.files[n])
    {
    }

    /**
     * `list()`: the stored names, oldest first; names with the same time keep
     * the order of the directory listing. Fails as soon as a stored name does
     * not parse.
     */
    function List(listing: seq<string>): (r: Result<seq<string>, Failure>)
      reads dir
      requires Enumerates(listing, dir.files.Keys)
      ensures r.Ok? <==> StoredNamesParse(dir.files.Keys)
      ensures r.Err? ==> exists i :: FirstFailsWith(listing, i, r.error)
      ensures r.Ok? ==> |r.value| == |dir.files| && forall n :: n in r.value <==> n in dir.files
      ensures r.Ok? ==> forall i, j :: 0 <= i < j < |r.value| ==> r.value[i] != r.value[j]
      ensures r.Ok? ==> forall i, j :: 0 <= i < j < |r.value| ==> !Before(TimeOf(r.value[j]), TimeOf(r.value[i]))
      ensures r.Ok? ==> r.value == NamesOf(Chronological(listing).value)
    {
      ListedOnce(listing, dir.files.Keys);
      ListNames(listing)
    }

    /**
     * `latest(substring)`: the payload of the newest stored entry whose name
     * contains `substring`, or None when no stored name does.
     */
    function Latest(listing: seq<string>, sub: string): (r: Result<Option<Value>, Failure>)
      reads dir
      requires Enumerates(listing, dir.files.Keys)
      ensures r.Ok? <==> AllParse(listing)
      ensures r.Ok? <==> StoredNamesParse(dir.files.Keys)
      ensures r.Err? ==> exists i :: FirstFailsWith(listing, i, r.error)
      ensures r == Ok(None) <==> r.Ok? && NoStoredNameContains(dir.files.Keys, sub)
      ensures r.Ok? && r.value.Some? ==>
        exists p :: IsLatestMatch(listing, sub, p) && r.value.value == dir.files[listing[p]]
    {
      EnumeratedParse(listing, dir.files.Keys);
      EnumeratedMatches(listing, dir.files.Keys, sub);
      match LatestName(listing, sub)
      case Err(e) => Err(e)
      case Ok(None) => Ok(None)
      case Ok(Some(name)) =>
        var p :| IsLatestMatch(listing, sub, p) && listing[p] == name;
        Ok(Some(dir.files[name]))
    }

    /** `latest()` with its default empty substring finds an entry whenever the directory has one. */
    lemma LatestOfAll(listing: seq<string>)
      requires Enumerates(listing, dir.files.Keys)
      requires StoredNamesParse(dir.files.Keys)
      ensures Latest(listing, "").Ok?
      ensures Latest(listing, "").value.None? <==> dir.files == map[]
    {
      if dir.files != map[] {
        var n :| n in dir.files;
        EmptyIsInEveryName(n);
      }
    }

    /**
     * When one stored entry is strictly newer than every other, `latest()`
     * with its default empty substring loads that entry's payload.
     */
    lemma NewestEntryIsLatest(listing: seq<string>, name: string, t: DateTime)
      requires Enumerates(listing, dir.files.Keys)
      requires name in dir.files && ParseTime(name) == Ok(t)
      requires forall n :: n in dir.files && n != name ==> ParseTime(n).Ok? && Before(TimeOf(n), t)
      ensures Latest(listing, "") == Ok(Some(dir.files[name]))
    {
      assert StoredNamesParse(dir.files.Keys);
      EmptyIsInEveryName(name);
      var r := Latest(listing, "");
      assert r.Ok? && r != Ok(None);
      var p :| IsLatestMatch(listing, "", p) && r.value.value == dir.files[listing[p]];
      var q :| 0 <= q < |listing| && listing[q] == name;
      if listing[p] != name {
        BeforeTotal(TimeOf(listing[p]), t);
      }
    }

    /** `NewestEntryIsLatest` for an entry added to a directory whose other entries are all older. */
    lemma AddedEntryIsLatest(listing: seq<string>, name: string, t: DateTime, before: set<string>)
      requires Enumerates(listing, dir.files.Keys) && dir.files.Keys == before + {name}
      requires ParseTime(name) == Ok(t)
      requires forall n :: n in before ==> ParseTime(n).Ok? && Before(TimeOf(n), t)
      ensures Latest(listing, "") == Ok(Some(dir.files[name]))
    {
      NewestEntryIsLatest(listing, name, t);
    }

    /**
     * `clear()`: remove every stored file in listing order, then delete the
     * attributes named by `list()` of the now empty directory, which names
     * nothing; so the index keeps every key, and a stored name that was a
     * placeholder now fails to load.
     */
    method Clear(listing: seq<string>) returns (raised: Option<Failure>)
      requires Enumerates(listing, dir.files.Keys)
      modifies this, dir
      ensures raised == None
      ensures dir.files == map[]
      ensures attrs == old(attrs)
      ensures List([]) == Ok([])
      ensures Indexed()
      ensures old(Indexed()) ==> forall n :: n in old(dir.files) ==> Get(n) == Err(FileNotFoundError)
    {
      var i := 0;
      while i < |listing|
        invariant 0 <= i <= |listing|
        invariant attrs == old(attrs)
        invariant forall n :: n in dir.files <==> n in old(dir.files) && n !in listing[..i]
      {
        assert listing[..i + 1] == listing[..i] + [listing[i]];
        dir.files := dir.files - {listing[i]};
        i := i + 1;
      }
      assert listing[..i] == listing;
      assert dir.files == map[];
      assert StoredNamesParse(dir.files.Keys);
      var listed := List([]);
      match listed
      case Ok(names) =>
        assert names == [];
        raised := DeleteAttrs(names);
      case Err(e) =>
        raised := Some(e);
    }

    /**
     * `delattr` for each name in turn, giving the exception raised if any:
     * fails on the first name that is not (or no longer) an attribute, with the
     * names before it already deleted; otherwise every named attribute is gone.
     * The attributes that remain keep their values either way.
     */
    method DeleteAttrs(names: seq<string>) returns (raised: Option<Failure>)
      modifies this
      ensures raised.None? <==> Deletable(old(attrs), names)
      ensures raised.Some? ==> raised.value == AttributeError
      ensures raised.None? ==> forall n :: n in attrs <==> n in old(attrs) && n !in names
      ensures raised.Some? ==> exists j :: 0 <= j < |names| && StopsAt(old(attrs), attrs, names, j)
      ensures forall n :: n in attrs ==> n in old(attrs) && attrs[n] == old(attrs)[n]
    {
      var j := 0;
      while j < |names|
        invariant 0 <= j <= |names|
        invariant Deletable(old(attrs), names[..j])
        invariant forall n :: n in attrs <==> n in old(attrs) && n !in names[..j]
        invariant forall n :: n in attrs ==> attrs[n] == old(attrs)[n]
      {
        assert names[..j + 1] == names[..j] + [names[j]];
        if names[j] !in attrs {
          assert !Deletable(old(attrs), names[..j + 1]);
          if Deletable(old(attrs), names) {
            DeletablePrefix(old(attrs), names, j + 1);
          }
          assert StopsAt(old(attrs), attrs, names, j);
          return Some(AttributeError);
        }
        attrs := attrs - {names[j]};
        j := j + 1;
      }
      assert names[..j] == names;
      return None;
    }
  }

  /** The names can be deleted one after another: each is an attribute, and none comes twice. */
  predicate Deletable(attrs: map<string, Value>, names: seq<string>) {
    (forall k :: 0 <= k < |names| ==> names[k] in attrs) &&
    forall i, j :: 0 <= i < j < |names| ==> names[i] != names[j]
  }

  /**
   * A `delattr` loop over `names` that raised at `names[j]`: the names before it
   * were deleted one by one from `before`, leaving `after`, which lacks `names[j]`.
   */
  predicate StopsAt(before: map<string, Value>, after: map<string, Value>, names: seq<string>, j: int)
    requires 0 <= j < |names|
  {
    && Deletable(before, names[..j])
    && names[j] !in after
    && (forall n :: n in after ==> n in before && n !in names[..j])
    && (forall n :: n in before && n !in names[..j] ==> n in after)
  }

  lemma DeletablePrefix(attrs: map<string, Value>, names: seq<string>, k: int)
    requires 0 <= k <= |names| && Deletable(attrs, names)
    ensures Deletable(attrs, names[..k])
  {
  }

  /** An enumeration of the keys parses exactly when every key parses. */
  lemma EnumeratedParse(listing: seq<string>, keys: set<string>)
    requires Enumerates(listing, keys)
    ensures AllParse(listing) <==> StoredNamesParse(keys)
  {
    if AllParse(listing) {
      forall n | n in keys ensures ParseTime(n).Ok? {
        var i :| 0 <= i < |listing| && listing[i] == n;
      }
    }
  }

  /** Sorting an enumeration of the keys succeeds when every key parses, and then names each key exactly once. */
  lemma ListedOnce(listing: seq<string>, keys: set<string>)
    requires Enumerates(listing, keys)
    ensures ListNames(listing).Ok? <==> StoredNamesParse(keys)
    ensures var r := ListNames(listing);
      r.Ok? ==> |r.value| == |keys| && (forall n :: n in r.value <==> n in keys) &&
                forall i, j :: 0 <= i < j < |r.value| ==> r.value[i] != r.value[j]
  {
    EnumeratedParse(listing, keys);
    var r := ListNames(listing);
    if r.Ok? {
      EnumerationSize(listing, keys);
      PermutationKeepsDistinct(listing, r.value);
    }
  }

  /** No stored name contains the substring. */
  predicate NoStoredNameContains(keys: set<string>, sub: string) {
    forall n :: n in keys ==> !Contains(n, sub)
  }

  /** An enumeration has a name containing the substring exactly when the keys have one. */
  lemma EnumeratedMatches(listing: seq<string>, keys: set<string>, sub: string)
    requires Enumerates(listing, keys)
    ensures (forall q :: 0 <= q < |listing| ==> !Contains(listing[q], sub)) <==> NoStoredNameContains(keys, sub)
  {
    if forall q :: 0 <= q < |listing| ==> !Contains(listing[q], sub) {
      forall n | n in keys ensures !Contains(n, sub) {
        var q :| 0 <= q < |listing| && listing[q] == n;
      }
    }
  }

  /** An enumeration is as long as the set it enumerates. */
  lemma {:induction false} EnumerationSize(listing: seq<string>, keys: set<string>)
    requires Enumerates(listing, keys)
    ensures |listing| == |keys|
    decreases |listing|
  {
    if listing != [] {
      var last := listing[|listing| - 1];
      var rest := listing[..|listing| - 1];
      assert listing == rest + [last];
      assert last !in rest;
      EnumerationSize(rest, keys - {last});
    }
  }

  /** A rearrangement of a sequence without repeats has no repeats. */
  lemma PermutationKeepsDistinct(s: seq<string>, r: seq<string>)
    requires forall i, j :: 0 <= i < j < |s| ==> s[i] != s[j]
    requires multiset(r) == multiset(s)
    ensures |r| == |s|
    ensures forall n :: n in r <==> n in s
    ensures forall i, j :: 0 <= i < j < |r| ==> r[i] != r[j]
  {
    assert |r| == |multiset(r)| == |multiset(s)| == |s|;
    forall n ensures n in r <==> n in s {
      assert n in r <==> n in multiset(r);
      assert n in s <==> n in multiset(s);
    }
    forall n | n in s ensures multiset(s)[n] == 1 {
      DistinctOccursOnce(s, n);
    }
    forall i, j | 0 <= i < j < |r| ensures r[i] != r[j] {
      if r[i] == r[j] {
        TwiceCounted(r, i, j);
        assert false;
      }
    }
  }

  /** A name occurs once in a sequence without repeats. */
  lemma {:induction false} DistinctOccursOnce(s: seq<string>, n: string)
    requires forall i, j :: 0 <= i < j < |s| ==> s[i] != s[j]
    requires n in s
    ensures multiset(s)[n] == 1
    decreases |s|
  {
    var last := s[|s| - 1];
    var rest := s[..|s| - 1];
    assert s == rest + [last];
    if last == n {
      assert n !in rest;
      assert multiset(rest)[n] == 0;
    } else {
      DistinctOccursOnce(rest, n);
    }
  }

  /** An element found at two positions is counted at least twice. */
  lemma TwiceCounted(r: seq<string>, i: int, j: int)
    requires 0 <= i < j < |r| && r[i] == r[j]
    ensures multiset(r)[r[i]] >= 2
  {
    assert r == r[..i] + [r[i]] + r[i + 1..j] + [r[j]] + r[j + 1..];
  }

  /**
   * `_sylt`: store `(args, kwargs)` under the name built from the caller's
   * file, the function's name and the current time (replacing any entry of
   * that name), and register the name as a placeholder.
   */
  method Sylt(s: Sylted, callerPath: string, funcName: string, now: DateTime, args: seq<Value>, kwargs: Kwargs)
    returns (name: string)
    requires Valid(now)
    modifies s, s.dir
    ensures name == EntryName(CallerStem(callerPath), funcName, now)
    ensures s.dir.files == old(s.dir.files)[name := Payload(args, kwargs)]
    ensures s.attrs == old(s.attrs)[name := Ellipsis]
    ensures s.Get(name) == Ok(Payload(args, kwargs))
    ensures old(s.Indexed()) ==> s.Indexed()
  {
    var filename := CallerStem(callerPath);
    name := EntryName(filename, funcName, now);
    var payload := Payload(args, kwargs);
    s.dir.files := s.dir.files[name := payload];
    s.attrs := s.attrs[name := Ellipsis];
    assert s.Get(name) == Ok(payload);
    if old(s.Indexed()) {
      forall n | n in s.dir.files ensures n in s.attrs && s.attrs[n] == Ellipsis {
        if n != name {
          assert n in old(s.dir.files);
        }
      }
    }
  }

  /**
   * Capturing a call and then asking for the latest entry gives back exactly
   * the captured arguments, provided every entry already stored is older and
   * the name's stem and function name hold no digit.
   */
  method CaptureThenLatest(s: Sylted, callerPath: string, funcName: string, now: DateTime,
                           args: seq<Value>, kwargs: Kwargs, listing: seq<string>)
    returns (r: Result<Option<Value>, Failure>)
    requires Valid(now) && NoDigits(CallerStem(callerPath)) && NoDigits(funcName)
    requires forall n :: n in s.dir.files ==> ParseTime(n).Ok? && Before(TimeOf(n), now)
    requires Enumerates(listing, s.dir.files.Keys + {EntryName(CallerStem(callerPath), funcName, now)})
    modifies s, s.dir
    ensures r == Ok(Some(Payload(args, kwargs)))
  {
    ghost var before := s.dir.files.Keys;
    assert forall n :: n in before ==> ParseTime(n).Ok? && Before(TimeOf(n), now);
    EntryNameRoundTrip(CallerStem(callerPath), funcName, now);
    var name := Sylt(s, callerPath, funcName, now, args, kwargs);
    s.AddedEntryIsLatest(listing, name, now, before);
    r := s.Latest(listing, "");
  }

  /**
   * The `sylt` decorator's wrapper: capture the call, then return what the
   * decorated function returns for the same arguments.
   */
  method Wrapper(s: Sylted, f: (seq<Value>, Kwargs) -> Value, funcName: string, callerPath: string,
                 now: DateTime, args: seq<Value>, kwargs: Kwargs)
    returns (result: Value)
    requires Valid(now)
    modifies s, s.dir
    ensures result == f(args, kwargs)
    ensures var name := EntryName(CallerStem(callerPath), funcName, now);
      s.dir.files == old(s.dir.files)[name := Payload(args, kwargs)] &&
      s.attrs == old(s.attrs)[name := Ellipsis]
  {
    var _ := Sylt(s, callerPath, funcName, now, args, kwargs);
    result := f(args, kwargs);
  }

  /** `a + b` on two integers; anything else is outside the example. */
  function Add(args: seq<Value>, kwargs: Kwargs): Value {
    if |args| == 2 && args[0].Int? && args[1].Int? then Int(args[0].i + args[1].i) else NoneValue
  }

  /** The example in tests/test_sylte.py: a decorated `add(3, 7)` still returns 10, and its arguments are stored. */
  method DecoratedAdd(s: Sylted, callerPath: string, now: DateTime) returns (result: Value)
    requires Valid(now)
    modifies s, s.dir
    ensures result == Int(10)
    ensures EntryName(CallerStem(callerPath), "add", now) in s.dir.files
    ensures s.dir.files[EntryName(CallerStem(callerPath), "add", now)] == Payload([Int(3), Int(7)], [])
  {
    result := Wrapper(s, Add, "add", callerPath, now, [Int(3), Int(7)], []);
  }

  /** The example in tests/test_sylte.py: both stored names become placeholders of a new index. */
  method IndexExample(a: string, b: string) returns (s: Sylted)
    requires a == "test_sylte-func-2022-01-14-15-16-00" && b == "test_sylte-func-2022-01-14-15-16-01"
    ensures a in s.attrs && s.attrs[a] == Ellipsis
    ensures b in s.attrs && s.attrs[b] == Ellipsis
  {
    var d := new Directory(map[a := Tuple([Tuple([]), Dict([])]), b := Tuple([Tuple([]), Dict([])])]);
    s := new Sylted(d, map[]);
  }
}
