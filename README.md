# sylte — entry names, chronological selection and the lazy index

sylte is a decorator that records ("sylts") the positional and keyword
arguments of every call of a decorated function. Each call's arguments go to
a pickle file in a cache directory. The file is named
`{caller file stem}-{function name}-{YYYY-MM-DD-HH-MM-SS}.pickle`. A
namespace object, `sylted`, exposes every stored entry as an attribute that
is loaded from disk when it is read. This project models the core of
`sylte/_sylte.py` in Dafny and proves properties of that model:

* **Identifier codec** (`stamp.dfy`, `naming.dfy`).
  * The timestamp is written with `%Y-%m-%d-%H-%M-%S`.
  * `_sylte_time` reads the timestamp back by searching for the leftmost
    run shaped `\d{4}-\d{2}-\d{2}-\d{2}-\d{2}-\d{2}`. It then checks that run
    as a calendar date-time.
  * The caller's stem is `splitext(basename(path))[0]`.
  * The entry name is the stem, the function name and the timestamp,
    joined by hyphens.
* **Chronological selection** (`chrono.dfy`).
  * `_latest` picks the later of two names.
  * `_Sylted.list` is a stable sort of the listed names by parsed time.
  * `_Sylted.latest` keeps the sorted names that contain a substring and
    takes the last of them.
* **Store and lazy index** (`store.dfy`).
  * The cache directory is a class holding a map from entry name to
    payload.
  * `_Sylted` is a class holding the attribute map, in which the
    placeholder `...` stands for "load from the directory".
  * The store layer covers:
    * construction;
    * attribute lookup and `__call__`;
    * `list`, `latest` and `clear` (including the `delattr` loop);
    * `_sylt`;
    * the decorator's wrapper.

Supporting modules:
* `outcomes.dfy` holds `Option` and `Result`, and the three exceptions the
  core can raise: `AttributeError`, `ValueError` and `FileNotFoundError`.
* `values.dfy` holds a representative subset of the Python values a call can
  pass (`...`, None, integers, strings, tuples, lists and dicts; no
  booleans, floats, bytes, sets or other objects), and the pickled
  `(args, kwargs)` pair.

Where inputs come from:
* Python's `datetime.now()` and the stack inspection become parameters.
* The order in which `glob` yields the files becomes a parameter too: a
  sequence `listing` that names every stored entry exactly once
  (`Store.Enumerates`).

Behaviours of the code that the model keeps:
* `list()` takes no argument (sylte/_sylte.py:51); only `latest()` filters
  by a substring.
* When two entries have the same time, `latest()` returns the one that the
  directory listing yields later (sylte/_sylte.py:53-61). `sorted` is
  stable, so this winner is well defined.
* Looking up a name that was never stored raises `AttributeError`
  (sylte/_sylte.py:41).
* `clear()` deletes no attribute (sylte/_sylte.py:70), as the next
  paragraph explains.

`clear()` deletes the files and then deletes the attributes that `list()`
names. By then the directory is empty, so `list()` names nothing, and no
attribute is deleted. The model reproduces this behaviour:
`Store.Sylted.Clear` proves that the attribute map is unchanged. It also
proves that, while the index was coherent (every stored entry held as a
placeholder), every former entry now fails to load with
`FileNotFoundError`. A stored name this index never registered (one written
through another `Sylted` over the same directory) raises `AttributeError`
instead, and an attribute overwritten with a value other than the
placeholder still returns that value.

## Model

| member | source | states |
|---|---|---|
| `Stamp.PaddedRoundTrip` | sylte/_sylte.py:13 | a number below 10^width, zero-padded to `width` digits, is `width` decimal digits that read back as the number |
| `Stamp.DecimalRoundTrip` | sylte/_sylte.py:27 | a run of digits reads as a number below 10^length that pads back to the same run |
| `Stamp.Valid` | sylte/_sylte.py:27 | the fields `strptime` and `datetime` accept: year 1 to 9999, month 1 to 12, day within the month under the Gregorian leap rule, hour below 24, minute and second below 60 |
| `Stamp.Before` | sylte/_sylte.py:32 | datetime `<`: the first differing field, in the order year, month, day, hour, minute, second, decides |
| `Stamp.Format` | sylte/_sylte.py:13 | `strftime(DT_FMT)` is 19 characters with hyphens at the five separator positions; `Stamp.FormatDecodes` gives its full shape and its inverse |
| `Stamp.DecodeFields` | sylte/_sylte.py:27 | the six numbers of a timestamp-shaped run, each bounded by its digit count (year below 10000, the others below 100), before any range check |
| `Stamp.Search` | sylte/_sylte.py:26 | `re.search`: the first position at or after `from` where the 4-2-2-2-2-2 digit pattern matches, with no match before it; None exactly when no position matches |
| `Stamp.FormatDecodes` | sylte/_sylte.py:13 | `strftime(DT_FMT)` of a valid date-time has the searched-for shape, and its six fields decode back to exactly that date-time |
| `Stamp.DecodeFormats` | sylte/_sylte.py:27 | a pattern-shaped run whose fields form a valid date-time is exactly the formatting of those fields, so parsing and formatting are inverse |
| `Stamp.ParseTime` | sylte/_sylte.py:25-27 | `_sylte_time` fails only with AttributeError (no match, `None.group()`) or ValueError (strptime/datetime rejects the fields); a success is a valid calendar date-time |
| `Stamp.ParseTimeReadsLeftmostMatch` | sylte/_sylte.py:25-27 | AttributeError exactly when the pattern matches nowhere; ValueError exactly when the leftmost match has out-of-range fields; otherwise the result formats back to the leftmost match |
| `Naming.BaseName` | sylte/_sylte.py:78 | `os.path.basename`: the longest suffix of the path without '/', preceded by '/' when it is shorter than the path |
| `Naming.DropExtension` | sylte/_sylte.py:78 | `os.path.splitext(...)[0]`: a prefix of the name, cut at its last dot unless only dots precede that dot; unchanged exactly when there is no such dot |
| `Naming.CallerStem` | sylte/_sylte.py:78 | the stem is a prefix of the caller file's base name and holds no '/' |
| `Naming.EntryName` | sylte/_sylte.py:77-79 | the entry name is the stem, a hyphen, the function name, a hyphen and the formatted time, each at its own position |
| `Naming.ParseAfterPlainPrefix` | sylte/_sylte.py:25-27 | after a digit-free prefix, a pattern-shaped run is the one parsed: its fields if valid, ValueError if not |
| `Naming.EntryNameRoundTrip` | sylte/_sylte.py:77-79 | parsing the time out of `stem-func-strftime(t)` gives back exactly `t` for every valid `t`, when neither the stem nor the function name holds a digit |
| `Naming.SampleNameParses` | tests/test_sylte.py:13-16 | "test_sylte-func-2022-01-14-15-16-37" parses to 2022-01-14 15:16:37 |
| `Naming.EarlierSampleParses` | tests/test_sylte.py:19-25 | "test_sylte-func-2022-01-14-15-16-39" parses to 2022-01-14 15:16:39 |
| `Naming.LaterSampleParses` | tests/test_sylte.py:19-25 | "test_sylte-func-2022-01-14-15-16-40" parses to 2022-01-14 15:16:40 |
| `Naming.MonthThirteenFails` | sylte/_sylte.py:27 | month 13 matches the pattern but raises ValueError |
| `Naming.HourTwentyFourFails` | sylte/_sylte.py:27 | hour 24 matches the pattern but raises ValueError |
| `Naming.FebruaryThirtiethFails` | sylte/_sylte.py:27 | 30 February raises ValueError after any digit-free prefix |
| `Naming.LeapDayParses` | sylte/_sylte.py:27 | 29 February 2024 is accepted |
| `Naming.NoStampFails` | sylte/_sylte.py:26 | a name with no timestamp raises AttributeError |
| `Chrono.BeforeTotal` | sylte/_sylte.py:32 | datetime comparison is irreflexive, asymmetric and total on distinct date-times |
| `Chrono.BeforeTransitive` | sylte/_sylte.py:32 | datetime comparison is transitive |
| `Chrono.Later` | sylte/_sylte.py:30-32 | `_latest` raises `a`'s parse error first, then `b`'s; otherwise returns one of the two, never earlier than either, and `b` on a tie |
| `Chrono.LaterIgnoresOrder` | sylte/_sylte.py:30-32 | for distinct times the argument order does not matter and the strictly later name wins |
| `Chrono.SampleLater` | tests/test_sylte.py:19-25 | of the names ending 15-16-39 and 15-16-40, the latter wins in both argument orders |
| `Chrono.Insert` | sylte/_sylte.py:52-54 | inserting into a stably ordered sequence keeps it ordered by (time, listing position) and adds exactly the inserted entry |
| `Chrono.InsertNames` | sylte/_sylte.py:52-54 | insertion adds exactly the inserted entry's name to the multiset of names |
| `Chrono.Sort` | sylte/_sylte.py:52-54 | the sort by time is ordered by (time, listing position) and is a permutation, of entries and of names |
| `Chrono.StableOrderUnique` | sylte/_sylte.py:52-54 | two arrangements of the same entries that are both ordered by (time, position) are equal, so the stable order is unique |
| `Chrono.FirstFailure` | sylte/_sylte.py:52-54 | when some listed name does not parse, the error raised is that of the first such name in listing order |
| `Chrono.Chronological` | sylte/_sylte.py:52-54 | succeeds exactly when every listed name parses, else raises the first failure; the result is stably ordered and a permutation of the tagged listing |
| `Chrono.ListNames` | sylte/_sylte.py:50-55 | `list()` succeeds exactly when every name parses; the result is a permutation of the listing in ascending time, and it is the names of the stable order |
| `Chrono.ListIsTheStableSort` | sylte/_sylte.py:52-54 | any arrangement of the listing ordered by time, with ties in listing order, is what `list()` returns |
| `Chrono.EmptyIsInEveryName` | sylte/_sylte.py:57 | the default empty substring is contained in every name |
| `Chrono.Filter` | sylte/_sylte.py:59 | the comprehension keeps exactly the names that contain the substring |
| `Chrono.Matching` | sylte/_sylte.py:59 | the same filter over tagged entries keeps exactly the entries whose name contains the substring |
| `Chrono.MatchingKeepsOrder` | sylte/_sylte.py:59 | filtering a stably ordered sequence leaves it stably ordered |
| `Chrono.MatchingNames` | sylte/_sylte.py:59 | filtering tagged entries and then dropping tags is filtering the names |
| `Chrono.LastMatchIsLatest` | sylte/_sylte.py:59-61 | the last matching sorted entry is a listed name that contains the substring and that no matching name follows in (time, position) order |
| `Chrono.NothingFiltered` | sylte/_sylte.py:59-60 | the filtered list is empty exactly when no listed name contains the substring |
| `Chrono.LastFiltered` | sylte/_sylte.py:59-61 | otherwise the last filtered name is the latest match |
| `Chrono.LatestName` | sylte/_sylte.py:57-64 | succeeds exactly when every name parses; None exactly when no name contains the substring; otherwise the latest matching name |
| `Store.Directory.constructor` | sylte/_sylte.py:12 | the cache directory holds exactly the given entries, one payload per entry name |
| `Store.Sylted.constructor` | sylte/_sylte.py:36-38 | the index is the given attributes with every stored name set (or overridden) to the placeholder, so every stored entry is indexed |
| `Store.Sylted.Get` | sylte/_sylte.py:40-48 | an unknown name raises AttributeError; a placeholder loads the stored payload, or raises FileNotFoundError when no file exists; any other value is returned as it is |
| `Store.Sylted.StoredEntriesLoad` | sylte/_sylte.py:40-45 | while every stored entry is indexed as a placeholder, looking it up returns its stored payload |
| `Store.Sylted.List` | sylte/_sylte.py:50-55 | over the directory, `list()` succeeds exactly when every stored name parses and then names each stored entry exactly once, in ascending time and in the stable order |
| `Store.Sylted.Latest` | sylte/_sylte.py:57-64 | `latest()` is None exactly when no stored name contains the substring; otherwise it returns the stored payload of the latest matching name |
| `Store.Sylted.LatestOfAll` | sylte/_sylte.py:57-64 | with the default substring, `latest()` is None exactly when the directory is empty |
| `Store.Sylted.NewestEntryIsLatest` | sylte/_sylte.py:57-64 | an entry strictly newer than all others is the one `latest()` loads |
| `Store.Sylted.Clear` | sylte/_sylte.py:66-70 | `clear()` removes every file and raises nothing; afterwards `list()` is empty and the index is unchanged; if every stored entry was held as a placeholder, every former entry now fails to load with FileNotFoundError |
| `Store.Sylted.DeleteAttrs` | sylte/_sylte.py:70 | the `delattr` loop succeeds exactly when the names are distinct attributes, and then removes exactly them; otherwise it raises AttributeError at the first name that is no longer an attribute, with the names before it already removed; remaining attributes keep their values |
| `Store.Sylt` | sylte/_sylte.py:76-83 | `_sylt` writes the payload under `stem-func-time`, overwriting any entry of that name, sets only that index key to the placeholder, keeps the index coherent, and the entry then loads as the payload |
| `Store.CaptureThenLatest` | sylte/_sylte.py:76-83 | capturing a call newer than every stored entry and then calling `latest()` returns exactly the captured `(args, kwargs)` |
| `Store.Wrapper` | sylte/_sylte.py:94-96 | the wrapper returns what the function returns for the same arguments, after storing the call |
| `Store.DecoratedAdd` | tests/test_sylte.py:38-45 | a decorated `add(3, 7)` returns 10 and stores the payload `((3, 7), {})` under its entry name |
| `Store.IndexExample` | tests/test_sylte.py:28-35 | both stored names are index keys holding the placeholder after construction |

## Left out

- Filesystem calls are not modelled: `glob`, `open`, `os.remove`, `os.makedirs` and `_ensure_dir_exists` (sylte/_sylte.py:16-22), with its race guard. The directory is a map, and the glob order is an arbitrary enumeration passed in.
- Pickling is not modelled. A payload is a `Value` that is stored and loaded unchanged. Non-pickle files in the directory are outside the model.
- `datetime.now()` and `inspect.stack()[2]` become the `now` and `callerPath` parameters.
- The `SYLTE_CACHE_DIR` environment lookup (sylte/_sylte.py:12) is left out.
- The module-level `sylted` singleton (sylte/_sylte.py:73) is left out. A `Sylted` object is passed explicitly instead.
- `SimpleNamespace` attribute dispatch and `functools.wraps` are left out. Attributes are an explicit map, so entry names that collide with the methods `list`, `latest` or `clear`, or with other class attributes, are not modelled.
- The decorated function is a total Dafny function, so a function that raises after its call was stored is not modelled.
- `Stamp.ParseTime`: digits are ASCII only. Python's `\d` and `int` also accept other Unicode decimal digits, which the model does not.
- `Stamp.Format` always pads the year to four digits. On platforms whose C `strftime` does not pad years below 1000, such names have fewer than four year digits and no longer match the pattern, so `Naming.EntryNameRoundTrip` holds there only for years 1000 to 9999.
- `Naming.EntryNameRoundTrip` requires digit-free stems and function names. That is sufficient, not necessary: a stem that itself contains a timestamp-shaped run would be parsed instead of the capture time.
- `Naming.BaseName` and `Naming.DropExtension` compute stems with POSIX `os.path` semantics: '/' is the only separator and there are no drive letters. On Windows, `os.path` is `ntpath`, which also splits at `\` and after a drive colon; the model would keep such a directory part in the stem.
- `Store.Sylted.Get` compares with the placeholder by structural equality. User objects with a custom `__eq__` that equals `...` are not modelled.
- `Store.Sylted.Clear` does not model failures of `os.remove`. The `delattr` failure branch is modelled in `DeleteAttrs`, but `clear` never reaches it.
