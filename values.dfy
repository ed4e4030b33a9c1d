/**
 * A representative subset of the Python values a captured call can carry:
 * `...`, None, integers, strings, tuples, lists and dicts. Booleans, floats,
 * bytes, sets and arbitrary objects are not represented. Pickling is exact,
 * so a value is stored and loaded unchanged.
 */
module Values {

  datatype Value =
    | Ellipsis                            // `...`, also the index's "not yet loaded" marker
    | NoneValue
    | Int(i: int)
    | Str(s: string)
    | Tuple(items: seq<Value>)
    | List(items: seq<Value>)
    | Dict(entries: seq<(Value, Value)>)  // in insertion order

  /** Keyword arguments, in the order the call passed them. */
  type Kwargs = seq<(string, Value)>

  /** The pickled `(args, kwargs)` pair of one call. */
  function Payload(args: seq<Value>, kwargs: Kwargs): Value
  {
    Tuple([Tuple(args), Dict(seq(|kwargs|, i requires 0 <= i < |kwargs| => (Str(kwargs[i].0), kwargs[i].1)))])
  }
}
