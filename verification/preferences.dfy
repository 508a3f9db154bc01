/** The platform's key-value preference store, reduced to what the settings
    cache observes: the current entries and the sequence of committed edits.
    Each setter in the settings cache commits at most one edit, so the length
    of the log counts its writes. */
module Preferences {
  import opened Lang

  /** The three kinds of value the settings cache stores. */
  datatype Value = BoolValue(b: bool) | StringValue(s: string) | IntValue(i: int)

  /** One committed edit of `key`: `NonNull(v)` stores `v`, `Null` removes the key. */
  datatype Edit = Edit(key: string, value: Nullable<Value>)

  datatype Store = Store(entries: map<string, Value>, log: seq<Edit>)

  /** What the store holds under `key`, `Null` when nothing. */
  function Lookup(st: Store, key: string): Nullable<Value> {
    if key in st.entries then NonNull(st.entries[key]) else Null
  }

  /** `b` holds the same entries as `a` under every key other than `key`. */
  ghost predicate AgreeExcept(a: Store, b: Store, key: string) {
    forall k :: k != key ==> Lookup(b, k) == Lookup(a, k)
  }

  /** Applies and logs one edit; a `Null` value removes the key, as
      `putString(key, null)` does on the platform. */
  function Commit(st: Store, key: string, v: Nullable<Value>): (r: Store)
    ensures Lookup(r, key) == v
    ensures AgreeExcept(st, r, key)
    ensures r.log == st.log + [Edit(key, v)]
  {
    var entries := match v
      case NonNull(x) => st.entries[key := x]
      case Null => st.entries - {key};
    Store(entries, st.log + [Edit(key, v)])
  }

  /** `getBoolean(key, default)`: the default when the key is absent, and a
      ClassCastException when it holds a value of another kind. */
  function GetBoolean(st: Store, key: string, default: bool): (r: Result<bool>)
    ensures r.Ok? <==> Lookup(st, key).Null? || Lookup(st, key).value.BoolValue?
    ensures r.Ok? && Lookup(st, key).NonNull? ==> Lookup(st, key) == NonNull(BoolValue(r.value))
    ensures Lookup(st, key).Null? ==> r == Ok(default)
  {
    match Lookup(st, key)
    case Null => Ok(default)
    case NonNull(BoolValue(b)) => Ok(b)
    case NonNull(_) => Throw(ClassCast(key))
  }

  /** `getString(key, default)`, with the same conventions as GetBoolean. */
  function GetString(st: Store, key: string, default: string): (r: Result<string>)
    ensures r.Ok? <==> Lookup(st, key).Null? || Lookup(st, key).value.StringValue?
    ensures r.Ok? && Lookup(st, key).NonNull? ==> Lookup(st, key) == NonNull(StringValue(r.value))
    ensures Lookup(st, key).Null? ==> r == Ok(default)
  {
    match Lookup(st, key)
    case Null => Ok(default)
    case NonNull(StringValue(s)) => Ok(s)
    case NonNull(_) => Throw(ClassCast(key))
  }

  /** `getInt(key, default)`, with the same conventions as GetBoolean. */
  function GetInt(st: Store, key: string, default: int): (r: Result<int>)
    ensures r.Ok? <==> Lookup(st, key).Null? || Lookup(st, key).value.IntValue?
    ensures r.Ok? && Lookup(st, key).NonNull? ==> Lookup(st, key) == NonNull(IntValue(r.value))
    ensures Lookup(st, key).Null? ==> r == Ok(default)
  {
    match Lookup(st, key)
    case Null => Ok(default)
    case NonNull(IntValue(i)) => Ok(i)
    case NonNull(_) => Throw(ClassCast(key))
  }
}
