/** `UserDefaults` as the managers use it: a map from key to a stored value.
    An `[Int]` array that was built from a `Set<Int>` is stored as a set,
    because the array's order is unspecified and every reader turns it back
    into a set. */
module Defaults {
  import opened Wrappers

  datatype Value = IntArray(items: seq<int>) | IntSet(members: set<int>) | Text(text: string)

  type Store = map<string, Value>

  /** `array(forKey:) as? [Int]`, read in order. */
  function IntArrayAt(d: Store, key: string): (r: Option<seq<int>>)
    ensures r.Some? <==> key in d && d[key].IntArray?
  {
    if key in d && d[key].IntArray? then Some(d[key].items) else None
  }

  /** `array(forKey:) as? [Int]`, read into a `Set`. */
  function IntSetAt(d: Store, key: string): (r: Option<set<int>>)
    ensures r.Some? <==> key in d && (d[key].IntArray? || d[key].IntSet?)
  {
    if key !in d then None
    else match d[key]
      case IntArray(items) => Some(set x | x in items)
      case IntSet(members) => Some(members)
      case Text(_) => None
  }

  /** Every key and stored value other than `key` is as before. */
  ghost predicate SameElsewhere(d: Store, d': Store, key: string) {
    forall k :: k != key ==> (k in d' <==> k in d) && (k in d ==> d'[k] == d[k])
  }
}
