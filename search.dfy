/** Search by id, the `find((x) => x.id === id)` both pages use. */
module Search {
  import opened Wrappers

  /** The position of the first element whose key is `id`, or none when no
      element has it. */
  function FirstIndex<T>(xs: seq<T>, key: T -> string, id: string): (r: Option<nat>)
    ensures r.Some? ==> r.value < |xs| && key(xs[r.value]) == id
    ensures r.Some? ==> forall j :: 0 <= j < r.value ==> key(xs[j]) != id
    ensures r.None? ==> forall j :: 0 <= j < |xs| ==> key(xs[j]) != id
  {
    if xs == [] then None
    else if key(xs[0]) == id then Some(0)
    else match FirstIndex(xs[1..], key, id)
      case Some(k) => Some(k + 1)
      case None => None
  }
}
