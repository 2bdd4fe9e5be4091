/** Optional values, used wherever the source may produce nothing: a
    rejected keypoint pair, an index past the end of the keypoint list, a
    label missing from the catalogue. */
module Wrappers {

  datatype Option<+T> = None | Some(value: T)

  /** The element at index `i`, or None when `i` is out of range. */
  function Get<T>(s: seq<T>, i: nat): (r: Option<T>)
    ensures r.Some? <==> i < |s|
    ensures r.Some? ==> r.value == s[i]
  {
    if i < |s| then Some(s[i]) else None
  }
}
