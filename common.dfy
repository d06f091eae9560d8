/** Small shared vocabulary: an optional value and the "first element that matches" search that
    MongoDB's findOne/findById and JavaScript's Array.prototype.findIndex all perform. */
module Common {

  datatype Option<+T> = None | Some(value: T)

  /** Index of the first element of `s` satisfying `matches`, or None when there is none. */
  function FirstIndex<T>(s: seq<T>, matches: T -> bool): (r: Option<nat>)
    ensures r.Some? ==> r.value < |s| && matches(s[r.value])
    ensures r.Some? ==> forall j :: 0 <= j < r.value ==> !matches(s[j])
    ensures r.None? <==> forall j :: 0 <= j < |s| ==> !matches(s[j])
    decreases |s|
  {
    if s == [] then None
    else if matches(s[0]) then Some(0)
    else match FirstIndex(s[1..], matches)
      case None => None
      case Some(k) => Some(k + 1)
  }
}
