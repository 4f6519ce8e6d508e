/** An optional value and the "first element satisfying a test" search that the source performs with
    `Array.prototype.find`, a `for … of` loop with an early `return`, or a loop with `break`. */
module Optional {

  datatype Option<+T> = None | Some(value: T)

  /** The index of the first element of `s` that satisfies `f`, or None when no element does. */
  function FirstIndex<T>(s: seq<T>, f: T -> bool): (r: Option<nat>)
    ensures r.Some? ==> r.value < |s| && f(s[r.value])
    ensures r.Some? ==> forall j :: 0 <= j < r.value ==> !f(s[j])
    ensures r.None? <==> forall j :: 0 <= j < |s| ==> !f(s[j])
  {
    if |s| == 0 then None
    else if f(s[0]) then Some(0)
    else
      match FirstIndex(s[1..], f)
      case None => None
      case Some(k) => Some(k + 1)
  }
}
