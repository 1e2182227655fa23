/** Shared vocabulary: an optional value, standing for a C reference that may be
    NULL, and the first position of a sequence that passes a test, which is the
    shape of every search loop in the slot manager. */
module Common {

  datatype Option<T> = None | Some(value: T)

  /** The lowest index of `s` whose element satisfies `p`, or None when no
      element does. */
  function FirstWhere<T>(s: seq<T>, p: T -> bool): (r: Option<nat>)
    ensures r.Some? ==> r.value < |s| && p(s[r.value])
    ensures r.Some? ==> forall j :: 0 <= j < r.value ==> !p(s[j])
    ensures r.None? <==> forall j :: 0 <= j < |s| ==> !p(s[j])
  {
    if s == [] then None
    else if p(s[0]) then Some(0)
    else match FirstWhere(s[1..], p)
      case None => None
      case Some(k) => Some(k + 1)
  }
}
