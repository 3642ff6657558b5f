/** Searching a sequence from the front, as JavaScript's `Array.prototype.findIndex`
    and `indexOf` do. */
module Sequences {

  /** The index of the first element of `s` that satisfies `p`, or -1 if there is none. */
  function FindIndex<T>(s: seq<T>, p: T -> bool): (k: int)
    ensures -1 <= k < |s|
    ensures 0 <= k ==> p(s[k]) && forall j :: 0 <= j < k ==> !p(s[j])
    ensures k == -1 <==> forall j :: 0 <= j < |s| ==> !p(s[j])
  {
    if s == [] then -1
    else if p(s[0]) then 0
    else
      var k := FindIndex(s[1..], p);
      if k < 0 then -1 else k + 1
  }
}
