/** Shared helpers: an optional value and the first-match search that models
    every "first row that satisfies a condition" lookup of the authenticator. */
module Common {

  /** PHP's `null` versus a present value. */
  datatype Option<+T> = None | Some(value: T)

  /** Index of the first element of `s` that satisfies `p`, or None when no
      element does. The contract determines the result completely. */
  function FindFirst<T>(s: seq<T>, p: T -> bool): (r: Option<nat>)
    ensures r.Some? ==> r.value < |s| && p(s[r.value])
    ensures r.Some? ==> forall j :: 0 <= j < r.value ==> !p(s[j])
    ensures r.None? <==> forall j :: 0 <= j < |s| ==> !p(s[j])
    decreases |s|
  {
    if |s| == 0 then None
    else if p(s[0]) then Some(0)
    else
      match FindFirst(s[1..], p)
      case None => None
      case Some(i) => Some(i + 1)
  }

  /** Any index that matches and has no match before it is the one FindFirst returns. */
  lemma FindFirstUnique<T>(s: seq<T>, p: T -> bool, i: nat)
    requires i < |s| && p(s[i])
    requires forall j :: 0 <= j < i ==> !p(s[j])
    ensures FindFirst(s, p) == Some(i)
  {
  }

  /** Replacing an element by one that agrees on `p` leaves the first match where it was. */
  lemma FindFirstUpdate<T>(s: seq<T>, p: T -> bool, i: nat, x: T)
    requires i < |s| && p(x) == p(s[i])
    ensures FindFirst(s[i := x], p) == FindFirst(s, p)
  {
    var s' := s[i := x];
    assert forall j :: 0 <= j < |s| ==> p(s'[j]) == p(s[j]);
    match FindFirst(s, p)
    case None =>
      assert forall j :: 0 <= j < |s'| ==> !p(s'[j]);
    case Some(k) =>
      FindFirstUnique(s', p, k);
  }
}
