/** The few PHP built-ins whose exact behaviour the authenticator depends on. */
module Php {
  import opened Common

  /** PHP's `empty()` applied to a string-valued array entry: a missing key,
      the empty string and the string "0" all count as empty. */
  function IsEmpty(v: Option<string>): (r: bool)
    ensures v.None? ==> r
    ensures v.Some? && |v.value| == 0 ==> r
    ensures v.Some? && |v.value| == 1 ==> (r <==> v.value[0] == '0')
    ensures v.Some? && |v.value| > 1 ==> !r
  {
    v.None? || v.value == "" || v.value == "0"
  }

  /** Only the missing value, "" and "0" are empty: "00", "0.0" and " " are not. */
  lemma EmptyStrings()
    ensures IsEmpty(None) && IsEmpty(Some("")) && IsEmpty(Some("0"))
    ensures !IsEmpty(Some("00")) && !IsEmpty(Some("0.0")) && !IsEmpty(Some(" "))
  {
  }

  /** PHP's `implode`: the parts joined with `sep` between neighbours. */
  function Implode(sep: char, parts: seq<string>): (s: string)
    requires |parts| >= 1
    ensures parts[0] <= s
    decreases |parts|
  {
    if |parts| == 1 then parts[0] else parts[0] + [sep] + Implode(sep, parts[1..])
  }

  /** The first part of a join ends at the end of the string or at a separator. */
  lemma ImplodeFirstPartEnds(sep: char, parts: seq<string>)
    requires |parts| >= 1
    ensures |parts| == 1 ==> Implode(sep, parts) == parts[0]
    ensures |parts| > 1 ==> |Implode(sep, parts)| > |parts[0]| && Implode(sep, parts)[|parts[0]|] == sep
  {
  }

  /** PHP's `explode` with no limit: the maximal `sep`-free segments of `s`,
      in order. Joining them again gives back `s`. */
  function Explode(sep: char, s: string): (parts: seq<string>)
    ensures |parts| >= 1
    ensures forall i :: 0 <= i < |parts| ==> sep !in parts[i]
    ensures Implode(sep, parts) == s
    decreases |s|
  {
    match FindFirst(s, c => c == sep)
    case None => [s]
    case Some(i) =>
      assert s == s[..i] + [sep] + s[i + 1..];
      [s[..i]] + Explode(sep, s[i + 1..])
  }

  /** The other direction of the round trip: splitting a join of `sep`-free
      parts gives back exactly those parts. */
  lemma {:induction false} ExplodeImplode(sep: char, parts: seq<string>)
    requires |parts| >= 1
    requires forall i :: 0 <= i < |parts| ==> sep !in parts[i]
    ensures Explode(sep, Implode(sep, parts)) == parts
    decreases |parts|
  {
    var s := Implode(sep, parts);
    var p := (c: char) => c == sep;
    if |parts| == 1 {
      assert sep !in parts[0];
      assert forall j :: 0 <= j < |s| ==> !p(s[j]);
    } else {
      var head := parts[0];
      var tail := parts[1..];
      var rest := Implode(sep, tail);
      assert s == head + [sep] + rest;
      assert sep !in head;
      assert forall j :: 0 <= j < |head| ==> s[j] == head[j];
      FindFirstUnique(s, p, |head|);
      assert s[..|head|] == head;
      assert s[|head| + 1..] == rest;
      ExplodeImplode(sep, tail);
      assert Explode(sep, s) == [head] + tail;
    }
  }
}
