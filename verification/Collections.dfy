/** An optional value, and lists without repetition. */
module Collections {
  datatype Option<+T> = None | Some(value: T)

  ghost predicate NoDuplicates<T>(s: seq<T>) {
    forall i, j :: 0 <= i < j < |s| ==> s[i] != s[j]
  }

  /** The second list is what the first one has at the places, which ascend. */
  ghost predicate Picked<T>(s: seq<T>, places: seq<nat>, r: seq<T>) {
    && |r| == |places|
    && (forall j :: 0 <= j < |places| ==> places[j] < |s| && r[j] == s[places[j]])
    && forall j, k :: 0 <= j < k < |places| ==> places[j] < places[k]
  }

  lemma PickedNone<T>()
    ensures Picked<T>([], [], [])
  {
  }

  lemma PickedMore<T>(s: seq<T>, places: seq<nat>, r: seq<T>, x: T)
    requires Picked(s, places, r)
    ensures Picked(s + [x], places, r) && Picked(s + [x], places + [|s|], r + [x])
  {
  }

  lemma PickedMeans<T>(s: seq<T>, places: seq<nat>, r: seq<T>)
    requires Picked(s, places, r)
    ensures |r| == |places| && forall j :: 0 <= j < |places| ==> places[j] < |s| && r[j] == s[places[j]]
    ensures forall j, k :: 0 <= j < k < |places| ==> places[j] < places[k]
  {
  }

  /** The numbers in reverse order. */
  function Reversed(s: seq<nat>): (r: seq<nat>)
    ensures |r| == |s| && forall i :: 0 <= i < |s| ==> r[i] == s[|s| - 1 - i]
  {
    seq(|s|, i requires 0 <= i < |s| => s[|s| - 1 - i])
  }

  /** The numbers below n. */
  function UpTo(n: nat): (s: set<nat>)
    ensures |s| == n && forall v: nat :: v in s <==> v < n
  {
    if n == 0 then {} else UpTo(n - 1) + {n - 1}
  }
}
