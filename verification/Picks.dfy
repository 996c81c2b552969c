/** The part of a sequence that some positions of it pick out, in order. */
module Picks {
  ghost predicate Ascending(at: seq<nat>) { forall k, l :: 0 <= k < l < |at| ==> at[k] < at[l] }

  ghost predicate IsPick<T>(s: seq<T>, at: seq<nat>, r: seq<T>) {
    |r| == |at| && Ascending(at) && forall k :: 0 <= k < |at| ==> at[k] < |s| && r[k] == s[at[k]]
  }

  lemma AscendingSnoc(at: seq<nat>, n: nat)
    requires Ascending(at) && forall k :: 0 <= k < |at| ==> at[k] < n
    ensures Ascending(at + [n]) && forall i :: i in at + [n] <==> i in at || i == n
  {
  }

  /** A pick from all but the last element, with or without that element. */
  lemma PickLast<T>(s: seq<T>, at: seq<nat>, r: seq<T>)
    requires s != [] && IsPick(s[..|s| - 1], at, r)
    ensures IsPick(s, at, r) && IsPick(s, at + [|s| - 1], r + [s[|s| - 1]])
  {
    AscendingSnoc(at, |s| - 1);
  }
}
