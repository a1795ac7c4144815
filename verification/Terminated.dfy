/** Lists that end at their first terminator. */
module Terminated {
  /** The elements before the first one that terminates the list. */
  function Before<T>(list: seq<T>, terminates: T -> bool): (r: seq<T>)
    ensures r <= list
    ensures forall k: nat | k < |r| :: !terminates(list[k])
    ensures |r| == |list| || terminates(list[|r|])
  {
    if list == [] || terminates(list[0]) then [] else [list[0]] + Before(list[1..], terminates)
  }

  /** The first terminator fixes it. */
  lemma {:induction false} BeforeFirst<T>(list: seq<T>, terminates: T -> bool, n: nat)
    requires n < |list| && terminates(list[n]) && forall k: nat | k < n :: !terminates(list[k])
    ensures Before(list, terminates) == list[..n]
  {
    if n > 0 {
      BeforeFirst(list[1..], terminates, n - 1);
      assert list[..n] == [list[0]] + list[1..][..n - 1];
    }
  }
}
