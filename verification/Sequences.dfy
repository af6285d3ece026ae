/** Sequences with a range of entries replaced. */
module Sequences {
  /** The sequence with its entries at lo .. hi - 1 replaced by one value. */
  function Overwritten<T>(s: seq<T>, lo: nat, hi: nat, value: T): (r: seq<T>)
    ensures |r| == |s|
  {
    seq(|s|, i requires 0 <= i < |s| => if lo <= i < hi then value else s[i])
  }

  lemma OverwrittenNone<T>(s: seq<T>, lo: nat, value: T)
    ensures Overwritten(s, lo, lo, value) == s
  {
  }

  lemma OverwrittenTwice<T>(s: seq<T>, lo: nat, mid: nat, hi: nat, value: T)
    requires lo <= mid <= hi
    ensures Overwritten(Overwritten(s, lo, mid, value), mid, hi, value) == Overwritten(s, lo, hi, value)
  {
  }
}
