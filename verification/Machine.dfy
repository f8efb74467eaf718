/** Unsigned machine integers of the modelled program, and two facts about sequences
    that several components need. */
module Machine {
  const TWO_32: int := 0x1_0000_0000
  const TWO_64: int := 0x1_0000_0000_0000_0000

  type u8 = x: int | 0 <= x < 0x100
  type u32 = x: int | 0 <= x < 0x1_0000_0000
  type u64 = x: int | 0 <= x < 0x1_0000_0000_0000_0000

  type bytes = seq<u8>

  datatype Option<T> = None | Some(value: T)

  /** The null pointer, for pointers modelled as indices into a pool. */
  const NIL: int := -1

  ghost predicate NoDup<T>(q: seq<T>) {
    forall i, j :: 0 <= i < j < |q| ==> q[i] != q[j]
  }

  /** `q` without its element at position `p`. */
  function RemoveAt<T>(q: seq<T>, p: nat): (r: seq<T>)
    requires p < |q|
    ensures |r| == |q| - 1
    ensures forall k :: 0 <= k < |r| ==> r[k] == q[if k < p then k else k + 1]
  {
    q[..p] + q[p + 1..]
  }

  /** Values without repetition, all drawn from a finite set, are no more than the set has. */
  lemma {:induction false} NoDupBound<T>(q: seq<T>, s: set<T>)
    requires NoDup(q)
    requires forall i :: 0 <= i < |q| ==> q[i] in s
    ensures |q| <= |s|
  {
    if q != [] {
      var last := |q| - 1;
      NoDupBound(q[..last], s - {q[last]});
    }
  }
}
