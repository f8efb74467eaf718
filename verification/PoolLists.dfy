/** The pool of order nodes and the intrusive lists threaded through it: level queues by
    `prev`/`next`, and the free list by the same `next` field. Pointers are pool indices. */
module PoolLists {
  import opened Machine
  import opened BookSpec
  import opened QueueLaws

  datatype Order = Order(id: u64, price: u64, quantity: u64, side: Side, prev: int, next: int)

  function LevelOfNode(o: Order): Level {
    Level(o.side, o.price)
  }

  datatype PriceLevel = PriceLevel(head: int, tail: int, totalVolume: u64)

  type Index = map<u64, nat>

  /** The node of the order at position `k` of a queue, or null off either end. */
  ghost function NodeAt(index: Index, q: seq<u64>, k: int): int {
    if 0 <= k < |q| && q[k] in index then index[q[k]] else NIL
  }

  /** The list of a level is exactly the queue `q`, forwards and backwards. */
  ghost predicate Linked(pool: seq<Order>, index: Index, q: seq<u64>, head: int, tail: int) {
    && NoDup(q)
    && head == NodeAt(index, q, 0)
    && tail == NodeAt(index, q, |q| - 1)
    && forall k :: 0 <= k < |q| ==>
        && q[k] in index && index[q[k]] < |pool| && pool[index[q[k]]].id == q[k]
        && pool[index[q[k]]].prev == NodeAt(index, q, k - 1)
        && pool[index[q[k]]].next == NodeAt(index, q, k + 1)
  }

  /** Nodes of the queue keep their links: the list is unaffected. */
  lemma LinkedFrame(pool: seq<Order>, pool': seq<Order>, index: Index, index': Index, q: seq<u64>, head: int, tail: int)
    requires Linked(pool, index, q, head, tail)
    requires |pool'| == |pool|
    requires forall k :: 0 <= k < |q| ==>
      && q[k] in index' && index'[q[k]] == index[q[k]]
      && pool'[index[q[k]]].id == q[k]
      && pool'[index[q[k]]].prev == pool[index[q[k]]].prev && pool'[index[q[k]]].next == pool[index[q[k]]].next
    ensures Linked(pool', index', q, head, tail)
  {
    assert forall k :: NodeAt(index', q, k) == NodeAt(index, q, k);
  }

  /** What `insert_order` does to the nodes, for a node not yet in the list. */
  function LinkLast(pool: seq<Order>, n: nat, tail: int): seq<Order>
    requires n < |pool| && -1 <= tail < |pool|
  {
    var p := pool[n := pool[n].(prev := tail, next := NIL)];
    if tail == NIL then p else p[tail := p[tail].(next := n)]
  }

  lemma LinkLastKeeps(pool: seq<Order>, index: Index, q: seq<u64>, id: u64, head: int, tail: int)
    requires Linked(pool, index, q, head, tail)
    requires id in index && index[id] < |pool| && pool[index[id]].id == id && id !in q
    ensures -1 <= tail < |pool|
    ensures Linked(LinkLast(pool, index[id], tail), index, q + [id], if tail == NIL then index[id] else head, index[id])
  {
    var n := index[id];
    var q' := q + [id];
    var pool' := LinkLast(pool, n, tail);
    forall k | 0 <= k < |q'|
      ensures q'[k] in index && index[q'[k]] < |pool'| && pool'[index[q'[k]]].id == q'[k]
      ensures pool'[index[q'[k]]].prev == NodeAt(index, q', k - 1)
      ensures pool'[index[q'[k]]].next == NodeAt(index, q', k + 1)
    {
      LinkLastAt(pool, index, q, id, head, tail, k);
    }
    assert NoDup(q');
  }

  lemma LinkLastAt(pool: seq<Order>, index: Index, q: seq<u64>, id: u64, head: int, tail: int, k: nat)
    requires Linked(pool, index, q, head, tail)
    requires id in index && index[id] < |pool| && pool[index[id]].id == id && id !in q && k <= |q|
    ensures -1 <= tail < |pool|
    ensures var q' := q + [id];
            var o := LinkLast(pool, index[id], tail)[index[q'[k]]];
            o.id == q'[k] && o.prev == NodeAt(index, q', k - 1) && o.next == NodeAt(index, q', k + 1)
  {
    if k < |q| {
      assert pool[index[q[k]]].id == q[k];
      assert k < |q| - 1 ==> q[k] != q[|q| - 1];
      assert index[q[k]] == tail <==> k == |q| - 1;
    }
  }

  /** What `remove_order` does to the nodes around `n`. */
  function Unlink(pool: seq<Order>, n: nat): (r: seq<Order>)
    requires n < |pool| && -1 <= pool[n].prev < |pool| && -1 <= pool[n].next < |pool|
    ensures |r| == |pool|
  {
    var o := pool[n];
    var p := if o.prev == NIL then pool else pool[o.prev := pool[o.prev].(next := o.next)];
    if o.next == NIL then p else p[o.next := p[o.next].(prev := o.prev)]
  }

  /** The ends of the list after the unlinking. */
  lemma UnlinkEnds(pool: seq<Order>, index: Index, q: seq<u64>, p: nat, head: int, tail: int)
    requires Linked(pool, index, q, head, tail) && p < |q|
    ensures var o := pool[index[q[p]]];
            && -1 <= o.prev < |pool| && -1 <= o.next < |pool|
            && (o.prev == NIL <==> p == 0) && (o.next == NIL <==> p == |q| - 1)
            && NoDup(RemoveAt(q, p))
            && NodeAt(index, RemoveAt(q, p), 0) == (if o.prev == NIL then o.next else head)
            && NodeAt(index, RemoveAt(q, p), |q| - 2) == (if o.next == NIL then o.prev else tail)
  {
    NodeAtInjective(pool, index, q, head, tail, p, p - 1);
    NodeAtInjective(pool, index, q, head, tail, p, p + 1);
    NodeAtRemoved(index, q, p, 0);
    NodeAtRemoved(index, q, p, |q| - 2);
    NoDupRemoveAt(q, p);
  }

  /** The node at position `k` of a queue is linked to its neighbours. */
  ghost predicate LinkedAt(pool: seq<Order>, index: Index, q: seq<u64>, k: nat)
    requires k < |q|
  {
    && q[k] in index && index[q[k]] < |pool| && pool[index[q[k]]].id == q[k]
    && pool[index[q[k]]].prev == NodeAt(index, q, k - 1)
    && pool[index[q[k]]].next == NodeAt(index, q, k + 1)
  }

  lemma LinkedFrom(pool: seq<Order>, index: Index, q: seq<u64>, head: int, tail: int)
    requires NoDup(q) && head == NodeAt(index, q, 0) && tail == NodeAt(index, q, |q| - 1)
    requires forall k :: 0 <= k < |q| ==> LinkedAt(pool, index, q, k)
    ensures Linked(pool, index, q, head, tail)
  {
    hide NodeAt, NoDup;
    forall k | 0 <= k < |q|
      ensures q[k] in index && index[q[k]] < |pool| && pool[index[q[k]]].id == q[k]
      ensures pool[index[q[k]]].prev == NodeAt(index, q, k - 1) && pool[index[q[k]]].next == NodeAt(index, q, k + 1)
    {
      assert LinkedAt(pool, index, q, k);
    }
  }

  lemma QueuedNode(pool: seq<Order>, index: Index, q: seq<u64>, head: int, tail: int, j: nat)
    requires Linked(pool, index, q, head, tail) && j < |q|
    ensures q[j] in index && index[q[j]] < |pool|
  {
  }

  lemma UnlinkKeeps(pool: seq<Order>, index: Index, q: seq<u64>, p: nat, head: int, tail: int)
    requires Linked(pool, index, q, head, tail) && p < |q|
    ensures var o := pool[index[q[p]]];
            && -1 <= o.prev < |pool| && -1 <= o.next < |pool|
            && (o.prev == NIL <==> p == 0) && (o.next == NIL <==> p == |q| - 1)
            && Linked(Unlink(pool, index[q[p]]), index, RemoveAt(q, p),
                      if o.prev == NIL then o.next else head, if o.next == NIL then o.prev else tail)
  {
    QueuedNode(pool, index, q, head, tail, p);
    hide Linked, NodeAt, Unlink, NoDup;
    UnlinkEnds(pool, index, q, p, head, tail);
    var o := pool[index[q[p]]];
    var q' := RemoveAt(q, p);
    var pool' := Unlink(pool, index[q[p]]);
    hide LinkedAt, RemoveAt;
    forall k | 0 <= k < |q'| ensures LinkedAt(pool', index, q', k) {
      UnlinkedAt(pool, index, q, p, head, tail, k);
    }
    LinkedFrom(pool', index, q', NodeAt(index, q', 0), NodeAt(index, q', |q| - 2));
  }

  /** Positions after the removed one move up by one. */
  lemma NodeAtRemoved(index: Index, q: seq<u64>, p: nat, k: int)
    requires p < |q| && -1 <= k < |q|
    ensures NodeAt(index, RemoveAt(q, p), k) == NodeAt(index, q, if k < p then k else k + 1)
  {
  }

  /** Where the nodes at two positions are the same, so are the positions. */
  lemma NodeAtInjective(pool: seq<Order>, index: Index, q: seq<u64>, head: int, tail: int, j: int, k: int)
    requires Linked(pool, index, q, head, tail) && 0 <= j < |q| && -1 <= k <= |q|
    ensures index[q[j]] == NodeAt(index, q, k) <==> j == k
    ensures NodeAt(index, q, k) == NIL <==> k == -1 || k == |q|
    ensures -1 <= NodeAt(index, q, k) < |pool|
  {
    if 0 <= k < |q| && index[q[j]] == index[q[k]] {
      assert pool[index[q[j]]].id == q[j] && pool[index[q[k]]].id == q[k];
    }
  }

  /** The links of another node after the unlinking: they pass over the unlinked one. */
  lemma UnlinkedLinks(pool: seq<Order>, index: Index, q: seq<u64>, p: nat, head: int, tail: int, j: nat)
    requires Linked(pool, index, q, head, tail) && p < |q| && j < |q| && j != p
    ensures var o := pool[index[q[p]]]; -1 <= o.prev < |pool| && -1 <= o.next < |pool|
    ensures var o := Unlink(pool, index[q[p]])[index[q[j]]];
            && o.id == q[j]
            && o.prev == NodeAt(index, q, if j == p + 1 then p - 1 else j - 1)
            && o.next == NodeAt(index, q, if j == p - 1 then p + 1 else j + 1)
  {
    NodeAtInjective(pool, index, q, head, tail, j, p - 1);
    NodeAtInjective(pool, index, q, head, tail, j, p + 1);
  }

  /** The same, by the positions that the unlinking leaves. */
  lemma UnlinkAt(pool: seq<Order>, index: Index, q: seq<u64>, p: nat, head: int, tail: int, k: nat, j: nat)
    requires Linked(pool, index, q, head, tail) && p < |q| && k < |q| - 1 && j == if k < p then k else k + 1
    ensures var o := pool[index[q[p]]]; -1 <= o.prev < |pool| && -1 <= o.next < |pool|
    ensures var o := Unlink(pool, index[q[p]])[index[q[j]]];
            && o.id == q[j]
            && o.prev == NodeAt(index, RemoveAt(q, p), k - 1) && o.next == NodeAt(index, RemoveAt(q, p), k + 1)
  {
    hide Unlink, Linked, NodeAt, RemoveAt;
    UnlinkedLinks(pool, index, q, p, head, tail, j);
    NodeAtRemoved(index, q, p, k - 1);
    NodeAtRemoved(index, q, p, k + 1);
  }

  lemma UnlinkedAt(pool: seq<Order>, index: Index, q: seq<u64>, p: nat, head: int, tail: int, k: nat)
    requires Linked(pool, index, q, head, tail) && p < |q| && k < |q| - 1
    ensures var o := pool[index[q[p]]]; -1 <= o.prev < |pool| && -1 <= o.next < |pool|
    ensures LinkedAt(Unlink(pool, index[q[p]]), index, RemoveAt(q, p), k)
  {
    hide Linked, NodeAt, Unlink;
    var j := if k < p then k else k + 1;
    QueuedNode(pool, index, q, head, tail, j);
    UnlinkAt(pool, index, q, p, head, tail, k, j);
  }

  ghost function FreeAt(free: seq<nat>, k: nat): int {
    if k < |free| then free[k] else NIL
  }

  /** The free list is exactly `free`, linked by `next`. */
  ghost predicate FreeList(pool: seq<Order>, head: int, free: seq<nat>) {
    && NoDup(free)
    && head == FreeAt(free, 0)
    && forall k :: 0 <= k < |free| ==>
        && free[k] < |pool|
        && pool[free[k]].next == FreeAt(free, k + 1)
  }

  lemma FreeListFrame(pool: seq<Order>, pool': seq<Order>, head: int, free: seq<nat>)
    requires FreeList(pool, head, free) && |pool'| == |pool|
    requires forall k :: 0 <= k < |free| ==> pool'[free[k]].next == pool[free[k]].next
    ensures FreeList(pool', head, free)
  {
  }

  /** `allocate_order`: the free list without its first node. */
  lemma FreePop(pool: seq<Order>, pool': seq<Order>, head: int, free: seq<nat>)
    requires FreeList(pool, head, free) && free != [] && |pool'| == |pool|
    requires forall n :: 0 <= n < |pool| && n != free[0] ==> pool'[n] == pool[n]
    ensures FreeList(pool', pool[free[0]].next, free[1..])
    ensures free[0] !in free[1..]
    ensures forall n: nat :: n in free <==> n == free[0] || n in free[1..]
  {
    var rest := free[1..];
    assert free == [free[0]] + rest;
    forall k | 0 <= k < |rest|
      ensures rest[k] != free[0]
      ensures rest[k] < |pool'| && pool'[rest[k]].next == FreeAt(rest, k + 1)
    {
      assert rest[k] == free[k + 1];
    }
  }

  /** `deallocate_order`: node `n` becomes the first free one. */
  lemma FreePush(pool: seq<Order>, head: int, free: seq<nat>, n: nat)
    requires FreeList(pool, head, free) && n < |pool| && n !in free
    ensures FreeList(pool[n := pool[n].(next := head)], n, [n] + free)
  {
    var pool' := pool[n := pool[n].(next := head)];
    var free' := [n] + free;
    forall k | 0 <= k < |free'|
      ensures free'[k] < |pool'| && pool'[free'[k]].next == FreeAt(free', k + 1)
    {
      if k > 0 {
        assert free'[k] == free[k - 1] && free[k - 1] in free;
      }
    }
  }
}
