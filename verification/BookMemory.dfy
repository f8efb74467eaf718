/** How the pool, the free list and the two level arrays together hold an abstract book,
    and that each in-place update keeps them in agreement. */
module BookMemory {
  import opened Machine
  import opened BookSpec
  import opened QueueLaws
  import opened PoolLists

  function LevelAt(bids: seq<PriceLevel>, asks: seq<PriceLevel>, l: Level): PriceLevel
    requires l.price < |bids| && |bids| == |asks|
  {
    if l.side.Buy? then bids[l.price] else asks[l.price]
  }

  /** One side's levels after an update of the level `l`. */
  function Store(levels: seq<PriceLevel>, side: Side, l: Level, v: PriceLevel): (r: seq<PriceLevel>)
    requires l.price < |levels|
    ensures |r| == |levels|
  {
    if l.side == side then levels[l.price := v] else levels
  }

  /** A level's list is its queue, and its volume is the queue's quantity sum modulo 2^64. */
  ghost predicate LevelOk(pool: seq<Order>, index: Index, orders: map<u64, Entry>, q: seq<u64>, v: PriceLevel) {
    && Linked(pool, index, q, v.head, v.tail)
    && v.totalVolume == Total(orders, q) % TWO_64
  }

  ghost predicate Levels(pool: seq<Order>, index: Index, b: Book, bids: seq<PriceLevel>, asks: seq<PriceLevel>) {
    && |bids| == |asks| == b.maxPrice
    && forall l: Level :: l.price < |bids| ==> LevelOk(pool, index, b.orders, b.Queue(l), LevelAt(bids, asks, l))
  }

  ghost predicate Matches(o: Order, id: u64, e: Entry) {
    o.id == id && LevelOfNode(o) == e.level && o.quantity == e.quantity
  }

  /** Every resting order has a node of its own, which holds its fields. */
  ghost predicate Records(pool: seq<Order>, index: Index, orders: map<u64, Entry>) {
    && index.Keys == orders.Keys
    && forall id :: id in index ==> index[id] < |pool| && Matches(pool[index[id]], id, orders[id])
  }

  ghost predicate IsLive(pool: seq<Order>, index: Index, n: nat)
    requires n < |pool|
  {
    pool[n].id in index && index[pool[n].id] == n
  }

  /** Every node is either on the free list or the node of a resting order, never both. */
  ghost predicate Partitioned(pool: seq<Order>, index: Index, free: seq<nat>) {
    && (forall n: nat :: n < |pool| ==> (n in free <==> !IsLive(pool, index, n)))
    && |index| + |free| == |pool|
  }

  ghost predicate Consistent(pool: seq<Order>, freeHead: int, free: seq<nat>, index: Index, b: Book,
                             bids: seq<PriceLevel>, asks: seq<PriceLevel>) {
    && b.Sound()
    && Records(pool, index, b.orders)
    && Levels(pool, index, b, bids, asks)
    && Partitioned(pool, index, free)
    && FreeList(pool, freeHead, free)
  }

  /** Where each node is: on the free list once and in no queue, or on no free list and at one
      place in the one queue that matches its side and price. */
  lemma PoolIsPartitioned(pool: seq<Order>, freeHead: int, free: seq<nat>, index: Index, b: Book,
                          bids: seq<PriceLevel>, asks: seq<PriceLevel>, n: nat)
    requires Consistent(pool, freeHead, free, index, b, bids, asks) && b.Complete() && n < |pool|
    ensures NoDup(free) && (n in free <==> !IsLive(pool, index, n))
    ensures forall l, k :: 0 <= k < |b.Queue(l)| && NodeAt(index, b.Queue(l), k) == n ==>
              n !in free && l == LevelOfNode(pool[n]) && b.Queue(l)[k] == pool[n].id
    ensures NoDup(b.Queue(LevelOfNode(pool[n])))
    ensures var q := b.Queue(LevelOfNode(pool[n]));
            n !in free ==> exists k :: 0 <= k < |q| && NodeAt(index, q, k) == n
  {
    hide Levels, Linked;
    if n !in free {
      var id := pool[n].id;
      assert Matches(pool[index[id]], id, b.orders[id]);
      var q := b.Queue(LevelOfNode(pool[n]));
      var k :| 0 <= k < |q| && q[k] == id;
      assert NodeAt(index, q, k) == n;
    }
  }

  lemma NodesNameOrders(pool: seq<Order>, freeHead: int, free: seq<nat>, index: Index, b: Book,
                        bids: seq<PriceLevel>, asks: seq<PriceLevel>)
    requires Consistent(pool, freeHead, free, index, b, bids, asks)
    ensures forall id :: id in index ==> index[id] < |pool| && pool[index[id]].id == id
  {
    hide Levels, Partitioned, FreeList;
  }

  // ------------------------------------------------------------------ frames

  /** A level whose nodes are not touched stays right. */
  lemma LevelFrame(pool: seq<Order>, pool': seq<Order>, index: Index, b: Book, b': Book, l: Level, v: PriceLevel)
    requires b.Sound() && |pool'| == |pool|
    requires LevelOk(pool, index, b.orders, b.Queue(l), v)
    requires b'.Queue(l) == b.Queue(l)
    requires forall id :: id in b.orders && b.orders[id].level == l && id in index && index[id] < |pool| ==>
      && id in b'.orders && b'.orders[id] == b.orders[id]
      && pool'[index[id]].id == pool[index[id]].id
      && pool'[index[id]].prev == pool[index[id]].prev && pool'[index[id]].next == pool[index[id]].next
    ensures LevelOk(pool', index, b'.orders, b'.Queue(l), v)
  {
    var q := b.Queue(l);
    forall k | 0 <= k < |q| ensures q[k] in b.orders && b.orders[q[k]].level == l {}
    LinkedFrame(pool, pool', index, index, q, v.head, v.tail);
    TotalFrame(b.orders, b'.orders, q);
  }

  /** The order rests, at another level than this one. */
  ghost predicate Elsewhere(b: Book, id: u64, l: Level) {
    id in b.orders && b.orders[id].level != l
  }

  /** The update leaves the orders of all other levels, their links and their queues alone. */
  ghost predicate OnlyAt(pool: seq<Order>, pool': seq<Order>, index: Index, b: Book, b': Book, l: Level) {
    && |pool'| == |pool| && b'.maxPrice == b.maxPrice
    && (forall id :: Elsewhere(b, id, l) && id in index && index[id] < |pool| ==>
          && id in b'.orders && b'.orders[id] == b.orders[id]
          && pool'[index[id]].id == pool[index[id]].id
          && pool'[index[id]].prev == pool[index[id]].prev && pool'[index[id]].next == pool[index[id]].next)
    && (forall m :: m != l ==> b'.Queue(m) == b.Queue(m))
  }

  lemma StoredLevel(bids: seq<PriceLevel>, asks: seq<PriceLevel>, l: Level, v: PriceLevel, m: Level)
    requires |bids| == |asks| && l.price < |bids| && m.price < |bids|
    ensures LevelAt(Store(bids, Buy, l, v), Store(asks, Sell, l, v), m) == if m == l then v else LevelAt(bids, asks, m)
  {
  }

  lemma OtherLevel(pool: seq<Order>, pool': seq<Order>, index: Index, b: Book, b': Book, l: Level, m: Level,
                   v: PriceLevel)
    requires b.Sound() && LevelOk(pool, index, b.orders, b.Queue(m), v)
    requires OnlyAt(pool, pool', index, b, b', l) && m != l
    ensures LevelOk(pool', index, b'.orders, b'.Queue(m), v)
  {
    hide LevelOk, Book.Sound;
    LevelFrame(pool, pool', index, b, b', m, v);
  }

  lemma LevelInRange(pool: seq<Order>, index: Index, b: Book, bids: seq<PriceLevel>, asks: seq<PriceLevel>, m: Level)
    requires Levels(pool, index, b, bids, asks) && m.price < |bids|
    ensures |bids| == |asks| == b.maxPrice && LevelOk(pool, index, b.orders, b.Queue(m), LevelAt(bids, asks, m))
  {
    hide LevelOk;
  }

  lemma LevelsFrom(pool: seq<Order>, index: Index, b: Book, bids: seq<PriceLevel>, asks: seq<PriceLevel>)
    requires |bids| == |asks| == b.maxPrice
    requires forall m: Level :: m.price < |bids| ==> LevelOk(pool, index, b.orders, b.Queue(m), LevelAt(bids, asks, m))
    ensures Levels(pool, index, b, bids, asks)
  {
    hide LevelOk;
  }

  /** Levels stay right all over when the one changed level is right again. */
  lemma LevelsAfter(pool: seq<Order>, pool': seq<Order>, index: Index, b: Book, b': Book,
                    bids: seq<PriceLevel>, asks: seq<PriceLevel>, l: Level, v': PriceLevel)
    requires b.Sound() && Levels(pool, index, b, bids, asks) && l.price < |bids|
    requires OnlyAt(pool, pool', index, b, b', l)
    requires LevelOk(pool', index, b'.orders, b'.Queue(l), v')
    ensures Levels(pool', index, b', Store(bids, Buy, l, v'), Store(asks, Sell, l, v'))
  {
    assert b'.maxPrice == b.maxPrice;
    hide Levels, LevelOk, LevelAt, Store, Book.Sound, Book.Queue, OnlyAt;
    LevelInRange(pool, index, b, bids, asks, l);
    var bids', asks' := Store(bids, Buy, l, v'), Store(asks, Sell, l, v');
    forall m: Level | m.price < |bids|
      ensures LevelOk(pool', index, b'.orders, b'.Queue(m), LevelAt(bids', asks', m))
    {
      StoredLevel(bids, asks, l, v', m);
      if m != l {
        LevelInRange(pool, index, b, bids, asks, m);
        OtherLevel(pool, pool', index, b, b', l, m, LevelAt(bids, asks, m));
      }
    }
    LevelsFrom(pool', index, b', bids', asks');
  }

  /** Only the links of the given nodes differ. */
  ghost predicate LinksDiffer(pool: seq<Order>, pool': seq<Order>, nodes: set<int>) {
    && |pool'| == |pool|
    && forall n :: 0 <= n < |pool| ==>
        && pool'[n].id == pool[n].id && pool'[n].price == pool[n].price
        && pool'[n].quantity == pool[n].quantity && pool'[n].side == pool[n].side
        && (n !in nodes ==> pool'[n] == pool[n])
  }

  lemma LinkLastDiffers(pool: seq<Order>, n: nat, tail: int)
    requires n < |pool| && -1 <= tail < |pool|
    ensures LinksDiffer(pool, LinkLast(pool, n, tail), {n, tail})
  {
  }

  lemma UnlinkDiffers(pool: seq<Order>, n: nat)
    requires n < |pool| && -1 <= pool[n].prev < |pool| && -1 <= pool[n].next < |pool|
    ensures LinksDiffer(pool, Unlink(pool, n), {pool[n].prev, pool[n].next})
  {
  }

  ghost predicate NullOrLiveAt(pool: seq<Order>, index: Index, n: int, l: Level) {
    n == NIL || (0 <= n < |pool| && IsLive(pool, index, n) && LevelOfNode(pool[n]) == l)
  }

  /** Relinking live nodes of one level concerns no other level and no free node. */
  lemma LocalChange(pool: seq<Order>, pool': seq<Order>, m: int, n: int, freeHead: int, free: seq<nat>, index: Index,
                    b: Book, b': Book, l: Level)
    requires Records(pool, index, b.orders) && Partitioned(pool, index, free) && FreeList(pool, freeHead, free)
    requires LinksDiffer(pool, pool', {m, n}) && NullOrLiveAt(pool, index, m, l) && NullOrLiveAt(pool, index, n, l)
    requires b'.orders == b.orders && b'.maxPrice == b.maxPrice && forall k :: k != l ==> b'.Queue(k) == b.Queue(k)
    ensures Records(pool', index, b.orders) && Partitioned(pool', index, free) && FreeList(pool', freeHead, free)
    ensures OnlyAt(pool, pool', index, b, b', l)
  {
    FreeFrame(pool, pool', {m, n}, freeHead, free, index, b.orders);
    forall id | Elsewhere(b, id, l) && id in index ensures pool'[index[id]] == pool[index[id]] {
      assert Matches(pool[index[id]], id, b.orders[id]);
    }
  }

  lemma FreeFrame(pool: seq<Order>, pool': seq<Order>, nodes: set<int>, freeHead: int, free: seq<nat>, index: Index,
                  orders: map<u64, Entry>)
    requires Records(pool, index, orders) && Partitioned(pool, index, free) && FreeList(pool, freeHead, free)
    requires LinksDiffer(pool, pool', nodes)
    requires forall n :: n in nodes && 0 <= n < |pool| ==> IsLive(pool, index, n)
    ensures Records(pool', index, orders) && Partitioned(pool', index, free) && FreeList(pool', freeHead, free)
  {
    forall n: nat | n < |pool| ensures IsLive(pool', index, n) == IsLive(pool, index, n) {}
    forall k | 0 <= k < |free| ensures pool'[free[k]].next == pool[free[k]].next {
      assert free[k] in free;
    }
  }

  lemma NodeIsLive(pool: seq<Order>, index: Index, b: Book, l: Level, v: PriceLevel, k: int)
    requires b.Sound() && Records(pool, index, b.orders)
    requires LevelOk(pool, index, b.orders, b.Queue(l), v)
    ensures NullOrLiveAt(pool, index, NodeAt(index, b.Queue(l), k), l)
  {
  }

  lemma NeighboursLive(pool: seq<Order>, index: Index, b: Book, l: Level, v: PriceLevel, p: nat)
    requires b.Sound() && Records(pool, index, b.orders)
    requires LevelOk(pool, index, b.orders, b.Queue(l), v) && p < |b.Queue(l)|
    ensures var o := pool[index[b.Queue(l)[p]]];
            NullOrLiveAt(pool, index, o.prev, l) && NullOrLiveAt(pool, index, o.next, l)
  {
    NodeIsLive(pool, index, b, l, v, p - 1);
    NodeIsLive(pool, index, b, l, v, p + 1);
    assert pool[index[b.Queue(l)[p]]].prev == NodeAt(index, b.Queue(l), p - 1);
  }

  lemma WrapAdd(a: int, d: int)
    ensures (a % TWO_64 + d) % TWO_64 == (a + d) % TWO_64
  {
  }

  // ------------------------------------------------------------------ insert_order

  /** The level after `insert_order` appends node `n`. */
  function Appended(v: PriceLevel, n: nat, quantity: u64): PriceLevel {
    PriceLevel(if v.tail == NIL then n else v.head, n, (v.totalVolume + quantity) % TWO_64)
  }

  lemma InsertLevel(pool: seq<Order>, index: Index, orders: map<u64, Entry>, q: seq<u64>, id: u64, v: PriceLevel)
    requires Records(pool, index, orders) && LevelOk(pool, index, orders, q, v)
    requires id in index && id !in q
    ensures -1 <= v.tail < |pool|
    ensures LevelOk(LinkLast(pool, index[id], v.tail), index, orders, q + [id],
                    Appended(v, index[id], orders[id].quantity))
  {
    LinkLastKeeps(pool, index, q, id, v.head, v.tail);
    TotalAppend(orders, q, id);
    WrapAdd(Total(orders, q), orders[id].quantity);
    var v' := Appended(v, index[id], orders[id].quantity);
    assert Linked(LinkLast(pool, index[id], v.tail), index, q + [id], v'.head, v'.tail);
  }

  lemma InsertLocal(pool: seq<Order>, freeHead: int, free: seq<nat>, index: Index, b: Book, id: u64, tail: int)
    requires Records(pool, index, b.orders) && Partitioned(pool, index, free) && FreeList(pool, freeHead, free)
    requires id in index && NullOrLiveAt(pool, index, tail, b.orders[id].level)
    ensures var pool' := LinkLast(pool, index[id], tail);
            && Records(pool', index, b.orders) && Partitioned(pool', index, free) && FreeList(pool', freeHead, free)
            && OnlyAt(pool, pool', index, b, b.Enqueue(id), b.orders[id].level)
  {
    LinkLastDiffers(pool, index[id], tail);
    assert Matches(pool[index[id]], id, b.orders[id]);
    LocalChange(pool, LinkLast(pool, index[id], tail), index[id], tail, freeHead, free, index, b, b.Enqueue(id),
                b.orders[id].level);
  }

  lemma InsertKeeps(pool: seq<Order>, freeHead: int, free: seq<nat>, index: Index, b: Book,
                    bids: seq<PriceLevel>, asks: seq<PriceLevel>, id: u64)
    requires Consistent(pool, freeHead, free, index, b, bids, asks)
    requires id in index && b.orders[id].level.price < |bids| && id !in b.Queue(b.orders[id].level)
    ensures var l := b.orders[id].level;
            var v := LevelAt(bids, asks, l);
            var v' := Appended(v, index[id], b.orders[id].quantity);
            -1 <= v.tail < |pool| &&
            Consistent(LinkLast(pool, index[id], v.tail), freeHead, free, index, b.Enqueue(id),
                       Store(bids, Buy, l, v'), Store(asks, Sell, l, v'))
  {
    var l := b.orders[id].level;
    var v := LevelAt(bids, asks, l);
    assert LevelOk(pool, index, b.orders, b.Queue(l), v);
    InsertLevel(pool, index, b.orders, b.Queue(l), id, v);
    var pool' := LinkLast(pool, index[id], v.tail);
    NodeIsLive(pool, index, b, l, v, |b.Queue(l)| - 1);
    InsertLocal(pool, freeHead, free, index, b, id, v.tail);
    EnqueueSound(b, id);
    LevelsAfter(pool, pool', index, b, b.Enqueue(id), bids, asks, l, Appended(v, index[id], b.orders[id].quantity));
  }

  // ------------------------------------------------------------------ remove_order

  /** The level after `remove_order` unlinks the node `o`. */
  function Removed(v: PriceLevel, o: Order): PriceLevel {
    PriceLevel(if o.prev == NIL then o.next else v.head, if o.next == NIL then o.prev else v.tail,
               (v.totalVolume - o.quantity) % TWO_64)
  }

  lemma RemoveLevel(pool: seq<Order>, index: Index, orders: map<u64, Entry>, q: seq<u64>, p: nat, v: PriceLevel)
    requires Records(pool, index, orders) && LevelOk(pool, index, orders, q, v) && p < |q|
    ensures var o := pool[index[q[p]]]; -1 <= o.prev < |pool| && -1 <= o.next < |pool|
    ensures LevelOk(Unlink(pool, index[q[p]]), index, orders, RemoveAt(q, p), Removed(v, pool[index[q[p]]]))
  {
    var n := index[q[p]];
    UnlinkKeeps(pool, index, q, p, v.head, v.tail);
    RemoveVolume(orders, q, p, v, pool[n]);
    var v' := Removed(v, pool[n]);
    assert Linked(Unlink(pool, n), index, RemoveAt(q, p), v'.head, v'.tail);
  }

  lemma RemoveVolume(orders: map<u64, Entry>, q: seq<u64>, p: nat, v: PriceLevel, o: Order)
    requires p < |q| && q[p] in orders && orders[q[p]].quantity == o.quantity
    requires v.totalVolume == Total(orders, q) % TWO_64
    ensures Removed(v, o).totalVolume == Total(orders, RemoveAt(q, p)) % TWO_64
  {
    TotalRemoveAt(orders, q, p);
    var removed: int := o.quantity;
    WrapAdd(Total(orders, q), -removed);
  }

  lemma RemoveLocal(pool: seq<Order>, freeHead: int, free: seq<nat>, index: Index, b: Book, id: u64)
    requires Records(pool, index, b.orders) && Partitioned(pool, index, free) && FreeList(pool, freeHead, free)
    requires id in index
    requires NullOrLiveAt(pool, index, pool[index[id]].prev, b.orders[id].level)
    requires NullOrLiveAt(pool, index, pool[index[id]].next, b.orders[id].level)
    ensures var pool' := Unlink(pool, index[id]);
            && Records(pool', index, b.orders) && Partitioned(pool', index, free) && FreeList(pool', freeHead, free)
            && OnlyAt(pool, pool', index, b, b.Dequeue(id), b.orders[id].level)
  {
    var o := pool[index[id]];
    UnlinkDiffers(pool, index[id]);
    LocalChange(pool, Unlink(pool, index[id]), o.prev, o.next, freeHead, free, index, b, b.Dequeue(id),
                b.orders[id].level);
  }

  lemma RemoveKeeps(pool: seq<Order>, freeHead: int, free: seq<nat>, index: Index, b: Book,
                    bids: seq<PriceLevel>, asks: seq<PriceLevel>, id: u64)
    requires Consistent(pool, freeHead, free, index, b, bids, asks)
    requires id in index && b.orders[id].level.price < |bids| && id in b.Queue(b.orders[id].level)
    ensures var l := b.orders[id].level;
            var o := pool[index[id]];
            var v' := Removed(LevelAt(bids, asks, l), o);
            -1 <= o.prev < |pool| && -1 <= o.next < |pool| &&
            Consistent(Unlink(pool, index[id]), freeHead, free, index, b.Dequeue(id),
                       Store(bids, Buy, l, v'), Store(asks, Sell, l, v'))
    ensures id !in b.Dequeue(id).Queue(b.orders[id].level)
  {
    var l := b.orders[id].level;
    var v := LevelAt(bids, asks, l);
    var q := b.Queue(l);
    var p :| 0 <= p < |q| && q[p] == id;
    assert LevelOk(pool, index, b.orders, q, v);
    RemoveLevel(pool, index, b.orders, q, p, v);
    var pool' := Unlink(pool, index[id]);
    NeighboursLive(pool, index, b, l, v, p);
    RemoveLocal(pool, freeHead, free, index, b, id);
    WithoutAt(q, p);
    DequeueSound(b, id);
    LevelsAfter(pool, pool', index, b, b.Dequeue(id), bids, asks, l, Removed(v, pool[index[id]]));
  }

  // ------------------------------------------------------------------ allocation and release of nodes

  /** A changed order table under the same queues, where the changed order stands in none. */
  lemma OrdersFrame(pool: seq<Order>, pool': seq<Order>, index: Index, index': Index, b: Book, b': Book,
                    bids: seq<PriceLevel>, asks: seq<PriceLevel>, id: u64)
    requires b.Sound() && Records(pool, index, b.orders) && Levels(pool, index, b, bids, asks)
    requires b'.queues == b.queues && b'.maxPrice == b.maxPrice && |pool'| == |pool|
    requires id in b.orders ==> id !in b.Queue(b.orders[id].level)
    requires forall x :: x in b.orders && x != id ==>
      && x in b'.orders && b'.orders[x] == b.orders[x] && x in index' && index'[x] == index[x]
      && pool'[index[x]] == pool[index[x]]
    ensures b'.Sound() && Levels(pool', index', b', bids, asks)
  {
    UnqueuedSound(b, b', id);
    forall l: Level | l.price < |bids|
      ensures LevelOk(pool', index', b'.orders, b'.Queue(l), LevelAt(bids, asks, l))
    {
      var q := b.Queue(l);
      var v := LevelAt(bids, asks, l);
      assert LevelOk(pool, index, b.orders, q, v);
      forall k | 0 <= k < |q| ensures q[k] != id && q[k] in b.orders {}
      LinkedFrame(pool, pool', index, index', q, v.head, v.tail);
      TotalFrame(b.orders, b'.orders, q);
    }
  }

  /** The node that `add` takes, holding the fields of the order. */
  function Filled(o: Order, id: u64, e: Entry): Order {
    o.(id := id, side := e.level.side, price := e.level.price, quantity := e.quantity)
  }

  lemma AllocatePartition(pool: seq<Order>, freeHead: int, free: seq<nat>, index: Index, orders: map<u64, Entry>,
                          id: u64, e: Entry)
    requires Records(pool, index, orders) && Partitioned(pool, index, free) && FreeList(pool, freeHead, free)
    requires free != [] && id !in orders
    ensures var n := free[0];
            var pool' := pool[n := Filled(pool[n], id, e)];
            && Records(pool', index[id := n], orders[id := e])
            && Partitioned(pool', index[id := n], free[1..])
            && FreeList(pool', pool[n].next, free[1..])
            && forall x :: x in orders ==> index[x] != n
  {
    var n := free[0];
    var pool' := pool[n := Filled(pool[n], id, e)];
    var index' := index[id := n];
    FreePop(pool, pool', freeHead, free);
    forall x | x in index ensures index[x] != n {
      assert IsLive(pool, index, index[x]);
    }
    forall m: nat | m < |pool'| ensures m in free[1..] <==> !IsLive(pool', index', m) {}
  }

  lemma AllocateKeeps(pool: seq<Order>, freeHead: int, free: seq<nat>, index: Index, b: Book,
                      bids: seq<PriceLevel>, asks: seq<PriceLevel>, id: u64, e: Entry)
    requires Consistent(pool, freeHead, free, index, b, bids, asks) && free != [] && id !in b.orders
    ensures var n := free[0];
            Consistent(pool[n := Filled(pool[n], id, e)], pool[n].next, free[1..], index[id := n],
                       b.(orders := b.orders[id := e]), bids, asks)
    ensures forall l :: id !in b.Queue(l)
  {
    var n := free[0];
    AllocatePartition(pool, freeHead, free, index, b.orders, id, e);
    OrdersFrame(pool, pool[n := Filled(pool[n], id, e)], index, index[id := n], b, b.(orders := b.orders[id := e]),
                bids, asks, id);
    UnqueuedSound(b, b, id);
  }

  lemma DeallocatePartition(pool: seq<Order>, freeHead: int, free: seq<nat>, index: Index, orders: map<u64, Entry>,
                            id: u64)
    requires Records(pool, index, orders) && Partitioned(pool, index, free) && FreeList(pool, freeHead, free)
    requires id in orders
    ensures var n := index[id];
            var pool' := pool[n := pool[n].(next := freeHead)];
            && Records(pool', index - {id}, orders - {id})
            && Partitioned(pool', index - {id}, [n] + free)
            && FreeList(pool', n, [n] + free)
  {
    var n := index[id];
    var pool' := pool[n := pool[n].(next := freeHead)];
    var index' := index - {id};
    assert IsLive(pool, index, n);
    forall x | x in index && x != id ensures index[x] != n {
      assert pool[index[x]].id == x;
    }
    FreePush(pool, freeHead, free, n);
    forall m: nat | m < |pool'| ensures m in [n] + free <==> !IsLive(pool', index', m) {
      assert m in [n] + free <==> m == n || m in free;
    }
  }

  /** `cancel` gives the unlinked node of an order back. */
  lemma DeallocateKeeps(pool: seq<Order>, freeHead: int, free: seq<nat>, index: Index, b: Book,
                        bids: seq<PriceLevel>, asks: seq<PriceLevel>, id: u64)
    requires Consistent(pool, freeHead, free, index, b, bids, asks)
    requires id in b.orders && id !in b.Queue(b.orders[id].level)
    ensures var n := index[id];
            Consistent(pool[n := pool[n].(next := freeHead)], n, [n] + free, index - {id},
                       b.(orders := b.orders - {id}), bids, asks)
  {
    hide Book.Sound, Levels, Partitioned, FreeList, Records, Book.Queue;
    OthersKept(pool, freeHead, index, b.orders, id);
    var n := index[id];
    var pool', index' := pool[n := pool[n].(next := freeHead)], index - {id};
    var b' := b.(orders := b.orders - {id});
    DeallocatePartition(pool, freeHead, free, index, b.orders, id);
    OrdersFrame(pool, pool', index, index', b, b', bids, asks, id);
  }

  /** The other orders' nodes are other nodes. */
  lemma OthersKept(pool: seq<Order>, freeHead: int, index: Index, orders: map<u64, Entry>, id: u64)
    requires Records(pool, index, orders) && id in orders
    ensures id in index && index[id] < |pool|
    ensures forall x :: x in orders && x != id ==>
      && x in orders - {id} && (orders - {id})[x] == orders[x] && x in index - {id} && (index - {id})[x] == index[x]
      && pool[index[id] := pool[index[id]].(next := freeHead)][index[x]] == pool[index[x]]
  {
    forall x | x in orders && x != id ensures index[x] != index[id] {
      assert pool[index[x]].id == x && pool[index[id]].id == id;
    }
  }

  // ------------------------------------------------------------------ change of quantity

  lemma ResizeLocal(pool: seq<Order>, freeHead: int, free: seq<nat>, index: Index, orders: map<u64, Entry>, id: u64,
                    e: Entry)
    requires Records(pool, index, orders) && Partitioned(pool, index, free) && FreeList(pool, freeHead, free)
    requires id in orders && orders[id].level == e.level
    ensures var pool' := pool[index[id] := pool[index[id]].(quantity := e.quantity)];
            && Records(pool', index, orders[id := e]) && Partitioned(pool', index, free)
            && FreeList(pool', freeHead, free)
            && forall n :: 0 <= n < |pool| ==> pool'[n] == pool[n].(quantity := pool'[n].quantity)
  {
    var pool' := pool[index[id] := pool[index[id]].(quantity := e.quantity)];
    assert pool[index[id]].id == id;
    forall m: nat | m < |pool| ensures IsLive(pool', index, m) == IsLive(pool, index, m) {}
    FreeListFrame(pool, pool', freeHead, free);
  }

  /** No other level sees the change. */
  lemma ResizeOnlyAt(pool: seq<Order>, index: Index, b: Book, id: u64, e: Entry)
    requires b.Sound() && Records(pool, index, b.orders) && id in b.orders && b.orders[id].level == e.level
    ensures index[id] < |pool|
    ensures OnlyAt(pool, pool[index[id] := pool[index[id]].(quantity := e.quantity)], index, b,
                   b.(orders := b.orders[id := e]), e.level)
  {
  }

  lemma ResizeLevel(pool: seq<Order>, index: Index, orders: map<u64, Entry>, q: seq<u64>, id: u64, e: Entry,
                    v: PriceLevel, v': PriceLevel)
    requires LevelOk(pool, index, orders, q, v) && id in index && index[id] < |pool|
    requires v'.head == v.head && v'.tail == v.tail && v'.totalVolume == Total(orders[id := e], q) % TWO_64
    ensures LevelOk(pool[index[id] := pool[index[id]].(quantity := e.quantity)], index, orders[id := e], q, v')
  {
    var pool' := pool[index[id] := pool[index[id]].(quantity := e.quantity)];
    LinkedFrame(pool, pool', index, index, q, v'.head, v'.tail);
  }

  /** Writing a resting order's quantity, when its level's volume is brought into line. */
  lemma ResizeKeeps(pool: seq<Order>, freeHead: int, free: seq<nat>, index: Index, b: Book,
                    bids: seq<PriceLevel>, asks: seq<PriceLevel>, id: u64, e: Entry, v': PriceLevel)
    requires Consistent(pool, freeHead, free, index, b, bids, asks)
    requires id in b.orders && e.level.price < |bids| && b.orders[id].level == e.level
    requires var v := LevelAt(bids, asks, e.level);
             && v'.head == v.head && v'.tail == v.tail
             && v'.totalVolume == Total(b.orders[id := e], b.Queue(e.level)) % TWO_64
    ensures Consistent(pool[index[id] := pool[index[id]].(quantity := e.quantity)], freeHead, free, index,
                       b.(orders := b.orders[id := e]), Store(bids, Buy, e.level, v'), Store(asks, Sell, e.level, v'))
  {
    hide Book.Sound, Levels, LevelOk, LevelAt, Partitioned, FreeList, OnlyAt, Total;
    var pool' := pool[index[id] := pool[index[id]].(quantity := e.quantity)];
    var b' := b.(orders := b.orders[id := e]);
    ResizeSound(b, id, e);
    ResizeLocal(pool, freeHead, free, index, b.orders, id, e);
    ResizeOnlyAt(pool, index, b, id, e);
    LevelInRange(pool, index, b, bids, asks, e.level);
    ResizeLevel(pool, index, b.orders, b.Queue(e.level), id, e, LevelAt(bids, asks, e.level), v');
    LevelsAfter(pool, pool', index, b, b', bids, asks, e.level, v');
  }

  // ------------------------------------------------------------------ whole operations

  lemma OrderCount(pool: seq<Order>, freeHead: int, free: seq<nat>, index: Index, b: Book,
                   bids: seq<PriceLevel>, asks: seq<PriceLevel>)
    requires Consistent(pool, freeHead, free, index, b, bids, asks)
    ensures |b.orders| + |free| == |pool| && index.Keys == b.orders.Keys
    ensures FreeList(pool, freeHead, free)
    ensures free == [] && |pool| == b.maxOrders ==>
              forall id, l, quantity :: AddOrder(b, id, l, quantity) == Outcome(b, false)
  {
    assert |index.Keys| == |b.orders.Keys|;
  }

  /** The memory after `add`: a free node filled in and appended to its level. */
  lemma AddKeeps(pool: seq<Order>, freeHead: int, free: seq<nat>, index: Index, b: Book,
                 bids: seq<PriceLevel>, asks: seq<PriceLevel>, id: u64, e: Entry)
    requires Consistent(pool, freeHead, free, index, b, bids, asks) && |pool| == b.maxOrders
    requires free != [] && id !in b.orders && e.level.price < |bids| && b.Complete()
    ensures AddOrder(b, id, e.level, e.quantity).ok && AddOrder(b, id, e.level, e.quantity).book.Complete()
    ensures var n := free[0];
            var v := LevelAt(bids, asks, e.level);
            var v' := Appended(v, n, e.quantity);
            -1 <= v.tail < |pool| &&
            Consistent(LinkLast(pool[n := Filled(pool[n], id, e)], n, v.tail), pool[n].next, free[1..], index[id := n],
                       AddOrder(b, id, e.level, e.quantity).book,
                       Store(bids, Buy, e.level, v'), Store(asks, Sell, e.level, v'))
  {
    var n := free[0];
    var f := b.(orders := b.orders[id := e]);
    AllocateKeeps(pool, freeHead, free, index, b, bids, asks, id, e);
    assert f.Queue(e.level) == b.Queue(e.level);
    InsertKeeps(pool[n := Filled(pool[n], id, e)], pool[n].next, free[1..], index[id := n], f, bids, asks, id);
    OrderCount(pool, freeHead, free, index, b, bids, asks);
    AddComplete(b, id, e.level, e.quantity);
  }

  /** A resting order's node holds its fields, and its links stay inside the pool. */
  lemma NodeOf(pool: seq<Order>, freeHead: int, free: seq<nat>, index: Index, b: Book,
               bids: seq<PriceLevel>, asks: seq<PriceLevel>, id: u64)
    requires Consistent(pool, freeHead, free, index, b, bids, asks) && b.Complete() && id in b.orders
    ensures id in index && index[id] < |pool| && Matches(pool[index[id]], id, b.orders[id])
    ensures |bids| == |asks| == b.maxPrice && b.orders[id].level.price < b.maxPrice
    ensures -1 <= pool[index[id]].prev < |pool| && -1 <= pool[index[id]].next < |pool|
  {
    RemoveKeeps(pool, freeHead, free, index, b, bids, asks, id);
  }

  /** The pool after `cancel`: the node unlinked and put back on the free list. */
  function Released(pool: seq<Order>, n: nat, freeHead: int): seq<Order>
    requires n < |pool| && -1 <= pool[n].prev < |pool| && -1 <= pool[n].next < |pool|
  {
    var unlinked := Unlink(pool, n);
    unlinked[n := unlinked[n].(next := freeHead)]
  }

  lemma CancelKeeps(pool: seq<Order>, freeHead: int, free: seq<nat>, index: Index, b: Book,
                    bids: seq<PriceLevel>, asks: seq<PriceLevel>, id: u64, v': PriceLevel)
    requires Consistent(pool, freeHead, free, index, b, bids, asks) && b.Complete() && id in b.orders
    requires id in index && index[id] < |pool|
    requires -1 <= pool[index[id]].prev < |pool| && -1 <= pool[index[id]].next < |pool|
    requires |bids| == |asks| && b.orders[id].level.price < |bids|
    requires v' == Removed(LevelAt(bids, asks, b.orders[id].level), pool[index[id]])
    ensures CancelOrder(b, id).book.Complete()
    ensures Consistent(Released(pool, index[id], freeHead), index[id], [index[id]] + free, index - {id},
                       CancelOrder(b, id).book,
                       Store(bids, Buy, b.orders[id].level, v'), Store(asks, Sell, b.orders[id].level, v'))
  {
    var l := b.orders[id].level;
    RemoveKeeps(pool, freeHead, free, index, b, bids, asks, id);
    CancelComplete(b, id);
    DeallocateKeeps(Unlink(pool, index[id]), freeHead, free, index, b.Dequeue(id),
                    Store(bids, Buy, l, v'), Store(asks, Sell, l, v'), id);
  }

  /** A level's volume, for every level, in range or not. */
  lemma VolumeOfLevel(pool: seq<Order>, freeHead: int, free: seq<nat>, index: Index, b: Book,
                      bids: seq<PriceLevel>, asks: seq<PriceLevel>, l: Level)
    requires Consistent(pool, freeHead, free, index, b, bids, asks)
    ensures b.Complete() && l.price >= b.maxPrice ==> b.Volume(l) == 0
    ensures |bids| == |asks| == b.maxPrice
    ensures l.price < b.maxPrice ==> LevelAt(bids, asks, l).totalVolume == b.Volume(l) % TWO_64
  {
    if l.price < b.maxPrice {
      assert LevelOk(pool, index, b.orders, b.Queue(l), LevelAt(bids, asks, l));
    } else if b.Queue(l) != [] {
      assert b.orders[b.Queue(l)[0]].level == l;
    }
  }

  /** The node of a resting order holds its fields. */
  lemma NodeFields(pool: seq<Order>, freeHead: int, free: seq<nat>, index: Index, b: Book,
                   bids: seq<PriceLevel>, asks: seq<PriceLevel>, id: u64)
    requires Consistent(pool, freeHead, free, index, b, bids, asks) && id in b.orders
    ensures id in index && index[id] < |pool| && Matches(pool[index[id]], id, b.orders[id])
    ensures |bids| == |asks| == b.maxPrice
  {
  }

  /** Volume after the in-place branch of `modify`. */
  lemma DecreasedVolume(orders: map<u64, Entry>, q: seq<u64>, id: u64, e: Entry, volume: u64)
    requires NoDup(q) && id in q && id in orders && volume == Total(orders, q) % TWO_64
    ensures (volume - (orders[id].quantity - e.quantity)) % TWO_64 == Total(orders[id := e], q) % TWO_64
  {
    TotalResize(orders, q, id, e);
    var change: int := orders[id].quantity - e.quantity;
    WrapAdd(Total(orders, q), -change);
  }

  lemma StandsInQueue(pool: seq<Order>, freeHead: int, free: seq<nat>, index: Index, b: Book,
                      bids: seq<PriceLevel>, asks: seq<PriceLevel>, id: u64)
    requires Consistent(pool, freeHead, free, index, b, bids, asks) && b.Complete() && id in b.orders
    ensures NoDup(b.Queue(b.orders[id].level)) && id in b.Queue(b.orders[id].level)
  {
    hide Records, Levels, Partitioned, FreeList;
  }

  /** The memory after the in-place branch of `modify`. */
  lemma DecreaseKeeps(pool: seq<Order>, freeHead: int, free: seq<nat>, index: Index, b: Book,
                      bids: seq<PriceLevel>, asks: seq<PriceLevel>, id: u64, e: Entry, v: PriceLevel, v': PriceLevel)
    requires id in b.orders && e.level == b.orders[id].level && id in index && index[id] < |pool| && b.Complete()
    requires |bids| == |asks| && e.level.price < |bids| && v == LevelAt(bids, asks, e.level)
    requires v' == v.(totalVolume := (v.totalVolume - (b.orders[id].quantity - e.quantity)) % TWO_64)
    requires Consistent(pool, freeHead, free, index, b, bids, asks)
    ensures Consistent(pool[index[id] := pool[index[id]].(quantity := e.quantity)], freeHead, free, index,
                       b.(orders := b.orders[id := e]), Store(bids, Buy, e.level, v'), Store(asks, Sell, e.level, v'))
    ensures b.(orders := b.orders[id := e]).Complete()
  {
    hide Consistent, Book.Complete, Store;
    VolumeOfLevel(pool, freeHead, free, index, b, bids, asks, e.level);
    StandsInQueue(pool, freeHead, free, index, b, bids, asks, id);
    DecreasedVolume(b.orders, b.Queue(e.level), id, e, v.totalVolume);
    ResizeKeeps(pool, freeHead, free, index, b, bids, asks, id, e, v');
    ResizeComplete(b, id, e);
  }

  lemma RequeueCompleteIf(pool: seq<Order>, freeHead: int, free: seq<nat>, index: Index, b: Book,
                          bids: seq<PriceLevel>, asks: seq<PriceLevel>, id: u64, e: Entry)
    requires Consistent(pool, freeHead, free, index, b, bids, asks) && b.Complete()
    requires id in b.orders && e.level == b.orders[id].level
    ensures id in b.Queue(e.level)
    ensures b.Dequeue(id).(orders := b.orders[id := e]).Enqueue(id).Complete()
  {
    RequeueComplete(b, id, e);
  }

  lemma SameQueueTotal(b: Book, id: u64, e: Entry)
    requires id in b.orders && id !in b.Queue(e.level)
    ensures Total(b.orders[id := e], b.Queue(e.level)) == Total(b.orders, b.Queue(e.level))
  {
    TotalFrame(b.orders, b.orders[id := e], b.Queue(e.level));
  }

  /** Writing the quantity of an order that stands in no queue. */
  lemma DetachedResize(pool: seq<Order>, freeHead: int, free: seq<nat>, index: Index, b: Book,
                       bids: seq<PriceLevel>, asks: seq<PriceLevel>, id: u64, e: Entry)
    requires Consistent(pool, freeHead, free, index, b, bids, asks)
    requires id in b.orders && e.level == b.orders[id].level && id !in b.Queue(e.level) && e.level.price < |bids|
    ensures Consistent(pool[index[id] := pool[index[id]].(quantity := e.quantity)], freeHead, free, index,
                       b.(orders := b.orders[id := e]), bids, asks)
  {
    NodeFields(pool, freeHead, free, index, b, bids, asks, id);
    hide Consistent;
    SameQueueTotal(b, id, e);
    var v := LevelAt(bids, asks, e.level);
    VolumeOfLevel(pool, freeHead, free, index, b, bids, asks, e.level);
    ResizeKeeps(pool, freeHead, free, index, b, bids, asks, id, e, v);
    assert Store(bids, Buy, e.level, v) == bids && Store(asks, Sell, e.level, v) == asks;
  }
}
