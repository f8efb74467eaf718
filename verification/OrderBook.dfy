/** The limit order book: a preallocated node pool with a free list, price-indexed levels of
    intrusive FIFO lists, and an open-addressing id map with tombstones, all updated in place. */
module OrderBook {
  import opened Machine
  import opened BookSpec
  import opened PoolLists
  import opened BookMemory
  import opened Probing

  /** The live slots whose value is the node `n`. */
  ghost function Holders(slots: seq<Slot<nat>>, n: nat): set<nat> {
    set i: nat | i < |slots| && slots[i].Live? && slots[i].value == n
  }

  lemma HoldersOf(slots: seq<Slot<nat>>, pool: seq<Order>, index: Index, n: nat)
    requires Represents(slots, index) && n < |pool|
    requires forall id :: id in index ==> index[id] < |pool| && pool[index[id]].id == id
    ensures IsLive(pool, index, n) <==> Holders(slots, n) != {}
    ensures forall i :: i in Holders(slots, n) ==> slots[i] == Live(pool[n].id, n)
    ensures forall i, j :: i in Holders(slots, n) && j in Holders(slots, n) ==> i == j
  {
    hide Chained;
    forall i | i in Holders(slots, n) ensures slots[i] == Live(pool[n].id, n) && IsLive(pool, index, n) {
      assert slots[i].key in index && slots[i].value == index[slots[i].key];
    }
    if IsLive(pool, index, n) {
      var i :| 0 <= i < |slots| && slots[i] == Live(pool[n].id, index[pool[n].id]);
      assert i in Holders(slots, n);
    }
  }

  class LimitOrderBook {
    const maxOrders: nat
    const maxPrice: nat
    const mapCapacity: nat
    const bids: array<PriceLevel>
    const asks: array<PriceLevel>
    const pool: array<Order>
    const orderMap: array<Slot<nat>>
    var freeListHead: int

    /** The abstract book, the node of every resting order, and the free nodes in list order. */
    ghost var book: Book
    ghost var index: Index
    ghost var free: seq<nat>
    /** Successful additions since construction. */
    ghost var adds: nat

    ghost predicate Shape()
      reads this
    {
      && pool.Length == maxOrders > 0 && bids.Length == asks.Length == maxPrice && bids != asks
      && orderMap.Length == mapCapacity == 2 * maxOrders
      && book.maxOrders == maxOrders && book.maxPrice == maxPrice
    }

    /** Pool, free list and levels hold the abstract book. */
    ghost predicate MemoryOk()
      reads this, pool, bids, asks
    {
      Shape() && Consistent(pool[..], freeListHead, free, index, book, bids[..], asks[..])
    }

    /** The id map holds the node of every resting order; each addition used up at most one empty slot. */
    ghost predicate MapOk()
      reads this, orderMap
    {
      && Shape()
      && Represents(orderMap[..], index)
      && |EmptySlots(orderMap[..])| + adds >= mapCapacity
    }

    ghost predicate Valid()
      reads this, pool, bids, asks, orderMap
    {
      MemoryOk() && MapOk() && book.Complete()
    }

    /** The probe loop of a lookup of `id` terminates. */
    ghost predicate LookupHalts(id: u64)
      reads this, orderMap
    {
      orderMap.Length > 0 && FindHalts(orderMap[..], id)
    }

    /** A lookup terminates exactly when its id is resting or an empty slot is left; the latter
        is certain before the book's 2 * maxOrders-th addition. */
    lemma LookupTerminates(id: u64)
      requires Valid()
      ensures LookupHalts(id) <==> id in book.orders || EmptySlots(orderMap[..]) != {}
      ensures adds < 2 * maxOrders ==> LookupHalts(id)
    {
      hide Consistent, Represents, EmptySlots, FindHalts, Book.Complete;
      OrderCount(pool[..], freeListHead, free, index, book, bids[..], asks[..]);
      FindHaltsWhen(orderMap[..], index, id);
    }

    /** Every node that is not free is the value of exactly one live slot of the id map, under the
        id that it holds; with PoolIsPartitioned, every node is free or resting, each at one place. */
    lemma NodeIsIndexedOnce(n: nat)
      requires Valid() && n < pool.Length
      ensures n !in free <==> Holders(orderMap[..], n) != {}
      ensures forall i, j :: i in Holders(orderMap[..], n) && j in Holders(orderMap[..], n) ==> i == j
      ensures forall i :: i in Holders(orderMap[..], n) ==> orderMap[i] == Live(pool[n].id, n)
    {
      PoolIsPartitioned(pool[..], freeListHead, free, index, book, bids[..], asks[..], n);
      NodesNameOrders(pool[..], freeListHead, free, index, book, bids[..], asks[..]);
      hide Consistent, Book.Complete, EmptySlots;
      HoldersOf(orderMap[..], pool[..], index, n);
    }

    constructor (maxOrders: nat, maxPrice: nat)
      requires maxOrders > 0
      ensures Valid() && fresh(pool) && fresh(bids) && fresh(asks) && fresh(orderMap)
      ensures this.maxOrders == maxOrders && this.maxPrice == maxPrice
      ensures book == EmptyBook(maxOrders, maxPrice) && adds == 0
      ensures orderMap.Length == 2 * maxOrders && forall i :: 0 <= i < orderMap.Length ==> orderMap[i].Empty?
    {
      this.maxOrders := maxOrders;
      this.maxPrice := maxPrice;
      mapCapacity := maxOrders * 2;
      bids := new PriceLevel[maxPrice](_ => PriceLevel(NIL, NIL, 0));
      asks := new PriceLevel[maxPrice](_ => PriceLevel(NIL, NIL, 0));
      pool := new Order[maxOrders](_ => Order(0, 0, 0, Buy, NIL, NIL));
      orderMap := new Slot<nat>[maxOrders * 2](_ => Empty);
      freeListHead := NIL;
      book := EmptyBook(maxOrders, maxPrice);
      index := map[];
      free := [];
      adds := 0;
      new;
      EmptyTable(orderMap[..]);
      InitMemoryPool();
    }

    /** Thread the free list through the whole pool, last node first. */
    method InitMemoryPool()
      requires Shape() && index == map[] && free == [] && book == EmptyBook(maxOrders, maxPrice)
      requires freeListHead == NIL
      requires forall l :: 0 <= l < maxPrice ==> bids[l] == asks[l] == PriceLevel(NIL, NIL, 0)
      modifies pool, `freeListHead, `free
      ensures MemoryOk()
    {
      for i := 0 to maxOrders
        invariant |free| == i && forall k :: 0 <= k < i ==> free[k] == i - 1 - k
        invariant FreeList(pool[..], freeListHead, free)
      {
        FreePush(pool[..], freeListHead, free, i);
        ghost var before := pool[..];
        pool[i] := pool[i].(next := freeListHead);
        assert pool[..] == before[i := before[i].(next := freeListHead)];
        freeListHead := i;
        free := [i] + free;
      }
      forall n: nat | n < maxOrders ensures n in free {
        assert free[maxOrders - 1 - n] == n;
      }
    }

    // ---------------------------------------------------------------- node pool

    method AllocateOrder() returns (n: int)
      requires FreeList(pool[..], freeListHead, free)
      modifies `freeListHead, `free
      ensures free == if old(free) == [] then [] else old(free)[1..]
      ensures n == FreeAt(old(free), 0)
      ensures n != NIL ==> 0 <= n < pool.Length && freeListHead == pool[n].next
      ensures n == NIL ==> freeListHead == old(freeListHead)
    {
      if freeListHead == NIL {
        return NIL;
      }
      n := freeListHead;
      freeListHead := pool[n].next;
      free := free[1..];
    }

    method DeallocateOrder(n: nat)
      requires n < pool.Length
      modifies pool, `freeListHead, `free
      ensures pool[..] == old(pool[..])[n := old(pool[n]).(next := old(freeListHead))]
      ensures freeListHead == n && free == [n] + old(free)
    {
      pool[n] := pool[n].(next := freeListHead);
      freeListHead := n;
      free := [n] + free;
    }

    // ---------------------------------------------------------------- id map

    /** Writes the first slot that is not live or has the key; no other slot. */
    method MapInsert(id: u64, n: nat)
      requires orderMap.Length == mapCapacity > 0
      requires exists i :: 0 <= i < mapCapacity && InsertStops(orderMap[i], id)
      modifies orderMap
      ensures SlotWritten(old(orderMap[..]), orderMap[..], id, n)
    {
      hide SlotWritten;
      ghost var slots := orderMap[..];
      ghost var home := id % mapCapacity;
      ghost var stop :| 0 <= stop < mapCapacity && InsertStops(slots[stop], id);
      var i := id % mapCapacity;
      while true
        invariant 0 <= i < mapCapacity && orderMap[..] == slots
        invariant forall j :: 0 <= j < mapCapacity && Dist(home, j, mapCapacity) < Dist(home, i, mapCapacity) ==>
                    !InsertStops(slots[j], id)
        decreases mapCapacity - Dist(home, i, mapCapacity)
      {
        if orderMap[i].Empty? || orderMap[i].Tomb? {
          assert FirstInsertStop(slots, id, i);
          orderMap[i] := Live(id, n);
          assert orderMap[..] == slots[i := Live(id, n)];
          WrittenAt(slots, orderMap[..], id, n, i);
          return;
        }
        if orderMap[i].key == id {
          assert FirstInsertStop(slots, id, i);
          orderMap[i] := Live(id, n);
          assert orderMap[..] == slots[i := Live(id, n)];
          WrittenAt(slots, orderMap[..], id, n, i);
          return;
        }
        NextIndex(home, i, stop, mapCapacity);
        i := (i + 1) % mapCapacity;
      }
    }

    /** The value of the live slot of the key, or null at the first empty slot. */
    method MapFind(id: u64) returns (n: int)
      requires orderMap.Length == mapCapacity > 0 && LookupHalts(id)
      ensures exists i :: 0 <= i < mapCapacity && FirstFindStop(orderMap[..], id, i)
                          && n == if orderMap[i].Empty? then NIL else orderMap[i].value
    {
      ghost var slots := orderMap[..];
      ghost var home := id % mapCapacity;
      FindHaltsIff(slots, id);
      ghost var stop :| 0 <= stop < mapCapacity && FindStops(slots[stop], id);
      var i := id % mapCapacity;
      while true
        invariant 0 <= i < mapCapacity
        invariant forall j :: 0 <= j < mapCapacity && Dist(home, j, mapCapacity) < Dist(home, i, mapCapacity) ==>
                    !FindStops(slots[j], id)
        decreases mapCapacity - Dist(home, i, mapCapacity)
      {
        if orderMap[i].Empty? {
          assert FirstFindStop(slots, id, i);
          return NIL;
        }
        if orderMap[i].Live? && orderMap[i].key == id {
          assert FirstFindStop(slots, id, i);
          return orderMap[i].value;
        }
        NextIndex(home, i, stop, mapCapacity);
        i := (i + 1) % mapCapacity;
      }
    }

    /** Turns the live slot of the key into a tombstone, unless an empty slot comes first. */
    method MapErase(id: u64)
      requires orderMap.Length == mapCapacity > 0 && LookupHalts(id)
      modifies orderMap
      ensures SlotErased(old(orderMap[..]), orderMap[..], id)
    {
      ghost var slots := orderMap[..];
      ghost var home := id % mapCapacity;
      FindHaltsIff(slots, id);
      ghost var stop :| 0 <= stop < mapCapacity && FindStops(slots[stop], id);
      var i := id % mapCapacity;
      while true
        invariant 0 <= i < mapCapacity && orderMap[..] == slots
        invariant forall j :: 0 <= j < mapCapacity && Dist(home, j, mapCapacity) < Dist(home, i, mapCapacity) ==>
                    !FindStops(slots[j], id)
        decreases mapCapacity - Dist(home, i, mapCapacity)
      {
        if orderMap[i].Empty? {
          assert FirstFindStop(slots, id, i);
          return;
        }
        if orderMap[i].Live? && orderMap[i].key == id {
          assert FirstFindStop(slots, id, i);
          orderMap[i] := Tomb(id);
          assert orderMap[..] == slots[i := Tomb(id)];
          return;
        }
        NextIndex(home, i, stop, mapCapacity);
        i := (i + 1) % mapCapacity;
      }
    }

    // ---------------------------------------------------------------- level lists

    method GetLevel(l: Level) returns (level: PriceLevel)
      requires l.price < bids.Length == asks.Length
      ensures level == LevelAt(bids[..], asks[..], l)
    {
      if l.side.Buy? {
        level := bids[l.price];
      } else {
        level := asks[l.price];
      }
    }

    method SetLevel(l: Level, level: PriceLevel)
      requires l.price < bids.Length == asks.Length && bids != asks
      modifies bids, asks
      ensures bids[..] == Store(old(bids[..]), Buy, l, level)
      ensures asks[..] == Store(old(asks[..]), Sell, l, level)
    {
      if l.side.Buy? {
        bids[l.price] := level;
      } else {
        asks[l.price] := level;
      }
    }

    /** Append node `n` to the list of its level and add its quantity to the level's volume. */
    method InsertOrder(n: nat)
      requires n < pool.Length && pool[n].price < bids.Length == asks.Length && bids != asks
      requires -1 <= LevelAt(bids[..], asks[..], LevelOfNode(pool[n])).tail < pool.Length
      modifies pool, bids, asks
      ensures var l := old(LevelOfNode(pool[n]));
              var v := old(LevelAt(bids[..], asks[..], LevelOfNode(pool[n])));
              var v' := Appended(v, n, old(pool[n]).quantity);
              && pool[..] == LinkLast(old(pool[..]), n, v.tail)
              && bids[..] == Store(old(bids[..]), Buy, l, v')
              && asks[..] == Store(old(asks[..]), Sell, l, v')
    {
      ghost var pool0 := pool[..];
      var o := pool[n];
      var level := GetLevel(LevelOfNode(o));
      ghost var tail := level.tail;
      pool[n] := o.(prev := level.tail, next := NIL);
      if level.tail != NIL {
        pool[level.tail] := pool[level.tail].(next := n);
      } else {
        level := level.(head := n);
      }
      level := level.(tail := n);
      level := level.(totalVolume := (level.totalVolume + o.quantity) % TWO_64);
      SetLevel(LevelOfNode(o), level);
      assert pool[..] == LinkLast(pool0, n, tail);
    }

    /** Unlink node `n` from the list of its level and take its quantity off the level's volume. */
    method RemoveOrder(n: nat)
      requires n < pool.Length && pool[n].price < bids.Length == asks.Length && bids != asks
      requires -1 <= pool[n].prev < pool.Length && -1 <= pool[n].next < pool.Length
      modifies pool, bids, asks
      ensures var l := old(LevelOfNode(pool[n]));
              var v' := Removed(old(LevelAt(bids[..], asks[..], LevelOfNode(pool[n]))), old(pool[n]));
              && pool[..] == Unlink(old(pool[..]), n)
              && bids[..] == Store(old(bids[..]), Buy, l, v')
              && asks[..] == Store(old(asks[..]), Sell, l, v')
    {
      ghost var pool0 := pool[..];
      var o := pool[n];
      var level := GetLevel(LevelOfNode(o));
      if o.prev != NIL {
        pool[o.prev] := pool[o.prev].(next := o.next);
      } else {
        level := level.(head := o.next);
      }
      if o.next != NIL {
        pool[o.next] := pool[o.next].(prev := o.prev);
      } else {
        level := level.(tail := o.prev);
      }
      level := level.(totalVolume := (level.totalVolume - o.quantity) % TWO_64);
      SetLevel(LevelOfNode(o), level);
      assert pool[..] == Unlink(pool0, n);
    }

    // ---------------------------------------------------------------- operations

    /** The part of `add` that fills a fresh node and links it. */
    method Place(n: nat, id: u64, e: Entry)
      requires n < pool.Length && e.level.price < bids.Length == asks.Length && bids != asks
      requires -1 <= LevelAt(bids[..], asks[..], e.level).tail < pool.Length
      modifies pool, bids, asks
      ensures var v := old(LevelAt(bids[..], asks[..], e.level));
              var v' := Appended(v, n, e.quantity);
              && pool[..] == LinkLast(old(pool[..])[n := Filled(old(pool[n]), id, e)], n, v.tail)
              && bids[..] == Store(old(bids[..]), Buy, e.level, v')
              && asks[..] == Store(old(asks[..]), Sell, e.level, v')
    {
      ghost var pool0 := pool[..];
      pool[n] := pool[n].(id := id);
      pool[n] := pool[n].(side := e.level.side);
      pool[n] := pool[n].(price := e.level.price);
      pool[n] := pool[n].(quantity := e.quantity);
      assert pool[..] == pool0[n := Filled(pool0[n], id, e)];
      InsertOrder(n);
    }

    /** The part of `add` after its two checks: takes a node, places it and indexes it. */
    method AddFresh(id: u64, e: Entry) returns (ok: bool)
      requires Valid() && id !in book.orders && e.level.price < maxPrice
      modifies pool, bids, asks, orderMap, `freeListHead, `book, `index, `free, `adds
      ensures Valid()
      ensures Outcome(book, ok) == AddOrder(old(book), id, e.level, e.quantity)
      ensures adds == old(adds) + if ok then 1 else 0
      ensures if ok then id in index && SlotWritten(old(orderMap[..]), orderMap[..], id, index[id])
              else orderMap[..] == old(orderMap[..])
    {
      hide Consistent, Represents, Book.Complete, LinkLast, SlotWritten, EmptySlots, FreeList, AddOrder, Appended,
           Store;
      ghost var pool0, bids0, asks0, slots0 := pool[..], bids[..], asks[..], orderMap[..];
      OrderCount(pool0, freeListHead, free, index, book, bids0, asks0);
      var n := AllocateOrder();
      if n == NIL {
        return false;
      }
      AddKeeps(pool0, old(freeListHead), old(free), index, book, bids0, asks0, id, e);
      Place(n, id, e);
      ghost var pool1, bids1, asks1 := pool[..], bids[..], asks[..];
      assert orderMap[..] == slots0;
      InsertHasRoom(slots0, index);
      MapInsert(id, n);
      KeyStored(slots0, orderMap[..], index, id, n);
      index := index[id := n];
      book := AddOrder(book, id, e.level, e.quantity).book;
      adds := adds + 1;
      assert pool[..] == pool1 && bids[..] == bids1 && asks[..] == asks1;
      assert Consistent(pool[..], freeListHead, free, index, book, bids[..], asks[..]);
      return true;
    }

    /** Adds a resting order, unless the price is out of range, the id is already resting or
        the pool is exhausted; then nothing changes. */
    method Add(id: u64, side: Side, price: u64, quantity: u64) returns (ok: bool)
      requires Valid()
      requires price < maxPrice ==> LookupHalts(id)
      modifies pool, bids, asks, orderMap, `freeListHead, `book, `index, `free, `adds
      ensures Valid()
      ensures Outcome(book, ok) == AddOrder(old(book), id, Level(side, price), quantity)
      ensures adds == old(adds) + if ok then 1 else 0
      ensures if ok then id in index && SlotWritten(old(orderMap[..]), orderMap[..], id, index[id])
              else orderMap[..] == old(orderMap[..])
    {
      if price >= maxPrice {
        return false;
      }
      var found := MapFind(id);
      KeyFound(orderMap[..], index, id, found);
      if found != NIL {
        return false;
      }
      ok := AddFresh(id, Entry(Level(side, price), quantity));
    }

    /** Removes a resting order; on an absent id nothing changes. */
    method Cancel(id: u64) returns (ok: bool)
      requires Valid() && LookupHalts(id)
      modifies pool, bids, asks, orderMap, `freeListHead, `book, `index, `free
      ensures Valid()
      ensures Outcome(book, ok) == CancelOrder(old(book), id)
      ensures if ok then SlotErased(old(orderMap[..]), orderMap[..], id) else orderMap[..] == old(orderMap[..])
    {
      hide Consistent, Book.Complete, Represents, FindHalts, EmptySlots;
      var n := MapFind(id);
      KeyFound(orderMap[..], index, id, n);
      OrderCount(pool[..], freeListHead, free, index, book, bids[..], asks[..]);
      if n == NIL {
        return false;
      }
      CancelFound(id, n);
      return true;
    }

    /** The part of `cancel` after the lookup: unlinks, unindexes and frees the node. */
    method CancelFound(id: u64, n: nat)
      requires Valid() && LookupHalts(id) && id in index && index[id] == n
      modifies pool, bids, asks, orderMap, `freeListHead, `book, `index, `free
      ensures Valid()
      ensures book == CancelOrder(old(book), id).book
      ensures SlotErased(old(orderMap[..]), orderMap[..], id)
    {
      hide Consistent, Represents, Book.Complete, Unlink, SlotErased, EmptySlots, FreeList, FindHalts, CancelOrder,
           Removed, Store;
      ghost var pool0, bids0, asks0, slots0 := pool[..], bids[..], asks[..], orderMap[..];
      ghost var head0, free0 := freeListHead, free;
      OrderCount(pool0, head0, free0, index, book, bids0, asks0);
      NodeOf(pool0, head0, free0, index, book, bids0, asks0, id);
      ghost var l := book.orders[id].level;
      ghost var v' := Removed(LevelAt(bids0, asks0, l), pool0[n]);
      CancelKeeps(pool0, head0, free0, index, book, bids0, asks0, id, v');
      RemoveOrder(n);
      assert bids[..] == Store(bids0, Buy, l, v') && asks[..] == Store(asks0, Sell, l, v');
      assert orderMap[..] == slots0;
      MapErase(id);
      KeyRemoved(slots0, orderMap[..], index, id);
      DeallocateOrder(n);
      assert pool[..] == Released(pool0, n, head0);
      index := index - {id};
      book := CancelOrder(book, id).book;
      assert Consistent(pool[..], freeListHead, free, index, book, bids[..], asks[..]);
    }

    /** Changes a resting order's quantity; zero cancels it, an increase sends it to the tail. */
    method Modify(id: u64, newQuantity: u64) returns (ok: bool)
      requires Valid() && LookupHalts(id)
      modifies pool, bids, asks, orderMap, `freeListHead, `book, `index, `free
      ensures Valid()
      ensures Outcome(book, ok) == ModifyOrder(old(book), id, newQuantity)
      ensures ok ==> if newQuantity == 0 then id !in book.orders
                     else id in book.orders && book.orders[id] == Entry(old(book).orders[id].level, newQuantity)
    {
      hide Consistent, Book.Complete, Represents, FindHalts, EmptySlots;
      var n := MapFind(id);
      KeyFound(orderMap[..], index, id, n);
      OrderCount(pool[..], freeListHead, free, index, book, bids[..], asks[..]);
      if n == NIL {
        return false;
      }
      if newQuantity == 0 {
        ok := Cancel(id);
        return;
      }
      NodeOf(pool[..], freeListHead, free, index, book, bids[..], asks[..], id);
      if newQuantity > pool[n].quantity {
        Increase(id, n, newQuantity);
      } else {
        Decrease(id, n, newQuantity);
      }
      return true;
    }

    /** The branch of `modify` for a larger quantity: the order loses its place in the queue. */
    method Increase(id: u64, n: nat, quantity: u64)
      requires Valid() && id in book.orders && index[id] == n
      modifies pool, bids, asks, `book
      ensures Valid()
      ensures var e := old(book).orders[id].(quantity := quantity);
              book == old(book).Dequeue(id).(orders := old(book).orders[id := e]).Enqueue(id)
    {
      hide Consistent, Represents, Book.Complete, Unlink, LinkLast, Removed, Appended, Store;
      ghost var bids0, asks0 := bids[..], asks[..];
      ghost var l, e := book.orders[id].level, book.orders[id].(quantity := quantity);
      ghost var d, r := book.Dequeue(id), book.Dequeue(id).(orders := book.orders[id := e]);
      NodeOf(pool[..], freeListHead, free, index, book, bids0, asks0, id);
      RequeueCompleteIf(pool[..], freeListHead, free, index, book, bids0, asks0, id, e);
      RemoveKeeps(pool[..], freeListHead, free, index, book, bids0, asks0, id);
      RemoveOrder(n);
      ghost var pool1, bids1, asks1 := pool[..], bids[..], asks[..];
      NodeFields(pool1, freeListHead, free, index, d, bids1, asks1, id);
      DetachedResize(pool1, freeListHead, free, index, d, bids1, asks1, id, e);
      pool[n] := pool[n].(quantity := quantity);
      assert pool[..] == pool1[n := pool1[n].(quantity := quantity)];
      assert bids[..] == bids1 && asks[..] == asks1;
      InsertKeeps(pool[..], freeListHead, free, index, r, bids1, asks1, id);
      InsertOrder(n);
      book := r.Enqueue(id);
      assert Consistent(pool[..], freeListHead, free, index, book, bids[..], asks[..]);
    }

    /** The branch of `modify` for a smaller or equal quantity: the order keeps its place. */
    method Decrease(id: u64, n: nat, quantity: u64)
      requires Valid() && id in book.orders && index[id] == n && quantity <= pool[n].quantity
      modifies pool, bids, asks, `book
      ensures Valid()
      ensures book == old(book).(orders := old(book).orders[id := old(book).orders[id].(quantity := quantity)])
    {
      hide Consistent, Represents, Book.Complete, Store;
      ghost var pool0, bids0, asks0 := pool[..], bids[..], asks[..];
      NodeOf(pool0, freeListHead, free, index, book, bids0, asks0, id);
      var o := pool[n];
      ghost var e := book.orders[id].(quantity := quantity);
      var level := GetLevel(LevelOfNode(o));
      ghost var v := level;
      level := level.(totalVolume := (level.totalVolume - (o.quantity - quantity)) % TWO_64);
      DecreaseKeeps(pool0, freeListHead, free, index, book, bids0, asks0, id, e, v, level);
      SetLevel(LevelOfNode(o), level);
      pool[n] := pool[n].(quantity := quantity);
      assert pool[..] == pool0[n := pool0[n].(quantity := quantity)];
      book := book.(orders := book.orders[id := e]);
      assert Consistent(pool[..], freeListHead, free, index, book, bids[..], asks[..]);
    }

    // ---------------------------------------------------------------- queries

    method GetVolumeAtPrice(side: Side, price: u64) returns (volume: u64)
      requires Valid()
      ensures volume == book.Volume(Level(side, price)) % TWO_64
    {
      hide Consistent;
      VolumeOfLevel(pool[..], freeListHead, free, index, book, bids[..], asks[..], Level(side, price));
      if price >= maxPrice {
        return 0;
      }
      if side.Buy? {
        volume := bids[price].totalVolume;
      } else {
        volume := asks[price].totalVolume;
      }
    }

    /** The fields of a resting order. */
    method GetOrder(id: u64) returns (order: Option<Order>)
      requires Valid() && LookupHalts(id)
      ensures order.None? <==> id !in book.orders
      ensures order.Some? ==>
                && Matches(order.value, id, book.orders[id])
                && order.value.id == id && order.value.quantity == book.orders[id].quantity
                && order.value.side == book.orders[id].level.side && order.value.price == book.orders[id].level.price
    {
      hide Consistent;
      var n := MapFind(id);
      KeyFound(orderMap[..], index, id, n);
      OrderCount(pool[..], freeListHead, free, index, book, bids[..], asks[..]);
      if n == NIL {
        return None;
      }
      NodeOf(pool[..], freeListHead, free, index, book, bids[..], asks[..], id);
      return Some(pool[n]);
    }
  }
}
