/** The execution management system: an insert-only open-addressing table of orders, updated in
    place, whose empty slots are those with key 0 and state NONE. */
module Ems {
  import opened Machine
  import opened Probing
  import opened EmsSpec

  datatype HashEntry = HashEntry(key: u64, value: EMSOrder)

  const ZEROED := HashEntry(0, EMSOrder(0, 0, 0, 0, NONE))

  predicate IsEmptyEntry(e: HashEntry) {
    e.key == 0 && e.value.state == NONE
  }

  /** A table entry as a slot of the probing theory; there are no tombstones. */
  function View(e: HashEntry): Slot<EMSOrder> {
    if IsEmptyEntry(e) then Empty else Live(e.key, e.value)
  }

  function Views(table: seq<HashEntry>): (slots: seq<Slot<EMSOrder>>)
    ensures |slots| == |table| && forall i :: 0 <= i < |table| ==> slots[i] == View(table[i])
  {
    seq(|table|, i requires 0 <= i < |table| => View(table[i]))
  }

  lemma ViewsUpdate(table: seq<HashEntry>, i: nat, e: HashEntry)
    requires i < |table|
    ensures Views(table[i := e]) == Views(table)[i := View(e)]
  {
  }

  /** The table holds the orders, and every slot not empty is one of them. */
  ghost predicate Holds(table: seq<HashEntry>, orders: Orders) {
    && Represents(Views(table), orders)
    && |EmptySlots(Views(table))| + |orders| == |table|
    && AllConsistent(orders)
  }

  /** A new order in the first empty slot. */
  lemma InsertHolds(table: seq<HashEntry>, orders: Orders, o: EMSOrder, i: nat)
    requires Holds(table, orders) && i < |table| && o.orderId !in orders && Consistent(o.orderId, o)
    requires FirstFindStop(Views(table), o.orderId, i)
    ensures IsEmptyEntry(table[i])
    ensures Holds(table[i := HashEntry(o.orderId, o)], orders[o.orderId := o])
  {
    var slots := Views(table);
    FirstStop(slots, orders, o.orderId, i);
    assert FirstInsertStop(slots, o.orderId, i) by {
      forall j | 0 <= j < |slots| && Dist(o.orderId % |slots|, j, |slots|) < Dist(o.orderId % |slots|, i, |slots|)
        ensures !InsertStops(slots[j], o.orderId)
      {
        assert !FindStops(slots[j], o.orderId);
      }
    }
    KeyInserted(slots, orders, o.orderId, o, i);
    ViewsUpdate(table, i, HashEntry(o.orderId, o));
  }

  /** A known order's entry rewritten in place. */
  lemma RewriteHolds(table: seq<HashEntry>, orders: Orders, id: u64, o: EMSOrder, i: nat)
    requires Holds(table, orders) && i < |table| && id in orders && Consistent(id, o)
    requires FirstFindStop(Views(table), id, i)
    ensures table[i] == HashEntry(id, orders[id])
    ensures Holds(table[i := HashEntry(id, o)], orders[id := o])
  {
    FirstStop(Views(table), orders, id, i);
    ViewsUpdate(table, i, HashEntry(id, o));
    ValueRewritten(Views(table), orders, id, o, i);
  }

  lemma ValueRewritten<V>(slots: seq<Slot<V>>, m: map<u64, V>, id: u64, v: V, i: nat)
    requires Represents(slots, m) && i < |slots| && id in m && slots[i] == Live(id, m[id])
    ensures Represents(slots[i := Live(id, v)], m[id := v])
    ensures EmptySlots(slots[i := Live(id, v)]) == EmptySlots(slots)
  {
    var slots' := slots[i := Live(id, v)];
    ChainedAfter(slots, slots');
    KeysRewritten(slots, m, id, v, i);
    hide Chained, UniqueKeys, Agrees;
    CoversAfter(slots, slots', m, m[id := v], i);
    hide Covers;
  }

  lemma KeysRewritten<V>(slots: seq<Slot<V>>, m: map<u64, V>, id: u64, v: V, i: nat)
    requires Agrees(slots, m) && UniqueKeys(slots) && i < |slots| && id in m && slots[i] == Live(id, m[id])
    ensures Agrees(slots[i := Live(id, v)], m[id := v]) && UniqueKeys(slots[i := Live(id, v)])
  {
  }

  class ExecutionManagementSystem {
    const maxOrders: nat
    const mapCapacity: nat
    const orderMap: array<HashEntry>
    ghost var orders: Orders

    ghost predicate Valid()
      reads this, orderMap
    {
      orderMap.Length == mapCapacity == 2 * maxOrders > 0 && Holds(orderMap[..], orders)
    }

    /** The probe loop for `id` terminates. */
    ghost predicate LookupHalts(id: u64)
      reads this, orderMap
    {
      orderMap.Length > 0 && FindHalts(Views(orderMap[..]), id)
    }

    /** A lookup terminates exactly when its order is known or not all 2 * maxOrders slots are
        taken, and slots once taken are never given back. */
    lemma LookupTerminates(id: u64)
      requires Valid()
      ensures LookupHalts(id) <==> id in orders || |orders| < 2 * maxOrders
      ensures |orders| <= 2 * maxOrders
    {
      hide Represents, FindHalts;
      FindHaltsWhen(Views(orderMap[..]), orders, id);
      assert |EmptySlots(Views(orderMap[..]))| == 0 <==> EmptySlots(Views(orderMap[..])) == {};
    }

    constructor (maxOrders: nat)
      requires maxOrders > 0
      ensures Valid() && fresh(orderMap) && this.maxOrders == maxOrders && orders == map[]
    {
      this.maxOrders := maxOrders;
      mapCapacity := maxOrders * 2;
      orderMap := new HashEntry[maxOrders * 2](_ => ZEROED);
      orders := map[];
      new;
      EmptyTable(Views(orderMap[..]));
    }

    /** The slot where the probe loop for `id` stops. Insertion and lookup share this loop. */
    method Probe(id: u64) returns (i: nat)
      requires orderMap.Length == mapCapacity > 0 && LookupHalts(id)
      ensures i < mapCapacity && FirstFindStop(Views(orderMap[..]), id, i)
    {
      ghost var slots := Views(orderMap[..]);
      ghost var home := id % mapCapacity;
      FindHaltsIff(slots, id);
      ghost var stop :| 0 <= stop < mapCapacity && FindStops(slots[stop], id);
      i := id % mapCapacity;
      while true
        invariant 0 <= i < mapCapacity
        invariant forall j :: 0 <= j < mapCapacity && Dist(home, j, mapCapacity) < Dist(home, i, mapCapacity) ==>
                    !FindStops(slots[j], id)
        decreases mapCapacity - Dist(home, i, mapCapacity)
      {
        if IsEmptyEntry(orderMap[i]) {
          return;
        }
        if orderMap[i].key == id {
          return;
        }
        NextIndex(home, i, stop, mapCapacity);
        i := (i + 1) % mapCapacity;
      }
    }

    /** Takes the first empty slot, or overwrites the entry that already has the id. */
    method MapInsert(order: EMSOrder)
      requires Valid() && LookupHalts(order.orderId) && Consistent(order.orderId, order)
      modifies orderMap, `orders
      ensures Valid() && orders == old(orders)[order.orderId := order]
    {
      hide Holds;
      ghost var table := orderMap[..];
      var i := Probe(order.orderId);
      if order.orderId in orders {
        RewriteHolds(table, orders, order.orderId, order, i);
      } else {
        InsertHolds(table, orders, order, i);
      }
      if IsEmptyEntry(orderMap[i]) {
        orderMap[i] := HashEntry(order.orderId, order);
      } else {
        orderMap[i] := orderMap[i].(value := order);
      }
      assert orderMap[..] == table[i := HashEntry(order.orderId, order)];
      orders := orders[order.orderId := order];
    }

    /** The index of the order's entry, or null. */
    method MapFind(id: u64) returns (i: int)
      requires Valid() && LookupHalts(id)
      ensures i == NIL <==> id !in orders
      ensures i != NIL ==>
                && 0 <= i < orderMap.Length && FirstFindStop(Views(orderMap[..]), id, i)
                && orderMap[i] == HashEntry(id, orders[id])
    {
      var at := Probe(id);
      FirstStop(Views(orderMap[..]), orders, id, at);
      if IsEmptyEntry(orderMap[at]) {
        return NIL;
      }
      return at;
    }

    /** Write through the pointer that a lookup has returned. */
    method Rewrite(id: u64, i: nat, order: EMSOrder)
      requires Valid() && id in orders && Consistent(id, order)
      requires i < orderMap.Length && FirstFindStop(Views(orderMap[..]), id, i)
      modifies orderMap, `orders
      ensures Valid() && orders == old(orders)[id := order]
    {
      hide Holds;
      ghost var table := orderMap[..];
      RewriteHolds(table, orders, id, order, i);
      orderMap[i] := orderMap[i].(value := order);
      assert orderMap[..] == table[i := HashEntry(id, order)];
      orders := orders[id := order];
    }

    lemma OrderConsistent(id: u64)
      requires Valid() && id in orders
      ensures Consistent(id, orders[id])
    {
    }

    method OnOrderSent(orderId: u64, price: u32, quantity: u32) returns (ok: bool)
      requires Valid() && LookupHalts(orderId)
      modifies orderMap, `orders
      ensures Valid()
      ensures ok == Taken(old(orders), Sent(orderId, price, quantity))
      ensures orders == Apply(old(orders), Sent(orderId, price, quantity))
      ensures ok ==> orderId in orders && orders[orderId] == EMSOrder(orderId, price, quantity, 0, PENDING_NEW)
    {
      hide ExecutionManagementSystem.Valid;
      var found := MapFind(orderId);
      if found != NIL {
        return false;
      }
      MapInsert(EMSOrder(orderId, price, quantity, 0, PENDING_NEW));
      return true;
    }

    method OnOrderAccepted(orderId: u64) returns (ok: bool)
      requires Valid() && LookupHalts(orderId)
      modifies orderMap, `orders
      ensures Valid()
      ensures ok == Taken(old(orders), Accepted(orderId)) && orders == Apply(old(orders), Accepted(orderId))
      ensures ok ==> orderId in orders && orders[orderId] == old(orders)[orderId].(state := NEW)
    {
      hide ExecutionManagementSystem.Valid, FirstFindStop;
      var i := MapFind(orderId);
      if i == NIL {
        return false;
      }
      OrderConsistent(orderId);
      if orderMap[i].value.state != PENDING_NEW {
        return false;
      }
      Rewrite(orderId, i, orderMap[i].value.(state := NEW));
      return true;
    }

    method OnOrderRejected(orderId: u64) returns (ok: bool)
      requires Valid() && LookupHalts(orderId)
      modifies orderMap, `orders
      ensures Valid()
      ensures ok == Taken(old(orders), Rejected(orderId)) && orders == Apply(old(orders), Rejected(orderId))
      ensures ok ==> orderId in orders && orders[orderId] == old(orders)[orderId].(state := REJECTED)
    {
      hide ExecutionManagementSystem.Valid, FirstFindStop;
      var i := MapFind(orderId);
      if i == NIL {
        return false;
      }
      OrderConsistent(orderId);
      Rewrite(orderId, i, orderMap[i].value.(state := REJECTED));
      return true;
    }

    method OnOrderExecuted(orderId: u64, fillQuantity: u32, fillPrice: u32) returns (ok: bool)
      requires Valid() && LookupHalts(orderId)
      modifies orderMap, `orders
      ensures Valid()
      ensures ok == Taken(old(orders), Executed(orderId, fillQuantity, fillPrice))
      ensures orders == Apply(old(orders), Executed(orderId, fillQuantity, fillPrice))
      ensures ok ==>
                && orderId in orders
                && orders[orderId].executedQuantity
                   == (old(orders)[orderId].executedQuantity + fillQuantity) % 0x1_0000_0000
                && orders[orderId].state == if orders[orderId].executedQuantity < orders[orderId].originalQuantity
                                            then PARTIALLY_FILLED else FILLED
    {
      hide ExecutionManagementSystem.Valid, FirstFindStop;
      var i := MapFind(orderId);
      if i == NIL {
        return false;
      }
      OrderConsistent(orderId);
      var order := orderMap[i].value;
      if order.state == CANCELED || order.state == REJECTED {
        return false;
      }
      order := order.(executedQuantity := (order.executedQuantity + fillQuantity) % TWO_32);
      if order.executedQuantity >= order.originalQuantity {
        order := order.(state := FILLED);
      } else {
        order := order.(state := PARTIALLY_FILLED);
      }
      Rewrite(orderId, i, order);
      return true;
    }

    method OnOrderCanceled(orderId: u64) returns (ok: bool)
      requires Valid() && LookupHalts(orderId)
      modifies orderMap, `orders
      ensures Valid()
      ensures ok == Taken(old(orders), Canceled(orderId)) && orders == Apply(old(orders), Canceled(orderId))
      ensures ok ==> orderId in orders && orders[orderId] == old(orders)[orderId].(state := CANCELED)
    {
      hide ExecutionManagementSystem.Valid, FirstFindStop;
      var i := MapFind(orderId);
      if i == NIL {
        return false;
      }
      OrderConsistent(orderId);
      Rewrite(orderId, i, orderMap[i].value.(state := CANCELED));
      return true;
    }

    method GetOrderState(orderId: u64) returns (state: OrderState)
      requires Valid() && LookupHalts(orderId)
      ensures state == if orderId in orders then orders[orderId].state else NONE
      ensures state == NONE <==> orderId !in orders
    {
      var i := MapFind(orderId);
      if i == NIL {
        return NONE;
      }
      OrderConsistent(orderId);
      return orderMap[i].value.state;
    }
  }

  /** Every run of events on a fresh system, with fewer than 2 * maxOrders distinct orders ever
      sent: the object answers and ends as the table of orders does. */
  method ProcessAll(maxOrders: nat, events: seq<Event>) returns (ems: ExecutionManagementSystem, results: seq<bool>)
    requires maxOrders > 0 && |Run(map[], events)| < 2 * maxOrders
    ensures fresh(ems) && ems.Valid()
    ensures results == Results(map[], events) && ems.orders == Run(map[], events)
  {
    hide ExecutionManagementSystem.Valid, Apply, Taken;
    ems := new ExecutionManagementSystem(maxOrders);
    results := [];
    for i := 0 to |events|
      invariant fresh(ems.orderMap) && ems.Valid() && ems.maxOrders == maxOrders
      invariant Run(ems.orders, events[i..]) == Run(map[], events)
      invariant results + Results(ems.orders, events[i..]) == Results(map[], events)
    {
      assert events[i..][0] == events[i] && events[i..][1..] == events[i + 1..];
      RunGrows(ems.orders, events[i..]);
      var ok := Process(ems, events[i]);
      results := results + [ok];
    }
  }

  lemma {:induction false} RunGrows(m: Orders, events: seq<Event>)
    ensures |m| <= |Run(m, events)|
    decreases |events|
  {
    if events != [] {
      RunGrows(Apply(m, events[0]), events[1..]);
    }
  }

  method Process(ems: ExecutionManagementSystem, e: Event) returns (ok: bool)
    requires ems.Valid() && |ems.orders| < 2 * ems.maxOrders
    modifies ems, ems.orderMap
    ensures ems.Valid() && ok == Taken(old(ems.orders), e) && ems.orders == Apply(old(ems.orders), e)
  {
    hide ExecutionManagementSystem.Valid;
    ems.LookupTerminates(e.id);
    match e
    case Sent(id, price, quantity) => ok := ems.OnOrderSent(id, price, quantity);
    case Accepted(id) => ok := ems.OnOrderAccepted(id);
    case Rejected(id) => ok := ems.OnOrderRejected(id);
    case Executed(id, fill, price) => ok := ems.OnOrderExecuted(id, fill, price);
    case Canceled(id) => ok := ems.OnOrderCanceled(id);
  }

  /** The bound on orders ever sent is real: after 2 * maxOrders orders, each of them rejected, which
      frees no slot, no lookup of an unknown order terminates. */
  method FillTable(maxOrders: nat) returns (ems: ExecutionManagementSystem)
    requires 0 < maxOrders && 2 * maxOrders <= TWO_64
    ensures ems.Valid() && ems.maxOrders == maxOrders && |ems.orders| == 2 * maxOrders
    ensures forall id :: id in ems.orders ==> Dead(ems.orders[id])
    ensures forall id :: ems.LookupHalts(id) <==> id in ems.orders
  {
    hide ExecutionManagementSystem.Valid, ExecutionManagementSystem.LookupHalts;
    ems := new ExecutionManagementSystem(maxOrders);
    for n := 0 to 2 * maxOrders
      invariant fresh(ems) && fresh(ems.orderMap)
      invariant ems.Valid() && ems.maxOrders == maxOrders && |ems.orders| == n
      invariant forall id :: id in ems.orders ==> id < n && Dead(ems.orders[id])
    {
      ems.LookupTerminates(n);
      var sent := ems.OnOrderSent(n, 0, 0);
      ems.LookupTerminates(n);
      var rejected := ems.OnOrderRejected(n);
    }
    forall id ensures ems.LookupHalts(id) <==> id in ems.orders {
      ems.LookupTerminates(id);
    }
  }
}
