/** Whole histories of a LimitOrderBook object: every run refines the abstract book, and the
    bound on additions behind which lookups may stop terminating is real. */
module BookHistory {
  import opened Machine
  import opened BookSpec
  import opened BookRuns
  import opened BookMemory
  import opened Probing
  import opened OrderBook

  method Execute(lob: LimitOrderBook, op: Op) returns (ok: bool)
    requires lob.Valid() && lob.adds < 2 * lob.maxOrders
    modifies lob, lob.pool, lob.bids, lob.asks, lob.orderMap
    ensures lob.Valid()
    ensures Outcome(lob.book, ok) == Apply(old(lob.book), op)
    ensures lob.adds == old(lob.adds) + if op.Add? && ok then 1 else 0
  {
    hide LimitOrderBook.Valid;
    lob.LookupTerminates(op.id);
    match op
    case Add(id, l, quantity) => ok := lob.Add(id, l.side, l.price, quantity);
    case Cancel(id) => ok := lob.Cancel(id);
    case Modify(id, quantity) => ok := lob.Modify(id, quantity);
  }

  /** Every run of operations on a fresh book, with fewer than 2 * maxOrders successful additions:
      the object returns what the abstract book returns and ends up holding it. */
  method ExecuteAll(maxOrders: nat, maxPrice: nat, ops: seq<Op>) returns (lob: LimitOrderBook, results: seq<bool>)
    requires maxOrders > 0 && SuccessfulAdds(EmptyBook(maxOrders, maxPrice), ops) < 2 * maxOrders
    ensures fresh(lob) && lob.Valid() && lob.maxOrders == maxOrders && lob.maxPrice == maxPrice
    ensures results == Results(EmptyBook(maxOrders, maxPrice), ops)
    ensures lob.book == Run(EmptyBook(maxOrders, maxPrice), ops)
    ensures lob.book.Wf()
    ensures forall id :: lob.LookupHalts(id)
  {
    hide LimitOrderBook.Valid, Apply;
    ghost var empty := EmptyBook(maxOrders, maxPrice);
    lob := new LimitOrderBook(maxOrders, maxPrice);
    results := [];
    for i := 0 to |ops|
      invariant fresh(lob.pool) && fresh(lob.bids) && fresh(lob.asks) && fresh(lob.orderMap)
      invariant lob.Valid() && lob.maxOrders == maxOrders && lob.maxPrice == maxPrice
      invariant Run(lob.book, ops[i..]) == Run(empty, ops)
      invariant results + Results(lob.book, ops[i..]) == Results(empty, ops)
      invariant lob.adds + SuccessfulAdds(lob.book, ops[i..]) == SuccessfulAdds(empty, ops)
    {
      assert ops[i..][0] == ops[i] && ops[i..][1..] == ops[i + 1..];
      var ok := Execute(lob, ops[i]);
      results := results + [ok];
    }
    RunWf(empty, ops);
    forall id ensures lob.LookupHalts(id) {
      lob.LookupTerminates(id);
    }
  }

  /** The table after the first `n` of its slots have been used and given up. */
  ghost predicate Spent(slots: seq<Slot<nat>>, n: nat) {
    forall j :: 0 <= j < |slots| ==> if j < n then slots[j].Tomb? else slots[j].Empty?
  }

  lemma SmallMod(n: nat, m: nat)
    requires n < m
    ensures n % m == n
  {
  }

  /** A key whose home slot stops the loop is dealt with there. */
  lemma HomeSlot(slots: seq<Slot<nat>>, n: u64, i: nat)
    requires n < |slots| && i < |slots|
    requires (FirstInsertStop(slots, n, i) && InsertStops(slots[n], n))
             || (FirstFindStop(slots, n, i) && FindStops(slots[n], n))
    ensures i == n
  {
    SmallMod(n, |slots|);
    if i != n {
      assert false;
    }
  }

  /** An insertion of key `n` takes slot `n`, the first empty one; its erasure leaves a tombstone. */
  lemma SpendSlot(s0: seq<Slot<nat>>, s1: seq<Slot<nat>>, s2: seq<Slot<nat>>, n: u64, v: nat)
    requires n < |s0| && Spent(s0, n)
    requires SlotWritten(s0, s1, n, v) && SlotErased(s1, s2, n)
    ensures Spent(s2, n + 1) && |s2| == |s0|
  {
    hide FirstInsertStop, FirstFindStop;
    var i :| 0 <= i < |s0| && FirstInsertStop(s0, n, i) && s1 == s0[i := Live(n, v)];
    HomeSlot(s0, n, i);
    var j :| 0 <= j < |s1| && FirstFindStop(s1, n, j) && s2 == if s1[j].Empty? then s1 else s1[j := Tomb(n)];
    HomeSlot(s1, n, j);
  }

  /** Add an order under the next id and cancel it at once. */
  method SpendOne(lob: LimitOrderBook, n: nat)
    requires lob.Valid() && n < lob.orderMap.Length == 2 * lob.maxOrders <= TWO_64 && lob.adds == n
    requires lob.maxPrice > 0 && lob.book.orders == map[] && Spent(lob.orderMap[..], n)
    modifies lob, lob.pool, lob.bids, lob.asks, lob.orderMap
    ensures lob.Valid() && lob.adds == n + 1
    ensures lob.book.orders == map[] && Spent(lob.orderMap[..], n + 1)
  {
    hide LimitOrderBook.Valid, LimitOrderBook.LookupHalts, FindHalts, SlotWritten, SlotErased, EmptySlots, Spent,
           AddOrder, CancelOrder;
    BookLimits(lob);
    AddThenCancel(lob.book, n, Level(Buy, 0), 1);
    ghost var s0 := lob.orderMap[..];
    lob.LookupTerminates(n);
    var added := lob.Add(n, Buy, 0, 1);
    ghost var s1, v := lob.orderMap[..], lob.index[n];
    lob.LookupTerminates(n);
    var cancelled := lob.Cancel(n);
    SpendSlot(s0, s1, lob.orderMap[..], n, v);
  }

  lemma AddThenCancel(b: Book, id: u64, l: Level, quantity: u64)
    requires b.orders == map[] && l.price < b.maxPrice && b.maxOrders > 0
    ensures var added := AddOrder(b, id, l, quantity);
            && added.ok && id in added.book.orders && CancelOrder(added.book, id).ok
            && CancelOrder(added.book, id).book.orders == map[]
  {
  }

  lemma BookLimits(lob: LimitOrderBook)
    requires lob.Valid()
    ensures lob.book.maxOrders == lob.maxOrders > 0 && lob.book.maxPrice == lob.maxPrice
  {
    hide Consistent, Represents;
  }

  /** The bound is tight: 2 * maxOrders additions, each cancelled at once, leave a book that is
      empty, consistent, and in which no lookup of any id terminates. */
  method SpendAllSlots(maxOrders: nat) returns (lob: LimitOrderBook)
    requires 0 < maxOrders && 2 * maxOrders <= TWO_64
    ensures lob.Valid() && lob.maxOrders == maxOrders && lob.adds == 2 * maxOrders
    ensures lob.book.orders == map[]
    ensures forall id :: !lob.LookupHalts(id)
  {
    hide LimitOrderBook.Valid, FindHalts;
    lob := new LimitOrderBook(maxOrders, 1);
    for i := 0 to 2 * maxOrders
      invariant fresh(lob) && fresh(lob.pool) && fresh(lob.bids) && fresh(lob.asks) && fresh(lob.orderMap)
      invariant lob.Valid() && lob.maxOrders == maxOrders && lob.maxPrice == 1 && lob.adds == i
      invariant lob.book.orders == map[]
      invariant lob.orderMap.Length == 2 * maxOrders && Spent(lob.orderMap[..], i)
    {
      SpendOne(lob, i);
    }
    forall id ensures !FindHalts(lob.orderMap[..], id) {
      FindHaltsIff(lob.orderMap[..], id);
    }
  }
}
