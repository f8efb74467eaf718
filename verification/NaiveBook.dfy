/** The repository's simple reference book, with a list of orders per price in ordered maps, and
    its agreement with the optimised book. */
module NaiveBook {
  import opened Machine
  import opened BookSpec
  import opened QueueLaws

  datatype NaiveOrder = NaiveOrder(id: u64, price: u64, quantity: u64, side: Side)

  /** A node of a list; iterators name it by its address. */
  datatype ListNode = ListNode(address: nat, order: NaiveOrder)

  datatype OrderLocation = OrderLocation(side: Side, price: u64, it: nat)

  type LevelMap = map<u64, seq<ListNode>>

  function ListAt(levels: LevelMap, price: u64): seq<ListNode> {
    if price in levels then levels[price] else []
  }

  function Ids(list: seq<ListNode>): (q: seq<u64>)
    ensures |q| == |list| && forall i :: 0 <= i < |list| ==> q[i] == list[i].order.id
  {
    seq(|list|, i requires 0 <= i < |list| => list[i].order.id)
  }

  /** `push_back` to the list of a price, which exists from then on. */
  function PushBack(levels: LevelMap, n: ListNode): LevelMap {
    levels[n.order.price := ListAt(levels, n.order.price) + [n]]
  }

  /** The iterator is valid for the list: it names one of its nodes. */
  ghost predicate IsIterator(list: seq<ListNode>, it: nat) {
    exists i :: 0 <= i < |list| && list[i].address == it
  }

  function Position(list: seq<ListNode>, it: nat): (i: nat)
    requires IsIterator(list, it)
    ensures i < |list| && list[i].address == it
  {
    if list[0].address == it then 0
    else
      assert forall i :: 0 < i < |list| ==> list[i] == list[1..][i - 1];
      1 + Position(list[1..], it)
  }

  /** Erase a node through an iterator, and the price with it when its list becomes empty. */
  function Erase(levels: LevelMap, price: u64, it: nat): LevelMap
    requires IsIterator(ListAt(levels, price), it)
  {
    var list := ListAt(levels, price);
    var rest := RemoveAt(list, Position(list, it));
    if rest == [] then levels - {price} else levels[price := rest]
  }

  predicate HoldsOrder(o: NaiveOrder, l: Level, b: Book) {
    && o.side == l.side && o.price == l.price
    && o.id in b.orders && b.orders[o.id] == Entry(l, o.quantity)
  }

  ghost predicate ListOk(list: seq<ListNode>, l: Level, b: Book) {
    && Ids(list) == b.Queue(l)
    && forall i :: 0 <= i < |list| ==> HoldsOrder(list[i].order, l, b)
  }

  /** One side holds the abstract queues, and no empty list. */
  ghost predicate SideOk(levels: LevelMap, side: Side, b: Book) {
    && (forall price: u64 :: ListOk(ListAt(levels, price), Level(side, price), b))
    && (forall price :: price in levels ==> levels[price] != [])
  }

  ghost predicate Located(orders: map<u64, OrderLocation>, b: Book) {
    && orders.Keys == b.orders.Keys
    && (forall id :: id in orders ==> Level(orders[id].side, orders[id].price) == b.orders[id].level)
    && (forall id :: id in orders ==> id in b.Queue(b.orders[id].level))
  }

  /** The stored iterators name the nodes of their orders, and no node twice. */
  ghost predicate IteratorsOk(levels: LevelMap, orders: map<u64, OrderLocation>) {
    && (forall price: u64, i :: 0 <= i < |ListAt(levels, price)| ==>
          var n := ListAt(levels, price)[i];
          n.order.id in orders ==> orders[n.order.id].it == n.address)
    && (forall x, y :: x in orders && y in orders && orders[x].it == orders[y].it ==> x == y)
  }

  /** The naive book's addition: no limit on prices or on the number of orders. */
  function NaiveAdd(b: Book, id: u64, l: Level, quantity: u64): Outcome {
    if id in b.orders then Outcome(b, false)
    else Outcome(b.(orders := b.orders[id := Entry(l, quantity)]).Enqueue(id), true)
  }

  /** The two books treat an addition alike exactly when the id is already resting or the
      optimised book's limits are respected. */
  lemma AddsAgreeWhen(b: Book, id: u64, l: Level, quantity: u64)
    ensures AddOrder(b, id, l, quantity) == NaiveAdd(b, id, l, quantity) <==>
            id in b.orders || (l.price < b.maxPrice && |b.orders| < b.maxOrders)
  {
  }

  lemma OtherList(list: seq<ListNode>, l: Level, b: Book, b': Book, id: u64)
    requires ListOk(list, l, b) && b'.Queue(l) == b.Queue(l)
    requires id in b.orders ==> id !in b.Queue(l)
    requires forall x :: x in b.orders && x != id ==> x in b'.orders && b'.orders[x] == b.orders[x]
    ensures ListOk(list, l, b')
  {
    forall i | 0 <= i < |list| ensures HoldsOrder(list[i].order, l, b') {
      assert Ids(list)[i] in b.Queue(l) && HoldsOrder(list[i].order, l, b);
    }
  }

  lemma PushBackKeeps(levels: LevelMap, side: Side, b: Book, n: ListNode)
    requires SideOk(levels, side, b) && b.Sound() && n.order.id !in b.orders
    ensures var o := n.order;
            SideOk(if o.side == side then PushBack(levels, n) else levels, side,
                   NaiveAdd(b, o.id, Level(o.side, o.price), o.quantity).book)
  {
    var o := n.order;
    var b' := NaiveAdd(b, o.id, Level(o.side, o.price), o.quantity).book;
    var levels' := if o.side == side then PushBack(levels, n) else levels;
    forall price: u64 ensures ListOk(ListAt(levels', price), Level(side, price), b') {
      var list := ListAt(levels, price);
      assert ListOk(list, Level(side, price), b);
      if side == o.side && price == o.price {
        AppendToList(list, b, n);
      } else {
        OtherList(list, Level(side, price), b, b', o.id);
      }
    }
  }

  lemma AppendToList(list: seq<ListNode>, b: Book, n: ListNode)
    requires n.order.id !in b.orders && ListOk(list, Level(n.order.side, n.order.price), b)
    ensures var o := n.order;
            var l := Level(o.side, o.price);
            ListOk(list + [n], l, NaiveAdd(b, o.id, l, o.quantity).book)
  {
    var o := n.order;
    var l := Level(o.side, o.price);
    var b' := NaiveAdd(b, o.id, l, o.quantity).book;
    assert Ids(list + [n]) == Ids(list) + [o.id];
    forall i | 0 <= i < |list + [n]| ensures HoldsOrder((list + [n])[i].order, l, b') {
      assert i < |list| ==> HoldsOrder(list[i].order, l, b);
    }
  }

  /** The stored iterator of a resting order is valid, and stands where the order stands in its queue. */
  lemma IteratorIsValid(levels: LevelMap, orders: map<u64, OrderLocation>, b: Book, id: u64)
    requires id in orders && id in b.orders && b.orders.Keys == orders.Keys
    requires var l := b.orders[id].level;
             && Level(orders[id].side, orders[id].price) == l && id in b.Queue(l)
             && ListOk(ListAt(levels, l.price), l, b) && IteratorsOk(levels, orders)
    ensures var list := ListAt(levels, orders[id].price);
            && IsIterator(list, orders[id].it)
            && Position(list, orders[id].it) == IndexOf(Ids(list), id)
  {
    var list := ListAt(levels, orders[id].price);
    var at := IndexOf(Ids(list), id);
    assert list[at].order.id == id && list[at].address == orders[id].it;
    var i := Position(list, orders[id].it);
    assert HoldsOrder(list[i].order, b.orders[id].level, b);
    assert Ids(list)[i] == id;
    FirstPosition(list, orders[id].it, id);
  }

  lemma {:induction false} FirstPosition(list: seq<ListNode>, it: nat, id: u64)
    requires IsIterator(list, it)
    requires forall i :: 0 <= i < |list| ==> (list[i].address == it <==> list[i].order.id == id)
    ensures Position(list, it) == IndexOf(Ids(list), id)
  {
    assert list[0].order.id == Ids(list)[0];
    if list[0].address != it {
      assert Ids(list)[1..] == Ids(list[1..]);
      assert forall i :: 0 < i < |list| ==> list[i] == list[1..][i - 1];
      FirstPosition(list[1..], it, id);
    }
  }

  /** What an erasure does to each list. */
  lemma ErasedLists(levels: LevelMap, at: u64, it: nat)
    requires IsIterator(ListAt(levels, at), it) && forall price :: price in levels ==> levels[price] != []
    ensures var levels' := Erase(levels, at, it);
            && (forall price :: price in levels' ==> levels'[price] != [])
            && forall price: u64 :: ListAt(levels', price) ==
                 if price == at then RemoveAt(ListAt(levels, at), Position(ListAt(levels, at), it))
                 else ListAt(levels, price)
  {
  }

  lemma EraseElsewhere(list: seq<ListNode>, l: Level, b: Book, id: u64)
    requires ListOk(list, l, b) && b.Sound() && id in b.orders && b.orders[id].level != l
    ensures ListOk(list, l, CancelOrder(b, id).book)
  {
    NotElsewhere(b, id, l);
    OtherList(list, l, b, CancelOrder(b, id).book, id);
  }

  lemma EraseKeeps(levels: LevelMap, side: Side, orders: map<u64, OrderLocation>, b: Book, id: u64)
    requires SideOk(levels, side, b) && b.Sound() && Located(orders, b) && IteratorsOk(levels, orders)
    requires id in orders
    ensures orders[id].side == side ==> IsIterator(ListAt(levels, orders[id].price), orders[id].it)
    ensures SideOk(if orders[id].side == side then Erase(levels, orders[id].price, orders[id].it) else levels, side,
                   CancelOrder(b, id).book)
  {
    hide ListOk, IsIterator, IteratorsOk, CancelOrder, Erase, Position, Book.Sound;
    var l := b.orders[id].level;
    if l.side == side {
      assert ListOk(ListAt(levels, l.price), Level(side, l.price), b);
      IteratorIsValid(levels, orders, b, id);
      ErasedLists(levels, l.price, orders[id].it);
      EraseFromList(ListAt(levels, l.price), b, id);
    }
    forall price: u64 | Level(side, price) != l
      ensures ListOk(ListAt(levels, price), Level(side, price), CancelOrder(b, id).book)
    {
      assert ListOk(ListAt(levels, price), Level(side, price), b);
      EraseElsewhere(ListAt(levels, price), Level(side, price), b, id);
    }
  }

  /** The iterators that stay stored stay valid when a node is added or erased. */
  lemma PushBackIterators(levels: LevelMap, side: Side, orders: map<u64, OrderLocation>, b: Book, n: ListNode)
    requires SideOk(levels, side, b) && orders.Keys == b.orders.Keys && IteratorsOk(levels, orders)
    requires n.order.id !in orders && forall x :: x in orders ==> orders[x].it != n.address
    ensures IteratorsOk(if n.order.side == side then PushBack(levels, n) else levels,
                        orders[n.order.id := OrderLocation(n.order.side, n.order.price, n.address)])
  {
    var orders' := orders[n.order.id := OrderLocation(n.order.side, n.order.price, n.address)];
    var levels' := if n.order.side == side then PushBack(levels, n) else levels;
    forall price: u64, i | 0 <= i < |ListAt(levels', price)| && ListAt(levels', price)[i].order.id in orders'
      ensures orders'[ListAt(levels', price)[i].order.id].it == ListAt(levels', price)[i].address
    {
      var list := ListAt(levels, price);
      assert ListOk(list, Level(side, price), b);
      if i < |list| {
        assert HoldsOrder(list[i].order, Level(side, price), b);
      }
    }
  }

  lemma EraseIterators(levels: LevelMap, orders: map<u64, OrderLocation>, id: u64)
    requires id in orders && IteratorsOk(levels, orders)
    ensures IteratorsOk(levels, orders - {id})
    ensures IsIterator(ListAt(levels, orders[id].price), orders[id].it) ==>
              IteratorsOk(Erase(levels, orders[id].price, orders[id].it), orders - {id})
  {
    if IsIterator(ListAt(levels, orders[id].price), orders[id].it) {
      var at := Position(ListAt(levels, orders[id].price), orders[id].it);
      var levels' := Erase(levels, orders[id].price, orders[id].it);
      forall price: u64, i | 0 <= i < |ListAt(levels', price)|
        ensures ListAt(levels', price)[i] in ListAt(levels, price)
      {
        if price == orders[id].price {
          assert ListAt(levels', price)[i] == ListAt(levels, price)[if i < at then i else i + 1];
        }
      }
    }
  }

  lemma NotElsewhere(b: Book, id: u64, l: Level)
    requires b.Sound() && id in b.orders && b.orders[id].level != l
    ensures id !in b.Queue(l)
  {
  }

  lemma EraseFromList(list: seq<ListNode>, b: Book, id: u64)
    requires b.Sound() && id in b.orders && id in b.Queue(b.orders[id].level)
    requires ListOk(list, b.orders[id].level, b)
    ensures IndexOf(Ids(list), id) < |list|
    ensures ListOk(RemoveAt(list, IndexOf(Ids(list), id)), b.orders[id].level, CancelOrder(b, id).book)
  {
    hide CancelOrder;
    var at := IndexOf(Ids(list), id);
    IdsRemoveAt(list, at);
    CancelledQueue(b, id);
    RestOk(list, b.orders[id].level, b, CancelOrder(b, id).book, at);
  }

  lemma RestOk(list: seq<ListNode>, l: Level, b: Book, b': Book, at: nat)
    requires ListOk(list, l, b) && NoDup(b.Queue(l)) && at < |list| && b'.orders == b.orders - {list[at].order.id}
    ensures forall i :: 0 <= i < |RemoveAt(list, at)| ==> HoldsOrder(RemoveAt(list, at)[i].order, l, b')
  {
    var rest := RemoveAt(list, at);
    forall i | 0 <= i < |rest| ensures HoldsOrder(rest[i].order, l, b') {
      var j := if i < at then i else i + 1;
      assert rest[i] == list[j] && HoldsOrder(list[j].order, l, b);
      assert b.Queue(l)[j] == list[j].order.id && b.Queue(l)[at] == list[at].order.id;
    }
  }

  lemma IdsRemoveAt(list: seq<ListNode>, at: nat)
    requires at < |list|
    ensures Ids(RemoveAt(list, at)) == RemoveAt(Ids(list), at)
  {
  }

  lemma CancelledQueue(b: Book, id: u64)
    requires id in b.orders
    ensures CancelOrder(b, id).book.Queue(b.orders[id].level) == Without(b.Queue(b.orders[id].level), id)
    ensures CancelOrder(b, id).book.orders == b.orders - {id}
  {
  }

  class NaiveOrderBook {
    var bids: LevelMap
    var asks: LevelMap
    var orders: map<u64, OrderLocation>
    /** The address of the next list node. */
    var nextAddress: nat
    /** The abstract book; its limits play no part here. */
    ghost var book: Book

    ghost predicate Valid()
      reads this
    {
      && book.Sound() && SideOk(bids, Buy, book) && SideOk(asks, Sell, book) && Located(orders, book)
      && IteratorsOk(bids, orders) && IteratorsOk(asks, orders)
      && forall id :: id in orders ==> orders[id].it < nextAddress
    }

    constructor (ghost maxOrders: nat, ghost maxPrice: nat)
      ensures Valid() && book == EmptyBook(maxOrders, maxPrice)
    {
      bids, asks, orders := map[], map[], map[];
      nextAddress := 0;
      book := EmptyBook(maxOrders, maxPrice);
    }

    method Add(id: u64, side: Side, price: u64, quantity: u64) returns (ok: bool)
      requires Valid()
      modifies this
      ensures Valid()
      ensures Outcome(book, ok) == NaiveAdd(old(book), id, Level(side, price), quantity)
    {
      hide SideOk, Book.Sound, IteratorsOk;
      if id in orders {
        return false;
      }
      var node := ListNode(nextAddress, NaiveOrder(id, price, quantity, side));
      PushBackKeeps(bids, Buy, book, node);
      PushBackKeeps(asks, Sell, book, node);
      PushBackIterators(bids, Buy, orders, book, node);
      PushBackIterators(asks, Sell, orders, book, node);
      NaiveAddKeeps(orders, book, id, Level(side, price), quantity, nextAddress);
      if side.Buy? {
        bids := PushBack(bids, node);
      } else {
        asks := PushBack(asks, node);
      }
      orders := orders[id := OrderLocation(side, price, nextAddress)];
      nextAddress := nextAddress + 1;
      book := NaiveAdd(book, id, Level(side, price), quantity).book;
      return true;
    }

    method Cancel(id: u64) returns (ok: bool)
      requires Valid()
      modifies this
      ensures Valid()
      ensures Outcome(book, ok) == CancelOrder(old(book), id)
    {
      hide SideOk, Book.Sound, IteratorsOk, IsIterator, Erase;
      if id !in orders {
        return false;
      }
      var loc := orders[id];
      EraseKeeps(bids, Buy, orders, book, id);
      EraseKeeps(asks, Sell, orders, book, id);
      EraseIterators(bids, orders, id);
      EraseIterators(asks, orders, id);
      NaiveCancelKeeps(orders, book, id);
      if loc.side.Buy? {
        bids := Erase(bids, loc.price, loc.it);
      } else {
        asks := Erase(asks, loc.price, loc.it);
      }
      orders := orders - {id};
      book := CancelOrder(book, id).book;
      return true;
    }
  }

  lemma NaiveAddKeeps(orders: map<u64, OrderLocation>, b: Book, id: u64, l: Level, quantity: u64, it: nat)
    requires b.Sound() && Located(orders, b) && id !in b.orders
    ensures NaiveAdd(b, id, l, quantity).book.Sound()
    ensures Located(orders[id := OrderLocation(l.side, l.price, it)], NaiveAdd(b, id, l, quantity).book)
  {
    hide Book.Sound, Located;
    var f := b.(orders := b.orders[id := Entry(l, quantity)]);
    UnqueuedSound(b, f, id);
    EnqueueSound(f, id);
    NaiveAddLocates(orders, b, id, l, quantity, it);
  }

  lemma NaiveAddLocates(orders: map<u64, OrderLocation>, b: Book, id: u64, l: Level, quantity: u64, it: nat)
    requires Located(orders, b) && id !in b.orders
    ensures Located(orders[id := OrderLocation(l.side, l.price, it)], NaiveAdd(b, id, l, quantity).book)
  {
    var b' := NaiveAdd(b, id, l, quantity).book;
    forall x | x in b'.orders ensures x in b'.Queue(b'.orders[x].level) {
      assert x != id ==> x in b.Queue(b.orders[x].level);
    }
  }

  lemma NaiveCancelKeeps(orders: map<u64, OrderLocation>, b: Book, id: u64)
    requires b.Sound() && Located(orders, b) && id in b.orders
    ensures CancelOrder(b, id).book.Sound()
    ensures Located(orders - {id}, CancelOrder(b, id).book)
  {
    CancelSound(b, id);
    DequeueSound(b, id);
    var b' := CancelOrder(b, id).book;
    forall x | x in b'.orders ensures x in b'.Queue(b'.orders[x].level) {
      assert x in b.Queue(b.orders[x].level);
      assert b'.Queue(b.orders[x].level) == b.Dequeue(id).Queue(b.orders[x].level);
    }
  }
}

/** The two books side by side. */
module BookComparison {
  import opened Machine
  import opened BookSpec
  import opened BookRuns
  import BookHistory
  import opened OrderBook
  import opened NaiveBook

  /** Additions and cancellations only, and every addition of a new id within the limits. */
  predicate WithinLimits(b: Book, ops: seq<Op>)
    decreases |ops|
  {
    ops == []
    || (&& (match ops[0]
            case Add(id, l, _) => id in b.orders || (l.price < b.maxPrice && |b.orders| < b.maxOrders)
            case Cancel(_) => true
            case Modify(_, _) => false)
        && WithinLimits(Apply(b, ops[0]).book, ops[1..]))
  }

  method NaiveExecute(naive: NaiveOrderBook, op: Op) returns (ok: bool)
    requires naive.Valid() && WithinLimits(naive.book, [op])
    modifies naive
    ensures naive.Valid() && Outcome(naive.book, ok) == Apply(old(naive.book), op)
  {
    hide NaiveOrderBook.Valid;
    match op
    case Add(id, l, quantity) =>
      AddsAgreeWhen(naive.book, id, l, quantity);
      ok := naive.Add(id, l.side, l.price, quantity);
    case Cancel(id) => ok := naive.Cancel(id);
  }

  /** On every run of additions and cancellations within the limits and the lookup bound, the
      optimised and the naive book return the same values and end with the same queues. */
  method CompareBooks(maxOrders: nat, maxPrice: nat, ops: seq<Op>)
    returns (fast: LimitOrderBook, slow: NaiveOrderBook, fastResults: seq<bool>, slowResults: seq<bool>)
    requires maxOrders > 0 && WithinLimits(EmptyBook(maxOrders, maxPrice), ops)
    requires SuccessfulAdds(EmptyBook(maxOrders, maxPrice), ops) < 2 * maxOrders
    ensures fast.Valid() && slow.Valid()
    ensures fastResults == slowResults == Results(EmptyBook(maxOrders, maxPrice), ops)
    ensures fast.book == slow.book == Run(EmptyBook(maxOrders, maxPrice), ops)
    ensures forall price: u64 :: Ids(ListAt(slow.bids, price)) == fast.book.Queue(Level(Buy, price))
    ensures forall price: u64 :: Ids(ListAt(slow.asks, price)) == fast.book.Queue(Level(Sell, price))
  {
    hide NaiveOrderBook.Valid, LimitOrderBook.Valid, Apply;
    ghost var empty := EmptyBook(maxOrders, maxPrice);
    slow := new NaiveOrderBook(maxOrders, maxPrice);
    slowResults := [];
    for i := 0 to |ops|
      invariant fresh(slow) && slow.Valid()
      invariant Run(slow.book, ops[i..]) == Run(empty, ops)
      invariant WithinLimits(slow.book, ops[i..])
      invariant slowResults + Results(slow.book, ops[i..]) == Results(empty, ops)
    {
      assert ops[i..][0] == ops[i] && ops[i..][1..] == ops[i + 1..];
      var ok := NaiveExecute(slow, ops[i]);
      slowResults := slowResults + [ok];
    }
    SameQueues(slow);
    fast, fastResults := BookHistory.ExecuteAll(maxOrders, maxPrice, ops);
  }

  lemma SameQueues(naive: NaiveOrderBook)
    requires naive.Valid()
    ensures forall price: u64 :: Ids(ListAt(naive.bids, price)) == naive.book.Queue(Level(Buy, price))
    ensures forall price: u64 :: Ids(ListAt(naive.asks, price)) == naive.book.Queue(Level(Sell, price))
  {
    forall price: u64
      ensures Ids(ListAt(naive.bids, price)) == naive.book.Queue(Level(Buy, price))
      ensures Ids(ListAt(naive.asks, price)) == naive.book.Queue(Level(Sell, price))
    {
      assert ListOk(ListAt(naive.bids, price), Level(Buy, price), naive.book);
      assert ListOk(ListAt(naive.asks, price), Level(Sell, price), naive.book);
    }
  }
}
