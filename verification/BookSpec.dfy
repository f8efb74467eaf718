/** The limit order book as its users see it: resting orders by id, and for every side and
    price one queue of ids in time priority. */
module BookSpec {
  import opened Machine

  datatype Side = Buy | Sell

  datatype Level = Level(side: Side, price: u64)

  datatype Entry = Entry(level: Level, quantity: u64)

  /** `maxOrders` and `maxPrice` are the construction parameters; a level without a queue in
      `queues` is empty. */
  datatype Book = Book(maxOrders: nat, maxPrice: nat, orders: map<u64, Entry>, queues: map<Level, seq<u64>>) {

    /** The ids resting at a level, oldest first. */
    function Queue(l: Level): seq<u64> {
      if l in queues then queues[l] else []
    }

    /** Queues hold only resting orders of their own level, each once. */
    ghost predicate Sound() {
      && (forall l, i :: 0 <= i < |Queue(l)| ==> Queue(l)[i] in orders && orders[Queue(l)[i]].level == l)
      && (forall l :: NoDup(Queue(l)))
    }

    /** Every resting order has a valid price and stands in its queue. */
    ghost predicate Complete() {
      forall id :: id in orders ==> orders[id].level.price < maxPrice && id in Queue(orders[id].level)
    }

    ghost predicate Wf() {
      Sound() && Complete() && |orders| <= maxOrders
    }

    /** Put a resting order at the tail of its queue. */
    function Enqueue(id: u64): Book
      requires id in orders
    {
      var l := orders[id].level;
      this.(queues := queues[l := Queue(l) + [id]])
    }

    /** Take an order out of its queue. */
    function Dequeue(id: u64): Book
      requires id in orders
    {
      var l := orders[id].level;
      this.(queues := queues[l := Without(Queue(l), id)])
    }

    /** The quantity resting at one level, as an unbounded sum. */
    function Volume(l: Level): nat {
      Total(orders, Queue(l))
    }
  }

  function IndexOf(q: seq<u64>, id: u64): (i: nat)
    ensures i <= |q| && (i < |q| <==> id in q) && (i < |q| ==> q[i] == id)
  {
    if q == [] || q[0] == id then 0 else 1 + IndexOf(q[1..], id)
  }

  function Without(q: seq<u64>, id: u64): (r: seq<u64>) {
    if id in q then RemoveAt(q, IndexOf(q, id)) else q
  }

  function Total(orders: map<u64, Entry>, q: seq<u64>): nat {
    if q == [] then 0
    else Total(orders, q[..|q| - 1]) + if q[|q| - 1] in orders then orders[q[|q| - 1]].quantity else 0
  }

  function EmptyBook(maxOrders: nat, maxPrice: nat): Book {
    Book(maxOrders, maxPrice, map[], map[])
  }

  // ------------------------------------------------------------------ operations

  datatype Outcome = Outcome(book: Book, ok: bool)

  function AddOrder(b: Book, id: u64, l: Level, quantity: u64): (r: Outcome)
    ensures r.book.maxOrders == b.maxOrders && r.book.maxPrice == b.maxPrice
  {
    if l.price >= b.maxPrice || id in b.orders || |b.orders| >= b.maxOrders then
      Outcome(b, false)
    else
      Outcome(b.(orders := b.orders[id := Entry(l, quantity)]).Enqueue(id), true)
  }

  function CancelOrder(b: Book, id: u64): (r: Outcome)
    ensures r.book.maxOrders == b.maxOrders && r.book.maxPrice == b.maxPrice
  {
    if id !in b.orders then
      Outcome(b, false)
    else
      Outcome(b.Dequeue(id).(orders := b.orders - {id}), true)
  }

  function ModifyOrder(b: Book, id: u64, quantity: u64): (r: Outcome)
    ensures r.book.maxOrders == b.maxOrders && r.book.maxPrice == b.maxPrice
  {
    if id !in b.orders then
      Outcome(b, false)
    else if quantity == 0 then
      CancelOrder(b, id)
    else if quantity > b.orders[id].quantity then
      Outcome(b.Dequeue(id).(orders := b.orders[id := b.orders[id].(quantity := quantity)]).Enqueue(id), true)
    else
      Outcome(b.(orders := b.orders[id := b.orders[id].(quantity := quantity)]), true)
  }
}
