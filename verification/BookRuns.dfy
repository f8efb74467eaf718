/** Properties of whole runs of the book's operations: well-formedness, time priority,
    and when the 64-bit volume of a level is its exact quantity sum. */
module BookRuns {
  import opened Machine
  import opened BookSpec
  import opened QueueLaws

  datatype Op = Add(id: u64, level: Level, quantity: u64) | Cancel(id: u64) | Modify(id: u64, quantity: u64)

  function Apply(b: Book, op: Op): Outcome {
    match op
    case Add(id, l, quantity) => AddOrder(b, id, l, quantity)
    case Cancel(id) => CancelOrder(b, id)
    case Modify(id, quantity) => ModifyOrder(b, id, quantity)
  }

  function Run(b: Book, ops: seq<Op>): Book
    decreases |ops|
  {
    if ops == [] then b else Run(Apply(b, ops[0]).book, ops[1..])
  }

  function Results(b: Book, ops: seq<Op>): (r: seq<bool>)
    ensures |r| == |ops|
    decreases |ops|
  {
    if ops == [] then [] else [Apply(b, ops[0]).ok] + Results(Apply(b, ops[0]).book, ops[1..])
  }

  function SuccessfulAdds(b: Book, ops: seq<Op>): (n: nat)
    ensures n <= |ops|
    decreases |ops|
  {
    if ops == [] then 0
    else (if ops[0].Add? && Apply(b, ops[0]).ok then 1 else 0) + SuccessfulAdds(Apply(b, ops[0]).book, ops[1..])
  }

  lemma StepWf(b: Book, op: Op)
    requires b.Wf()
    ensures Apply(b, op).book.Wf()
  {
    hide Book.Wf, AddOrder, CancelOrder, ModifyOrder;
    match op
    case Add(id, l, quantity) => OperationsKeepWf(b, id, l, quantity);
    case Cancel(id) => OperationsKeepWf(b, id, Level(Buy, 0), 0);
    case Modify(id, quantity) => OperationsKeepWf(b, id, Level(Buy, 0), quantity);
  }

  lemma {:induction false} RunWf(b: Book, ops: seq<Op>)
    requires b.Wf()
    ensures Run(b, ops).Wf()
    decreases |ops|
  {
    if ops != [] {
      StepWf(b, ops[0]);
      RunWf(Apply(b, ops[0]).book, ops[1..]);
    }
  }

  // ------------------------------------------------------------------ what each operation answers and leaves

  /** Answers and entries. An operation succeeds exactly under its conditions and else changes nothing. An
      addition, and a modification to another quantity than 0, leave the order with exactly the quantity
      given, at the level it was added at; a cancellation and a modification to 0 remove it. No other
      order is touched. */
  lemma OperationMeans(b: Book, op: Op)
    ensures var r := Apply(b, op);
            && (op.Add? ==>
                  (r.ok <==> op.level.price < b.maxPrice && op.id !in b.orders && |b.orders| < b.maxOrders))
            && (op.Cancel? || op.Modify? ==> (r.ok <==> op.id in b.orders))
            && (!r.ok ==> r.book == b)
            && (r.ok && (op.Cancel? || (op.Modify? && op.quantity == 0)) ==> op.id !in r.book.orders)
            && (r.ok && op.Add? ==> op.id in r.book.orders && r.book.orders[op.id] == Entry(op.level, op.quantity))
            && (r.ok && op.Modify? && op.quantity != 0 ==>
                  op.id in r.book.orders && r.book.orders[op.id] == Entry(b.orders[op.id].level, op.quantity))
            && (forall x :: x in r.book.orders && x != op.id ==> x in b.orders)
            && (forall x :: x in b.orders && x != op.id ==> x in r.book.orders && r.book.orders[x] == b.orders[x])
            && r.book.maxOrders == b.maxOrders && r.book.maxPrice == b.maxPrice
  {
  }

  /** Queues. An addition goes to the tail of its level; a removal closes the gap; an increase moves the
      order from its place to the tail; any other modification leaves it there. No other queue changes. */
  lemma QueuesMean(b: Book, op: Op)
    requires b.Complete() && Apply(b, op).ok
    ensures var b' := Apply(b, op).book;
            var l := if op.Add? then op.level else b.orders[op.id].level;
            && (forall m :: m != l ==> b'.Queue(m) == b.Queue(m))
            && (op.Add? ==> b'.Queue(l) == b.Queue(l) + [op.id])
            && (op.Modify? && 0 < op.quantity <= b.orders[op.id].quantity ==> b'.Queue(l) == b.Queue(l))
            && (op.Cancel? || (op.Modify? && !(0 < op.quantity <= b.orders[op.id].quantity)) ==>
                  exists p :: 0 <= p < |b.Queue(l)| && b.Queue(l)[p] == op.id
                    && b'.Queue(l) == b.Queue(l)[..p] + b.Queue(l)[p + 1..]
                                      + if op.Modify? && op.quantity > 0 then [op.id] else [])
  {
    OperationMeans(b, op);
    hide Without, AddOrder, CancelOrder, Book.Queue;
    match op
    case Add(id, l, quantity) =>
      AddedQueues(b, id, l, quantity);
    case Cancel(id) =>
      RemovedQueues(b, id);
      Gap(b.Queue(b.orders[id].level), id, []);
    case Modify(id, quantity) =>
      if quantity == 0 {
        RemovedQueues(b, id);
        Gap(b.Queue(b.orders[id].level), id, []);
      } else if quantity > b.orders[id].quantity {
        RaisedQueues(b, id, quantity);
        Gap(b.Queue(b.orders[id].level), id, [id]);
      } else {
        LoweredQueues(b, id, quantity);
      }
  }

  lemma AddedQueues(b: Book, id: u64, l: Level, quantity: u64)
    requires AddOrder(b, id, l, quantity).ok
    ensures var b' := AddOrder(b, id, l, quantity).book;
            b'.Queue(l) == b.Queue(l) + [id] && forall m :: m != l ==> b'.Queue(m) == b.Queue(m)
  {
  }

  lemma RemovedQueues(b: Book, id: u64)
    requires id in b.orders
    ensures var b', l := CancelOrder(b, id).book, b.orders[id].level;
            b'.Queue(l) == Without(b.Queue(l), id) && forall m :: m != l ==> b'.Queue(m) == b.Queue(m)
  {
  }

  lemma RaisedQueues(b: Book, id: u64, quantity: u64)
    requires id in b.orders && quantity > b.orders[id].quantity
    ensures var b', l := ModifyOrder(b, id, quantity).book, b.orders[id].level;
            b'.Queue(l) == Without(b.Queue(l), id) + [id] && forall m :: m != l ==> b'.Queue(m) == b.Queue(m)
  {
    hide Without;
  }

  lemma LoweredQueues(b: Book, id: u64, quantity: u64)
    requires id in b.orders && 0 < quantity <= b.orders[id].quantity
    ensures forall m :: ModifyOrder(b, id, quantity).book.Queue(m) == b.Queue(m)
  {
  }

  lemma Gap(q: seq<u64>, id: u64, more: seq<u64>)
    ensures id in q ==> exists p :: 0 <= p < |q| && q[p] == id && Without(q, id) + more == q[..p] + q[p + 1..] + more
  {
    if id in q {
      var p := IndexOf(q, id);
      assert q[p] == id && Without(q, id) == q[..p] + q[p + 1..];
    }
  }

  /** The operation gives the order `x` a quantity: it adds it, or modifies it while it rests. */
  predicate Gives(b: Book, op: Op, x: u64) {
    && op.id == x
    && ((op.Add? && x !in b.orders && op.level.price < b.maxPrice && |b.orders| < b.maxOrders)
        || (op.Modify? && x in b.orders))
  }

  /** The quantity last given to `x` in the run, if any. */
  function LastGiven(b: Book, ops: seq<Op>, x: u64): Option<u64>
    decreases |ops|
  {
    if ops == [] then None
    else
      var later := LastGiven(Apply(b, ops[0]).book, ops[1..], x);
      if later.Some? then later else if Gives(b, ops[0], x) then Some(ops[0].quantity) else None
  }

  /** Over every run, an order that rests at the end has the quantity last given to it by an addition or a
      modification, and the one it started with if there was none. */
  lemma {:induction false} QuantityIsLastGiven(b: Book, ops: seq<Op>, x: u64)
    requires x in Run(b, ops).orders
    ensures LastGiven(b, ops, x).Some? ==> Run(b, ops).orders[x].quantity == LastGiven(b, ops, x).value
    ensures LastGiven(b, ops, x).None? ==>
              x in b.orders && Run(b, ops).orders[x] == b.orders[x]
    decreases |ops|
  {
    if ops != [] {
      OperationMeans(b, ops[0]);
      hide Apply;
      QuantityIsLastGiven(Apply(b, ops[0]).book, ops[1..], x);
    }
  }

  /** A run is its operations one after the other, each on the book that the earlier ones left. */
  lemma {:induction false} RunIsStepwise(b: Book, ops: seq<Op>, op: Op)
    ensures Run(b, ops + [op]) == Apply(Run(b, ops), op).book
    ensures Results(b, ops + [op]) == Results(b, ops) + [Apply(Run(b, ops), op).ok]
    ensures SuccessfulAdds(b, ops + [op])
            == SuccessfulAdds(b, ops) + if op.Add? && Apply(Run(b, ops), op).ok then 1 else 0
    decreases |ops|
  {
    hide Apply;
    if ops == [] {
      assert [op][1..] == [] && [] + [op] == [op];
      assert Results(b, [op]) == [Apply(b, op).ok] + [];
    } else {
      assert (ops + [op])[1..] == ops[1..] + [op];
      RunIsStepwise(Apply(b, ops[0]).book, ops[1..], op);
    }
  }

  // ------------------------------------------------------------------ time priority

  ghost predicate Precedes(q: seq<u64>, x: u64, y: u64) {
    exists i, j :: 0 <= i < j < |q| && q[i] == x && q[j] == y
  }

  /** `x` and `y` rest at the same level, `x` with priority over `y`. */
  ghost predicate Ahead(b: Book, x: u64, y: u64) {
    && x in b.orders && y in b.orders && b.orders[x].level == b.orders[y].level
    && Precedes(b.Queue(b.orders[x].level), x, y)
  }

  /** The operation increases the quantity of the resting order `x`. */
  predicate Raises(b: Book, op: Op, x: u64) {
    op.Modify? && op.id == x && x in b.orders && op.quantity > b.orders[x].quantity
  }

  ghost predicate StaysLive(b: Book, ops: seq<Op>, x: u64)
    decreases |ops|
  {
    x in b.orders && (ops == [] || StaysLive(Apply(b, ops[0]).book, ops[1..], x))
  }

  /** Which of `x` and `y` was the last to have its quantity increased in the run, if any. */
  ghost function LastRaised(b: Book, ops: seq<Op>, x: u64, y: u64): Option<u64>
    decreases |ops|
  {
    if ops == [] then None
    else
      var later := LastRaised(Apply(b, ops[0]).book, ops[1..], x, y);
      if later.Some? then later
      else if Raises(b, ops[0], x) then Some(x)
      else if Raises(b, ops[0], y) then Some(y)
      else None
  }

  lemma PrecedesAppend(q: seq<u64>, z: u64, x: u64, y: u64)
    requires Precedes(q, x, y)
    ensures Precedes(q + [z], x, y)
  {
    var i, j :| 0 <= i < j < |q| && q[i] == x && q[j] == y;
    assert (q + [z])[i] == x && (q + [z])[j] == y;
  }

  /** Where an element stands after the removal of another one. */
  lemma RemoveAtPlace(q: seq<u64>, p: nat, i: nat)
    requires p < |q| && i < |q| && i != p
    ensures var i' := if i < p then i else i - 1; i' < |RemoveAt(q, p)| && RemoveAt(q, p)[i'] == q[i]
  {
  }

  lemma PrecedesWithout(q: seq<u64>, z: u64, x: u64, y: u64)
    requires Precedes(q, x, y) && z != x && z != y
    ensures Precedes(Without(q, z), x, y)
  {
    var i, j :| 0 <= i < j < |q| && q[i] == x && q[j] == y;
    if z in q {
      var p := IndexOf(q, z);
      RemoveAtPlace(q, p, i);
      RemoveAtPlace(q, p, j);
      var i', j' := if i < p then i else i - 1, if j < p then j else j - 1;
      assert 0 <= i' < j' < |RemoveAt(q, p)| && RemoveAt(q, p)[i'] == x && RemoveAt(q, p)[j'] == y;
    }
  }

  lemma TailIsLast(q: seq<u64>, z: u64, x: u64)
    requires NoDup(q) && x in q && x != z
    ensures Precedes(Without(q, z) + [z], x, z)
  {
    WithoutMembers(q, z);
    var r := Without(q, z);
    var i :| 0 <= i < |r| && r[i] == x;
    assert (r + [z])[i] == x && (r + [z])[|r|] == z;
  }

  lemma PriorityCancel(b: Book, id: u64, x: u64, y: u64)
    requires Ahead(b, x, y) && x in CancelOrder(b, id).book.orders && y in CancelOrder(b, id).book.orders
    ensures Ahead(CancelOrder(b, id).book, x, y)
  {
    if id in b.orders {
      PrecedesWithout(b.Queue(b.orders[x].level), id, x, y);
    }
  }

  lemma PriorityRequeue(b: Book, id: u64, e: Entry, x: u64, y: u64)
    requires b.Sound() && Ahead(b, x, y) && id in b.orders && b.orders[id].level == e.level && x != y
    ensures var b' := b.Dequeue(id).(orders := b.orders[id := e]).Enqueue(id);
            if id == x then Ahead(b', y, x) else Ahead(b', x, y)
  {
    var q := b.Queue(b.orders[x].level);
    assert NoDup(q);
    var b' := b.Dequeue(id).(orders := b.orders[id := e]).Enqueue(id);
    if id == x || id == y {
      assert b'.Queue(e.level) == Without(q, id) + [id];
      TailIsLast(q, id, if id == x then y else x);
    } else {
      PrecedesWithout(q, id, x, y);
      PrecedesAppend(Without(q, id), id, x, y);
    }
  }

  /** One operation keeps the order of two orders that both stay, unless it raises the first. */
  lemma PriorityStep(b: Book, op: Op, x: u64, y: u64)
    requires b.Wf() && x != y && Ahead(b, x, y)
    requires x in Apply(b, op).book.orders && y in Apply(b, op).book.orders
    ensures if Raises(b, op, x) then Ahead(Apply(b, op).book, y, x) else Ahead(Apply(b, op).book, x, y)
  {
    hide Book.Sound, Book.Complete;
    match op
    case Add(id, m, quantity) =>
      PrecedesAppend(b.Queue(b.orders[x].level), id, x, y);
    case Cancel(id) =>
      PriorityCancel(b, id, x, y);
    case Modify(id, quantity) =>
      if quantity == 0 {
        PriorityCancel(b, id, x, y);
      } else if id in b.orders {
        PriorityRequeue(b, id, b.orders[id].(quantity := quantity), x, y);
      }
  }

  /** Time priority over whole runs: the final order of two orders that stay at a level is their
      initial one, except that the last of them to have its quantity increased is behind. */
  lemma {:induction false} TimePriority(b: Book, ops: seq<Op>, x: u64, y: u64)
    requires b.Wf() && x != y && Ahead(b, x, y)
    requires StaysLive(b, ops, x) && StaysLive(b, ops, y)
    ensures if LastRaised(b, ops, x, y) == Some(x) then Ahead(Run(b, ops), y, x) else Ahead(Run(b, ops), x, y)
    decreases |ops|
  {
    hide Ahead, Raises, Apply, Book.Wf;
    if ops != [] {
      var b' := Apply(b, ops[0]).book;
      StepWf(b, ops[0]);
      PriorityStep(b, ops[0], x, y);
      if Raises(b, ops[0], x) {
        TimePriority(b', ops[1..], y, x);
        LastRaisedSymmetric(b', ops[1..], x, y);
      } else {
        TimePriority(b', ops[1..], x, y);
      }
    }
  }

  lemma {:induction false} LastRaisedSymmetric(b: Book, ops: seq<Op>, x: u64, y: u64)
    ensures LastRaised(b, ops, x, y) == LastRaised(b, ops, y, x)
    ensures LastRaised(b, ops, x, y) in {None, Some(x), Some(y)}
    decreases |ops|
  {
    if ops != [] {
      LastRaisedSymmetric(Apply(b, ops[0]).book, ops[1..], x, y);
    }
  }

  // ------------------------------------------------------------------ queues are in order of arrival

  /** The operation puts `x` at the tail of a queue: a successful addition or an increase. */
  predicate Arrives(b: Book, op: Op, x: u64) {
    (op.Add? && op.id == x && Apply(b, op).ok) || Raises(b, op, x)
  }

  /** The position in the run of the last operation that put `x` at a tail, or -1. */
  function LastArrival(b: Book, ops: seq<Op>, x: u64): (n: int)
    ensures -1 <= n < |ops|
    decreases |ops|
  {
    if ops == [] then -1
    else
      var later := LastArrival(Apply(b, ops[0]).book, ops[1..], x);
      if later >= 0 then later + 1 else if Arrives(b, ops[0], x) then 0 else -1
  }

  lemma WithoutPrecedes(q: seq<u64>, z: u64, x: u64, y: u64)
    requires Precedes(Without(q, z), x, y)
    ensures Precedes(q, x, y)
  {
    var r := Without(q, z);
    var i, j :| 0 <= i < j < |r| && r[i] == x && r[j] == y;
    if z in q {
      var p := IndexOf(q, z);
      var i', j' := if i < p then i else i + 1, if j < p then j else j + 1;
      assert 0 <= i' < j' < |q| && q[i'] == x && q[j'] == y;
    }
  }

  lemma AppendPrecedes(q: seq<u64>, z: u64, x: u64, y: u64)
    requires Precedes(q + [z], x, y) && z !in q
    ensures x != z && (y == z || Precedes(q, x, y))
  {
    var i, j :| 0 <= i < j < |q + [z]| && (q + [z])[i] == x && (q + [z])[j] == y;
    assert x == q[i];
    assert j < |q| ==> q[j] == y;
  }

  lemma RequeueArrival(b: Book, id: u64, e: Entry, x: u64, y: u64)
    requires b.Sound() && id in b.orders && b.orders[id].level == e.level
    requires Ahead(b.Dequeue(id).(orders := b.orders[id := e]).Enqueue(id), x, y)
    ensures x != id && (y == id || Ahead(b, x, y))
  {
    var l := b.orders[x].level;
    assert NoDup(b.Queue(l));
    WithoutMembers(b.Queue(l), id);
    if l == e.level {
      AppendPrecedes(Without(b.Queue(l), id), id, x, y);
      if y != id {
        WithoutPrecedes(b.Queue(l), id, x, y);
      }
    } else {
      QueuedHere(b, l, x, y);
    }
  }

  lemma QueuedHere(b: Book, l: Level, x: u64, y: u64)
    requires b.Sound() && Precedes(b.Queue(l), x, y)
    ensures x in b.orders && b.orders[x].level == l && y in b.orders && b.orders[y].level == l
  {
  }

  /** Who is ahead after an operation did not arrive with it, and was ahead before unless the other arrived. */
  lemma ArrivalStep(b: Book, op: Op, x: u64, y: u64)
    requires b.Wf() && Ahead(Apply(b, op).book, x, y)
    ensures !Arrives(b, op, x)
    ensures Arrives(b, op, y) || Ahead(b, x, y)
  {
    match op
    case Add(id, l, quantity) =>
      if Apply(b, op).ok {
        AddArrival(b, id, l, quantity, x, y);
      }
    case Cancel(id) =>
      CancelArrival(b, id, x, y);
    case Modify(id, quantity) =>
      if quantity == 0 {
        CancelArrival(b, id, x, y);
      } else if id in b.orders && quantity > b.orders[id].quantity {
        RequeueArrival(b, id, b.orders[id].(quantity := quantity), x, y);
      }
  }

  lemma AddArrival(b: Book, id: u64, l: Level, quantity: u64, x: u64, y: u64)
    requires b.Sound() && AddOrder(b, id, l, quantity).ok && Ahead(AddOrder(b, id, l, quantity).book, x, y)
    ensures x != id && (y == id || Ahead(b, x, y))
  {
    var b' := AddOrder(b, id, l, quantity).book;
    var m := b'.orders[x].level;
    UnqueuedSound(b, b, id);
    if m == l {
      AppendPrecedes(b.Queue(l), id, x, y);
    } else {
      QueuedHere(b, m, x, y);
    }
  }

  lemma CancelArrival(b: Book, id: u64, x: u64, y: u64)
    requires Ahead(CancelOrder(b, id).book, x, y)
    ensures Ahead(b, x, y)
  {
    if id in b.orders && b.orders[id].level == b.orders[x].level {
      WithoutPrecedes(b.Queue(b.orders[x].level), id, x, y);
    }
  }

  lemma {:induction false} ArrivalRun(b: Book, ops: seq<Op>, x: u64, y: u64)
    requires b.Wf() && Ahead(Run(b, ops), x, y)
    ensures LastArrival(b, ops, x) < LastArrival(b, ops, y)
            || (LastArrival(b, ops, x) == LastArrival(b, ops, y) == -1 && Ahead(b, x, y))
    decreases |ops|
  {
    hide Ahead, Arrives, Book.Wf, Apply;
    if ops != [] {
      var b' := Apply(b, ops[0]).book;
      StepWf(b, ops[0]);
      ArrivalRun(b', ops[1..], x, y);
      if LastArrival(b', ops[1..], y) == -1 {
        ArrivalStep(b, ops[0], x, y);
      }
    }
  }

  /** After any run on a fresh book every queue is strictly sorted by last arrival: the time at
      which each order was added or last had its quantity increased. */
  lemma QueuesAreInArrivalOrder(maxOrders: nat, maxPrice: nat, ops: seq<Op>, l: Level, i: nat, j: nat)
    requires i < j < |Run(EmptyBook(maxOrders, maxPrice), ops).Queue(l)|
    ensures var empty := EmptyBook(maxOrders, maxPrice);
            var q := Run(empty, ops).Queue(l);
            0 <= LastArrival(empty, ops, q[i]) < LastArrival(empty, ops, q[j])
  {
    var empty := EmptyBook(maxOrders, maxPrice);
    var b := Run(empty, ops);
    var x, y := b.Queue(l)[i], b.Queue(l)[j];
    RunWf(empty, ops);
    QueuedHere(b, l, x, y);
    ArrivalRun(empty, ops, x, y);
    Arrived(empty, ops, x);
  }

  lemma {:induction false} Arrived(b: Book, ops: seq<Op>, x: u64)
    requires x !in b.orders && x in Run(b, ops).orders
    ensures LastArrival(b, ops, x) >= 0
    decreases |ops|
  {
    if ops != [] {
      var b' := Apply(b, ops[0]).book;
      if x !in b'.orders {
        Arrived(b', ops[1..], x);
      }
    }
  }

  // ------------------------------------------------------------------ exact volumes

  ghost predicate SmallQuantities(b: Book) {
    forall id :: id in b.orders ==> b.orders[id].quantity < TWO_32
  }

  predicate SmallOp(op: Op) {
    op.Cancel? || op.quantity < TWO_32
  }

  lemma {:induction false} TotalBound(orders: map<u64, Entry>, q: seq<u64>)
    requires forall id :: id in orders ==> orders[id].quantity < TWO_32
    ensures Total(orders, q) <= |q| * (TWO_32 - 1)
  {
    if q != [] {
      TotalBound(orders, q[..|q| - 1]);
    }
  }

  lemma {:induction false} RunKeepsSmall(b: Book, ops: seq<Op>)
    requires SmallQuantities(b) && forall i :: 0 <= i < |ops| ==> SmallOp(ops[i])
    ensures SmallQuantities(Run(b, ops))
    decreases |ops|
  {
    if ops != [] {
      assert SmallOp(ops[0]);
      RunKeepsSmall(Apply(b, ops[0]).book, ops[1..]);
    }
  }

  /** After any run with quantities below 2^32 on a book of at most 2^32 orders, the 64-bit
      volume of every level is the exact sum of the quantities resting there. */
  lemma VolumeExact(b: Book, ops: seq<Op>, l: Level)
    requires b.Wf() && SmallQuantities(b) && b.maxOrders <= TWO_32
    requires forall i :: 0 <= i < |ops| ==> SmallOp(ops[i])
    ensures Run(b, ops).Volume(l) % TWO_64 == Run(b, ops).Volume(l)
  {
    hide Book.Wf, SmallQuantities, Total;
    RunWf(b, ops);
    RunKeepsSmall(b, ops);
    RunKeepsLimits(b, ops);
    SmallVolume(Run(b, ops), l);
  }

  lemma SmallVolume(b: Book, l: Level)
    requires b.Wf() && SmallQuantities(b) && b.maxOrders <= TWO_32
    ensures b.Volume(l) < TWO_64
  {
    var q := b.Queue(l);
    assert NoDup(q);
    NoDupBound(q, b.orders.Keys);
    TotalBound(b.orders, q);
  }

  lemma {:induction false} RunKeepsLimits(b: Book, ops: seq<Op>)
    ensures Run(b, ops).maxOrders == b.maxOrders && Run(b, ops).maxPrice == b.maxPrice
    decreases |ops|
  {
    if ops != [] {
      RunKeepsLimits(Apply(b, ops[0]).book, ops[1..]);
    }
  }
}
