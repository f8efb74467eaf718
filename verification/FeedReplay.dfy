/** The matching thread's fold of parsed market data messages over the book. */
module FeedReplay {
  import opened Machine
  import opened BookSpec
  import opened BookRuns
  import opened OrderBook
  import Itch
  import Q = SpscProtocol

  type InternalMessage = Itch.InternalMessage

  predicate IsReduction(m: InternalMessage) {
    m.kind == 'E' || m.kind == 'C' || m.kind == 'X'
  }

  /** The book operation that a message amounts to; an unknown kind or a reduction of an
      order that is not resting amounts to none. */
  function OperationOf(b: Book, m: InternalMessage): Option<Op> {
    if m.kind == 'A' then Some(Add(m.id, Level(m.side, m.price), m.quantity))
    else if m.kind == 'D' then Some(Cancel(m.id))
    else if IsReduction(m) && m.id in b.orders then
      if b.orders[m.id].quantity <= m.quantity then Some(Cancel(m.id))
      else Some(Modify(m.id, b.orders[m.id].quantity - m.quantity))
    else None
  }

  function Consume(b: Book, m: InternalMessage): Book {
    match OperationOf(b, m)
    case None => b
    case Some(op) => Apply(b, op).book
  }

  function Replay(b: Book, msgs: seq<InternalMessage>): Book
    decreases |msgs|
  {
    if msgs == [] then b else Replay(Consume(b, msgs[0]), msgs[1..])
  }

  /** What each message does, kind by kind. 'E', 'C' and 'X' take their shares off a resting order and
      remove it when they reach what is left; 'D' removes it; 'A' adds an order that the book has room for;
      no other message, and no other order, is affected. */
  lemma MessageMeans(b: Book, m: InternalMessage)
    ensures var b' := Consume(b, m);
            && (m.kind in {'E', 'C', 'X'} && m.id in b.orders ==>
                  (if m.quantity >= b.orders[m.id].quantity then m.id !in b'.orders
                   else m.id in b'.orders
                        && b'.orders[m.id] == Entry(b.orders[m.id].level, b.orders[m.id].quantity - m.quantity)))
            && (m.kind == 'D' ==> m.id !in b'.orders)
            && (m.kind == 'A' && m.id !in b.orders && m.price < b.maxPrice && |b.orders| < b.maxOrders ==>
                  m.id in b'.orders && b'.orders[m.id] == Entry(Level(m.side, m.price), m.quantity)
                  && b'.Queue(Level(m.side, m.price)) == b.Queue(Level(m.side, m.price)) + [m.id])
            && (m.kind == 'A' && !(m.id !in b.orders && m.price < b.maxPrice && |b.orders| < b.maxOrders) ==> b' == b)
            && (m.kind !in {'A', 'E', 'C', 'X', 'D'} || (m.kind != 'A' && m.id !in b.orders) ==> b' == b)
            && (forall x :: x in b'.orders && x != m.id ==> x in b.orders)
            && (forall x :: x in b.orders && x != m.id ==> x in b'.orders && b'.orders[x] == b.orders[x])
  {
  }

  // ------------------------------------------------------------------ what replay leaves of an order

  /** Shares executed or cancelled from order `id` by the messages. */
  function Reductions(msgs: seq<InternalMessage>, id: u64): nat
    decreases |msgs|
  {
    if msgs == [] then 0
    else (if IsReduction(msgs[0]) && msgs[0].id == id then msgs[0].quantity else 0) + Reductions(msgs[1..], id)
  }

  /** The reductions of an order are the 'E', 'C' and 'X' messages of its id, and nothing else. */
  lemma {:induction false} ReductionsMean(msgs: seq<InternalMessage>, m: InternalMessage, id: u64)
    ensures Reductions(msgs + [m], id)
            == Reductions(msgs, id) + if m.kind in {'E', 'C', 'X'} && m.id == id then m.quantity else 0
    ensures Reduced(msgs, id) <==> exists x :: x in msgs && x.kind in {'E', 'C', 'X'} && x.id == id
    decreases |msgs|
  {
    assert forall x: InternalMessage :: IsReduction(x) <==> x.kind in {'E', 'C', 'X'};
    if msgs == [] {
      assert [m][1..] == [] && [] + [m] == [m];
    } else {
      assert (msgs + [m])[1..] == msgs[1..] + [m];
      ReductionsMean(msgs[1..], m, id);
    }
  }

  predicate Mentions(msgs: seq<InternalMessage>, kind: char, id: u64) {
    exists m :: m in msgs && m.kind == kind && m.id == id
  }

  predicate Reduced(msgs: seq<InternalMessage>, id: u64) {
    exists m :: m in msgs && IsReduction(m) && m.id == id
  }

  /** An order of `id` with quantity `quantity` outlives the messages: it is not deleted, and is not
      reduced or keeps something after all reductions. */
  predicate Outlives(msgs: seq<InternalMessage>, id: u64, quantity: u64) {
    !Mentions(msgs, 'D', id) && (!Reduced(msgs, id) || Reductions(msgs, id) < quantity)
  }

  lemma {:induction false} NoReductions(msgs: seq<InternalMessage>, id: u64)
    ensures !Reduced(msgs, id) ==> Reductions(msgs, id) == 0
    decreases |msgs|
  {
    if msgs != [] {
      assert msgs[0] in msgs;
      assert forall x :: x in msgs[1..] ==> x in msgs;
      NoReductions(msgs[1..], id);
    }
  }

  /** What one message does to a resting order. */
  lemma ConsumeResting(b: Book, m: InternalMessage, id: u64)
    requires id in b.orders
    ensures var b' := Consume(b, m);
            var own, q := m.id == id, b.orders[id].quantity;
            && (id in b'.orders <==> !own || !(m.kind == 'D' || (IsReduction(m) && q <= m.quantity)))
            && (id in b'.orders ==>
                  b'.orders[id].level == b.orders[id].level
                  && b'.orders[id].quantity == if own && IsReduction(m) then q - m.quantity else q)
  {
  }

  /** An order's chances before and after one message. */
  lemma OutlivesStep(b: Book, msgs: seq<InternalMessage>, id: u64)
    requires msgs != [] && id in b.orders
    ensures var b' := Consume(b, msgs[0]);
            && (Outlives(msgs, id, b.orders[id].quantity) <==>
                id in b'.orders && Outlives(msgs[1..], id, b'.orders[id].quantity))
            && (id in b'.orders ==>
                  && b'.orders[id].level == b.orders[id].level
                  && b'.orders[id].quantity <= b.orders[id].quantity
                  && b.orders[id].quantity - Reductions(msgs, id)
                     == b'.orders[id].quantity - Reductions(msgs[1..], id))
  {
    ConsumeResting(b, msgs[0], id);
    hide Consume;
    assert forall x :: x in msgs <==> x == msgs[0] || x in msgs[1..];
    NoReductions(msgs[1..], id);
  }

  /** A resting order that outlives the messages ends with its quantity less all their reductions,
      whatever else they do; another addition of its id is refused. */
  lemma {:induction false} OrderAfter(b: Book, msgs: seq<InternalMessage>, id: u64)
    requires id in b.orders && Outlives(msgs, id, b.orders[id].quantity)
    ensures id in Replay(b, msgs).orders && Reductions(msgs, id) <= b.orders[id].quantity
    ensures Replay(b, msgs).orders[id] == Entry(b.orders[id].level, b.orders[id].quantity - Reductions(msgs, id))
    decreases |msgs|
  {
    if msgs != [] {
      OutlivesStep(b, msgs, id);
      OrderAfter(Consume(b, msgs[0]), msgs[1..], id);
    }
  }

  /** Message `k` of the feed adds the order `id`: the book takes it. */
  predicate AddedAt(b: Book, msgs: seq<InternalMessage>, id: u64, k: nat)
    requires k < |msgs|
  {
    && msgs[k].kind == 'A' && msgs[k].id == id
    && AddOrder(Replay(b, msgs[..k]), id, Level(msgs[k].side, msgs[k].price), msgs[k].quantity).ok
  }

  /** Message `k` adds an order of `id` that the rest of the feed leaves resting. */
  predicate LivesFrom(b: Book, msgs: seq<InternalMessage>, id: u64, k: nat)
    requires k < |msgs|
  {
    AddedAt(b, msgs, id, k) && Outlives(msgs[k + 1..], id, msgs[k].quantity)
  }

  /** The rest of a feed, seen from its first message. */
  lemma LivesFromLater(b: Book, msgs: seq<InternalMessage>, id: u64, k: nat)
    requires k + 1 < |msgs|
    ensures LivesFrom(b, msgs, id, k + 1) <==> LivesFrom(Consume(b, msgs[0]), msgs[1..], id, k)
  {
    assert msgs[..k + 1][1..] == msgs[1..][..k] && msgs[..k + 1][0] == msgs[0];
    assert msgs[k + 1 + 1..] == msgs[1..][k + 1..];
  }

  lemma {:induction false} RestingCameFrom(b: Book, msgs: seq<InternalMessage>, id: u64)
    requires id in Replay(b, msgs).orders
    ensures (id in b.orders && Outlives(msgs, id, b.orders[id].quantity))
            || exists k :: 0 <= k < |msgs| && LivesFrom(b, msgs, id, k)
    decreases |msgs|
  {
    if msgs != [] {
      var b' := Consume(b, msgs[0]);
      RestingCameFrom(b', msgs[1..], id);
      if k :| 0 <= k < |msgs[1..]| && LivesFrom(b', msgs[1..], id, k) {
        LivesFromLater(b, msgs, id, k);
      } else if id in b.orders {
        OutlivesStep(b, msgs, id);
      } else {
        assert msgs[..0] == [];
        assert LivesFrom(b, msgs, id, 0);
      }
    }
  }

  lemma LivesToEnd(b: Book, msgs: seq<InternalMessage>, id: u64, k: nat)
    requires k < |msgs| && LivesFrom(b, msgs, id, k)
    ensures id in Replay(b, msgs).orders && Reductions(msgs[k + 1..], id) <= msgs[k].quantity
    ensures Replay(b, msgs).orders[id]
            == Entry(Level(msgs[k].side, msgs[k].price), msgs[k].quantity - Reductions(msgs[k + 1..], id))
  {
    var before, added, after := msgs[..k], msgs[k], msgs[k + 1..];
    assert msgs == before + ([added] + after);
    ReplayAppend(b, before, [added] + after);
    assert ([added] + after)[1..] == after;
    OrderAfter(Consume(Replay(b, before), added), after, id);
  }

  /** The ledger of every feed on a fresh book. An order rests at the end if and only if some message
      added it, when the id was not resting and the book had room, and the rest of the feed neither
      deletes it nor reduces it to nothing; it then has the shares added there, at that side and
      price, less all reductions since. Ids may be added again after removal, and while resting in vain. */
  lemma FeedLedger(maxOrders: nat, maxPrice: nat, msgs: seq<InternalMessage>, id: u64)
    ensures var empty := EmptyBook(maxOrders, maxPrice);
            id in Replay(empty, msgs).orders <==> exists k :: 0 <= k < |msgs| && LivesFrom(empty, msgs, id, k)
    ensures var empty := EmptyBook(maxOrders, maxPrice);
            forall k :: 0 <= k < |msgs| && LivesFrom(empty, msgs, id, k) ==>
              && id !in Replay(empty, msgs[..k]).orders && Reductions(msgs[k + 1..], id) <= msgs[k].quantity
              && id in Replay(empty, msgs).orders
              && Replay(empty, msgs).orders[id]
                 == Entry(Level(msgs[k].side, msgs[k].price), msgs[k].quantity - Reductions(msgs[k + 1..], id))
  {
    var empty := EmptyBook(maxOrders, maxPrice);
    if id in Replay(empty, msgs).orders {
      RestingCameFrom(empty, msgs, id);
    }
    forall k | 0 <= k < |msgs| && LivesFrom(empty, msgs, id, k)
      ensures id in Replay(empty, msgs).orders && Reductions(msgs[k + 1..], id) <= msgs[k].quantity
      ensures Replay(empty, msgs).orders[id]
              == Entry(Level(msgs[k].side, msgs[k].price), msgs[k].quantity - Reductions(msgs[k + 1..], id))
    {
      LivesToEnd(empty, msgs, id, k);
    }
  }

  lemma {:induction false} ReplayAppend(b: Book, s: seq<InternalMessage>, t: seq<InternalMessage>)
    ensures Replay(b, s + t) == Replay(Replay(b, s), t)
    decreases |s|
  {
    if s == [] {
      assert s + t == t;
    } else {
      assert (s + t)[1..] == s[1..] + t;
      ReplayAppend(Consume(b, s[0]), s[1..], t);
    }
  }

  // ------------------------------------------------------------------ queue order

  ghost predicate StaysThrough(b: Book, msgs: seq<InternalMessage>, x: u64)
    decreases |msgs|
  {
    x in b.orders && (msgs == [] || StaysThrough(Consume(b, msgs[0]), msgs[1..], x))
  }

  /** No message ever changes the relative order of two orders that keep resting at a level. */
  lemma {:induction false} FeedKeepsPriority(b: Book, msgs: seq<InternalMessage>, x: u64, y: u64)
    requires b.Wf() && x != y && Ahead(b, x, y)
    requires StaysThrough(b, msgs, x) && StaysThrough(b, msgs, y)
    ensures Ahead(Replay(b, msgs), x, y)
    decreases |msgs|
  {
    hide Ahead, Apply, Book.Wf;
    if msgs != [] {
      match OperationOf(b, msgs[0]) {
        case None =>
        case Some(op) =>
          StepWf(b, op);
          PriorityStep(b, op, x, y);
          assert !Raises(b, op, x);
      }
      FeedKeepsPriority(Consume(b, msgs[0]), msgs[1..], x, y);
    }
  }

  // ------------------------------------------------------------------ the consumer

  function FeedAdds(b: Book, msgs: seq<InternalMessage>): nat
    decreases |msgs|
  {
    if msgs == [] then 0
    else (if msgs[0].kind == 'A' && Apply(b, OperationOf(b, msgs[0]).value).ok then 1 else 0)
         + FeedAdds(Consume(b, msgs[0]), msgs[1..])
  }

  method ConsumeMessage(lob: LimitOrderBook, msg: InternalMessage)
    requires lob.Valid() && lob.adds < 2 * lob.maxOrders
    modifies lob, lob.pool, lob.bids, lob.asks, lob.orderMap
    ensures lob.Valid() && lob.book == Consume(old(lob.book), msg)
    ensures var added := msg.kind == 'A'
                         && AddOrder(old(lob.book), msg.id, Level(msg.side, msg.price), msg.quantity).ok;
            lob.adds == old(lob.adds) + if added then 1 else 0
  {
    hide LimitOrderBook.Valid;
    lob.LookupTerminates(msg.id);
    match msg.kind {
      case 'A' =>
        var added := lob.Add(msg.id, msg.side, msg.price, msg.quantity);
      case 'E' | 'C' | 'X' =>
        var order := lob.GetOrder(msg.id);
        if order.Some? {
          if order.value.quantity <= msg.quantity {
            var cancelled := lob.Cancel(msg.id);
          } else {
            var modified := lob.Modify(msg.id, order.value.quantity - msg.quantity);
          }
        }
      case 'D' =>
        var cancelled := lob.Cancel(msg.id);
      case _ =>
    }
  }

  /** The matching thread: a fresh book consumes every message popped from the queue, in order. */
  method ConsumeFeed(maxOrders: nat, maxPrice: nat, msgs: seq<InternalMessage>) returns (lob: LimitOrderBook)
    requires maxOrders > 0 && FeedAdds(EmptyBook(maxOrders, maxPrice), msgs) < 2 * maxOrders
    ensures fresh(lob) && lob.Valid() && lob.book == Replay(EmptyBook(maxOrders, maxPrice), msgs)
  {
    hide LimitOrderBook.Valid, AddOrder;
    ghost var empty := EmptyBook(maxOrders, maxPrice);
    lob := new LimitOrderBook(maxOrders, maxPrice);
    var processed := 0;
    while processed < |msgs|
      invariant processed <= |msgs|
      invariant fresh(lob.pool) && fresh(lob.bids) && fresh(lob.asks) && fresh(lob.orderMap)
      invariant lob.Valid() && lob.maxOrders == maxOrders
      invariant Replay(lob.book, msgs[processed..]) == Replay(empty, msgs)
      invariant lob.adds + FeedAdds(lob.book, msgs[processed..]) == FeedAdds(empty, msgs)
    {
      assert msgs[processed..][0] == msgs[processed] && msgs[processed..][1..] == msgs[processed + 1..];
      ConsumeMessage(lob, msgs[processed]);
      processed := processed + 1;
    }
  }

  /** The whole pipeline, from the network thread's pushes through the ring buffer to the book, in every
      interleaving and with stale loads: the book, when it has consumed what still lies in the ring,
      holds the fold of all messages pushed, in order. */
  lemma RingFeedsBook(b: Book, s: Q.State<InternalMessage>, actions: seq<Q.Action<InternalMessage>>,
                      t: Q.State<InternalMessage>)
    requires Q.Init(s) && Q.Reaches(s, actions, t)
    ensures Q.Counts(t) && Replay(Replay(b, t.popped), Q.Queued(t)) == Replay(b, t.pushed)
  {
    Q.QueueIsFifo(s, actions, t);
    hide Consume, Q.Queued, Q.Counts, Q.Reaches;
    ReplayAppend(b, t.popped, Q.Queued(t));
  }

  /** Of the two threads' atomic steps only the last step of a pop concerns the book, which then
      consumes the oldest message in the ring. */
  lemma StepFeedsBook(b: Book, s: Q.State<InternalMessage>, a: Q.Action<InternalMessage>)
    requires Q.Inv(s) && Q.Enabled(s, a)
    ensures a.PopStores? ==> Q.Queued(s) != []
    ensures Replay(b, Q.Step(s, a).popped)
            == if a.PopStores? then Consume(Replay(b, s.popped), Q.Queued(s)[0]) else Replay(b, s.popped)
  {
    Q.StepRefinesQueue(s, a);
    hide Consume, Q.Inv, Q.Queued, Q.Step, Q.Enabled;
    if a.PopStores? {
      ReplayAppend(b, s.popped, [s.cons.item]);
      assert Replay(Replay(b, s.popped), [s.cons.item]) == Consume(Replay(b, s.popped), s.cons.item);
    } else {
      assert s.popped + [] == s.popped;
    }
  }
}
