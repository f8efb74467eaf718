/** The life cycle of sent orders: what each exchange event does to the table of orders, and
    what holds over every run of events. */
module EmsSpec {
  import opened Machine

  datatype OrderState = NONE | PENDING_NEW | NEW | PARTIALLY_FILLED | FILLED | CANCELED | REJECTED

  datatype EMSOrder = EMSOrder(orderId: u64, price: u32, originalQuantity: u32, executedQuantity: u32,
                               state: OrderState)

  type Orders = map<u64, EMSOrder>

  datatype Event =
    | Sent(id: u64, price: u32, quantity: u32)
    | Accepted(id: u64)
    | Rejected(id: u64)
    | Executed(id: u64, fillQuantity: u32, fillPrice: u32)
    | Canceled(id: u64)

  predicate Dead(o: EMSOrder) {
    o.state == CANCELED || o.state == REJECTED
  }

  /** An execution adds the fill in 32 bits and marks the order by comparing with its size. */
  function Filled(o: EMSOrder, fill: u32): EMSOrder {
    var executed := (o.executedQuantity + fill) % TWO_32;
    o.(executedQuantity := executed, state := if executed >= o.originalQuantity then FILLED else PARTIALLY_FILLED)
  }

  /** Whether the event is taken: a new id for a sending, a known one for the others, and
      only there with a condition on the order's state. */
  predicate Taken(m: Orders, e: Event) {
    match e
    case Sent(id, _, _) => id !in m
    case Accepted(id) => id in m && m[id].state == PENDING_NEW
    case Executed(id, _, _) => id in m && !Dead(m[id])
    case Rejected(id) => id in m
    case Canceled(id) => id in m
  }

  function Update(m: Orders, e: Event): EMSOrder
    requires Taken(m, e)
  {
    match e
    case Sent(id, price, quantity) => EMSOrder(id, price, quantity, 0, PENDING_NEW)
    case Accepted(id) => m[id].(state := NEW)
    case Executed(id, fill, _) => Filled(m[id], fill)
    case Rejected(id) => m[id].(state := REJECTED)
    case Canceled(id) => m[id].(state := CANCELED)
  }

  function Apply(m: Orders, e: Event): Orders {
    if Taken(m, e) then m[e.id := Update(m, e)] else m
  }

  function Run(m: Orders, events: seq<Event>): Orders
    decreases |events|
  {
    if events == [] then m else Run(Apply(m, events[0]), events[1..])
  }

  function Results(m: Orders, events: seq<Event>): seq<bool>
    decreases |events|
  {
    if events == [] then [] else [Taken(m, events[0])] + Results(Apply(m, events[0]), events[1..])
  }

  // ------------------------------------------------------------------ what each event answers and leaves

  /** Which events are taken, and the whole order afterwards. A sending is taken for a new id and records
      the order as pending; an acceptance of a pending order makes it NEW, and any other is refused; a
      rejection or cancellation of any known order makes it REJECTED or CANCELED; a fill is refused for
      unknown, cancelled and rejected orders, and else adds up in 32 bits and makes the order FILLED if
      the sum reaches its size, and PARTIALLY_FILLED if not. No other order is touched. */
  lemma EventMeans(m: Orders, e: Event)
    ensures var m' := Apply(m, e);
            && (match e
                case Sent(id, price, quantity) =>
                  if id in m then !Taken(m, e) && m' == m
                  else Taken(m, e) && id in m' && m'[id] == EMSOrder(id, price, quantity, 0, PENDING_NEW)
                case Accepted(id) =>
                  if id in m && m[id].state == PENDING_NEW then
                    Taken(m, e) && id in m' && m'[id] == m[id].(state := NEW)
                  else !Taken(m, e) && m' == m
                case Rejected(id) =>
                  if id in m then Taken(m, e) && id in m' && m'[id] == m[id].(state := REJECTED)
                  else !Taken(m, e) && m' == m
                case Canceled(id) =>
                  if id in m then Taken(m, e) && id in m' && m'[id] == m[id].(state := CANCELED)
                  else !Taken(m, e) && m' == m
                case Executed(id, fill, _) =>
                  if id !in m || m[id].state == CANCELED || m[id].state == REJECTED then !Taken(m, e) && m' == m
                  else
                    var sum := (m[id].executedQuantity + fill) % 0x1_0000_0000;
                    && Taken(m, e) && id in m'
                    && m'[id] == m[id].(executedQuantity := sum,
                                        state := if sum < m[id].originalQuantity then PARTIALLY_FILLED else FILLED))
            && (forall x :: x in m' && x != e.id ==> x in m)
            && (forall x :: x in m && x != e.id ==> x in m' && m'[x] == m[x])
  {
  }

  /** A run is its events one after the other, each on the orders that the earlier ones left. */
  lemma {:induction false} RunIsStepwise(m: Orders, events: seq<Event>, e: Event)
    ensures Run(m, events + [e]) == Apply(Run(m, events), e)
    ensures Results(m, events + [e]) == Results(m, events) + [Taken(Run(m, events), e)]
    decreases |events|
  {
    hide Apply, Taken;
    if events == [] {
      assert [e][1..] == [] && [] + [e] == [e];
      assert Results(m, [e]) == [Taken(m, e)] + [];
    } else {
      assert (events + [e])[1..] == events[1..] + [e];
      RunIsStepwise(Apply(m, events[0]), events[1..], e);
    }
  }

  /** The run cancels or rejects the order of `id` at a time when it is known. */
  predicate Killed(m: Orders, events: seq<Event>, id: u64)
    decreases |events|
  {
    && events != []
    && ((events[0].id == id && (events[0].Canceled? || events[0].Rejected?) && id in m)
        || Killed(Apply(m, events[0]), events[1..], id))
  }

  /** Over every run, an order is cancelled or rejected at the end if and only if it was at the beginning
      or the run has cancelled or rejected it: neither acceptances nor fills ever kill an order. */
  lemma {:induction false} DeadExactlyWhen(m: Orders, events: seq<Event>, id: u64)
    requires id in Run(m, events)
    ensures Run(m, events)[id].state in {CANCELED, REJECTED} <==>
              (id in m && m[id].state in {CANCELED, REJECTED}) || Killed(m, events, id)
    decreases |events|
  {
    if events != [] {
      EventMeans(m, events[0]);
      hide Apply, Taken;
      DeadExactlyWhen(Apply(m, events[0]), events[1..], id);
    }
  }

  // ------------------------------------------------------------------ what holds of every order

  predicate Consistent(id: u64, o: EMSOrder) {
    && o.orderId == id
    && match o.state
       case NONE => false
       case PENDING_NEW => o.executedQuantity == 0
       case NEW => o.executedQuantity == 0
       case PARTIALLY_FILLED => o.executedQuantity < o.originalQuantity
       case FILLED => o.executedQuantity >= o.originalQuantity
       case CANCELED => true
       case REJECTED => true
  }

  ghost predicate AllConsistent(m: Orders) {
    forall id :: id in m ==> Consistent(id, m[id])
  }

  /** In every state of every run each order's state agrees with its quantities, no order is in
      the state that marks empty slots, and no order ever disappears. */
  lemma {:induction false} RunConsistent(m: Orders, events: seq<Event>)
    requires AllConsistent(m)
    ensures AllConsistent(Run(m, events))
    ensures m.Keys <= Run(m, events).Keys
    decreases |events|
  {
    if events != [] {
      RunConsistent(Apply(m, events[0]), events[1..]);
    }
  }

  /** Sum of the fills of order `id` that the run takes. */
  function TakenFills(m: Orders, events: seq<Event>, id: u64): nat
    decreases |events|
  {
    if events == [] then 0
    else
      var e := events[0];
      (if e.Executed? && e.id == id && Taken(m, e) then e.fillQuantity else 0)
      + TakenFills(Apply(m, e), events[1..], id)
  }

  lemma WrapFill(a: int, b: int)
    ensures (a % TWO_32 + b) % TWO_32 == (a + b) % TWO_32
  {
  }

  /** Over every run: the identity, price and size of an order never change, and its executed
      quantity grows by the taken fills, modulo 2^32. */
  lemma {:induction false} ExecutedIsSumOfFills(m: Orders, events: seq<Event>, id: u64)
    requires id in m
    ensures id in Run(m, events)
    ensures var o, o' := m[id], Run(m, events)[id];
            && o'.executedQuantity == (o.executedQuantity + TakenFills(m, events, id)) % TWO_32
            && o'.orderId == o.orderId && o'.price == o.price && o'.originalQuantity == o.originalQuantity
    decreases |events|
  {
    if events != [] {
      var e := events[0];
      var m' := Apply(m, e);
      ExecutedIsSumOfFills(m', events[1..], id);
      if e.Executed? && e.id == id && Taken(m, e) {
        WrapFill(m[id].executedQuantity + e.fillQuantity, TakenFills(m', events[1..], id));
      }
    }
  }

  /** The same from the beginning: an order that was never there before has executed exactly
      the fills taken since, modulo 2^32, and exactly their sum while that stays below 2^32. */
  lemma {:induction false} ExecutedFromStart(m: Orders, events: seq<Event>, id: u64)
    requires id !in m && id in Run(m, events)
    ensures Run(m, events)[id].executedQuantity == TakenFills(m, events, id) % TWO_32
    ensures TakenFills(m, events, id) < TWO_32 ==> Run(m, events)[id].executedQuantity == TakenFills(m, events, id)
    decreases |events|
  {
    if events != [] {
      var m' := Apply(m, events[0]);
      if id in m' {
        ExecutedIsSumOfFills(m', events[1..], id);
      } else {
        ExecutedFromStart(m', events[1..], id);
      }
    }
  }

  /** A cancelled or rejected order stays cancelled or rejected, and its executed quantity is frozen. */
  lemma {:induction false} DeadIsFinal(m: Orders, events: seq<Event>, id: u64)
    requires id in m && Dead(m[id])
    ensures id in Run(m, events) && Dead(Run(m, events)[id])
    ensures Run(m, events)[id].executedQuantity == m[id].executedQuantity
    decreases |events|
  {
    if events != [] {
      DeadIsFinal(Apply(m, events[0]), events[1..], id);
    }
  }

  /** FILLED is not final, although the life-cycle diagram ends there: a filled order stays
      filled under an event exactly when the event is not a cancellation or rejection of it, nor
      a fill that wraps its 32-bit executed quantity round to below its size. */
  lemma FilledStaysWhen(m: Orders, e: Event)
    requires e.id in m && m[e.id].state == FILLED && Consistent(e.id, m[e.id])
    ensures Apply(m, e)[e.id].state == FILLED <==>
            && !e.Canceled? && !e.Rejected?
            && (e.Executed? ==>
                  m[e.id].executedQuantity + e.fillQuantity < TWO_32
                  || m[e.id].executedQuantity + e.fillQuantity - TWO_32 >= m[e.id].originalQuantity)
  {
    if e.Executed? {
      var sum := m[e.id].executedQuantity + e.fillQuantity;
      assert sum % TWO_32 == if sum < TWO_32 then sum else sum - TWO_32;
    }
  }

  predicate InState(m: Orders, id: u64, state: OrderState) {
    id in m && m[id].state == state
  }

  /** Runs in which a filled order is filled no more: by an overfill that wraps round, and by a
      cancellation that arrives late. */
  lemma FilledIsNotFinal()
    ensures var sent := [Sent(7, 100, 10), Executed(7, 10, 100)];
            && InState(Run(map[], sent), 7, FILLED)
            && InState(Run(map[], sent + [Executed(7, 0xFFFF_FFFF, 100)]), 7, PARTIALLY_FILLED)
            && InState(Run(map[], sent + [Canceled(7)]), 7, CANCELED)
  {
    var sent := [Sent(7, 100, 10), Executed(7, 10, 100)];
    var m1 := Apply(map[], sent[0]);
    var m2 := Apply(m1, sent[1]);
    forall last: Event ensures Run(map[], sent + [last]) == Apply(m2, last) {
      var all := sent + [last];
      assert all[1..] == [sent[1], last] && all[1..][1..] == [last] && all[1..][1..][1..] == [];
      assert Run(m2, [last]) == Run(Apply(m2, last), []);
    }
    assert sent[1..] == [sent[1]] && sent[1..][1..] == [];
    assert Run(m1, sent[1..]) == Run(m2, []);
  }
}
