/** Sending orders: risk check, order id, order table, wire message and position, in one call. */
module Strategy {
  import opened Machine
  import opened Bytes
  import opened Ouch
  import opened Risk
  import opened Ems

  // ------------------------------------------------------------------ order tokens

  /** `%0<width>lu`: decimal digits, zero padded on the left to at least `width`. */
  function PadDigits(n: nat, width: nat): (s: bytes)
    decreases n, width
  {
    if n == 0 && width == 0 then []
    else PadDigits(n / 10, if width == 0 then 0 else width - 1) + [0x30 + n % 10]
  }

  function FromDigits(s: bytes): int {
    if s == [] then 0 else 10 * FromDigits(s[..|s| - 1]) + (s[|s| - 1] as int - 0x30)
  }

  function Pow10(n: nat): (p: nat)
    ensures p > 0
  {
    if n == 0 then 1 else 10 * Pow10(n - 1)
  }

  lemma {:induction false} DigitsValue(n: nat, width: nat)
    ensures FromDigits(PadDigits(n, width)) == n
    decreases n, width
  {
    if n != 0 || width != 0 {
      DigitsValue(n / 10, if width == 0 then 0 else width - 1);
      var s := PadDigits(n, width);
      assert s[..|s| - 1] == PadDigits(n / 10, if width == 0 then 0 else width - 1);
    }
  }

  lemma {:induction false} DigitsLength(n: nat, width: nat)
    ensures |PadDigits(n, width)| >= width
    ensures n < Pow10(width) ==> |PadDigits(n, width)| == width
    decreases n, width
  {
    if width != 0 {
      DigitsLength(n / 10, width - 1);
    }
  }

  const ORD: bytes := ['O' as u8, 'R' as u8, 'D' as u8]

  const TOKEN_IDS: nat := 100_000_000_000

  /** The token text: "ORD" and 11 digits or more, cut by snprintf to the 14 characters that fit. */
  function Token(id: u64): (s: bytes)
    ensures |s| == 14
  {
    DigitsLength(id, 11);
    (ORD + PadDigits(id, 11))[..14]
  }

  /** The k-th of the digits is the one of weight 10^(width - 1 - k). */
  lemma {:induction false} DigitAt(n: nat, width: nat, k: nat)
    requires n < Pow10(width) && k < width
    ensures |PadDigits(n, width)| == width
    ensures PadDigits(n, width)[k] == 0x30 + n / Pow10(width - 1 - k) % 10
    decreases width
  {
    DigitsLength(n, width);
    DigitsLength(n / 10, width - 1);
    if k < width - 1 {
      DigitAt(n / 10, width - 1, k);
      assert PadDigits(n, width) == PadDigits(n / 10, width - 1) + [0x30 + n % 10];
      DivTen(n, Pow10(width - 2 - k));
    } else {
      assert n / 1 == n;
    }
  }

  lemma DivTen(n: nat, p: nat)
    requires p > 0
    ensures n / 10 / p == n / (10 * p)
  {
    var q, r := n / 10 / p, n / 10 % p;
    var low := 10 * r + n % 10;
    assert n / 10 == q * p + r;
    assert n == 10 * (n / 10) + n % 10 == 10 * (q * p) + low;
    assert 10 * (q * p) == q * (10 * p);
    assert 0 <= low < 10 * p;
    Quotient(n, 10 * p, q, low);
  }

  lemma TokenDigits(id: u64)
    requires id < TOKEN_IDS
    ensures Token(id) == ORD + PadDigits(id, 11) && FromDigits(Token(id)[3..]) == id
  {
    assert Pow10(11) == TOKEN_IDS by {
      assert Pow10(5) == 100_000 && Pow10(10) == 100_000 * 100_000;
    }
    DigitsLength(id, 11);
    DigitsValue(id, 11);
    assert Token(id) == ORD + PadDigits(id, 11);
    assert Token(id)[3..] == PadDigits(id, 11);
  }

  /** Tokens tell ids below 10^11 apart. */
  lemma TokensDistinct(a: u64, b: u64)
    requires a < TOKEN_IDS && b < TOKEN_IDS
    ensures Token(a) == Token(b) <==> a == b
  {
    TokenDigits(a);
    TokenDigits(b);
  }

  /** From 10^11 on the cut gives every id the token of itself without its last digit. */
  lemma TokensClash(id: u64)
    requires TOKEN_IDS <= id
    ensures Token(id) == Token(id / 10) && id / 10 != id
  {
    var shorter := PadDigits(id / 10, 11);
    assert Pow10(10) == TOKEN_IDS / 10 by {
      assert Pow10(5) == 100_000;
    }
    NoPadding(id / 10, 10);
    DigitsLength(id / 10, 11);
    assert PadDigits(id, 11) == shorter + [0x30 + id % 10];
    assert (ORD + shorter + [0x30 + id % 10])[..14] == (ORD + shorter)[..14];
    assert ORD + PadDigits(id, 11) == ORD + shorter + [0x30 + id % 10];
  }

  /** The ids issued up to `last` have different tokens exactly while `last` has at most eleven digits. */
  lemma TokensUniqueWhile(last: u64)
    requires FIRST_ID <= last
    ensures (forall a: u64, b: u64 :: FIRST_ID <= a < b <= last ==> Token(a) != Token(b)) <==> last < TOKEN_IDS
  {
    if last < TOKEN_IDS {
      forall a: u64, b: u64 | FIRST_ID <= a < b <= last ensures Token(a) != Token(b) {
        TokensDistinct(a, b);
      }
    } else {
      TokensClash(TOKEN_IDS);
      assert FIRST_ID <= TOKEN_IDS / 10 < TOKEN_IDS <= last;
    }
  }

  /** Numbers with more digits than the width are not padded. */
  lemma {:induction false} NoPadding(n: nat, width: nat)
    requires n >= Pow10(width)
    ensures PadDigits(n, width) == PadDigits(n, width + 1)
    decreases width
  {
    if width == 0 {
      assert n > 0;
    } else {
      NoPadding(n / 10, width - 1);
    }
  }

  // ------------------------------------------------------------------ the engine

  datatype Request = Request(side: u8, shares: u32, price: u32, symbol: Option<bytes>, reference: u32)

  function Decision(config: RiskConfig, position: int, r: Request): bool {
    Check(config, position, r.side as char, r.shares, r.price, r.reference) == APPROVED
  }

  const FIRM: bytes := ['T' as u8, 'E' as u8, 'S' as u8, 'T' as u8]

  const FIRST_ID: u64 := 1000

  /** The Enter Order message of a request, with the builder's default fields. */
  function Message(id: u64, r: Request): EnterOrder {
    EnterOrder(Some(Token(id)), r.side, r.shares, r.symbol, r.price, 99998, Some(FIRM), 'Y' as u8, 'O' as u8, 'N' as u8,
               0, 'N' as u8, 'N' as u8)
  }

  /** The text is the eleven decimal digits of the id. */
  ghost predicate AreDigits(text: bytes, id: u64) {
    |text| == 11 && forall k :: 0 <= k < 11 ==> text[k] == 0x30 + id / Pow10(10 - k) % 10
  }

  /** What a sent message says to whoever parses it: the request's shares, price, side and symbol, a token of
      "ORD" and the eleven digits of the id, and the default fields. */
  ghost predicate Says(message: bytes, id: u64, r: Request) {
    && |message| == 49 && EnterOrderMeaning(message).Some?
    && var e := EnterOrderMeaning(message).value;
    && e.shares == r.shares && e.price == r.price && e.buySell == r.side
    && e.stock == Some(Padded(if r.symbol.Some? then r.symbol.value else [], 8))
    && e.token.Some? && |e.token.value| == 14 && e.token.value[..3] == ['O' as u8, 'R' as u8, 'D' as u8]
    && (id < 100_000_000_000 ==> AreDigits(e.token.value[3..], id))
    && e.timeInForce == 99998 && e.firm == Some(['T' as u8, 'E' as u8, 'S' as u8, 'T' as u8])
    && e.display == 'Y' as u8 && e.capacity == 'O' as u8 && e.sweep == 'N' as u8 && e.minimumQuantity == 0
    && e.crossType == 'N' as u8 && e.customerType == 'N' as u8
  }

  lemma MessageSays(id: u64, r: Request)
    ensures Says(EnterOrderImage(Message(id, r)), id, r)
  {
    var o := Message(id, r);
    EnterOrderRoundTrip(o, []);
    assert EnterOrderImage(o) + [] == EnterOrderImage(o);
    TextsFit(id);
    TokenStart(id);
    hide EnterOrderImage, EnterOrderMeaning, Token, Padded, AreDigits;
  }

  lemma TextsFit(id: u64)
    ensures Text(Some(Token(id)), 14) == Token(id)
    ensures Text(Some(FIRM), 4) == ['T' as u8, 'E' as u8, 'S' as u8, 'T' as u8]
  {
    hide Token;
  }

  lemma TokenStart(id: u64)
    ensures Token(id)[..3] == ['O' as u8, 'R' as u8, 'D' as u8]
    ensures id < 100_000_000_000 ==> AreDigits(Token(id)[3..], id)
  {
    DigitsLength(id, 11);
    assert Token(id)[..3] == ORD;
    if id < TOKEN_IDS {
      TokenDigits(id);
      TenToThe();
      assert Token(id)[3..] == PadDigits(id, 11);
      forall k: nat | k < 11 ensures PadDigits(id, 11)[k] == 0x30 + id / Pow10(10 - k) % 10 {
        DigitAt(id, 11, k);
      }
    }
  }

  lemma TenToThe()
    ensures Pow10(0) == 1 && Pow10(1) == 10 && Pow10(11) == 100_000_000_000
  {
    assert Pow10(1) == 10 * Pow10(0);
    assert Pow10(5) == 100_000 && Pow10(10) == 100_000 * 100_000;
  }

  /** What risk requires of a request at a position. */
  lemma DecisionMeans(config: RiskConfig, position: int, r: Request)
    ensures Decision(config, position, r) <==>
            && r.shares <= config.maxOrderSize
            && (r.reference > 0 ==>
                  (1.0 - config.maxPriceDeviationPct) * r.reference as real <= r.price as real
                  <= (1.0 + config.maxPriceDeviationPct) * r.reference as real)
            && -(config.maxPosition as int)
               <= (if r.side == 'B' as u8 then position + r.shares else position - r.shares) <= config.maxPosition
  {
    ApprovedMeans(config, position, r.side as char, r.shares, r.price, r.reference);
    hide Check;
  }

  /** The net position of requests: nothing for none, and with each one more, its shares for a buy and
      their negative for any other side. */
  lemma NetMeans(sent: seq<Request>, r: Request)
    ensures Net([]) == 0
    ensures Net(sent + [r]) == if r.side == 'B' as u8 then Net(sent) + r.shares else Net(sent) - r.shares
  {
    NetAppend(sent, r);
  }

  /** The signed sum of the shares of requests. */
  function Net(sent: seq<Request>): int {
    if sent == [] then 0
    else Net(sent[..|sent| - 1]) + Signed(sent[|sent| - 1].side as char, sent[|sent| - 1].shares)
  }

  /** One id, one entry in the order table and one message per approved request; the position is
      their signed sum, and within the limit. */
  ghost predicate Ledger(config: RiskConfig, sent: seq<Request>, nextId: u64, orders: EmsSpec.Orders,
                         egress: seq<bytes>, position: int64)
  {
    && 0 <= config.maxPosition <= INT64_MAX - TWO_32
    && nextId == FIRST_ID + |sent| && |orders| == |egress| == |sent|
    && Consecutive(orders, nextId)
    && Encoded(sent, egress)
    && position == Net(sent)
    && Abs(position) <= config.maxPosition
  }

  lemma LedgerBounds(config: RiskConfig, sent: seq<Request>, nextId: u64, orders: EmsSpec.Orders, egress: seq<bytes>,
                     position: int64, r: Request)
    requires Ledger(config, sent, nextId, orders, egress, position)
    ensures nextId !in orders && |orders| == |sent|
    ensures Abs(position + Signed(r.side as char, r.shares)) <= INT64_MAX
  {
  }

  lemma LedgerGrows(config: RiskConfig, sent: seq<Request>, nextId: u64, orders: EmsSpec.Orders, egress: seq<bytes>,
                    position: int64, r: Request, o: EmsSpec.EMSOrder)
    requires Ledger(config, sent, nextId, orders, egress, position) && Decision(config, position, r)
    requires nextId + 1 < TWO_64
    ensures Ledger(config, sent + [r], nextId + 1, orders[nextId := o], egress + [EnterOrderImage(Message(nextId, r))],
                   Wrap64(position + Signed(r.side as char, r.shares)))
    ensures Wrap64(position + Signed(r.side as char, r.shares)) == position + Signed(r.side as char, r.shares)
  {
    hide EnterOrderImage, Message, Wrap64, Net;
    NetAppend(sent, r);
    var q := Signed(r.side as char, r.shares);
    ApprovedPosition(config, position, r);
    WrapExact(position + q);
    EgressGrows(sent, egress, r);
    IdsGrow(orders, nextId, o);
    MapGrows(orders, nextId, o);
    hide Check, Signed, Abs;
  }

  lemma ApprovedPosition(config: RiskConfig, position: int64, r: Request)
    requires Decision(config, position, r)
    ensures Abs(position + Signed(r.side as char, r.shares)) <= config.maxPosition
  {
  }

  /** The k-th request sent is the k-th message. */
  ghost predicate Encoded(sent: seq<Request>, egress: seq<bytes>)
    requires |egress| == |sent| && FIRST_ID + |sent| <= TWO_64
  {
    forall k :: 0 <= k < |sent| ==> egress[k] == EnterOrderImage(Message(FIRST_ID + k, sent[k]))
  }

  lemma AllSay(sent: seq<Request>, egress: seq<bytes>)
    requires |egress| == |sent| && FIRST_ID + |sent| < TWO_64 && Encoded(sent, egress)
    ensures forall k :: 0 <= k < |sent| ==> egress[k] == EnterOrderImage(Message(FIRST_ID + k, sent[k]))
    ensures forall k :: 0 <= k < |sent| ==> Says(egress[k], 1000 + k, sent[k])
  {
    hide EnterOrderImage, Message, Says;
    forall k | 0 <= k < |sent| ensures Says(egress[k], 1000 + k, sent[k]) {
      MessageSays(FIRST_ID + k, sent[k]);
    }
  }

  lemma EgressGrows(sent: seq<Request>, egress: seq<bytes>, r: Request)
    requires |egress| == |sent| && FIRST_ID + |sent| < TWO_64 && Encoded(sent, egress)
    ensures Encoded(sent + [r], egress + [EnterOrderImage(Message(FIRST_ID + |sent|, r))])
  {
    hide EnterOrderImage, Message;
  }

  /** Exactly the ids from the first one on, below the next one, are in the order table. */
  ghost predicate Consecutive(orders: EmsSpec.Orders, nextId: int) {
    forall id: u64 :: id in orders <==> FIRST_ID <= id < nextId
  }

  lemma IdsGrow(orders: EmsSpec.Orders, nextId: u64, o: EmsSpec.EMSOrder)
    requires Consecutive(orders, nextId) && FIRST_ID <= nextId
    ensures Consecutive(orders[nextId := o], nextId + 1)
  {
    var orders' := orders[nextId := o];
    forall id: u64 ensures id in orders' <==> FIRST_ID <= id < nextId + 1 {
      assert id in orders <==> FIRST_ID <= id < nextId;
    }
  }

  lemma MapGrows<V>(m: map<u64, V>, id: u64, v: V)
    requires id !in m
    ensures |m[id := v]| == |m| + 1
  {
    assert m[id := v].Keys == m.Keys + {id};
  }

  lemma NetAppend(sent: seq<Request>, r: Request)
    ensures Net(sent + [r]) == Net(sent) + Signed(r.side as char, r.shares)
  {
    assert (sent + [r])[..|sent|] == sent;
  }

  class StrategyEngine {
    const ems: ExecutionManagementSystem
    const riskEngine: PreTradeRiskEngine
    var orderIdCounter: u64
    /** The byte strings handed to the TCP gateway, whose result is ignored. */
    var egress: seq<bytes>
    /** The approved requests, in order. */
    ghost var sent: seq<Request>

    ghost predicate Valid()
      reads this, ems, ems.orderMap, riskEngine
    {
      ems.Valid() && Ledger(riskEngine.config, sent, orderIdCounter, ems.orders, egress, riskEngine.currentPosition)
    }

    constructor (ems: ExecutionManagementSystem, riskEngine: PreTradeRiskEngine)
      requires ems.Valid() && ems.orders == map[]
      requires riskEngine.currentPosition == 0 && 0 <= riskEngine.config.maxPosition <= INT64_MAX - TWO_32
      ensures Valid() && this.ems == ems && this.riskEngine == riskEngine && sent == [] && egress == []
    {
      this.ems := ems;
      this.riskEngine := riskEngine;
      orderIdCounter := FIRST_ID;
      egress, sent := [], [];
    }

    /** An order goes out exactly when risk approves it; then it gets a fresh id, a new entry in the
        order table and its encoded message, and its shares move the position. A rejected order
        changes nothing. Approval needs a free slot in the order table and an id that does not wrap. */
    method SendOrder(r: Request) returns (ok: bool)
      requires Valid()
      requires Decision(riskEngine.config, riskEngine.currentPosition, r) ==>
                 |ems.orders| < 2 * ems.maxOrders && orderIdCounter + 1 < TWO_64
      modifies this, ems, ems.orderMap, riskEngine
      ensures Valid()
      ensures ok <==> Decision(riskEngine.config, old(riskEngine.currentPosition), r)
      ensures sent == old(sent) + if ok then [r] else []
      ensures riskEngine.currentPosition
              == old(riskEngine.currentPosition)
                 + if !ok then 0 else if r.side == 'B' as u8 then r.shares as int else -(r.shares as int)
      ensures !ok ==> ems.orders == old(ems.orders) && egress == old(egress)
      ensures ok ==> var id := old(orderIdCounter);
                     && id !in old(ems.orders)
                     && ems.orders == old(ems.orders)[
                          id := EmsSpec.EMSOrder(id, r.price, r.shares, 0, EmsSpec.PENDING_NEW)]
                     && egress == old(egress) + [EnterOrderImage(Message(id, r))]
                     && |egress| == |old(egress)| + 1 && Says(egress[|old(egress)|], id, r)
    {
      hide ExecutionManagementSystem.Valid, EnterOrderImage, Message, Ledger, Check, Wrap64, Says;
      LedgerBounds(riskEngine.config, sent, orderIdCounter, ems.orders, egress, riskEngine.currentPosition, r);
      var status := riskEngine.CheckOrder(r.side as char, r.shares, r.price, r.reference);
      if status != APPROVED {
        return false;
      }
      var myOrderId := orderIdCounter;
      MessageSays(myOrderId, r);
      LedgerGrows(riskEngine.config, sent, myOrderId, ems.orders, egress, riskEngine.currentPosition, r,
                  EmsSpec.EMSOrder(myOrderId, r.price, r.shares, 0, EmsSpec.PENDING_NEW));
      orderIdCounter := orderIdCounter + 1;
      ems.LookupTerminates(myOrderId);
      var recorded := ems.OnOrderSent(myOrderId, r.price, r.shares);
      var buffer := new u8[64];
      ok := BuildEnterOrder(buffer, Message(myOrderId, r));
      if ok {
        var riskQty: int64 := if r.side == 'B' as u8 then r.shares else -(r.shares as int);
        riskEngine.UpdatePosition(riskQty);
        assert buffer[..ENTER_ORDER_SIZE] == EnterOrderImage(Message(myOrderId, r));
        egress := egress + [buffer[..ENTER_ORDER_SIZE]];
      }
      sent := sent + [r];
    }

    /** No two messages of an engine are the same while its ids have at most eleven digits. */
    lemma MessagesDistinct(j: nat, k: nat)
      requires Valid() && orderIdCounter <= TOKEN_IDS && j < k < |egress|
      ensures egress[j] != egress[k]
    {
      hide ExecutionManagementSystem.Valid, EnterOrderImage, EnterOrderMeaning;
      var a, b := FIRST_ID + j, FIRST_ID + k;
      EnterOrderRoundTrip(Message(a, sent[j]), []);
      EnterOrderRoundTrip(Message(b, sent[k]), []);
      assert egress[j] + [] == egress[j] && egress[k] + [] == egress[k];
      TokensDistinct(a, b);
      assert Text(Some(Token(a)), 14) == Token(a) && Text(Some(Token(b)), 14) == Token(b);
    }
  }

  // ------------------------------------------------------------------ whole runs

  /** The requests of a run that risk approves, each against the position the earlier ones left. */
  function ApprovedOf(config: RiskConfig, position: int, requests: seq<Request>): seq<Request>
    decreases |requests|
  {
    if requests == [] then []
    else if Decision(config, position, requests[0]) then
      [requests[0]] + ApprovedOf(config, position + Signed(requests[0].side as char, requests[0].shares), requests[1..])
    else ApprovedOf(config, position, requests[1..])
  }

  /** Which requests of a run are approved, one more at a time: it is if risk approves it at the net position
      of those before it. */
  lemma {:induction false} ApprovedStepwise(config: RiskConfig, position: int, requests: seq<Request>, r: Request)
    ensures var before := ApprovedOf(config, position, requests);
            ApprovedOf(config, position, requests + [r])
            == before + if Decision(config, position + Net(before), r) then [r] else []
    decreases |requests|
  {
    hide Decision, Signed, Net;
    if requests == [] {
      assert Net([]) == 0 by {
        NetMeans([], r);
      }
      assert [r][1..] == [] && [] + [r] == [r];
    } else {
      var first, rest := requests[0], requests[1..];
      assert (requests + [r])[1..] == rest + [r];
      if Decision(config, position, first) {
        var next := position + Signed(first.side as char, first.shares);
        ApprovedStepwise(config, next, rest, r);
        NetPrepend(first, ApprovedOf(config, next, rest));
      } else {
        ApprovedStepwise(config, position, rest, r);
      }
    }
  }

  lemma {:induction false} NetPrepend(first: Request, sent: seq<Request>)
    ensures Net([first] + sent) == Signed(first.side as char, first.shares) + Net(sent)
  {
    if sent == [] {
      assert [first] + sent == [] + [first];
      NetAppend([], first);
    } else {
      var last := |sent| - 1;
      NetPrepend(first, sent[..last]);
      assert ([first] + sent)[..|sent|] == [first] + sent[..last];
    }
  }

  /** Every run of requests on fresh components, with no more approvals than the order table has
      slots: exactly the approved requests were sent, and their net position is within the limit. */
  method SendAll(maxOrders: nat, config: RiskConfig, requests: seq<Request>) returns (engine: StrategyEngine)
    requires maxOrders > 0 && |ApprovedOf(config, 0, requests)| <= 2 * maxOrders
    requires FIRST_ID + |ApprovedOf(config, 0, requests)| < TWO_64
    requires 0 <= config.maxPosition <= INT64_MAX - TWO_32
    ensures fresh(engine) && engine.Valid()
    ensures engine.sent == ApprovedOf(config, 0, requests)
    ensures engine.riskEngine.currentPosition == Net(ApprovedOf(config, 0, requests))
    ensures -config.maxPosition <= Net(ApprovedOf(config, 0, requests)) <= config.maxPosition
    ensures forall k :: 0 <= k < |engine.sent| ==>
              engine.egress[k] == EnterOrderImage(Message(FIRST_ID + k, engine.sent[k]))
    ensures |engine.egress| == |engine.sent|
    ensures forall k :: 0 <= k < |engine.sent| ==> Says(engine.egress[k], 1000 + k, engine.sent[k])
  {
    hide EnterOrderImage, Message, Decision, ExecutionManagementSystem.Valid, Says, Encoded, Consecutive;
    var ems := new ExecutionManagementSystem(maxOrders);
    var riskEngine := new PreTradeRiskEngine(config);
    engine := new StrategyEngine(ems, riskEngine);
    for i := 0 to |requests|
      invariant engine.ems == ems && engine.riskEngine == riskEngine && riskEngine.config == config
      invariant fresh(engine) && fresh(ems) && fresh(ems.orderMap) && fresh(riskEngine)
      invariant engine.Valid() && ems.maxOrders == maxOrders
      invariant engine.sent + ApprovedOf(config, riskEngine.currentPosition, requests[i..])
                == ApprovedOf(config, 0, requests)
    {
      assert requests[i..][0] == requests[i] && requests[i..][1..] == requests[i + 1..];
      assert |engine.sent| + |ApprovedOf(config, riskEngine.currentPosition, requests[i..])|
             == |ApprovedOf(config, 0, requests)|;
      var ok := engine.SendOrder(requests[i]);
    }
    AllSay(engine.sent, engine.egress);
  }
}
