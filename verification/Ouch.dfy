/** OUCH 4.2: the builder and the parser of Enter Order messages. */
module Ouch {
  import opened Machine
  import opened Bytes
  import opened Itch

  const ENTER_ORDER_SIZE: nat := 49

  /** The fields of an Enter Order message; the texts are full-size fields in a parsed message,
      and strings of any length, or null, in what is to be built. */
  datatype EnterOrder = EnterOrder(token: Option<bytes>, buySell: u8, shares: u32, stock: Option<bytes>, price: u32,
                                   timeInForce: u32, firm: Option<bytes>, display: u8, capacity: u8, sweep: u8,
                                   minimumQuantity: u32, crossType: u8, customerType: u8)

  function Text(src: Option<bytes>, size: nat): bytes {
    Padded(if src.Some? then src.value else [], size)
  }

  /** The Enter Order message in network order (section 2.1 of Nasdaq OUCH 4.2). */
  function EnterOrderImage(o: EnterOrder): (s: bytes)
    ensures |s| == ENTER_ORDER_SIZE
  {
    ImageHead(o) + ToBE(o.price, 4)
    + ToBE(o.timeInForce, 4) + Text(o.firm, 4) + [o.display] + [o.capacity] + [o.sweep]
    + ToBE(o.minimumQuantity, 4) + [o.crossType] + [o.customerType]
  }

  /** The first five fields. */
  function ImageHead(o: EnterOrder): (s: bytes)
    ensures |s| == 28
  {
    ['O' as u8] + Text(o.token, 14) + [o.buySell] + ToBE(o.shares, 4) + Text(o.stock, 8)
  }

  method BuildHead(buffer: array<u8>, o: EnterOrder)
    requires buffer.Length >= 28
    modifies buffer
    ensures buffer[..28] == ImageHead(o)
    ensures forall j :: 28 <= j < buffer.Length ==> buffer[j] == old(buffer[j])
  {
    hide ToBE, Padded;
    Put(buffer, 0, ['O' as u8]);
    CopyStringPadded(buffer, 1, o.token, 14);
    Put(buffer, 15, [o.buySell]);
    PutSwapped(buffer, 16, o.shares, 4);
    CopyStringPadded(buffer, 20, o.stock, 8);
  }

  method BuildEnterOrder(buffer: array<u8>, o: EnterOrder) returns (ok: bool)
    modifies buffer
    ensures ok <==> buffer.Length >= ENTER_ORDER_SIZE
    ensures ok ==> buffer[..] == EnterOrderImage(o) + old(buffer[ENTER_ORDER_SIZE..])
    ensures !ok ==> buffer[..] == old(buffer[..])
  {
    if buffer.Length < ENTER_ORDER_SIZE {
      return false;
    }
    ghost var tail := buffer[ENTER_ORDER_SIZE..];
    BuildHead(buffer, o);
    BuildTail(buffer, o);
    assert buffer[49..] == tail;
    assert buffer[..] == buffer[..49] + buffer[49..];
    return true;
  }

  /** The other fields, after the first five. */
  method BuildTail(buffer: array<u8>, o: EnterOrder)
    requires buffer.Length >= ENTER_ORDER_SIZE && buffer[..28] == ImageHead(o)
    modifies buffer
    ensures buffer[..ENTER_ORDER_SIZE] == EnterOrderImage(o)
    ensures forall j :: ENTER_ORDER_SIZE <= j < buffer.Length ==> buffer[j] == old(buffer[j])
  {
    hide ToBE, Padded, ImageHead;
    PutSwapped(buffer, 28, o.price, 4);
    PutSwapped(buffer, 32, o.timeInForce, 4);
    CopyStringPadded(buffer, 36, o.firm, 4);
    Put(buffer, 40, [o.display]);
    Put(buffer, 41, [o.capacity]);
    Put(buffer, 42, [o.sweep]);
    PutSwapped(buffer, 43, o.minimumQuantity, 4);
    Put(buffer, 47, [o.crossType]);
    Put(buffer, 48, [o.customerType]);
  }

  /** What parsing means: the fields at their offsets, numbers in network order; `None` for a
      message too short or of another type. */
  function EnterOrderMeaning(s: bytes): Option<EnterOrder> {
    if |s| < ENTER_ORDER_SIZE || s[0] != 'O' as u8 then None
    else Some(EnterOrder(Some(s[1..15]), s[15], Number4(s, 16), Some(s[20..28]), Number4(s, 28), Number4(s, 32),
                         Some(s[36..40]), s[40], s[41], s[42], Number4(s, 43), s[47], s[48]))
  }

  method ParseEnterOrder(buffer: array<u8>) returns (msg: Option<EnterOrder>)
    ensures msg == EnterOrderMeaning(buffer[..])
  {
    if buffer.Length < ENTER_ORDER_SIZE {
      return None;
    }
    if buffer[0] != 'O' as u8 {
      return None;
    }
    var shares := LoadSwapped4(buffer, 16);
    var price := LoadSwapped4(buffer, 28);
    var timeInForce := LoadSwapped4(buffer, 32);
    var minimumQuantity := LoadSwapped4(buffer, 43);
    ghost var s := buffer[..];
    assert s[1..15] == buffer[1..15] && s[20..28] == buffer[20..28] && s[36..40] == buffer[36..40];
    return Some(EnterOrder(Some(buffer[1..15]), buffer[15], shares, Some(buffer[20..28]), price, timeInForce,
                           Some(buffer[36..40]), buffer[40], buffer[41], buffer[42], minimumQuantity, buffer[47],
                           buffer[48]));
  }

  /** The fields as they travel: every text cut or padded to its size. */
  function Normal(o: EnterOrder): EnterOrder {
    o.(token := Some(Text(o.token, 14)), stock := Some(Text(o.stock, 8)), firm := Some(Text(o.firm, 4)))
  }

  /** Parsing what was built, whatever follows it in the buffer, recovers all numbers and the padded texts. */
  lemma EnterOrderRoundTrip(o: EnterOrder, rest: bytes)
    ensures EnterOrderMeaning(EnterOrderImage(o) + rest) == Some(Normal(o))
  {
    var s := EnterOrderImage(o) + rest;
    FieldRanges();
    assert s[1..15] == Text(o.token, 14);
    assert s[16..20] == ToBE(o.shares, 4);
    assert s[20..28] == Text(o.stock, 8);
    assert s[28..32] == ToBE(o.price, 4);
    assert s[32..36] == ToBE(o.timeInForce, 4);
    assert s[36..40] == Text(o.firm, 4);
    assert s[43..47] == ToBE(o.minimumQuantity, 4);
    NetworkRoundTrip(o.shares, 4);
    NetworkRoundTrip(o.price, 4);
    NetworkRoundTrip(o.timeInForce, 4);
    NetworkRoundTrip(o.minimumQuantity, 4);
  }

  /** Where each field of a built Enter Order message is. */
  lemma EnterOrderLayout(o: EnterOrder)
    ensures var s := EnterOrderImage(o);
            && |s| == 49 && s[0] == 'O' as u8
            && s[1..15] == Padded(if o.token.Some? then o.token.value else [], 14)
            && s[15] == o.buySell && s[16..20] == ToBE(o.shares, 4)
            && s[20..28] == Padded(if o.stock.Some? then o.stock.value else [], 8)
            && s[28..32] == ToBE(o.price, 4) && s[32..36] == ToBE(o.timeInForce, 4)
            && s[36..40] == Padded(if o.firm.Some? then o.firm.value else [], 4)
            && s[40] == o.display && s[41] == o.capacity && s[42] == o.sweep
            && s[43..47] == ToBE(o.minimumQuantity, 4) && s[47] == o.crossType && s[48] == o.customerType
  {
    hide ToBE, Padded;
  }

  /** What parsing accepts, and what it reads where. */
  lemma EnterOrderParsingMeans(s: bytes)
    ensures EnterOrderMeaning(s).Some? <==> |s| >= 49 && s[0] == 'O' as u8
    ensures EnterOrderMeaning(s).Some? ==>
              var e := EnterOrderMeaning(s).value;
              && e.token == Some(s[1..15]) && e.buySell == s[15] && e.shares == FromBE(s[16..20])
              && e.stock == Some(s[20..28]) && e.price == FromBE(s[28..32]) && e.timeInForce == FromBE(s[32..36])
              && e.firm == Some(s[36..40]) && e.display == s[40] && e.capacity == s[41] && e.sweep == s[42]
              && e.minimumQuantity == FromBE(s[43..47]) && e.crossType == s[47] && e.customerType == s[48]
  {
  }

  /** Building from what was parsed gives the message's bytes back. */
  lemma RebuildIsIdentity(s: bytes)
    requires |s| >= ENTER_ORDER_SIZE && s[0] == 'O' as u8
    ensures EnterOrderImage(EnterOrderMeaning(s).value) == s[..ENTER_ORDER_SIZE]
  {
    var e := EnterOrderMeaning(s).value;
    RebuildHead(s);
    EncodeDecoded(s[28..32]);
    EncodeDecoded(s[32..36]);
    EncodeDecoded(s[43..47]);
    assert Text(e.firm, 4) == s[36..40];
    hide Text, ToBE, FromBE, ImageHead;
    assert s[..36] == s[..28] + s[28..32] + s[32..36];
    assert s[..43] == s[..36] + s[36..40] + [s[40]] + [s[41]] + [s[42]];
    assert s[..49] == s[..43] + s[43..47] + [s[47]] + [s[48]];
  }

  lemma RebuildHead(s: bytes)
    requires |s| >= ENTER_ORDER_SIZE && s[0] == 'O' as u8
    ensures ImageHead(EnterOrderMeaning(s).value) == s[..28]
  {
    var e := EnterOrderMeaning(s).value;
    EncodeDecoded(s[16..20]);
    assert Text(e.token, 14) == s[1..15] && Text(e.stock, 8) == s[20..28];
    hide Text, ToBE, FromBE;
    assert s[..16] == [s[0]] + s[1..15] + [s[15]];
    assert s[..28] == s[..16] + s[16..20] + s[20..28];
  }
}

/** The exchange emulator's composition: an Enter Order message in, an Add Order message out. */
module Exchange {
  import opened Machine
  import opened BookSpec
  import opened Bytes
  import opened Itch
  import opened Ouch

  /** The bytes before the first NUL, as string functions see them. */
  function CString(s: bytes): (r: bytes)
    ensures |r| <= |s| && r == s[..|r|]
  {
    if s == [] || s[0] == 0 then [] else [s[0]] + CString(s[1..])
  }

  const STOCK_LOCATE: nat := 1
  const TRACKING_NUMBER: nat := 1

  /** The Add Order that the emulator broadcasts for a received Enter Order. The stock field is not
      NUL-terminated, and is used as a string of at most 8 bytes. */
  function Broadcast(e: EnterOrder, orderRef: u64, timestamp: u64): AddOrder
    requires e.stock.Some?
  {
    AddOrder(STOCK_LOCATE, TRACKING_NUMBER, timestamp, orderRef, e.buySell, e.shares, Some(CString(e.stock.value)),
             e.price)
  }

  method OnOrderReceived(input: array<u8>, output: array<u8>, orderRef: u64, timestamp: u64) returns (built: bool)
    requires output.Length == 128 && input != output
    modifies output
    ensures built <==> EnterOrderMeaning(input[..]).Some?
    ensures built ==> output[..ADD_ORDER_SIZE]
                      == AddOrderImage(Broadcast(EnterOrderMeaning(input[..]).value, orderRef, timestamp))
  {
    var msg := ParseEnterOrder(input);
    if msg.None? {
      return false;
    }
    built := BuildAddOrder(output, Broadcast(msg.value, orderRef, timestamp));
  }

  lemma {:induction false} NoNul(s: bytes)
    requires forall i :: 0 <= i < |s| ==> s[i] != 0
    ensures CString(s) == s
  {
    if s != [] {
      NoNul(s[1..]);
    }
  }

  lemma {:induction false} CStringMeans(s: bytes, k: nat)
    requires k < |s|
    ensures k < |CString(s)| <==> forall i :: 0 <= i <= k ==> s[i] != 0
    decreases |s|
  {
    if s[0] != 0 && k > 0 {
      CStringMeans(s[1..], k - 1);
      assert forall i :: 0 < i <= k ==> s[i] == s[1..][i - 1];
    }
  }

  /** The bytes that the emulator sends for a received order, field by field: locate and tracking number 1,
      the order's side, shares and price as they came, and its stock up to the first NUL, then spaces. */
  lemma BroadcastMeans(e: EnterOrder, orderRef: u64, timestamp: u64)
    requires e.stock.Some? && |e.stock.value| == 8
    ensures var s := AddOrderImage(Broadcast(e, orderRef, timestamp));
            && |s| == 36 && s[0] == 'A' as u8 && s[1..3] == [0, 1] && s[3..5] == [0, 1]
            && s[5..11] == TimestampBytes(timestamp) && s[11..19] == ToBE(orderRef, 8)
            && s[19] == e.buySell && s[20..24] == ToBE(e.shares, 4) && s[32..36] == ToBE(e.price, 4)
            && forall k :: 0 <= k < 8 ==>
                 s[24..32][k] == if forall i :: 0 <= i <= k ==> e.stock.value[i] != 0 then e.stock.value[k] else 0x20
  {
    hide AddOrderImage, ToBE, TimestampBytes, Padded, CString;
    AddOrderLayout(Broadcast(e, orderRef, timestamp));
    NetworkOrder(1);
    StockField(e.stock.value);
  }

  lemma StockField(stock: bytes)
    requires |stock| == 8
    ensures forall k :: 0 <= k < 8 ==>
              Padded(CString(stock), 8)[k] == if forall i :: 0 <= i <= k ==> stock[i] != 0 then stock[k] else 0x20
  {
    forall k | 0 <= k < 8
      ensures Padded(CString(stock), 8)[k] == if forall i :: 0 <= i <= k ==> stock[i] != 0 then stock[k] else 0x20
    {
      PaddedMeans(CString(stock), 8, k);
      CStringMeans(stock, k);
    }
  }

  /** From a strategy's order through both wires to the book's message: shares, price and side
      arrive as they were sent, and so do the eight bytes of the stock when they hold no NUL. */
  lemma OrderSurvivesBothWires(o: EnterOrder, orderRef: u64, timestamp: u64, rest: bytes, prior: InternalMessage)
    ensures var received := EnterOrderMeaning(EnterOrderImage(o) + rest);
            && received.Some? && received.value.stock.Some?
            && var image := AddOrderImage(Broadcast(received.value, orderRef, timestamp));
            && Itch.Meaning(image, prior)
               == ParseResult(true, InternalMessage('A', orderRef, o.price, o.shares,
                                                    if o.buySell == 'B' as u8 then Buy else Sell))
            && ((forall i :: 0 <= i < 8 ==> Text(o.stock, 8)[i] != 0) ==> image[24..32] == Text(o.stock, 8))
  {
    EnterOrderRoundTrip(o, rest);
    var a := Broadcast(Normal(o), orderRef, timestamp);
    AddOrderRoundTrip(a, [], prior);
    assert AddOrderImage(a) + [] == AddOrderImage(a);
    if forall i :: 0 <= i < 8 ==> Text(o.stock, 8)[i] != 0 {
      NoNul(Text(o.stock, 8));
      assert AddOrderImage(a)[24..32] == Text(o.stock, 8);
    }
  }
}
