/** ITCH 5.0: the parser of the feed's messages and the builder of Add Order messages, on a
    little-endian host. */
module Itch {
  import opened Machine
  import opened BookSpec
  import opened Bytes

  /** A parsed message; for kinds that carry no price, quantity or side, those fields are stale. */
  datatype InternalMessage = InternalMessage(kind: char, id: u64, price: u64, quantity: u64, side: Side)

  datatype ParseResult = ParseResult(ok: bool, msg: InternalMessage)

  // Sizes of the packed message structures.
  const ADD_ORDER_SIZE: nat := 36
  const ORDER_CANCEL_SIZE: nat := 23
  const ORDER_DELETE_SIZE: nat := 19
  const ORDER_EXECUTED_SIZE: nat := 31
  const ORDER_EXECUTED_WITH_PRICE_SIZE: nat := 36

  lemma FieldRanges()
    ensures Pow256(2) == 0x1_0000 && Pow256(4) == TWO_32 && Pow256(6) == 0x1_0000_0000_0000 && Pow256(8) == TWO_64
  {
    assert Pow256(2) == 256 * Pow256(1);
    assert Pow256(4) == 256 * Pow256(3) && Pow256(3) == 256 * Pow256(2);
    assert Pow256(6) == 256 * Pow256(5) && Pow256(5) == 256 * Pow256(4);
    assert Pow256(8) == 256 * Pow256(7) && Pow256(7) == 256 * Pow256(6);
  }

  lemma {:induction false} NetworkBound(s: bytes)
    ensures FromBE(s) < Pow256(|s|)
  {
    LoadReversed(s);
  }

  /** The 4-byte number in network order at an offset. */
  function Number4(s: bytes, offset: nat): (x: u32)
    requires offset + 4 <= |s|
  {
    FieldRanges();
    NetworkBound(s[offset..offset + 4]);
    FromBE(s[offset..offset + 4])
  }

  function Number8(s: bytes, offset: nat): (x: u64)
    requires offset + 8 <= |s|
  {
    FieldRanges();
    NetworkBound(s[offset..offset + 8]);
    FromBE(s[offset..offset + 8])
  }

  function SideOf(indicator: u8): Side {
    if indicator == 'B' as u8 then Buy else Sell
  }

  /** What parsing means: fields at the offsets of the message layouts, read in network order. The
      kind is set whenever there is a first byte; a message too short or of another kind fails. */
  function Meaning(s: bytes, prior: InternalMessage): ParseResult {
    if s == [] then ParseResult(false, prior)
    else
      var m := prior.(kind := s[0] as char);
      match m.kind
      case 'A' =>
        if |s| < ADD_ORDER_SIZE then ParseResult(false, m)
        else ParseResult(true,
                         m.(id := Number8(s, 11), quantity := Number4(s, 20), price := Number4(s, 32),
                            side := SideOf(s[19])))
      case 'X' =>
        if |s| < ORDER_CANCEL_SIZE then ParseResult(false, m)
        else ParseResult(true, m.(id := Number8(s, 11), quantity := Number4(s, 19)))
      case 'D' =>
        if |s| < ORDER_DELETE_SIZE then ParseResult(false, m)
        else ParseResult(true, m.(id := Number8(s, 11)))
      case 'E' =>
        if |s| < ORDER_EXECUTED_SIZE then ParseResult(false, m)
        else ParseResult(true, m.(id := Number8(s, 11), quantity := Number4(s, 19)))
      case 'C' =>
        if |s| < ORDER_EXECUTED_WITH_PRICE_SIZE then ParseResult(false, m)
        else ParseResult(true, m.(id := Number8(s, 11), quantity := Number4(s, 19), price := Number4(s, 32)))
      case _ => ParseResult(false, m)
  }

  /** A byte-swapped host load of a 4-byte field. */
  method LoadSwapped4(buffer: array<u8>, offset: nat) returns (x: u32)
    requires offset + 4 <= buffer.Length
    ensures x == Number4(buffer[..], offset)
  {
    FieldRanges();
    ghost var s := buffer[..];
    assert s[offset..offset + 4] == buffer[offset..offset + 4];
    SwappedLoad(buffer[offset..offset + 4]);
    x := Bswap(FromLE(buffer[offset..offset + 4]), 4);
  }

  method LoadSwapped8(buffer: array<u8>, offset: nat) returns (x: u64)
    requires offset + 8 <= buffer.Length
    ensures x == Number8(buffer[..], offset)
  {
    FieldRanges();
    ghost var s := buffer[..];
    assert s[offset..offset + 8] == buffer[offset..offset + 8];
    SwappedLoad(buffer[offset..offset + 8]);
    x := Bswap(FromLE(buffer[offset..offset + 8]), 8);
  }

  /** The message out-parameter is passed in and out; it keeps what the kind does not carry. */
  method Parse(buffer: array<u8>, prior: InternalMessage) returns (ok: bool, msg: InternalMessage)
    ensures ParseResult(ok, msg) == Meaning(buffer[..], prior)
    ensures ok && msg.kind == 'A' ==> msg.side == if buffer[19] == 'B' as u8 then Buy else Sell
  {
    msg := prior;
    if buffer.Length == 0 {
      return false, msg;
    }
    msg := msg.(kind := buffer[0] as char);
    match msg.kind {
      case 'A' =>
        if buffer.Length < ADD_ORDER_SIZE {
          return false, msg;
        }
        var id := LoadSwapped8(buffer, 11);
        var quantity := LoadSwapped4(buffer, 20);
        var price := LoadSwapped4(buffer, 32);
        msg := msg.(id := id, quantity := quantity, price := price);
        if buffer[19] == 'B' as u8 {
          msg := msg.(side := Buy);
        } else {
          msg := msg.(side := Sell);
        }
        return true, msg;
      case 'X' =>
        if buffer.Length < ORDER_CANCEL_SIZE {
          return false, msg;
        }
        var id := LoadSwapped8(buffer, 11);
        var quantity := LoadSwapped4(buffer, 19);
        return true, msg.(id := id, quantity := quantity);
      case 'D' =>
        if buffer.Length < ORDER_DELETE_SIZE {
          return false, msg;
        }
        var id := LoadSwapped8(buffer, 11);
        return true, msg.(id := id);
      case 'E' =>
        if buffer.Length < ORDER_EXECUTED_SIZE {
          return false, msg;
        }
        var id := LoadSwapped8(buffer, 11);
        var quantity := LoadSwapped4(buffer, 19);
        return true, msg.(id := id, quantity := quantity);
      case 'C' =>
        if buffer.Length < ORDER_EXECUTED_WITH_PRICE_SIZE {
          return false, msg;
        }
        var id := LoadSwapped8(buffer, 11);
        var quantity := LoadSwapped4(buffer, 19);
        var price := LoadSwapped4(buffer, 32);
        return true, msg.(id := id, quantity := quantity, price := price);
      case _ =>
        return false, msg;
    }
  }

  // ------------------------------------------------------------------ timestamps

  function Byte(x: nat): (b: u8) {
    x % 256
  }

  /** `write_timestamp`: shifts and masks of the six low bytes. */
  function TimestampBytes(ts: u64): (s: bytes)
    ensures |s| == 6
  {
    [Byte(ts / 0x100_0000_0000), Byte(ts / 0x1_0000_0000), Byte(ts / 0x100_0000),
     Byte(ts / 0x1_0000), Byte(ts / 0x100), Byte(ts)]
  }

  /** `parse_timestamp`: shifts of six bytes, combined. */
  function ParseTimestamp(s: bytes): nat
    requires |s| == 6
  {
    (s[0] as int) * 0x100_0000_0000 + (s[1] as int) * 0x1_0000_0000 + (s[2] as int) * 0x100_0000
    + (s[3] as int) * 0x1_0000 + (s[4] as int) * 0x100 + s[5]
  }

  /** Shifting by one byte more. */
  lemma Shifts(x: nat)
    ensures x / 0x1_0000 == x / 0x100 / 256
    ensures x / 0x100_0000 == x / 0x1_0000 / 256
    ensures x / 0x1_0000_0000 == x / 0x100_0000 / 256
    ensures x / 0x100_0000_0000 == x / 0x1_0000_0000 / 256
  {
  }

  /** A timestamp survives modulo 2^48. */
  lemma TimestampRoundTrip(ts: u64)
    ensures ParseTimestamp(TimestampBytes(ts)) == ts % 0x1_0000_0000_0000
  {
    Shifts(ts);
    var a, b, c, d, e := ts / 0x100, ts / 0x1_0000, ts / 0x100_0000, ts / 0x1_0000_0000, ts / 0x100_0000_0000;
    assert ts == 256 * a + Byte(ts) && a == 256 * b + Byte(a) && b == 256 * c + Byte(b);
    assert c == 256 * d + Byte(c) && d == 256 * e + Byte(d) && e == 256 * (e / 256) + Byte(e);
    Residue(ts, ParseTimestamp(TimestampBytes(ts)), e / 256);
  }

  /** The six bytes are the low 48 bits in network order, and are read so. */
  lemma TimestampMeans(ts: u64, s: bytes)
    requires |s| == 6
    ensures forall k :: 0 <= k < 6 ==> TimestampBytes(ts)[k] == ts / Pow256(5 - k) % 256
    ensures ParseTimestamp(s) == FromBE(s)
  {
    Weights();
    assert ts / 1 == ts;
    FirstByte(s);
    FirstByte(s[1..]);
    assert s[1..][1..] == s[2..];
    NetworkNumber(s[2..]);
    hide FromBE, Pow256;
  }

  lemma Residue(x: nat, r: nat, q: nat)
    requires x == 0x1_0000_0000_0000 * q + r && r < 0x1_0000_0000_0000
    ensures r == x % 0x1_0000_0000_0000
  {
  }

  // ------------------------------------------------------------------ Add Order

  datatype AddOrder = AddOrder(stockLocate: nat, trackingNumber: nat, timestamp: u64, orderRef: u64,
                               buySell: u8, shares: u32, stock: Option<bytes>, price: u32)

  /** The Add Order message in network order (section 4.3 of Nasdaq TotalView-ITCH 5.0). */
  function AddOrderImage(o: AddOrder): (s: bytes)
    ensures |s| == ADD_ORDER_SIZE
  {
    ['A' as u8] + ToBE(o.stockLocate, 2) + ToBE(o.trackingNumber, 2) + TimestampBytes(o.timestamp) + ToBE(o.orderRef, 8)
    + [o.buySell] + ToBE(o.shares, 4) + Padded(if o.stock.Some? then o.stock.value else [], 8) + ToBE(o.price, 4)
  }

  /** A byte-swapped host store. */
  method PutSwapped(buffer: array<u8>, offset: nat, x: nat, size: nat)
    requires offset + size <= buffer.Length
    modifies buffer
    ensures buffer[..offset + size] == old(buffer[..offset]) + ToBE(x, size)
    ensures forall j :: offset + size <= j < buffer.Length ==> buffer[j] == old(buffer[j])
  {
    SwappedStore(x, size);
    Put(buffer, offset, ToLE(Bswap(x, size), size));
  }

  method BuildAddOrder(buffer: array<u8>, o: AddOrder) returns (ok: bool)
    modifies buffer
    ensures ok <==> buffer.Length >= ADD_ORDER_SIZE
    ensures ok ==> buffer[..] == AddOrderImage(o) + old(buffer[ADD_ORDER_SIZE..])
    ensures !ok ==> buffer[..] == old(buffer[..])
  {
    hide ToBE, Padded, TimestampBytes;
    if buffer.Length < ADD_ORDER_SIZE {
      return false;
    }
    ghost var tail := buffer[ADD_ORDER_SIZE..];
    Put(buffer, 0, ['A' as u8]);
    PutSwapped(buffer, 1, o.stockLocate, 2);
    PutSwapped(buffer, 3, o.trackingNumber, 2);
    Put(buffer, 5, TimestampBytes(o.timestamp));
    PutSwapped(buffer, 11, o.orderRef, 8);
    Put(buffer, 19, [o.buySell]);
    PutSwapped(buffer, 20, o.shares, 4);
    CopyStringPadded(buffer, 24, o.stock, 8);
    PutSwapped(buffer, 32, o.price, 4);
    assert buffer[..36] == AddOrderImage(o);
    assert buffer[36..] == tail;
    assert buffer[..] == buffer[..36] + buffer[36..];
    return true;
  }

  /** Parsing what was built, whatever follows it in the buffer, recovers id, shares, price and side. */
  lemma AddOrderRoundTrip(o: AddOrder, rest: bytes, prior: InternalMessage)
    ensures Meaning(AddOrderImage(o) + rest, prior)
            == ParseResult(true, InternalMessage('A', o.orderRef, o.price, o.shares,
                                                 if o.buySell == 'B' as u8 then Buy else Sell))
  {
    var s := AddOrderImage(o) + rest;
    FieldRanges();
    assert s[11..19] == ToBE(o.orderRef, 8);
    assert s[20..24] == ToBE(o.shares, 4);
    assert s[32..36] == ToBE(o.price, 4);
    NetworkRoundTrip(o.orderRef, 8);
    NetworkRoundTrip(o.shares, 4);
    NetworkRoundTrip(o.price, 4);
  }

  /** The messages about resting orders: their layouts agree in the first fields, so the id, and
      the executed or cancelled shares, come back for every header and every trailing bytes. A Cancel
      message needs 23 bytes and an Executed one 31. */
  lemma OrderMessageRoundTrip(kind: char, header: bytes, id: u64, shares: u32, rest: bytes, prior: InternalMessage)
    requires kind == 'X' || kind == 'E' || kind == 'D'
    requires |header| == 10 && (kind == 'E' ==> |rest| >= 8)
    ensures |[kind as u8] + header + ToBE(id, 8) + ToBE(shares, 4) + rest| == 23 + |rest|
    ensures Meaning([kind as u8] + header + ToBE(id, 8) + ToBE(shares, 4) + rest, prior)
            == ParseResult(true,
                           prior.(kind := kind, id := id, quantity := if kind == 'D' then prior.quantity else shares))
  {
    var s := [kind as u8] + header + ToBE(id, 8) + ToBE(shares, 4) + rest;
    FieldRanges();
    assert s[11..19] == ToBE(id, 8);
    assert s[19..23] == ToBE(shares, 4);
    NetworkRoundTrip(id, 8);
    NetworkRoundTrip(shares, 4);
  }

  /** A Delete message of just its 19 bytes, or more, brings its id and nothing else. */
  lemma DeleteRoundTrip(header: bytes, id: u64, rest: bytes, prior: InternalMessage)
    requires |header| == 10
    ensures |['D' as u8] + header + ToBE(id, 8)| == 19
    ensures Meaning(['D' as u8] + header + ToBE(id, 8) + rest, prior)
            == ParseResult(true, prior.(kind := 'D', id := id))
  {
    var s := ['D' as u8] + header + ToBE(id, 8) + rest;
    FieldRanges();
    assert s[11..19] == ToBE(id, 8);
    NetworkRoundTrip(id, 8);
  }

  /** What parsing accepts, and what it reads where: each kind by its letter, from its shortest length on,
      with the id in bytes 11 to 18, and shares, side and price where the kind has them. The kind is set
      whenever there is a byte; every field that a kind does not carry, and all of them on failure, stay. */
  lemma ParsingMeans(s: bytes, prior: InternalMessage)
    ensures var r := Meaning(s, prior);
            && (r.ok <==>
                |s| > 0 && ((s[0] == 'A' as u8 && |s| >= 36) || (s[0] == 'X' as u8 && |s| >= 23)
                            || (s[0] == 'D' as u8 && |s| >= 19) || (s[0] == 'E' as u8 && |s| >= 31)
                            || (s[0] == 'C' as u8 && |s| >= 36)))
            && (s == [] ==> r.msg == prior)
            && (s != [] ==> r.msg.kind as int == s[0] as int)
            && (s != [] && !r.ok ==> r.msg == prior.(kind := r.msg.kind))
            && (r.ok ==> r.msg.id == FromBE(s[11..19]))
            && (r.ok && r.msg.kind == 'A' ==>
                  && r.msg.quantity == FromBE(s[20..24]) && r.msg.price == FromBE(s[32..36])
                  && r.msg.side == if s[19] == 'B' as u8 then Buy else Sell)
            && (r.ok && r.msg.kind != 'A' ==> r.msg.side == prior.side)
            && (r.ok && r.msg.kind in {'X', 'E', 'C'} ==> r.msg.quantity == FromBE(s[19..23]))
            && (r.ok && r.msg.kind == 'C' ==> r.msg.price == FromBE(s[32..36]))
            && (r.ok && r.msg.kind in {'X', 'E', 'D'} ==> r.msg.price == prior.price)
            && (r.ok && r.msg.kind == 'D' ==> r.msg.quantity == prior.quantity)
  {
  }

  /** Where each field of a built Add Order message is. */
  lemma AddOrderLayout(o: AddOrder)
    ensures var s := AddOrderImage(o);
            && |s| == 36 && s[0] == 'A' as u8
            && s[1..3] == ToBE(o.stockLocate, 2) && s[3..5] == ToBE(o.trackingNumber, 2)
            && s[5..11] == TimestampBytes(o.timestamp) && s[11..19] == ToBE(o.orderRef, 8)
            && s[19] == o.buySell && s[20..24] == ToBE(o.shares, 4)
            && s[24..32] == Padded(if o.stock.Some? then o.stock.value else [], 8)
            && s[32..36] == ToBE(o.price, 4)
  {
    hide ToBE, Padded, TimestampBytes;
  }

  /** An execution at another price brings its price along. */
  lemma ExecutedWithPriceRoundTrip(header: bytes, id: u64, shares: u32, matchAndPrintable: bytes, price: u32,
                                   rest: bytes, prior: InternalMessage)
    requires |header| == 10 && |matchAndPrintable| == 9
    ensures Meaning(['C' as u8] + header + ToBE(id, 8) + ToBE(shares, 4) + matchAndPrintable + ToBE(price, 4) + rest,
                    prior)
            == ParseResult(true, prior.(kind := 'C', id := id, quantity := shares, price := price))
  {
    var s := ['C' as u8] + header + ToBE(id, 8) + ToBE(shares, 4) + matchAndPrintable + ToBE(price, 4) + rest;
    FieldRanges();
    assert s[11..19] == ToBE(id, 8);
    assert s[19..23] == ToBE(shares, 4);
    assert s[32..36] == ToBE(price, 4);
    NetworkRoundTrip(id, 8);
    NetworkRoundTrip(shares, 4);
    NetworkRoundTrip(price, 4);
  }
}
