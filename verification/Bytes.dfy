/** Integers in memory: the little-endian host representation, byte swapping, and network order. */
module Bytes {
  import opened Machine

  function Pow256(n: nat): (p: nat)
    ensures p > 0
  {
    if n == 0 then 1 else 256 * Pow256(n - 1)
  }

  /** The `n` bytes that a little-endian host stores for `x`. */
  function ToLE(x: nat, n: nat): (s: bytes)
    ensures |s| == n
  {
    if n == 0 then [] else [x % 256] + ToLE(x / 256, n - 1)
  }

  /** The value a little-endian host loads. */
  function FromLE(s: bytes): (x: nat)
    ensures x < Pow256(|s|)
  {
    if s == [] then 0 else s[0] + 256 * FromLE(s[1..])
  }

  function Reverse(s: bytes): (r: bytes)
    ensures |r| == |s|
  {
    if s == [] then [] else Reverse(s[1..]) + [s[0]]
  }

  /** `__builtin_bswap` of an `n`-byte integer, on the value. */
  function Bswap(x: nat, n: nat): (y: nat)
    ensures y < Pow256(n)
  {
    FromLE(Reverse(ToLE(x, n)))
  }

  /** The value of bytes in network order: the most significant byte first. */
  function FromBE(s: bytes): nat {
    if s == [] then 0 else 256 * FromBE(s[..|s| - 1]) + s[|s| - 1]
  }

  /** The `n` bytes of `x` in network order. */
  function ToBE(x: nat, n: nat): (s: bytes)
    ensures |s| == n
  {
    if n == 0 then [] else ToBE(x / 256, n - 1) + [x % 256]
  }

  lemma {:induction false} LoadStore(x: nat, n: nat)
    requires x < Pow256(n)
    ensures FromLE(ToLE(x, n)) == x
  {
    if n > 0 {
      LoadStore(x / 256, n - 1);
      assert ToLE(x, n)[1..] == ToLE(x / 256, n - 1);
    }
  }

  lemma {:induction false} StoreLoad(s: bytes)
    ensures ToLE(FromLE(s), |s|) == s
  {
    if s != [] {
      StoreLoad(s[1..]);
      assert FromLE(s) / 256 == FromLE(s[1..]) && FromLE(s) % 256 == s[0];
      assert s == [s[0]] + s[1..];
    }
  }

  /** One byte more. */
  lemma ResidueStep(x: nat, high: nat, k: nat, p: nat)
    requires x / 256 == high + k * p && high < p
    ensures x == (256 * high + x % 256) + k * (256 * p)
    ensures 256 * high + x % 256 < 256 * p
  {
    var m := k * p;
    assert k * (256 * p) == 256 * m;
    assert x == 256 * (x / 256) + x % 256;
  }

  /** Decoding what was encoded in `n` bytes gives the value up to a multiple of 256^n. */
  lemma {:induction false} NetworkResidue(x: nat, n: nat) returns (k: nat)
    ensures x == FromBE(ToBE(x, n)) + k * Pow256(n)
    ensures FromBE(ToBE(x, n)) < Pow256(n)
  {
    if n == 0 {
      k := x;
    } else {
      k := NetworkResidue(x / 256, n - 1);
      LastByte(x, n);
      ResidueStep(x, FromBE(ToBE(x / 256, n - 1)), k, Pow256(n - 1));
      hide FromBE, ToBE;
    }
  }

  lemma LastByte(x: nat, n: nat)
    requires n > 0
    ensures FromBE(ToBE(x, n)) == 256 * FromBE(ToBE(x / 256, n - 1)) + x % 256
    ensures Pow256(n) == 256 * Pow256(n - 1)
  {
    assert ToBE(x, n)[..n - 1] == ToBE(x / 256, n - 1);
  }

  /** Decoding what was encoded, where the value fits. */
  lemma NetworkRoundTrip(x: nat, n: nat)
    requires x < Pow256(n)
    ensures FromBE(ToBE(x, n)) == x
  {
    var k := NetworkResidue(x, n);
    assert k > 0 ==> k * Pow256(n) >= Pow256(n);
  }

  lemma {:induction false} NetworkIsReversed(x: nat, n: nat)
    ensures ToBE(x, n) == Reverse(ToLE(x, n))
  {
    if n > 0 {
      NetworkIsReversed(x / 256, n - 1);
      assert ToLE(x, n)[1..] == ToLE(x / 256, n - 1);
    }
  }

  lemma {:induction false} ReverseAppend(s: bytes, b: u8)
    ensures Reverse(s + [b]) == [b] + Reverse(s)
  {
    if s != [] {
      assert (s + [b])[1..] == s[1..] + [b];
      ReverseAppend(s[1..], b);
    }
  }

  lemma {:induction false} ReverseTwice(s: bytes)
    ensures Reverse(Reverse(s)) == s
  {
    if s != [] {
      ReverseTwice(s[1..]);
      ReverseAppend(Reverse(s[1..]), s[0]);
    }
  }

  lemma {:induction false} LoadReversed(s: bytes)
    ensures FromLE(Reverse(s)) == FromBE(s)
  {
    if s != [] {
      var init := s[..|s| - 1];
      assert s == init + [s[|s| - 1]];
      ReverseAppend(init, s[|s| - 1]);
      LoadReversed(init);
      assert Reverse(s)[1..] == Reverse(init);
    }
  }

  /** A swapped store on a little-endian host puts network order into memory. */
  lemma SwappedStore(x: nat, n: nat)
    ensures ToLE(Bswap(x, n), n) == ToBE(x, n)
  {
    NetworkIsReversed(x, n);
    StoreLoad(Reverse(ToLE(x, n)));
  }

  /** A swapped load reads network order. */
  lemma SwappedLoad(s: bytes)
    ensures Bswap(FromLE(s), |s|) == FromBE(s)
  {
    StoreLoad(s);
    LoadReversed(s);
  }

  /** The byte swap is its own inverse on every value that fits its field: the parsers' swap undoes the
      builders'. */
  lemma SwapTwice(x: nat, n: nat)
    requires x < Pow256(n)
    ensures Bswap(Bswap(x, n), n) == x
  {
    var stored := ToLE(x, n);
    StoreLoad(Reverse(stored));
    ReverseTwice(stored);
    LoadStore(x, n);
  }

  lemma {:induction false} EncodeDecoded(s: bytes)
    ensures ToBE(FromBE(s), |s|) == s
  {
    if s != [] {
      EncodeDecoded(s[..|s| - 1]);
      assert s == s[..|s| - 1] + [s[|s| - 1]];
    }
  }

  // ------------------------------------------------------------------ byte by byte

  lemma DivTwice(x: nat, p: nat)
    requires p > 0
    ensures x / 256 / p == x / (256 * p)
  {
    var q, r := x / 256 / p, x / 256 % p;
    var low := 256 * r + x % 256;
    assert x / 256 == q * p + r;
    assert x == 256 * (x / 256) + x % 256 == 256 * (q * p) + low;
    assert 256 * (q * p) == q * (256 * p);
    assert 0 <= low < 256 * p;
    Quotient(x, 256 * p, q, low);
  }

  lemma Quotient(x: nat, d: nat, q: nat, r: nat)
    requires d > 0 && x == q * d + r && r < d
    ensures x / d == q
  {
    var k := x / d;
    assert (k - q) * d == r - x % d;
    if k != q {
      MultiplesApart(k - q, d);
    }
  }

  lemma MultiplesApart(m: int, d: nat)
    requires m != 0
    ensures m * d >= d || m * d <= -(d as int)
  {
    if m > 0 {
      assert (m - 1) * d >= 0;
    } else {
      assert (-m - 1) * d >= 0;
    }
  }

  /** The k-th byte in memory on a little-endian host has weight 256^k. */
  lemma {:induction false} HostByte(x: nat, n: nat, k: nat)
    requires k < n
    ensures ToLE(x, n)[k] == x / Pow256(k) % 256
  {
    if k > 0 {
      HostByte(x / 256, n - 1, k - 1);
      DivTwice(x, Pow256(k - 1));
    }
  }

  /** The k-th byte in network order has weight 256^(n - 1 - k). */
  lemma NetworkByte(x: nat, n: nat, k: nat)
    requires k < n
    ensures ToBE(x, n)[k] == x / Pow256(n - 1 - k) % 256
  {
    NetworkIsReversed(x, n);
    ReversedByte(ToLE(x, n), k);
    HostByte(x, n, n - 1 - k);
  }

  lemma {:induction false} ReversedByte(s: bytes, k: nat)
    requires k < |s|
    ensures Reverse(s)[k] == s[|s| - 1 - k]
  {
    if k < |s| - 1 {
      ReversedByte(s[1..], k);
    }
  }

  /** A field's first byte carries the most weight. */
  lemma {:induction false} FirstByte(s: bytes)
    requires s != []
    ensures FromBE(s) == (s[0] as int) * Pow256(|s| - 1) + FromBE(s[1..])
  {
    var last := |s| - 1;
    if last == 0 {
      assert s[..0] == [] && s[1..] == [];
    } else {
      FirstByte(s[..last]);
      assert s[..last][1..] == s[1..][..last - 1];
      assert 256 * ((s[0] as int) * Pow256(last - 1)) == (s[0] as int) * Pow256(last);
    }
  }

  lemma Weights()
    ensures Pow256(0) == 1 && Pow256(1) == 0x100 && Pow256(2) == 0x1_0000 && Pow256(3) == 0x100_0000
    ensures Pow256(4) == 0x1_0000_0000 && Pow256(5) == 0x100_0000_0000 && Pow256(6) == 0x1_0000_0000_0000
    ensures Pow256(7) == 0x100_0000_0000_0000 && Pow256(8) == 0x1_0000_0000_0000_0000
  {
    assert Pow256(3) == 256 * Pow256(2) && Pow256(2) == 256 * Pow256(1) && Pow256(1) == 256 * Pow256(0);
    assert Pow256(6) == 256 * Pow256(5) && Pow256(5) == 256 * Pow256(4) && Pow256(4) == 256 * Pow256(3);
    assert Pow256(8) == 256 * Pow256(7) && Pow256(7) == 256 * Pow256(6);
  }

  /** The four bytes of a 32-bit field, most significant first, and the two of a 16-bit field. */
  lemma NetworkOrder(x: nat)
    ensures ToBE(x, 2) == [x / 0x100 % 256, x % 256]
    ensures ToBE(x, 4) == [x / 0x100_0000 % 256, x / 0x1_0000 % 256, x / 0x100 % 256, x % 256]
  {
    Weights();
    NetworkByte(x, 2, 0);
    NetworkByte(x, 2, 1);
    NetworkByte(x, 4, 0);
    NetworkByte(x, 4, 1);
    NetworkByte(x, 4, 2);
    NetworkByte(x, 4, 3);
    assert x / 1 == x;
    hide ToBE, Pow256;
  }

  /** The eight bytes of a 64-bit field, most significant first. */
  lemma NetworkOrder8(x: nat)
    ensures var s := ToBE(x, 8);
            && s[0] == x / 0x100_0000_0000_0000 % 256 && s[1] == x / 0x1_0000_0000_0000 % 256
            && s[2] == x / 0x100_0000_0000 % 256 && s[3] == x / 0x1_0000_0000 % 256
            && s[4] == x / 0x100_0000 % 256 && s[5] == x / 0x1_0000 % 256
            && s[6] == x / 0x100 % 256 && s[7] == x % 256
  {
    Weights();
    forall k: nat | k < 8 ensures ToBE(x, 8)[k] == x / Pow256(7 - k) % 256 {
      NetworkByte(x, 8, k);
    }
    assert x / 1 == x;
    hide ToBE, Pow256;
  }

  /** The number that the four bytes of a field in network order stand for. */
  lemma NetworkNumber(s: bytes)
    requires |s| == 4
    ensures FromBE(s) == (s[0] as int) * 0x100_0000 + (s[1] as int) * 0x1_0000 + (s[2] as int) * 0x100 + s[3]
  {
    Weights();
    FirstByte(s);
    FirstByte(s[1..]);
    FirstByte(s[2..]);
    FirstByte(s[3..]);
    assert s[1..][1..] == s[2..] && s[2..][1..] == s[3..] && s[3..][1..] == [];
  }

  /** The number that the eight bytes of a field in network order stand for, by its two halves. */
  lemma {:induction false} NetworkHalves(high: bytes, low: bytes)
    ensures FromBE(high + low) == FromBE(high) * Pow256(|low|) + FromBE(low)
    decreases |low|
  {
    if low == [] {
      assert high + low == high;
    } else {
      var last := |low| - 1;
      assert (high + low)[..|high| + last] == high + low[..last];
      NetworkHalves(high, low[..last]);
      assert 256 * (FromBE(high) * Pow256(last)) == FromBE(high) * Pow256(|low|);
    }
  }

  /** Swapping a 32-bit value exchanges its first byte with its last, and its second with its third. */
  lemma SwapExchanges(x: u32)
    ensures Bswap(x, 4) == (x % 256) * 0x100_0000 + (x / 0x100 % 256) * 0x1_0000 + (x / 0x1_0000 % 256) * 0x100
                           + x / 0x100_0000 % 256
  {
    Weights();
    var s := ToLE(x, 4);
    LoadStore(x, 4);
    SwappedLoad(s);
    NetworkNumber(s);
    HostByte(x, 4, 0);
    HostByte(x, 4, 1);
    HostByte(x, 4, 2);
    HostByte(x, 4, 3);
    assert x / 1 == x;
    hide ToLE, FromLE, FromBE, Reverse, Pow256, Bswap;
  }

  // ------------------------------------------------------------------ text and buffers

  const SPACE: u8 := 0x20

  /** Text cut or padded with spaces on the right to a field's size. */
  function Padded(text: bytes, size: nat): (r: bytes)
    ensures |r| == size
  {
    if |text| >= size then text[..size] else text + seq(size - |text|, _ => SPACE)
  }

  /** A field of text: the first characters of the text, and spaces after them. */
  lemma PaddedMeans(text: bytes, size: nat, k: nat)
    requires k < size
    ensures |Padded(text, size)| == size
    ensures Padded(text, size)[k] == if k < |text| then text[k] else 0x20
  {
  }

  /** Stores into a packed field: everything else in the buffer stays. */
  method Put(buffer: array<u8>, offset: nat, field: bytes)
    requires offset + |field| <= buffer.Length
    modifies buffer
    ensures buffer[..offset + |field|] == old(buffer[..offset]) + field
    ensures forall j :: offset + |field| <= j < buffer.Length ==> buffer[j] == old(buffer[j])
  {
    for i := 0 to |field|
      invariant buffer[..offset] == old(buffer[..offset])
      invariant forall j :: 0 <= j < i ==> buffer[offset + j] == field[j]
      invariant forall j :: offset + i <= j < buffer.Length ==> buffer[j] == old(buffer[j])
    {
      buffer[offset + i] := field[i];
    }
  }

  /** `copy_string_padded`: a null source counts as empty text. */
  method CopyStringPadded(buffer: array<u8>, offset: nat, src: Option<bytes>, size: nat)
    requires offset + size <= buffer.Length
    modifies buffer
    ensures buffer[..offset + size] == old(buffer[..offset]) + Padded(if src.Some? then src.value else [], size)
    ensures forall j :: offset + size <= j < buffer.Length ==> buffer[j] == old(buffer[j])
  {
    var text := if src.Some? then src.value else [];
    var copyLen := if |text| < size then |text| else size;
    Put(buffer, offset, text[..copyLen]);
    var i := copyLen;
    while i < size
      invariant copyLen <= i <= size
      invariant buffer[..offset + i] == old(buffer[..offset]) + text[..copyLen] + seq(i - copyLen, _ => SPACE)
      invariant forall j :: offset + i <= j < buffer.Length ==> buffer[j] == old(buffer[j])
    {
      ghost var before := buffer[..offset + i];
      buffer[offset + i] := SPACE;
      assert buffer[..offset + i + 1] == before + [SPACE];
      i := i + 1;
    }
    assert text[..copyLen] + seq(size - copyLen, _ => SPACE) == Padded(text, size);
  }
}
