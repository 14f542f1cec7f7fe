/** Bit sequences: numbers and bytes written most significant bit first, and read back. */
module BitStreams {
  import opened Arith
  import opened GF256
  import opened QRSpec

  type Bits = seq<bool>

  // ---- Numbers ----

  /** The low n bits of v, most significant first. */
  function NumBits(n: nat, v: nat): (r: Bits)
    ensures |r| == n
  {
    if n == 0 then [] else NumBits(n - 1, v / 2) + [v % 2 == 1]
  }

  function BitsNum(s: Bits): (v: nat) {
    if s == [] then 0
    else 2 * BitsNum(s[..|s| - 1]) + (if s[|s| - 1] then 1 else 0)
  }

  lemma {:induction false} NumRoundTrip(n: nat, v: nat)
    requires v < Pow2(n)
    ensures BitsNum(NumBits(n, v)) == v
  {
    if n > 0 {
      NumRoundTrip(n - 1, v / 2);
      assert NumBits(n, v)[..n - 1] == NumBits(n - 1, v / 2);
    }
  }

  /** Bit k of a number written with n bits. */
  lemma {:induction false} NumBit(n: nat, v: nat, k: nat)
    requires k < n
    ensures NumBits(n, v)[k] == ((v / Pow2(n - 1 - k)) % 2 == 1)
  {
    if k < n - 1 {
      NumBit(n - 1, v / 2, k);
      DivDiv(v, Pow2(n - 2 - k));
    }
  }

  lemma DivDiv(v: nat, p: nat)
    requires 1 <= p
    ensures (v / 2) / p == v / (2 * p)
  {
    var x, b := v / 2, v % 2;
    var q, r := x / p, x % p;
    assert x == p * q + r;
    assert v == q * (2 * p) + (2 * r + b);
    DivMod(v, 2 * p, q, 2 * r + b);
  }

  lemma {:induction false} NumBitsZero(n: nat)
    ensures NumBits(n, 0) == seq(n, _ => false)
  {
    if n > 0 { NumBitsZero(n - 1); }
  }

  // ---- Bytes ----

  predicate BitSet(b: Byte, mask: Byte) { b & mask != 0 }

  function ByteBits(b: Byte): (r: Bits)
    ensures |r| == 8
  {
    [BitSet(b, 0x80), BitSet(b, 0x40), BitSet(b, 0x20), BitSet(b, 0x10),
     BitSet(b, 8), BitSet(b, 4), BitSet(b, 2), BitSet(b, 1)]
  }

  function BytesBits(data: seq<Byte>): (r: Bits)
    ensures |r| == 8 * |data|
  {
    if data == [] then [] else BytesBits(data[..|data| - 1]) + ByteBits(data[|data| - 1])
  }

  /** Shift one more bit into a byte. */
  function Push(v: Byte, x: bool): Byte {
    if x then (v << 1) | 1 else v << 1
  }

  function BitsByte(s: Bits): Byte
    decreases |s|
  {
    if s == [] then 0 else Push(BitsByte(s[..|s| - 1]), s[|s| - 1])
  }

  lemma PushMoves(v: Byte, x: bool)
    ensures BitSet(Push(v, x), 1) == x
    ensures BitSet(Push(v, x), 2) == BitSet(v, 1) && BitSet(Push(v, x), 4) == BitSet(v, 2)
    ensures BitSet(Push(v, x), 8) == BitSet(v, 4) && BitSet(Push(v, x), 0x10) == BitSet(v, 8)
    ensures BitSet(Push(v, x), 0x20) == BitSet(v, 0x10) && BitSet(Push(v, x), 0x40) == BitSet(v, 0x20)
    ensures BitSet(Push(v, x), 0x80) == BitSet(v, 0x40)
  {}

  lemma SameBits(a: Byte, b: Byte)
    requires ByteBits(a) == ByteBits(b)
    ensures a == b
  {
    assert forall i :: 0 <= i < 8 ==> ByteBits(a)[i] == ByteBits(b)[i];
    AllBits(a, b);
  }

  lemma AllBits(a: Byte, b: Byte)
    requires BitSet(a, 0x80) == BitSet(b, 0x80) && BitSet(a, 0x40) == BitSet(b, 0x40)
    requires BitSet(a, 0x20) == BitSet(b, 0x20) && BitSet(a, 0x10) == BitSet(b, 0x10)
    requires BitSet(a, 8) == BitSet(b, 8) && BitSet(a, 4) == BitSet(b, 4)
    requires BitSet(a, 2) == BitSet(b, 2) && BitSet(a, 1) == BitSet(b, 1)
    ensures a == b
  {}

  lemma PushBits(v: Byte, x: bool)
    ensures ByteBits(Push(v, x)) == ByteBits(v)[1..] + [x]
  {
    hide Push, BitSet;
    PushMoves(v, x);
  }

  lemma ZeroBits()
    ensures ByteBits(0) == seq(8, _ => false)
  {}

  lemma {:induction false} ShiftedBits(s: Bits)
    requires |s| <= 8
    ensures ByteBits(BitsByte(s)) == seq(8 - |s|, _ => false) + s
  {
    hide Push, ByteBits;
    if s == [] {
      ZeroBits();
    } else {
      var t := s[..|s| - 1];
      ShiftedBits(t);
      PushBits(BitsByte(t), s[|s| - 1]);
    }
  }

  lemma BitsRoundTrip(s: Bits)
    requires |s| == 8
    ensures ByteBits(BitsByte(s)) == s
  {
    ShiftedBits(s);
  }

  lemma ByteRoundTrip(b: Byte)
    ensures BitsByte(ByteBits(b)) == b
  {
    hide BitsByte, ByteBits;
    BitsRoundTrip(ByteBits(b));
    SameBits(BitsByte(ByteBits(b)), b);
  }

  // ---- Packing into bytes ----

  /** Eight bits to a byte; a last group that is short is filled up with zeros. */
  function Pack(s: Bits): (r: seq<Byte>)
    ensures |r| == (|s| + 7) / 8
  {
    if s == [] then []
    else if |s| < 8 then [BitsByte(s + seq(8 - |s|, _ => false))]
    else [BitsByte(s[..8])] + Pack(s[8..])
  }

  lemma {:induction false} BytesBitsConcat(a: seq<Byte>, b: seq<Byte>)
    ensures BytesBits(a + b) == BytesBits(a) + BytesBits(b)
  {
    hide ByteBits;
    if b == [] {
      assert a + b == a;
    } else {
      BytesBitsConcat(a, b[..|b| - 1]);
      assert (a + b)[..|a + b| - 1] == a + b[..|b| - 1];
    }
  }

  lemma BytesBitsFirst(d: Byte, rest: seq<Byte>)
    ensures BytesBits([d] + rest) == ByteBits(d) + BytesBits(rest)
  {
    hide ByteBits;
    BytesBitsConcat([d], rest);
    assert [d][..0] == [];
  }

  /** Packing loses nothing when the bits fill whole bytes. */
  lemma {:induction false} PackRoundTrip(s: Bits)
    requires |s| % 8 == 0
    ensures BytesBits(Pack(s)) == s
  {
    hide ByteBits, BitsByte;
    if s != [] {
      BitsRoundTrip(s[..8]);
      PackRoundTrip(s[8..]);
      BytesBitsFirst(BitsByte(s[..8]), Pack(s[8..]));
    }
  }

  lemma {:induction false} UnpackRoundTrip(data: seq<Byte>, tail: Bits)
    requires |tail| < 8
    ensures Pack(BytesBits(data) + tail)[..|data|] == data
  {
    hide ByteBits, BitsByte;
    if data != [] {
      var s := BytesBits(data) + tail;
      BytesBitsFirst(data[0], data[1..]);
      assert [data[0]] + data[1..] == data;
      ByteRoundTrip(data[0]);
      assert s[..8] == ByteBits(data[0]) && s[8..] == BytesBits(data[1..]) + tail;
      UnpackRoundTrip(data[1..], tail);
    }
  }

  // ---- The mutable stream ----

  class BitStream {
    var data: Bits

    constructor ()
      ensures data == []
    {
      data := [];
    }

    method Append(arg: BitStream)
      modifies this
      ensures data == old(data) + old(arg.data)
    {
      data := data + arg.data;
    }

    method AppendNum(bits: nat, num: nat)
      modifies this
      ensures data == old(data) + NumBits(bits, num)
    {
      if bits == 0 { return; }
      var b := NewFromNum(bits, num);
      Append(b);
    }

    method AppendBytes(bytes: seq<Byte>)
      modifies this
      ensures data == old(data) + BytesBits(bytes)
    {
      if bytes == [] { return; }
      var b := NewFromBytes(bytes);
      Append(b);
    }

    method ToByte() returns (r: seq<Byte>)
      ensures r == Pack(data)
    {
      hide ByteBits, BitsByte, Pack, ShiftLeft;
      PackByte(data, 0);
      assert data[0..] == data;
      r := [];
      var p := 0;
      for i := 0 to |data| / 8
        invariant p == 8 * i && p <= |data|
        invariant r + Pack(data[p..]) == Pack(data)
      {
        var v := ShiftInto(p, 8);
        PackByte(data, p);
        r := r + [v];
        p := p + 8;
      }
      var oddbits := |data| % 8;
      if oddbits > 0 {
        var v := ShiftInto(p, oddbits);
        PackRest(data, p);
        r := r + [ShiftLeft(v, 8 - oddbits)];
      }
    }

    /** Shift n bits from position p into an empty byte. */
    method ShiftInto(p: nat, n: nat) returns (v: Byte)
      requires p + n <= |data|
      ensures v == BitsByte(data[p..p + n])
    {
      hide ByteBits, Push;
      v := 0;
      for j := 0 to n
        invariant v == BitsByte(data[p..p + j])
      {
        assert data[p..p + j + 1][..j] == data[p..p + j];
        v := Push(v, data[p + j]);
      }
    }
  }

  lemma PackByte(data: Bits, p: nat)
    requires p <= |data|
    ensures |data| - p >= 8 ==> Pack(data[p..]) == [BitsByte(data[p..p + 8])] + Pack(data[p + 8..])
    ensures p == |data| ==> Pack(data[p..]) == []
  {
    hide BitsByte;
    if |data| - p >= 8 {
      assert data[p..][8..] == data[p + 8..] && data[p..][..8] == data[p..p + 8];
    }
  }

  lemma PackRest(data: Bits, p: nat)
    requires p < |data| < p + 8
    ensures Pack(data[p..]) == [ShiftLeft(BitsByte(data[p..p + (|data| - p)]), 8 - (|data| - p))]
  {
    hide BitsByte;
    assert data[p..p + (|data| - p)] == data[p..];
    PushZeros(data[p..], 8 - (|data| - p));
  }

  function ShiftLeft(v: Byte, k: nat): Byte {
    if k == 0 then v else ShiftLeft(v, k - 1) << 1
  }

  lemma {:induction false} PushZeros(s: Bits, k: nat)
    ensures BitsByte(s + seq(k, _ => false)) == ShiftLeft(BitsByte(s), k)
  {
    if k == 0 {
      assert s + seq(k, _ => false) == s;
    } else {
      var t := s + seq(k, _ => false);
      assert t[..|t| - 1] == s + seq(k - 1, _ => false);
      PushZeros(s, k - 1);
    }
  }

  /** Test the bits of num with a mask that moves down from the top. */
  method NewFromNum(bits: nat, num: nat) returns (b: BitStream)
    requires 1 <= bits
    ensures fresh(b) && b.data == NumBits(bits, num)
  {
    b := new BitStream();
    var mask := Pow2(bits - 1);
    for i := 0 to bits
      invariant b.data == NumBits(bits, num)[..i]
      invariant i < bits ==> mask == Pow2(bits - 1 - i)
    {
      NumBit(bits, num, i);
      b.data := b.data + [(num / mask) % 2 == 1];
      mask := mask / 2;
    }
  }

  method NewFromBytes(bytes: seq<Byte>) returns (b: BitStream)
    ensures fresh(b) && b.data == BytesBits(bytes)
  {
    hide ByteBits;
    b := new BitStream();
    for i := 0 to |bytes|
      invariant b.data == BytesBits(bytes[..i])
    {
      var bits := MaskedBits(bytes[i]);
      assert bytes[..i + 1][..i] == bytes[..i];
      b.data := b.data + bits;
    }
    assert bytes[..|bytes|] == bytes;
  }

  /** The inner loop: test the bits of a byte with a mask that moves down from the top. */
  method MaskedBits(byte: Byte) returns (bits: Bits)
    ensures bits == ByteBits(byte)
  {
    var mask: Byte := 0x80;
    assert mask == MaskAt(0);
    hide BitSet, ByteBits, MaskAt, Half;
    bits := [];
    for j := 0 to 8
      invariant mask == MaskAt(j) && |bits| == j
      invariant forall k :: 0 <= k < j ==> bits[k] == ByteBits(byte)[k]
    {
      MaskBit(byte, j); MaskNext(j);
      bits := bits + [BitSet(byte, mask)];
      mask := Half(mask);
    }
  }

  /** The mask for bit number j of a byte, from the most significant one on. */
  function MaskAt(j: nat): Byte {
    match j
    case 0 => 0x80 case 1 => 0x40 case 2 => 0x20 case 3 => 0x10
    case 4 => 8 case 5 => 4 case 6 => 2 case 7 => 1 case _ => 0
  }

  lemma MaskNext(j: nat)
    requires j < 8
    ensures Half(MaskAt(j)) == MaskAt(j + 1)
  {}

  lemma MaskBit(b: Byte, j: nat)
    requires j < 8
    ensures BitSet(b, MaskAt(j)) == ByteBits(b)[j]
  {
    hide BitSet;
  }
}
