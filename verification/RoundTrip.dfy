/** Reading back what was encoded. */
module RoundTrip {
  import opened Arith
  import opened GF256
  import opened QRSpec
  import opened BitStreams
  import opened Segments

  lemma ReadNumBits(n: nat, v: nat, rest: Bits)
    requires v < Pow2(n)
    ensures ReadNum(NumBits(n, v) + rest, n) == Got(v, rest)
  {
    NumRoundTrip(n, v);
    assert (NumBits(n, v) + rest)[..n] == NumBits(n, v);
    assert (NumBits(n, v) + rest)[n..] == rest;
  }

  lemma {:induction false} DecimalInverse(d: seq<Byte>)
    requires ModeData(Num, d)
    ensures Decimal(d) < Pow10(|d|) && DigitBytes(Decimal(d), |d|) == d
  {
    hide Ord, Chr;
    if d != [] {
      var n := |d| - 1;
      DecimalInverse(d[..n]);
      ChrIs(48 + Digit(d[n]), d[n]);
    }
  }

  lemma GroupFits(k: nat)
    requires 1 <= k <= 3
    ensures Pow10(k) <= Pow2(GroupBits(k))
  {
    SmallPowers();
    assert Pow10(2) == 100 && Pow10(3) == 1000;
  }

  lemma {:induction false} DigitsRoundTrip(d: seq<Byte>, rest: Bits)
    requires ModeData(Num, d)
    ensures ReadDigits(NumPayload(d) + rest, |d|) == Got(d, rest)
    decreases |d|
  {
    hide NumBits, ReadNum, Pow2, Pow10, DigitBytes, Decimal, IsDigit;
    if d == [] {
      assert NumPayload(d) + rest == rest;
    } else {
      var k := GroupSize(|d|);
      DecimalInverse(d[..k]);
      GroupFits(k);
      DigitsRoundTrip(d[k..], rest);
      var head, more := NumBits(GroupBits(k), Decimal(d[..k])), NumPayload(d[k..]) + rest;
      ReadNumBits(GroupBits(k), Decimal(d[..k]), more);
      assert NumPayload(d) + rest == head + more;
      assert d[..k] + d[k..] == d;
    }
  }

  lemma AnCharInverse(b: Byte)
    requires LookAn(b) >= 0
    ensures LookAn(b) < 45 && AnChar(LookAn(b)) == b
  {
    hide Ord, Chr;
    OrdFacts(b, b);
  }

  lemma {:induction false} AnRoundTrip(d: seq<Byte>, rest: Bits)
    requires ModeData(An, d)
    ensures ReadAn(AnPayload(d) + rest, |d|) == Got(d, rest)
    decreases |d|
  {
    SmallPowers();
    hide NumBits, ReadNum, Pow2, LookAn, AnChar;
    if |d| >= 2 {
      AnCharInverse(d[0]); AnCharInverse(d[1]);
      var x, y := LookAn(d[0]), LookAn(d[1]);
      var more := AnPayload(d[2..]) + rest;
      ReadNumBits(11, 45 * x + y, more);
      assert AnPayload(d) + rest == NumBits(11, 45 * x + y) + more;
      AnRoundTrip(d[2..], rest);
      assert [d[0], d[1]] + d[2..] == d;
    } else if |d| == 1 {
      AnCharInverse(d[0]);
      ReadNumBits(6, LookAn(d[0]), rest);
      assert d == [d[0]];
    } else {
      assert AnPayload(d) + rest == rest;
    }
  }

  lemma {:induction false} BytesRoundTrip(d: seq<Byte>, rest: Bits)
    ensures ReadBytes(BytesBits(d) + rest, |d|) == Got(d, rest)
    decreases |d|
  {
    hide BitsByte, ByteBits;
    if d != [] {
      var s := BytesBits(d) + rest;
      BytesBitsFirst(d[0], d[1..]);
      assert [d[0]] + d[1..] == d;
      assert s[..8] == ByteBits(d[0]) && s[8..] == BytesBits(d[1..]) + rest;
      ByteRoundTrip(d[0]);
      BytesRoundTrip(d[1..], rest);
    } else {
      assert BytesBits(d) + rest == rest;
    }
  }

  // ---- Kanji ----

  /** The packing drops the difference between a second byte below 0x40 and one 0x40 higher. */
  function CanonLow(lo: Byte): (c: Byte)
    ensures c == lo <==> Ord(lo) >= 0x40
    ensures Ord(c) == if Ord(lo) < 0x40 then Ord(lo) + 0x40 else Ord(lo)
  {
    OrdFacts(lo, lo);
    if Ord(lo) < 0x40 then Chr(Ord(lo) + 0x40) else lo
  }

  function CanonKanji(d: seq<Byte>): (c: seq<Byte>)
    requires KanjiData(d)
    ensures |c| == |d|
  {
    if d == [] then [] else [d[0], CanonLow(d[1])] + CanonKanji(d[2..])
  }

  lemma KanjiArithmetic(h: nat, l: nat, base: nat)
    requires l < 256 && base <= 256 * h + l && base % 256 == 0x40
    ensures var x := 256 * h + l - base;
            var v := (x / 256) * 0xc0 + x % 256;
            var l' := if l < 0x40 then l + 0x40 else l;
            (l - 0x40 < 0xc0) && v == (h - base / 256) * 0xc0 + (l' - 0x40)
            && (v / 0xc0) * 256 + v % 0xc0 + base == 256 * h + l'
  {}

  lemma KanjiNumbers(h: nat, l: nat)
    requires h < 256 && l < 256
    requires 0x8140 <= 256 * h + l <= 0x9ffc || 0xe040 <= 256 * h + l <= 0xebbf
    ensures var c := UnpackSjis(PackSjis(256 * h + l));
            PackSjis(256 * h + l) < 8192 && c == 256 * h + (if l < 0x40 then l + 0x40 else l)
  {
    KanjiArithmetic(h, l, if 256 * h + l <= 0x9ffc then 0x8140 else 0xc140);
  }

  lemma KanjiCodeInverse(hi: Byte, lo: Byte)
    requires IsKanji(hi, lo)
    ensures var c := UnpackSjis(KanjiCode(hi, lo));
            KanjiCode(hi, lo) < 8192 && c < 0x10000 && Chr(c / 256) == hi && Chr(c % 256) == CanonLow(lo)
  {
    hide Ord, Chr, CanonLow, PackSjis, UnpackSjis;
    KanjiNumbers(Ord(hi), Ord(lo));
    var c := UnpackSjis(KanjiCode(hi, lo));
    ChrIs(c / 256, hi);
    ChrIs(c % 256, CanonLow(lo));
  }

  lemma {:induction false} KanjiRoundTrip(d: seq<Byte>, rest: Bits)
    requires KanjiData(d)
    ensures ReadKanji(KanjiPayload(d) + rest, |d| / 2) == Got(CanonKanji(d), rest)
    decreases |d|
  {
    SmallPowers();
    hide NumBits, ReadNum, Pow2, Ord, Chr, KanjiCode, CanonLow, UnpackSjis;
    if d != [] {
      var v := KanjiCode(d[0], d[1]);
      var more := KanjiPayload(d[2..]) + rest;
      KanjiCodeInverse(d[0], d[1]);
      ReadNumBits(13, v, more);
      assert KanjiPayload(d) + rest == NumBits(13, v) + more;
      KanjiRoundTrip(d[2..], rest);
    } else {
      assert KanjiPayload(d) + rest == rest;
    }
  }

  /** Every second byte is at least 0x40, as in all of Shift JIS. */
  predicate HighSeconds(d: seq<Byte>) {
    forall i :: 0 <= i < |d| && i % 2 == 1 ==> Ord(d[i]) >= 0x40
  }

  lemma {:induction false} CanonKanjiSame(d: seq<Byte>)
    requires KanjiData(d)
    ensures CanonKanji(d) == d <==> HighSeconds(d)
    decreases |d|
  {
    hide Ord, CanonLow;
    if d != [] {
      CanonKanjiSame(d[2..]);
      assert d == [d[0], d[1]] + d[2..];
      var c := CanonKanji(d);
      assert c[2..] == CanonKanji(d[2..]) && c[1] == CanonLow(d[1]);
      if HighSeconds(d[2..]) && Ord(d[1]) >= 0x40 {
        forall i | 0 <= i < |d| && i % 2 == 1 ensures Ord(d[i]) >= 0x40 {
          if i > 1 { assert d[i] == d[2..][i - 2]; }
        }
      }
      if HighSeconds(d) {
        forall i | 0 <= i < |d| - 2 && i % 2 == 1 ensures Ord(d[2..][i]) >= 0x40 {
          assert d[2..][i] == d[i + 2];
        }
      }
    }
  }

  // ---- Segments ----

  predicate StructureFields(d: seq<Byte>)
    requires |d| == 3
  {
    1 <= Ord(d[0]) <= 16 && 1 <= Ord(d[1]) <= 16
  }

  /** The data that a reader gets from the segment of an entry. */
  function Canon(e: Entry): Entry
    requires ModeData(e.mode, e.data)
  {
    match e.mode
    case Kanji => Entry(Kanji, CanonKanji(e.data))
    case Structure =>
      Entry(Structure, [Chr(1 + (Ord(e.data[0]) + 15) % 16), Chr(1 + (Ord(e.data[1]) + 15) % 16), e.data[2]])
    case _ => e
  }

  predicate Faithful(e: Entry)
    requires ModeData(e.mode, e.data)
  {
    && (e.mode == Kanji ==> HighSeconds(e.data))
    && (e.mode == Structure ==> StructureFields(e.data))
  }

  lemma CanonSame(e: Entry)
    requires ModeData(e.mode, e.data)
    ensures Canon(e) == e <==> Faithful(e)
  {
    hide Ord, Chr;
    if e.mode == Kanji {
      CanonKanjiSame(e.data);
    } else if e.mode == Structure {
      OrdFacts(e.data[0], e.data[0]); OrdFacts(e.data[1], e.data[1]);
      assert e.data == [e.data[0], e.data[1], e.data[2]];
    }
  }

  lemma {:induction false} NumBitsLow(n: nat, v: nat)
    ensures BitsNum(NumBits(n, v)) == v % Pow2(n)
  {
    if n > 0 {
      NumBitsLow(n - 1, v / 2);
      assert NumBits(n, v)[..n - 1] == NumBits(n - 1, v / 2);
      ModTwice(v, Pow2(n - 1));
    }
  }

  lemma ModTwice(v: nat, p: nat)
    requires 1 <= p
    ensures v % (2 * p) == 2 * ((v / 2) % p) + v % 2
  {
    var x := v / 2;
    var q, r := x / p, x % p;
    assert x == p * q + r;
    assert v == q * (2 * p) + (2 * r + v % 2);
    DivMod(v, 2 * p, q, 2 * r + v % 2);
  }

  lemma ReadFields(x: Bits, y: Bits, z: Bits, rest: Bits)
    requires |x| == |y| == 4 && |z| == 8
    ensures var s := x + y + z + rest;
            s[..4] == x && s[4..8] == y && s[8..16] == z && s[16..] == rest
  {}

  lemma StructureRoundTrip(e: Entry, rest: Bits)
    requires e.mode == Structure && ModeData(e.mode, e.data)
    ensures ReadStructure(Payload(e) + rest) == Got(Canon(e).data, rest)
  {
    hide NumBits, BitsNum, Ord, Chr;
    var a, b, c := Ord(e.data[1]) + 15, Ord(e.data[0]) + 15, Ord(e.data[2]);
    FieldRead(a); FieldRead(b); ByteRead(e.data[2]);
    var x, y, z := NumBits(4, a), NumBits(4, b), NumBits(8, c);
    ReadFields(x, y, z, rest);
    assert Payload(e) == x + y + z;
  }

  lemma FieldRead(a: nat)
    ensures BitsNum(NumBits(4, a)) % 16 == a % 16
  {
    SmallPowers();
    NumBitsLow(4, a);
    hide NumBits, BitsNum;
  }

  lemma ByteRead(b: Byte)
    ensures Chr(BitsNum(NumBits(8, Ord(b))) % 256) == b
  {
    SmallPowers();
    hide Ord, Chr;
    NumRoundTrip(8, Ord(b));
    ChrIs(Ord(b), b);
  }

  lemma PayloadRoundTrip(e: Entry, rest: Bits)
    requires ModeData(e.mode, e.data)
    ensures ReadPayload(e.mode, Payload(e) + rest, Count(e)) == Got(Canon(e).data, rest)
  {
    match e.mode
    case Num => DigitsRoundTrip(e.data, rest);
    case An => AnRoundTrip(e.data, rest);
    case Eight => BytesRoundTrip(e.data, rest);
    case Kanji => KanjiRoundTrip(e.data, rest);
    case Structure => StructureRoundTrip(e, rest);
  }

  lemma {:induction false} ChunkRoundTrip(e: Entry, version: nat, rest: Bits)
    requires ModeData(e.mode, e.data) && !TooLong(e, version)
    ensures ReadSegment(EncodeChunk(e, version) + rest, version) == Got(Canon(e), rest)
    ensures BitsNum((EncodeChunk(e, version) + rest)[..4]) == ModeId(e.mode)
  {
    SmallPowers();
    hide NumBits, BitsNum, Payload, ReadPayload, Pow2, ModeData, Canon, LengthIndicator, FieldWidth, ReadNum;
    FieldWidths(e.mode, version);
    var id, len, body := NumBits(4, ModeId(e.mode)), NumBits(LengthIndicator(e.mode, version), Count(e)), Payload(e);
    var s := EncodeChunk(e, version) + rest;
    assert s[..4] == id && s[4..] == len + (body + rest);
    NumRoundTrip(4, ModeId(e.mode));
    CountFits(e, version);
    ReadNumBits(LengthIndicator(e.mode, version), Count(e), body + rest);
    PayloadRoundTrip(e, rest);
    CanonMode(e);
  }

  lemma CanonMode(e: Entry)
    requires ModeData(e.mode, e.data)
    ensures Canon(e) == Entry(e.mode, Canon(e).data)
  {}

  lemma CountFits(e: Entry, version: nat)
    requires ModeData(e.mode, e.data) && !TooLong(e, version)
    ensures e.mode != Structure ==> Count(e) < Pow2(LengthIndicator(e.mode, version))
  {}

  // ---- Whole messages ----

  function CanonAll(es: seq<Entry>): (r: seq<Entry>)
    requires AllValid(es)
    ensures |r| == |es|
  {
    seq(|es|, i requires 0 <= i < |es| => Canon(es[i]))
  }

  function Prepend(es: seq<Entry>, r: Read<seq<Entry>>): Read<seq<Entry>> {
    match r case Bad => Bad case Got(more, rest) => Got(es + more, rest)
  }

  lemma ReadOne(e: Entry, version: nat, rest: Bits)
    requires ModeData(e.mode, e.data) && !TooLong(e, version)
    ensures ReadAll(EncodeChunk(e, version) + rest, version) == Prepend([Canon(e)], ReadAll(rest, version))
  {
    hide NumBits, BitsNum, Payload, ModeData, Canon, LengthIndicator, ReadSegment;
    ChunkRoundTrip(e, version, rest);
    assert ModeId(e.mode) != 0;
    var s := EncodeChunk(e, version) + rest;
    assert ReadSegment(s, version) == Got(Canon(e), rest);
  }

  lemma {:induction false} ChunksValid(e: Entry, version: nat)
    requires ModeData(e.mode, e.data)
    ensures AllValid(Chunks(e, version))
    decreases |e.data|
  {
    hide ModeData;
    if TooLong(e, version) {
      HeadTailValid(e, version);
      ChunksValid(Tail(e, version), version);
    }
  }

  lemma {:induction false} ReadEntry(e: Entry, version: nat, rest: Bits)
    requires ModeData(e.mode, e.data) && AllValid(Chunks(e, version))
    ensures ReadAll(EncodeEntry(e, version) + rest, version)
         == Prepend(CanonAll(Chunks(e, version)), ReadAll(rest, version))
    decreases |e.data|
  {
    hide EncodeChunk, ReadAll, ModeData, Canon, MaximumWords;
    if TooLong(e, version) {
      HeadTailValid(e, version);
      var h, t := Head(e, version), Tail(e, version);
      ChunksValid(t, version);
      ReadOne(h, version, EncodeEntry(t, version) + rest);
      ReadEntry(t, version, rest);
      assert EncodeEntry(e, version) + rest == EncodeChunk(h, version) + (EncodeEntry(t, version) + rest);
      assert CanonAll(Chunks(e, version)) == [Canon(h)] + CanonAll(Chunks(t, version));
      PrependTwice([Canon(h)], CanonAll(Chunks(t, version)), ReadAll(rest, version));
    } else {
      ReadOne(e, version, rest);
      assert CanonAll(Chunks(e, version)) == [Canon(e)];
    }
  }

  lemma PrependTwice(a: seq<Entry>, b: seq<Entry>, r: Read<seq<Entry>>)
    ensures Prepend(a, Prepend(b, r)) == Prepend(a + b, r)
  {
    if r.Got? { assert a + (b + r.value) == (a + b) + r.value; }
  }

  lemma {:induction false} ChunksAllValid(es: seq<Entry>, version: nat)
    requires AllValid(es)
    ensures AllValid(ChunksAll(es, version))
  {
    hide ModeData, Chunks;
    if es != [] {
      ChunksValid(es[0], version);
      ChunksAllValid(es[1..], version);
    }
  }

  lemma {:induction false} ReadEntries(es: seq<Entry>, version: nat, rest: Bits)
    requires AllValid(es) && AllValid(ChunksAll(es, version))
    ensures ReadAll(EncodeAll(es, version) + rest, version)
         == Prepend(CanonAll(ChunksAll(es, version)), ReadAll(rest, version))
  {
    hide EncodeEntry, ReadAll, ModeData, Canon, Chunks;
    if es == [] {
      assert EncodeAll(es, version) + rest == rest;
      assert CanonAll([]) == [];
      PrependNothing(ReadAll(rest, version));
    } else {
      var e, more := es[0], es[1..];
      ChunksValid(e, version);
      ChunksAllValid(more, version);
      ReadEntry(e, version, EncodeAll(more, version) + rest);
      ReadEntries(more, version, rest);
      assert EncodeAll(es, version) + rest == EncodeEntry(e, version) + (EncodeAll(more, version) + rest);
      assert CanonAll(ChunksAll(es, version)) == CanonAll(Chunks(e, version)) + CanonAll(ChunksAll(more, version));
      PrependTwice(CanonAll(Chunks(e, version)), CanonAll(ChunksAll(more, version)), ReadAll(rest, version));
    }
  }

  lemma PrependNothing(r: Read<seq<Entry>>)
    ensures Prepend([], r) == r
  {
    if r.Got? { assert [] + r.value == r.value; }
  }

  /** What may follow the last segment: a terminator, or too few bits for another mode indicator. */
  predicate Terminated(pad: Bits) {
    |pad| < 4 || BitsNum(pad[..4]) == 0
  }

  /** A message that is followed by a terminator reads back as its segments, in canonical form. */
  lemma MessageRead(es: seq<Entry>, version: nat, pad: Bits)
    requires AllValid(es) && Terminated(pad)
    ensures AllValid(ChunksAll(es, version))
    ensures ReadAll(EncodeAll(es, version) + pad, version) == Got(CanonAll(ChunksAll(es, version)), pad)
  {
    hide *;
    ChunksAllValid(es, version);
    ReadEntries(es, version, pad);
    ReadPad(CanonAll(ChunksAll(es, version)), version, pad);
  }

  lemma ReadPad(es: seq<Entry>, version: nat, pad: Bits)
    requires Terminated(pad)
    ensures Prepend(es, ReadAll(pad, version)) == Got(es, pad)
  {
    assert es + [] == es;
  }

  /** Reading changes no segment exactly when no Kanji character has a second byte below 0x40 (and
      a structured-append header has fields between 1 and 16). */
  lemma CanonAllSame(es: seq<Entry>, version: nat)
    requires AllValid(es) && AllValid(ChunksAll(es, version))
    ensures CanonAll(ChunksAll(es, version)) == ChunksAll(es, version) <==> forall i :: 0 <= i < |es| ==> Faithful(es[i])
  {
    hide ModeData, Faithful;
    var cs := ChunksAll(es, version);
    ChunksAllFaithful(es, version);
    forall i | 0 <= i < |cs| ensures Canon(cs[i]) == cs[i] <==> Faithful(cs[i]) {
      CanonSame(cs[i]);
    }
    var ks := CanonAll(cs);
    if forall i :: 0 <= i < |cs| ==> Faithful(cs[i]) {
      assert ks == cs;
    }
    if ks == cs {
      assert forall i :: 0 <= i < |cs| ==> ks[i] == cs[i];
    }
  }

  /** The message reads back unchanged under the same condition. */
  lemma MessageFaithful(es: seq<Entry>, version: nat, pad: Bits)
    requires AllValid(es) && Terminated(pad)
    ensures AllValid(ChunksAll(es, version))
    ensures ReadAll(EncodeAll(es, version) + pad, version) == Got(ChunksAll(es, version), pad)
       <==> forall i :: 0 <= i < |es| ==> Faithful(es[i])
  {
    hide EncodeAll, ReadAll, AllValid, Faithful, CanonAll;
    MessageRead(es, version, pad);
    CanonAllSame(es, version);
  }

  lemma HighSecondsConcat(a: seq<Byte>, b: seq<Byte>)
    requires |a| % 2 == 0
    ensures HighSeconds(a + b) <==> HighSeconds(a) && HighSeconds(b)
  {
    hide Ord;
    if HighSeconds(a + b) {
      forall i | 0 <= i < |a| && i % 2 == 1 ensures Ord(a[i]) >= 0x40 { assert (a + b)[i] == a[i]; }
      forall i | 0 <= i < |b| && i % 2 == 1 ensures Ord(b[i]) >= 0x40 { assert (a + b)[|a| + i] == b[i]; }
    }
  }

  lemma {:induction false} ChunksFaithful(e: Entry, version: nat)
    requires ModeData(e.mode, e.data) && AllValid(Chunks(e, version))
    ensures Faithful(e) <==> forall i :: 0 <= i < |Chunks(e, version)| ==> Faithful(Chunks(e, version)[i])
    decreases |e.data|
  {
    hide ModeData, HighSeconds, MaximumWords, TooLong, StructureFields;
    var cs := Chunks(e, version);
    if TooLong(e, version) {
      HeadTailValid(e, version);
      var h, t := Head(e, version), Tail(e, version);
      ChunksValid(t, version);
      ChunksFaithful(t, version);
      if e.mode == Kanji { HighSecondsConcat(h.data, t.data); }
      assert h.data + t.data == e.data;
      assert cs == [h] + Chunks(t, version);
      assert Faithful(e) <==> Faithful(h) && Faithful(t);
      hide Faithful, Chunks;
      SplitForall([h], Chunks(t, version));
      assert [h][0] == h;
    } else {
      assert cs == [e] && cs[0] == e;
    }
  }

  lemma SplitForall(a: seq<Entry>, b: seq<Entry>)
    requires AllValid(a) && AllValid(b)
    ensures (forall i :: 0 <= i < |a + b| ==> Faithful((a + b)[i]))
       <==> (forall i :: 0 <= i < |a| ==> Faithful(a[i])) && (forall i :: 0 <= i < |b| ==> Faithful(b[i]))
  {
    hide ModeData, Faithful;
    var c := a + b;
    if forall i :: 0 <= i < |c| ==> Faithful(c[i]) {
      forall i | 0 <= i < |a| ensures Faithful(a[i]) { assert c[i] == a[i]; }
      forall i | 0 <= i < |b| ensures Faithful(b[i]) { assert c[|a| + i] == b[i]; }
    }
  }

  lemma {:induction false} ChunksAllFaithful(es: seq<Entry>, version: nat)
    requires AllValid(es) && AllValid(ChunksAll(es, version))
    ensures (forall i :: 0 <= i < |es| ==> Faithful(es[i]))
       <==> (forall i :: 0 <= i < |ChunksAll(es, version)| ==> Faithful(ChunksAll(es, version)[i]))
  {
    hide ModeData, Faithful, Chunks;
    if es != [] {
      var e, more := es[0], es[1..];
      ChunksValid(e, version); ChunksAllValid(more, version);
      ChunksFaithful(e, version);
      ChunksAllFaithful(more, version);
      SplitForall(Chunks(e, version), ChunksAll(more, version));
      SplitForall([e], more);
      assert [e][0] == e;
      assert es == [e] + more;
    }
  }

  // ---- Chunk splitting ----

  function Joined(cs: seq<Entry>): seq<Byte> {
    if cs == [] then [] else cs[0].data + Joined(cs[1..])
  }

  /** The segments of an entry are of its mode, short enough for their length fields, and together
      they hold its data. */
  lemma {:induction false} ChunksJoin(e: Entry, version: nat)
    requires ModeData(e.mode, e.data)
    ensures Joined(Chunks(e, version)) == e.data
    ensures forall i :: 0 <= i < |Chunks(e, version)| ==>
              Chunks(e, version)[i].mode == e.mode && !TooLong(Chunks(e, version)[i], version)
    decreases |e.data|
  {
    hide ModeData;
    var cs := Chunks(e, version);
    if TooLong(e, version) {
      HeadTailValid(e, version);
      ChunksJoin(Tail(e, version), version);
      hide TooLong, Head, Tail;
      assert cs[1..] == Chunks(Tail(e, version), version);
    } else {
      hide TooLong;
      assert cs[1..] == [];
    }
  }
}
