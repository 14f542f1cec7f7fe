/** The input object: a list of entries that is checked, encoded, merged and padded. */
module Inputs {
  import opened GF256
  import opened QRSpec
  import opened BitStreams
  import opened Segments
  import opened Estimate
  import opened RoundTrip
  import opened VersionChoice
  import opened VersionExact

  // ---- Checking ----

  method CheckModeNum(data: seq<Byte>) returns (ret: int)
    ensures ret == if ModeData(Num, data) then 0 else -1
  {
    hide IsDigit;
    for i := 0 to |data|
      invariant forall k :: 0 <= k < i ==> IsDigit(data[k])
    {
      if !IsDigit(data[i]) { return -1; }
    }
    return 0;
  }

  method CheckModeAn(data: seq<Byte>) returns (ret: int)
    ensures ret == if ModeData(An, data) then 0 else -1
  {
    hide LookAn;
    for i := 0 to |data|
      invariant forall k :: 0 <= k < i ==> LookAn(data[k]) >= 0
    {
      if LookAn(data[i]) < 0 { return -1; }
    }
    return 0;
  }

  method CheckModeKanji(data: seq<Byte>) returns (ret: int)
    ensures ret == if ModeData(Kanji, data) then 0 else -1
  {
    hide Ord;
    if |data| % 2 == 1 {
      if KanjiData(data) { KanjiEven(data); }
      return -1;
    }
    var i := 0;
    while i < |data|
      invariant 0 <= i <= |data| && i % 2 == 0
      invariant KanjiData(data) == KanjiData(data[i..])
      decreases |data| - i
    {
      var val := 256 * Ord(data[i]) + Ord(data[i + 1]);
      assert data[i..][2..] == data[i + 2..];
      if val < 0x8140 || (val > 0x9ffc && val < 0xe040) || val > 0xebbf { return -1; }
      i := i + 2;
    }
    return 0;
  }

  /** Any non-empty data passes as a structured-append header, whatever its length. */
  method CheckEntry(mode: Mode, data: seq<Byte>) returns (ret: int)
    ensures ret == if data != [] && (mode == Structure || ModeData(mode, data)) then 0 else -1
  {
    if |data| <= 0 { return -1; }
    match mode
    case Num => ret := CheckModeNum(data);
    case An => ret := CheckModeAn(data);
    case Kanji => ret := CheckModeKanji(data);
    case Eight => ret := 0;
    case Structure => ret := 0;
  }

  // ---- Encoding one segment ----

  lemma ThreeDigits(d: seq<Byte>)
    requires ModeData(Num, d)
    ensures |d| == 3 ==> Decimal(d) == 100 * Digit(d[0]) + 10 * Digit(d[1]) + Digit(d[2])
    ensures |d| == 2 ==> Decimal(d) == 10 * Digit(d[0]) + Digit(d[1])
    ensures |d| == 1 ==> Decimal(d) == Digit(d[0])
  {
    hide IsDigit, Digit;
    if |d| == 3 {
      assert d[..2][..1] == d[..1];
    }
  }

  /** The payload from digit i on, split into its first group and the rest. */
  lemma NumGroup(data: seq<Byte>, i: nat)
    requires ModeData(Num, data) && i <= |data|
    ensures i + 3 <= |data| ==>
              NumPayload(data[i..])
              == NumBits(10, 100 * Digit(data[i]) + 10 * Digit(data[i + 1]) + Digit(data[i + 2])) + NumPayload(data[i + 3..])
    ensures i + 2 == |data| ==> NumPayload(data[i..]) == NumBits(7, 10 * Digit(data[i]) + Digit(data[i + 1]))
    ensures i + 1 == |data| ==> NumPayload(data[i..]) == NumBits(4, Digit(data[i]))
    ensures i == |data| ==> NumPayload(data[i..]) == []
  {
    hide NumBits, IsDigit, Digit, Decimal;
    var d := data[i..];
    if |d| >= 3 {
      ThreeDigits(d[..3]);
      assert d[3..] == data[i + 3..];
    } else if |d| > 0 {
      ThreeDigits(d);
      assert d[..|d|] == d && NumPayload(d[|d|..]) == [];
    }
  }

  method Header(mode: Mode, count: nat, version: nat) returns (b: BitStream)
    ensures fresh(b) && b.data == NumBits(4, ModeId(mode)) + NumBits(LengthIndicator(mode, version), count)
  {
    b := new BitStream();
    b.AppendNum(4, ModeId(mode));
    b.AppendNum(LengthIndicator(mode, version), count);
  }

  method EncodeModeNum(e: Entry, version: nat) returns (b: BitStream)
    requires e.mode == Num && ModeData(Num, e.data)
    ensures fresh(b) && b.data == EncodeChunk(e, version)
  {
    hide NumBits, IsDigit, Digit, NumPayload, LengthIndicator;
    b := Header(Num, |e.data|, version);
    ghost var head := b.data;
    assert e.data[0..] == e.data;
    var words := |e.data| / 3;
    for i := 0 to words
      invariant b.data + NumPayload(e.data[3 * i..]) == head + NumPayload(e.data)
    {
      NumGroup(e.data, 3 * i);
      b.AppendNum(10, 100 * Digit(e.data[3 * i]) + 10 * Digit(e.data[3 * i + 1]) + Digit(e.data[3 * i + 2]));
    }
    NumGroup(e.data, 3 * words);
    if |e.data| - words * 3 == 1 {
      b.AppendNum(4, Digit(e.data[words * 3]));
    } else if |e.data| - words * 3 == 2 {
      b.AppendNum(7, 10 * Digit(e.data[words * 3]) + Digit(e.data[words * 3 + 1]));
    }
  }

  lemma AnGroup(data: seq<Byte>, i: nat)
    requires ModeData(An, data) && i <= |data|
    ensures i + 2 <= |data| ==>
              AnPayload(data[i..]) == NumBits(11, 45 * LookAn(data[i]) + LookAn(data[i + 1])) + AnPayload(data[i + 2..])
    ensures i + 1 == |data| ==> AnPayload(data[i..]) == NumBits(6, LookAn(data[i]))
    ensures i == |data| ==> AnPayload(data[i..]) == []
  {
    hide NumBits, LookAn;
    var d := data[i..];
    if |d| >= 2 {
      assert d[2..] == data[i + 2..];
    }
  }

  method EncodeModeAn(e: Entry, version: nat) returns (b: BitStream)
    requires e.mode == An && ModeData(An, e.data)
    ensures fresh(b) && b.data == EncodeChunk(e, version)
  {
    hide NumBits, LookAn, AnPayload, LengthIndicator;
    b := Header(An, |e.data|, version);
    ghost var head := b.data;
    assert e.data[0..] == e.data;
    var words := |e.data| / 2;
    for i := 0 to words
      invariant b.data + AnPayload(e.data[2 * i..]) == head + AnPayload(e.data)
    {
      AnGroup(e.data, 2 * i);
      b.AppendNum(11, 45 * LookAn(e.data[2 * i]) + LookAn(e.data[2 * i + 1]));
    }
    AnGroup(e.data, 2 * words);
    if |e.data| % 2 == 1 {
      b.AppendNum(6, LookAn(e.data[words * 2]));
    }
  }

  method EncodeMode8(e: Entry, version: nat) returns (b: BitStream)
    requires e.mode == Eight
    ensures fresh(b) && b.data == EncodeChunk(e, version)
  {
    b := Header(Eight, |e.data|, version);
    b.AppendBytes(e.data);
  }

  method EncodeModeKanji(e: Entry, version: nat) returns (b: BitStream)
    requires e.mode == Kanji && ModeData(Kanji, e.data)
    ensures fresh(b) && b.data == EncodeChunk(e, version)
  {
    hide NumBits, IsKanji, KanjiCode, LengthIndicator;
    b := Header(Kanji, |e.data| / 2, version);
    ghost var head := b.data;
    var i := 0;
    while i < |e.data|
      invariant 0 <= i <= |e.data| && KanjiData(e.data[i..])
      invariant b.data + KanjiPayload(e.data[i..]) == head + KanjiPayload(e.data)
    {
      assert e.data[i..][2..] == e.data[i + 2..];
      b.AppendNum(13, KanjiCode(e.data[i], e.data[i + 1]));
      i := i + 2;
    }
  }

  /** Subtracting one from a field value of zero wraps around, as on the C unsigned argument. */
  method EncodeModeStructure(e: Entry, version: nat) returns (b: BitStream)
    requires e.mode == Structure && ModeData(Structure, e.data)
    ensures fresh(b) && b.data == EncodeChunk(e, version)
  {
    hide NumBits, Ord;
    b := new BitStream();
    b.AppendNum(4, ModeId(Structure));
    b.AppendNum(4, Ord(e.data[1]) + 15);
    b.AppendNum(4, Ord(e.data[0]) + 15);
    b.AppendNum(8, Ord(e.data[2]));
    assert NumBits(LengthIndicator(Structure, version), 0) == [];
  }

  /** Split what is too long for one segment, and encode the parts. */
  method EncodeBitStream(e: Entry, version: nat) returns (b: BitStream)
    requires ModeData(e.mode, e.data)
    ensures fresh(b) && b.data == EncodeEntry(e, version)
    decreases |e.data|
  {
    hide ModeData, EncodeChunk;
    var words := MaximumWords(e.mode, version);
    if words != 0 && |e.data| > words {
      HeadTailValid(e, version);
      var st1 := EncodeBitStream(Entry(e.mode, e.data[..words]), version);
      OneSegment(Head(e, version), version);
      var st2 := EncodeBitStream(Entry(e.mode, e.data[words..]), version);
      b := new BitStream();
      b.Append(st1);
      b.Append(st2);
    } else {
      match e.mode
      case Num => b := EncodeModeNum(e, version);
      case An => b := EncodeModeAn(e, version);
      case Eight => b := EncodeMode8(e, version);
      case Kanji => b := EncodeModeKanji(e, version);
      case Structure => b := EncodeModeStructure(e, version);
    }
  }

  // ---- The input object ----

  datatype Option<T> = None | Some(value: T)

  class QRInput {
    var version: nat
    var level: Level
    var entries: seq<Entry>   // the list, from its head on
    var streams: seq<Bits>    // the bit stream of each entry, once it is encoded

    /** Entries as they are appended; headers have three bytes. */
    ghost predicate Valid()
      reads this
    {
      version <= VERSION_MAX && AllChecked(entries) && AllValid(entries)
    }

    constructor (version: nat, level: Level)
      requires version <= VERSION_MAX
      ensures Valid() && entries == [] && this.version == version && this.level == level
    {
      this.version := version;
      this.level := level;
      entries, streams := [], [];
    }

    method Append(mode: Mode, data: seq<Byte>) returns (ret: int)
      requires Valid()
      modifies this`entries
      ensures ret == if data != [] && (mode == Structure || ModeData(mode, data)) then 0 else -1
      ensures ret != 0 || Check(Entry(mode, data)) ==> Valid()
      ensures entries == if ret == 0 then old(entries) + [Entry(mode, data)] else old(entries)
    {
      hide ModeData;
      ret := CheckEntry(mode, data);
      if ret == 0 {
        entries := entries + [Entry(mode, data)];
      }
    }

    method EstimateBitStreamSize(version: nat) returns (bits: nat)
      ensures bits == EstimateAll(entries, version)
    {
      hide EstimateEntry;
      bits := 0;
      for i := 0 to |entries|
        invariant bits + EstimateAll(entries[i..], version) == EstimateAll(entries, version)
      {
        assert entries[i..][1..] == entries[i + 1..];
        bits := bits + EstimateEntry(entries[i], version);
      }
    }

    /** Returns 0 where the C function returns -1. */
    method EstimateVersion() returns (version: nat)
      ensures version == EstimateFrom(entries, level, 0)
    {
      hide EstimateAll, MinVersion;
      version := 0;
      var prev: nat := 0;
      while true
        invariant prev == version <= VERSION_MAX
        invariant EstimateFrom(entries, level, version) == EstimateFrom(entries, level, 0)
        decreases VERSION_MAX - version
      {
        prev := version;
        var bits := EstimateBitStreamSize(prev);
        version := GetMinimumVersion((bits + 7) / 8, level);
        if version == 0 { return 0; }
        if version <= prev { break; }
        prev := version;
      }
    }

    /** Encode every entry for the current version; returns the total number of bits. */
    method CreateBitStream() returns (total: nat)
      requires Valid()
      modifies this`streams
      ensures |streams| == |entries| && Concat(streams) == EncodeAll(entries, version)
      ensures total == |EncodeAll(entries, version)|
    {
      hide EncodeEntry, ModeData, AllChecked;
      total := 0;
      streams := [];
      for i := 0 to |entries|
        invariant |streams| == i
        invariant AllValid(entries[i..])
        invariant Concat(streams) + EncodeAll(entries[i..], version) == EncodeAll(entries, version)
        invariant total == |Concat(streams)|
      {
        assert entries[i..][1..] == entries[i + 1..];
        var b := EncodeBitStream(entries[i], version);
        assert (streams + [b.data])[..i] == streams;
        streams := streams + [b.data];
        total := total + |b.data|;
      }
    }

    /** Encode, and raise the version while the result needs a larger one. */
    method ConvertData() returns (ok: bool)
      requires Valid()
      modifies this`version, this`streams
      ensures Valid()
      ensures var v := FinalVersion(entries, level, old(version));
              && ok == (v != 0)
              && (ok ==> version == v && Concat(streams) == EncodeAll(entries, v))
      ensures ok <==> Encodable(entries, level, old(version))
      ensures ok ==> |streams| == |entries|
    {
      hide MinVersion, EncodeAll, AllValid, AllChecked, Encodable;
      FinalExists(entries, level, version);
      var ver := EstimateVersion();
      if ver > version { version := ver; }
      while true
        invariant version <= VERSION_MAX && AllValid(entries)
        invariant ConvertFrom(entries, level, version) == FinalVersion(entries, level, old(version))
        decreases VERSION_MAX - version
      {
        var bits := CreateBitStream();
        ver := GetMinimumVersion((bits + 7) / 8, level);
        if ver == 0 {
          return false;
        } else if ver > version {
          version := ver;
        } else {
          break;
        }
      }
      FinalVersionFits(entries, level, old(version));
      ok := true;
    }

    method MergeBitStream() returns (b: BitStream?)
      requires Valid()
      modifies this`version, this`streams
      ensures Valid()
      ensures var v := FinalVersion(entries, level, old(version));
              && (b == null <==> v == 0)
              && (b != null ==> fresh(b) && version == v && b.data == EncodeAll(entries, v))
      ensures b != null <==> Encodable(entries, level, old(version))
    {
      hide EncodeAll, FinalVersion, AllValid, AllChecked, Encodable;
      var ok := ConvertData();
      if !ok { return null; }
      b := new BitStream();
      var list := streams;
      for i := 0 to |list|
        invariant b.data == Concat(list[..i])
        modifies b
      {
        assert list[..i + 1][..i] == list[..i];
        b.data := b.data + list[i];
      }
      assert list[..|list|] == list;
    }

    method AppendPaddingBit(b: BitStream) returns (ok: bool)
      requires Valid()
      modifies b
      ensures ok <==> |old(b.data)| <= 8 * DataLength(version, level)
      ensures b.data == if ok then old(b.data) + Padding(|old(b.data)|, DataLength(version, level)) else old(b.data)
    {
      hide DataLength, NumBits, Padding, PadBytes, BytesBits;
      var bits := |b.data|;
      var maxwords := DataLength(version, level);
      var maxbits := maxwords * 8;
      if maxbits < bits { return false; }
      PaddingIs(bits, maxwords);
      ok := true;
      if maxbits == bits { return; }
      if maxbits - bits <= 4 {
        b.AppendNum(maxbits - bits, 0);
        return;
      }
      var words := (bits + 4 + 7) / 8;
      var padding := new BitStream();
      padding.AppendNum(words * 8 - bits, 0);
      assert padding.data == NumBits(words * 8 - bits, 0);
      var padlen := maxwords - words;
      if padlen > 0 {
        var padbuf: seq<Byte> := [];
        for i := 0 to padlen
          invariant padbuf == PadBytes(i)
          modifies {}
        {
          MorePadding(i);
          padbuf := padbuf + [if i % 2 == 1 then 0x11 else 0xec];
        }
        padding.AppendBytes(padbuf);
      }
      assert padding.data == Padding(bits, maxwords);
      b.Append(padding);
    }

    /** The codewords of the symbol: message, terminator and padding, packed into bytes. */
    method GetByteStream() returns (r: Option<seq<Byte>>)
      requires Valid()
      modifies this`version, this`streams
      ensures Valid()
      ensures var data := SymbolData(entries, level, old(version));
              && (r.None? <==> data.None?)
              && (r.Some? ==> data == Some((version, r.value)))
      ensures r.Some? <==> Encodable(entries, level, old(version))
    {
      hide EncodeAll, FinalVersion, AllValid, AllChecked, Encodable, DataLength, Padding, Pack;
      FinalVersionFits(entries, level, version);
      var b := MergeBitStream();
      if b == null { return None; }
      var ok := AppendPaddingBit(b);
      if !ok { return None; }
      var bytes := b.ToByte();
      return Some(bytes);
    }
  }

  /** The padding, case by case. */
  lemma PaddingIs(n: nat, maxwords: nat)
    requires n <= 8 * maxwords
    ensures var room, words := 8 * maxwords - n, (n + 4 + 7) / 8;
            && (room == 0 ==> Padding(n, maxwords) == [])
            && (room <= 4 ==> Padding(n, maxwords) == NumBits(room, 0))
            && (room > 4 && words == maxwords ==> Padding(n, maxwords) == NumBits(words * 8 - n, 0))
            && (room > 4 ==> words <= maxwords &&
                             Padding(n, maxwords) == NumBits(words * 8 - n, 0) + BytesBits(PadBytes(maxwords - words)))
    ensures PadBytes(0) == []
  {
    NumBitsZero(0);
  }

  lemma MorePadding(n: nat)
    ensures PadBytes(n + 1) == PadBytes(n) + [if n % 2 == 1 then 0x11 else 0xec]
  {}

  function Concat(ss: seq<Bits>): Bits {
    if ss == [] then [] else Concat(ss[..|ss| - 1]) + ss[|ss| - 1]
  }

  /** The data codewords of a message at a version that holds it. */
  function Codewords(es: seq<Entry>, level: Level, v: nat): seq<Byte>
    requires AllValid(es) && Fits(es, level, v)
  {
    var bits := EncodeAll(es, v);
    Pack(bits + Padding(|bits|, DataLength(v, level)))
  }

  /** The version and the data codewords for a requested version, if there is a version. */
  function SymbolData(es: seq<Entry>, level: Level, requested: nat): Option<(nat, seq<Byte>)>
    requires requested <= VERSION_MAX && AllValid(es)
  {
    FinalVersionFits(es, level, requested);
    var v := FinalVersion(es, level, requested);
    if v == 0 then None else Some((v, Codewords(es, level, v)))
  }

  /** The codewords fill the version, and reading their bits gives the segments of the message. */
  lemma CodewordsRead(es: seq<Entry>, level: Level, v: nat)
    requires AllValid(es) && Fits(es, level, v)
    ensures |Codewords(es, level, v)| == DataLength(v, level)
    ensures AllValid(ChunksAll(es, v))
    ensures ReadAll(BytesBits(Codewords(es, level, v)), v)
         == Got(CanonAll(ChunksAll(es, v)), Padding(|EncodeAll(es, v)|, DataLength(v, level)))
  {
    hide EncodeAll, DataLength, Padding, ReadAll, BytesBits, AllValid, ChunksAll;
    var bits := EncodeAll(es, v);
    var pad := Padding(|bits|, DataLength(v, level));
    PaddingFills(|bits|, DataLength(v, level));
    PackRoundTrip(bits + pad);
    MessageRead(es, v, pad);
  }
}
