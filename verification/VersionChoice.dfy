/** Which version a message ends up in, and how its bit stream is filled up. */
module VersionChoice {
  import opened GF256
  import opened QRSpec
  import opened BitStreams
  import opened Segments
  import opened Estimate
  import opened RoundTrip

  function Bytes(bits: nat): nat { (bits + 7) / 8 }

  /** Estimate, look up the version, and repeat while it grows; 0 means that none is large enough. */
  function EstimateFrom(es: seq<Entry>, level: Level, prev: nat): (v: nat)
    requires prev <= VERSION_MAX
    ensures v <= VERSION_MAX
    decreases VERSION_MAX - prev
  {
    var v := MinVersion(Bytes(EstimateAll(es, prev)), level);
    if v == 0 then 0 else if v > prev then EstimateFrom(es, level, v) else v
  }

  /** Encode for a version, and repeat with a larger one while the result does not fit. */
  function ConvertFrom(es: seq<Entry>, level: Level, version: nat): (v: nat)
    requires version <= VERSION_MAX && AllValid(es)
    ensures v <= VERSION_MAX
    decreases VERSION_MAX - version
  {
    var v := MinVersion(Bytes(|EncodeAll(es, version)|), level);
    if v == 0 then 0 else if v > version then ConvertFrom(es, level, v) else version
  }

  /** The version of the symbol for a requested version; 0 if the message is too large. */
  function FinalVersion(es: seq<Entry>, level: Level, requested: nat): (v: nat)
    requires requested <= VERSION_MAX && AllValid(es)
    ensures v <= VERSION_MAX
  {
    var estimate := EstimateFrom(es, level, 0);
    ConvertFrom(es, level, if estimate > requested then estimate else requested)
  }

  /** The message, encoded for version v, fits into version v. */
  predicate Fits(es: seq<Entry>, level: Level, v: nat)
    requires AllValid(es)
  {
    1 <= v <= VERSION_MAX && |EncodeAll(es, v)| <= 8 * DataLength(v, level)
  }

  lemma FitsMeaning(es: seq<Entry>, level: Level, v: nat)
    requires AllValid(es) && 1 <= v <= VERSION_MAX
    ensures Fits(es, level, v) <==> 1 <= MinVersion(Bytes(|EncodeAll(es, v)|), level) <= v
  {
    hide DataLength, EncodeAll, MinVersion;
    MinVersionMeaning(Bytes(|EncodeAll(es, v)|), level, v);
  }

  lemma {:induction false} ConvertFits(es: seq<Entry>, level: Level, version: nat)
    requires version <= VERSION_MAX && AllValid(es)
    ensures var v := ConvertFrom(es, level, version);
            v != 0 ==> version <= v && Fits(es, level, v)
    decreases VERSION_MAX - version
  {
    hide DataLength, EncodeAll, MinVersion, Fits;
    var v := MinVersion(Bytes(|EncodeAll(es, version)|), level);
    if v != 0 {
      if v > version {
        ConvertFits(es, level, v);
      } else {
        FitsMeaning(es, level, version);
      }
    }
  }

  /** Whatever the entries are: the chosen version is at least the requested one, and it holds
      the message as encoded for exactly that version. */
  lemma FinalVersionFits(es: seq<Entry>, level: Level, requested: nat)
    requires requested <= VERSION_MAX && AllValid(es)
    ensures var v := FinalVersion(es, level, requested);
            v != 0 ==> requested <= v && Fits(es, level, v)
  {
    hide Fits, EstimateFrom;
    var estimate := EstimateFrom(es, level, 0);
    ConvertFits(es, level, if estimate > requested then estimate else requested);
  }

  /** Asking for the chosen version again chooses it again. */
  lemma FinalVersionAgain(es: seq<Entry>, level: Level, requested: nat)
    requires requested <= VERSION_MAX && AllValid(es) && FinalVersion(es, level, requested) != 0
    ensures var v := FinalVersion(es, level, requested); FinalVersion(es, level, v) == v
  {
    hide Fits, EstimateFrom, EncodeAll, MinVersion;
    var estimate := EstimateFrom(es, level, 0);
    var v := FinalVersion(es, level, requested);
    ConvertFits(es, level, if estimate > requested then estimate else requested);
    assert 1 <= v by { FitsRange(es, level, v); }
    FitsMeaning(es, level, v);
  }

  // ---- The least version ----

  /** The entry fits into one segment of every version. */
  predicate Small(e: Entry) {
    && Check(e)
    && |e.data| <= match e.mode
                   case Num => 1023 case An => 511 case Eight => 255 case Kanji => 256 case Structure => 3
  }

  ghost predicate AllSmall(es: seq<Entry>) { forall i :: 0 <= i < |es| ==> Small(es[i]) }

  lemma SmallFacts(e: Entry, version: nat)
    requires Small(e)
    ensures ModeData(e.mode, e.data) && !TooLong(e, version)
    ensures EstimateEntry(e, version) == |EncodeEntry(e, version)|
  {
    hide ModeData, EncodeEntry, EstimateEntry;
    SmallPowers();
    EstimateExact(e, version);
  }

  /** The encoded length, as a function of the version, does not decrease. */
  lemma SmallGrows(e: Entry, u: nat, v: nat)
    requires Small(e) && ModeData(e.mode, e.data) && u <= v
    ensures |EncodeEntry(e, u)| <= |EncodeEntry(e, v)|
  {
    hide ModeData, EncodeChunk, EstimateBits, Small, EncodeEntry, TooLong;
    SmallFacts(e, u); SmallFacts(e, v);
    OneSegment(e, u); OneSegment(e, v);
    ChunkLength(e, u); ChunkLength(e, v);
  }

  lemma {:induction false} AllSmallFacts(es: seq<Entry>, u: nat, v: nat)
    requires AllSmall(es) && AllValid(es) && u <= v
    ensures EstimateAll(es, u) == |EncodeAll(es, u)|
    ensures |EncodeAll(es, u)| <= |EncodeAll(es, v)|
  {
    hide Small, ModeData, EncodeEntry, EstimateEntry;
    if es != [] {
      SmallFacts(es[0], u);
      SmallGrows(es[0], u, v);
      AllSmallFacts(es[1..], u, v);
    }
  }

  lemma SmallValid(es: seq<Entry>)
    requires AllSmall(es)
    ensures AllValid(es)
  {}

  /** From below a version that fits, the next version tried is not above it. */
  lemma NextBelow(es: seq<Entry>, level: Level, version: nat, u: nat)
    requires AllSmall(es) && AllValid(es) && version <= u && Fits(es, level, u)
    ensures EstimateAll(es, version) == |EncodeAll(es, version)|
    ensures 1 <= MinVersion(Bytes(|EncodeAll(es, version)|), level) <= u
  {
    hide DataLength, EncodeAll, MinVersion, EstimateAll, AllSmall;
    AllSmallFacts(es, version, u);
    MinVersionMeaning(Bytes(|EncodeAll(es, version)|), level, u);
  }

  lemma {:induction false} EstimateBelow(es: seq<Entry>, level: Level, prev: nat, u: nat)
    requires AllSmall(es) && AllValid(es) && prev <= u && Fits(es, level, u)
    ensures 1 <= EstimateFrom(es, level, prev) <= u
    decreases VERSION_MAX - prev
  {
    hide DataLength, EncodeAll, MinVersion, EstimateAll, AllSmall, Fits;
    assert u <= VERSION_MAX by { FitsRange(es, level, u); }
    NextBelow(es, level, prev, u);
    var v := MinVersion(Bytes(EstimateAll(es, prev)), level);
    if v > prev { EstimateBelow(es, level, v, u); }
  }

  lemma {:induction false} ConvertBelow(es: seq<Entry>, level: Level, version: nat, u: nat)
    requires AllSmall(es) && AllValid(es) && version <= u && Fits(es, level, u)
    requires version <= VERSION_MAX
    ensures 1 <= ConvertFrom(es, level, version) <= u
    decreases VERSION_MAX - version
  {
    hide DataLength, EncodeAll, MinVersion, EstimateAll, AllSmall, Fits;
    NextBelow(es, level, version, u);
    var v := MinVersion(Bytes(|EncodeAll(es, version)|), level);
    assert u <= VERSION_MAX by { FitsRange(es, level, u); }
    if v > version { ConvertBelow(es, level, v, u); }
  }

  lemma FitsRange(es: seq<Entry>, level: Level, u: nat)
    requires AllValid(es) && Fits(es, level, u)
    ensures 1 <= u <= VERSION_MAX
  {}

  /** With small entries, the chosen version is the least one from the requested one on that
      holds the message, and there is none exactly when no version does. */
  lemma FinalVersionLeast(es: seq<Entry>, level: Level, requested: nat)
    requires requested <= VERSION_MAX && AllSmall(es)
    ensures AllValid(es)
    ensures var v := FinalVersion(es, level, requested);
            && (v != 0 ==> requested <= v && Fits(es, level, v))
            && (forall u: nat :: requested <= u && Fits(es, level, u) ==> v != 0 && v <= u)
  {
    SmallValid(es);
    hide Fits, EstimateFrom, ConvertFrom, AllSmall, AllValid;
    FinalVersionFits(es, level, requested);
    forall u: nat | requested <= u && Fits(es, level, u)
      ensures 1 <= FinalVersion(es, level, requested) <= u
    {
      EstimateBelow(es, level, 0, u);
      FitsRange(es, level, u);
      var estimate := EstimateFrom(es, level, 0);
      ConvertBelow(es, level, if estimate > requested then estimate else requested, u);
    }
  }

  // ---- A long Kanji entry may get a version that is larger than needed ----

  /** The same Kanji character, n / 2 times. */
  function KanjiBytes(n: nat): (d: seq<Byte>)
    ensures |d| == n
  {
    seq(n, i => if i % 2 == 0 then 0x88 else 0x9f)
  }

  lemma {:induction false} RepeatedKanji(n: nat)
    requires n % 2 == 0
    ensures KanjiData(KanjiBytes(n))
  {
    if n > 0 {
      RepeatedKanji(n - 2);
      assert KanjiBytes(n)[2..] == KanjiBytes(n - 2);
      assert Ord(0x88) == 0x88 && Ord(0x9f) == 0x9f;
    }
  }

  /** An entry of n / 2 times that character. */
  function KanjiText(n: nat): (e: Entry)
    requires n > 0 && n % 2 == 0
    ensures Check(e) && e.mode == Kanji && |e.data| == n
  {
    RepeatedKanji(n);
    Entry(Kanji, KanjiBytes(n))
  }

  /** 528 Kanji characters. */
  function LongKanji(): (e: Entry)
    ensures Check(e)
  {
    KanjiText(1056)
  }

  lemma OneEntry(e: Entry, version: nat)
    requires ModeData(e.mode, e.data)
    ensures AllValid([e]) && EncodeAll([e], version) == EncodeEntry(e, version)
  {
    hide ModeData, EncodeEntry;
    assert [e][1..] == [] && EncodeAll([e], version) == EncodeEntry(e, version) + EncodeAll([], version);
  }

  lemma LongKanjiEstimates()
    ensures EstimateAll([LongKanji()], 0) == 6924 && EstimateAll([LongKanji()], 21) == 6892
    ensures !TooLong(LongKanji(), 20) && !TooLong(LongKanji(), 21)
  {
    hide ModeData, LongKanji, KanjiBytes;
    LongKanjiSize();
    SmallPowers();
    assert Product(5, 12) == 60 && Product(2, 14) == 28;
    assert [LongKanji()][1..] == [];
  }

  lemma LongKanjiSize()
    ensures |LongKanji().data| == 1056 && LongKanji().mode == Kanji
  {}

  lemma LongKanjiLengths()
    ensures AllValid([LongKanji()])
    ensures |EncodeAll([LongKanji()], 20)| == |EncodeAll([LongKanji()], 21)| == 6878
  {
    hide ModeData, EncodeChunk, EncodeEntry, EncodeAll, Payload, LongKanji, KanjiText, KanjiBytes, TooLong;
    var e := LongKanji();
    LongKanjiSize();
    LongKanjiEstimates();
    OneEntry(e, 20); OneEntry(e, 21);
    OneSegment(e, 20); OneSegment(e, 21);
    ChunkLength(e, 20); ChunkLength(e, 21);
  }

  /** The estimate counts a Kanji entry above 2^l bytes as two segments: these 528 characters
      get version 21 although they fit into version 20, also when version 20 is requested. */
  lemma LongKanjiNotLeast()
    ensures Check(LongKanji()) && AllValid([LongKanji()])
    ensures FinalVersion([LongKanji()], L, 0) == FinalVersion([LongKanji()], L, 20) == 21 && Fits([LongKanji()], L, 20)
  {
    hide DataLength, MinVersion, EncodeAll, EstimateAll, LongKanji, Check;
    LongKanjiEstimates();
    LongKanjiLengths();
    MinVersions();
    var es := [LongKanji()];
    assert EstimateFrom(es, L, 21) == 21;
    assert EstimateFrom(es, L, 0) == 21;
    assert ConvertFrom(es, L, 21) == 21;
    FitsMeaning(es, L, 20);
  }

  lemma MinVersions()
    ensures MinVersion(866, L) == 21 && MinVersion(862, L) == 21 && MinVersion(860, L) == 20
  {
    assert DataLength(19, L) == 795 && DataLength(20, L) == 861 && DataLength(21, L) == 932;
    hide DataLength, MinVersion;
    MinVersionMeaning(866, L, 20); MinVersionMeaning(866, L, 21);
    MinVersionMeaning(862, L, 20); MinVersionMeaning(862, L, 21);
    MinVersionMeaning(860, L, 19); MinVersionMeaning(860, L, 20);
  }

  // ---- Terminator and padding ----

  /** Alternating padding codewords. */
  function PadBytes(n: nat): (r: seq<Byte>)
    ensures |r| == n
  {
    seq(n, i => if i % 2 == 1 then 0x11 else 0xec)
  }

  /** What follows a message of n bits in a symbol of maxwords bytes. */
  function Padding(n: nat, maxwords: nat): Bits
    requires n <= 8 * maxwords
  {
    var room := 8 * maxwords - n;
    if room <= 4 then NumBits(room, 0)
    else
      var words := (n + 4 + 7) / 8;
      NumBits(words * 8 - n, 0) + BytesBits(PadBytes(maxwords - words))
  }

  /** The padding fills the symbol exactly, and a reader sees a terminator first. */
  lemma PaddingFills(n: nat, maxwords: nat)
    requires n <= 8 * maxwords
    ensures n + |Padding(n, maxwords)| == 8 * maxwords
    ensures Terminated(Padding(n, maxwords))
  {
    hide BytesBits;
    var room := 8 * maxwords - n;
    if room <= 4 {
      NumRoundTrip(room, 0);
      assert NumBits(room, 0)[..room] == NumBits(room, 0);
    } else {
      var z := (n + 4 + 7) / 8 * 8 - n;
      NumBitsZero(z); NumBitsZero(4);
      NumRoundTrip(4, 0);
      assert Padding(n, maxwords)[..4] == NumBits(4, 0);
    }
  }

  /** The bytes from the first whole one after the terminator on alternate, starting with 0xec. */
  lemma PaddingAlternates(n: nat, maxwords: nat, k: nat)
    requires n + 4 < 8 * maxwords
    requires (n + 4 + 7) / 8 + k < maxwords
    ensures var at := 8 * ((n + 4 + 7) / 8 + k) - n;
            at + 8 <= |Padding(n, maxwords)|
            && BitsByte(Padding(n, maxwords)[at..at + 8]) == if k % 2 == 1 then 0x11 else 0xec
  {
    hide BitsByte, ByteBits, NumBits;
    PaddingFills(n, maxwords);
    var words := (n + 4 + 7) / 8;
    var p := PadBytes(maxwords - words);
    var at := 8 * (words + k) - n;
    ByteOfBits(p, k);
    assert Padding(n, maxwords)[at..at + 8] == BytesBits(p)[8 * k..8 * k + 8];
    ByteRoundTrip(p[k]);
  }

  lemma {:induction false} ByteOfBits(p: seq<Byte>, k: nat)
    requires k < |p|
    ensures BytesBits(p)[8 * k..8 * k + 8] == ByteBits(p[k])
  {
    hide ByteBits;
    var n := |p| - 1;
    var before, last := BytesBits(p[..n]), ByteBits(p[n]);
    if k < n {
      ByteOfBits(p[..n], k);
      assert (before + last)[8 * k..8 * k + 8] == before[8 * k..8 * k + 8];
    } else {
      assert (before + last)[8 * n..8 * n + 8] == last;
    }
  }
}
