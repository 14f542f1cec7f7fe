/** Estimates of the bit length of an entry, and their inverse. */
module Estimate {
  import opened Arith
  import opened GF256
  import opened QRSpec
  import opened BitStreams
  import opened Segments

  const MODE_INDICATOR_SIZE := 4
  const STRUCTURE_HEADER_SIZE := 20

  function EstimateBitsNum(size: nat): nat {
    var w := size / 3;
    w * 10 + (if size - w * 3 == 1 then 4 else if size - w * 3 == 2 then 7 else 0)
  }

  function EstimateBitsAn(size: nat): nat {
    size / 2 * 11 + (if size % 2 == 1 then 6 else 0)
  }

  function EstimateBits8(size: nat): nat { size * 8 }

  function EstimateBitsKanji(size: nat): nat { size / 2 * 13 }

  function EstimateBits(mode: Mode, size: nat): nat {
    match mode
    case Num => EstimateBitsNum(size)
    case An => EstimateBitsAn(size)
    case Eight => EstimateBits8(size)
    case Kanji => EstimateBitsKanji(size)
    case Structure => 16
  }

  /** The number of groups of m that cover a. */
  function CeilDiv(a: nat, m: nat): nat
    requires 1 <= m
  {
    (a + m - 1) / m
  }

  function Product(a: nat, b: nat): nat { a * b }

  /** The estimate for a whole entry at a version; version 0 counts as version 1. */
  function EstimateEntry(e: Entry, version: nat): nat {
    if e.mode == Structure then STRUCTURE_HEADER_SIZE
    else
      var l := LengthIndicator(e.mode, if version == 0 then 1 else version);
      EstimateBits(e.mode, |e.data|) + Product(CeilDiv(|e.data|, Pow2(l)), MODE_INDICATOR_SIZE + l)
  }

  function EstimateAll(es: seq<Entry>, version: nat): nat {
    if es == [] then 0 else EstimateEntry(es[0], version) + EstimateAll(es[1..], version)
  }

  // ---- The estimate against what is written ----

  lemma {:induction false} NumLength(d: seq<Byte>)
    requires ModeData(Num, d)
    ensures |NumPayload(d)| == EstimateBitsNum(|d|)
    decreases |d|
  {
    hide NumBits, IsDigit, Decimal;
    if d != [] { NumLength(d[GroupSize(|d|)..]); }
  }

  lemma {:induction false} AnLength(d: seq<Byte>)
    requires ModeData(An, d)
    ensures |AnPayload(d)| == EstimateBitsAn(|d|)
    decreases |d|
  {
    hide NumBits, LookAn;
    if |d| >= 2 { AnLength(d[2..]); }
  }

  lemma {:induction false} KanjiLength(d: seq<Byte>)
    requires KanjiData(d)
    ensures |KanjiPayload(d)| == EstimateBitsKanji(|d|)
    decreases |d|
  {
    hide NumBits, IsKanji, KanjiCode;
    if d != [] { KanjiLength(d[2..]); }
  }

  lemma ChunkLength(e: Entry, version: nat)
    requires ModeData(e.mode, e.data)
    ensures |EncodeChunk(e, version)|
         == MODE_INDICATOR_SIZE + LengthIndicator(e.mode, version) + EstimateBits(e.mode, |e.data|)
  {
    hide NumBits, LengthIndicator;
    match e.mode
    case Num => NumLength(e.data);
    case An => AnLength(e.data);
    case Eight =>
    case Kanji => KanjiLength(e.data);
    case Structure =>
  }

  lemma ClassZero(mode: Mode)
    ensures LengthIndicator(mode, 0) == LengthIndicator(mode, 1)
  {}

  lemma CeilOne(size: nat, m: nat)
    requires 1 <= m && 1 <= size
    ensures CeilDiv(size, m) >= 1
    ensures CeilDiv(size, m) == 1 <==> size <= m
  {
    var q := CeilDiv(size, m);
    assert m * q <= size + m - 1 < m * q + m;
    if q >= 2 { assert m * q >= m * 2; }
  }

  /** For an entry of one segment the estimate is exact; only for Kanji it can be too high,
      which happens above 2^l bytes. */
  lemma EstimateExact(e: Entry, version: nat)
    requires Check(e) && !TooLong(e, version)
    ensures EstimateEntry(e, version) >= |EncodeEntry(e, version)|
    ensures EstimateEntry(e, version) == |EncodeEntry(e, version)|
       <==> e.mode != Kanji || |e.data| <= Pow2(LengthIndicator(Kanji, version))
  {
    hide ModeData, EncodeChunk, EncodeEntry, TooLong, EstimateBits, Pow2, CeilDiv, LengthIndicator, Product;
    ClassZero(e.mode);
    var l := LengthIndicator(e.mode, version);
    OneSegment(e, version);
    ChunkLength(e, version);
    if e.mode == Structure {
      StructureSize(|e.data|);
    } else {
      CeilOne(|e.data|, Pow2(l));
      var q := CeilDiv(|e.data|, Pow2(l));
      Multiple(q, 4 + l);
    }
  }

  lemma Multiple(q: nat, n: nat)
    requires 1 <= n
    ensures q == 1 ==> Product(q, n) == n
    ensures q >= 2 ==> Product(q, n) > n
  {
    if q >= 2 { assert q * n >= 2 * n; }
  }

  lemma OneSegment(e: Entry, version: nat)
    requires ModeData(e.mode, e.data) && !TooLong(e, version)
    ensures EncodeEntry(e, version) == EncodeChunk(e, version)
    ensures e.mode != Structure && e.mode != Kanji ==> |e.data| < Pow2(LengthIndicator(e.mode, version))
  {
    hide ModeData, EncodeChunk, LengthIndicator;
    WordsParity(e.mode, version);
  }

  lemma StructureSize(size: nat)
    ensures EstimateBits(Structure, size) == 16 && LengthIndicator(Structure, size) == 0
    ensures forall v: nat :: LengthIndicator(Structure, v) == 0
  {}

  // ---- The length of an entry of any number of segments ----

  /** What alphanumeric pairs that are torn apart by cutting n characters after every m cost. */
  function CutLoss(n: nat, m: nat): nat
    requires 1 <= m && 1 <= n
  {
    (Quot(n - 1, m) + (Rem(n - 1, m) + 1) % 2) / 2
  }

  function SegmentLoss(mode: Mode, n: nat, m: nat): nat
    requires 1 <= m && 1 <= n
  {
    if mode == An then CutLoss(n, m) else 0
  }

  /** The largest segment of a mode, by the width of its length field. */
  lemma LargestSegment(mode: Mode, version: nat)
    requires mode != Structure
    ensures var m, p := MaximumWords(mode, version), Pow2(LengthIndicator(mode, version));
            && 255 <= m && 256 <= p <= 65536
            && m == (if mode == Kanji then 2 * p - 2 else p - 1)
            && (mode == Num ==> m % 3 == 0) && (mode == An ==> m % 2 == 1) && (mode == Kanji ==> m % 2 == 0)
  {
    SmallPowers();
  }

  lemma CutStep(n: nat, m: nat)
    requires 1 <= m < n
    ensures CeilDiv(n, m) == CeilDiv(n - m, m) + 1
    ensures Quot(n - 1, m) == Quot(n - m - 1, m) + 1 && Rem(n - 1, m) == Rem(n - m - 1, m)
  {
    QuotRem(n - m - 1, m); QuotRem(n - 1, m);
    var q, r := (n - m - 1) / m, (n - m - 1) % m;
    MulSucc(q, m);
    DivMod(n - 1, m, q + 1, r);
    CeilIs(n, m); CeilIs(n - m, m);
  }

  lemma CeilIs(n: nat, m: nat)
    requires 1 <= m && 1 <= n
    ensures CeilDiv(n, m) == (n - 1) / m + 1
  {
    QuotRem(n - 1, m);
    var q, r := (n - 1) / m, (n - 1) % m;
    MulSucc(q, m);
    DivMod(n + m - 1, m, q + 1, r);
  }

  /** The number of characters is even exactly when this sum of full segments and last parity is. */
  lemma LossParity(n: nat, m: nat, q: nat, r: nat)
    requires m % 2 == 1 && n == q * m + r + 1
    ensures n % 2 == (q + (r + 1) % 2) % 2
  {
    OddTimes(q, m);
    Parities(q * m, r + 1); Parities(q, r + 1);
  }

  lemma Parities(a: nat, b: nat)
    ensures (a + b) % 2 == (a % 2 + b % 2) % 2 && (a + b % 2) % 2 == (a % 2 + b % 2) % 2
  {}

  lemma OddTimes(q: nat, m: nat)
    requires m % 2 == 1
    ensures (q * m) % 2 == q % 2
  {
    var k := m / 2;
    assert q * m == 2 * (q * k) + q;
  }

  lemma NumCut(n: nat, m: nat)
    requires m < n && m % 3 == 0
    ensures EstimateBitsNum(m) + EstimateBitsNum(n - m) == EstimateBitsNum(n)
  {
    var k := m / 3;
    assert n / 3 == (n - m) / 3 + k;
  }

  lemma AnCut(n: nat, m: nat, s: nat)
    requires m < n && m % 2 == 1 && s % 2 == (n - m) % 2
    ensures EstimateBitsAn(m) + EstimateBitsAn(n - m) + s / 2 == EstimateBitsAn(n) + (s + 1) / 2
  {}

  lemma AnCutLoss(n: nat, m: nat)
    requires 1 <= m < n && m % 2 == 1
    ensures EstimateBitsAn(m) + EstimateBitsAn(n - m) + CutLoss(n - m, m) == EstimateBitsAn(n) + CutLoss(n, m)
  {
    CutStep(n, m);
    QuotRem(n - m - 1, m);
    hide Quot, Rem, EstimateBitsAn;
    var q, r := Quot(n - m - 1, m), Rem(n - m - 1, m);
    LossParity(n - m, m, q, r);
    AnCut(n, m, q + (r + 1) % 2);
  }

  lemma KanjiCut(n: nat, m: nat)
    requires m < n && m % 2 == 0
    ensures EstimateBitsKanji(m) + EstimateBitsKanji(n - m) == EstimateBitsKanji(n)
  {
    assert n / 2 == (n - m) / 2 + m / 2;
  }

  /** Cutting n bytes after m keeps the payload, except for an alphanumeric pair. */
  lemma CutPayload(mode: Mode, n: nat, m: nat)
    requires 1 <= m < n && (mode == Num ==> m % 3 == 0) && (mode == An ==> m % 2 == 1)
    requires mode != Structure && (mode == Kanji ==> m % 2 == 0)
    ensures EstimateBits(mode, m) + EstimateBits(mode, n - m) + SegmentLoss(mode, n - m, m)
         == EstimateBits(mode, n) + SegmentLoss(mode, n, m)
  {
    hide EstimateBitsNum, EstimateBitsAn, EstimateBitsKanji, CutLoss;
    match mode
    case Num => NumCut(n, m);
    case An => AnCutLoss(n, m);
    case Eight =>
    case Kanji => KanjiCut(n, m);
  }

  /** The length of an encoded entry, with one header for every segment. */
  function EncodedLength(e: Entry, version: nat): nat
    requires e.data != [] && e.mode != Structure
  {
    LargestSegment(e.mode, version);
    var l, m := LengthIndicator(e.mode, version), MaximumWords(e.mode, version);
    EstimateBits(e.mode, |e.data|) + Product(CeilDiv(|e.data|, m), MODE_INDICATOR_SIZE + l) + SegmentLoss(e.mode, |e.data|, m)
  }

  lemma {:induction false} EntryLength(e: Entry, version: nat)
    requires Check(e) && e.mode != Structure
    ensures |EncodeEntry(e, version)| == EncodedLength(e, version)
    decreases |e.data|
  {
    hide ModeData, EncodeChunk, EstimateBits, MaximumWords, LengthIndicator, Pow2, CeilDiv, CutLoss, Product;
    LargestSegment(e.mode, version);
    var n, m, h := |e.data|, MaximumWords(e.mode, version), MODE_INDICATOR_SIZE + LengthIndicator(e.mode, version);
    if TooLong(e, version) {
      HeadTailValid(e, version);
      ChunkLength(Head(e, version), version);
      EntryLength(Tail(e, version), version);
      CutStep(n, m);
      CutPayload(e.mode, n, m);
      ProductStep(CeilDiv(n - m, m), h);
    } else {
      ChunkLength(e, version);
      OneCut(n, m);
      ProductStep(0, h);
    }
  }

  lemma ProductStep(q: nat, h: nat)
    ensures Product(q + 1, h) == Product(q, h) + h && Product(0, h) == 0
  {
    MulSucc(q, h);
  }

  lemma OneCut(n: nat, m: nat)
    requires 1 <= n <= m
    ensures CeilDiv(n, m) == 1 && CutLoss(n, m) == 0
  {
    CeilIs(n, m);
    DivMod(n - 1, m, 0, n - 1);
    hide Quot, Rem;
  }

  /** The estimate against the length, for any number of segments: it is never too high except in
      Kanji mode, where it is never too low; and it is exact if and only if groups of 2^l bytes are as
      many as segments, and no alphanumeric pair is torn apart. */
  lemma EstimateAgainstLength(e: Entry, version: nat)
    requires Check(e) && e.mode != Structure
    ensures var n, m, p := |e.data|, MaximumWords(e.mode, version), Pow2(LengthIndicator(e.mode, version));
            && 1 <= m && 1 <= p
            && (EstimateEntry(e, version) == |EncodeEntry(e, version)|
                <==> CeilDiv(n, p) == CeilDiv(n, m) && SegmentLoss(e.mode, n, m) == 0)
    ensures e.mode != Kanji ==> EstimateEntry(e, version) <= |EncodeEntry(e, version)|
    ensures e.mode == Kanji ==> EstimateEntry(e, version) >= |EncodeEntry(e, version)|
  {
    hide ModeData, EstimateBits, MaximumWords, LengthIndicator, EncodeEntry, Pow2, CeilDiv, CutLoss, Product;
    LargestSegment(e.mode, version);
    EntryLength(e, version);
    ClassZero(e.mode);
    var n, m, p := |e.data|, MaximumWords(e.mode, version), Pow2(LengthIndicator(e.mode, version));
    var h := MODE_INDICATOR_SIZE + LengthIndicator(e.mode, version);
    if e.mode == Kanji { CeilMonotone(n, p, m); } else { CeilMonotone(n, m, p); }
    ProductMonotone(CeilDiv(n, p), CeilDiv(n, m), h); ProductMonotone(CeilDiv(n, m), CeilDiv(n, p), h);
  }

  /** Smaller groups are at least as many. */
  lemma CeilMonotone(n: nat, a: nat, b: nat)
    requires 1 <= n && 1 <= a <= b
    ensures CeilDiv(n, a) >= CeilDiv(n, b)
  {
    CeilIs(n, a); CeilIs(n, b);
    QuotRem(n - 1, a); QuotRem(n - 1, b);
    var x, y := (n - 1) / a, (n - 1) / b;
    if y >= x + 1 {
      MulLe(x + 1, y, b); MulSucc(x, a); TimesLe(x + 1, a, b);
    }
  }

  lemma TimesLe(k: nat, a: nat, b: nat)
    requires a <= b
    ensures k * a <= k * b
  {}

  lemma ProductMonotone(a: nat, b: nat, h: nat)
    requires 1 <= h
    ensures a <= b ==> Product(a, h) <= Product(b, h)
    ensures a < b ==> Product(a, h) < Product(b, h)
  {
    if a < b { MulLe(a + 1, b, h); MulSucc(a, h); }
  }

  // ---- How much fits into a number of bits ----

  /** Division that truncates toward zero. */
  function TruncDiv(a: int, b: nat): int
    requires 1 <= b
  {
    if a >= 0 then a / b else -(-a / b)
  }

  function NumFits(payload: int): int {
    var chunks := TruncDiv(payload, 10);
    var remain := payload - chunks * 10;
    chunks * 3 + (if remain >= 7 then 2 else if remain >= 4 then 1 else 0)
  }

  function AnFits(payload: int): int {
    var chunks := TruncDiv(payload, 11);
    var remain := payload - chunks * 11;
    chunks * 2 + (if remain >= 6 then 1 else 0)
  }

  function LengthOfCode(mode: Mode, version: nat, bits: int): nat {
    var payload := bits - 4 - LengthIndicator(mode, version);
    var size := match mode
      case Num => NumFits(payload)
      case An => AnFits(payload)
      case Eight => TruncDiv(payload, 8)
      case Kanji => TruncDiv(payload, 13) * 2
      case Structure => TruncDiv(payload, 8);
    var maxsize := MaximumWords(mode, version);
    if size < 0 then 0 else if maxsize > 0 && size > maxsize then maxsize else size
  }

  lemma Truncated(a: int, b: nat)
    requires 1 <= b
    ensures a >= 0 ==> TruncDiv(a, b) * b <= a < TruncDiv(a, b) * b + b
    ensures a < 0 ==> a <= TruncDiv(a, b) * b < a + b && TruncDiv(a, b) <= 0
  {
    if a < 0 {
      var q := -a / b;
      assert q * b <= -a < q * b + b;
    }
  }

  lemma NumAdjoint(payload: int, n: nat)
    requires 1 <= n
    ensures n <= NumFits(payload) <==> EstimateBitsNum(n) <= payload
  {
    hide TruncDiv;
    Truncated(payload, 10);
  }

  lemma AnAdjoint(payload: int, n: nat)
    requires 1 <= n
    ensures n <= AnFits(payload) <==> EstimateBitsAn(n) <= payload
  {
    hide TruncDiv;
    Truncated(payload, 11);
  }

  lemma BytesAdjoint(payload: int, n: nat)
    requires 1 <= n
    ensures n <= TruncDiv(payload, 8) <==> EstimateBits8(n) <= payload
  {
    hide TruncDiv;
    Truncated(payload, 8);
  }

  lemma KanjiAdjoint(payload: int, n: nat)
    requires 1 <= n && n % 2 == 0
    ensures n <= TruncDiv(payload, 13) * 2 <==> EstimateBitsKanji(n) <= payload
  {
    hide TruncDiv;
    Truncated(payload, 13);
  }

  /** The length that fits is adjoint to the estimate: n bytes (an even number in Kanji mode)
      are within it exactly when one segment may announce them and their bits fit. */
  lemma LengthOfCodeAdjoint(mode: Mode, version: nat, bits: int, n: nat)
    requires mode != Structure && 1 <= n && (mode == Kanji ==> n % 2 == 0)
    ensures n <= LengthOfCode(mode, version, bits)
       <==> n <= MaximumWords(mode, version)
            && MODE_INDICATOR_SIZE + LengthIndicator(mode, version) + EstimateBits(mode, n) <= bits
    ensures mode == Kanji ==> LengthOfCode(mode, version, bits) % 2 == 0
  {
    hide MaximumWords, LengthIndicator, NumFits, AnFits, TruncDiv, Pow2;
    hide EstimateBitsNum, EstimateBitsAn, EstimateBits8, EstimateBitsKanji;
    WordsParity(mode, version);
    var payload := bits - 4 - LengthIndicator(mode, version);
    match mode
    case Num => NumAdjoint(payload, n);
    case An => AnAdjoint(payload, n);
    case Eight => BytesAdjoint(payload, n);
    case Kanji => KanjiAdjoint(payload, n);
  }
}
