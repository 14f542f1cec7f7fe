/** The tables of the symbology specification (Table 1 and Tables 12-16 of JIS X0510:2004). */
module QRSpec {
  import opened Arith

  const VERSION_MAX := 40

  datatype Level = L | M | Q | H

  datatype Mode = Num | An | Eight | Kanji | Structure

  /** A figure for each of the four levels. */
  datatype PerLevel<T> = PerLevel(l: T, m: T, q: T, h: T) {
    function At(level: Level): T {
      match level case L => l case M => m case Q => q case H => h
    }
  }

  /** Edge length, codewords, remainder bits, and parity codewords of each level. */
  datatype Capacity = Capacity(width: nat, words: nat, remainder: nat, ec: PerLevel<nat>)

  function CapacityTable(version: nat): Capacity
    requires version <= VERSION_MAX
  {
    match version
    case 0 => Capacity(0, 0, 0, PerLevel(0, 0, 0, 0))
    case 1 => Capacity(21, 26, 0, PerLevel(7, 10, 13, 17))
    case 2 => Capacity(25, 44, 7, PerLevel(10, 16, 22, 28))
    case 3 => Capacity(29, 70, 7, PerLevel(15, 26, 36, 44))
    case 4 => Capacity(33, 100, 7, PerLevel(20, 36, 52, 64))
    case 5 => Capacity(37, 134, 7, PerLevel(26, 48, 72, 88))
    case 6 => Capacity(41, 172, 7, PerLevel(36, 64, 96, 112))
    case 7 => Capacity(45, 196, 0, PerLevel(40, 72, 108, 130))
    case 8 => Capacity(49, 242, 0, PerLevel(48, 88, 132, 156))
    case 9 => Capacity(53, 292, 0, PerLevel(60, 110, 160, 192))
    case 10 => Capacity(57, 346, 0, PerLevel(72, 130, 192, 224))
    case 11 => Capacity(61, 404, 0, PerLevel(80, 150, 224, 264))
    case 12 => Capacity(65, 466, 0, PerLevel(96, 176, 260, 308))
    case 13 => Capacity(69, 532, 0, PerLevel(104, 198, 288, 352))
    case 14 => Capacity(73, 581, 3, PerLevel(120, 216, 320, 384))
    case 15 => Capacity(77, 655, 3, PerLevel(132, 240, 360, 432))
    case 16 => Capacity(81, 733, 3, PerLevel(144, 280, 408, 480))
    case 17 => Capacity(85, 815, 3, PerLevel(168, 308, 448, 532))
    case 18 => Capacity(89, 901, 3, PerLevel(180, 338, 504, 588))
    case 19 => Capacity(93, 991, 3, PerLevel(196, 364, 546, 650))
    case 20 => Capacity(97, 1085, 3, PerLevel(224, 416, 600, 700))
    case 21 => Capacity(101, 1156, 4, PerLevel(224, 442, 644, 750))
    case 22 => Capacity(105, 1258, 4, PerLevel(252, 476, 690, 816))
    case 23 => Capacity(109, 1364, 4, PerLevel(270, 504, 750, 900))
    case 24 => Capacity(113, 1474, 4, PerLevel(300, 560, 810, 960))
    case 25 => Capacity(117, 1588, 4, PerLevel(312, 588, 870, 1050))
    case 26 => Capacity(121, 1706, 4, PerLevel(336, 644, 952, 1110))
    case 27 => Capacity(125, 1828, 4, PerLevel(360, 700, 1020, 1200))
    case 28 => Capacity(129, 1921, 3, PerLevel(390, 728, 1050, 1260))
    case 29 => Capacity(133, 2051, 3, PerLevel(420, 784, 1140, 1350))
    case 30 => Capacity(137, 2185, 3, PerLevel(450, 812, 1200, 1440))
    case 31 => Capacity(141, 2323, 3, PerLevel(480, 868, 1290, 1530))
    case 32 => Capacity(145, 2465, 3, PerLevel(510, 924, 1350, 1620))
    case 33 => Capacity(149, 2611, 3, PerLevel(540, 980, 1440, 1710))
    case 34 => Capacity(153, 2761, 3, PerLevel(570, 1036, 1530, 1800))
    case 35 => Capacity(157, 2876, 0, PerLevel(570, 1064, 1590, 1890))
    case 36 => Capacity(161, 3034, 0, PerLevel(600, 1120, 1680, 1980))
    case 37 => Capacity(165, 3196, 0, PerLevel(630, 1204, 1770, 2100))
    case 38 => Capacity(169, 3362, 0, PerLevel(660, 1260, 1860, 2220))
    case 39 => Capacity(173, 3532, 0, PerLevel(720, 1316, 1950, 2310))
    case _ => Capacity(177, 3706, 0, PerLevel(750, 1372, 2040, 2430))
  }

  /** The numbers of blocks of the first and of the second type, for each level. */
  function EccTable(version: nat): PerLevel<(nat, nat)>
    requires version <= VERSION_MAX
  {
    match version
    case 0 => PerLevel((0, 0), (0, 0), (0, 0), (0, 0))
    case 1 => PerLevel((1, 0), (1, 0), (1, 0), (1, 0))
    case 2 => PerLevel((1, 0), (1, 0), (1, 0), (1, 0))
    case 3 => PerLevel((1, 0), (1, 0), (2, 0), (2, 0))
    case 4 => PerLevel((1, 0), (2, 0), (2, 0), (4, 0))
    case 5 => PerLevel((1, 0), (2, 0), (2, 2), (2, 2))
    case 6 => PerLevel((2, 0), (4, 0), (4, 0), (4, 0))
    case 7 => PerLevel((2, 0), (4, 0), (2, 4), (4, 1))
    case 8 => PerLevel((2, 0), (2, 2), (4, 2), (4, 2))
    case 9 => PerLevel((2, 0), (3, 2), (4, 4), (4, 4))
    case 10 => PerLevel((2, 2), (4, 1), (6, 2), (6, 2))
    case 11 => PerLevel((4, 0), (1, 4), (4, 4), (3, 8))
    case 12 => PerLevel((2, 2), (6, 2), (4, 6), (7, 4))
    case 13 => PerLevel((4, 0), (8, 1), (8, 4), (12, 4))
    case 14 => PerLevel((3, 1), (4, 5), (11, 5), (11, 5))
    case 15 => PerLevel((5, 1), (5, 5), (5, 7), (11, 7))
    case 16 => PerLevel((5, 1), (7, 3), (15, 2), (3, 13))
    case 17 => PerLevel((1, 5), (10, 1), (1, 15), (2, 17))
    case 18 => PerLevel((5, 1), (9, 4), (17, 1), (2, 19))
    case 19 => PerLevel((3, 4), (3, 11), (17, 4), (9, 16))
    case 20 => PerLevel((3, 5), (3, 13), (15, 5), (15, 10))
    case 21 => PerLevel((4, 4), (17, 0), (17, 6), (19, 6))
    case 22 => PerLevel((2, 7), (17, 0), (7, 16), (34, 0))
    case 23 => PerLevel((4, 5), (4, 14), (11, 14), (16, 14))
    case 24 => PerLevel((6, 4), (6, 14), (11, 16), (30, 2))
    case 25 => PerLevel((8, 4), (8, 13), (7, 22), (22, 13))
    case 26 => PerLevel((10, 2), (19, 4), (28, 6), (33, 4))
    case 27 => PerLevel((8, 4), (22, 3), (8, 26), (12, 28))
    case 28 => PerLevel((3, 10), (3, 23), (4, 31), (11, 31))
    case 29 => PerLevel((7, 7), (21, 7), (1, 37), (19, 26))
    case 30 => PerLevel((5, 10), (19, 10), (15, 25), (23, 25))
    case 31 => PerLevel((13, 3), (2, 29), (42, 1), (23, 28))
    case 32 => PerLevel((17, 0), (10, 23), (10, 35), (19, 35))
    case 33 => PerLevel((17, 1), (14, 21), (29, 19), (11, 46))
    case 34 => PerLevel((13, 6), (14, 23), (44, 7), (59, 1))
    case 35 => PerLevel((12, 7), (12, 26), (39, 14), (22, 41))
    case 36 => PerLevel((6, 14), (6, 34), (46, 10), (2, 64))
    case 37 => PerLevel((17, 4), (29, 14), (49, 10), (24, 46))
    case 38 => PerLevel((4, 18), (13, 32), (48, 14), (42, 32))
    case 39 => PerLevel((20, 4), (40, 7), (43, 22), (10, 67))
    case _ => PerLevel((19, 6), (18, 31), (34, 34), (20, 61))
  }

  function DataLength(version: nat, level: Level): nat
    requires version <= VERSION_MAX
  {
    CapacityTable(version).words - CapacityTable(version).ec.At(level)
  }

  function ECCLength(version: nat, level: Level): nat
    requires version <= VERSION_MAX
  {
    CapacityTable(version).ec.At(level)
  }

  function Width(version: nat): nat
    requires version <= VERSION_MAX
  {
    CapacityTable(version).width
  }

  function Remainder(version: nat): nat
    requires version <= VERSION_MAX
  {
    CapacityTable(version).remainder
  }

  lemma WidthFormula(version: nat)
    requires 1 <= version <= VERSION_MAX
    ensures Width(version) == 4 * version + 17
  {}

  /** A larger version of the same level holds more data. */
  lemma DataLengthGrows(version: nat, level: Level)
    requires version < VERSION_MAX
    ensures DataLength(version, level) < DataLength(version + 1, level)
  {}

  lemma DataLengthBounds(version: nat, level: Level)
    requires 1 <= version <= VERSION_MAX
    ensures DataLength(version, level) >= 9
    ensures version <= 9 ==> DataLength(version, level) <= 232
    ensures version <= 26 ==> DataLength(version, level) <= 1370
    ensures DataLength(version, level) <= 2956
  {}

  /** The levels come in the order of their strength: less data and more parity from L to H. */
  lemma LevelsOrdered(version: nat)
    requires 1 <= version <= VERSION_MAX
    ensures DataLength(version, L) > DataLength(version, M) > DataLength(version, Q) > DataLength(version, H) > 0
    ensures Remainder(version) < 8
  {}

  // ---- Choosing a version ----

  /** The least version from `from` on whose data capacity is at least size bytes; 0 if none. */
  function MinVersionFrom(size: nat, level: Level, from: nat): (v: nat)
    ensures v <= VERSION_MAX
    decreases VERSION_MAX + 1 - from
  {
    if from > VERSION_MAX then 0
    else if DataLength(from, level) >= size then from
    else MinVersionFrom(size, level, from + 1)
  }

  function MinVersion(size: nat, level: Level): (v: nat)
    ensures v <= VERSION_MAX
  {
    MinVersionFrom(size, level, 1)
  }

  lemma {:induction false} MinVersionFromLeast(size: nat, level: Level, from: nat)
    requires 1 <= from
    ensures var v := MinVersionFrom(size, level, from);
            && (v != 0 ==> from <= v && DataLength(v, level) >= size)
            && (forall u: nat :: from <= u <= VERSION_MAX && DataLength(u, level) >= size ==> v != 0 && v <= u)
    decreases VERSION_MAX + 1 - from
  {
    hide DataLength;
    if from <= VERSION_MAX && DataLength(from, level) < size {
      MinVersionFromLeast(size, level, from + 1);
    }
  }

  lemma {:induction false} DataLengthMonotone(u: nat, v: nat, level: Level)
    requires u <= v <= VERSION_MAX
    ensures DataLength(u, level) <= DataLength(v, level)
    decreases v - u
  {
    hide DataLength;
    if u < v {
      DataLengthGrows(u, level);
      DataLengthMonotone(u + 1, v, level);
    }
  }

  /** A version v at or above the minimum is exactly one that can hold size bytes. */
  lemma MinVersionMeaning(size: nat, level: Level, v: nat)
    requires 1 <= v <= VERSION_MAX
    ensures DataLength(v, level) >= size <==> 1 <= MinVersion(size, level) <= v
  {
    hide DataLength;
    MinVersionFromLeast(size, level, 1);
    var m := MinVersion(size, level);
    if 1 <= m <= v {
      DataLengthMonotone(m, v, level);
    }
  }

  /** Returns 0 where the C function returns -1. */
  method GetMinimumVersion(size: nat, level: Level) returns (v: nat)
    ensures v == MinVersion(size, level)
  {
    hide DataLength;
    for i := 1 to VERSION_MAX + 1
      invariant MinVersion(size, level) == MinVersionFrom(size, level, i)
    {
      if DataLength(i, level) >= size { return i; }
    }
    return 0;
  }

  // ---- Length fields ----

  function SizeClass(version: nat): (l: nat)
    ensures l < 3
  {
    if version <= 9 then 0 else if version <= 26 then 1 else 2
  }

  /** The width in bits of the length field. */
  function LengthIndicator(mode: Mode, version: nat): nat {
    var l := SizeClass(version);
    match mode
    case Num => if l == 0 then 10 else if l == 1 then 12 else 14
    case An => if l == 0 then 9 else if l == 1 then 11 else 13
    case Eight => if l == 0 then 8 else 16
    case Kanji => if l == 0 then 8 else if l == 1 then 10 else 12
    case Structure => 0
  }

  function Pow2(n: nat): (p: nat)
    ensures 1 <= p
  {
    if n == 0 then 1 else 2 * Pow2(n - 1)
  }

  lemma SmallPowers()
    ensures Pow2(4) == 16 && Pow2(6) == 64 && Pow2(7) == 128 && Pow2(8) == 256
    ensures Pow2(9) == 512 && Pow2(10) == 1024 && Pow2(11) == 2048 && Pow2(12) == 4096
    ensures Pow2(13) == 8192 && Pow2(14) == 16384 && Pow2(16) == 65536
  {
    assert Pow2(2) == 4; assert Pow2(4) == 16; assert Pow2(6) == 64; assert Pow2(8) == 256;
    assert Pow2(10) == 1024; assert Pow2(12) == 4096; assert Pow2(14) == 16384;
  }

  /** The largest number of bytes that one segment can announce; 0 means there is no limit. */
  function MaximumWords(mode: Mode, version: nat): nat {
    if mode == Structure then 0
    else
      var words := Pow2(LengthIndicator(mode, version)) - 1;
      if mode == Kanji then 2 * words else words
  }

  // ---- Format information ----

  /** The BCH coded format word of a level and a mask pattern. */
  function FormatInfo(mask: nat, level: Level): nat
    requires mask < 8
  {
    var t: seq<nat> := match level
      case L => [0x77c4, 0x72f3, 0x7daa, 0x789d, 0x662f, 0x6318, 0x6c41, 0x6976]
      case M => [0x5412, 0x5125, 0x5e7c, 0x5b4b, 0x45f9, 0x40ce, 0x4f97, 0x4aa0]
      case Q => [0x355f, 0x3068, 0x3f31, 0x3a06, 0x24b4, 0x2183, 0x2eda, 0x2bed]
      case H => [0x1689, 0x13be, 0x1ce7, 0x19d0, 0x0762, 0x0255, 0x0d0c, 0x083b];
    t[mask]
  }

  datatype Format = NoFormat | Format(mask: nat, level: Level)

  /** Reading a format word back: no two formats share a word. */
  function ReadFormat(word: nat): (r: Format)
    ensures r.Format? ==> r.mask < 8
  {
    match word
    case 0x77c4 => Format(0, L)
    case 0x72f3 => Format(1, L)
    case 0x7daa => Format(2, L)
    case 0x789d => Format(3, L)
    case 0x662f => Format(4, L)
    case 0x6318 => Format(5, L)
    case 0x6c41 => Format(6, L)
    case 0x6976 => Format(7, L)
    case 0x5412 => Format(0, M)
    case 0x5125 => Format(1, M)
    case 0x5e7c => Format(2, M)
    case 0x5b4b => Format(3, M)
    case 0x45f9 => Format(4, M)
    case 0x40ce => Format(5, M)
    case 0x4f97 => Format(6, M)
    case 0x4aa0 => Format(7, M)
    case 0x355f => Format(0, Q)
    case 0x3068 => Format(1, Q)
    case 0x3f31 => Format(2, Q)
    case 0x3a06 => Format(3, Q)
    case 0x24b4 => Format(4, Q)
    case 0x2183 => Format(5, Q)
    case 0x2eda => Format(6, Q)
    case 0x2bed => Format(7, Q)
    case 0x1689 => Format(0, H)
    case 0x13be => Format(1, H)
    case 0x1ce7 => Format(2, H)
    case 0x19d0 => Format(3, H)
    case 0x0762 => Format(4, H)
    case 0x0255 => Format(5, H)
    case 0x0d0c => Format(6, H)
    case 0x083b => Format(7, H)
    case _ => NoFormat
  }

  lemma FormatRoundTrip(mask: nat, level: Level)
    requires mask < 8
    ensures FormatInfo(mask, level) < 0x8000
    ensures ReadFormat(FormatInfo(mask, level)) == Format(mask, level)
  {}

  // ---- The format words as BCH codes (section 8.9 of JIS X0510:2004) ----

  /** One step of the division by a polynomial over GF(2): clear the top bit. */
  function Clear(v: bv18, top: bv18, g: bv18): bv18 { if v & top != 0 then v ^ g else v }

  /** The remainder of a 15-bit word modulo x^10 + x^8 + x^5 + x^4 + x^2 + x + 1. */
  function FormatRemainder(v: bv18): bv18 {
    Clear(Clear(Clear(Clear(Clear(v, 0x4000, 0x5370), 0x2000, 0x29b8), 0x1000, 0x14dc), 0x800, 0xa6e), 0x400, 0x537)
  }

  /** The level indicator. */
  function LevelBits(level: Level): bv18 {
    match level case L => 0x08 case M => 0x00 case Q => 0x18 case H => 0x10
  }

  function MaskBits(mask: nat): bv18 {
    match mask case 0 => 0 case 1 => 1 case 2 => 2 case 3 => 3 case 4 => 4 case 5 => 5 case 6 => 6 case _ => 7
  }

  /** Level indicator and mask pattern, followed by ten check bits, plus a fixed pattern. */
  function FormatCode(mask: nat, level: Level): bv18 {
    var data := (LevelBits(level) | MaskBits(mask)) << 10;
    (data | FormatRemainder(data)) ^ 0x5412
  }

  lemma FormatWordsL(mask: nat)
    requires mask < 8
    ensures FormatInfo(mask, L) == FormatCode(mask, L) as nat
  {
    match mask
    case 0 =>
    case 1 =>
    case 2 =>
    case 3 =>
    case 4 =>
    case 5 =>
    case 6 =>
    case _ =>
  }

  lemma FormatWordsM(mask: nat)
    requires mask < 8
    ensures FormatInfo(mask, M) == FormatCode(mask, M) as nat
  {
    match mask
    case 0 =>
    case 1 =>
    case 2 =>
    case 3 =>
    case 4 =>
    case 5 =>
    case 6 =>
    case _ =>
  }

  lemma FormatWordsQ(mask: nat)
    requires mask < 8
    ensures FormatInfo(mask, Q) == FormatCode(mask, Q) as nat
  {
    match mask
    case 0 =>
    case 1 =>
    case 2 =>
    case 3 =>
    case 4 =>
    case 5 =>
    case 6 =>
    case _ =>
  }

  lemma FormatWordsH(mask: nat)
    requires mask < 8
    ensures FormatInfo(mask, H) == FormatCode(mask, H) as nat
  {
    match mask
    case 0 =>
    case 1 =>
    case 2 =>
    case 3 =>
    case 4 =>
    case 5 =>
    case 6 =>
    case _ =>
  }

  /** The table holds the code words of the standard's BCH code. */
  lemma FormatWordsAreCodes(mask: nat, level: Level)
    requires mask < 8
    ensures FormatInfo(mask, level) == FormatCode(mask, level) as nat
  {
    hide FormatInfo, FormatCode;
    FormatWordsL(mask); FormatWordsM(mask); FormatWordsQ(mask); FormatWordsH(mask);
  }

  // ---- Reed-Solomon blocks ----

  /** The Reed-Solomon blocks of a symbol: n1 blocks of d1 data bytes, then n2 blocks of d2,
      each followed by e parity bytes. */
  datatype EccSpec = EccSpec(n1: nat, d1: nat, e: nat, n2: nat, d2: nat) {
    function Blocks(): nat { n1 + n2 }
    function DataTotal(): nat { n1 * d1 + n2 * d2 }
    function EccTotal(): nat { (n1 + n2) * e }

    predicate Valid() {
      && 1 <= n1 && 1 <= e && 1 <= d1
      && (n2 == 0 || d2 == d1 + 1)
      && d1 + e < 255 && d2 + e < 255
    }
  }

  function MakeEccSpec(b1: nat, b2: nat, data: nat, ecc: nat): EccSpec
    requires 1 <= b1
  {
    if b2 == 0 then EccSpec(b1, data / b1, ecc / b1, 0, 0)
    else EccSpec(b1, data / (b1 + b2), ecc / (b1 + b2), b2, data / (b1 + b2) + 1)
  }

  function GetEccSpec(version: nat, level: Level): EccSpec
    requires 1 <= version <= VERSION_MAX
  {
    BlocksExist(version, level);
    var b := EccTable(version).At(level);
    MakeEccSpec(b.0, b.1, DataLength(version, level), ECCLength(version, level))
  }

  lemma BlocksExist(version: nat, level: Level)
    requires 1 <= version <= VERSION_MAX
    ensures EccTable(version).At(level).0 >= 1
  {}

  // ---- The block tables divide the capacity exactly ----

  /** Data bytes of a block of the first type, and parity bytes of every block. */
  ghost function BlockSizes(version: nat): PerLevel<(nat, nat)>
    requires version <= VERSION_MAX
  {
    match version
    case 0 => PerLevel((0, 0), (0, 0), (0, 0), (0, 0))
    case 1 => PerLevel((19, 7), (16, 10), (13, 13), (9, 17))
    case 2 => PerLevel((34, 10), (28, 16), (22, 22), (16, 28))
    case 3 => PerLevel((55, 15), (44, 26), (17, 18), (13, 22))
    case 4 => PerLevel((80, 20), (32, 18), (24, 26), (9, 16))
    case 5 => PerLevel((108, 26), (43, 24), (15, 18), (11, 22))
    case 6 => PerLevel((68, 18), (27, 16), (19, 24), (15, 28))
    case 7 => PerLevel((78, 20), (31, 18), (14, 18), (13, 26))
    case 8 => PerLevel((97, 24), (38, 22), (18, 22), (14, 26))
    case 9 => PerLevel((116, 30), (36, 22), (16, 20), (12, 24))
    case 10 => PerLevel((68, 18), (43, 26), (19, 24), (15, 28))
    case 11 => PerLevel((81, 20), (50, 30), (22, 28), (12, 24))
    case 12 => PerLevel((92, 24), (36, 22), (20, 26), (14, 28))
    case 13 => PerLevel((107, 26), (37, 22), (20, 24), (11, 22))
    case 14 => PerLevel((115, 30), (40, 24), (16, 20), (12, 24))
    case 15 => PerLevel((87, 22), (41, 24), (24, 30), (12, 24))
    case 16 => PerLevel((98, 24), (45, 28), (19, 24), (15, 30))
    case 17 => PerLevel((107, 28), (46, 28), (22, 28), (14, 28))
    case 18 => PerLevel((120, 30), (43, 26), (22, 28), (14, 28))
    case 19 => PerLevel((113, 28), (44, 26), (21, 26), (13, 26))
    case 20 => PerLevel((107, 28), (41, 26), (24, 30), (15, 28))
    case 21 => PerLevel((116, 28), (42, 26), (22, 28), (16, 30))
    case 22 => PerLevel((111, 28), (46, 28), (24, 30), (13, 24))
    case 23 => PerLevel((121, 30), (47, 28), (24, 30), (15, 30))
    case 24 => PerLevel((117, 30), (45, 28), (24, 30), (16, 30))
    case 25 => PerLevel((106, 26), (47, 28), (24, 30), (15, 30))
    case 26 => PerLevel((114, 28), (46, 28), (22, 28), (16, 30))
    case 27 => PerLevel((122, 30), (45, 28), (23, 30), (15, 30))
    case 28 => PerLevel((117, 30), (45, 28), (24, 30), (15, 30))
    case 29 => PerLevel((116, 30), (45, 28), (23, 30), (15, 30))
    case 30 => PerLevel((115, 30), (47, 28), (24, 30), (15, 30))
    case 31 => PerLevel((115, 30), (46, 28), (24, 30), (15, 30))
    case 32 => PerLevel((115, 30), (46, 28), (24, 30), (15, 30))
    case 33 => PerLevel((115, 30), (46, 28), (24, 30), (15, 30))
    case 34 => PerLevel((115, 30), (46, 28), (24, 30), (16, 30))
    case 35 => PerLevel((121, 30), (47, 28), (24, 30), (15, 30))
    case 36 => PerLevel((121, 30), (47, 28), (24, 30), (15, 30))
    case 37 => PerLevel((122, 30), (46, 28), (24, 30), (15, 30))
    case 38 => PerLevel((122, 30), (46, 28), (24, 30), (15, 30))
    case 39 => PerLevel((117, 30), (47, 28), (24, 30), (15, 30))
    case _ => PerLevel((118, 30), (47, 28), (24, 30), (15, 30))
  }

  /** The numbers of parity bytes in a block (Annex A of JIS X0510:2004 gives their polynomials). */
  predicate ParityLength(e: nat) { e in {7, 10, 13, 15, 16, 17, 18, 20, 22, 24, 26, 28, 30} }

  ghost predicate Exact(b1: nat, b2: nat, data: nat, ecc: nat, d: nat, e: nat) {
    && 1 <= b1 && 1 <= d && 1 <= e && d + 1 + e < 255
    && (b1 + b2) * d + b2 == data && (b1 + b2) * e == ecc && ParityLength(e)
  }

  ghost predicate RowExact(version: nat, level: Level)
    requires version <= VERSION_MAX
  {
    var b, s := EccTable(version).At(level), BlockSizes(version).At(level);
    Exact(b.0, b.1, DataLength(version, level), ECCLength(version, level), s.0, s.1)
  }

  lemma RowsExact1(version: nat, level: Level)
    requires 1 <= version <= 4
    ensures RowExact(version, level)
  {}

  lemma RowsExact5(version: nat, level: Level)
    requires 5 <= version <= 8
    ensures RowExact(version, level)
  {}

  lemma RowsExact9(version: nat, level: Level)
    requires 9 <= version <= 12
    ensures RowExact(version, level)
  {}

  lemma RowsExact13(version: nat, level: Level)
    requires 13 <= version <= 16
    ensures RowExact(version, level)
  {}

  lemma RowsExact17(version: nat, level: Level)
    requires 17 <= version <= 20
    ensures RowExact(version, level)
  {}

  lemma RowsExact21(version: nat, level: Level)
    requires 21 <= version <= 24
    ensures RowExact(version, level)
  {}

  lemma RowsExact25(version: nat, level: Level)
    requires 25 <= version <= 28
    ensures RowExact(version, level)
  {}

  lemma RowsExact29(version: nat, level: Level)
    requires 29 <= version <= 32
    ensures RowExact(version, level)
  {}

  lemma RowsExact33(version: nat, level: Level)
    requires 33 <= version <= 36
    ensures RowExact(version, level)
  {}

  lemma RowsExact37(version: nat, level: Level)
    requires 37 <= version <= 40
    ensures RowExact(version, level)
  {}

  lemma ExactSpec(b1: nat, b2: nat, data: nat, ecc: nat, d: nat, e: nat)
    requires Exact(b1, b2, data, ecc, d, e)
    ensures var s := MakeEccSpec(b1, b2, data, ecc);
            s.Valid() && s.DataTotal() == data && s.EccTotal() == ecc && s.e == e
  {
    var n := b1 + b2;
    assert n * d == d * n && n * e == e * n;
    DivMod(data, n, d, b2);
    DivMod(ecc, n, e, 0);
    assert b1 * d + b2 * (d + 1) == data;
  }

  /** The tables agree: the blocks divide the data and parity bytes of the version exactly, with one of
      the numbers of parity bytes that there are. */
  lemma EccSpecExact(version: nat, level: Level)
    requires 1 <= version <= VERSION_MAX
    ensures var s := GetEccSpec(version, level);
            && s.Valid() && s.DataTotal() == DataLength(version, level) && s.EccTotal() == ECCLength(version, level)
            && ParityLength(s.e)
  {
    hide ParityLength, CapacityTable, EccTable, BlockSizes, MakeEccSpec, DataLength, ECCLength;
    if version < 5 { RowsExact1(version, level); }
    else if version < 9 { RowsExact5(version, level); }
    else if version < 13 { RowsExact9(version, level); }
    else if version < 17 { RowsExact13(version, level); }
    else if version < 21 { RowsExact17(version, level); }
    else if version < 25 { RowsExact21(version, level); }
    else if version < 29 { RowsExact25(version, level); }
    else if version < 33 { RowsExact29(version, level); }
    else if version < 37 { RowsExact33(version, level); }
    else { RowsExact37(version, level); }
    var b, z := EccTable(version).At(level), BlockSizes(version).At(level);
    ExactSpec(b.0, b.1, DataLength(version, level), ECCLength(version, level), z.0, z.1);
  }
}
