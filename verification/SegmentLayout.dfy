/** The bits of a segment, spelled out as in section 8.4 of JIS X0510:2004. */
module SegmentLayout {
  import opened Arith
  import opened GF256
  import opened QRSpec
  import opened BitStreams
  import opened Segments
  import opened RoundTrip

  // ---- Mode indicator and length field ----

  lemma ModeBits(mode: Mode)
    ensures NumBits(4, ModeId(mode)) == match mode
                                       case Num => [false, false, false, true]
                                       case An => [false, false, true, false]
                                       case Eight => [false, true, false, false]
                                       case Kanji => [true, false, false, false]
                                       case Structure => [false, false, true, true]
  {
    FourBitsAre(ModeId(mode));
    hide NumBits;
  }

  lemma FourBitsAre(n: nat)
    requires n < 16
    ensures NumBits(4, n) == [n / 8 == 1, n / 4 % 2 == 1, n / 2 % 2 == 1, n % 2 == 1]
  {
    hide NumBits;
    Halvings(n);
    LastBitOf(4, n); LastBitOf(3, n / 2); LastBitOf(2, n / 4); LastBitOf(1, n / 8);
    NoBits(n / 16);
  }

  lemma Halvings(n: nat)
    ensures n / 2 / 2 == n / 4 && n / 4 / 2 == n / 8 && n / 8 / 2 == n / 16
  {}

  lemma LastBitOf(k: nat, n: nat)
    requires 1 <= k
    ensures NumBits(k, n) == NumBits(k - 1, n / 2) + [n % 2 == 1]
  {}

  /** A segment of each mode and each class of versions: mode indicator, number of characters, data. */
  lemma SegmentBits(e: Entry, version: nat)
    requires ModeData(e.mode, e.data)
    ensures e.mode == Num ==>
              EncodeChunk(e, version)
              == [false, false, false, true]
                 + NumBits(if version <= 9 then 10 else if version <= 26 then 12 else 14, |e.data|) + NumPayload(e.data)
    ensures e.mode == An ==>
              EncodeChunk(e, version)
              == [false, false, true, false]
                 + NumBits(if version <= 9 then 9 else if version <= 26 then 11 else 13, |e.data|) + AnPayload(e.data)
    ensures e.mode == Eight ==>
              EncodeChunk(e, version)
              == [false, true, false, false] + NumBits(if version <= 9 then 8 else 16, |e.data|) + BytesBits(e.data)
    ensures e.mode == Kanji ==>
              EncodeChunk(e, version)
              == [true, false, false, false]
                 + NumBits(if version <= 9 then 8 else if version <= 26 then 10 else 12, |e.data| / 2) + KanjiPayload(e.data)
  {
    hide NumBits, NumPayload, AnPayload, BytesBits, KanjiPayload, ModeId, KanjiData;
    ModeBits(e.mode);
  }

  /** A structured-append header: position and number of symbols, both less one, and the parity. */
  lemma HeaderBits(e: Entry, version: nat)
    requires ModeData(e.mode, e.data) && e.mode == Structure && StructureFields(e.data)
    ensures EncodeChunk(e, version) == [false, false, true, true]
                                       + NumBits(4, Ord(e.data[1]) - 1) + NumBits(4, Ord(e.data[0]) - 1) + NumBits(8, Ord(e.data[2]))
  {
    hide NumBits, ModeId, Ord;
    ModeBits(Structure);
    FourBits(Ord(e.data[1]) - 1); FourBits(Ord(e.data[0]) - 1);
    NoBits(0);
    ThreeParts([false, false, true, true], NumBits(4, Ord(e.data[1]) - 1), NumBits(4, Ord(e.data[0]) - 1), NumBits(8, Ord(e.data[2])));
  }

  lemma ThreeParts(m: Bits, a: Bits, b: Bits, c: Bits)
    ensures m + [] + (a + b + c) == m + a + b + c
  {}

  /** Sixteen more make no difference to the low four bits. */
  lemma FourBits(n: nat)
    ensures NumBits(4, n + 16) == NumBits(4, n)
  {
    LowBits(4, n, 1);
  }

  lemma {:induction false} LowBits(k: nat, n: nat, q: nat)
    ensures NumBits(k, n + q * Pow2(k)) == NumBits(k, n)
  {
    if k > 0 {
      assert q * Pow2(k) == 2 * (q * Pow2(k - 1));
      LowBits(k - 1, n / 2, q);
      assert (n + q * Pow2(k)) / 2 == n / 2 + q * Pow2(k - 1);
    }
  }

  // ---- Numeric data ----

  /** Groups of three digits take ten bits, */
  lemma ThreeDigits(d: seq<Byte>)
    requires ModeData(Num, d) && |d| >= 3
    ensures NumPayload(d) == NumBits(10, 100 * (Ord(d[0]) - 48) + 10 * (Ord(d[1]) - 48) + (Ord(d[2]) - 48)) + NumPayload(d[3..])
  {
    hide NumBits, Ord, Decimal, NumPayload, ModeData;
    FirstGroup(d);
    PrefixDecimal(d, 3);
  }

  /** and a rest of two or of one takes seven or four. */
  lemma LastDigits(d: seq<Byte>)
    requires ModeData(Num, d) && |d| <= 2
    ensures |d| == 2 ==> NumPayload(d) == NumBits(7, 10 * (Ord(d[0]) - 48) + (Ord(d[1]) - 48))
    ensures |d| == 1 ==> NumPayload(d) == NumBits(4, Ord(d[0]) - 48)
    ensures d == [] ==> NumPayload(d) == []
  {
    hide NumBits, Ord, Decimal, NumPayload;
    FirstGroup(d); FirstGroup([]);
    if d != [] { PrefixDecimal(d, |d|); assert d[|d|..] == []; }
  }

  lemma PrefixDecimal(d: seq<Byte>, k: nat)
    requires ModeData(Num, d) && 1 <= k <= 3 && k <= |d|
    ensures ModeData(Num, d[..k]) && ModeData(Num, d[k..]) && ModeData(Num, [])
    ensures k == 3 ==> Decimal(d[..k]) == 100 * (Ord(d[0]) - 48) + 10 * (Ord(d[1]) - 48) + (Ord(d[2]) - 48)
    ensures k == 2 ==> Decimal(d[..k]) == 10 * (Ord(d[0]) - 48) + (Ord(d[1]) - 48)
    ensures k == 1 ==> Decimal(d[..k]) == Ord(d[0]) - 48
  {
    hide Ord, Decimal;
    SmallDecimal(d[..k]);
  }

  lemma FirstGroup(d: seq<Byte>)
    requires ModeData(Num, d)
    ensures |d| >= 3 ==> NumPayload(d) == NumBits(10, Decimal(d[..3])) + NumPayload(d[3..])
    ensures |d| == 2 ==> NumPayload(d) == NumBits(7, Decimal(d[..2])) + NumPayload(d[2..])
    ensures |d| == 1 ==> NumPayload(d) == NumBits(4, Decimal(d[..1])) + NumPayload(d[1..])
    ensures d == [] ==> NumPayload(d) == []
  {
    hide NumBits, Ord, Decimal, IsDigit;
  }

  lemma SmallDecimal(g: seq<Byte>)
    requires ModeData(Num, g) && 1 <= |g| <= 3
    ensures |g| == 3 ==> Decimal(g) == 100 * (Ord(g[0]) - 48) + 10 * (Ord(g[1]) - 48) + (Ord(g[2]) - 48)
    ensures |g| == 2 ==> Decimal(g) == 10 * (Ord(g[0]) - 48) + (Ord(g[1]) - 48)
    ensures |g| == 1 ==> Decimal(g) == Ord(g[0]) - 48
  {
    hide IsDigit, Ord;
    assert Decimal(g[..1]) == Ord(g[0]) - 48;
    if |g| >= 2 { assert g[..2][..1] == g[..1]; assert Decimal(g[..2]) == 10 * (Ord(g[0]) - 48) + (Ord(g[1]) - 48); }
    assert g[..|g|] == g;
  }

  /** The digits, and no other characters, are numeric data. */
  lemma Digits(b: Byte)
    ensures IsDigit(b) <==> exists k :: 0 <= k < 10 && Ord(b) == "0123456789"[k] as int
  {
    hide Ord;
    if IsDigit(b) { assert Ord(b) == "0123456789"[Ord(b) - 48] as int; }
  }

  // ---- Alphanumeric data ----

  /** The characters in the order of their values. */
  const ALPHABET := "0123456789" + "ABCDEFGHIJKLM" + "NOPQRSTUVWXYZ" + " $%*+-./:"

  lemma DigitCodes(k: nat)
    requires 0 <= k < 10
    ensures |ALPHABET| == 45 && ALPHABET[k] as int == 48 + k
  {
    match k
    case 0 =>
    case 1 =>
    case 2 =>
    case 3 =>
    case 4 =>
    case 5 =>
    case 6 =>
    case 7 =>
    case 8 =>
    case _ =>
  }

  lemma FirstLetters(k: nat)
    requires 10 <= k < 23
    ensures |ALPHABET| == 45 && ALPHABET[k] as int == 55 + k
  {
    match k
    case 10 =>
    case 11 =>
    case 12 =>
    case 13 =>
    case 14 =>
    case 15 =>
    case 16 =>
    case 17 =>
    case 18 =>
    case 19 =>
    case 20 =>
    case 21 =>
    case _ =>
  }

  lemma LastLetters(k: nat)
    requires 23 <= k < 36
    ensures |ALPHABET| == 45 && ALPHABET[k] as int == 55 + k
  {
    match k
    case 23 =>
    case 24 =>
    case 25 =>
    case 26 =>
    case 27 =>
    case 28 =>
    case 29 =>
    case 30 =>
    case 31 =>
    case 32 =>
    case 33 =>
    case 34 =>
    case _ =>
  }

  lemma OtherCodes(k: nat)
    requires 36 <= k < 45
    ensures |ALPHABET| == 45
    ensures ALPHABET[k] as int == match k case 36 => 32 case 37 => 36 case 38 => 37 case 39 => 42 case 40 => 43
                                          case 41 => 45 case 42 => 46 case 43 => 47 case _ => 58
  {}

  lemma CharacterValue(b: Byte, k: nat)
    requires k < 45
    ensures |ALPHABET| == 45
    ensures LookAn(b) == k <==> Ord(b) == ALPHABET[k] as int
  {
    hide Ord, ALPHABET;
    if k < 10 { DigitCodes(k); } else if k < 23 { FirstLetters(k); } else if k < 36 { LastLetters(k); } else { OtherCodes(k); }
  }

  /** The value of a character is its place in the alphabet, and other characters have none. */
  lemma Alphabet(b: Byte)
    ensures -1 <= LookAn(b) < 45
    ensures LookAn(b) >= 0 <==> exists k :: 0 <= k < 45 && Ord(b) == ALPHABET[k] as int
    ensures LookAn(b) >= 0 ==> Ord(b) == ALPHABET[LookAn(b)] as int
  {
    hide Ord, ALPHABET;
    LookBound(b);
    if LookAn(b) >= 0 { CharacterValue(b, LookAn(b)); }
    if k :| 0 <= k < 45 && Ord(b) == ALPHABET[k] as int { CharacterValue(b, k); }
  }

  lemma LookBound(b: Byte)
    ensures -1 <= LookAn(b) < 45
    ensures |ALPHABET| == 45
  {
    hide Ord;
  }

  /** A reader's character has that value. */
  lemma CharacterRead(v: nat)
    requires v < 45
    ensures |ALPHABET| == 45 && Ord(AnChar(v)) == ALPHABET[v] as int && LookAn(AnChar(v)) == v
  {
    hide Ord, Chr;
    LookBound(AnChar(v));
    CharacterValue(AnChar(v), v);
  }

  /** Pairs of characters take eleven bits, a single one at the end takes six. */
  lemma CharacterPairs(d: seq<Byte>)
    requires ModeData(An, d)
    ensures |d| >= 2 ==> AnPayload(d) == NumBits(11, 45 * LookAn(d[0]) + LookAn(d[1])) + AnPayload(d[2..])
    ensures |d| == 1 ==> AnPayload(d) == NumBits(6, LookAn(d[0]))
    ensures d == [] ==> AnPayload(d) == []
  {
    hide NumBits, LookAn;
  }

  // ---- Bytes ----

  lemma PushNumber(v: Byte, x: bool)
    requires Ord(v) < 128
    ensures Ord(Push(v, x)) == 2 * Ord(v) + (if x then 1 else 0)
  {}

  lemma {:induction false} BitsOfNumber(s: Bits)
    ensures BitsNum(s) < Pow2(|s|) && NumBits(|s|, BitsNum(s)) == s
  {
    if s != [] {
      BitsOfNumber(s[..|s| - 1]);
      assert s == s[..|s| - 1] + [s[|s| - 1]];
    }
  }

  lemma {:induction false} ByteOfNumber(s: Bits)
    requires |s| <= 8
    ensures Ord(BitsByte(s)) == BitsNum(s)
  {
    hide Ord, Push;
    if s == [] {
      OrdFacts(0, 0);
    } else {
      var t := s[..|s| - 1];
      ByteOfNumber(t);
      BitsOfNumber(t);
      SevenBits(|t|);
      PushNumber(BitsByte(t), s[|s| - 1]);
    }
  }

  lemma SevenBits(n: nat)
    requires n <= 7
    ensures Pow2(n) <= 128
  {
    assert Pow2(2) == 4 && Pow2(4) == 16 && Pow2(6) == 64;
  }

  /** The bits of a byte are those of its number. */
  lemma ByteNumber(b: Byte)
    ensures ByteBits(b) == NumBits(8, Ord(b))
  {
    hide Ord, ByteBits, NumBits, BitsByte, BitsNum;
    ByteRoundTrip(b);
    ByteOfNumber(ByteBits(b));
    BitsOfNumber(ByteBits(b));
  }

  lemma NoBits(v: nat)
    ensures NumBits(0, v) == []
  {}

  /** Bytes follow each other in order. */
  lemma {:induction false} BytesInOrder(d: seq<Byte>)
    ensures d != [] ==> BytesBits(d) == NumBits(8, Ord(d[0])) + BytesBits(d[1..])
    ensures d == [] ==> BytesBits(d) == []
  {
    hide ByteBits, NumBits, Ord;
    if |d| == 1 {
      ByteNumber(d[0]);
      assert BytesBits(d[..0]) == [] && BytesBits(d[1..]) == [];
    } else if d != [] {
      var n := |d| - 1;
      BytesInOrder(d[..n]);
      assert d[..n][1..] == d[1..][..n - 1];
      assert BytesBits(d[1..]) == BytesBits(d[1..][..n - 1]) + ByteBits(d[n]);
    }
  }

  // ---- Kanji ----

  /** A character is packed as row and column of the code table: the rows from 0x81 to 0x9f and from
      0xe0 to 0xeb follow each other, with 192 columns from 0x40 on. */
  lemma KanjiRowColumn(hi: Byte, lo: Byte)
    requires IsKanji(hi, lo) && Ord(lo) >= 0x40
    ensures 0x81 <= Ord(hi) <= 0x9f || 0xe0 <= Ord(hi) <= 0xeb
    ensures KanjiCode(hi, lo) == 192 * (if Ord(hi) <= 0x9f then Ord(hi) - 0x81 else Ord(hi) - 0xe0 + 31) + (Ord(lo) - 0x40)
  {
    hide Ord;
    var h, l := Ord(hi), Ord(lo);
    DivMod(256 * h + l - (if h <= 0x9f then 0x8140 else 0xc140), 256, if h <= 0x9f then h - 0x81 else h - 0xc1, l - 0x40);
  }

  /** The first and the last character of both ranges, and those next to them. */
  lemma KanjiBounds()
    ensures IsKanji(0x81, 0x40) && IsKanji(0x9f, 0xfc) && IsKanji(0xe0, 0x40) && IsKanji(0xeb, 0xbf)
    ensures !IsKanji(0x81, 0x3f) && !IsKanji(0x9f, 0xfd) && !IsKanji(0xe0, 0x3f) && !IsKanji(0xeb, 0xc0)
    ensures KanjiCode(0x81, 0x40) == 0 && KanjiCode(0xeb, 0xbf) == 8191
    ensures KanjiCode(0x93, 0x5f) == 0x0d9f && KanjiCode(0xe4, 0xaa) == 0x1aaa
  {}

  lemma KanjiGroups(d: seq<Byte>)
    requires KanjiData(d)
    ensures d != [] ==> KanjiPayload(d) == NumBits(13, KanjiCode(d[0], d[1])) + KanjiPayload(d[2..])
    ensures d == [] ==> KanjiPayload(d) == []
  {
    hide NumBits, KanjiCode;
  }
}
