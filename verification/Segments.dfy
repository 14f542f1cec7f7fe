/** The bit stream of one input entry: mode indicator, length field and payload, and a reader
    that follows the symbology specification. */
module Segments {
  import opened GF256
  import opened QRSpec
  import opened BitStreams

  datatype Entry = Entry(mode: Mode, data: seq<Byte>)

  // ---- Validity of the data of a mode ----

  predicate IsDigit(b: Byte) { 48 <= Ord(b) <= 57 }

  /** The value of an alphanumeric character, or -1. */
  function LookAn(b: Byte): int {
    var c := Ord(b);
    if 48 <= c <= 57 then c - 48
    else if 65 <= c <= 90 then c - 55
    else
      match c
      case 32 => 36 case 36 => 37 case 37 => 38 case 42 => 39 case 43 => 40
      case 45 => 41 case 46 => 42 case 47 => 43 case 58 => 44
      case _ => -1
  }

  function Sjis(hi: Byte, lo: Byte): nat { 256 * Ord(hi) + Ord(lo) }

  predicate IsKanji(hi: Byte, lo: Byte) {
    0x8140 <= Sjis(hi, lo) <= 0x9ffc || 0xe040 <= Sjis(hi, lo) <= 0xebbf
  }

  predicate KanjiData(data: seq<Byte>) {
    |data| == 0 || (|data| >= 2 && IsKanji(data[0], data[1]) && KanjiData(data[2..]))
  }

  predicate ModeData(mode: Mode, data: seq<Byte>) {
    match mode
    case Num => forall i :: 0 <= i < |data| ==> IsDigit(data[i])
    case An => forall i :: 0 <= i < |data| ==> LookAn(data[i]) >= 0
    case Kanji => KanjiData(data)
    case Eight => true
    case Structure => |data| == 3
  }

  /** What QRinput_check accepts. */
  predicate Check(e: Entry) { e.data != [] && ModeData(e.mode, e.data) }

  // ---- Encoding ----

  function Digit(b: Byte): nat
    requires IsDigit(b)
  {
    Ord(b) - 48
  }

  /** The decimal number that a group of digits spells. */
  function Decimal(d: seq<Byte>): nat
    requires ModeData(Num, d)
  {
    if d == [] then 0 else 10 * Decimal(d[..|d| - 1]) + Digit(d[|d| - 1])
  }

  /** Digits go in groups of three; the last group may be shorter. */
  function GroupSize(count: nat): nat { if count >= 3 then 3 else count }

  function GroupBits(k: nat): nat { if k == 3 then 10 else if k == 2 then 7 else 4 }

  function NumPayload(d: seq<Byte>): Bits
    requires ModeData(Num, d)
  {
    if d == [] then []
    else
      var k := GroupSize(|d|);
      NumBits(GroupBits(k), Decimal(d[..k])) + NumPayload(d[k..])
  }

  function AnPayload(d: seq<Byte>): Bits
    requires ModeData(An, d)
  {
    if |d| >= 2 then NumBits(11, 45 * LookAn(d[0]) + LookAn(d[1])) + AnPayload(d[2..])
    else if |d| == 1 then NumBits(6, LookAn(d[0]))
    else []
  }

  /** A Shift JIS code, packed into 13 bits. */
  function PackSjis(c: nat): nat
    requires 0x8140 <= c <= 0x9ffc || 0xc140 <= c
  {
    var v := if c <= 0x9ffc then c - 0x8140 else c - 0xc140;
    (v / 256) * 0xc0 + v % 256
  }

  function KanjiCode(hi: Byte, lo: Byte): nat
    requires IsKanji(hi, lo)
  {
    PackSjis(Sjis(hi, lo))
  }

  function KanjiPayload(d: seq<Byte>): Bits
    requires KanjiData(d)
  {
    if d == [] then [] else NumBits(13, KanjiCode(d[0], d[1])) + KanjiPayload(d[2..])
  }

  function Payload(e: Entry): Bits
    requires ModeData(e.mode, e.data)
  {
    match e.mode
    case Num => NumPayload(e.data)
    case An => AnPayload(e.data)
    case Eight => BytesBits(e.data)
    case Kanji => KanjiPayload(e.data)
    case Structure =>
      NumBits(4, Ord(e.data[1]) + 15) + NumBits(4, Ord(e.data[0]) + 15) + NumBits(8, Ord(e.data[2]))
  }

  function ModeId(mode: Mode): nat {
    match mode case Num => 1 case An => 2 case Eight => 4 case Kanji => 8 case Structure => 3
  }

  /** What the length field counts: characters, which are pairs of bytes in Kanji mode. */
  function Count(e: Entry): nat {
    if e.mode == Kanji then |e.data| / 2 else if e.mode == Structure then 0 else |e.data|
  }

  function EncodeChunk(e: Entry, version: nat): Bits
    requires ModeData(e.mode, e.data)
  {
    NumBits(4, ModeId(e.mode)) + NumBits(LengthIndicator(e.mode, version), Count(e)) + Payload(e)
  }

  /** Whether the entry is longer than one segment can announce. */
  predicate TooLong(e: Entry, version: nat) {
    var words := MaximumWords(e.mode, version);
    words != 0 && |e.data| > words
  }

  function Head(e: Entry, version: nat): Entry
    requires TooLong(e, version)
  {
    Entry(e.mode, e.data[..MaximumWords(e.mode, version)])
  }

  function Tail(e: Entry, version: nat): Entry
    requires TooLong(e, version)
  {
    Entry(e.mode, e.data[MaximumWords(e.mode, version)..])
  }

  /** The segments an entry is written as. */
  function Chunks(e: Entry, version: nat): seq<Entry>
    decreases |e.data|
  {
    if TooLong(e, version) then [Head(e, version)] + Chunks(Tail(e, version), version) else [e]
  }

  function EncodeEntry(e: Entry, version: nat): Bits
    requires ModeData(e.mode, e.data)
    decreases |e.data|
  {
    if TooLong(e, version) then
      HeadTailValid(e, version);
      EncodeChunk(Head(e, version), version) + EncodeEntry(Tail(e, version), version)
    else EncodeChunk(e, version)
  }

  lemma {:induction false} KanjiCut(d: seq<Byte>, n: nat)
    requires KanjiData(d) && n <= |d| && n % 2 == 0
    ensures KanjiData(d[..n]) && KanjiData(d[n..])
  {
    if n == 0 {
      assert d[n..] == d;
    } else {
      KanjiCut(d[2..], n - 2);
      assert d[..n][2..] == d[2..][..n - 2];
      assert d[n..] == d[2..][n - 2..];
    }
  }

  lemma {:induction false} KanjiEven(d: seq<Byte>)
    requires KanjiData(d)
    ensures |d| % 2 == 0
  {
    if d != [] { KanjiEven(d[2..]); }
  }

  lemma CutValid(e: Entry, n: nat)
    requires ModeData(e.mode, e.data) && e.mode != Structure
    requires n <= |e.data| && (e.mode == Kanji ==> n % 2 == 0)
    ensures ModeData(e.mode, e.data[..n]) && ModeData(e.mode, e.data[n..])
  {
    if e.mode == Kanji { KanjiCut(e.data, n); }
  }

  lemma HeadTailValid(e: Entry, version: nat)
    requires ModeData(e.mode, e.data) && TooLong(e, version)
    ensures e.mode != Structure
    ensures ModeData(e.mode, Head(e, version).data) && ModeData(e.mode, Tail(e, version).data)
    ensures Head(e, version).data + Tail(e, version).data == e.data
    ensures e.mode == Kanji ==> |Head(e, version).data| % 2 == 0
    ensures !TooLong(Head(e, version), version) && |Tail(e, version).data| < |e.data|
  {
    WordsParity(e.mode, version);
    hide ModeData, MaximumWords;
    CutValid(e, MaximumWords(e.mode, version));
  }

  lemma WordsParity(mode: Mode, version: nat)
    ensures mode == Structure <==> MaximumWords(mode, version) == 0
    ensures mode == Kanji ==> MaximumWords(mode, version) % 2 == 0
  {
    hide LengthIndicator;
    FieldsLong(mode, version);
    if mode != Structure {
      assert Pow2(LengthIndicator(mode, version)) == 2 * Pow2(LengthIndicator(mode, version) - 1);
    }
  }

  lemma FieldsLong(mode: Mode, version: nat)
    ensures mode != Structure ==> LengthIndicator(mode, version) >= 8
  {}

  predicate AllValid(es: seq<Entry>) {
    forall i :: 0 <= i < |es| ==> ModeData(es[i].mode, es[i].data)
  }

  function EncodeAll(es: seq<Entry>, version: nat): Bits
    requires AllValid(es)
  {
    if es == [] then [] else EncodeEntry(es[0], version) + EncodeAll(es[1..], version)
  }

  function ChunksAll(es: seq<Entry>, version: nat): seq<Entry> {
    if es == [] then [] else Chunks(es[0], version) + ChunksAll(es[1..], version)
  }

  // ---- Reading ----

  datatype Read<T> = Bad | Got(value: T, rest: Bits)

  function ReadNum(s: Bits, n: nat): Read<nat> {
    if |s| < n then Bad else Got(BitsNum(s[..n]), s[n..])
  }

  /** The last k decimal digits of v. */
  function DigitBytes(v: nat, k: nat): seq<Byte> {
    if k == 0 then [] else DigitBytes(v / 10, k - 1) + [Chr(48 + v % 10)]
  }

  function ReadDigits(s: Bits, count: nat): Read<seq<Byte>>
    decreases count
  {
    if count == 0 then Got([], s)
    else
      var k := GroupSize(count);
      match ReadNum(s, GroupBits(k))
      case Bad => Bad
      case Got(v, rest) =>
        if v >= Pow10(k) then Bad
        else
          match ReadDigits(rest, count - k)
          case Bad => Bad
          case Got(more, rest') => Got(DigitBytes(v, k) + more, rest')
  }

  function Pow10(k: nat): nat {
    if k == 0 then 1 else 10 * Pow10(k - 1)
  }

  function AnChar(v: nat): Byte
    requires v < 45
  {
    if v < 10 then Chr(48 + v)
    else if v < 36 then Chr(55 + v)
    else
      match v
      case 36 => Chr(32) case 37 => Chr(36) case 38 => Chr(37) case 39 => Chr(42) case 40 => Chr(43)
      case 41 => Chr(45) case 42 => Chr(46) case 43 => Chr(47) case _ => Chr(58)
  }

  function ReadAn(s: Bits, count: nat): Read<seq<Byte>>
    decreases count
  {
    if count == 0 then Got([], s)
    else if count == 1 then
      match ReadNum(s, 6)
      case Bad => Bad
      case Got(v, rest) => if v >= 45 then Bad else Got([AnChar(v)], rest)
    else
      match ReadNum(s, 11)
      case Bad => Bad
      case Got(v, rest) =>
        if v >= 45 * 45 then Bad
        else
          match ReadAn(rest, count - 2)
          case Bad => Bad
          case Got(more, rest') => Got([AnChar(v / 45), AnChar(v % 45)] + more, rest')
  }

  function ReadBytes(s: Bits, count: nat): Read<seq<Byte>>
    decreases count
  {
    if count == 0 then Got([], s)
    else if |s| < 8 then Bad
    else
      match ReadBytes(s[8..], count - 1)
      case Bad => Bad
      case Got(more, rest) => Got([BitsByte(s[..8])] + more, rest)
  }

  function UnpackSjis(v: nat): nat {
    var w := (v / 0xc0) * 256 + v % 0xc0;
    if w < 0x1f00 then w + 0x8140 else w + 0xc140
  }

  function ReadKanji(s: Bits, count: nat): Read<seq<Byte>>
    decreases count
  {
    if count == 0 then Got([], s)
    else
      match ReadNum(s, 13)
      case Bad => Bad
      case Got(v, rest) =>
        var c := UnpackSjis(v);
        if c >= 0x10000 then Bad
        else
          match ReadKanji(rest, count - 1)
          case Bad => Bad
          case Got(more, rest') => Got([Chr(c / 256), Chr(c % 256)] + more, rest')
  }

  function ReadStructure(s: Bits): Read<seq<Byte>> {
    if |s| < 16 then Bad
    else
      Got([Chr(1 + BitsNum(s[4..8]) % 16), Chr(1 + BitsNum(s[..4]) % 16), Chr(BitsNum(s[8..16]) % 256)], s[16..])
  }

  function ReadPayload(mode: Mode, s: Bits, count: nat): Read<seq<Byte>> {
    match mode
    case Num => ReadDigits(s, count)
    case An => ReadAn(s, count)
    case Eight => ReadBytes(s, count)
    case Kanji => ReadKanji(s, count)
    case Structure => ReadStructure(s)
  }

  function ReadMode(id: nat): Read<Mode> {
    match id
    case 1 => Got(Num, []) case 2 => Got(An, []) case 4 => Got(Eight, [])
    case 8 => Got(Kanji, []) case 3 => Got(Structure, [])
    case _ => Bad
  }

  /** The number of bits of a length field (Table 3 of JIS X0510:2004): for versions 1 to 9, 10 to 26,
      and from 27 on. */
  function FieldWidth(mode: Mode, version: nat): nat {
    match mode
    case Num => if version < 10 then 10 else if version < 27 then 12 else 14
    case An => if version < 10 then 9 else if version < 27 then 11 else 13
    case Eight => if version < 10 then 8 else 16
    case Kanji => if version < 10 then 8 else if version < 27 then 10 else 12
    case Structure => 0
  }

  lemma FieldWidths(mode: Mode, version: nat)
    ensures LengthIndicator(mode, version) == FieldWidth(mode, version)
  {}

  function ReadSegment(s: Bits, version: nat): Read<Entry> {
    if |s| < 4 then Bad
    else
      match ReadMode(BitsNum(s[..4]))
      case Bad => Bad
      case Got(mode, _) =>
        match ReadNum(s[4..], FieldWidth(mode, version))
        case Bad => Bad
        case Got(count, rest) =>
          match ReadPayload(mode, rest, count)
          case Bad => Bad
          case Got(data, rest') => Got(Entry(mode, data), rest')
  }

  /** Read segments up to the terminator, or to where no mode indicator fits any more. */
  function ReadAll(s: Bits, version: nat): Read<seq<Entry>>
    decreases |s|
  {
    if |s| < 4 || BitsNum(s[..4]) == 0 then Got([], s)
    else
      match ReadSegment(s, version)
      case Bad => Bad
      case Got(e, rest) =>
        if |rest| >= |s| then Bad
        else
          match ReadAll(rest, version)
          case Bad => Bad
          case Got(es, rest') => Got([e] + es, rest')
  }
}
