/** What the string splitter chooses, measured in encoded bits. */
module SplittingChoices {
  import opened GF256
  import opened QRSpec
  import opened BitStreams
  import opened Segments
  import opened Estimate
  import opened Inputs
  import opened Splitting

  /** The bits of a stretch of the string as one segment. */
  function SegmentLength(mode: Mode, d: seq<Byte>, version: nat): nat
    requires ModeData(mode, d)
  {
    |EncodeChunk(Entry(mode, d), version)|
  }

  lemma LengthIs(mode: Mode, d: seq<Byte>, version: nat)
    requires ModeData(mode, d) && mode in {Num, An, Eight}
    ensures SegmentLength(mode, d, version) == 4 + LengthIndicator(mode, version) + EstimateBits(mode, |d|)
  {
    hide LengthIndicator, EstimateBits, EncodeChunk;
    ChunkLength(Entry(mode, d), version);
  }

  /** A run and the character after it take no more bits in two segments than in one. */
  predicate ApartPays(run: seq<Byte>, mode: Mode, next: Byte, other: Mode, version: nat) {
    && ModeData(mode, run) && ModeData(other, [next]) && ModeData(other, run + [next])
    && SegmentLength(mode, run, version) + SegmentLength(other, [next], version) <= SegmentLength(other, run + [next], version)
  }

  lemma ApartCost(run: seq<Byte>, mode: Mode, next: Byte, other: Mode, version: nat)
    requires mode in {Num, An} && other in {An, Eight}
    requires ModeData(mode, run) && ModeData(other, [next]) && ModeData(other, run + [next])
    ensures ApartPays(run, mode, next, other, version)
       <==> EstimateBits(mode, |run|) + 4 + LengthIndicator(mode, version) + EstimateBits(other, 1) <= EstimateBits(other, |run| + 1)
  {
    hide SegmentLength, LengthIndicator, EstimateBits, ModeData;
    LengthIs(mode, run, version); LengthIs(other, [next], version); LengthIs(other, run + [next], version);
  }

  lemma RunData(s: seq<Byte>, p: nat)
    requires p <= |s|
    ensures ModeData(Num, s[p..DigitsEnd(s, p)]) && ModeData(An, s[p..DigitsEnd(s, p)]) && ModeData(An, s[p..AlnumEnd(s, p)])
  {
    hide IsDigit, LookAn;
    DigitsAlnum(s, p);
  }

  // ---- A segment that starts with a digit ----

  lemma DigitMode(s: seq<Byte>, at: nat, hint: Mode)
    requires at < |s| && IsDigit(s[at])
    ensures IdentifyMode(s, at, hint) == Some(Num)
  {}

  lemma PieceBeforeByte(s: seq<Byte>, at: nat, version: nat, hint: Mode)
    requires at < |s| && IsDigit(s[at]) && IdentifyMode(s, DigitsEnd(s, at), hint) == Some(Eight)
    ensures DigitsEnd(s, at) < |s|
    ensures NextPiece(s, at, version, hint)
         == if NumBefore8(DigitsEnd(s, at) - at, version) > 0 then EightPiece(s, at, version, hint) else Piece(Num, DigitsEnd(s, at))
  {
    hide IsDigit, IsAlnum, IsKanji, DigitsEnd, AnPiece, EightPiece, NumBeforeAn, NumBefore8;
    DigitMode(s, at, hint);
  }

  /** What the two tests after digits compute. */
  lemma DigitCosts(n: nat, version: nat)
    ensures NumBefore8(n, version) > 0
       <==> !(EstimateBits(Num, n) + 4 + LengthIndicator(Num, version) + EstimateBits(Eight, 1) <= EstimateBits(Eight, n + 1))
    ensures NumBeforeAn(n, version) > 0
       <==> !(EstimateBits(Num, n) + 4 + LengthIndicator(Num, version) + EstimateBits(An, 1) <= EstimateBits(An, n + 1))
  {
    hide EstimateBitsNum, EstimateBitsAn, LengthIndicator;
  }

  /** Digits before an 8-bit character become a numeric segment, which ends with the last digit,
      exactly if that pays: if the segment takes no more bits than the digits as bytes. */
  lemma DigitsBeforeByte(s: seq<Byte>, at: nat, version: nat, hint: Mode)
    requires at < |s| && IsDigit(s[at]) && IdentifyMode(s, DigitsEnd(s, at), hint) == Some(Eight)
    ensures var q := DigitsEnd(s, at);
            && q < |s| && ModeData(Num, s[at..q])
            && NextPiece(s, at, version, hint)
               == (if ApartPays(s[at..q], Num, s[q], Eight, version) then Piece(Num, q) else EightPiece(s, at, version, hint))
            && (ApartPays(s[at..q], Num, s[q], Eight, version) <==> SegmentLength(Num, s[at..q], version) <= 8 * (q - at))
  {
    hide IdentifyMode, IsDigit, SegmentLength, EightPiece, NextPiece, DigitsEnd, LengthIndicator, EstimateBits;
    hide NumBefore8, NumBeforeAn, ApartPays, ModeData;
    PieceBeforeByte(s, at, version, hint);
    RunData(s, at);
    var q := DigitsEnd(s, at);
    var run := s[at..q];
    ByteRule(run, s[q], version);
    assert |run| == q - at;
  }

  lemma ByteRule(run: seq<Byte>, next: Byte, version: nat)
    requires ModeData(Num, run)
    ensures ApartPays(run, Num, next, Eight, version) <==> NumBefore8(|run|, version) <= 0
    ensures ApartPays(run, Num, next, Eight, version) <==> SegmentLength(Num, run, version) <= 8 * |run|
  {
    hide SegmentLength, LengthIndicator, EstimateBits, NumBefore8, NumBeforeAn, ApartPays, ModeData;
    DigitCosts(|run|, version);
    BytesData(run, next);
    ApartCost(run, Num, next, Eight, version);
    LengthIs(Num, run, version);
    EightsAre(|run|);
  }

  lemma EightsAre(n: nat)
    ensures EstimateBits(Eight, n + 1) == 8 * n + 8 && EstimateBits(Eight, 1) == 8
  {}

  lemma BytesData(run: seq<Byte>, next: Byte)
    ensures ModeData(Eight, [next]) && ModeData(Eight, run + [next])
  {}

  lemma LettersData(run: seq<Byte>, next: Byte)
    requires ModeData(An, run) && IsAlnum(next)
    ensures ModeData(An, [next]) && ModeData(An, run + [next])
  {
    hide LookAn;
  }

  lemma LetterAfter(s: seq<Byte>, q: nat, hint: Mode)
    requires q <= |s| && IdentifyMode(s, q, hint) == Some(An)
    ensures q < |s| && IsAlnum(s[q])
  {
    hide IsAlnum, IsDigit, IsKanji;
  }

  lemma PieceBeforeLetter(s: seq<Byte>, at: nat, version: nat, hint: Mode)
    requires at < |s| && IsDigit(s[at]) && IdentifyMode(s, DigitsEnd(s, at), hint) == Some(An)
    ensures NextPiece(s, at, version, hint)
         == if NumBeforeAn(DigitsEnd(s, at) - at, version) > 0 then AnPiece(s, at, version, hint) else Piece(Num, DigitsEnd(s, at))
  {
    hide IdentifyMode, IsDigit, DigitsEnd, AnPiece, EightPiece, NumBeforeAn, NumBefore8;
    DigitMode(s, at, hint);
  }

  /** Digits before an alphanumeric character become a numeric segment exactly if that pays, against
      both together as alphanumeric data. */
  lemma DigitsBeforeLetter(s: seq<Byte>, at: nat, version: nat, hint: Mode)
    requires at < |s| && IsDigit(s[at]) && IdentifyMode(s, DigitsEnd(s, at), hint) == Some(An)
    ensures var q := DigitsEnd(s, at);
            && q < |s|
            && NextPiece(s, at, version, hint)
               == if ApartPays(s[at..q], Num, s[q], An, version) then Piece(Num, q) else AnPiece(s, at, version, hint)
  {
    hide IdentifyMode, IsDigit, DigitsEnd, AnPiece, NextPiece, LengthIndicator, EstimateBits, NumBefore8;
    hide NumBeforeAn, ApartPays, ModeData, IsAlnum;
    PieceBeforeLetter(s, at, version, hint);
    RunData(s, at);
    var q := DigitsEnd(s, at);
    DigitCosts(q - at, version);
    LetterAfter(s, q, hint);
    LettersData(s[at..q], s[q]);
    ApartCost(s[at..q], Num, s[q], An, version);
  }

  /** Digits before a Kanji character or at the end of the string become a numeric segment. */
  lemma DigitsAlone(s: seq<Byte>, at: nat, version: nat, hint: Mode)
    requires at < |s| && IsDigit(s[at]) && IdentifyMode(s, DigitsEnd(s, at), hint) in {None, Some(Kanji)}
    ensures NextPiece(s, at, version, hint) == Piece(Num, DigitsEnd(s, at))
  {
    hide IsDigit, EightPiece, AnPiece, DigitsEnd;
    DigitMode(s, at, hint);
  }

  // ---- A segment that starts with a letter ----

  /** Alphanumeric data before a byte of another kind is kept exactly if that pays, against both
      together as bytes. */
  lemma LettersBeforeByte(s: seq<Byte>, at: nat, version: nat, hint: Mode)
    requires at < |s| && AnEnd(s, at, at, version) < |s| && !IsAlnum(s[AnEnd(s, at, at, version)])
    ensures var p := AnEnd(s, at, at, version);
            AnPiece(s, at, version, hint)
            == if ApartPays(s[at..p], An, s[p], Eight, version) then Piece(An, p) else EightPiece(s, at, version, hint)
  {
    hide SegmentLength, EightPiece, AnEnd, LengthIndicator, EstimateBitsAn, LookAn, ApartPays;
    var p := AnEnd(s, at, at, version);
    assert ModeData(An, s[at..p]);
    BytesData(s[at..p], s[p]);
    ApartCost(s[at..p], An, s[p], Eight, version);
  }

  /** Otherwise it ends where the scan ends. */
  lemma LettersAlone(s: seq<Byte>, at: nat, version: nat, hint: Mode)
    requires at < |s| && (AnEnd(s, at, at, version) == |s| || IsAlnum(s[AnEnd(s, at, at, version)]))
    ensures AnPiece(s, at, version, hint) == Piece(An, AnEnd(s, at, at, version))
  {
    hide EightPiece, AnEnd;
  }

  /** Whether it pays to leave alphanumeric data at p for the digits that start there: they take fewer
      bits as a numeric segment, also if a return costs another header (of the numeric width) when
      alphanumeric data follows. */
  predicate DigitsPay(s: seq<Byte>, at: nat, p: nat, version: nat)
    requires at <= p <= |s| && forall i :: at <= i < p ==> IsAlnum(s[i])
  {
    RunData(s, p);
    BothAlnum(s, at, p);
    var q := DigitsEnd(s, p);
    |AnPayload(s[at..p])| + SegmentLength(Num, s[p..q], version)
    + (if q < |s| && IsAlnum(s[q]) then 4 + FieldWidth(Num, version) else 0) < |AnPayload(s[at..q])|
  }

  lemma BothAlnum(s: seq<Byte>, at: nat, p: nat)
    requires at <= p <= |s| && forall i :: at <= i < p ==> IsAlnum(s[i])
    ensures ModeData(An, s[at..p]) && ModeData(An, s[at..DigitsEnd(s, p)])
  {
    hide LookAn, IsDigit;
    DigitsAlnum(s, p);
    assert s[at..DigitsEnd(s, p)] == s[at..p] + s[p..DigitsEnd(s, p)];
  }

  lemma DigitsPayCost(s: seq<Byte>, at: nat, p: nat, version: nat)
    requires at <= p <= |s| && forall i :: at <= i < p ==> IsAlnum(s[i])
    ensures var q := DigitsEnd(s, p);
            DigitsPay(s, at, p, version) <==> NumWithinAn(p - at, q - p, q < |s| && IsAlnum(s[q]), version) < 0
  {
    hide SegmentLength, LengthIndicator, FieldWidth, EstimateBitsNum, EstimateBitsAn, LookAn, DigitsEnd, AnPayload;
    var q := DigitsEnd(s, p);
    RunData(s, p);
    BothAlnum(s, at, p);
    LengthIs(Num, s[p..q], version);
    FieldWidths(Num, version);
    AnLength(s[at..p]); AnLength(s[at..q]);
  }

  /** A place where digits begin, seen from a segment that starts at `at`. */
  predicate DigitsBegin(s: seq<Byte>, at: nat, p: nat)
    requires at <= p < |s|
  {
    IsDigit(s[p]) && (p == at || !IsDigit(s[p - 1]))
  }

  /** The scan goes on to the end of the alphanumeric characters, or to the first digits for which
      it pays to leave. */
  lemma {:induction false} AnEndMeaning(s: seq<Byte>, at: nat, p: nat, version: nat)
    requires at <= p <= |s| && (forall i :: at <= i < p ==> IsAlnum(s[i]))
             && (at < p < |s| ==> !(IsDigit(s[p - 1]) && IsDigit(s[p])))
    ensures var e := AnEnd(s, at, p, version);
            && (e == |s| || !IsAlnum(s[e]) || (DigitsBegin(s, at, e) && DigitsPay(s, at, e, version)))
            && (forall k :: p <= k < e && DigitsBegin(s, at, k) ==> !DigitsPay(s, at, k, version))
    decreases |s| - p
  {
    hide IsAlnum, IsDigit, NumWithinAn, DigitsPay;
    if p == |s| || !IsAlnum(s[p]) {
      AnStops(s, at, p, version);
    } else {
      AnStep(s, at, p, version);
      if IsDigit(s[p]) {
        DigitsPayCost(s, at, p, version);
        var q := DigitsEnd(s, p);
        if !DigitsPay(s, at, p, version) {
          AnEndMeaning(s, at, q, version);
          assert forall k :: p < k < q ==> !DigitsBegin(s, at, k);
        }
      } else {
        AnEndMeaning(s, at, p + 1, version);
      }
    }
  }

  // ---- A segment of bytes ----

  /** Whether it pays to leave bytes at p for a run up to q in another mode. */
  predicate RunPays(s: seq<Byte>, at: nat, p: nat, q: nat, mode: Mode, version: nat, hint: Mode)
    requires at <= p <= q <= |s| && ModeData(mode, s[p..q])
  {
    |BytesBits(s[at..p])| + SegmentLength(mode, s[p..q], version)
    + (if IdentifyMode(s, q, hint) == Some(Eight) then 4 + FieldWidth(Eight, version) else 0) < |BytesBits(s[at..q])|
  }

  lemma RunPaysCost(s: seq<Byte>, at: nat, p: nat, q: nat, mode: Mode, version: nat, hint: Mode)
    requires at <= p <= q <= |s| && ModeData(mode, s[p..q]) && mode in {Num, An}
    ensures RunPays(s, at, p, q, mode, version, hint)
       <==> RunWithin8(mode, p - at, q - p, IdentifyMode(s, q, hint) == Some(Eight), version) < 0
  {
    hide SegmentLength, LengthIndicator, FieldWidth, EstimateBitsNum, EstimateBitsAn, ModeData, IdentifyMode, BytesBits;
    LengthIs(mode, s[p..q], version);
    FieldWidths(Eight, version);
  }

  /** The scan of a byte segment, from a place p in it: it stops at the end of the string, at a Kanji
      character, and at digits or alphanumeric characters for which it pays to leave; it goes on
      behind digits and alphanumeric characters otherwise, and behind other bytes. */
  lemma BytesStep(s: seq<Byte>, at: nat, p: nat, version: nat, hint: Mode)
    requires at < p <= |s|
    ensures ModeData(Num, s[p..DigitsEnd(s, p)]) && ModeData(An, s[p..AlnumEnd(s, p)])
    ensures var e := EightEnd(s, at, p, version, hint);
            var d, l := DigitsEnd(s, p), AlnumEnd(s, p);
            match IdentifyMode(s, p, hint)
            case None => e == p
            case Some(Kanji) => e == p
            case Some(Num) => d > p && e == (if RunPays(s, at, p, d, Num, version, hint) then p else EightEnd(s, at, d, version, hint))
            case Some(An) => l > p && e == (if RunPays(s, at, p, l, An, version, hint) then p else EightEnd(s, at, l, version, hint))
            case _ => p < |s| && e == EightEnd(s, at, p + 1, version, hint)
  {
    hide IdentifyMode, RunWithin8, RunPays, DigitsEnd, AlnumEnd, EightEnd, ModeData;
    RunData(s, p);
    if p == |s| {
      AtEnd(s, hint);
      EightStops(s, at, version, hint);
    } else {
      EightStep(s, at, p, version, hint);
      SomeMode(s, p, hint);
      RunPaysCost(s, at, p, DigitsEnd(s, p), Num, version, hint);
      RunPaysCost(s, at, p, AlnumEnd(s, p), An, version, hint);
    }
  }

  lemma AtEnd(s: seq<Byte>, hint: Mode)
    ensures IdentifyMode(s, |s|, hint) == None
  {}

  // ---- Strings of one kind ----

  lemma {:induction false} AllDigits(s: seq<Byte>, p: nat)
    requires p <= |s| && ModeData(Num, s)
    ensures DigitsEnd(s, p) == |s|
    decreases |s| - p
  {
    hide IsDigit;
    if p < |s| { AllDigits(s, p + 1); }
  }

  lemma OnePiece(s: seq<Byte>, mode: Mode, version: nat, hint: Mode)
    requires s != [] && NextPiece(s, 0, version, hint) == Piece(mode, |s|)
    ensures Pieces(s, 0, version, hint) == [Entry(mode, s)]
  {
    hide NextPiece;
    PiecesStep(s, 0, version, hint);
    PiecesStep(s, |s|, version, hint);
    assert s[0..|s|] == s;
  }

  /** A string of digits is one numeric segment. */
  lemma DigitsOnly(s: seq<Byte>, version: nat, hint: Mode)
    requires s != [] && ModeData(Num, s)
    ensures Pieces(s, 0, version, hint) == [Entry(Num, s)]
  {
    hide IsDigit, NextPiece, DigitsEnd;
    AllDigits(s, 0);
    AtEnd(s, hint);
    DigitsAlone(s, 0, version, hint);
    OnePiece(s, Num, version, hint);
  }

  lemma {:induction false} AllLetters(s: seq<Byte>, p: nat, version: nat)
    requires p <= |s| && ModeData(An, s) && forall i :: 0 <= i < |s| ==> !IsDigit(s[i])
    ensures AnEnd(s, 0, p, version) == |s|
    decreases |s| - p
  {
    hide IsDigit, LookAn, NumWithinAn;
    if p < |s| { AllLetters(s, p + 1, version); }
  }

  /** A string of alphanumeric characters other than digits is one alphanumeric segment. */
  lemma LettersOnly(s: seq<Byte>, version: nat, hint: Mode)
    requires s != [] && ModeData(An, s) && forall i :: 0 <= i < |s| ==> !IsDigit(s[i])
    ensures Pieces(s, 0, version, hint) == [Entry(An, s)]
  {
    hide IsDigit, LookAn, AnEnd, EightPiece, NumPiece;
    AllLetters(s, 0, version);
    LettersAlone(s, 0, version, hint);
    OnePiece(s, An, version, hint);
  }

  lemma {:induction false} AllBytes(s: seq<Byte>, p: nat, version: nat, hint: Mode)
    requires 1 <= p <= |s| && forall i :: 0 <= i < |s| ==> IdentifyMode(s, i, hint) == Some(Eight)
    ensures EightEnd(s, 0, p, version, hint) == |s|
    decreases |s| - p
  {
    hide IdentifyMode, EightEnd, RunPays, DigitsEnd, AlnumEnd, ModeData;
    BytesStep(s, 0, p, version, hint);
    if p < |s| { AllBytes(s, p + 1, version, hint); } else { AtEnd(s, hint); }
  }

  /** A string without characters of the other modes is one 8-bit segment. */
  lemma BytesOnly(s: seq<Byte>, version: nat, hint: Mode)
    requires s != [] && forall i :: 0 <= i < |s| ==> IdentifyMode(s, i, hint) == Some(Eight)
    ensures Pieces(s, 0, version, hint) == [Entry(Eight, s)]
  {
    hide IdentifyMode, EightEnd, NumPiece, AnPiece, KanjiPiece;
    AllBytes(s, 1, version, hint);
    OnePiece(s, Eight, version, hint);
  }

  lemma {:induction false} AllKanji(s: seq<Byte>, p: nat)
    requires p <= |s| && KanjiData(s[p..])
    ensures KanjiEnd(s, p, Kanji) == |s|
    decreases |s| - p
  {
    hide IsKanji, KanjiEnd;
    if p < |s| {
      assert s[p..][2..] == s[p + 2..];
      AllKanji(s, p + 2);
      KanjiFirst(s, p);
      KanjiEndStep(s, p);
    } else {
      AtEnd(s, Kanji);
      KanjiEndStep(s, p);
    }
  }

  lemma KanjiEndStep(s: seq<Byte>, p: nat)
    requires p <= |s|
    ensures IdentifyMode(s, p, Kanji) == Some(Kanji) ==> p + 2 <= |s| && KanjiEnd(s, p, Kanji) == KanjiEnd(s, p + 2, Kanji)
    ensures IdentifyMode(s, p, Kanji) != Some(Kanji) ==> KanjiEnd(s, p, Kanji) == p
  {
    hide IsKanji, IsDigit, IsAlnum;
  }

  /** The first byte of a Kanji character is no alphanumeric character. */
  lemma KanjiFirst(s: seq<Byte>, p: nat)
    requires p + 1 < |s| && IsKanji(s[p], s[p + 1])
    ensures IdentifyMode(s, p, Kanji) == Some(Kanji)
  {}

  /** With the Kanji hint a string of Kanji characters is one Kanji segment. */
  lemma KanjiOnly(s: seq<Byte>, version: nat)
    requires s != [] && KanjiData(s)
    ensures Pieces(s, 0, version, Kanji) == [Entry(Kanji, s)]
  {
    hide IsKanji, KanjiEnd, NumPiece, AnPiece, EightPiece;
    assert s[0..] == s;
    KanjiFirst(s, 0);
    AllKanji(s, 0);
    OnePiece(s, Kanji, version, Kanji);
  }

  // ---- Upper case ----

  /** A lower case letter, and the same letter in upper case. */
  lemma Letters(b: Byte)
    ensures ToUpper(b) != b <==> 'a' as int <= Ord(b) <= 'z' as int
    ensures ToUpper(b) != b ==> Ord(ToUpper(b)) == Ord(b) - 'a' as int + 'A' as int
    ensures !('a' as int <= Ord(ToUpper(b)) <= 'z' as int)
  {
    hide Ord, Chr;
    OrdFacts(ToUpper(b), b);
  }

  lemma KanjiHint(s: seq<Byte>, p: nat, hint: Mode)
    requires p <= |s|
    ensures IdentifyMode(s, p, hint) == Some(Kanji) ==> hint == Kanji && p + 1 < |s|
  {
    hide IsDigit, IsAlnum, IsKanji;
  }

  /** Every byte stays, or is a lower case letter that becomes the upper case one. Without the Kanji
      hint no lower case letter is left; with it, those that are left are in Kanji characters. */
  lemma {:induction false} UpperCase(s: seq<Byte>, p: nat, hint: Mode, i: nat)
    requires p <= i < |s|
    ensures var t := UpperFrom(s, p, hint);
            && (t[i - p] == s[i] || t[i - p] == ToUpper(s[i]))
            && (t[i - p] == ToUpper(s[i])
                || (hint == Kanji && ((i + 1 < |s| && IdentifyMode(s, i, hint) == Some(Kanji))
                                      || (i > p && IdentifyMode(s, i - 1, hint) == Some(Kanji)))))
    decreases |s| - p
  {
    hide ToUpper, IdentifyMode, UpperFrom;
    UpperStep(s, p, hint);
    KanjiHint(s, p, hint);
    if IdentifyMode(s, p, hint) == Some(Kanji) {
      if i >= p + 2 { UpperCase(s, p + 2, hint, i); }
    } else {
      if i > p { UpperCase(s, p + 1, hint, i); }
    }
  }

  /** A string is converted unless it is to be taken as it is. */
  lemma PreparedCase(s: seq<Byte>, hint: Mode, i: nat)
    requires i < |s|
    ensures Prepared(s, hint, true) == s && |Prepared(s, hint, false)| == |s|
    ensures hint != Kanji ==> Prepared(s, hint, false)[i] == ToUpper(s[i])
  {
    hide ToUpper, IdentifyMode, UpperFrom;
    UpperCase(s, 0, hint, i);
  }
}
