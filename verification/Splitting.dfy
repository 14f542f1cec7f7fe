/** Cutting a string into segments of different modes. */
module Splitting {
  import opened GF256
  import opened QRSpec
  import opened Segments
  import opened Estimate
  import opened RoundTrip
  import opened Inputs

  /** A C string: no byte before its end is zero. */
  predicate NulFree(s: seq<Byte>) { forall i :: 0 <= i < |s| ==> s[i] != 0 }

  /** The character at p, which is zero at the end of the string. */
  function CharAt(s: seq<Byte>, p: nat): Byte
    requires p <= |s|
  {
    if p < |s| then s[p] else 0
  }

  lemma EndOfString(s: seq<Byte>, p: nat)
    requires NulFree(s) && p <= |s|
    ensures CharAt(s, p) == 0 <==> p == |s|
    ensures p == |s| ==> !IsDigit(CharAt(s, p)) && !IsAlnum(CharAt(s, p))
  {}

  predicate IsAlnum(b: Byte) { LookAn(b) >= 0 }

  lemma DigitIsAlnum(b: Byte)
    requires IsDigit(b)
    ensures IsAlnum(b)
  {}

  /** The mode of the character at p; none at the end of the string. */
  function IdentifyMode(s: seq<Byte>, p: nat, hint: Mode): Option<Mode>
    requires p <= |s|
  {
    if p == |s| then None
    else if IsDigit(s[p]) then Some(Num)
    else if IsAlnum(s[p]) then Some(An)
    else if hint == Kanji && p + 1 < |s| && IsKanji(s[p], s[p + 1]) then Some(Kanji)
    else Some(Eight)
  }

  // ---- The ends of runs ----

  function DigitsEnd(s: seq<Byte>, p: nat): (q: nat)
    requires p <= |s|
    ensures p <= q <= |s| && (forall i :: p <= i < q ==> IsDigit(s[i])) && (q < |s| ==> !IsDigit(s[q]))
    decreases |s| - p
  {
    if p < |s| && IsDigit(s[p]) then DigitsEnd(s, p + 1) else p
  }

  function AlnumEnd(s: seq<Byte>, p: nat): (q: nat)
    requires p <= |s|
    ensures p <= q <= |s| && (forall i :: p <= i < q ==> IsAlnum(s[i])) && (q < |s| ==> !IsAlnum(s[q]))
    decreases |s| - p
  {
    if p < |s| && IsAlnum(s[p]) then AlnumEnd(s, p + 1) else p
  }

  // ---- Costs of switching the mode ----

  /** The extra cost of a numeric segment of run digits before one 8-bit byte. */
  function NumBefore8(run: nat, version: nat): int {
    EstimateBitsNum(run) + 4 + LengthIndicator(Num, version) + EstimateBits8(1) - EstimateBits8(run + 1)
  }

  function NumBeforeAn(run: nat, version: nat): int {
    EstimateBitsNum(run) + 4 + LengthIndicator(Num, version) + EstimateBitsAn(1) - EstimateBitsAn(run + 1)
  }

  function AnBefore8(run: nat, version: nat): int {
    EstimateBitsAn(run) + 4 + LengthIndicator(An, version) + EstimateBits8(1) - EstimateBits8(run + 1)
  }

  /** The extra cost of leaving alphanumeric mode for digits after `before` characters; a switch back
      is charged with the numeric length field. */
  function NumWithinAn(before: nat, digits: nat, back: bool, version: nat): int {
    EstimateBitsAn(before) + EstimateBitsNum(digits) + 4 + LengthIndicator(Num, version)
    + (if back then 4 + LengthIndicator(Num, version) else 0)
    - EstimateBitsAn(before + digits)
  }

  /** The extra cost of leaving 8-bit mode for a run in another mode. */
  function RunWithin8(mode: Mode, before: nat, run: nat, back: bool, version: nat): int {
    EstimateBits8(before) + EstimateBits(mode, run) + 4 + LengthIndicator(mode, version)
    + (if back then 4 + LengthIndicator(Eight, version) else 0)
    - EstimateBits8(before + run)
  }

  // ---- One segment ----

  /** The end of the alphanumeric segment from `at`, when everything before p belongs to it. */
  function AnEnd(s: seq<Byte>, at: nat, p: nat, version: nat): (e: nat)
    requires at <= p <= |s| && forall i :: at <= i < p ==> IsAlnum(s[i])
    ensures p <= e <= |s| && forall i :: at <= i < e ==> IsAlnum(s[i])
    decreases |s| - p
  {
    if p == |s| || !IsAlnum(s[p]) then p
    else if IsDigit(s[p]) then
      var q := DigitsEnd(s, p);
      var back := q < |s| && IsAlnum(s[q]);
      if NumWithinAn(p - at, q - p, back, version) < 0 then p
      else AnEnd(s, at, q, version)
    else AnEnd(s, at, p + 1, version)
  }

  /** The end of the 8-bit segment from `at`, when everything before p belongs to it. */
  function EightEnd(s: seq<Byte>, at: nat, p: nat, version: nat, hint: Mode): (e: nat)
    requires at < p <= |s|
    ensures p <= e <= |s|
    decreases |s| - p
  {
    if p == |s| then p
    else
      match IdentifyMode(s, p, hint).value
      case Kanji => p
      case Num =>
        var q := DigitsEnd(s, p);
        if RunWithin8(Num, p - at, q - p, IdentifyMode(s, q, hint) == Some(Eight), version) < 0 then p
        else EightEnd(s, at, q, version, hint)
      case An =>
        var q := AlnumEnd(s, p);
        if RunWithin8(An, p - at, q - p, IdentifyMode(s, q, hint) == Some(Eight), version) < 0 then p
        else EightEnd(s, at, q, version, hint)
      case _ => EightEnd(s, at, p + 1, version, hint)
  }

  function KanjiEnd(s: seq<Byte>, p: nat, hint: Mode): (e: nat)
    requires p <= |s|
    ensures p <= e <= |s|
    ensures KanjiData(s[p..e])
    ensures IdentifyMode(s, p, hint) == Some(Kanji) ==> e >= p + 2
    ensures IdentifyMode(s, e, hint) != Some(Kanji)
    decreases |s| - p
  {
    if IdentifyMode(s, p, hint) == Some(Kanji) then
      var e := KanjiEnd(s, p + 2, hint);
      assert s[p..e][2..] == s[p + 2..e];
      e
    else p
  }

  /** The segment that starts at a place: its mode and its end. */
  datatype Piece = Piece(mode: Mode, end: nat)

  function KanjiPiece(s: seq<Byte>, at: nat, hint: Mode): Piece
    requires at <= |s|
  {
    Piece(Kanji, KanjiEnd(s, at, hint))
  }

  function EightPiece(s: seq<Byte>, at: nat, version: nat, hint: Mode): Piece
    requires at < |s|
  {
    Piece(Eight, EightEnd(s, at, at + 1, version, hint))
  }

  function AnPiece(s: seq<Byte>, at: nat, version: nat, hint: Mode): Piece
    requires at < |s|
  {
    var p := AnEnd(s, at, at, version);
    if p < |s| && !IsAlnum(s[p]) && AnBefore8(p - at, version) > 0 then EightPiece(s, at, version, hint)
    else Piece(An, p)
  }

  function NumPiece(s: seq<Byte>, at: nat, version: nat, hint: Mode): Piece
    requires at < |s|
  {
    var p := DigitsEnd(s, at);
    var mode := IdentifyMode(s, p, hint);
    if mode == Some(Eight) && NumBefore8(p - at, version) > 0 then EightPiece(s, at, version, hint)
    else if mode == Some(An) && NumBeforeAn(p - at, version) > 0 then AnPiece(s, at, version, hint)
    else Piece(Num, p)
  }

  function NextPiece(s: seq<Byte>, at: nat, version: nat, hint: Mode): Piece
    requires at < |s|
  {
    match IdentifyMode(s, at, hint).value
    case Num => NumPiece(s, at, version, hint)
    case An => AnPiece(s, at, version, hint)
    case Kanji => KanjiPiece(s, at, hint)
    case _ => EightPiece(s, at, version, hint)
  }

  // ---- Every step makes progress ----

  /** When digits are cheaper as a part of an alphanumeric segment, that segment does not refuse them. */
  lemma CostsAgree(run: nat, version: nat)
    requires NumBeforeAn(run, version) > 0
    ensures NumWithinAn(0, run, true, version) >= 0
  {}

  ghost predicate Progress(s: seq<Byte>, at: nat, p: Piece, hint: Mode)
    requires at <= |s|
  {
    && at < p.end <= |s| && p.mode != Structure && Check(Entry(p.mode, s[at..p.end]))
    && (p.mode == Kanji ==> hint == Kanji)
  }

  lemma EightProgress(s: seq<Byte>, at: nat, version: nat, hint: Mode)
    requires at < |s|
    ensures Progress(s, at, EightPiece(s, at, version, hint), hint)
  {
    hide EightEnd;
  }

  lemma AnProgress(s: seq<Byte>, at: nat, version: nat, hint: Mode)
    requires at < |s| && AnEnd(s, at, at, version) > at
    ensures Progress(s, at, AnPiece(s, at, version, hint), hint)
  {
    hide AnEnd, EightPiece, AnBefore8, LookAn;
    EightProgress(s, at, version, hint);
  }

  lemma NumProgress(s: seq<Byte>, at: nat, version: nat, hint: Mode)
    requires at < |s| && IsDigit(s[at])
    ensures Progress(s, at, NumPiece(s, at, version, hint), hint)
  {
    hide AnPiece, EightPiece, NumBefore8, NumBeforeAn, NumWithinAn, LookAn, IsDigit, IsKanji, Progress;
    EightProgress(s, at, version, hint);
    var p := DigitsEnd(s, at);
    if IdentifyMode(s, p, hint) == Some(An) && NumBeforeAn(p - at, version) > 0 {
      CostsAgree(p - at, version);
      DigitIsAlnum(s[at]);
      AnProgress(s, at, version, hint);
    } else {
      DigitsProgress(s, at, hint);
    }
  }

  lemma DigitsProgress(s: seq<Byte>, at: nat, hint: Mode)
    requires at < |s| && IsDigit(s[at])
    ensures Progress(s, at, Piece(Num, DigitsEnd(s, at)), hint)
  {
    hide IsDigit;
  }

  /** Each step eats at least one byte, and what it eats is valid for its mode. */
  lemma EatProgress(s: seq<Byte>, at: nat, version: nat, hint: Mode)
    requires at < |s|
    ensures Progress(s, at, NextPiece(s, at, version, hint), hint)
  {
    hide NumPiece, AnPiece, EightPiece, LookAn, IsDigit, IsKanji, AnEnd;
    match IdentifyMode(s, at, hint).value
    case Num => NumProgress(s, at, version, hint);
    case An =>
      assert AnEnd(s, at, at, version) > at by { AnStarts(s, at, version); }
      AnProgress(s, at, version, hint);
    case Kanji =>
    case _ => EightProgress(s, at, version, hint);
  }

  lemma AnStarts(s: seq<Byte>, at: nat, version: nat)
    requires at < |s| && IsAlnum(s[at]) && !IsDigit(s[at])
    ensures AnEnd(s, at, at, version) > at
  {}

  /** The segments of the string from a place on. */
  function Pieces(s: seq<Byte>, at: nat, version: nat, hint: Mode): seq<Entry>
    requires at <= |s|
    decreases |s| - at
  {
    if at == |s| then []
    else
      EatProgress(s, at, version, hint);
      var p := NextPiece(s, at, version, hint);
      [Entry(p.mode, s[at..p.end])] + Pieces(s, p.end, version, hint)
  }

  /** All segments are accepted as input, and together they are the string. */
  lemma {:induction false} PiecesJoin(s: seq<Byte>, at: nat, version: nat, hint: Mode)
    requires at <= |s|
    ensures Joined(Pieces(s, at, version, hint)) == s[at..]
    ensures forall i :: 0 <= i < |Pieces(s, at, version, hint)| ==>
              var e := Pieces(s, at, version, hint)[i];
              Check(e) && e.mode != Structure && (e.mode == Kanji ==> hint == Kanji)
    decreases |s| - at
  {
    hide NextPiece, Check, ModeData;
    if at < |s| {
      EatProgress(s, at, version, hint);
      var p := NextPiece(s, at, version, hint);
      PiecesJoin(s, p.end, version, hint);
      var ps := Pieces(s, at, version, hint);
      assert ps[1..] == Pieces(s, p.end, version, hint);
      assert s[at..] == s[at..p.end] + s[p.end..];
    }
  }

  // ---- The loops ----

  method SkipDigits(s: seq<Byte>, p: nat) returns (q: nat)
    requires NulFree(s) && p <= |s|
    ensures q == DigitsEnd(s, p)
  {
    hide IsDigit, CharAt;
    q := p;
    EndOfString(s, q); CharIs(s, q);
    while IsDigit(CharAt(s, q))
      invariant p <= q <= |s| && DigitsEnd(s, q) == DigitsEnd(s, p)
      invariant q == |s| ==> !IsDigit(CharAt(s, q))
      invariant q < |s| ==> CharAt(s, q) == s[q]
      decreases |s| - q
    {
      q := q + 1;
      EndOfString(s, q); CharIs(s, q);
    }
  }

  method SkipAlnum(s: seq<Byte>, p: nat) returns (q: nat)
    requires NulFree(s) && p <= |s|
    ensures q == AlnumEnd(s, p)
  {
    hide IsAlnum, CharAt;
    q := p;
    EndOfString(s, q); CharIs(s, q);
    while IsAlnum(CharAt(s, q))
      invariant p <= q <= |s| && AlnumEnd(s, q) == AlnumEnd(s, p)
      invariant q == |s| ==> !IsAlnum(CharAt(s, q))
      invariant q < |s| ==> CharAt(s, q) == s[q]
      decreases |s| - q
    {
      q := q + 1;
      EndOfString(s, q); CharIs(s, q);
    }
  }

  lemma CharIs(s: seq<Byte>, p: nat)
    requires p <= |s|
    ensures p < |s| ==> CharAt(s, p) == s[p]
  {}

  /** The segment of piece p, from `at` on, is appended. */
  twostate predicate Appended(input: QRInput, s: seq<Byte>, at: nat, p: Piece, run: int)
    requires at <= p.end <= |s|
    reads input
  {
    && input.Valid() && run == p.end - at
    && input.entries == old(input.entries) + [Entry(p.mode, s[at..p.end])]
  }

  method EatKanji(s: seq<Byte>, at: nat, input: QRInput, hint: Mode) returns (run: int)
    requires NulFree(s) && at < |s| && IdentifyMode(s, at, hint) == Some(Kanji) && input.Valid()
    modifies input`entries
    ensures at < KanjiPiece(s, at, hint).end <= |s| && Appended(input, s, at, KanjiPiece(s, at, hint), run)
  {
    hide IdentifyMode;
    var p := at;
    while IdentifyMode(s, p, hint) == Some(Kanji)
      invariant at <= p <= |s| && KanjiEnd(s, p, hint) == KanjiEnd(s, at, hint)
      decreases |s| - p
    {
      p := p + 2;
    }
    run := p - at;
    var ret := input.Append(Kanji, s[at..at + run]);
    if ret < 0 { return -1; }
  }

  /** One step of the 8-bit segment, when the character at p is not its end. */
  lemma EightStep(s: seq<Byte>, at: nat, p: nat, version: nat, hint: Mode)
    requires at < p < |s|
    ensures IdentifyMode(s, p, hint).Some?
    ensures var e := EightEnd(s, at, p, version, hint);
            match IdentifyMode(s, p, hint).value
            case Kanji => e == p
            case Num =>
              var q := DigitsEnd(s, p);
              q > p && e == if RunWithin8(Num, p - at, q - p, IdentifyMode(s, q, hint) == Some(Eight), version) < 0 then p
                            else EightEnd(s, at, q, version, hint)
            case An =>
              var q := AlnumEnd(s, p);
              q > p && e == if RunWithin8(An, p - at, q - p, IdentifyMode(s, q, hint) == Some(Eight), version) < 0 then p
                            else EightEnd(s, at, q, version, hint)
            case _ => e == EightEnd(s, at, p + 1, version, hint)
  {
    hide RunWithin8, IdentifyMode, DigitsEnd, AlnumEnd, EightEnd;
    SomeMode(s, p, hint);
    EightIs(s, at, p, version, hint);
  }

  lemma EightIs(s: seq<Byte>, at: nat, p: nat, version: nat, hint: Mode)
    requires at < p < |s| && IdentifyMode(s, p, hint).Some?
    ensures var e := EightEnd(s, at, p, version, hint);
            var d, l := DigitsEnd(s, p), AlnumEnd(s, p);
            match IdentifyMode(s, p, hint).value
            case Kanji => e == p
            case Num => e == if RunWithin8(Num, p - at, d - p, IdentifyMode(s, d, hint) == Some(Eight), version) < 0 then p
                             else EightEnd(s, at, d, version, hint)
            case An => e == if RunWithin8(An, p - at, l - p, IdentifyMode(s, l, hint) == Some(Eight), version) < 0 then p
                            else EightEnd(s, at, l, version, hint)
            case _ => e == EightEnd(s, at, p + 1, version, hint)
  {
    hide RunWithin8, DigitsEnd, AlnumEnd, IdentifyMode;
  }

  /** The end of the 8-bit segment that starts at `at`. */
  method Scan8(s: seq<Byte>, at: nat, version: nat, hint: Mode) returns (p: nat)
    requires NulFree(s) && at < |s|
    ensures p == EightEnd(s, at, at + 1, version, hint)
  {
    hide CharAt, IdentifyMode, EightEnd, IsDigit, IsAlnum;
    hide EstimateBitsNum, EstimateBitsAn, EstimateBits8, LengthIndicator;
    var la := LengthIndicator(An, version);
    var ln := LengthIndicator(Num, version);
    var l8 := LengthIndicator(Eight, version);
    p := at + 1;
    EndOfString(s, p); EightStops(s, at, version, hint);
    while CharAt(s, p) != 0
      invariant at < p <= |s| && EightEnd(s, at, p, version, hint) == EightEnd(s, at, at + 1, version, hint)
      invariant CharAt(s, p) == 0 <==> p == |s|
      decreases |s| - p
    {
      EightStep(s, at, p, version, hint);
      var mode := IdentifyMode(s, p, hint);
      if mode == Some(Kanji) { return; }
      if mode == Some(Num) {
        var q := SkipDigits(s, p);
        var swcost := if IdentifyMode(s, q, hint) == Some(Eight) then 4 + l8 else 0;
        var dif := EstimateBits8(p - at) + EstimateBitsNum(q - p) + 4 + ln + swcost - EstimateBits8(q - at);
        if dif < 0 { return; }
        p := q;
      } else if mode == Some(An) {
        var q := SkipAlnum(s, p);
        var swcost := if IdentifyMode(s, q, hint) == Some(Eight) then 4 + l8 else 0;
        var dif := EstimateBits8(p - at) + EstimateBitsAn(q - p) + 4 + la + swcost - EstimateBits8(q - at);
        if dif < 0 { return; }
        p := q;
      } else {
        p := p + 1;
      }
      EndOfString(s, p);
    }
  }

  lemma EightStops(s: seq<Byte>, at: nat, version: nat, hint: Mode)
    requires at < |s|
    ensures EightEnd(s, at, |s|, version, hint) == |s|
  {}

  /** Append a segment that is valid for its mode. */
  method AppendPiece(s: seq<Byte>, at: nat, p: nat, mode: Mode, input: QRInput, hint: Mode) returns (run: int)
    requires at <= |s| && Progress(s, at, Piece(mode, p), hint) && input.Valid()
    modifies input`entries
    ensures at < p <= |s| && Appended(input, s, at, Piece(mode, p), run)
  {
    hide ModeData;
    run := p - at;
    var ret := input.Append(mode, s[at..at + run]);
    if ret < 0 { return -1; }
  }

  method Eat8(s: seq<Byte>, at: nat, input: QRInput, hint: Mode) returns (run: int)
    requires NulFree(s) && at < |s| && input.Valid()
    modifies input`entries
    ensures at < EightPiece(s, at, input.version, hint).end <= |s|
    ensures Appended(input, s, at, EightPiece(s, at, input.version, hint), run)
  {
    hide EightEnd, Progress;
    EightProgress(s, at, input.version, hint);
    var p := Scan8(s, at, input.version, hint);
    run := AppendPiece(s, at, p, Eight, input, hint);
  }

  /** A character has a mode; that of a digit or of an alphanumeric character starts a run. */
  lemma SomeMode(s: seq<Byte>, p: nat, hint: Mode)
    requires p < |s|
    ensures IdentifyMode(s, p, hint).Some?
    ensures IdentifyMode(s, p, hint).value in {Num, An, Kanji, Eight}
    ensures IdentifyMode(s, p, hint) == Some(Num) ==> DigitsEnd(s, p) > p
    ensures IdentifyMode(s, p, hint) == Some(An) ==> AlnumEnd(s, p) > p
  {}

  lemma AnStep(s: seq<Byte>, at: nat, p: nat, version: nat)
    requires at <= p < |s| && (forall i :: at <= i < p ==> IsAlnum(s[i])) && IsAlnum(s[p])
    ensures IsDigit(s[p]) ==>
              var q := DigitsEnd(s, p);
              && q > p && (forall i :: at <= i < q ==> IsAlnum(s[i]))
              && AnEnd(s, at, p, version)
                 == if NumWithinAn(p - at, q - p, q < |s| && IsAlnum(s[q]), version) < 0 then p else AnEnd(s, at, q, version)
    ensures !IsDigit(s[p]) ==>
              (forall i :: at <= i < p + 1 ==> IsAlnum(s[i])) && AnEnd(s, at, p, version) == AnEnd(s, at, p + 1, version)
  {
    hide IsAlnum, IsDigit, NumWithinAn;
    DigitsAlnum(s, p);
  }

  lemma AnStops(s: seq<Byte>, at: nat, p: nat, version: nat)
    requires at <= p <= |s| && (forall i :: at <= i < p ==> IsAlnum(s[i])) && (p < |s| ==> !IsAlnum(s[p]))
    ensures AnEnd(s, at, p, version) == p
  {
    hide IsAlnum;
  }

  /** The end of the alphanumeric segment that starts at `at`. */
  method ScanAn(s: seq<Byte>, at: nat, version: nat) returns (p: nat)
    requires NulFree(s) && at < |s|
    ensures p == AnEnd(s, at, at, version)
  {
    hide CharAt, AnEnd, IsDigit, IsAlnum, EstimateBitsNum, EstimateBitsAn, LengthIndicator;
    var ln := LengthIndicator(Num, version);
    p := at;
    EndOfString(s, p); CharIs(s, p);
    while IsAlnum(CharAt(s, p))
      invariant at <= p <= |s| && forall i :: at <= i < p ==> IsAlnum(s[i])
      invariant AnEnd(s, at, p, version) == AnEnd(s, at, at, version)
      invariant p == |s| ==> !IsAlnum(CharAt(s, p))
      invariant p < |s| ==> CharAt(s, p) == s[p]
      decreases |s| - p
    {
      AnStep(s, at, p, version);
      if IsDigit(CharAt(s, p)) {
        var q := SkipDigits(s, p);
        EndOfString(s, q); CharIs(s, q);
        var dif := EstimateBitsAn(p - at) + EstimateBitsNum(q - p) + 4 + ln
                   + (if IsAlnum(CharAt(s, q)) then 4 + ln else 0) - EstimateBitsAn(q - at);
        if dif < 0 { return; }
        p := q;
      } else {
        p := p + 1;
      }
      EndOfString(s, p); CharIs(s, p);
    }
    AnStops(s, at, p, version);
  }

  method EatAn(s: seq<Byte>, at: nat, input: QRInput, hint: Mode) returns (run: int)
    requires NulFree(s) && at < |s| && AnEnd(s, at, at, input.version) > at && input.Valid()
    modifies input`entries
    ensures at < AnPiece(s, at, input.version, hint).end <= |s|
    ensures Appended(input, s, at, AnPiece(s, at, input.version, hint), run)
  {
    hide CharAt, IsAlnum, AnEnd, EstimateBitsAn, EstimateBits8, LengthIndicator, EightPiece, Progress;
    ghost var version := input.version;
    AnProgress(s, at, version, hint);
    var la := LengthIndicator(An, input.version);
    var p := ScanAn(s, at, input.version);
    EndOfString(s, p); CharIs(s, p);
    if CharAt(s, p) != 0 && !IsAlnum(CharAt(s, p)) {
      var dif := EstimateBitsAn(p - at) + 4 + la + EstimateBits8(1) - EstimateBits8(p - at + 1);
      if dif > 0 {
        run := Eat8(s, at, input, hint);
        return;
      }
    }
    run := AppendPiece(s, at, p, An, input, hint);
  }

  lemma DigitsAlnum(s: seq<Byte>, p: nat)
    requires p <= |s|
    ensures forall i :: p <= i < DigitsEnd(s, p) ==> IsAlnum(s[i])
    ensures p < |s| && IsDigit(s[p]) ==> DigitsEnd(s, p) > p
  {
    forall i | p <= i < DigitsEnd(s, p) ensures IsAlnum(s[i]) { DigitIsAlnum(s[i]); }
  }

  method EatNum(s: seq<Byte>, at: nat, input: QRInput, hint: Mode) returns (run: int)
    requires NulFree(s) && at < |s| && IsDigit(s[at]) && input.Valid()
    modifies input`entries
    ensures at < NumPiece(s, at, input.version, hint).end <= |s|
    ensures Appended(input, s, at, NumPiece(s, at, input.version, hint), run)
  {
    hide IsDigit, EstimateBitsNum, EstimateBitsAn, EstimateBits8, LengthIndicator, EightPiece, AnPiece;
    hide IdentifyMode, Progress;
    ghost var version := input.version;
    NumProgress(s, at, version, hint);
    var ln := LengthIndicator(Num, input.version);
    var p := SkipDigits(s, at);
    run := p - at;
    var mode := IdentifyMode(s, p, hint);
    if mode == Some(Eight) {
      var dif := EstimateBitsNum(run) + 4 + ln + EstimateBits8(1) - EstimateBits8(run + 1);
      if dif > 0 {
        run := Eat8(s, at, input, hint);
        return;
      }
    }
    if mode == Some(An) {
      var dif := EstimateBitsNum(run) + 4 + ln + EstimateBitsAn(1) - EstimateBitsAn(run + 1);
      if dif > 0 {
        AnAfterDigits(s, at, version, hint);
        run := EatAn(s, at, input, hint);
        return;
      }
    }
    run := AppendPiece(s, at, p, Num, input, hint);
  }

  lemma AnAfterDigits(s: seq<Byte>, at: nat, version: nat, hint: Mode)
    requires at < |s| && IsDigit(s[at])
    requires IdentifyMode(s, DigitsEnd(s, at), hint) == Some(An) && NumBeforeAn(DigitsEnd(s, at) - at, version) > 0
    ensures AnEnd(s, at, at, version) > at
  {
    CostsAgree(DigitsEnd(s, at) - at, version);
    DigitIsAlnum(s[at]);
    hide NumBeforeAn, NumWithinAn, LookAn, IsDigit;
  }

  lemma PiecesStep(s: seq<Byte>, at: nat, version: nat, hint: Mode)
    requires at <= |s|
    ensures at == |s| ==> Pieces(s, at, version, hint) == []
    ensures at < |s| ==>
              var p := NextPiece(s, at, version, hint);
              at < p.end <= |s|
              && Pieces(s, at, version, hint) == [Entry(p.mode, s[at..p.end])] + Pieces(s, p.end, version, hint)
  {
    hide NextPiece;
    if at < |s| { EatProgress(s, at, version, hint); }
  }

  /** Append the segments of the string from `at` on. */
  method SplitString(s: seq<Byte>, at: nat, input: QRInput, hint: Mode) returns (ret: int)
    requires NulFree(s) && at <= |s| && input.Valid()
    modifies input`entries
    ensures input.Valid() && ret == 0
    ensures input.entries == old(input.entries) + Pieces(s, at, input.version, hint)
    decreases |s| - at
  {
    hide CharAt, IsDigit, IsAlnum, NumPiece, AnPiece, EightPiece, KanjiPiece, IsKanji, Pieces, AnEnd, Progress;
    EndOfString(s, at);
    PiecesStep(s, at, input.version, hint);
    if CharAt(s, at) == 0 { return 0; }
    SomeMode(s, at, hint);
    var mode := IdentifyMode(s, at, hint);
    var length: int;
    if mode == Some(Num) {
      length := EatNum(s, at, input, hint);
    } else if mode == Some(An) {
      assert AnEnd(s, at, at, input.version) > at by { AnStarts(s, at, input.version); }
      length := EatAn(s, at, input, hint);
    } else if mode == Some(Kanji) && hint == Kanji {
      length := EatKanji(s, at, input, hint);
    } else {
      length := Eat8(s, at, input, hint);
    }
    if length == 0 { return 0; }
    if length < 0 { return -1; }
    ret := SplitString(s, at + length, input, hint);
  }

  // ---- Upper case ----

  function ToUpper(b: Byte): Byte { if 97 <= Ord(b) <= 122 then Chr(Ord(b) - 32) else b }

  lemma ToUpperNotNul(b: Byte)
    requires b != 0
    ensures ToUpper(b) != 0
  {
    OrdFacts(b, 0);
    assert Ord(0) == 0;
    if 97 <= Ord(b) <= 122 { OrdFacts(ToUpper(b), 0); }
  }

  /** The string from p on in upper case; Kanji characters stay as they are. */
  function UpperFrom(s: seq<Byte>, p: nat, hint: Mode): (t: seq<Byte>)
    requires p <= |s|
    ensures |t| == |s| - p
    decreases |s| - p
  {
    if p == |s| then []
    else if IdentifyMode(s, p, hint) == Some(Kanji) then [s[p], s[p + 1]] + UpperFrom(s, p + 2, hint)
    else [ToUpper(s[p])] + UpperFrom(s, p + 1, hint)
  }

  function Upper(s: seq<Byte>, hint: Mode): seq<Byte> { UpperFrom(s, 0, hint) }

  lemma {:induction false} UpperNulFree(s: seq<Byte>, p: nat, hint: Mode)
    requires NulFree(s) && p <= |s|
    ensures NulFree(UpperFrom(s, p, hint))
    decreases |s| - p
  {
    hide ToUpper, IsDigit, IsAlnum, IsKanji;
    if p < |s| {
      ToUpperNotNul(s[p]);
      if IdentifyMode(s, p, hint) == Some(Kanji) { UpperNulFree(s, p + 2, hint); }
      else { UpperNulFree(s, p + 1, hint); }
    }
  }

  /** The mode depends on the string from p on only. */
  lemma IdentifySame(s: seq<Byte>, t: seq<Byte>, p: nat, hint: Mode)
    requires p <= |s| == |t| && forall i :: p <= i < |s| ==> s[i] == t[i]
    ensures IdentifyMode(s, p, hint) == IdentifyMode(t, p, hint)
  {
    hide IsDigit, IsAlnum, IsKanji;
  }

  lemma UpperStep(s: seq<Byte>, p: nat, hint: Mode)
    requires p < |s|
    ensures IdentifyMode(s, p, hint) == Some(Kanji) ==>
              p + 2 <= |s| && UpperFrom(s, p, hint) == s[p..p + 2] + UpperFrom(s, p + 2, hint)
    ensures IdentifyMode(s, p, hint) != Some(Kanji) ==>
              UpperFrom(s, p, hint) == [ToUpper(s[p])] + UpperFrom(s, p + 1, hint)
  {
    hide ToUpper, IsDigit, IsAlnum, IsKanji;
  }

  lemma TakePrefix(t: seq<Byte>, p: nat, x: seq<Byte>, rest: seq<Byte>)
    requires p <= |t| && t[p..] == x + rest
    ensures p + |x| <= |t| && t[p + |x|..] == rest
    ensures forall i :: 0 <= i < |x| ==> t[p + i] == x[i]
  {
    assert t[p + |x|..] == t[p..][|x|..];
    assert forall i :: 0 <= i < |x| ==> t[p + i] == t[p..][i];
  }

  /** Convert a copy of the string in place. */
  method DupAndToUpper(str: seq<Byte>, hint: Mode) returns (newstr: array<Byte>)
    requires NulFree(str)
    ensures fresh(newstr) && newstr[..] == Upper(str, hint)
  {
    hide ToUpper, IdentifyMode, UpperFrom;
    newstr := new Byte[|str|](i requires 0 <= i < |str| => str[i]);
    ghost var t := Upper(str, hint);
    var p := 0;
    while p < newstr.Length
      invariant 0 <= p <= newstr.Length == |str|
      invariant forall i :: p <= i < |str| ==> newstr[i] == str[i]
      invariant forall i :: 0 <= i < p ==> newstr[i] == t[i]
      invariant UpperFrom(str, p, hint) == t[p..]
      modifies newstr
    {
      IdentifySame(newstr[..], str, p, hint);
      UpperStep(str, p, hint);
      var mode := IdentifyMode(newstr[..], p, hint);
      if mode == Some(Kanji) {
        TakePrefix(t, p, str[p..p + 2], UpperFrom(str, p + 2, hint));
        p := p + 2;
      } else {
        TakePrefix(t, p, [ToUpper(str[p])], UpperFrom(str, p + 1, hint));
        newstr[p] := ToUpper(newstr[p]);
        p := p + 1;
      }
    }
  }

  /** The string that is encoded. */
  function Prepared(s: seq<Byte>, hint: Mode, casesensitive: bool): seq<Byte> {
    if casesensitive then s else Upper(s, hint)
  }

  /** Append the segments of a string; fails for the empty string. */
  method SplitStringToQRinput(s: seq<Byte>, input: QRInput, hint: Mode, casesensitive: bool) returns (ret: int)
    requires NulFree(s) && input.Valid()
    modifies input`entries
    ensures input.Valid() && ret == if s == [] then -1 else 0
    ensures input.entries == if s == [] then old(input.entries)
                             else old(input.entries) + Pieces(Prepared(s, hint, casesensitive), 0, input.version, hint)
  {
    hide Pieces;
    if s == [] { return -1; }
    if !casesensitive {
      var newstr := DupAndToUpper(s, hint);
      UpperNulFree(s, 0, hint);
      ret := SplitString(newstr[..], 0, input, hint);
    } else {
      ret := SplitString(s, 0, input, hint);
    }
  }
}
