/** Structured append: distributing a message over several symbols. */
module StructuredAppend {
  import opened Arith
  import opened GF256
  import opened QRSpec
  import opened Segments
  import opened Estimate
  import opened RoundTrip
  import opened VersionChoice
  import opened VersionExact
  import opened Inputs

  const MAX_STRUCTURED_SYMBOLS := 16

  type Part = seq<Entry>

  /** Entries as they are appended by a user: checked, and without structured-append headers. */
  predicate Plain(e: Entry) { Check(e) && e.mode != Structure }

  predicate AllPlain(es: seq<Entry>) { forall i :: 0 <= i < |es| ==> Plain(es[i]) }

  lemma PlainValid(es: seq<Entry>)
    requires AllPlain(es)
    ensures AllValid(es)
  {
    hide ModeData;
  }

  function TotalSize(es: seq<Entry>): nat {
    if es == [] then 0 else |es[0].data| + TotalSize(es[1..])
  }

  /** The room that a symbol has next to the structured-append header. */
  function Room(version: nat, level: Level): int
    requires version <= VERSION_MAX
  {
    8 * DataLength(version, level) - STRUCTURE_HEADER_SIZE
  }

  lemma RoomBounds(version: nat, level: Level)
    requires version <= VERSION_MAX
    ensures version >= 1 <==> Room(version, level) > 0
    ensures version >= 1 ==> 52 <= Room(version, level)
    ensures version <= 9 ==> Room(version, level) < 1856
    ensures version <= 26 ==> Room(version, level) < 10960
    ensures Room(version, level) < 23648
  {
    if version >= 1 { DataLengthBounds(version, level); }
  }

  // ---- What fits ----

  /** An empty symbol has room for at least one character of every mode. */
  lemma SomethingFits(mode: Mode, version: nat, level: Level)
    requires 1 <= version <= VERSION_MAX && mode != Structure
    ensures LengthOfCode(mode, version, Room(version, level)) >= 1
  {
    RoomBounds(version, level);
    var n := if mode == Kanji then 2 else 1;
    LengthOfCodeAdjoint(mode, version, Room(version, level), n);
    hide Room, LengthOfCode;
    WordsPositive(mode, version);
  }

  lemma WordsPositive(mode: Mode, version: nat)
    requires mode != Structure
    ensures MaximumWords(mode, version) >= if mode == Kanji then 2 else 1
    ensures LengthIndicator(mode, version) <= 16
    ensures mode == Kanji ==> LengthIndicator(mode, version) <= 12
  {
    assert Pow2(1) == 2;
    PowerMonotone(1, LengthIndicator(mode, version));
  }

  lemma {:induction false} PowerMonotone(a: nat, b: nat)
    requires a <= b
    ensures Pow2(a) <= Pow2(b)
    decreases b - a
  {
    if a < b { PowerMonotone(a, b - 1); }
  }

  /** What the estimate admits into a symbol is short enough for one segment, and the estimate is
      not too low. */
  lemma AdmittedFits(e: Entry, version: nat, level: Level, free: int)
    requires Plain(e) && 1 <= version <= VERSION_MAX
    requires EstimateEntry(e, version) <= free <= Room(version, level)
    ensures ModeData(e.mode, e.data) && !TooLong(e, version)
    ensures |EncodeEntry(e, version)| <= free
  {
    RoomBounds(version, level);
    hide Room, ModeData, EncodeEntry;
    OneSegmentSize(e, version, free);
    EstimateExact(e, version);
  }

  lemma OneSegmentSize(e: Entry, version: nat, free: int)
    requires e.mode != Structure && 1 <= version && EstimateEntry(e, version) <= free
    requires version <= 9 ==> free < 1856
    requires version <= 26 ==> free < 10960
    requires free < 23648
    ensures !TooLong(e, version)
  {
    assert EstimateBits(e.mode, |e.data|) <= free;
    hide EstimateEntry;
    SmallPowers();
  }

  /** Kanji entries that the estimate counts as one segment. */
  predicate KanjiWithin(e: Entry, version: nat) {
    e.mode == Kanji ==> |e.data| <= Pow2(LengthIndicator(Kanji, version))
  }

  ghost predicate AllKanjiWithin(es: seq<Entry>, version: nat) { forall i :: 0 <= i < |es| ==> KanjiWithin(es[i], version) }

  /** What does not fit is longer than what would fit, except possibly for a long Kanji entry. */
  lemma RejectedLonger(e: Entry, version: nat, free: int)
    requires Plain(e) && KanjiWithin(e, version) && EstimateEntry(e, version) > free && 1 <= version
    ensures LengthOfCode(e.mode, version, free) < |e.data|
  {
    hide ModeData, EncodeEntry, EncodeChunk, LengthOfCode, EstimateBits;
    PlainFacts(e);
    if e.mode == Kanji { KanjiEven(e.data); }
    LengthOfCodeAdjoint(e.mode, version, free, |e.data|);
    if !TooLong(e, version) {
      hide EstimateEntry;
      EstimateExact(e, version);
      OneSegment(e, version);
      ChunkLength(e, version);
    }
  }

  // ---- Splitting ----

  function FirstHalf(e: Entry, bytes: nat): Entry
    requires bytes <= |e.data|
  {
    Entry(e.mode, e.data[..bytes])
  }

  function SecondHalf(e: Entry, bytes: nat): Entry
    requires bytes <= |e.data|
  {
    Entry(e.mode, e.data[bytes..])
  }

  lemma CutPlain(e: Entry, version: nat, free: int)
    requires Plain(e) && 0 < LengthOfCode(e.mode, version, free) < |e.data|
    ensures Plain(FirstHalf(e, LengthOfCode(e.mode, version, free)))
            && Plain(SecondHalf(e, LengthOfCode(e.mode, version, free)))
  {
    var n := LengthOfCode(e.mode, version, free);
    if e.mode == Kanji { LengthOfCodeAdjoint(Kanji, version, free, 2); }
    hide ModeData, LengthOfCode;
    CutValid(e, n);
  }

  function Prepend(part: Part, r: Option<seq<Part>>): Option<seq<Part>> {
    if r.None? then None else Some([part] + r.value)
  }

  /** Only a part that is not empty can have no room left. */
  lemma MovesOn(mode: Mode, version: nat, level: Level, current: Part, free: int)
    requires 1 <= version <= VERSION_MAX && mode != Structure && AllValid(current)
    requires free == Room(version, level) - |EncodeAll(current, version)|
    requires LengthOfCode(mode, version, free) == 0
    ensures |current| > 0
  {
    EmptyNothing(version);
    hide LengthOfCode, EncodeAll, Room, AllValid;
    SomethingFits(mode, version, level);
  }

  /** Add entries to the current part while their estimate fits; cut an entry where the room ends;
      fail when the whole entry would belong to the first half of the cut. */
  function Split(es: seq<Entry>, version: nat, level: Level, current: Part): Option<seq<Part>>
    requires 1 <= version <= VERSION_MAX && AllPlain(es) && AllPlain(current)
    decreases TotalSize(es), |current|
  {
    PlainValid(current);
    if es == [] then Some([current])
    else
      var e := es[0];
      var free := Room(version, level) - |EncodeAll(current, version)|;
      if EstimateEntry(e, version) <= free then Split(es[1..], version, level, current + [e])
      else
        var bytes := LengthOfCode(e.mode, version, free);
        if bytes == 0 then
          MovesOn(e.mode, version, level, current, free);
          Prepend(current, Split(es, version, level, []))
        else if bytes >= |e.data| then None
        else
          CutPlain(e, version, free);
          Prepend(current + [FirstHalf(e, bytes)], Split([SecondHalf(e, bytes)] + es[1..], version, level, []))
  }

  // ---- Every byte arrives, in order and in its mode ----

  function Tags(e: Entry): seq<(Mode, Byte)> {
    if e.mode == Structure then [] else seq(|e.data|, i requires 0 <= i < |e.data| => (e.mode, e.data[i]))
  }

  /** The data bytes of a message with their modes; headers are not data. */
  function Tagged(es: seq<Entry>): seq<(Mode, Byte)> {
    if es == [] then [] else Tags(es[0]) + Tagged(es[1..])
  }

  function TaggedParts(ps: seq<Part>): seq<(Mode, Byte)> {
    if ps == [] then [] else Tagged(ps[0]) + TaggedParts(ps[1..])
  }

  lemma TaggedFirst(e: Entry, rest: seq<Entry>)
    ensures Tagged([e] + rest) == Tags(e) + Tagged(rest)
  {
    hide Tags;
    assert ([e] + rest)[1..] == rest;
  }

  lemma {:induction false} TaggedConcat(a: seq<Entry>, b: seq<Entry>)
    ensures Tagged(a + b) == Tagged(a) + Tagged(b)
  {
    hide Tags, Tagged;
    if a == [] {
      assert a + b == b;
      assert Tagged([]) == [] by { TaggedNothing(); }
    } else {
      var e, rest := a[0], a[1..];
      TaggedConcat(rest, b);
      TaggedFirst(e, rest); TaggedFirst(e, rest + b);
      assert a == [e] + rest && a + b == [e] + (rest + b);
    }
  }

  lemma TaggedNothing()
    ensures Tagged([]) == []
  {}

  lemma TaggedOne(e: Entry)
    ensures Tagged([e]) == Tags(e)
  {
    hide Tags;
    assert [e][1..] == [];
  }

  lemma TaggedCut(e: Entry, n: nat)
    requires n <= |e.data|
    ensures Tagged([FirstHalf(e, n)]) + Tagged([SecondHalf(e, n)]) == Tagged([e])
  {
    TaggedOne(e); TaggedOne(FirstHalf(e, n)); TaggedOne(SecondHalf(e, n));
    hide Tagged;
  }

  lemma {:induction false} EncodeAllConcat(a: seq<Entry>, b: seq<Entry>, version: nat)
    requires AllValid(a) && AllValid(b)
    ensures AllValid(a + b) && EncodeAll(a + b, version) == EncodeAll(a, version) + EncodeAll(b, version)
  {
    hide ModeData, EncodeEntry;
    if a == [] {
      assert a + b == b;
    } else {
      EncodeAllConcat(a[1..], b, version);
      assert (a + b)[1..] == a[1..] + b;
    }
  }

  lemma EncodeAppend(a: seq<Entry>, e: Entry, version: nat)
    requires AllValid(a) && ModeData(e.mode, e.data)
    ensures AllValid(a + [e]) && |EncodeAll(a + [e], version)| == |EncodeAll(a, version)| + |EncodeEntry(e, version)|
  {
    hide ModeData, EncodeEntry;
    EncodeAllConcat(a, [e], version);
    assert [e][1..] == [] && EncodeAll([e], version) == EncodeEntry(e, version) + EncodeAll([], version);
  }

  /** A part of a split: plain entries that fit next to a header. */
  ghost predicate PartFits(p: Part, version: nat, level: Level)
    requires version <= VERSION_MAX
  {
    AllPlain(p) && AllValid(p) && |EncodeAll(p, version)| <= Room(version, level)
  }

  lemma HalfFits(current: Part, e: Entry, version: nat, level: Level, free: int, n: nat)
    requires 1 <= version <= VERSION_MAX && PartFits(current, version, level) && Plain(e)
    requires free == Room(version, level) - |EncodeAll(current, version)|
    requires n == LengthOfCode(e.mode, version, free) && 0 < n < |e.data|
    ensures PartFits(current + [FirstHalf(e, n)], version, level)
  {
    hide ModeData, LengthOfCode, Room, EncodeEntry, EncodeAll, MaximumWords, LengthIndicator, EstimateBits, AllValid;
    LengthOfCodeAdjoint(e.mode, version, free, if e.mode == Kanji && n % 2 != 0 then 2 else n);
    CutPlain(e, version, free);
    var h := FirstHalf(e, n);
    assert !TooLong(h, version);
    OneSegment(h, version);
    ChunkLength(h, version);
    EncodeAppend(current, h, version);
  }

  lemma NextFits(current: Part, e: Entry, version: nat, level: Level)
    requires 1 <= version <= VERSION_MAX && PartFits(current, version, level) && Plain(e)
    requires EstimateEntry(e, version) <= Room(version, level) - |EncodeAll(current, version)|
    ensures PartFits(current + [e], version, level)
  {
    hide Room, EncodeEntry, EncodeAll, EstimateEntry, ModeData;
    AdmittedFits(e, version, level, Room(version, level) - |EncodeAll(current, version)|);
    EncodeAppend(current, e, version);
  }

  lemma EmptyFits(version: nat, level: Level)
    requires 1 <= version <= VERSION_MAX
    ensures PartFits([], version, level) && Tagged([]) == []
  {
    RoomBounds(version, level);
  }

  lemma PlainFacts(e: Entry)
    requires Plain(e)
    ensures e.mode != Structure && ModeData(e.mode, e.data) && |e.data| >= 1
  {}

  lemma PrependPart(p: Part, r: seq<Part>)
    ensures TaggedParts([p] + r) == Tagged(p) + TaggedParts(r)
  {
    assert ([p] + r)[1..] == r;
  }

  /** What a split keeps: data, order and modes; and every part fits into its symbol. */
  lemma {:induction false} SplitKeeps(es: seq<Entry>, version: nat, level: Level, current: Part)
    requires 1 <= version <= VERSION_MAX && AllPlain(es) && PartFits(current, version, level)
    requires Split(es, version, level, current).Some?
    ensures var ps := Split(es, version, level, current).value;
            && 1 <= |ps|
            && TaggedParts(ps) == Tagged(current) + Tagged(es)
            && forall i :: 0 <= i < |ps| ==> PartFits(ps[i], version, level)
    decreases TotalSize(es), |current|
  {
    hide ModeData, LengthOfCode, Room, EncodeAll, EncodeEntry, EstimateEntry, Tagged, TaggedParts, Plain;
    hide AllValid, Tags, Check;
    var ps := Split(es, version, level, current).value;
    EmptyFits(version, level);
    PrependPart(current, []);
    assert [current] + [] == [current];
    if es == [] {
      assert TaggedParts([]) == [] by { NoParts(); }
    } else {
      var e, more := es[0], es[1..];
      var free := Room(version, level) - |EncodeAll(current, version)|;
      var n := LengthOfCode(e.mode, version, free);
      assert es == [e] + more;
      PlainFacts(e);
      TaggedConcat([e], more);
      SomethingFits(e.mode, version, level);
      if EstimateEntry(e, version) <= free {
        NextFits(current, e, version, level);
        TaggedConcat(current, [e]);
        SplitKeeps(more, version, level, current + [e]);
      } else if n == 0 {
        EmptyNothing(version);
        SplitKeeps(es, version, level, []);
        PrependPart(current, Split(es, version, level, []).value);
      } else {
        CutPlain(e, version, free);
        HalfFits(current, e, version, level, free, n);
        var h, t := FirstHalf(e, n), SecondHalf(e, n);
        TaggedConcat(current, [h]); TaggedConcat([t], more); TaggedCut(e, n);
        assert ([t] + more)[1..] == more;
        SplitKeeps([t] + more, version, level, []);
        PrependPart(current + [h], Split([t] + more, version, level, []).value);
      }
    }
  }

  lemma NoParts()
    ensures TaggedParts([]) == []
  {}

  lemma EmptyNothing(version: nat)
    ensures AllValid([]) && EncodeAll([], version) == []
  {}

  /** Without long Kanji entries a split cannot fail. */
  lemma {:induction false} SplitSucceeds(es: seq<Entry>, version: nat, level: Level, current: Part)
    requires 1 <= version <= VERSION_MAX && AllPlain(es) && AllPlain(current) && AllKanjiWithin(es, version)
    ensures Split(es, version, level, current).Some?
    decreases TotalSize(es), |current|
  {
    hide ModeData, LengthOfCode, Room, EncodeAll, EncodeEntry, EstimateEntry, Plain, AllValid, KanjiWithin;
    PlainValid(current);
    if es != [] {
      var e, more := es[0], es[1..];
      var free := Room(version, level) - |EncodeAll(current, version)|;
      var n := LengthOfCode(e.mode, version, free);
      PlainFacts(e);
      SomethingFits(e.mode, version, level);
      if EstimateEntry(e, version) <= free {
        SplitSucceeds(more, version, level, current + [e]);
      } else if n == 0 {
        EmptyNothing(version);
        SplitSucceeds(es, version, level, []);
      } else {
        RejectedLonger(e, version, free);
        CutPlain(e, version, free);
        SecondWithin(e, n, version);
        assert ([SecondHalf(e, n)] + more)[1..] == more;
        SplitSucceeds([SecondHalf(e, n)] + more, version, level, []);
      }
    }
  }

  lemma SecondWithin(e: Entry, n: nat, version: nat)
    requires n <= |e.data| && KanjiWithin(e, version)
    ensures KanjiWithin(SecondHalf(e, n), version)
  {}

  /** Exactly when a split fails at an entry: the estimate rejects the entry although all of it fits
      into the free bits as one segment. */
  lemma SplitFailsWhen(e: Entry, version: nat, free: int)
    requires Plain(e) && 1 <= version
    ensures ModeData(e.mode, e.data)
    ensures LengthOfCode(e.mode, version, free) >= |e.data| <==> !TooLong(e, version) && |EncodeEntry(e, version)| <= free
  {
    hide ModeData, EncodeEntry, EncodeChunk, LengthOfCode, EstimateBits;
    PlainFacts(e);
    if e.mode == Kanji { KanjiEven(e.data); }
    LengthOfCodeAdjoint(e.mode, version, free, |e.data|);
    if !TooLong(e, version) {
      OneSegment(e, version);
      ChunkLength(e, version);
    }
  }

  // ---- When a Kanji entry is split ----

  lemma SameSize(e: Entry, f: Entry, version: nat)
    requires e.mode == f.mode && |e.data| == |f.data|
    ensures EstimateEntry(e, version) == EstimateEntry(f, version)
  {
    hide EstimateBits, CeilDiv, Product, Pow2;
  }

  /** What remains of n bytes after cutting off pieces of l bytes while more than l remain. */
  function LastPiece(n: nat, l: nat): (r: nat)
    requires 1 <= n && 1 <= l
    ensures 1 <= r <= l && r <= n
  {
    QuotRem(n - 1, l);
    Rem(n - 1, l) + 1
  }

  lemma LastPieceStep(n: nat, l: nat)
    requires 1 <= n && 1 <= l
    ensures n <= l ==> LastPiece(n, l) == n
    ensures n > l ==> LastPiece(n, l) == LastPiece(n - l, l)
  {
    if n <= l { DivMod(n - 1, l, 0, n - 1); } else { CutStep(n, l); }
  }

  /** What is estimated to fit into an empty symbol is one piece. */
  lemma AdmittedShort(e: Entry, version: nat, level: Level)
    requires Plain(e) && 1 <= version <= VERSION_MAX && EstimateEntry(e, version) <= Room(version, level)
    ensures |e.data| <= LengthOfCode(e.mode, version, Room(version, level))
  {
    hide ModeData, EncodeEntry, Room, EstimateEntry, LengthOfCode, TooLong;
    AdmittedFits(e, version, level, Room(version, level));
    SplitFailsWhen(e, version, Room(version, level));
  }

  /** One Kanji entry: the pieces that are cut off hold l bytes each, and the split succeeds if and
      only if the estimate admits the piece that remains. */
  lemma {:induction false} KanjiSplits(e: Entry, version: nat, level: Level)
    requires 1 <= version <= VERSION_MAX && Plain(e) && e.mode == Kanji
    ensures var l := LengthOfCode(Kanji, version, Room(version, level));
            && l >= 1 && AllPlain([e]) && AllPlain([])
            && (Split([e], version, level, []).Some?
                <==> EstimateEntry(FirstHalf(e, LastPiece(|e.data|, l)), version) <= Room(version, level))
    decreases |e.data|
  {
    hide ModeData, LengthOfCode, Room, EncodeAll, EstimateEntry, Plain, AllValid, LastPiece, Split;
    SomethingFits(Kanji, version, level);
    EmptyNothing(version);
    PlainFacts(e);
    var l, n := LengthOfCode(Kanji, version, Room(version, level)), |e.data|;
    LastPieceStep(n, l);
    OneSplit(e, version, level, l);
    if n <= l {
      SameSize(e, FirstHalf(e, n), version);
      if EstimateEntry(e, version) > Room(version, level) { StepFails([e], version, level, [], Room(version, level)); }
    } else {
      if EstimateEntry(e, version) <= Room(version, level) { AdmittedShort(e, version, level); }
      CutPlain(e, version, Room(version, level));
      KanjiSplits(SecondHalf(e, l), version, level);
      var r := LastPiece(n, l);
      SameSize(FirstHalf(e, r), FirstHalf(SecondHalf(e, l), r), version);
    }
  }

  lemma OneSplit(e: Entry, version: nat, level: Level, l: nat)
    requires 1 <= version <= VERSION_MAX && Plain(e) && l == LengthOfCode(e.mode, version, Room(version, level)) && l >= 1
    ensures AllPlain([e]) && AllPlain([]) && AllValid([])
    ensures EstimateEntry(e, version) <= Room(version, level) ==> Split([e], version, level, []).Some?
    ensures EstimateEntry(e, version) > Room(version, level) && l < |e.data| ==>
              && AllPlain([SecondHalf(e, l)])
              && (Split([e], version, level, []).Some? <==> Split([SecondHalf(e, l)], version, level, []).Some?)
  {
    hide LengthOfCode, Room, EncodeAll, EstimateEntry, Plain, AllValid, FirstHalf, SecondHalf;
    EmptyNothing(version);
    var free := Room(version, level);
    assert [e][1..] == [];
    if EstimateEntry(e, version) <= free {
      StepFits([e], version, level, []);
      assert [] + [e] == [e];
    } else if l < |e.data| {
      StepCuts([e], version, level, [], free, l);
      assert [SecondHalf(e, l)] + [] == [SecondHalf(e, l)];
    }
  }

  // ---- Second bytes of Kanji characters ----

  predicate HighKanji(e: Entry) { e.mode == Kanji ==> HighSeconds(e.data) }

  ghost predicate AllHigh(es: seq<Entry>) { forall i :: 0 <= i < |es| ==> HighKanji(es[i]) }

  ghost predicate PartsHigh(ps: seq<Part>) { forall i :: 0 <= i < |ps| ==> AllHigh(ps[i]) }

  lemma HighConcat(a: seq<Entry>, b: seq<Entry>)
    ensures AllHigh(a + b) <==> AllHigh(a) && AllHigh(b)
  {
    hide HighKanji;
    if AllHigh(a + b) {
      forall i | 0 <= i < |a| ensures HighKanji(a[i]) { assert (a + b)[i] == a[i]; }
      forall i | 0 <= i < |b| ensures HighKanji(b[i]) { assert (a + b)[|a| + i] == b[i]; }
    }
  }

  lemma HighFirst(p: Part, ps: seq<Part>)
    ensures PartsHigh([p] + ps) <==> AllHigh(p) && PartsHigh(ps)
  {
    hide AllHigh;
    if PartsHigh([p] + ps) {
      assert ([p] + ps)[0] == p;
      forall i | 0 <= i < |ps| ensures AllHigh(ps[i]) { assert ([p] + ps)[1 + i] == ps[i]; }
    }
  }

  lemma HighCut(e: Entry, n: nat)
    requires n <= |e.data| && (e.mode == Kanji ==> n % 2 == 0)
    ensures AllHigh([e]) <==> AllHigh([FirstHalf(e, n)]) && AllHigh([SecondHalf(e, n)])
  {
    hide HighSeconds;
    if e.mode == Kanji {
      HighSecondsConcat(e.data[..n], e.data[n..]);
      assert e.data[..n] + e.data[n..] == e.data;
    }
    assert [e][0] == e && [FirstHalf(e, n)][0] == FirstHalf(e, n) && [SecondHalf(e, n)][0] == SecondHalf(e, n);
  }

  lemma HighNothing()
    ensures AllHigh([]) && PartsHigh([])
  {}

  /** A split does not change the bytes of Kanji characters. */
  lemma {:induction false} SplitHigh(es: seq<Entry>, version: nat, level: Level, current: Part)
    requires 1 <= version <= VERSION_MAX && AllPlain(es) && AllPlain(current)
    requires Split(es, version, level, current).Some?
    ensures PartsHigh(Split(es, version, level, current).value) <==> AllHigh(current) && AllHigh(es)
    decreases TotalSize(es), |current|
  {
    hide ModeData, LengthOfCode, Room, EncodeAll, EncodeEntry, EstimateEntry, Plain, AllValid, AllHigh, PartsHigh;
    HighNothing();
    HighFirst(current, []);
    PlainValid(current);
    assert [current] + [] == [current];
    if es != [] {
      var e, more := es[0], es[1..];
      var free := Room(version, level) - |EncodeAll(current, version)|;
      var n := LengthOfCode(e.mode, version, free);
      assert es == [e] + more;
      PlainFacts(e);
      HighConcat([e], more);
      SomethingFits(e.mode, version, level);
      if EstimateEntry(e, version) <= free {
        HighConcat(current, [e]);
        SplitHigh(more, version, level, current + [e]);
      } else if n == 0 {
        EmptyNothing(version);
        SplitHigh(es, version, level, []);
        HighFirst(current, Split(es, version, level, []).value);
      } else {
        CutPlain(e, version, free);
        if e.mode == Kanji { LengthOfCodeAdjoint(Kanji, version, free, 2); }
        var h, t := FirstHalf(e, n), SecondHalf(e, n);
        HighConcat(current, [h]); HighConcat([t], more); HighCut(e, n);
        assert ([t] + more)[1..] == more;
        SplitHigh([t] + more, version, level, []);
        HighFirst(current + [h], Split([t] + more, version, level, []).value);
      }
    }
  }

  // ---- Parity ----

  function XorTags(t: seq<(Mode, Byte)>): Byte {
    if t == [] then 0 else Add(t[0].1, XorTags(t[1..]))
  }

  /** The exclusive or of all data bytes. */
  function Parity(es: seq<Entry>): Byte { XorTags(Tagged(es)) }

  lemma {:induction false} XorConcat(a: seq<(Mode, Byte)>, b: seq<(Mode, Byte)>)
    ensures XorTags(a + b) == Add(XorTags(a), XorTags(b))
  {
    hide Add;
    if a == [] {
      assert a + b == b;
      AddZero(XorTags(b));
    } else {
      XorConcat(a[1..], b);
      assert (a + b)[0] == a[0] && (a + b)[1..] == a[1..] + b;
      AddAssoc(a[0].1, XorTags(a[1..]), XorTags(b));
    }
  }

  /** Add the data bytes of an entry to the parity, from the last byte to the first. */
  method EntryParity(e: Entry, parity: Byte) returns (r: Byte)
    requires e.mode != Structure
    ensures r == Add(parity, XorTags(Tags(e)))
  {
    hide Add, Tags;
    r := parity;
    ghost var t := Tags(e);
    TagsAre(e);
    AddZero(parity);
    for i := |e.data| downto 0
      invariant r == Add(parity, XorTags(t[i..]))
    {
      assert t[i..][1..] == t[i + 1..];
      AddAssoc(parity, XorTags(t[i + 1..]), e.data[i]);
      AddComm(XorTags(t[i + 1..]), e.data[i]);
      r := Add(r, e.data[i]);
    }
    assert t[0..] == t;
  }

  lemma TagsAre(e: Entry)
    requires e.mode != Structure
    ensures |Tags(e)| == |e.data| && forall i :: 0 <= i < |e.data| ==> Tags(e)[i] == (e.mode, e.data[i])
  {}

  method InputParity(input: QRInput) returns (parity: Byte)
    ensures parity == Parity(input.entries)
  {
    hide Add, Tags;
    parity := 0;
    var list := input.entries;
    assert list[..0] == [] && Tagged([]) == [];
    for i := 0 to |list|
      invariant parity == Parity(list[..i])
    {
      assert list[..i + 1] == list[..i] + [list[i]];
      TaggedConcat(list[..i], [list[i]]);
      TaggedOne(list[i]);
      XorConcat(Tagged(list[..i]), Tags(list[i]));
      if list[i].mode != Structure {
        parity := EntryParity(list[i], parity);
      } else {
        HeaderTags(list[i]);
        AddZero(parity);
      }
    }
    assert list[..|list|] == list;
  }

  lemma HeaderTags(e: Entry)
    requires e.mode == Structure
    ensures Tags(e) == []
  {}

  // ---- Headers ----

  function HeaderEntry(size: nat, number: nat, parity: Byte): (e: Entry)
    requires size < 256 && number < 256
    ensures e.mode == Structure && ModeData(e.mode, e.data)
  {
    Entry(Structure, [Chr(size), Chr(number), parity])
  }

  /** Number the parts; a single part stays without a header. */
  function WithHeaders(ps: seq<Part>, parity: Byte): (r: seq<Part>)
    requires |ps| <= MAX_STRUCTURED_SYMBOLS
    ensures |r| == |ps|
  {
    if |ps| == 1 then ps
    else seq(|ps|, i requires 0 <= i < |ps| => [HeaderEntry(|ps|, i + 1, parity)] + ps[i])
  }

  /** The parts of a message for a version, with headers. */
  function SplitToParts(es: seq<Entry>, version: nat, level: Level): Option<seq<Part>>
    requires version <= VERSION_MAX && AllPlain(es)
  {
    if version == 0 then None
    else
      match Split(es, version, level, [])
      case None => None
      case Some(ps) => if |ps| > MAX_STRUCTURED_SYMBOLS then None else Some(WithHeaders(ps, Parity(es)))
  }

  lemma HeaderSize(e: Entry, p: Part, version: nat)
    requires e.mode == Structure && ModeData(e.mode, e.data) && AllValid(p)
    ensures AllValid([e] + p) && |EncodeAll([e] + p, version)| == STRUCTURE_HEADER_SIZE + |EncodeAll(p, version)|
    ensures Tagged([e] + p) == Tagged(p)
  {
    hide ModeData, EncodeEntry, EncodeChunk, EncodeAll, Tags;
    WordsParity(Structure, version);
    StructureSize(version);
    OneSegment(e, version);
    ChunkLength(e, version);
    EncodeAllConcat([e], p, version);
    OneEntry(e, version);
    TaggedConcat([e], p); TaggedOne(e); HeaderTags(e);
  }

  lemma {:induction false} SameTags(ps: seq<Part>, qs: seq<Part>)
    requires |ps| == |qs| && forall i :: 0 <= i < |ps| ==> Tagged(ps[i]) == Tagged(qs[i])
    ensures TaggedParts(ps) == TaggedParts(qs)
  {
    hide Tagged;
    if ps != [] { SameTags(ps[1..], qs[1..]); }
  }

  lemma {:induction false} PartsParity(ps: seq<Part>)
    ensures XorTags(TaggedParts(ps)) == XorParts(ps)
  {
    hide Add, Tagged;
    if ps != [] {
      PartsParity(ps[1..]);
      XorConcat(Tagged(ps[0]), TaggedParts(ps[1..]));
    }
  }

  /** The exclusive or of the parities of the parts. */
  function XorParts(ps: seq<Part>): Byte {
    if ps == [] then 0 else Add(Parity(ps[0]), XorParts(ps[1..]))
  }

  /** Part number i of a set of n symbols. */
  ghost predicate Numbered(q: Part, i: nat, n: nat, parity: Byte)
    requires i < n <= MAX_STRUCTURED_SYMBOLS
  {
    if n == 1 then AllPlain(q) else |q| >= 1 && q[0] == HeaderEntry(n, i + 1, parity) && AllPlain(q[1..])
  }

  lemma HeaderedPart(ps: seq<Part>, parity: Byte, i: nat, version: nat, level: Level)
    requires i < |ps| <= MAX_STRUCTURED_SYMBOLS && 1 <= version <= VERSION_MAX && PartFits(ps[i], version, level)
    ensures var q := WithHeaders(ps, parity)[i];
            AllValid(q) && Fits(q, level, version) && Tagged(q) == Tagged(ps[i]) && Numbered(q, i, |ps|, parity)
  {
    hide ModeData, EncodeAll, Tagged, DataLength, AllValid, HeaderEntry, AllPlain;
    if |ps| > 1 {
      var h := HeaderEntry(|ps|, i + 1, parity);
      HeaderSize(h, ps[i], version);
      assert ([h] + ps[i])[1..] == ps[i];
    }
  }

  /** Structured append distributes a message over at most 16 parts that fit the requested version, in
      order and without losing a byte or its mode; if there is more than one part, they are
      numbered from 1 on, each with the number of parts and the parity of the whole message. The
      symbol that is made for a part may have a larger version: see PartVersion. */
  lemma PartsCorrect(es: seq<Entry>, version: nat, level: Level)
    requires version <= VERSION_MAX && AllPlain(es) && SplitToParts(es, version, level).Some?
    ensures var ps := SplitToParts(es, version, level).value;
            && 1 <= |ps| <= MAX_STRUCTURED_SYMBOLS
            && TaggedParts(ps) == Tagged(es) && XorParts(ps) == Parity(es)
            && forall i :: 0 <= i < |ps| ==>
                 AllValid(ps[i]) && Fits(ps[i], level, version) && Numbered(ps[i], i, |ps|, Parity(es))
  {
    hide ModeData, EncodeAll, Tagged, Plain, DataLength, AllValid, TaggedParts, XorTags, HeaderEntry, AllPlain;
    hide Numbered, Fits, PartFits, WithHeaders, XorParts, Add;
    EmptyFits(version, level);
    AllPlainNothing();
    var ps, qs := Split(es, version, level, []).value, SplitToParts(es, version, level).value;
    SplitKeeps(es, version, level, []);
    forall i | 0 <= i < |ps|
      ensures Tagged(qs[i]) == Tagged(ps[i])
      ensures AllValid(qs[i]) && Fits(qs[i], level, version) && Numbered(qs[i], i, |qs|, Parity(es))
    {
      HeaderedPart(ps, Parity(es), i, version, level);
    }
    SameTags(ps, qs);
    PartsParity(qs);
  }

  lemma AllPlainNothing()
    ensures AllPlain([])
  {}

  /** Without long Kanji entries the only ways to fail are a missing version and more than 16 parts. */
  lemma PartsExist(es: seq<Entry>, version: nat, level: Level)
    requires version <= VERSION_MAX && AllPlain(es) && AllKanjiWithin(es, version)
    ensures SplitToParts(es, version, level).None?
       <==> version == 0 || (Split(es, version, level, []).Some? && |Split(es, version, level, []).value| > MAX_STRUCTURED_SYMBOLS)
  {
    if version >= 1 { SplitSucceeds(es, version, level, []); }
  }

  // ---- The versions of the symbols of a set ----

  lemma PartChecked(p: Part, i: nat, n: nat, parity: Byte)
    requires i < n <= MAX_STRUCTURED_SYMBOLS && Numbered(p, i, n, parity)
    ensures AllChecked(p)
  {
    hide ModeData;
    if n > 1 { assert forall k :: 0 < k < |p| ==> p[k] == p[1..][k - 1]; }
  }

  /** The symbol of a part has the requested version, unless the estimates ask for a larger one; then
      it has that one, although the part fits the requested version. */
  lemma PartVersion(es: seq<Entry>, version: nat, level: Level, i: nat)
    requires version <= VERSION_MAX && AllPlain(es) && SplitToParts(es, version, level).Some?
    requires i < |SplitToParts(es, version, level).value|
    ensures var p := SplitToParts(es, version, level).value[i];
            && AllValid(p) && Fits(p, level, version)
            && FinalVersion(p, level, version) == Max(version, Estimated(Estimates(p), level))
  {
    hide SplitToParts, AllPlain, AllValid, AllChecked, Fits, Numbered, Parity, Estimates, Estimated;
    hide FinalVersion, TaggedParts, Tagged, XorParts;
    PartsCorrect(es, version, level);
    var ps := SplitToParts(es, version, level).value;
    PartChecked(ps[i], i, |ps|, Parity(es));
    RequestExactly(ps[i], level, version);
  }

  predicate ShortEntry(e: Entry) { e.mode == Kanji ==> |e.data| <= 256 }

  ghost predicate AllShort(es: seq<Entry>) { forall i :: 0 <= i < |es| ==> ShortEntry(es[i]) }

  lemma {:induction false} SplitShort(es: seq<Entry>, version: nat, level: Level, current: Part)
    requires 1 <= version <= VERSION_MAX && AllPlain(es) && AllPlain(current) && AllShort(es) && AllShort(current)
    requires Split(es, version, level, current).Some?
    ensures forall i :: 0 <= i < |Split(es, version, level, current).value| ==> AllShort(Split(es, version, level, current).value[i])
    decreases TotalSize(es), |current|
  {
    hide ModeData, LengthOfCode, Room, EncodeAll, EncodeEntry, EstimateEntry, Plain, AllValid;
    PlainValid(current);
    if es != [] {
      var e, more := es[0], es[1..];
      var free := Room(version, level) - |EncodeAll(current, version)|;
      var n := LengthOfCode(e.mode, version, free);
      PlainFacts(e);
      SomethingFits(e.mode, version, level);
      if EstimateEntry(e, version) <= free {
        SplitShort(more, version, level, current + [e]);
      } else if n == 0 {
        EmptyNothing(version);
        SplitShort(es, version, level, []);
      } else {
        CutPlain(e, version, free);
        assert ([SecondHalf(e, n)] + more)[1..] == more;
        SplitShort([SecondHalf(e, n)] + more, version, level, []);
      }
    }
  }

  lemma HeadersShort(ps: seq<Part>, parity: Byte, i: nat)
    requires i < |ps| <= MAX_STRUCTURED_SYMBOLS && AllShort(ps[i])
    ensures ShortKanji(WithHeaders(ps, parity)[i])
  {
    hide ModeData, HeaderEntry;
  }

  /** Without Kanji entries above 256 bytes, only the symbols of a set for version 26 may be larger
      than requested. */
  lemma PartVersionShort(es: seq<Entry>, version: nat, level: Level, i: nat)
    requires version <= VERSION_MAX && AllPlain(es) && AllShort(es) && SplitToParts(es, version, level).Some?
    requires i < |SplitToParts(es, version, level).value|
    ensures var p := SplitToParts(es, version, level).value[i];
            && AllValid(p)
            && (FinalVersion(p, level, version) == version <==> !(version == 26 && MissesClass(Estimates(p), level)))
  {
    hide Split, AllPlain, AllShort, AllValid, AllChecked, Fits, Numbered, Parity, Estimates, FinalVersion;
    hide TaggedParts, Tagged, XorParts;
    hide WithHeaders, ShortKanji, MissesClass;
    PartsCorrect(es, version, level);
    var ps := SplitToParts(es, version, level).value;
    PartChecked(ps[i], i, |ps|, Parity(es));
    AllPlainNothing();
    assert AllShort([]) by { NothingShort(); }
    SplitShort(es, version, level, []);
    HeadersShort(Split(es, version, level, []).value, Parity(es), i);
    RequestShort(ps[i], level, version);
  }

  lemma NothingShort()
    ensures AllShort([])
  {}

  /** One entry: every part of its split but the last is filled with one piece. */
  lemma {:induction false} FullPieces(e: Entry, version: nat, level: Level)
    requires 1 <= version <= VERSION_MAX && Plain(e) && AllPlain([e]) && AllPlain([]) && Split([e], version, level, []).Some?
    ensures var ps := Split([e], version, level, []).value;
            forall i :: 0 <= i < |ps| - 1 ==>
              |ps[i]| == 1 && ps[i][0].mode == e.mode && |ps[i][0].data| == LengthOfCode(e.mode, version, Room(version, level))
    decreases |e.data|
  {
    hide ModeData, LengthOfCode, Room, EncodeAll, EstimateEntry, Plain, AllValid, Split;
    PlainFacts(e);
    SomethingFits(e.mode, version, level);
    EmptyNothing(version);
    var l := LengthOfCode(e.mode, version, Room(version, level));
    assert [e][1..] == [];
    if EstimateEntry(e, version) <= Room(version, level) {
      StepFits([e], version, level, []);
      assert [] + [e] == [e];
      LastPart([], [e], version, level);
      PrependEmpty(Split([], version, level, [e]));
    } else if l >= |e.data| {
      StepFails([e], version, level, [], Room(version, level));
    } else {
      CutPlain(e, version, Room(version, level));
      StepCuts([e], version, level, [], Room(version, level), l);
      assert [SecondHalf(e, l)] + [] == [SecondHalf(e, l)] && [] + [FirstHalf(e, l)] == [FirstHalf(e, l)];
      FullPieces(SecondHalf(e, l), version, level);
    }
  }

  /** The number of digits that fill a symbol of version 26 next to a header, and their bits. */
  lemma FullDigits(level: Level)
    ensures var n := LengthOfCode(Num, 26, Room(26, level));
            && n == (match level case L => 3277 case M => 2538 case Q => 1798 case H => 1419)
            && EstimateBitsNum(n) == (match level case L => 10924 case M => 8460 case Q => 5994 case H => 4730)
  {
    SmallPowers();
  }

  lemma TwoEstimates(h: Entry, e: Entry)
    requires h.mode == Structure && Check(e)
    ensures var b, c := Estimates([h, e]), Estimates([e]);
            b == PerClass(c.c0 + STRUCTURE_HEADER_SIZE, c.c1 + STRUCTURE_HEADER_SIZE, c.c2 + STRUCTURE_HEADER_SIZE)
  {
    assert [h, e][1..] == [e];
    hide EstimateBits, CeilDiv, Product, Pow2;
  }

  /** Digits that fill version 26, with the smallest length fields. */
  lemma DigitGroups(level: Level)
    ensures SmallestFields(Num, match level case L => 3277 case M => 2538 case Q => 1798 case H => 1419)
         == match level case L => 10980 case M => 8502 case Q => 6022 case H => 4758
  {
    CeilRange(3277, 1024); CeilRange(2538, 1024); CeilRange(1798, 1024); CeilRange(1419, 1024);
  }

  lemma WindowCaps(level: Level)
    ensures Cap(26, level) == match level case L => 10960 case M => 8496 case Q => 6032 case H => 4768
    ensures Cap(26, level) + 8 <= Cap(27, level)
  {
    NextCap(level);
  }

  /** The estimates for the digits that fill version 26. */
  function FullEstimates(level: Level): PerClass {
    match level
    case L => PerClass(10980, 10940, 10942)
    case M => PerClass(8502, 8476, 8478)
    case Q => PerClass(6022, 6010, 6012)
    case H => PerClass(4758, 4746, 4748)
  }

  lemma DigitEstimates(e: Entry, level: Level)
    requires Check(e) && e.mode == Num && |e.data| == LengthOfCode(Num, 26, Room(26, level))
    ensures Estimates([e]) == FullEstimates(level)
  {
    hide Check, LengthOfCode, Room, Estimates, SmallestFields, EstimateBitsNum;
    FullDigits(level);
    OneGroupEach(e, level);
    DigitGroups(level);
  }

  lemma HeaderAndDigits(h: Entry, e: Entry, level: Level)
    requires Check(h) && h.mode == Structure && Check(e) && e.mode == Num
    requires |e.data| == LengthOfCode(Num, 26, Room(26, level))
    ensures AllChecked([h, e]) && ShortKanji([h, e])
    ensures MissesClass(Estimates([h, e]), level) <==> level == L || level == M
    ensures level == L || level == M ==> Cap(26, level) < Estimates([h, e]).c2 <= Cap(27, level)
  {
    hide ModeData, LengthOfCode, Room, Estimates, Cap;
    DigitEstimates(e, level);
    TwoEstimates(h, e);
    WindowCaps(level);
  }

  /** Digits that are split for version 26: at levels L and M the symbol of every part but the last
      has version 27, although the part fits version 26; at levels Q and H it has version 26. */
  lemma DigitsOutgrow(e: Entry, level: Level, i: nat)
    requires Plain(e) && e.mode == Num && AllPlain([e]) && SplitToParts([e], 26, level).Some?
    requires i < |SplitToParts([e], 26, level).value| - 1
    ensures var p := SplitToParts([e], 26, level).value[i];
            && AllValid(p) && Fits(p, level, 26)
            && FinalVersion(p, level, 26) == if level == L || level == M then 27 else 26
  {
    hide ModeData, Split, AllValid, Fits, Numbered, Parity, Estimates, FinalVersion, TaggedParts, Tagged;
    hide XorParts, LengthOfCode, Room;
    hide ShortKanji, MissesClass, Cap, HeaderEntry, Estimated;
    PartsCorrect([e], 26, level);
    AllPlainNothing();
    FullPieces(e, 26, level);
    var qs, ps := Split([e], 26, level, []).value, SplitToParts([e], 26, level).value;
    var h, d := HeaderEntry(|ps|, i + 1, Parity([e])), qs[i][0];
    assert ps[i] == [h, d];
    assert Check(h) && Check(d) by { PartChecked(ps[i], i, |ps|, Parity([e])); assert ps[i][0] == h && ps[i][1] == d; }
    HeaderAndDigits(h, d, level);
    RequestShort(ps[i], level, 26);
    RequestExactly(ps[i], level, 26);
    if level == L || level == M { ThenNext(Estimates(ps[i]), level); }
  }

  lemma ThenNext(b: PerClass, level: Level)
    requires MissesClass(b, level) && Cap(26, level) < b.c2 <= Cap(27, level) && Estimated(b, level) > 26
    ensures Estimated(b, level) == 27
  {
    hide Cap, VersionFor;
    CapFacts(level);
    VersionForMeaning(b.c2, level, 26); VersionForMeaning(b.c2, level, 27);
  }

  // ---- The set of inputs ----

  /** Put a header in front of the entries of an input. */
  method InsertHeader(input: QRInput, size: nat, number: int, parity: Byte) returns (ret: int)
    modifies input`entries
    ensures ret == if size <= MAX_STRUCTURED_SYMBOLS && 1 <= number <= size then 0 else -1
    ensures input.entries == if ret == 0 then [HeaderEntry(size, number, parity)] + old(input.entries) else old(input.entries)
  {
    if size > MAX_STRUCTURED_SYMBOLS { return -1; }
    if number <= 0 || number > size { return -1; }
    input.entries := [HeaderEntry(size, number, parity)] + input.entries;
    ret := 0;
  }

  /** The headers that an input gets from the first n places of a set. */
  ghost function HeadersFor(inputs: seq<QRInput>, input: QRInput, n: nat, parity: Byte): seq<Entry>
    requires n <= |inputs| <= MAX_STRUCTURED_SYMBOLS
  {
    if n == 0 then []
    else (if inputs[n - 1] == input then [HeaderEntry(|inputs|, n, parity)] else []) + HeadersFor(inputs, input, n - 1, parity)
  }

  lemma NextHeader(inputs: seq<QRInput>, input: QRInput, i: nat, parity: Byte, was: Part)
    requires i < |inputs| <= MAX_STRUCTURED_SYMBOLS
    ensures var before := HeadersFor(inputs, input, i, parity) + was;
            var after := HeadersFor(inputs, input, i + 1, parity) + was;
            after == if inputs[i] == input then [HeaderEntry(|inputs|, i + 1, parity)] + before else before
  {
    hide HeaderEntry;
    var hs := HeadersFor(inputs, input, i, parity);
    if inputs[i] == input {
      var h := HeaderEntry(|inputs|, i + 1, parity);
      assert HeadersFor(inputs, input, i + 1, parity) == [h] + hs;
      assert [h] + hs + was == [h] + (hs + was);
    } else {
      assert HeadersFor(inputs, input, i + 1, parity) == [] + hs == hs;
    }
  }

  lemma NoHeaders(inputs: seq<QRInput>, parity: Byte)
    requires |inputs| <= MAX_STRUCTURED_SYMBOLS
    ensures forall k :: 0 <= k < |inputs| ==> HeadersFor(inputs, inputs[k], 0, parity) == []
  {}

  lemma {:induction false} OneHeader(inputs: seq<QRInput>, i: nat, n: nat, parity: Byte)
    requires i < |inputs| && n <= |inputs| <= MAX_STRUCTURED_SYMBOLS
    requires forall j, k :: 0 <= j < k < |inputs| ==> inputs[j] != inputs[k]
    ensures HeadersFor(inputs, inputs[i], n, parity) == if i < n then [HeaderEntry(|inputs|, i + 1, parity)] else []
  {
    hide HeaderEntry;
    if n > 0 { OneHeader(inputs, i, n - 1, parity); }
  }

  class QRStruct {
    var inputs: seq<QRInput>
    var parity: int   // -1 until it is known

    ghost predicate Valid()
      reads this`parity
    {
      parity == -1 || 0 <= parity < 256
    }

    /** No input occurs twice. */
    ghost predicate Distinct()
      reads this`inputs
    {
      forall i, j :: 0 <= i < j < |inputs| ==> inputs[i] != inputs[j]
    }

    ghost function Contents(): seq<Part>
      reads this`inputs, inputs
    {
      var list := inputs;
      seq(|list|, i requires 0 <= i < |list| reads list => list[i].entries)
    }

    constructor ()
      ensures inputs == [] && parity == -1 && Valid() && Distinct()
    {
      inputs, parity := [], -1;
    }

    method SetParity(parity: Byte)
      modifies this`parity
      ensures this.parity == Ord(parity)
    {
      this.parity := Ord(parity);
    }

    /** Returns the number of inputs. */
    method AppendInput(input: QRInput) returns (size: nat)
      modifies this`inputs
      ensures inputs == old(inputs) + [input] && size == |inputs|
    {
      inputs := inputs + [input];
      size := |inputs|;
    }

    method CalcParity() returns (p: Byte)
      modifies this`parity
      ensures p == XorTags(TaggedParts(Contents())) && parity == Ord(p)
    {
      hide Add, Tagged;
      p := 0;
      ghost var ps := Contents();
      assert ps[0..] == ps && ps[|ps|..] == [];
      AddZero(XorParts(ps));
      for i := 0 to |inputs|
        invariant Add(p, XorParts(ps[i..])) == XorParts(ps)
      {
        var q := InputParity(inputs[i]);
        assert ps[i..][1..] == ps[i + 1..];
        AddAssoc(p, q, XorParts(ps[i + 1..]));
        p := Add(p, q);
      }
      AddZero(p);
      PartsParity(ps);
      SetParity(p);
    }

    /** The inputs hold what they held before, behind the headers for the first n places. */
    ghost predicate Headed(was: seq<Part>, n: nat, p: Byte)
      requires |was| == |inputs| <= MAX_STRUCTURED_SYMBOLS && n <= |inputs|
      reads this`inputs, inputs
    {
      forall i :: 0 <= i < |inputs| ==> inputs[i].entries == HeadersFor(inputs, inputs[i], n, p) + was[i]
    }

    lemma HeadedNone(p: Byte)
      requires |inputs| <= MAX_STRUCTURED_SYMBOLS
      ensures Headed(Contents(), 0, p)
    {
      hide HeaderEntry, HeadersFor;
      NoHeaders(inputs, p);
    }

    /** Put the header for place i in front of its input; fails if there are too many inputs. */
    method NumberOne(i: nat, p: Byte, ghost was: seq<Part>) returns (ret: int)
      requires i < |inputs| == |was| && (|inputs| <= MAX_STRUCTURED_SYMBOLS ==> Headed(was, i, p))
      modifies inputs`entries
      ensures ret == if |inputs| <= MAX_STRUCTURED_SYMBOLS then 0 else -1
      ensures if ret == 0 then Headed(was, i + 1, p) else Contents() == old(Contents())
    {
      hide HeaderEntry, HeadersFor;
      ret := InsertHeader(inputs[i], |inputs|, i + 1, p);
      if ret == 0 {
        forall k | 0 <= k < |inputs| ensures inputs[k].entries == HeadersFor(inputs, inputs[k], i + 1, p) + was[k] {
          NextHeader(inputs, inputs[k], i, p, was[k]);
        }
      }
    }

    /** Put headers in front of all inputs; fails at the first one when there are too many. */
    method NumberInputs(p: Byte) returns (ret: int)
      modifies inputs`entries
      ensures ret == if |inputs| <= MAX_STRUCTURED_SYMBOLS then 0 else -1
      ensures if ret == 0 then Headed(old(Contents()), |inputs|, p) else Contents() == old(Contents())
    {
      hide HeaderEntry, HeadersFor, Headed;
      ghost var was := Contents();
      if |inputs| <= MAX_STRUCTURED_SYMBOLS { HeadedNone(p); }
      for i := 0 to |inputs|
        invariant i == 0 || |inputs| <= MAX_STRUCTURED_SYMBOLS
        invariant if |inputs| <= MAX_STRUCTURED_SYMBOLS then Headed(was, i, p) else Contents() == was
      {
        var r := NumberOne(i, p, was);
        if r != 0 { return -1; }
      }
      ret := 0;
    }

    /** Number the inputs, unless there is only one. An input that occurs twice gets two headers. */
    method InsertHeaders() returns (ret: int)
      requires Valid()
      modifies this`parity, inputs`entries
      ensures Valid()
      ensures ret == if |inputs| <= MAX_STRUCTURED_SYMBOLS then 0 else -1
      ensures old(parity) >= 0 || |inputs| == 1 ==> parity == old(parity)
      ensures old(parity) < 0 && |inputs| != 1 ==> parity == Ord(XorTags(TaggedParts(old(Contents()))))
      ensures |inputs| == 1 || ret == -1 ==> Contents() == old(Contents())
      ensures |inputs| != 1 && ret == 0 ==>
                && 0 <= parity < 256
                && Headed(old(Contents()), |inputs|, Chr(parity))
                && (Distinct() ==> Contents() == WithHeaders(old(Contents()), Chr(parity)))
    {
      hide Add, Tagged, TaggedParts, XorTags, HeaderEntry, Ord, Chr, WithHeaders, HeadersFor;
      ghost var was := Contents();
      if |inputs| == 1 { return 0; }
      if parity < 0 { var p := CalcParity(); }
      ret := NumberInputs(Chr(parity));
      if ret == 0 && Distinct() { HeadersOnce(was, Chr(parity)); }
    }

    /** In a set without repetition every input has its own number. */
    lemma HeadersOnce(was: seq<Part>, p: Byte)
      requires |was| == |inputs| <= MAX_STRUCTURED_SYMBOLS && |inputs| != 1 && Distinct() && Headed(was, |inputs|, p)
      ensures Contents() == WithHeaders(was, p)
    {
      hide HeaderEntry, WithHeaders, HeadersFor;
      forall i | 0 <= i < |inputs| ensures Contents()[i] == [HeaderEntry(|inputs|, i + 1, p)] + was[i] {
        OneHeader(inputs, i, |inputs|, p);
      }
      HeadersAre(was, Contents(), p);
    }
  }

  lemma HeadersAre(ps: seq<Part>, qs: seq<Part>, parity: Byte)
    requires |ps| == |qs| <= MAX_STRUCTURED_SYMBOLS && |ps| != 1
    requires forall i :: 0 <= i < |ps| ==> qs[i] == [HeaderEntry(|ps|, i + 1, parity)] + ps[i]
    ensures qs == WithHeaders(ps, parity)
  {
    hide HeaderEntry;
  }

  // ---- Splitting an input ----

  lemma StepFits(es: seq<Entry>, version: nat, level: Level, current: Part)
    requires 1 <= version <= VERSION_MAX && AllPlain(es) && AllPlain(current) && es != []
    ensures AllValid(current)
    ensures EstimateEntry(es[0], version) <= Room(version, level) - |EncodeAll(current, version)| ==>
              && AllPlain(current + [es[0]])
              && Split(es, version, level, current) == Split(es[1..], version, level, current + [es[0]])
  {
    hide LengthOfCode, Room, EncodeAll, EstimateEntry, Plain, AllValid;
    PlainValid(current);
  }

  lemma StepMoves(es: seq<Entry>, version: nat, level: Level, current: Part, free: int)
    requires 1 <= version <= VERSION_MAX && AllPlain(es) && AllPlain(current) && AllValid(current) && es != []
    requires free == Room(version, level) - |EncodeAll(current, version)| < EstimateEntry(es[0], version)
    requires LengthOfCode(es[0].mode, version, free) == 0
    ensures current != [] && Split(es, version, level, current) == Prepend(current, Split(es, version, level, []))
  {
    hide LengthOfCode, Room, EncodeAll, EstimateEntry, Plain, AllValid;
    EmptyNothing(version);
    PlainFacts(es[0]);
    SomethingFits(es[0].mode, version, level);
  }

  lemma StepFails(es: seq<Entry>, version: nat, level: Level, current: Part, free: int)
    requires 1 <= version <= VERSION_MAX && AllPlain(es) && AllPlain(current) && AllValid(current) && es != []
    requires free == Room(version, level) - |EncodeAll(current, version)| < EstimateEntry(es[0], version)
    requires LengthOfCode(es[0].mode, version, free) >= |es[0].data|
    ensures Split(es, version, level, current).None?
  {
    hide LengthOfCode, Room, EncodeAll, EstimateEntry, Plain, AllValid, FirstHalf, SecondHalf, Prepend;
    PlainFacts(es[0]);
  }

  lemma StepCuts(es: seq<Entry>, version: nat, level: Level, current: Part, free: int, n: nat)
    requires 1 <= version <= VERSION_MAX && AllPlain(es) && AllPlain(current) && AllValid(current) && es != []
    requires free == Room(version, level) - |EncodeAll(current, version)| < EstimateEntry(es[0], version)
    requires n == LengthOfCode(es[0].mode, version, free) && 0 < n < |es[0].data|
    ensures Plain(FirstHalf(es[0], n)) && AllPlain([SecondHalf(es[0], n)] + es[1..])
    ensures Split(es, version, level, current)
         == Prepend(current + [FirstHalf(es[0], n)], Split([SecondHalf(es[0], n)] + es[1..], version, level, []))
  {
    hide LengthOfCode, Room, EncodeAll, EstimateEntry, Plain, AllValid, FirstHalf, SecondHalf, Prepend;
    CutPlain(es[0], version, free);
  }

  function PrependAll(parts: seq<Part>, r: Option<seq<Part>>): Option<seq<Part>> {
    if r.None? then None else Some(parts + r.value)
  }

  lemma PrependEmpty(r: Option<seq<Part>>)
    ensures PrependAll([], r) == r
  {
    if r.Some? { assert [] + r.value == r.value; }
  }

  lemma PrependLast(parts: seq<Part>, p: Part, r: Option<seq<Part>>)
    ensures PrependAll(parts, Prepend(p, r)) == PrependAll(parts + [p], r)
  {
    if r.Some? { assert parts + ([p] + r.value) == parts + [p] + r.value; }
  }

  /** Move the entries from position k on, or only from the second half of entry k on, to a new input. */
  method Detach(input: QRInput, k: nat, bytes: nat) returns (p: QRInput)
    requires input.version <= VERSION_MAX && k < |input.entries| && bytes < |input.entries[k].data|
    modifies input`entries
    ensures fresh(p) && p.version == input.version && p.level == input.level
    ensures var e := old(input.entries)[k];
            if bytes > 0 then
              input.entries == old(input.entries)[..k] + [FirstHalf(e, bytes)]
              && p.entries == [SecondHalf(e, bytes)] + old(input.entries)[k + 1..]
            else input.entries == old(input.entries)[..k] && p.entries == old(input.entries)[k..]
  {
    p := new QRInput(input.version, input.level);
    var e := input.entries[k];
    if bytes > 0 {
      p.entries := [SecondHalf(e, bytes)] + input.entries[k + 1..];
      input.entries := input.entries[..k] + [FirstHalf(e, bytes)];
    } else {
      p.entries := input.entries[k..];
      input.entries := input.entries[..k];
    }
  }

  /** Finish the current input before entry k, or within it, and go on with a new one. */
  method Advance(s: QRStruct, input: QRInput, k: nat, bytes: nat) returns (p: QRInput)
    requires s.Distinct() && input !in s.inputs
    requires input.version <= VERSION_MAX && k < |input.entries| && bytes < |input.entries[k].data|
    modifies input`entries, s`inputs
    ensures fresh(p) && p.version == input.version && p.level == input.level
    ensures s.Distinct() && s.inputs == old(s.inputs) + [input] && p !in s.inputs
    ensures var e := old(input.entries)[k];
            if bytes > 0 then
              s.Contents() == old(s.Contents()) + [old(input.entries)[..k] + [FirstHalf(e, bytes)]]
              && p.entries == [SecondHalf(e, bytes)] + old(input.entries)[k + 1..]
            else
              s.Contents() == old(s.Contents()) + [old(input.entries)[..k]] && p.entries == old(input.entries)[k..]
  {
    p := Detach(input, k, bytes);
    var size := s.AppendInput(input);
  }

  /** Distribute the entries of an input over itself and new inputs, which all go to s. */
  method Distribute(source: QRInput, s: QRStruct, maxbits: int) returns (ok: bool)
    requires 1 <= source.version <= VERSION_MAX && AllPlain(source.entries) && s.inputs == []
    requires maxbits == Room(source.version, source.level)
    modifies source`entries, s`inputs
    ensures var r := Split(old(source.entries), source.version, source.level, []);
            && ok == r.Some?
            && (ok ==> s.Distinct() && s.Contents() == r.value)
    ensures ok ==> forall i :: 0 <= i < |s.inputs| ==>
                     && (s.inputs[i] == source || fresh(s.inputs[i]))
                     && s.inputs[i].version == source.version && s.inputs[i].level == source.level
  {
    hide LengthOfCode, Room, EncodeAll, EncodeEntry, EstimateEntry, Plain, AllValid, ModeData, Split;
    var version, level := source.version, source.level;
    ghost var es := source.entries;
    EmptyNothing(version);
    AllPlainNothing();
    var input := source;
    var bits, k := 0, 0;
    ghost var parts: seq<Part> := [];
    assert es[..0] == [] && es[0..] == es;
    PrependEmpty(Split(es, version, level, []));
    while k < |input.entries|
      invariant (input == source || fresh(input)) && input.version == version && input.level == level && k <= |input.entries|
      invariant s.Distinct() && input !in s.inputs
      invariant forall i :: 0 <= i < |s.inputs| ==> (s.inputs[i] == source || fresh(s.inputs[i]))
      invariant forall i :: 0 <= i < |s.inputs| ==> s.inputs[i].version == version && s.inputs[i].level == level
      invariant s.Contents() == parts
      invariant AllPlain(input.entries[k..]) && AllPlain(input.entries[..k]) && AllValid(input.entries[..k])
      invariant bits == |EncodeAll(input.entries[..k], version)|
      invariant Split(es, version, level, []) == PrependAll(parts, Split(input.entries[k..], version, level, input.entries[..k]))
      decreases TotalSize(input.entries[k..]), k
    {
      ghost var current, rest := input.entries[..k], input.entries[k..];
      var e := input.entries[k];
      PlainFacts(e);
      var nextbits := EstimateEntry(e, version);
      StepFits(rest, version, level, current);
      if bits + nextbits <= maxbits {
        var b := EncodeBitStream(e, version);
        EncodeAppend(current, e, version);
        bits := bits + |b.data|;
        k := k + 1;
        assert input.entries[..k] == current + [e] && input.entries[k..] == rest[1..];
      } else {
        var bytes := LengthOfCode(e.mode, version, maxbits - bits);
        if bytes >= |e.data| {
          StepFails(rest, version, level, current, maxbits - bits);
          return false;
        }
        if bytes > 0 { StepCuts(rest, version, level, current, maxbits - bits, bytes); }
        else { StepMoves(rest, version, level, current, maxbits - bits); }
        var p := Advance(s, input, k, bytes);
        ghost var part := current + if bytes > 0 then [FirstHalf(e, bytes)] else [];
        assert bytes == 0 ==> part == current;
        PrependLast(parts, part, Split(p.entries, version, level, []));
        parts := parts + [part];
        input, bits, k := p, 0, 0;
        assert input.entries[..0] == [] && input.entries[0..] == input.entries;
      }
    }
    assert input.entries[k..] == [] && input.entries[..k] == input.entries;
    LastPart(parts, input.entries, version, level);
    var size := s.AppendInput(input);
    ok := true;
  }

  lemma LastPart(parts: seq<Part>, current: Part, version: nat, level: Level)
    requires 1 <= version <= VERSION_MAX && AllPlain(current)
    ensures AllPlain([]) && PrependAll(parts, Split([], version, level, current)) == Some(parts + [current])
  {}

  /** Distribute a copy of the input over new inputs, and number them; null if that is impossible. */
  method SplitQRinputToStruct(source: QRInput) returns (s: QRStruct?)
    requires source.version <= VERSION_MAX && AllPlain(source.entries)
    ensures var r := SplitToParts(source.entries, source.version, source.level);
            && (s == null <==> r.None?)
            && (s != null ==> fresh(s) && s.Valid() && s.Distinct() && s.Contents() == r.value && s.parity == Ord(Parity(source.entries)))
    ensures s != null ==> forall i :: 0 <= i < |s.inputs| ==>
                            && fresh(s.inputs[i])
                            && s.inputs[i].version == source.version && s.inputs[i].level == source.level
  {
    hide Plain, Split, Parity, HeaderEntry, Ord, Chr, AllPlain, XorTags, TaggedParts;
    s := new QRStruct();
    var input := new QRInput(source.version, source.level);
    input.entries := source.entries;
    var parity := InputParity(input);
    s.SetParity(parity);
    var maxbits := 8 * DataLength(source.version, source.level) - STRUCTURE_HEADER_SIZE;
    RoomBounds(source.version, source.level);
    if maxbits <= 0 { return null; }
    var ok := Distribute(input, s, maxbits);
    if !ok { return null; }
    if |s.inputs| > MAX_STRUCTURED_SYMBOLS { return null; }
    var ret := s.InsertHeaders();
    ParityByte(parity);
    if ret < 0 { return null; }
  }

  lemma ParityByte(p: Byte)
    ensures 0 <= Ord(p) < 256 && Chr(Ord(p)) == p
  {
    ChrIs(Ord(p), p);
  }

  // ---- A split that fails although everything fits ----

  /** 140 Kanji characters. */
  function KanjiEntry(): (e: Entry)
    ensures Plain(e)
  {
    KanjiText(280)
  }

  lemma KanjiEntryFacts()
    ensures var e := KanjiEntry();
            && ModeData(e.mode, e.data) && !TooLong(e, 9)
            && EstimateEntry(e, 9) == 1844 && |EncodeEntry(e, 9)| == 1832
    ensures Room(9, L) == 1836
  {
    var e := KanjiEntry();
    assert |e.data| == 280 && e.mode == Kanji && ModeData(e.mode, e.data);
    hide ModeData, KanjiEntry, KanjiText, KanjiBytes, EncodeChunk, EncodeEntry;
    SmallPowers();
    assert EstimateEntry(e, 9) == 1844 by { assert Product(2, 12) == 24; }
    assert !TooLong(e, 9);
    hide EstimateEntry, TooLong;
    OneSegment(e, 9);
    ChunkLength(e, 9);
  }

  /** At version 9-L the estimate counts two segments for them and rejects them, but all of them fit
      as one: the split asks for an empty second half, and fails. */
  lemma KanjiSplitFails()
    ensures AllPlain([KanjiEntry()]) && AllValid([KanjiEntry()])
    ensures |EncodeAll([KanjiEntry()], 9)| <= Room(9, L)
    ensures SplitToParts([KanjiEntry()], 9, L).None?
  {
    KanjiEntryFacts();
    hide KanjiEntry, ModeData, EncodeEntry, EncodeAll, Room, EstimateEntry, LengthOfCode, Plain, Split, TooLong, AllValid;
    var e := KanjiEntry();
    SplitFailsWhen(e, 9, 1836);
    OneEntry(e, 9);
    EmptyNothing(9);
    PlainFacts(e);
    StepFails([e], 9, L, [], 1836);
  }
}
