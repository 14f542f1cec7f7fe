/** Strings and structured sets of symbols, from end to end. */
module Encoders {
  import opened GF256
  import opened QRSpec
  import opened Segments
  import opened Estimate
  import opened RoundTrip
  import opened VersionChoice
  import opened VersionExact
  import opened Inputs
  import opened Splitting
  import opened StructuredAppend
  import opened RSCode
  import opened MaskPatterns
  import opened Placement
  import opened QRCodes

  // ---- Strings ----

  /** Encode a string with the best mask pattern. */
  method EncodeString(s: seq<Byte>, version: int, level: Level, hint: Mode, casesensitive: bool, cache: Cache)
    returns (code: Option<QRCode>, ghost chosen: nat)
    requires NulFree(s) && cache.Valid()
    modifies cache
    ensures cache.Valid()
    ensures code.Some? ==> s != [] && hint in {Eight, Kanji} && 0 <= version <= VERSION_MAX
    ensures s != [] && hint in {Eight, Kanji} && 0 <= version <= VERSION_MAX ==>
              var es := Pieces(Prepared(s, hint, casesensitive), 0, version, hint);
              && AllValid(es)
              && (code.None? <==> !Encodable(es, level, version))
              && (code.Some? ==> IsSymbol(code.value, es, level, version, -1, chosen))
  {
    hide Pieces, Prepared, Encodable, IsSymbol, AllValid, AllChecked, NulFree;
    chosen := 0;
    if hint != Eight && hint != Kanji { return None, 0; }
    if version < 0 || version > VERSION_MAX { return None, 0; }
    ValidNothing();
    var input := new QRInput(version, level);
    var ret := SplitStringToQRinput(s, input, hint, casesensitive);
    if ret < 0 { return None, 0; }
    assert input.entries == Pieces(Prepared(s, hint, casesensitive), 0, version, hint);
    code, chosen := EncodeMask(input, -1, cache);
  }

  lemma ValidNothing()
    ensures AllValid([]) && AllChecked([])
  {}

  lemma JoinedFirst(e: Entry, rest: seq<Entry>)
    ensures Joined([e] + rest) == e.data + Joined(rest)
  {
    assert ([e] + rest)[1..] == rest;
  }

  lemma JoinedNothing()
    ensures Joined([]) == []
  {}

  lemma {:induction false} JoinedConcat(a: seq<Entry>, b: seq<Entry>)
    ensures Joined(a + b) == Joined(a) + Joined(b)
  {
    hide Joined;
    JoinedNothing();
    if a == [] {
      assert a + b == b;
    } else {
      var e, rest := a[0], a[1..];
      JoinedConcat(rest, b);
      JoinedFirst(e, rest);
      JoinedFirst(e, rest + b);
      assert a == [e] + rest && a + b == [e] + (rest + b);
    }
  }

  lemma {:induction false} ChunksAllJoin(es: seq<Entry>, version: nat)
    requires AllValid(es)
    ensures Joined(ChunksAll(es, version)) == Joined(es)
  {
    hide ModeData, Chunks;
    if es != [] {
      ChunksJoin(es[0], version);
      ChunksAllJoin(es[1..], version);
      JoinedConcat(Chunks(es[0], version), ChunksAll(es[1..], version));
    }
  }

  /** Segments that read back with the same lengths give the same data only if none has changed. */
  lemma {:induction false} JoinedSame(a: seq<Entry>, b: seq<Entry>)
    requires |a| == |b| && forall i :: 0 <= i < |a| ==> a[i].mode == b[i].mode && |a[i].data| == |b[i].data|
    ensures Joined(a) == Joined(b) <==> a == b
  {
    if a != [] {
      JoinedSame(a[1..], b[1..]);
      if Joined(a) == Joined(b) {
        assert a[0].data == Joined(a)[..|a[0].data|] && b[0].data == Joined(b)[..|a[0].data|];
        assert Joined(a[1..]) == Joined(a)[|a[0].data|..] && Joined(b[1..]) == Joined(b)[|a[0].data|..];
        assert a == [a[0]] + a[1..] && b == [b[0]] + b[1..];
      }
    }
  }

  lemma CanonLength(e: Entry)
    requires ModeData(e.mode, e.data)
    ensures Canon(e).mode == e.mode && |Canon(e).data| == |e.data|
  {}

  /** A reader recovers the string exactly if every Kanji segment of it is faithful: always, then,
      for the 8-bit hint. */
  lemma StringReadable(code: QRCode, s: seq<Byte>, level: Level, requested: nat, hint: Mode, mask: int, chosen: nat, second: bool)
    requires requested <= VERSION_MAX && AllValid(Pieces(s, 0, requested, hint))
    requires IsSymbol(code, Pieces(s, 0, requested, hint), level, requested, mask, chosen) && mask != -2
    ensures Decode(Colours(code.data), code.width, second).Symbol?
    ensures var es := Pieces(s, 0, requested, hint);
            Joined(Decode(Colours(code.data), code.width, second).segments) == s
            <==> forall i :: 0 <= i < |es| ==> Faithful(es[i])
    ensures hint != Kanji ==> Joined(Decode(Colours(code.data), code.width, second).segments) == s
  {
    hide Decode, Faithful, ChunksAll, IsSymbol, AllValid, Colours, Pieces, Joined, Canon;
    var es := Pieces(s, 0, requested, hint);
    PiecesJoin(s, 0, requested, hint);
    SymbolReadable(code, es, level, requested, mask, chosen, second);
    SymbolFaithful(code, es, level, requested, mask, chosen, second);
    ChunksAllJoin(es, code.version);
    var cs := ChunksAll(es, code.version);
    CanonLengths(cs);
    JoinedSame(CanonAll(cs), cs);
    assert s[0..] == s;
    if hint != Kanji {
      forall i | 0 <= i < |es| ensures ModeData(es[i].mode, es[i].data) && Faithful(es[i]) { NoKanjiFaithful(es[i]); }
    }
  }

  lemma CanonLengths(cs: seq<Entry>)
    requires AllValid(cs)
    ensures forall i :: 0 <= i < |cs| ==> CanonAll(cs)[i].mode == cs[i].mode && |CanonAll(cs)[i].data| == |cs[i].data|
  {
    hide Canon, ModeData;
    forall i | 0 <= i < |cs| ensures CanonAll(cs)[i].mode == cs[i].mode && |CanonAll(cs)[i].data| == |cs[i].data| {
      CanonLength(cs[i]);
    }
  }

  lemma NoKanjiFaithful(e: Entry)
    requires Check(e) && e.mode != Structure && e.mode != Kanji
    ensures ModeData(e.mode, e.data) && Faithful(e)
  {}

  /** No byte below 0x40 follows another one with which it would be taken for a Kanji character. */
  ghost predicate NoLowPair(s: seq<Byte>) {
    forall i :: 0 <= i < |s| - 1 && IsKanji(s[i], s[i + 1]) ==> Ord(s[i + 1]) >= 0x40
  }

  lemma NoLowPairCut(s: seq<Byte>, n: nat)
    requires n <= |s| && NoLowPair(s)
    ensures NoLowPair(s[..n]) && NoLowPair(s[n..])
  {
    hide IsKanji, Ord;
    forall i | 0 <= i < |s| - n - 1 && IsKanji(s[n..][i], s[n..][i + 1]) ensures Ord(s[n..][i + 1]) >= 0x40 {
      assert s[n..][i] == s[n + i] && s[n..][i + 1] == s[n + i + 1];
    }
  }

  lemma {:induction false} NoLowPairHigh(d: seq<Byte>)
    requires KanjiData(d) && NoLowPair(d)
    ensures HighSeconds(d)
    decreases |d|
  {
    hide IsKanji, Ord;
    if d != [] {
      NoLowPairCut(d, 2);
      NoLowPairHigh(d[2..]);
      assert IsKanji(d[0], d[1]) && Ord(d[1]) >= 0x40;
      forall i | 0 <= i < |d| && i % 2 == 1 ensures Ord(d[i]) >= 0x40 {
        if i > 1 { assert d[i] == d[2..][i - 2]; }
      }
    }
  }

  lemma {:induction false} JoinedHigh(es: seq<Entry>)
    requires AllValid(es) && NoLowPair(Joined(es))
    ensures forall i :: 0 <= i < |es| && es[i].mode != Structure ==> Faithful(es[i])
  {
    hide KanjiData, NoLowPair, HighSeconds;
    if es != [] {
      var e, n := es[0], |es[0].data|;
      NoLowPairCut(Joined(es), n);
      assert Joined(es)[..n] == e.data && Joined(es)[n..] == Joined(es[1..]);
      if e.mode == Kanji { NoLowPairHigh(e.data); }
      JoinedHigh(es[1..]);
      assert forall i :: 0 < i < |es| ==> es[i] == es[1..][i - 1];
    }
  }

  /** A caller can tell from the string alone that a reader will recover it: for any hint, if no
      such pair occurs anywhere in it. */
  lemma StringRecovered(code: QRCode, s: seq<Byte>, level: Level, requested: nat, hint: Mode, mask: int, chosen: nat, second: bool)
    requires requested <= VERSION_MAX && AllValid(Pieces(s, 0, requested, hint))
    requires IsSymbol(code, Pieces(s, 0, requested, hint), level, requested, mask, chosen) && mask != -2
    requires NoLowPair(s)
    ensures Decode(Colours(code.data), code.width, second).Symbol?
    ensures Joined(Decode(Colours(code.data), code.width, second).segments) == s
  {
    hide Decode, Faithful, IsSymbol, AllValid, Colours, Pieces, Joined, NoLowPair;
    var es := Pieces(s, 0, requested, hint);
    PiecesJoin(s, 0, requested, hint);
    assert s[0..] == s;
    JoinedHigh(es);
    StringReadable(code, s, level, requested, hint, mask, chosen, second);
  }

  function LowKanji(): seq<Byte> { [0x82, 0x01] }

  lemma LowEntry()
    ensures |LowKanji()| == 2 && NulFree(LowKanji())
    ensures Check(Entry(Kanji, LowKanji())) && !Faithful(Entry(Kanji, LowKanji()))
    ensures Base(Entry(Kanji, LowKanji())) <= 1000
    ensures IdentifyMode(LowKanji(), 0, Kanji) == Some(Kanji)
  {
    assert Ord(0x82) == 0x82 && Ord(0x01) == 1;
  }

  lemma LowPieces(requested: nat)
    ensures Pieces(LowKanji(), 0, requested, Kanji) == [Entry(Kanji, LowKanji())]
  {
    hide LowKanji, Check, IdentifyMode;
    LowEntry();
    var s := LowKanji();
    assert NextPiece(s, 0, requested, Kanji) == Piece(Kanji, 2);
    EatProgress(s, 0, requested, Kanji);
    assert s[0..2] == s && Pieces(s, 2, requested, Kanji) == [];
  }

  /** This two-byte string is always encoded with the Kanji hint, and always reads back as another
      one. */
  lemma LowKanjiLost(code: QRCode, level: Level, requested: nat, mask: int, chosen: nat, second: bool)
    requires requested <= VERSION_MAX
    ensures var s := LowKanji();
            var es := Pieces(s, 0, requested, Kanji);
            && AllValid(es) && Encodable(es, level, requested)
            && (IsSymbol(code, es, level, requested, mask, chosen) && mask != -2 ==>
                  && Decode(Colours(code.data), code.width, second).Symbol?
                  && Joined(Decode(Colours(code.data), code.width, second).segments) != s)
  {
    hide Decode, Faithful, IsSymbol, Encodable, AllValid, Colours, Pieces, Joined, LowKanji, Check, Base;
    var es := Pieces(LowKanji(), 0, requested, Kanji);
    LowEntry();
    LowPieces(requested);
    TwoBytes(Entry(Kanji, LowKanji()), level, requested);
    if IsSymbol(code, es, level, requested, mask, chosen) && mask != -2 {
      StringReadable(code, LowKanji(), level, requested, Kanji, mask, chosen, second);
      assert es[0] == Entry(Kanji, LowKanji());
    }
  }

  /** A short entry is always encodable. */
  lemma TwoBytes(e: Entry, level: Level, requested: nat)
    requires Check(e) && requested <= VERSION_MAX && Base(e) <= 1000
    ensures AllValid([e]) && Encodable([e], level, requested)
  {
    hide Check, EncodeAll, EstimateAll, Base, AllValid, AllChecked, Cap;
    One(e);
    OneBase(e);
    AllBounds([e], 0); AllBounds([e], 27); AllBounds([e], requested); AllBounds([e], VERSION_MAX);
    CapFacts(level);
  }

  lemma OneBase(e: Entry)
    ensures BaseAll([e]) == Base(e)
  {
    hide Base;
    assert [e][1..] == [];
  }

  // ---- Structured sets of symbols ----

  /** Symbol i belongs to part i. */
  ghost predicate SymbolsOf(codes: seq<QRCode>, ps: seq<Part>, level: Level, requested: nat, chosen: seq<nat>) {
    && |codes| == |ps| == |chosen| && requested <= VERSION_MAX
    && forall i :: 0 <= i < |ps| ==> AllValid(ps[i]) && IsSymbol(codes[i], ps[i], level, requested, -1, chosen[i])
  }

  /** The symbol for an input is the same when the version of its symbol is asked for. */
  lemma SymbolAgain(code: QRCode, es: seq<Entry>, level: Level, requested: nat, chosen: nat)
    requires requested <= VERSION_MAX && AllValid(es) && IsSymbol(code, es, level, requested, -1, chosen)
    ensures code.version <= VERSION_MAX && SymbolData(es, level, code.version) == SymbolData(es, level, requested)
  {
    hide LayoutOf, Layout.Valid, Encoded, FinalVersion, Codewords, AllValid;
    FinalVersionAgain(es, level, requested);
  }

  lemma SameSymbol(code: QRCode, es: seq<Entry>, level: Level, u: nat, v: nat, chosen: nat)
    requires u <= VERSION_MAX && v <= VERSION_MAX && AllValid(es) && SymbolData(es, level, u) == SymbolData(es, level, v)
    requires IsSymbol(code, es, level, u, -1, chosen)
    ensures IsSymbol(code, es, level, v, -1, chosen)
  {
    hide LayoutOf, Layout.Valid, Encoded, SymbolData, AllValid;
  }

  lemma SymbolExists(es: seq<Entry>, level: Level, requested: nat)
    requires requested <= VERSION_MAX && AllChecked(es) && AllValid(es)
    ensures SymbolData(es, level, requested).Some? <==> Encodable(es, level, requested)
  {
    hide FinalVersion, Encodable, Codewords, AllValid, AllChecked;
    FinalExists(es, level, requested);
  }

  /** An input of a set, before or after it is encoded: it gives the symbol for its old version. */
  twostate predicate Pending(input: QRInput)
    reads input
  {
    && input.Valid() && AllValid(input.entries) && old(input.version) <= VERSION_MAX
    && SymbolData(input.entries, input.level, input.version) == SymbolData(input.entries, input.level, old(input.version))
  }

  /** Encode every input of a set, each at its own level and for its own version; fails when one of
      them fails, or when there is none: the empty list is the failure value. An input may occur more
      than once. */
  method EncodeInputStructured(s: QRStruct, cache: Cache) returns (codes: Option<seq<QRCode>>, ghost chosen: seq<nat>)
    requires cache.Valid() && forall i :: 0 <= i < |s.inputs| ==> s.inputs[i].Valid()
    modifies s.inputs`version, s.inputs`streams, cache
    ensures cache.Valid()
    ensures codes.Some? ==>
              && |codes.value| == |chosen| == |s.inputs| >= 1
              && forall i :: 0 <= i < |s.inputs| ==>
                   var input := s.inputs[i];
                   && AllValid(input.entries) && old(input.version) <= VERSION_MAX
                   && IsSymbol(codes.value[i], input.entries, input.level, old(input.version), -1, chosen[i])
    ensures codes.None? <==>
              || s.inputs == []
              || exists i :: 0 <= i < |s.inputs| && AllValid(s.inputs[i].entries)
                             && old(s.inputs[i].version) <= VERSION_MAX
                             && !Encodable(s.inputs[i].entries, s.inputs[i].level, old(s.inputs[i].version))
  {
    hide Encodable, IsSymbol, SymbolData, AllValid, AllChecked;
    var list: seq<QRCode> := [];
    chosen := [];
    for i := 0 to |s.inputs|
      invariant cache.Valid() && |list| == |chosen| == i
      invariant forall k :: 0 <= k < |s.inputs| ==> Pending(s.inputs[k])
      invariant forall k :: 0 <= k < i ==>
                  var input := s.inputs[k];
                  && AllValid(input.entries) && old(input.version) <= VERSION_MAX
                  && Encodable(input.entries, input.level, old(input.version))
                  && IsSymbol(list[k], input.entries, input.level, old(input.version), -1, chosen[k])
    {
      var input := s.inputs[i];
      ghost var es, level, u, v := input.entries, input.level, input.version, old(input.version);
      var code: Option<QRCode>;
      ghost var pattern: nat;
      assert Pending(input);
      SymbolExists(es, level, u); SymbolExists(es, level, v);
      code, pattern := EncodeMask(input, -1, cache);
      if code.None? { return None, chosen; }
      SymbolAgain(code.value, es, level, u, pattern);
      SameSymbol(code.value, es, level, u, v, pattern);
      list, chosen := list + [code.value], chosen + [pattern];
    }
    codes := if list == [] then None else Some(list);
  }

  lemma PartEncodable(p: Part, i: nat, n: nat, parity: Byte, version: nat, level: Level)
    requires i < n <= MAX_STRUCTURED_SYMBOLS && Numbered(p, i, n, parity) && AllValid(p) && Fits(p, level, version)
    ensures AllChecked(p) && version <= VERSION_MAX && Encodable(p, level, version)
  {
    hide Fits, Encodable, AllValid, AllChecked, Numbered;
    PartChecked(p, i, n, parity);
    FitsEncodable(p, level, version);
  }

  /** Split an input, and encode the parts: each of them gets its symbol. */
  method EncodeInputToStructured(input: QRInput, cache: Cache)
    returns (codes: Option<seq<QRCode>>, ghost chosen: seq<nat>)
    requires input.version <= VERSION_MAX && AllPlain(input.entries) && cache.Valid()
    modifies cache
    ensures cache.Valid()
    ensures var ps := SplitToParts(input.entries, input.version, input.level);
            && (ps.None? <==> codes.None?)
            && (codes.Some? ==> SymbolsOf(codes.value, ps.value, input.level, input.version, chosen))
  {
    hide SplitToParts, IsSymbol, Encodable, AllPlain, AllValid, AllChecked, Parity, Fits, Numbered;
    var s := SplitQRinputToStruct(input);
    if s == null { return None, []; }
    PartsCorrect(input.entries, input.version, input.level);
    ghost var ps := s.Contents();
    forall i | 0 <= i < |ps|
      ensures s.inputs[i].entries == ps[i] && AllChecked(ps[i]) && Encodable(ps[i], input.level, input.version)
    {
      PartEncodable(ps[i], i, |ps|, Parity(input.entries), input.version, input.level);
    }
    codes, chosen := EncodeInputStructured(s, cache);
  }

  // ---- Reading a set of symbols ----

  /** What a reader collects from the symbols of a set, in order. */
  function ReadSymbols(codes: seq<QRCode>, second: bool): (r: seq<Part>)
    ensures |r| == |codes|
  {
    seq(|codes|, i requires 0 <= i < |codes| => SegmentsOf(Decode(Colours(codes[i].data), codes[i].width, second)))
  }

  function SegmentsOf(s: Symbol): seq<Entry> { if s.Symbol? then s.segments else [] }

  lemma ChunkTags(e: Entry, version: nat)
    requires ModeData(e.mode, e.data)
    ensures Tagged(Chunks(e, version)) == Tags(e)
    decreases |e.data|
  {
    hide ModeData, Tags, TooLong;
    if TooLong(e, version) {
      HeadTailValid(e, version);
      var h, t := Head(e, version), Tail(e, version);
      ChunkTags(t, version);
      TaggedConcat([h], Chunks(t, version));
      TaggedOne(h); TaggedOne(e); TaggedOne(t);
      assert FirstHalf(e, |h.data|) == h && SecondHalf(e, |h.data|) == t by { HeadTailAre(e, version); }
      TaggedCut(e, |h.data|);
    } else {
      TaggedOne(e);
    }
  }

  lemma HeadTailAre(e: Entry, version: nat)
    requires ModeData(e.mode, e.data) && TooLong(e, version)
    ensures FirstHalf(e, |Head(e, version).data|) == Head(e, version)
            && SecondHalf(e, |Head(e, version).data|) == Tail(e, version)
  {}

  lemma {:induction false} ChunksAllTags(es: seq<Entry>, version: nat)
    requires AllValid(es)
    ensures Tagged(ChunksAll(es, version)) == Tagged(es)
  {
    hide ModeData, Chunks, Tags;
    if es != [] {
      ChunkTags(es[0], version);
      ChunksAllTags(es[1..], version);
      TaggedConcat(Chunks(es[0], version), ChunksAll(es[1..], version));
    }
  }

  lemma {:induction false} ChunkHigh(e: Entry, version: nat)
    requires ModeData(e.mode, e.data)
    ensures AllHigh(Chunks(e, version)) <==> AllHigh([e])
    decreases |e.data|
  {
    hide ModeData, HighKanji, TooLong, AllHigh;
    if TooLong(e, version) {
      HeadTailValid(e, version);
      HeadTailAre(e, version);
      var h, t := Head(e, version), Tail(e, version);
      ChunkHigh(t, version);
      HighConcat([h], Chunks(t, version));
      HighCut(e, |h.data|);
    }
  }

  lemma {:induction false} ChunksAllHigh(es: seq<Entry>, version: nat)
    requires AllValid(es)
    ensures AllHigh(ChunksAll(es, version)) <==> AllHigh(es)
  {
    hide ModeData, Chunks, AllHigh;
    if es != [] {
      ChunkHigh(es[0], version);
      ChunksAllHigh(es[1..], version);
      HighConcat(Chunks(es[0], version), ChunksAll(es[1..], version));
      HighConcat([es[0]], es[1..]);
      assert es == [es[0]] + es[1..];
    }
  }

  lemma SamePairs<T>(a: seq<T>, b: seq<T>, c: seq<T>, d: seq<T>)
    requires |a| == |c|
    ensures a + b == c + d <==> a == c && b == d
  {
    if a + b == c + d {
      assert a == (a + b)[..|a|] && b == (a + b)[|a|..] && c == (c + d)[..|a|] && d == (c + d)[|a|..];
    }
  }

  /** What a reader gets from a segment has the same data exactly if no Kanji byte has changed. */
  lemma CanonTags(e: Entry)
    requires ModeData(e.mode, e.data)
    ensures |Tags(Canon(e))| == |Tags(e)|
    ensures Tags(Canon(e)) == Tags(e) <==> AllHigh([e])
  {
    assert AllHigh([e]) <==> HighKanji(e) by { assert [e][0] == e; }
    CanonSame(e);
    CanonMode(e);
    CanonLength(e);
    hide ModeData, Canon, HighSeconds, StructureFields;
    if e.mode != Structure {
      TagsAre(e); TagsAre(Canon(e));
      assert Tags(Canon(e)) == Tags(e) ==> Canon(e).data == e.data;
    }
  }

  lemma {:induction false} TaggedCanon(cs: seq<Entry>)
    requires AllValid(cs)
    ensures |Tagged(CanonAll(cs))| == |Tagged(cs)|
    ensures Tagged(CanonAll(cs)) == Tagged(cs) <==> AllHigh(cs)
  {
    hide ModeData, Canon, Tags, AllHigh;
    if cs == [] {
      HighNothing();
    } else {
      var c, rest := cs[0], cs[1..];
      TaggedCanon(rest);
      CanonTags(c);
      assert CanonAll(cs)[1..] == CanonAll(rest) && cs == [c] + rest;
      HighConcat([c], rest);
      SamePairs(Tags(Canon(c)), Tagged(CanonAll(rest)), Tags(c), Tagged(rest));
    }
  }

  lemma {:induction false} TaggedPartsSame(ps: seq<Part>, qs: seq<Part>)
    requires |ps| == |qs| && forall i :: 0 <= i < |ps| ==> |Tagged(ps[i])| == |Tagged(qs[i])|
    ensures TaggedParts(ps) == TaggedParts(qs) <==> forall i :: 0 <= i < |ps| ==> Tagged(ps[i]) == Tagged(qs[i])
  {
    hide Tagged;
    if ps != [] {
      TaggedPartsSame(ps[1..], qs[1..]);
      SamePairs(Tagged(ps[0]), TaggedParts(ps[1..]), Tagged(qs[0]), TaggedParts(qs[1..]));
      assert forall i :: 0 < i < |ps| ==> ps[i] == ps[1..][i - 1] && qs[i] == qs[1..][i - 1];
      assert forall i :: 0 <= i < |ps| - 1 ==> ps[1..][i] == ps[i + 1] && qs[1..][i] == qs[i + 1];
    }
  }

  /** A part of a set: its symbol shows the header, if there is one, and the data exactly if no Kanji
      character of it has a second byte below 0x40. */
  lemma PartReadable(code: QRCode, p: Part, i: nat, n: nat, parity: Byte, level: Level, requested: nat, chosen: nat, second: bool)
    requires requested <= VERSION_MAX && AllValid(p) && IsSymbol(code, p, level, requested, -1, chosen)
    requires i < n <= MAX_STRUCTURED_SYMBOLS && Numbered(p, i, n, parity)
    ensures var r := SegmentsOf(Decode(Colours(code.data), code.width, second));
            && |Tagged(r)| == |Tagged(p)| && (Tagged(r) == Tagged(p) <==> AllHigh(p))
            && (n > 1 ==> |r| >= 1 && r[0] == HeaderEntry(n, i + 1, parity))
  {
    hide Decode, ChunksAll, IsSymbol, AllValid, Colours, Tagged, CanonAll, AllHigh, AllPlain, HeaderEntry;
    SymbolReadable(code, p, level, requested, -1, chosen, second);
    var cs := ChunksAll(p, code.version);
    ChunksAllTags(p, code.version);
    ChunksAllHigh(p, code.version);
    TaggedCanon(cs);
    if n > 1 { HeaderChunk(p, code.version, i, n, parity); }
  }

  lemma HeaderChunk(p: Part, version: nat, i: nat, n: nat, parity: Byte)
    requires i < n <= MAX_STRUCTURED_SYMBOLS && p != [] && p[0] == HeaderEntry(n, i + 1, parity)
    requires AllValid(ChunksAll(p, version))
    ensures |CanonAll(ChunksAll(p, version))| >= 1 && CanonAll(ChunksAll(p, version))[0] == p[0]
  {
    hide ModeData, Canon, HeaderEntry;
    assert Chunks(p[0], version) == [p[0]];
    assert ChunksAll(p, version)[0] == p[0];
    HeaderFaithful(n, i + 1, parity);
    CanonSame(p[0]);
  }

  lemma HeaderFaithful(size: nat, number: nat, parity: Byte)
    requires 1 <= number <= size <= 16
    ensures Faithful(HeaderEntry(size, number, parity))
  {}

  lemma HeadersHigh(ps: seq<Part>, parity: Byte)
    requires |ps| <= MAX_STRUCTURED_SYMBOLS
    ensures PartsHigh(WithHeaders(ps, parity)) <==> PartsHigh(ps)
  {
    hide HeaderEntry, AllHigh;
    var qs := WithHeaders(ps, parity);
    forall i | 0 <= i < |ps| ensures AllHigh(qs[i]) <==> AllHigh(ps[i]) {
      if |ps| != 1 {
        HighConcat([HeaderEntry(|ps|, i + 1, parity)], ps[i]);
        HeaderHigh(HeaderEntry(|ps|, i + 1, parity));
      }
    }
  }

  lemma HeaderHigh(e: Entry)
    requires e.mode == Structure
    ensures AllHigh([e])
  {}

  /** Structured append, end to end: the symbols of a message, read one by one, give every byte of
      the message in its mode and in order, exactly if every second byte of a Kanji character is at
      least 0x40; and each symbol of a larger set shows its number, the number of symbols and the
      parity of the message. */
  lemma StructuredReadable(codes: seq<QRCode>, es: seq<Entry>, version: nat, level: Level, chosen: seq<nat>, second: bool)
    requires version <= VERSION_MAX && AllPlain(es) && SplitToParts(es, version, level).Some?
    requires SymbolsOf(codes, SplitToParts(es, version, level).value, level, version, chosen)
    ensures var r := ReadSymbols(codes, second);
            && (TaggedParts(r) == Tagged(es) <==> AllHigh(es))
            && (|codes| > 1 ==> forall i :: 0 <= i < |codes| ==>
                                  |r[i]| >= 1 && r[i][0] == HeaderEntry(|codes|, i + 1, Parity(es)))
  {
    hide Decode, IsSymbol, AllValid, Colours, Tagged, TaggedParts, SplitToParts, Parity, HeaderEntry, Fits;
    hide XorParts, AllPlain;
    hide SegmentsOf, AllHigh, Numbered;
    PartsCorrect(es, version, level);
    var ps, r := SplitToParts(es, version, level).value, ReadSymbols(codes, second);
    forall i | 0 <= i < |ps|
      ensures |Tagged(r[i])| == |Tagged(ps[i])| && (Tagged(r[i]) == Tagged(ps[i]) <==> AllHigh(ps[i]))
      ensures |ps| > 1 ==> |r[i]| >= 1 && r[i][0] == HeaderEntry(|ps|, i + 1, Parity(es))
    {
      PartReadable(codes[i], ps[i], i, |ps|, Parity(es), level, version, chosen[i], second);
    }
    TaggedPartsSame(r, ps);
    AllPartsHigh(es, version, level);
  }

  lemma AllPartsHigh(es: seq<Entry>, version: nat, level: Level)
    requires version <= VERSION_MAX && AllPlain(es) && SplitToParts(es, version, level).Some?
    ensures PartsHigh(SplitToParts(es, version, level).value) <==> AllHigh(es)
  {
    hide Split, Parity, AllPlain, AllHigh, PartsHigh, WithHeaders;
    AllPlainNothing();
    HighNothing();
    SplitHigh(es, version, level, []);
    HeadersHigh(Split(es, version, level, []).value, Parity(es));
  }
}
