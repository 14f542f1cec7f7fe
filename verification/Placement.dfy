/** Placing the bits of the codes in a symbol, and a reader that sees only dark and light modules. */
module Placement {
  import opened GF256
  import opened QRSpec
  import opened BitStreams
  import opened Segments
  import opened RoundTrip
  import opened SegmentLayout
  import opened VersionChoice
  import opened Inputs
  import opened RSPoly
  import opened RawCode
  import opened FrameFillers
  import opened Frames
  import opened FreeModules
  import opened MaskPatterns
  import opened Masks

  // ---- Writing along the path ----

  /** How the data modules are written. */
  function BitByte(x: bool): Byte { if x then 0x03 else 0x02 }

  lemma BitByteFacts(x: bool)
    ensures !Reserved(BitByte(x)) && Dark(BitByte(x)) == x
  {}

  ghost predicate PathIn(p: seq<nat>, f: seq<Byte>) {
    forall i :: 0 <= i < |p| ==> p[i] < |f| && !Reserved(f[p[i]])
  }

  /** The frame after the bits are written to the first modules of the path. */
  function Placed(f: seq<Byte>, p: seq<nat>, bits: Bits): (g: seq<Byte>)
    requires |bits| <= |p| && forall i :: 0 <= i < |p| ==> p[i] < |f|
    ensures |g| == |f|
  {
    if bits == [] then f
    else
      var n := |bits| - 1;
      Placed(f, p, bits[..n])[p[n] := BitByte(bits[n])]
  }

  lemma {:induction false} PlacedKeeps(f: seq<Byte>, p: seq<nat>, bits: Bits)
    requires |bits| <= |p| && PathIn(p, f)
    ensures forall i :: 0 <= i < |f| ==> Reserved(Placed(f, p, bits)[i]) == Reserved(f[i])
    ensures forall i :: 0 <= i < |f| && Reserved(f[i]) ==> Placed(f, p, bits)[i] == f[i]
  {
    hide Reserved, BitByte;
    if bits != [] {
      var n := |bits| - 1;
      PlacedKeeps(f, p, bits[..n]);
      BitByteFacts(bits[n]);
    }
  }

  lemma {:induction false} PlacedAt(f: seq<Byte>, p: seq<nat>, bits: Bits, k: nat)
    requires k < |bits| <= |p| && forall i :: 0 <= i < |p| ==> p[i] < |f|
    requires forall i, j :: 0 <= i < j < |p| ==> p[i] != p[j]
    ensures Placed(f, p, bits)[p[k]] == BitByte(bits[k])
  {
    hide BitByte;
    var n := |bits| - 1;
    if k < n { PlacedAt(f, p, bits[..n], k); }
  }

  // ---- Reading along the path ----

  /** The bit that a module shows once the mask pattern is taken off. */
  predicate ReadModule(l: seq<bool>, w: nat, mask: nat, i: nat)
    requires |l| == w * w && i < w * w && mask < MASKS
  {
    IndexOfAny(w, i);
    l[i] != Marked(mask, i % w, i / w)
  }

  function ReadPath(l: seq<bool>, w: nat, mask: nat, p: seq<nat>): (bits: Bits)
    requires |l| == w * w && mask < MASKS && forall i :: 0 <= i < |p| ==> p[i] < w * w
    ensures |bits| == |p|
  {
    seq(|p|, k requires 0 <= k < |p| => ReadModule(l, w, mask, p[k]))
  }

  lemma ReadMasked(b: Byte, mask: nat, x: nat, y: nat)
    requires mask < MASKS && !Reserved(b)
    ensures Dark(MaskedModule(b, mask, x, y)) == (Dark(b) != Marked(mask, x, y))
  {
    hide Condition, Toggle, Marked;
    MarkedIs(mask, x, y);
    ToggleFacts(b);
  }

  /** What was placed is what is read from a masked symbol with format information. */
  lemma ReadPlaced(f: seq<Byte>, w: nat, p: seq<nat>, bits: Bits, mask: nat, level: Level)
    requires SymbolWidth(w) && |f| == w * w && FormatClear(f, w) && mask < MASKS
    requires PathIn(p, f) && |bits| <= |p|
    requires forall i, j :: 0 <= i < j < |p| ==> p[i] != p[j]
    ensures ReadPath(Colours(Candidate(Placed(f, p, bits), w, mask, level)), w, mask, p)[..|bits|] == bits
  {
    hide Reserved, Dark, BitByte, Candidate, Marked, Placed, FormatClear, MaskedModule, Masked;
    var h := Placed(f, p, bits);
    PlacedKeeps(f, p, bits);
    ClearAfter(f, h, w);
    var g := Candidate(h, w, mask, level);
    CandidateKeeps(h, w, mask, level);
    forall k | 0 <= k < |bits|
      ensures ReadPath(Colours(g), w, mask, p)[k] == bits[k]
    {
      var i := p[k];
      IndexOfAny(w, i);
      PlacedAt(f, p, bits, k);
      BitByteFacts(bits[k]);
      CandidateUnmasks(h, w, mask, level, i);
      MaskedAt(g, w, mask, i);
      ReadMasked(g[i], mask, i % w, i / w);
    }
  }

  lemma MaskedAt(f: seq<Byte>, w: nat, mask: nat, i: nat)
    requires |f| == w * w && i < w * w && mask < MASKS
    ensures 0 <= i / w && 0 <= i % w && Masked(f, w, mask)[i] == MaskedModule(f[i], mask, i % w, i / w)
  {
    IndexOfAny(w, i);
  }

  lemma ClearAfter(f: seq<Byte>, g: seq<Byte>, w: nat)
    requires |f| == |g| == w * w && FormatClear(f, w)
    requires forall i :: 0 <= i < |f| && Reserved(f[i]) ==> g[i] == f[i]
    ensures FormatClear(g, w)
  {
    hide Reserved, Dark, FormatCell, Index;
    forall x, y | 0 <= x < w && 0 <= y < w && FormatCell(w, x, y)
      ensures Reserved(At(g, w, x, y)) && !Dark(At(g, w, x, y))
    {
      assert At(g, w, x, y) == At(f, w, x, y) by {
        assert At(g, w, x, y) == g[Index(w, x, y)] && At(f, w, x, y) == f[Index(w, x, y)];
      }
    }
  }

  // ---- The layout of a symbol ----

  /** What is fixed by version and level: the initial frame, the free modules in the order of the
      walk, the blocks, and the number of remainder bits. */
  datatype Layout = Layout(w: nat, frame: seq<Byte>, path: seq<nat>, spec: EccSpec, remainder: nat) {
    ghost predicate Valid() {
      && SymbolWidth(w) && w <= 177 && |frame| == w * w && Walkable(frame, w) && FormatClear(frame, w)
      && path == Path(frame, w, 0)
      && PathIn(path, frame) && (forall i, j :: 0 <= i < j < |path| ==> path[i] != path[j])
      && spec.Valid()
      && |path| == 8 * Codes() + remainder
    }

    function Codes(): nat { spec.DataTotal() + spec.EccTotal() }
  }

  function LayoutOf(version: nat, level: Level): Layout
    requires 1 <= version <= VERSION_MAX
  {
    Layout(Width(version), FrameOf(version), DataPath(version), GetEccSpec(version, level), Remainder(version))
  }

  lemma CodesOf(version: nat, level: Level)
    requires 1 <= version <= VERSION_MAX
    ensures DataLength(version, level) + ECCLength(version, level) == CapacityTable(version).words
  {}

  /** Every version and level has a valid layout: in particular, there is exactly one free module
      for each bit. */
  lemma LayoutValid(version: nat, level: Level)
    requires 1 <= version <= VERSION_MAX
    ensures LayoutOf(version, level).Valid()
    ensures LayoutOf(version, level).w == 4 * version + 17 == Width(version)
    ensures LayoutOf(version, level).spec.DataTotal() == DataLength(version, level)
  {
    CodesOf(version, level);
    EccSpecExact(version, level);
    WidthFormula(version);
    PathCapacity(version);
    FrameOfOk(version);
    hide Width, FrameOf, Reserved, FormatCell, Dark, At, Path, CapacityTable, GetEccSpec, DataLength, ECCLength, Remainder;
    hide EccSpec.Valid, EccSpec.DataTotal, EccSpec.EccTotal;
    var w, f, p := Width(version), FrameOf(version), DataPath(version);
    PathDistinct(f, w, 0);
    forall i | 0 <= i < |p| ensures p[i] < |f| && !Reserved(f[p[i]]) {
      var v := PathPlace(f, w, 0, i);
    }
  }

  // ---- A symbol, and the reader ----

  /** All bits of a symbol: the interleaved codes and the remainder bits. */
  function SymbolBits(lay: Layout, data: Word): (bits: Bits)
    requires lay.Valid() && |data| == lay.spec.DataTotal()
    ensures |bits| == |lay.path|
  {
    BytesBits(Interleave(lay.spec, data)) + seq(lay.remainder, _ => false)
  }

  /** The frame with all bits in place, before masking. */
  function FilledFrame(lay: Layout, data: Word): (f: seq<Byte>)
    requires lay.Valid() && |data| == lay.spec.DataTotal()
    ensures |f| == lay.w * lay.w
  {
    Placed(lay.frame, lay.path, SymbolBits(lay, data))
  }

  /** The finished symbol. */
  function SymbolFrame(lay: Layout, data: Word, mask: nat, level: Level): (f: seq<Byte>)
    requires lay.Valid() && |data| == lay.spec.DataTotal() && mask < MASKS
    ensures |f| == lay.w * lay.w
  {
    Candidate(FilledFrame(lay, data), lay.w, mask, level)
  }

  /** The data codewords: unmask, walk, pack and put the blocks in order. */
  function ReadData(lay: Layout, l: seq<bool>, mask: nat): Word
    requires lay.Valid() && mask < MASKS && |l| == lay.w * lay.w
  {
    var bits := ReadPath(l, lay.w, mask, lay.path);
    Deinterleave(lay.spec, Pack(bits[..8 * lay.Codes()]))
  }

  datatype Symbol = NoSymbol | Symbol(version: nat, level: Level, mask: nat, segments: seq<Entry>)

  /** The data codewords of a symbol of known version and level. */
  function ReadCodewords(l: seq<bool>, version: nat, level: Level, mask: nat): Word
    requires 1 <= version <= VERSION_MAX && mask < MASKS && |l| == (4 * version + 17) * (4 * version + 17)
  {
    LayoutValid(version, level);
    ReadData(LayoutOf(version, level), l, mask)
  }

  /** Read a symbol from its modules, by the first or by the second copy of the format information. */
  function Decode(l: seq<bool>, w: nat, second: bool): Symbol {
    if !(SymbolWidth(w) && w <= 177 && |l| == w * w) then NoSymbol
    else
      var version := (w - 17) / 4;
      match ReadFormat(ReadWord(l, w, second, 0))
      case NoFormat => NoSymbol
      case Format(mask, level) =>
        match ReadAll(BytesBits(ReadCodewords(l, version, level, mask)), version)
        case Bad => NoSymbol
        case Got(segments, _) => Symbol(version, level, mask, segments)
  }

  lemma CodesBits(lay: Layout, data: Word)
    requires lay.Valid() && |data| == lay.spec.DataTotal()
    ensures Pack(SymbolBits(lay, data)[..8 * lay.Codes()]) == Interleave(lay.spec, data)
  {
    hide BytesBits, Pack, Interleave;
    var codes := Interleave(lay.spec, data);
    assert SymbolBits(lay, data)[..8 * lay.Codes()] == BytesBits(codes) == BytesBits(codes) + [];
    UnpackRoundTrip(codes, []);
  }

  /** Reading the data codewords of a finished symbol gives them back. */
  lemma ReadDataInverse(lay: Layout, data: Word, mask: nat, level: Level)
    requires lay.Valid() && |data| == lay.spec.DataTotal() && mask < MASKS
    ensures ReadData(lay, Colours(SymbolFrame(lay, data, mask, level)), mask) == data
  {
    hide Candidate, Placed, Colours, ReadPath, Interleave, Deinterleave, BytesBits, Pack, EccSpec.Valid;
    hide EccSpec.DataTotal, EccSpec.EccTotal, Path, Walkable, FormatClear, PathIn, SymbolBits;
    var bits := SymbolBits(lay, data);
    ReadPlaced(lay.frame, lay.w, lay.path, bits, mask, level);
    var read := ReadPath(Colours(SymbolFrame(lay, data, mask, level)), lay.w, mask, lay.path);
    assert read == read[..|bits|] == bits;
    CodesBits(lay, data);
    DeinterleaveInverse(lay.spec, data);
  }

  /** The bits are those of the codes, the most significant first, and light remainder bits. */
  lemma BitsOfSymbol(lay: Layout, data: Word, k: nat)
    requires lay.Valid() && |data| == lay.spec.DataTotal() && k < |lay.path|
    ensures |Interleave(lay.spec, data)| == lay.Codes()
    ensures SymbolBits(lay, data)[k]
       <==> k / 8 < lay.Codes() && Ord(Interleave(lay.spec, data)[k / 8]) / Pow2(7 - k % 8) % 2 == 1
  {
    hide BytesBits, ByteBits, Interleave, EccSpec.Valid, EccSpec.DataTotal, EccSpec.EccTotal, Path, Walkable;
    hide FormatClear, PathIn, Ord, Pow2;
    var codes := Interleave(lay.spec, data);
    if k / 8 < |codes| {
      ByteOfBits(codes, k / 8);
      ByteNumber(codes[k / 8]);
      NumBit(8, Ord(codes[k / 8]), k % 8);
      assert BytesBits(codes)[k] == ByteBits(codes[k / 8])[k % 8];
    }
  }

  /** Every module that carries data shows its bit, inverted where the mask pattern marks it. */
  lemma DataModules(lay: Layout, data: Word, mask: nat, level: Level, k: nat)
    requires lay.Valid() && |data| == lay.spec.DataTotal() && mask < MASKS && k < |lay.path|
    ensures var p, w := lay.path[k], lay.w;
            && p < w * w && 0 <= p % w && 0 <= p / w
            && Dark(SymbolFrame(lay, data, mask, level)[p]) == (SymbolBits(lay, data)[k] != Marked(mask, p % w, p / w))
  {
    hide Candidate, Placed, Interleave, BytesBits, EccSpec.Valid, Marked, Dark;
    hide EccSpec.DataTotal, EccSpec.EccTotal, Path, Walkable, FormatClear, PathIn, SymbolBits;
    var bits, w := SymbolBits(lay, data), lay.w;
    ReadPlaced(lay.frame, w, lay.path, bits, mask, level);
    var l := Colours(SymbolFrame(lay, data, mask, level));
    var read := ReadPath(l, w, mask, lay.path);
    assert read == read[..|bits|] == bits;
    IndexOfAny(w, lay.path[k]);
    assert bits[k] == ReadModule(l, w, mask, lay.path[k]);
  }

  /** And the format information tells mask pattern and level. */
  lemma FormatInverse(lay: Layout, data: Word, mask: nat, level: Level, second: bool)
    requires lay.Valid() && |data| == lay.spec.DataTotal() && mask < MASKS
    ensures ReadFormat(ReadWord(Colours(SymbolFrame(lay, data, mask, level)), lay.w, second, 0)) == Format(mask, level)
  {
    hide FilledFrame, Masked, WithFormat, ReadWord, Colours, FormatInfo, ReadFormat;
    FormatRead(Masked(FilledFrame(lay, data), lay.w, mask), lay.w, mask, level, second);
  }

  lemma CodewordsInverse(version: nat, level: Level, data: Word, mask: nat)
    requires 1 <= version <= VERSION_MAX && |data| == DataLength(version, level) && mask < MASKS
    ensures var lay := LayoutOf(version, level);
            && lay.Valid() && |data| == lay.spec.DataTotal() && lay.w == 4 * version + 17
            && ReadCodewords(Colours(SymbolFrame(lay, data, mask, level)), version, level, mask) == data
  {
    LayoutValid(version, level);
    hide LayoutOf, DataLength, SymbolFrame, ReadData, Colours, Layout.Valid, EccSpec.DataTotal;
    ReadDataInverse(LayoutOf(version, level), data, mask, level);
  }

  lemma DecodeIs(l: seq<bool>, w: nat, second: bool, version: nat, level: Level, mask: nat, segments: seq<Entry>, rest: Bits)
    requires 1 <= version <= VERSION_MAX && w == 4 * version + 17 && |l| == w * w && mask < MASKS
    requires ReadFormat(ReadWord(l, w, second, 0)) == Format(mask, level)
    requires ReadAll(BytesBits(ReadCodewords(l, version, level, mask)), version) == Got(segments, rest)
    ensures Decode(l, w, second) == Symbol(version, level, mask, segments)
  {
    hide ReadFormat, ReadWord, ReadAll, BytesBits, ReadCodewords;
  }

  /** The reader recovers version, level, mask pattern and the segments of the message. */
  lemma DecodeInverse(es: seq<Entry>, level: Level, version: nat, mask: nat, second: bool)
    requires AllValid(es) && Fits(es, level, version) && mask < MASKS
    ensures AllValid(ChunksAll(es, version))
    ensures var lay, data := LayoutOf(version, level), Codewords(es, level, version);
            && lay.Valid() && |data| == lay.spec.DataTotal()
            && Decode(Colours(SymbolFrame(lay, data, mask, level)), lay.w, second)
               == Symbol(version, level, mask, CanonAll(ChunksAll(es, version)))
  {
    FitsVersion(es, level, version);
    hide Codewords, SymbolFrame, ReadCodewords, ReadAll, CanonAll, ChunksAll, AllValid, Fits, ReadWord, Colours;
    hide LayoutOf, DataLength, EccSpec.DataTotal, FormatInfo, ReadFormat, Layout.Valid, BytesBits, Decode, Padding;
    CodewordsRead(es, level, version);
    var lay, data := LayoutOf(version, level), Codewords(es, level, version);
    CodewordsInverse(version, level, data, mask);
    FormatInverse(lay, data, mask, level, second);
    LayoutWidth(lay);
    DecodeIs(Colours(SymbolFrame(lay, data, mask, level)), lay.w, second, version, level, mask,
             CanonAll(ChunksAll(es, version)), Padding(|EncodeAll(es, version)|, DataLength(version, level)));
  }

  lemma FitsVersion(es: seq<Entry>, level: Level, version: nat)
    requires AllValid(es) && Fits(es, level, version)
    ensures 1 <= version <= VERSION_MAX
  {}

  lemma LayoutWidth(lay: Layout)
    requires lay.Valid()
    ensures SymbolWidth(lay.w) && lay.w <= 177 && |lay.frame| == lay.w * lay.w
  {}
}
