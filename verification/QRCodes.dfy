/** Encoding an input into a symbol. */
module QRCodes {
  import opened GF256
  import opened QRSpec
  import opened BitStreams
  import opened Segments
  import opened RoundTrip
  import opened VersionChoice
  import opened VersionExact
  import opened Inputs
  import opened RSPoly
  import opened RSCode
  import opened RawCode
  import opened Raw
  import opened FrameFillers
  import opened FreeModules
  import opened Frames
  import opened MaskPatterns
  import opened Masks
  import opened Placement
  import opened FunctionPatterns

  datatype QRCode = QRCode(version: nat, width: nat, data: seq<Byte>)

  // ---- Writing through the filler ----

  /** Writing data modules keeps the walk. */
  lemma WriteKeepsWalk(f: seq<Byte>, g: seq<Byte>, w: nat, p: nat, value: Byte, u: nat)
    requires Walkable(f, w) && p < |f| && !Reserved(f[p]) && !Reserved(value) && g == f[p := value]
    ensures Walkable(g, w) && Path(g, w, u) == Path(f, w, u)
  {
    hide Reserved, Index, Path;
    assert forall i :: 0 <= i < |f| ==> Reserved(f[i]) == Reserved(g[i]);
    PathSame(f, g, w, u);
    forall x, y | 0 <= x < w && 0 <= y < w && (x == 6 || (4 <= x <= 5 && y <= 8))
      ensures Reserved(At(g, w, x, y))
    {
      assert Reserved(At(f, w, x, y));
    }
  }

  lemma HeadFree(f: seq<Byte>, w: nat, u: nat, p: nat, rest: seq<nat>)
    requires SymbolWidth(w) && |f| == w * w && Path(f, w, u) == [p] + rest
    ensures p < |f| && !Reserved(f[p])
  {
    hide Path, Reserved, Cell;
    assert Path(f, w, u)[0] == p;
    var v := PathPlace(f, w, u, 0);
  }

  /** Write the value to the next free module; fails when there is none. */
  method Write(filler: FrameFiller, value: Byte) returns (ok: bool)
    requires filler.Valid() && !Reserved(value)
    modifies filler, filler.frame
    ensures !ok ==> old(filler.Rest()) == []
    ensures ok ==> filler.Valid() && old(filler.Rest()) != [] && filler.Rest() == old(filler.Rest())[1..]
    ensures ok ==> old(filler.Rest())[0] < filler.frame.Length
    ensures ok ==> filler.frame[..] == old(filler.frame[..])[old(filler.Rest())[0] := value]
  {
    hide Reserved, Path, Walkable, Standing, SymbolWidth;
    ghost var f, w, u := filler.frame[..], filler.width, filler.step + 1;
    ghost var rest := filler.Rest();
    WalkableWidth(f, w);
    var p := filler.Next();
    if p < 0 { return false; }
    HeadFree(f, w, u, p, filler.Rest());
    WriteKeepsWalk(f, f[p := value], w, p, value, filler.step + 1);
    filler.frame[p] := value;
    assert filler.frame[..] == f[p := value];
    ok := true;
  }

  lemma WalkableWidth(f: seq<Byte>, w: nat)
    requires Walkable(f, w)
    ensures SymbolWidth(w) && |f| == w * w
  {}

  /** One more bit of the symbol is placed. */
  lemma NextPlaced(f: seq<Byte>, p: seq<nat>, bits: Bits, n: nat)
    requires n < |bits| <= |p| && forall i :: 0 <= i < |p| ==> p[i] < |f|
    ensures Placed(f, p, bits[..n + 1]) == Placed(f, p, bits[..n])[p[n] := BitByte(bits[n])]
  {
    assert bits[..n + 1][..n] == bits[..n];
  }

  // ---- Writing codes ----

  /** Write the eight bits of a code. */
  method WriteCode(filler: FrameFiller, code: Byte, ghost f: seq<Byte>, ghost path: seq<nat>, ghost bits: Bits, ghost n: nat)
    returns (ok: bool)
    requires filler.Valid() && |f| == filler.frame.Length && forall i :: 0 <= i < |path| ==> path[i] < |f|
    requires n + 8 <= |bits| <= |path| && bits[n..n + 8] == ByteBits(code)
    requires filler.Rest() == path[n..] && filler.frame[..] == Placed(f, path, bits[..n])
    modifies filler, filler.frame
    ensures ok && filler.Valid()
    ensures filler.Rest() == path[n + 8..] && filler.frame[..] == Placed(f, path, bits[..n + 8])
  {
    hide Placed, BitSet, BitByte, FrameFiller.Valid, FrameFiller.Rest, Reserved, ByteBits;
    var bit: Byte := 0x80;
    assert bit == MaskAt(0);
    hide MaskAt, Half;
    for j := 0 to 8
      invariant filler.Valid() && bit == MaskAt(j)
      invariant filler.Rest() == path[n + j..] && filler.frame[..] == Placed(f, path, bits[..n + j])
    {
      MaskBit(code, j); MaskNext(j);
      assert bits[n + j] == ByteBits(code)[j];
      NextPlaced(f, path, bits, n + j);
      BitByteFacts(BitSet(code, bit));
      var done := Write(filler, BitByte(BitSet(code, bit)));
      if !done { return false; }
      bit := Half(bit);
    }
    ok := true;
  }

  /** Byte i of the codes supplies eight bits. */
  lemma CodeBits(codes: Word, rest: Bits, i: nat)
    requires i < |codes|
    ensures (BytesBits(codes) + rest)[8 * i..8 * i + 8] == ByteBits(codes[i])
  {
    hide BytesBits, ByteBits;
    ByteOfBits(codes, i);
    assert (BytesBits(codes) + rest)[8 * i..8 * i + 8] == BytesBits(codes)[8 * i..8 * i + 8];
  }

  /** Write all codes, then the remainder bits. */
  method Fill(raw: QRRawCode, filler: FrameFiller, remainder: nat, ghost f: seq<Byte>, ghost path: seq<nat>)
    returns (ok: bool)
    requires raw.Valid() && raw.count == 0
    requires filler.Valid() && |f| == filler.frame.Length && forall i :: 0 <= i < |path| ==> path[i] < |f|
    requires filler.Rest() == path && filler.frame[..] == f
    requires |path| == 8 * |raw.Codes()| + remainder
    requires raw.datacode != filler.frame && raw.ecccode != filler.frame
    modifies raw, filler, filler.frame
    ensures ok
    ensures filler.frame[..] == Placed(f, path, BytesBits(old(raw.Codes())) + seq(remainder, _ => false))
  {
    hide Placed, BytesBits, ByteBits, Interleave, BitByte, FrameFiller.Valid, FrameFiller.Rest;
    hide QRRawCode.Codes, QRRawCode.BlocksDone, Reserved, EccSpec.DataTotal, EccSpec.EccTotal, EccSpec.Valid;
    ghost var codes := raw.Codes();
    ghost var bits := BytesBits(codes) + seq(remainder, _ => false);
    assert path[0..] == path && bits[..0] == [];
    PlacedNone(f, path);
    var length := raw.spec.DataTotal() + raw.spec.EccTotal();
    assert |codes| == length by { CodesLength(raw); }
    for i := 0 to length
      invariant raw.Valid() && raw.count == i && raw.Codes() == codes && filler.Valid()
      invariant filler.Rest() == path[8 * i..] && filler.frame[..] == Placed(f, path, bits[..8 * i])
    {
      var code := raw.GetCode();
      CodeBits(codes, seq(remainder, _ => false), i);
      ok := WriteCode(filler, code, f, path, bits, 8 * i);
      if !ok { return; }
    }
    ok := FillRemainder(filler, remainder, f, path, bits);
    assert bits[..|bits|] == bits;
  }

  /** Write the remainder bits. */
  method FillRemainder(filler: FrameFiller, remainder: nat, ghost f: seq<Byte>, ghost path: seq<nat>, ghost bits: Bits)
    returns (ok: bool)
    requires filler.Valid() && |f| == filler.frame.Length && forall i :: 0 <= i < |path| ==> path[i] < |f|
    requires remainder <= |bits| == |path| && forall i :: |bits| - remainder <= i < |bits| ==> !bits[i]
    requires filler.Rest() == path[|bits| - remainder..]
    requires filler.frame[..] == Placed(f, path, bits[..|bits| - remainder])
    modifies filler, filler.frame
    ensures ok && filler.frame[..] == Placed(f, path, bits[..|bits|])
  {
    hide Placed, BitByte, FrameFiller.Valid, FrameFiller.Rest, Reserved;
    ghost var n := |bits| - remainder;
    for i := 0 to remainder
      invariant filler.Valid()
      invariant filler.Rest() == path[n + i..] && filler.frame[..] == Placed(f, path, bits[..n + i])
    {
      NextPlaced(f, path, bits, n + i);
      BitByteFacts(false);
      var done := Write(filler, BitByte(false));
      if !done { return false; }
    }
    ok := true;
  }

  lemma PlacedNone(f: seq<Byte>, p: seq<nat>)
    requires forall i :: 0 <= i < |p| ==> p[i] < |f|
    ensures Placed(f, p, []) == f
  {}

  lemma CodesLength(raw: QRRawCode)
    requires raw.Valid()
    ensures raw.Shape() && |raw.Codes()| == raw.spec.DataTotal() + raw.spec.EccTotal()
  {}

  // ---- Encoding ----

  /** What the encoder makes of data codewords: mask patterns 0 to 7 as asked for, the best one for
      negative numbers, but the unmasked frame for -2. */
  ghost predicate Encoded(f: seq<Byte>, lay: Layout, level: Level, data: Word, mask: int, chosen: nat)
    requires lay.Valid() && |data| == lay.spec.DataTotal()
  {
    if mask == -2 then f == FilledFrame(lay, data)
    else
      && chosen < MASKS && f == SymbolFrame(lay, data, chosen, level)
      && (if mask >= 0 then chosen == mask else BestOf(FilledFrame(lay, data), lay.w, level, MASKS, chosen))
  }

  lemma FrameWalkable(version: nat)
    requires 1 <= version <= VERSION_MAX
    ensures SymbolWidth(Width(version)) && Walkable(FrameOf(version), Width(version))
    ensures |FrameOf(version)| == Width(version) * Width(version)
  {
    WidthFormula(version);
    FrameOfOk(version);
  }

  /** A frame that holds all codes of the input. */
  method BuildFrame(version: nat, level: Level, bytes: seq<Byte>, cache: Cache, ghost lay: Layout) returns (frame: array<Byte>)
    requires 1 <= version <= VERSION_MAX && cache.Valid()
    requires lay == LayoutOf(version, level) && lay.Valid() && |bytes| == lay.spec.DataTotal()
    modifies cache
    ensures cache.Valid() && fresh(frame) && frame[..] == FilledFrame(lay, bytes)
  {
    FrameWalkable(version);
    hide Width, FrameOf, DataPath, GetEccSpec, Remainder, DataLength, Path, Walkable, FormatClear, PathIn;
    hide EccSpec.Valid, EccSpec.DataTotal, EccSpec.EccTotal, Placed, BytesBits, Interleave;
    var raw := new QRRawCode(version, GetEccSpec(version, level), bytes, cache);
    var buffer := NewFrame(version);
    frame := buffer;
    var filler := new FrameFiller(Width(version), frame);
    var ok := Fill(raw, filler, Remainder(version), lay.frame, lay.path);
  }

  /** Mask the frame as asked for; fails for a pattern number above 7. */
  method ApplyMask(width: nat, frame: array<Byte>, mask: int, level: Level, ghost lay: Layout, ghost data: Word)
    returns (masked: array?<Byte>, ghost chosen: nat)
    requires lay.Valid() && |data| == lay.spec.DataTotal()
    requires width == lay.w && frame[..] == FilledFrame(lay, data)
    ensures masked == null <==> mask >= MASKS
    ensures masked != null ==> Encoded(masked[..], lay, level, data, mask, chosen)
  {
    hide FilledFrame, Candidate, Path, Walkable, FormatClear, PathIn, EccSpec.Valid, EccSpec.DataTotal, EccSpec.EccTotal;
    chosen := 0;
    if mask == -2 {
      var copy := new Byte[frame.Length](i requires 0 <= i < frame.Length reads frame => frame[i]);
      assert copy[..] == frame[..];
      masked := copy;
    } else if mask < 0 {
      masked, chosen := Mask(width, frame, level);
    } else {
      masked := MakeMask(width, frame, mask, level);
      chosen := mask;
    }
  }

  /** The symbol for a message and a requested version. */
  ghost predicate IsSymbol(code: QRCode, es: seq<Entry>, level: Level, requested: nat, mask: int, chosen: nat)
    requires requested <= VERSION_MAX && AllValid(es)
  {
    && 1 <= code.version <= VERSION_MAX
    && var lay := LayoutOf(code.version, level);
    && lay.Valid() && code.width == lay.w
    && exists data :: |data| == lay.spec.DataTotal() && SymbolData(es, level, requested) == Some((code.version, data))
                      && Encoded(code.data, lay, level, data, mask, chosen)
  }

  /** Encode the input as a symbol with a mask pattern. */
  method EncodeMask(input: QRInput, mask: int, cache: Cache) returns (code: Option<QRCode>, ghost chosen: nat)
    requires input.Valid() && cache.Valid()
    modifies input`version, input`streams, cache
    ensures input.Valid() && cache.Valid()
    ensures code.None? <==> !Encodable(input.entries, input.level, old(input.version)) || mask >= MASKS
    ensures code.Some? ==> input.version == code.value.version
    ensures code.Some? ==> IsSymbol(code.value, input.entries, input.level, old(input.version), mask, chosen)
  {
    hide SymbolData, LayoutOf, Layout.Valid, FilledFrame, SymbolFrame, DataLength, AllValid, EccSpec.DataTotal, Fits, Encoded;
    hide AllChecked, Encodable;
    ghost var requested := input.version;
    chosen := 0;
    var bytes := input.GetByteStream();
    if bytes.None? { return None, 0; }
    var version := input.version;
    DataFits(input.entries, input.level, requested);
    LayoutValid(version, input.level);
    ghost var lay := LayoutOf(version, input.level);
    var frame := BuildFrame(version, input.level, bytes.value, cache, lay);
    var masked: array?<Byte>;
    masked, chosen := ApplyMask(Width(version), frame, mask, input.level, lay, bytes.value);
    if masked == null { return None, 0; }
    code := Some(QRCode(version, Width(version), masked[..]));
  }

  lemma DataFits(es: seq<Entry>, level: Level, requested: nat)
    requires requested <= VERSION_MAX && AllValid(es) && SymbolData(es, level, requested).Some?
    ensures var (version, data) := SymbolData(es, level, requested).value;
            && 1 <= version <= VERSION_MAX && Fits(es, level, version)
            && data == Codewords(es, level, version) && |data| == DataLength(version, level)
  {
    FinalVersionFits(es, level, requested);
    CodewordsRead(es, level, FinalVersion(es, level, requested));
  }

  /** The frame that is masked still has light format modules. */
  lemma FilledClear(lay: Layout, data: Word)
    requires lay.Valid() && |data| == lay.spec.DataTotal()
    ensures FormatClear(FilledFrame(lay, data), lay.w)
  {
    hide FormatClear, Placed, SymbolBits, Walkable, Path, Reserved;
    PlacedKeeps(lay.frame, lay.path, SymbolBits(lay, data));
    ClearAfter(lay.frame, FilledFrame(lay, data), lay.w);
  }

  lemma BestDemerit(lay: Layout, data: Word, level: Level, k: nat, m: nat)
    requires lay.Valid() && |data| == lay.spec.DataTotal() && m < MASKS
    requires BestOf(FilledFrame(lay, data), lay.w, level, MASKS, k)
    ensures 1 <= lay.w
    ensures Demerit(SymbolFrame(lay, data, k, level), lay.w) <= Demerit(SymbolFrame(lay, data, m, level), lay.w)
    ensures m < k ==> Demerit(SymbolFrame(lay, data, k, level), lay.w) < Demerit(SymbolFrame(lay, data, m, level), lay.w)
  {
    hide FormatClear, FilledFrame, Score, Demerit, Candidate, Walkable, Path, PathIn;
    FilledClear(lay, data);
    ScoreIsDemerit(FilledFrame(lay, data), lay.w, k, level);
    ScoreIsDemerit(FilledFrame(lay, data), lay.w, m, level);
  }

  /** The symbol for mask -1 has the least penalty of the eight symbols that can be asked for, and the
      lowest pattern number of those. */
  lemma SymbolBest(code: QRCode, other: QRCode, es: seq<Entry>, level: Level, requested: nat, chosen: nat, m: nat)
    requires requested <= VERSION_MAX && AllValid(es) && m < MASKS
    requires IsSymbol(code, es, level, requested, -1, chosen) && IsSymbol(other, es, level, requested, m, m)
    ensures code.width == other.width >= 1 && |code.data| == |other.data| == code.width * code.width
    ensures Demerit(code.data, code.width) <= Demerit(other.data, code.width)
    ensures m < chosen ==> Demerit(code.data, code.width) < Demerit(other.data, code.width)
  {
    hide SymbolData, LayoutOf, Layout.Valid, SymbolFrame, FilledFrame, AllValid, BestOf, EccSpec.DataTotal, Demerit;
    var lay := LayoutOf(code.version, level);
    var data :| |data| == lay.spec.DataTotal() && SymbolData(es, level, requested) == Some((code.version, data))
                && Encoded(code.data, lay, level, data, -1, chosen);
    BestDemerit(lay, data, level, chosen, m);
  }

  /** What a scanner sees of every finished symbol: the function patterns of its version, both copies
      of the format word, and on the path of free modules the bits of the codes, masked. */
  lemma SymbolDrawn(code: QRCode, es: seq<Entry>, level: Level, requested: nat, mask: int, chosen: nat)
    requires requested <= VERSION_MAX && AllValid(es)
    requires IsSymbol(code, es, level, requested, mask, chosen) && mask != -2
    ensures code.width == 4 * code.version + 17 && |code.data| == code.width * code.width && chosen < MASKS
    ensures PlanOf(code.version).Valid() && Patterned(code.data, code.version)
    ensures forall k :: 0 <= k < 15 ==>
              FormatShown(code.data, code.width, PlacesAround()[k], FormatInfo(chosen, level), k)
              && FormatShown(code.data, code.width, PlacesApart(code.width)[k], FormatInfo(chosen, level), k)
    ensures SymbolData(es, level, requested).Some?
    ensures var lay, data := LayoutOf(code.version, level), SymbolData(es, level, requested).value.1;
            && lay.Valid() && |data| == lay.spec.DataTotal()
            && forall k :: 0 <= k < |lay.path| ==>
                 BitShown(code.data, code.width, lay.path[k], chosen, SymbolBits(lay, data)[k])
  {
    hide SymbolData, Layout.Valid, FilledFrame, SymbolBits, AllValid, BestOf, EccSpec.DataTotal, Patterned;
    hide PlanOf, Plan.Valid;
    hide FormatInfo, PlacesAround, PlacesApart, WithFormat, Masked, Dark, Marked;
    var lay := LayoutOf(code.version, level);
    LayoutValid(code.version, level);
    hide LayoutOf;
    var data :| |data| == lay.spec.DataTotal() && SymbolData(es, level, requested) == Some((code.version, data))
                && Encoded(code.data, lay, level, data, mask, chosen);
    SymbolPatterned(code.version, level, data, chosen);
    LayoutWidth(lay);
    forall k | 0 <= k < 15
      ensures FormatShown(code.data, code.width, PlacesAround()[k], FormatInfo(chosen, level), k)
      ensures FormatShown(code.data, code.width, PlacesApart(code.width)[k], FormatInfo(chosen, level), k)
    {
      FormatModules(Masked(FilledFrame(lay, data), lay.w, chosen), lay.w, FormatInfo(chosen, level), k);
    }
    forall k | 0 <= k < |lay.path|
      ensures BitShown(code.data, code.width, lay.path[k], chosen, SymbolBits(lay, data)[k])
    {
      DataModules(lay, data, chosen, level, k);
    }
  }

  /** Bit k of a format word is shown at a place. */
  ghost predicate FormatShown(f: seq<Byte>, w: nat, place: (int, int), word: nat, k: nat) {
    && |f| == w * w && 0 <= place.0 < w && 0 <= place.1 < w
    && (Dark(At(f, w, place.0, place.1)) <==> word / Pow2(k) % 2 == 1)
  }

  /** A bit is shown at module p, inverted where the mask pattern marks the module. */
  ghost predicate BitShown(f: seq<Byte>, w: nat, p: nat, mask: nat, bit: bool)
    requires mask < MASKS
  {
    p < |f| && 1 <= w && (Dark(f[p]) <==> bit != Marked(mask, p % w, p / w))
  }

  /** End to end: a reader that sees nothing but the dark and light modules of the symbol, and
      reads either copy of the format information, recovers version, level, mask pattern and the
      segments of the message. */
  lemma SymbolReadable(code: QRCode, es: seq<Entry>, level: Level, requested: nat, mask: int, chosen: nat, second: bool)
    requires requested <= VERSION_MAX && AllValid(es)
    requires IsSymbol(code, es, level, requested, mask, chosen) && mask != -2
    ensures AllValid(ChunksAll(es, code.version))
    ensures Decode(Colours(code.data), code.width, second)
         == Symbol(code.version, level, chosen, CanonAll(ChunksAll(es, code.version)))
  {
    hide SymbolData, Decode, LayoutOf, Layout.Valid, SymbolFrame, FilledFrame, AllValid, Fits, Colours, BestOf;
    hide ChunksAll, CanonAll;
    hide EccSpec.DataTotal, DataLength, Codewords;
    DataFits(es, level, requested);
    DecodeInverse(es, level, code.version, chosen, second);
  }

  /** The segments that are read are exactly those of the message if and only if every second byte
      of a Kanji character is at least 0x40, and structured-append fields are in range. */
  lemma SymbolFaithful(code: QRCode, es: seq<Entry>, level: Level, requested: nat, mask: int, chosen: nat, second: bool)
    requires requested <= VERSION_MAX && AllValid(es)
    requires IsSymbol(code, es, level, requested, mask, chosen) && mask != -2
    ensures Decode(Colours(code.data), code.width, second) == Symbol(code.version, level, chosen, ChunksAll(es, code.version))
       <==> forall i :: 0 <= i < |es| ==> Faithful(es[i])
  {
    hide IsSymbol, Decode, Faithful, ChunksAll, CanonAll, AllValid, Colours;
    SymbolReadable(code, es, level, requested, mask, chosen, second);
    CanonAllSame(es, code.version);
  }
}
