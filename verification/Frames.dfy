/** The function patterns of a symbol: everything that is drawn before the data is placed. */
module Frames {
  import opened Arith
  import opened GF256
  import opened QRSpec
  import opened FrameFillers

  // ---- Tables ----

  /** The second and the third position of the alignment patterns; 0 if there is none. */
  function AlignmentTable(version: nat): (nat, nat) {
    match version
    case 2 => (18, 0)
    case 3 => (22, 0)
    case 4 => (26, 0)
    case 5 => (30, 0)
    case 6 => (34, 0)
    case 7 => (22, 38)
    case 8 => (24, 42)
    case 9 => (26, 46)
    case 10 => (28, 50)
    case 11 => (30, 54)
    case 12 => (32, 58)
    case 13 => (34, 62)
    case 14 => (26, 46)
    case 15 => (26, 48)
    case 16 => (26, 50)
    case 17 => (30, 54)
    case 18 => (30, 56)
    case 19 => (30, 58)
    case 20 => (34, 62)
    case 21 => (28, 50)
    case 22 => (26, 50)
    case 23 => (30, 54)
    case 24 => (28, 54)
    case 25 => (32, 58)
    case 26 => (30, 58)
    case 27 => (34, 62)
    case 28 => (26, 50)
    case 29 => (30, 54)
    case 30 => (26, 52)
    case 31 => (30, 56)
    case 32 => (34, 60)
    case 33 => (30, 58)
    case 34 => (34, 62)
    case 35 => (30, 54)
    case 36 => (24, 50)
    case 37 => (28, 54)
    case 38 => (32, 58)
    case 39 => (26, 54)
    case 40 => (30, 58)
    case _ => (0, 0)
  }

  /** The BCH coded version information of versions 7 and up. */
  function VersionPattern(version: nat): nat {
    match version
    case 7 => 0x07c94
    case 8 => 0x085bc
    case 9 => 0x09a99
    case 10 => 0x0a4d3
    case 11 => 0x0bbf6
    case 12 => 0x0c762
    case 13 => 0x0d847
    case 14 => 0x0e60d
    case 15 => 0x0f928
    case 16 => 0x10b78
    case 17 => 0x1145d
    case 18 => 0x12a17
    case 19 => 0x13532
    case 20 => 0x149a6
    case 21 => 0x15683
    case 22 => 0x168c9
    case 23 => 0x177ec
    case 24 => 0x18ec4
    case 25 => 0x191e1
    case 26 => 0x1afab
    case 27 => 0x1b08e
    case 28 => 0x1cc1a
    case 29 => 0x1d33f
    case 30 => 0x1ed75
    case 31 => 0x1f250
    case 32 => 0x209d5
    case 33 => 0x216f0
    case 34 => 0x228ba
    case 35 => 0x2379f
    case 36 => 0x24b0b
    case 37 => 0x2542e
    case 38 => 0x26a64
    case 39 => 0x27541
    case 40 => 0x28c69
    case _ => 0
  }

  // ---- The version information as a BCH code (section 8.10 of JIS X0510:2004) ----

  /** The remainder of an 18-bit word modulo x^12 + x^11 + x^10 + x^9 + x^8 + x^5 + x^2 + 1. */
  function VersionRemainder(v: bv18): bv18 {
    Clear(Clear(Clear(Clear(Clear(Clear(v, 0x20000, 0x3e4a0), 0x10000, 0x1f250), 0x8000, 0xf928), 0x4000, 0x7c94),
                0x2000, 0x3e4a), 0x1000, 0x1f25)
  }

  /** The version number, followed by twelve check bits. */
  function VersionCode(number: bv18): bv18 { (number << 12) | VersionRemainder(number << 12) }

  lemma VersionWordsLow(version: nat)
    requires 7 <= version <= 17
    ensures VersionPattern(version) == VersionCode(version as bv18) as nat
  {
    match version
    case 7 =>
    case 8 =>
    case 9 =>
    case 10 =>
    case 11 =>
    case 12 =>
    case 13 =>
    case 14 =>
    case 15 =>
    case 16 =>
    case _ =>
  }

  lemma VersionWordsMid(version: nat)
    requires 18 <= version <= 28
    ensures VersionPattern(version) == VersionCode(version as bv18) as nat
  {
    match version
    case 18 =>
    case 19 =>
    case 20 =>
    case 21 =>
    case 22 =>
    case 23 =>
    case 24 =>
    case 25 =>
    case 26 =>
    case 27 =>
    case _ =>
  }

  lemma VersionWordsHigh(version: nat)
    requires 29 <= version <= 40
    ensures VersionPattern(version) == VersionCode(version as bv18) as nat
  {
    match version
    case 29 =>
    case 30 =>
    case 31 =>
    case 32 =>
    case 33 =>
    case 34 =>
    case 35 =>
    case 36 =>
    case 37 =>
    case 38 =>
    case 39 =>
    case _ =>
  }

  /** The table holds the code words of the standard's BCH code. */
  lemma VersionWordsAreCodes(version: nat)
    requires 7 <= version <= VERSION_MAX
    ensures VersionPattern(version) == VersionCode(version as bv18) as nat
  {
    hide VersionPattern, VersionCode;
    if version <= 17 { VersionWordsLow(version); } else if version <= 28 { VersionWordsMid(version); } else { VersionWordsHigh(version); }
  }

  // ---- Drawings ----

  datatype Pattern = Finder | Alignment | Plain(value: Byte) | Timing | VersionColumns(info: nat) | VersionRows(info: nat)

  function InfoBit(info: nat, k: nat): Byte { if info / Pow2(k) % 2 == 1 then 0x89 else 0x88 }

  /** The module of a pattern at column dx, row dy of its rectangle. */
  function PatternCell(p: Pattern, dx: nat, dy: nat): Byte {
    match p
    case Finder =>
      if dx == 0 || dx == 6 || dy == 0 || dy == 6 || (2 <= dx <= 4 && 2 <= dy <= 4) then 0xc1 else 0xc0
    case Alignment => if dx == 0 || dx == 4 || dy == 0 || dy == 4 || (dx == 2 && dy == 2) then 0xa1 else 0xa0
    case Plain(v) => v
    case Timing => if (dx + dy + 1) % 2 == 1 then 0x91 else 0x90
    case VersionColumns(info) => InfoBit(info, 3 * dx + dy)
    case VersionRows(info) => InfoBit(info, 3 * dy + dx)
  }

  /** A pattern in the rectangle of nx by ny modules at column ox, row oy. */
  datatype Draw = Draw(ox: int, oy: int, nx: nat, ny: nat, p: Pattern)

  predicate Inside(w: nat, d: Draw) {
    0 <= d.ox && d.ox + d.nx <= w && 0 <= d.oy && d.oy + d.ny <= w
  }

  predicate Covers(d: Draw, x: int, y: int) {
    d.ox <= x < d.ox + d.nx && d.oy <= y < d.oy + d.ny
  }

  function DrawnCell(f: seq<Byte>, w: nat, d: Draw, i: nat): Byte
    requires |f| == w * w && i < w * w
  {
    IndexOfAny(w, i);
    if Covers(d, i % w, i / w) then PatternCell(d.p, i % w - d.ox, i / w - d.oy) else f[i]
  }

  function Drawn(f: seq<Byte>, w: nat, d: Draw): (g: seq<Byte>)
    requires |f| == w * w
    ensures |g| == w * w
  {
    seq(w * w, i requires 0 <= i < w * w => DrawnCell(f, w, d, i))
  }

  function DrawnAll(f: seq<Byte>, w: nat, ds: seq<Draw>): (g: seq<Byte>)
    requires |f| == w * w
    ensures |g| == w * w
  {
    if ds == [] then f else Drawn(DrawnAll(f, w, ds[..|ds| - 1]), w, ds[|ds| - 1])
  }

  function Blank(w: nat): (f: seq<Byte>)
    ensures |f| == w * w
  {
    seq(w * w, _ => 0)
  }

  // ---- The list of drawings of a version ----

  function FixedDraws(w: nat): seq<Draw> {
    [ Draw(0, 0, 7, 7, Finder), Draw(w - 7, 0, 7, 7, Finder), Draw(0, w - 7, 7, 7, Finder),
      // separators
      Draw(7, 0, 1, 7, Plain(0xc0)), Draw(w - 8, 0, 1, 7, Plain(0xc0)), Draw(7, w - 7, 1, 7, Plain(0xc0)),
      Draw(0, 7, 8, 1, Plain(0xc0)), Draw(w - 8, 7, 8, 1, Plain(0xc0)), Draw(0, w - 8, 8, 1, Plain(0xc0)),
      // format information area
      Draw(0, 8, 9, 1, Plain(0x84)), Draw(w - 8, 8, 8, 1, Plain(0x84)),
      Draw(8, 0, 1, 8, Plain(0x84)), Draw(8, w - 7, 1, 7, Plain(0x84)),
      // timing patterns
      Draw(8, 6, if w < 16 then 0 else w - 16, 1, Timing), Draw(6, 8, 1, if w < 16 then 0 else w - 16, Timing) ]
  }

  function Marker(cx: int, cy: int): Draw { Draw(cx - 2, cy - 2, 5, 5, Alignment) }

  /** The markers on the timing patterns, n pairs. */
  function EdgeDraws(a: nat, d: nat, n: nat): seq<Draw> {
    if n == 0 then []
    else EdgeDraws(a, d, n - 1) + [Marker(6, a + (n - 1) * d), Marker(a + (n - 1) * d, 6)]
  }

  /** A row of n markers at height cy. */
  function RowDraws(a: nat, d: nat, cy: nat, n: nat): seq<Draw> {
    if n == 0 then [] else RowDraws(a, d, cy, n - 1) + [Marker(a + (n - 1) * d, cy)]
  }

  /** The first n rows of a grid of m by m markers. */
  function GridDraws(a: nat, d: nat, m: nat, n: nat): seq<Draw> {
    if n == 0 then [] else GridDraws(a, d, m, n - 1) + RowDraws(a, d, a + (n - 1) * d, m)
  }

  /** The markers of a symbol of width w whose second and third positions are a and b. */
  function MarkerDraws(w: int, a: nat, b: nat): seq<Draw> {
    if b <= a then [Marker(a, a)]
    else
      var n := (w - a) / (b - a) + 2;
      if n < 2 then [] else EdgeDraws(a, b - a, n - 2) + GridDraws(a, b - a, n - 1, n - 1)
  }

  function AlignmentDraws(version: nat): seq<Draw>
    requires version <= VERSION_MAX
  {
    if version < 2 then []
    else MarkerDraws(Width(version), AlignmentTable(version).0, AlignmentTable(version).1)
  }

  function VersionDraws(version: nat): seq<Draw>
    requires version <= VERSION_MAX
  {
    var w, info := Width(version), VersionPattern(version);
    if version < 7 then []
    else [Draw(0, w - 11, 6, 3, VersionColumns(info)), Draw(w - 11, 0, 3, 6, VersionRows(info))]
  }

  function Draws(version: nat): seq<Draw>
    requires version <= VERSION_MAX
  {
    FixedDraws(Width(version)) + AlignmentDraws(version) + VersionDraws(version)
    + [Draw(8, Width(version) - 8, 1, 1, Plain(0x81))]
  }

  /** The initial frame of a version. */
  function FrameOf(version: nat): (f: seq<Byte>)
    requires version <= VERSION_MAX
    ensures |f| == Width(version) * Width(version)
  {
    DrawnAll(Blank(Width(version)), Width(version), Draws(version))
  }

  // ---- What the drawings leave free and what they reserve ----

  /** The modules that carry the format information. */
  predicate FormatCell(w: nat, x: int, y: int) {
    || (y == 8 && (0 <= x <= 5 || x == 7 || x == 8 || w - 8 <= x < w))
    || (x == 8 && (0 <= y <= 5 || y == 7 || w - 7 <= y < w))
  }

  predicate Dark(b: Byte) { b & 1 != 0 }

  /** A drawing inside the symbol that leaves the bottom right module alone, and that leaves the
      format modules light. */
  ghost predicate Harmless(w: nat, d: Draw) {
    && Inside(w, d)
    && !(d.ox + d.nx == w && d.oy + d.ny == w)
    && (d.p == Plain(0xc0) || d.p == Plain(0x84) || forall x, y :: Covers(d, x, y) ==> !FormatCell(w, x, y))
    && (d.p.Plain? ==> d.p.value == 0xc0 || d.p.value == 0x84 || d.p.value == 0x81)
  }

  lemma PatternReserved(d: Draw, w: nat, dx: nat, dy: nat)
    requires Harmless(w, d)
    ensures Reserved(PatternCell(d.p, dx, dy))
    ensures d.p == Plain(0xc0) || d.p == Plain(0x84) ==> !Dark(PatternCell(d.p, dx, dy))
  {}

  /** Frames under construction: bottom right module free, format modules light. */
  ghost predicate Sound(f: seq<Byte>, w: nat) {
    && SymbolWidth(w) && |f| == w * w
    && !Reserved(At(f, w, w - 1, w - 1))
    && (forall x, y :: 0 <= x < w && 0 <= y < w && FormatCell(w, x, y) ==> !Dark(At(f, w, x, y)))
  }

  lemma DrawnAt(f: seq<Byte>, w: nat, d: Draw, x: nat, y: nat)
    requires |f| == w * w && x < w && y < w
    ensures At(Drawn(f, w, d), w, x, y) == if Covers(d, x, y) then PatternCell(d.p, x - d.ox, y - d.oy) else At(f, w, x, y)
  {
    hide PatternCell;
    IndexInverse(w, x, y);
  }

  lemma DrawnSound(f: seq<Byte>, w: nat, d: Draw)
    requires Sound(f, w) && Harmless(w, d)
    ensures Sound(Drawn(f, w, d), w)
  {
    hide At, Drawn, PatternCell, Reserved, Dark;
    DrawnAt(f, w, d, w - 1, w - 1);
    forall x, y | 0 <= x < w && 0 <= y < w && FormatCell(w, x, y)
      ensures !Dark(At(Drawn(f, w, d), w, x, y))
    {
      DrawnAt(f, w, d, x, y);
      if Covers(d, x, y) { PatternReserved(d, w, x - d.ox, y - d.oy); }
    }
  }

  ghost predicate AllHarmless(w: nat, ds: seq<Draw>) { forall i :: 0 <= i < |ds| ==> Harmless(w, ds[i]) }

  lemma {:induction false} DrawnAllSound(f: seq<Byte>, w: nat, ds: seq<Draw>)
    requires Sound(f, w) && AllHarmless(w, ds)
    ensures Sound(DrawnAll(f, w, ds), w)
  {
    hide Sound, Harmless, Drawn;
    if ds != [] {
      SoundSize(f, w);
      DrawnAllSound(f, w, ds[..|ds| - 1]);
      DrawnSound(DrawnAll(f, w, ds[..|ds| - 1]), w, ds[|ds| - 1]);
    }
  }

  lemma SoundSize(f: seq<Byte>, w: nat)
    requires Sound(f, w)
    ensures SymbolWidth(w) && |f| == w * w
  {}

  /** What one of the drawings covers is reserved in the end. */
  lemma {:induction false} CoveredReserved(f: seq<Byte>, w: nat, ds: seq<Draw>, k: nat, x: nat, y: nat)
    requires |f| == w * w && AllHarmless(w, ds) && k < |ds| && x < w && y < w && Covers(ds[k], x, y)
    ensures Reserved(At(DrawnAll(f, w, ds), w, x, y))
  {
    hide At, Drawn, PatternCell, Reserved, Harmless, Covers;
    var n := |ds| - 1;
    var d, g := ds[n], DrawnAll(f, w, ds[..n]);
    DrawnAt(g, w, d, x, y);
    if Covers(d, x, y) {
      CoverOffset(d, x, y);
      PatternReserved(d, w, x - d.ox, y - d.oy);
    } else {
      CoveredReserved(f, w, ds[..n], k, x, y);
    }
  }

  lemma CoverOffset(d: Draw, x: int, y: int)
    requires Covers(d, x, y)
    ensures x >= d.ox && y >= d.oy
  {}

  lemma FixedHarmless(w: nat)
    requires SymbolWidth(w)
    ensures AllHarmless(w, FixedDraws(w))
  {
    hide FormatCell, PatternCell;
    var ds := FixedDraws(w);
    TimingHarmless(w); FinderHarmless(w);
    forall i | 0 <= i < |ds| ensures Harmless(w, ds[i]) {}
  }

  lemma TimingHarmless(w: nat)
    requires SymbolWidth(w)
    ensures Harmless(w, Draw(8, 6, w - 16, 1, Timing)) && Harmless(w, Draw(6, 8, 1, w - 16, Timing))
  {}

  lemma FinderHarmless(w: nat)
    requires SymbolWidth(w)
    ensures Harmless(w, Draw(0, 0, 7, 7, Finder)) && Harmless(w, Draw(w - 7, 0, 7, 7, Finder))
    ensures Harmless(w, Draw(0, w - 7, 7, 7, Finder))
  {}

  lemma MarkerHarmless(w: nat, cx: int, cy: int)
    requires SymbolWidth(w)
    requires (cx == 6 && 18 <= cy <= w - 11) || (cy == 6 && 18 <= cx <= w - 11) || (18 <= cx <= w - 7 && 18 <= cy <= w - 7)
    ensures Harmless(w, Marker(cx, cy))
  {}

  lemma {:induction false} EdgeHarmless(w: nat, a: nat, d: nat, n: nat)
    requires SymbolWidth(w) && 18 <= a && (n > 0 ==> a + (n - 1) * d <= w - 11)
    ensures AllHarmless(w, EdgeDraws(a, d, n))
  {
    hide Harmless;
    if n > 0 {
      MulLe(n - 2, n - 1, d); MulLe(0, n - 1, d);
      EdgeHarmless(w, a, d, n - 1);
      MarkerHarmless(w, 6, a + (n - 1) * d); MarkerHarmless(w, a + (n - 1) * d, 6);
    }
  }

  lemma {:induction false} RowHarmless(w: nat, a: nat, d: nat, cy: nat, n: nat)
    requires SymbolWidth(w) && 18 <= a && (n > 0 ==> a + (n - 1) * d <= w - 7) && 18 <= cy <= w - 7
    ensures AllHarmless(w, RowDraws(a, d, cy, n))
  {
    hide Harmless;
    if n > 0 {
      MulLe(n - 2, n - 1, d); MulLe(0, n - 1, d);
      RowHarmless(w, a, d, cy, n - 1);
      MarkerHarmless(w, a + (n - 1) * d, cy);
    }
  }

  lemma {:induction false} GridHarmless(w: nat, a: nat, d: nat, m: nat, n: nat)
    requires SymbolWidth(w) && 18 <= a && n <= m && (m > 0 ==> a + (m - 1) * d <= w - 7)
    ensures AllHarmless(w, GridDraws(a, d, m, n))
  {
    hide Harmless;
    if n > 0 {
      MulLe(n - 1, m - 1, d); MulLe(0, n - 1, d);
      GridHarmless(w, a, d, m, n - 1);
      RowHarmless(w, a, d, a + (n - 1) * d, m);
    }
  }

  /** Alignment patterns between the first and the last one, for versions 7 and up. */
  ghost function Gaps(version: nat): nat {
    if version <= 13 then 1 else if version <= 20 then 2 else if version <= 27 then 3 else if version <= 34 then 4 else 5
  }

  lemma GapsTimes(version: nat, d: int)
    requires 7 <= version <= VERSION_MAX
    ensures Gaps(version) * d == if version <= 13 then d else if version <= 20 then 2 * d
                                 else if version <= 27 then 3 * d else if version <= 34 then 4 * d else 5 * d
    ensures 1 <= Gaps(version)
  {}

  /** The table spaces the patterns evenly, up to seven modules from the border. */
  lemma AlignmentEven(version: nat)
    requires 2 <= version <= VERSION_MAX
    ensures var a, b := AlignmentTable(version).0, AlignmentTable(version).1;
            && 18 <= a
            && (version < 7 ==> b <= a && a == 4 * version + 10)
            && (7 <= version ==> a + 16 <= b && a + Gaps(version) * (b - a) == 4 * version + 10 && 1 <= Gaps(version))
  {
    hide Gaps;
    if version >= 7 { GapsTimes(version, AlignmentTable(version).1 - AlignmentTable(version).0); }
  }

  lemma AlignmentHarmless(version: nat)
    requires 1 <= version <= VERSION_MAX
    ensures AllHarmless(Width(version), AlignmentDraws(version))
  {
    WidthFormula(version);
    hide Width, AlignmentTable, Harmless, Gaps, MarkerDraws;
    if version >= 2 {
      AlignmentEven(version);
      MarkersHarmless(Width(version), AlignmentTable(version).0, AlignmentTable(version).1, Gaps(version));
    }
  }

  lemma MarkersHarmless(w: nat, a: nat, b: nat, q: nat)
    requires SymbolWidth(w) && 18 <= a
    requires if b <= a then a == w - 7 else 16 <= b - a && 1 <= q && a + q * (b - a) == w - 7
    ensures AllHarmless(w, MarkerDraws(w, a, b))
  {
    hide Harmless;
    if b <= a {
      MarkerHarmless(w, a, a);
    } else {
      MulLe(0, q, b - a);
      DivMod(w - a, b - a, q, 7);
      GridsHarmless(w, a, b - a, q + 2);
    }
  }

  lemma GridsHarmless(w: nat, a: nat, d: nat, n: nat)
    requires SymbolWidth(w) && 18 <= a && 3 <= n && 16 <= d && a + (n - 2) * d == w - 7
    ensures AllHarmless(w, EdgeDraws(a, d, n - 2) + GridDraws(a, d, n - 1, n - 1))
  {
    hide Harmless, EdgeDraws, GridDraws;
    MulSucc(n - 3, d);
    EdgeHarmless(w, a, d, n - 2);
    GridHarmless(w, a, d, n - 1, n - 1);
  }

  lemma VersionHarmless(version: nat)
    requires 1 <= version <= VERSION_MAX
    ensures AllHarmless(Width(version), VersionDraws(version))
    ensures Harmless(Width(version), Draw(8, Width(version) - 8, 1, 1, Plain(0x81)))
  {
    WidthFormula(version);
    hide Width, VersionPattern;
  }

  lemma DrawsHarmless(version: nat)
    requires 1 <= version <= VERSION_MAX
    ensures SymbolWidth(Width(version)) && AllHarmless(Width(version), Draws(version))
  {
    WidthFormula(version);
    FixedHarmless(Width(version)); AlignmentHarmless(version); VersionHarmless(version);
    hide Width, FixedDraws, AlignmentDraws, VersionDraws, Harmless;
  }

  /** A frame the data can be placed in: walkable, with the format modules reserved and light. */
  ghost predicate FrameOk(f: seq<Byte>, w: nat) {
    && Walkable(f, w)
    && (forall x, y :: 0 <= x < w && 0 <= y < w && FormatCell(w, x, y) ==> Reserved(At(f, w, x, y)) && !Dark(At(f, w, x, y)))
  }

  /** The fixed drawing that covers a module which has to be reserved. */
  ghost function CoveringDraw(w: nat, x: int, y: int): nat {
    if x <= 6 && x != 6 && y <= 6 then 0
    else if x == 6 && y <= 6 then 0
    else if x <= 6 && y == 7 then 6
    else if y == 8 && x <= 8 then 9
    else if y == 8 then 10
    else if x == 8 && y < 8 then 11
    else if x == 8 then 12
    else if y >= w - 7 then 2
    else if y == w - 8 then 8
    else 14
  }

  lemma Covering(w: nat, x: nat, y: nat)
    requires SymbolWidth(w) && x < w && y < w
    requires x == 6 || (4 <= x <= 5 && y <= 8) || FormatCell(w, x, y)
    ensures CoveringDraw(w, x, y) < |FixedDraws(w)| && Covers(FixedDraws(w)[CoveringDraw(w, x, y)], x, y)
  {}

  /** The frames that the library starts from meet the walk's needs. */
  lemma FrameOfOk(version: nat)
    requires 1 <= version <= VERSION_MAX
    ensures FrameOk(FrameOf(version), Width(version))
  {
    hide Width, FixedDraws, AlignmentDraws, VersionDraws, Harmless, Reserved, Dark, At, AllHarmless;
    DrawsHarmless(version);
    var w, f := Width(version), FrameOf(version);
    BlankSound(w);
    DrawnAllSound(Blank(w), w, Draws(version));
    forall x, y | 0 <= x < w && 0 <= y < w && (x == 6 || (4 <= x <= 5 && y <= 8) || FormatCell(w, x, y))
      ensures Reserved(At(f, w, x, y))
    {
      Covering(w, x, y);
      CoveredReserved(Blank(w), w, Draws(version), CoveringDraw(w, x, y), x, y);
    }
    LastIndex(f, w);
  }

  lemma LastIndex(f: seq<Byte>, w: nat)
    requires 1 <= w && |f| == w * w
    ensures At(f, w, w - 1, w - 1) == f[w * w - 1]
  {
    MulSucc(w - 1, w);
  }

  lemma BlankSound(w: nat)
    requires SymbolWidth(w)
    ensures Sound(Blank(w), w)
  {
    assert !Reserved(0) && !Dark(0);
    hide Reserved, Dark;
  }

  // ---- Drawing into the buffer ----

  /** A module while row dy of a drawing is being drawn, dx modules of which are done. */
  function PartlyDrawn(f: seq<Byte>, w: nat, d: Draw, dx: nat, dy: nat, i: nat): Byte
    requires |f| == w * w && i < w * w
  {
    IndexOfAny(w, i);
    if Covers(Draw(d.ox, d.oy + dy, dx, 1, d.p), i % w, i / w) then PatternCell(d.p, i % w - d.ox, i / w - d.oy)
    else DrawnCell(f, w, Draw(d.ox, d.oy, d.nx, dy, d.p), i)
  }

  lemma DrawModule(f: seq<Byte>, w: nat, d: Draw, dx: nat, dy: nat, i: nat)
    requires |f| == w * w && Inside(w, d) && dx < d.nx && dy < d.ny && i < w * w
    ensures PartlyDrawn(f, w, d, dx + 1, dy, i)
         == if i == Index(w, d.ox + dx, d.oy + dy) then PatternCell(d.p, dx, dy) else PartlyDrawn(f, w, d, dx, dy, i)
  {
    IndexOfAny(w, i);
    IndexInverse(w, d.ox + dx, d.oy + dy);
    hide PatternCell, DrawnCell, Index;
  }

  lemma DrawRow(f: seq<Byte>, w: nat, d: Draw, dy: nat, i: nat)
    requires |f| == w * w && Inside(w, d) && dy < d.ny && i < w * w
    ensures PartlyDrawn(f, w, d, 0, dy, i) == DrawnCell(f, w, Draw(d.ox, d.oy, d.nx, dy, d.p), i)
    ensures PartlyDrawn(f, w, d, d.nx, dy, i) == DrawnCell(f, w, Draw(d.ox, d.oy, d.nx, dy + 1, d.p), i)
  {
    hide PatternCell;
  }

  lemma DrawNothing(f: seq<Byte>, w: nat, d: Draw, i: nat)
    requires |f| == w * w && i < w * w && d.ny == 0
    ensures DrawnCell(f, w, d, i) == f[i]
  {}

  method PutRect(frame: array<Byte>, w: nat, d: Draw)
    requires frame.Length == w * w && Inside(w, d)
    modifies frame
    ensures frame[..] == Drawn(old(frame[..]), w, d)
  {
    hide PatternCell, PartlyDrawn, DrawnCell, Index;
    ghost var f := frame[..];
    forall i | 0 <= i < w * w ensures DrawnCell(f, w, Draw(d.ox, d.oy, d.nx, 0, d.p), i) == f[i] {
      DrawNothing(f, w, Draw(d.ox, d.oy, d.nx, 0, d.p), i);
    }
    for dy := 0 to d.ny
      invariant forall i :: 0 <= i < w * w ==> frame[i] == DrawnCell(f, w, Draw(d.ox, d.oy, d.nx, dy, d.p), i)
    {
      forall i | 0 <= i < w * w
        ensures PartlyDrawn(f, w, d, 0, dy, i) == DrawnCell(f, w, Draw(d.ox, d.oy, d.nx, dy, d.p), i)
        ensures PartlyDrawn(f, w, d, d.nx, dy, i) == DrawnCell(f, w, Draw(d.ox, d.oy, d.nx, dy + 1, d.p), i)
      {
        DrawRow(f, w, d, dy, i);
      }
      for dx := 0 to d.nx
        invariant forall i :: 0 <= i < w * w ==> frame[i] == PartlyDrawn(f, w, d, dx, dy, i)
      {
        forall i | 0 <= i < w * w
          ensures PartlyDrawn(f, w, d, dx + 1, dy, i)
               == if i == Index(w, d.ox + dx, d.oy + dy) then PatternCell(d.p, dx, dy) else PartlyDrawn(f, w, d, dx, dy, i)
        {
          DrawModule(f, w, d, dx, dy, i);
        }
        frame[Index(w, d.ox + dx, d.oy + dy)] := PatternCell(d.p, dx, dy);
      }
    }
    assert d == Draw(d.ox, d.oy, d.nx, d.ny, d.p);
  }

  method PutAll(frame: array<Byte>, w: nat, ds: seq<Draw>)
    requires frame.Length == w * w && AllHarmless(w, ds)
    modifies frame
    ensures frame[..] == DrawnAll(old(frame[..]), w, ds)
  {
    hide Harmless, Drawn;
    ghost var f := frame[..];
    for k := 0 to |ds|
      invariant frame[..] == DrawnAll(f, w, ds[..k])
    {
      assert ds[..k + 1][..k] == ds[..k];
      HarmlessInside(w, ds[k]);
      PutRect(frame, w, ds[k]);
    }
    assert ds[..|ds|] == ds;
  }

  /** Returns null for a version that does not exist. */
  method NewFrame(version: int) returns (frame: array?<Byte>)
    ensures frame == null <==> !(1 <= version <= VERSION_MAX)
    ensures frame != null ==> fresh(frame) && frame[..] == FrameOf(version)
  {
    if version < 1 || version > VERSION_MAX { return null; }
    hide Width, Draws, AllHarmless, DrawnAll;
    DrawsHarmless(version);
    var w, ds := Width(version), Draws(version);
    var buffer := new Byte[w * w](_ => 0);
    assert buffer[..] == Blank(w);
    PutAll(buffer, w, ds);
    frame := buffer;
  }

  lemma HarmlessInside(w: nat, d: Draw)
    requires Harmless(w, d)
    ensures Inside(w, d)
  {}
}
