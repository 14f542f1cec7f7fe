/** The colours of the function patterns: what a scanner looks for in every symbol. */
module FunctionPatterns {
  import opened Arith
  import opened GF256
  import opened QRSpec
  import opened FrameFillers
  import opened Frames
  import opened Penalties
  import opened MaskPatterns
  import opened Masks
  import opened RSPoly
  import opened FreeModules
  import opened Placement

  // ---- Rings ----

  function Abs(i: int): nat { if i < 0 then -i else i }

  /** The number of the square ring around a centre that a place lies on. */
  function Ring(dx: int, dy: int): nat { if Abs(dx) < Abs(dy) then Abs(dy) else Abs(dx) }

  /** The number of patterns in a row, and the distance between them (Annex E of JIS X0510:2004): as
      even as an even number allows, with one exception. */
  function Markers(version: nat): nat { version / 7 + 2 }

  function Spacing(version: nat): nat {
    if version == 32 then 26 else (4 * version + 4 + 2 * Markers(version) - 3) / (2 * Markers(version) - 2) * 2
  }

  lemma SpacingLow(version: nat)
    requires 2 <= version <= 13
    ensures var (a, b) := AlignmentTable(version);
            if version < 7 then a == 4 * version + 10 && b == 0
            else b == a + Spacing(version) && a + (Markers(version) - 2) * Spacing(version) == 4 * version + 10
  {}

  lemma SpacingMid(version: nat)
    requires 14 <= version <= 27
    ensures var (a, b) := AlignmentTable(version);
            if version < 7 then a == 4 * version + 10 && b == 0
            else b == a + Spacing(version) && a + (Markers(version) - 2) * Spacing(version) == 4 * version + 10
  {}

  lemma SpacingHigh(version: nat)
    requires 28 <= version <= 40
    ensures var (a, b) := AlignmentTable(version);
            if version < 7 then a == 4 * version + 10 && b == 0
            else b == a + Spacing(version) && a + (Markers(version) - 2) * Spacing(version) == 4 * version + 10
  {}

  /** The table spaces the alignment patterns like that, and the last one is seven modules from the
      border. */
  lemma AlignmentSpacing(version: nat)
    requires 2 <= version <= VERSION_MAX
    ensures var (a, b) := AlignmentTable(version);
            if version < 7 then a == 4 * version + 10 && b == 0
            else b == a + Spacing(version) && a + (Markers(version) - 2) * Spacing(version) == 4 * version + 10
  {
    if version <= 13 { SpacingLow(version); } else if version <= 27 { SpacingMid(version); } else { SpacingHigh(version); }
    hide AlignmentTable, Spacing, Markers;
  }

  // ---- The picture of a frame ----

  /** Width, first alignment position after 6, their distance, and version information. */
  datatype Plan = Plan(w: nat, a: nat, d: nat, info: nat, late: bool) {
    predicate Valid() {
      SymbolWidth(w) && 18 <= a && a % 2 == 0 && 16 <= d && d % 2 == 0 && (late ==> 45 <= w)
    }
  }

  function PlanOf(version: nat): Plan
    requires 1 <= version <= VERSION_MAX
  {
    var (a, b) := AlignmentTable(version);
    Plan(Width(version), if version < 2 then 18 else a, if version < 7 then 200 else b - a, VersionPattern(version), version >= 7)
  }

  lemma PlanValid(version: nat)
    requires 1 <= version <= VERSION_MAX
    ensures PlanOf(version).Valid() && PlanOf(version).w == 4 * version + 17
    ensures version >= 7 ==> PlanOf(version).a + Gaps(version) * PlanOf(version).d == 4 * version + 10 && 1 <= Gaps(version)
  {
    hide Width, AlignmentTable, VersionPattern, Gaps;
    WidthFormula(version);
    AlignmentParity(version);
    if version >= 2 { AlignmentEven(version); }
  }

  lemma AlignmentParity(version: nat)
    requires 1 <= version <= VERSION_MAX
    ensures AlignmentTable(version).0 % 2 == 0 && AlignmentTable(version).1 % 2 == 0
  {}

  /** The distance to the alignment position next to a coordinate. */
  function Offset(p: Plan, x: int): int
    requires 1 <= p.d
  {
    if x <= 8 then x - 6 else (x - p.a + 2) % p.d - 2
  }

  predicate FinderZone(w: int, x: int, y: int) {
    Ring(x - 3, y - 3) <= 4 || Ring(x - (w - 4), y - 3) <= 4 || Ring(x - 3, y - (w - 4)) <= 4
  }

  function FinderRing(w: int, x: int, y: int): nat {
    if Ring(x - 3, y - 3) <= 4 then Ring(x - 3, y - 3)
    else if Ring(x - (w - 4), y - 3) <= 4 then Ring(x - (w - 4), y - 3)
    else Ring(x - 3, y - (w - 4))
  }

  predicate InfoBlock(w: int, x: int, y: int) {
    (0 <= x < 6 && w - 11 <= y < w - 8) || (0 <= y < 6 && w - 11 <= x < w - 8)
  }

  /** The bit of the version information at a module. */
  function InfoPlace(w: int, x: int, y: int): nat
    requires 21 <= w && InfoBlock(w, x, y)
  {
    if x < 6 then 3 * x + (y - (w - 11)) else 3 * y + (x - (w - 11))
  }

  /** Whether a module of a function pattern is dark. */
  ghost predicate Shown(p: Plan, x: int, y: int)
    requires p.Valid()
  {
    if FinderZone(p.w, x, y) then FinderRing(p.w, x, y) != 2 && FinderRing(p.w, x, y) != 4
    else if x == 8 && y == p.w - 8 then true
    else if FormatCell(p.w, x, y) then false
    else if p.late && InfoBlock(p.w, x, y) then p.info / Pow2(InfoPlace(p.w, x, y)) % 2 == 1
    else if x == 6 || y == 6 then (x + y) % 2 == 0
    else Ring(Offset(p, x), Offset(p, y)) != 1
  }

  /** A drawing shows this picture wherever it covers it. */
  ghost predicate Agrees(p: Plan, e: Draw)
    requires p.Valid()
  {
    forall x, y :: Covers(e, x, y) ==> Dark(PatternCell(e.p, x - e.ox, y - e.oy)) == Shown(p, x, y)
  }

  lemma FinderCell(dx: nat, dy: nat)
    requires dx < 7 && dy < 7
    ensures Dark(PatternCell(Finder, dx, dy)) == (Ring(dx - 3, dy - 3) != 2)
    ensures Ring(dx - 3, dy - 3) <= 3
  {}

  lemma LightCells(dx: nat, dy: nat)
    ensures !Dark(PatternCell(Plain(0xc0), dx, dy)) && !Dark(PatternCell(Plain(0x84), dx, dy))
            && Dark(PatternCell(Plain(0x81), dx, dy))
    ensures Dark(PatternCell(Timing, dx, dy)) == ((dx + dy) % 2 == 0)
  {}

  lemma MarkerCell(dx: nat, dy: nat)
    requires dx < 5 && dy < 5
    ensures Dark(PatternCell(Alignment, dx, dy)) == (Ring(dx - 2, dy - 2) != 1)
    ensures Ring(dx - 2, dy - 2) <= 2
  {}

  lemma FindersAgree(p: Plan)
    requires p.Valid()
    ensures forall k :: 0 <= k < 3 ==> Agrees(p, FixedDraws(p.w)[k])
  {
    var w := p.w;
    hide PatternCell, Dark, FormatCell, InfoBlock, Offset;
    forall k, x, y | 0 <= k < 3 && Covers(FixedDraws(w)[k], x, y)
      ensures Dark(PatternCell(FixedDraws(w)[k].p, x - FixedDraws(w)[k].ox, y - FixedDraws(w)[k].oy)) == Shown(p, x, y)
    {
      FinderCell(x - FixedDraws(w)[k].ox, y - FixedDraws(w)[k].oy);
    }
  }

  lemma SeparatorsAgree(p: Plan, k: nat)
    requires p.Valid() && 3 <= k < 9
    ensures Agrees(p, FixedDraws(p.w)[k])
  {
    var w := p.w;
    var e := FixedDraws(w)[k];
    hide PatternCell, Dark, FormatCell, InfoBlock, Offset;
    forall x, y | Covers(e, x, y) ensures Dark(PatternCell(e.p, x - e.ox, y - e.oy)) == Shown(p, x, y) {
      LightCells(x - e.ox, y - e.oy);
    }
  }

  /** The format area is light, except for two modules of the timing patterns, which are drawn later. */
  lemma FormatAgrees(p: Plan, k: nat, x: int, y: int)
    requires p.Valid() && 9 <= k < 13 && Covers(FixedDraws(p.w)[k], x, y) && (x, y) != (6, 8) && (x, y) != (8, 6)
    ensures var e := FixedDraws(p.w)[k]; Dark(PatternCell(e.p, x - e.ox, y - e.oy)) == Shown(p, x, y)
  {
    var e := FixedDraws(p.w)[k];
    LightCells(x - e.ox, y - e.oy);
    hide PatternCell, Dark, InfoBlock, Offset;
  }

  lemma TimingAgrees(p: Plan)
    requires p.Valid()
    ensures Agrees(p, FixedDraws(p.w)[13]) && Agrees(p, FixedDraws(p.w)[14])
  {
    var w := p.w;
    hide PatternCell, Dark, Offset;
    forall k, x, y | 13 <= k < 15 && Covers(FixedDraws(w)[k], x, y)
      ensures Dark(PatternCell(FixedDraws(w)[k].p, x - FixedDraws(w)[k].ox, y - FixedDraws(w)[k].oy)) == Shown(p, x, y)
    {
      LightCells(x - FixedDraws(w)[k].ox, y - FixedDraws(w)[k].oy);
    }
  }

  lemma OffsetAt(p: Plan, k: nat, x: int)
    requires p.Valid() && -2 <= x - (p.a + k * p.d) <= 2
    ensures Offset(p, x) == x - (p.a + k * p.d)
  {
    MulLe(0, k, p.d);
    DivMod(k * p.d + (x - (p.a + k * p.d) + 2), p.d, k, x - (p.a + k * p.d) + 2);
  }

  lemma EvenTimes(k: nat, d: nat)
    requires d % 2 == 0
    ensures (k * d) % 2 == 0
  {
    var h := d / 2;
    assert k * d == 2 * (k * h);
  }

  lemma EdgeFree(w: int, c: int, x: int, y: int)
    requires SymbolWidth(w) && 18 <= c <= w - 23 && -2 <= x - 6 <= 2 && -2 <= y - c <= 2
    ensures !FinderZone(w, x, y) && !FinderZone(w, y, x) && !FormatCell(w, x, y) && !FormatCell(w, y, x)
    ensures !InfoBlock(w, x, y) && !InfoBlock(w, y, x) && y != 6 && y != 8 && x != w - 8 && y != w - 8
  {}

  lemma EdgeParity(c: int, x: int, y: int)
    requires c % 2 == 0 && -2 <= x - 6 <= 2 && -2 <= y - c <= 2
    ensures x == 6 ==> ((x + y) % 2 == 0 <==> Ring(x - 6, y - c) != 1) && ((y + x) % 2 == 0 <==> Ring(y - c, x - 6) != 1)
  {}

  /** Next to a timing pattern the rings of a marker and the timing pattern show the same. */
  lemma EdgeColour(p: Plan, c: int, x: int, y: int)
    requires p.Valid() && 18 <= c <= p.w - 23 && c % 2 == 0 && -2 <= x - 6 <= 2 && -2 <= y - c <= 2
    requires Offset(p, y) == y - c && Offset(p, x) == x - 6
    ensures Shown(p, x, y) == (Ring(x - 6, y - c) != 1)
    ensures Shown(p, y, x) == (Ring(y - c, x - 6) != 1)
  {
    hide Offset, FinderZone, FormatCell, InfoBlock, Ring;
    EdgeFree(p.w, c, x, y);
    EdgeParity(c, x, y);
  }

  lemma EdgeShown(p: Plan, k: nat, x: int, y: int)
    requires p.Valid() && p.a + k * p.d <= p.w - 23 && -2 <= x - 6 <= 2 && -2 <= y - (p.a + k * p.d) <= 2
    ensures Shown(p, x, y) == (Ring(x - 6, y - (p.a + k * p.d)) != 1)
    ensures Shown(p, y, x) == (Ring(y - (p.a + k * p.d), x - 6) != 1)
  {
    hide Offset, Shown, Ring;
    EvenPosition(p, k);
    OffsetAt(p, k, y);
    SmallOffset(p, x);
    EdgeColour(p, p.a + k * p.d, x, y);
  }

  lemma EvenPosition(p: Plan, k: nat)
    requires p.Valid()
    ensures p.a + k * p.d >= 18 && (p.a + k * p.d) % 2 == 0
  {
    MulLe(0, k, p.d);
    EvenTimes(k, p.d);
  }

  /** A marker next to a timing pattern. */
  lemma EdgeAgrees(p: Plan, k: nat)
    requires p.Valid() && p.a + k * p.d <= p.w - 23
    ensures Agrees(p, Marker(6, p.a + k * p.d)) && Agrees(p, Marker(p.a + k * p.d, 6))
  {
    hide PatternCell, Dark, Shown;
    var c := p.a + k * p.d;
    forall x, y | Covers(Marker(6, c), x, y) ensures Dark(PatternCell(Alignment, x - 4, y - (c - 2))) == Shown(p, x, y) {
      MarkerCell(x - 4, y - (c - 2));
      EdgeShown(p, k, x, y);
    }
    forall x, y | Covers(Marker(c, 6), x, y) ensures Dark(PatternCell(Alignment, x - (c - 2), y - 4)) == Shown(p, x, y) {
      MarkerCell(x - (c - 2), y - 4);
      EdgeShown(p, k, y, x);
    }
  }

  lemma SmallOffset(p: Plan, x: int)
    requires p.Valid() && x <= 8
    ensures Offset(p, x) == x - 6
  {}

  lemma InnerAgrees(p: Plan, i: nat, j: nat)
    requires p.Valid() && p.a + i * p.d <= p.w - 7 && p.a + j * p.d <= p.w - 7
    ensures Agrees(p, Marker(p.a + i * p.d, p.a + j * p.d))
  {
    var cx, cy := p.a + i * p.d, p.a + j * p.d;
    MulLe(0, i, p.d); MulLe(0, j, p.d);
    hide PatternCell, Dark, Offset;
    forall x, y | Covers(Marker(cx, cy), x, y)
      ensures Dark(PatternCell(Alignment, x - (cx - 2), y - (cy - 2))) == Shown(p, x, y)
    {
      MarkerCell(x - (cx - 2), y - (cy - 2));
      OffsetAt(p, i, x); OffsetAt(p, j, y);
    }
  }

  ghost predicate AllAgree(p: Plan, es: seq<Draw>)
    requires p.Valid()
  {
    forall i :: 0 <= i < |es| ==> Agrees(p, es[i])
  }

  lemma {:induction false} EdgesAgree(p: Plan, n: nat)
    requires p.Valid() && (n > 0 ==> p.a + (n - 1) * p.d <= p.w - 23)
    ensures AllAgree(p, EdgeDraws(p.a, p.d, n))
  {
    hide Agrees;
    if n > 0 {
      MulLe(n - 2, n - 1, p.d);
      EdgesAgree(p, n - 1);
      EdgeAgrees(p, n - 1);
    }
  }

  lemma {:induction false} RowsAgree(p: Plan, j: nat, n: nat)
    requires p.Valid() && p.a + j * p.d <= p.w - 7 && (n > 0 ==> p.a + (n - 1) * p.d <= p.w - 7)
    ensures AllAgree(p, RowDraws(p.a, p.d, p.a + j * p.d, n))
  {
    hide Agrees;
    if n > 0 {
      MulLe(n - 2, n - 1, p.d);
      RowsAgree(p, j, n - 1);
      InnerAgrees(p, n - 1, j);
    }
  }

  lemma {:induction false} GridAgrees(p: Plan, m: nat, n: nat)
    requires p.Valid() && n <= m && (m > 0 ==> p.a + (m - 1) * p.d <= p.w - 7)
    ensures AllAgree(p, GridDraws(p.a, p.d, m, n))
  {
    hide Agrees;
    if n > 0 {
      MulLe(n - 1, m - 1, p.d);
      GridAgrees(p, m, n - 1);
      RowsAgree(p, n - 1, m);
    }
  }

  lemma LateAgrees(p: Plan)
    requires p.Valid()
    ensures Agrees(p, Draw(8, p.w - 8, 1, 1, Plain(0x81)))
    ensures p.late ==> Agrees(p, Draw(0, p.w - 11, 6, 3, VersionColumns(p.info)))
                       && Agrees(p, Draw(p.w - 11, 0, 3, 6, VersionRows(p.info)))
  {
    hide Offset, Dark, InfoBit, Pow2;
    LightCells(0, 0);
    forall k: nat ensures Dark(InfoBit(p.info, k)) == (p.info / Pow2(k) % 2 == 1) { InfoDark(p.info, k); }
  }

  lemma InfoDark(info: nat, k: nat)
    ensures Dark(InfoBit(info, k)) == (info / Pow2(k) % 2 == 1)
  {}

  // ---- Every frame shows its picture ----

  lemma {:induction false} LastShows(f: seq<Byte>, w: nat, ds: seq<Draw>, m: nat, x: nat, y: nat, c: bool)
    requires |f| == w * w && x < w && y < w && m < |ds| && Covers(ds[m], x, y)
    requires forall k :: m <= k < |ds| && Covers(ds[k], x, y) ==> Dark(PatternCell(ds[k].p, x - ds[k].ox, y - ds[k].oy)) == c
    ensures Dark(At(DrawnAll(f, w, ds), w, x, y)) == c
  {
    hide At, Drawn, PatternCell, Dark, Covers;
    var n := |ds| - 1;
    DrawnAt(DrawnAll(f, w, ds[..n]), w, ds[n], x, y);
    if !Covers(ds[n], x, y) { LastShows(f, w, ds[..n], m, x, y, c); }
  }

  lemma {:induction false} NothingDrawn(f: seq<Byte>, w: nat, ds: seq<Draw>, x: nat, y: nat)
    requires |f| == w * w && x < w && y < w && forall k :: 0 <= k < |ds| ==> !Covers(ds[k], x, y)
    ensures At(DrawnAll(f, w, ds), w, x, y) == At(f, w, x, y)
  {
    hide At, Drawn, PatternCell, Covers;
    if ds != [] {
      var n := |ds| - 1;
      DrawnAt(DrawnAll(f, w, ds[..n]), w, ds[n], x, y);
      NothingDrawn(f, w, ds[..n], x, y);
    }
  }

  lemma FixedAgree(p: Plan, k: nat, x: int, y: int)
    requires p.Valid() && k < 15 && Covers(FixedDraws(p.w)[k], x, y)
    requires 9 <= k < 13 ==> (x, y) != (6, 8) && (x, y) != (8, 6)
    ensures var e := FixedDraws(p.w)[k];
            e.ox <= x && e.oy <= y && Dark(PatternCell(e.p, x - e.ox, y - e.oy)) == Shown(p, x, y)
  {
    CoverOffset(FixedDraws(p.w)[k], x, y);
    hide FixedDraws, PatternCell, Dark, Shown, Covers;
    if k < 3 { FindersAgree(p); }
    else if k < 9 { SeparatorsAgree(p, k); }
    else if k < 13 { FormatAgrees(p, k, x, y); }
    else { TimingAgrees(p); }
  }

  lemma GridsAgree(p: Plan, q: nat)
    requires p.Valid() && 1 <= q && p.a + q * p.d == p.w - 7
    ensures AllAgree(p, MarkerDraws(p.w, p.a, p.a + p.d))
  {
    hide Agrees, EdgeDraws, GridDraws;
    MulSucc(q - 1, p.d); MulLe(0, q - 1, p.d);
    DivMod(p.w - p.a, p.d, q, 7);
    EdgesAgree(p, q);
    GridAgrees(p, q + 1, q + 1);
  }

  lemma MarkersAgree(version: nat)
    requires 1 <= version <= VERSION_MAX
    ensures PlanOf(version).Valid() && AllAgree(PlanOf(version), AlignmentDraws(version))
  {
    hide Agrees, Width, AlignmentTable, Gaps, VersionPattern, MarkerDraws;
    PlanValid(version);
    var p := PlanOf(version);
    if version >= 7 {
      GridsAgree(p, Gaps(version));
    } else if version >= 2 {
      AlignmentEven(version);
      OneMarker(p, AlignmentTable(version).1);
    }
  }

  lemma OneMarker(p: Plan, b: nat)
    requires p.Valid() && p.a == p.w - 7 && b <= p.a
    ensures AllAgree(p, MarkerDraws(p.w, p.a, b))
  {
    hide Agrees;
    InnerAgrees(p, 0, 0);
  }

  /** All drawings of a version agree with its picture, except where a timing pattern is drawn later. */
  lemma DrawsAgree(version: nat, k: nat, x: int, y: int)
    requires 1 <= version <= VERSION_MAX && k < |Draws(version)| && Covers(Draws(version)[k], x, y)
    requires 9 <= k < 13 ==> (x, y) != (6, 8) && (x, y) != (8, 6)
    ensures PlanOf(version).Valid()
    ensures var e := Draws(version)[k]; Dark(PatternCell(e.p, x - e.ox, y - e.oy)) == Shown(PlanOf(version), x, y)
  {
    hide Width, AlignmentDraws, PatternCell, Dark, Shown, Covers, VersionPattern, AlignmentTable;
    MarkersAgree(version);
    LateAgrees(PlanOf(version));
    if k < 15 { FixedAgree(PlanOf(version), k, x, y); }
  }

  /** What a drawing covers is reserved, and shows the picture. */
  lemma CoveredShows(version: nat, k: nat, x: nat, y: nat)
    requires 1 <= version <= VERSION_MAX && k < |Draws(version)| && Covers(Draws(version)[k], x, y)
    requires x < Width(version) && y < Width(version)
    ensures PlanOf(version).Valid()
    ensures Reserved(At(FrameOf(version), Width(version), x, y))
    ensures Dark(At(FrameOf(version), Width(version), x, y)) == Shown(PlanOf(version), x, y)
  {
    hide Width, Draws, PatternCell, Dark, Shown, Covers, At, Drawn, DrawnAll, PlanOf, Harmless, Plan.Valid;
    DrawsHarmless(version);
    PlanValid(version);
    CoveredReserved(Blank(Width(version)), Width(version), Draws(version), k, x, y);
    var ds, m := Draws(version), k;
    TimingCovers(version);
    if (x, y) == (6, 8) { m := 14; } else if (x, y) == (8, 6) { m := 13; }
    forall j | m <= j < |ds| && Covers(ds[j], x, y)
      ensures ds[j].ox <= x && ds[j].oy <= y
      ensures Dark(PatternCell(ds[j].p, x - ds[j].ox, y - ds[j].oy)) == Shown(PlanOf(version), x, y)
    {
      CoverOffset(ds[j], x, y);
      DrawsAgree(version, j, x, y);
    }
    LastShows(Blank(Width(version)), Width(version), ds, m, x, y, Shown(PlanOf(version), x, y));
  }

  lemma TimingCovers(version: nat)
    requires 1 <= version <= VERSION_MAX
    ensures 15 <= |Draws(version)| && Covers(Draws(version)[14], 6, 8) && Covers(Draws(version)[13], 8, 6)
  {
    hide Width, AlignmentDraws, VersionDraws;
    WidthFormula(version);
  }

  /** Every reserved module of a frame shows the picture. */
  lemma FrameShows(version: nat, x: nat, y: nat)
    requires 1 <= version <= VERSION_MAX && x < Width(version) && y < Width(version)
    requires Reserved(At(FrameOf(version), Width(version), x, y))
    ensures PlanOf(version).Valid() && Dark(At(FrameOf(version), Width(version), x, y)) == Shown(PlanOf(version), x, y)
  {
    hide Width, Draws, Dark, Shown, Covers, At, Reserved, DrawnAll, PlanOf;
    if forall k :: 0 <= k < |Draws(version)| ==> !Covers(Draws(version)[k], x, y) {
      NothingDrawn(Blank(Width(version)), Width(version), Draws(version), x, y);
      BlankFree(Width(version), x, y);
    } else {
      var k: nat :| k < |Draws(version)| && Covers(Draws(version)[k], x, y);
      CoveredShows(version, k, x, y);
    }
  }

  /** A frame or a symbol whose function patterns show the picture of a version. */
  ghost predicate Patterned(f: seq<Byte>, version: nat)
    requires 1 <= version <= VERSION_MAX && PlanOf(version).Valid()
  {
    var w := Width(version);
    && |f| == w * w
    && forall x, y :: 0 <= x < w && 0 <= y < w && Reserved(At(FrameOf(version), w, x, y)) && !FormatCell(w, x, y) ==>
         Dark(At(f, w, x, y)) == Shown(PlanOf(version), x, y)
  }

  lemma FramePatterned(version: nat)
    requires 1 <= version <= VERSION_MAX
    ensures PlanOf(version).Valid() && Patterned(FrameOf(version), version)
  {
    hide Width, FrameOf, Dark, Shown, At, Reserved, PlanOf, FormatCell;
    assert PlanOf(version).Valid() by { PlanValid(version); }
    forall x, y | 0 <= x < Width(version) && 0 <= y < Width(version) && Reserved(At(FrameOf(version), Width(version), x, y))
      ensures Dark(At(FrameOf(version), Width(version), x, y)) == Shown(PlanOf(version), x, y)
    {
      FrameShows(version, x, y);
    }
  }

  /** Every finished symbol keeps the function patterns of its frame, whatever the data and the mask. */
  lemma SymbolPatterned(version: nat, level: Level, data: Word, mask: nat)
    requires 1 <= version <= VERSION_MAX && mask < MASKS
    requires LayoutOf(version, level).Valid() && |data| == LayoutOf(version, level).spec.DataTotal()
    ensures PlanOf(version).Valid() && Patterned(SymbolFrame(LayoutOf(version, level), data, mask, level), version)
  {
    hide Width, FrameOf, DataPath, GetEccSpec, Remainder, Dark, Shown, At, Reserved, PlanOf, FormatCell;
    hide SymbolBits, Placed, Candidate, Walkable, Path, PathIn;
    FramePatterned(version);
    var lay := LayoutOf(version, level);
    var w, f, g := Width(version), FilledFrame(lay, data), SymbolFrame(lay, data, mask, level);
    PlacedKeeps(lay.frame, lay.path, SymbolBits(lay, data));
    ClearAfter(lay.frame, f, w);
    CandidateKeeps(f, w, mask, level);
    forall x, y | 0 <= x < w && 0 <= y < w && Reserved(At(FrameOf(version), w, x, y)) && !FormatCell(w, x, y)
      ensures Dark(At(g, w, x, y)) == Shown(PlanOf(version), x, y)
    {
      SamePlace(f, FrameOf(version), w, x, y);
    }
  }

  lemma SamePlace(f: seq<Byte>, g: seq<Byte>, w: nat, x: nat, y: nat)
    requires |f| == |g| == w * w && x < w && y < w
    requires forall i :: 0 <= i < |g| ==> Reserved(f[i]) == Reserved(g[i])
    requires forall i :: 0 <= i < |g| && Reserved(g[i]) ==> f[i] == g[i]
    ensures Reserved(At(g, w, x, y)) ==> At(f, w, x, y) == At(g, w, x, y)
    ensures Reserved(At(f, w, x, y)) == Reserved(At(g, w, x, y))
  {
    hide Reserved;
  }

  // ---- What a scanner looks for ----

  /** The centres of the three finder patterns. */
  function FinderCentre(w: int, k: nat): (int, int) {
    if k == 0 then (3, 3) else if k == 1 then (w - 4, 3) else (3, w - 4)
  }

  /** A drawing that covers a module of a finder pattern or of its separator. */
  lemma FinderCovered(w: nat, k: nat, x: nat, y: nat) returns (m: nat)
    requires SymbolWidth(w) && k < 3 && x < w && y < w
    requires var (cx, cy) := FinderCentre(w, k); Ring(x - cx, y - cy) <= 4
    ensures m < 9 && Covers(FixedDraws(w)[m], x, y)
  {
    var (cx, cy) := FinderCentre(w, k);
    m := if Ring(x - cx, y - cy) <= 3 then k else if y == 7 || y == w - 8 then 6 + k else 3 + k;
  }

  lemma FixedFirst(version: nat, m: nat)
    requires 1 <= version <= VERSION_MAX && m < 15
    ensures m < |Draws(version)| && Draws(version)[m] == FixedDraws(Width(version))[m]
  {
    hide Width, AlignmentDraws, VersionDraws;
  }

  /** In the three corners: rings 0 and 1 and the outer ring 3 are dark, ring 2 and the separator,
      ring 4, are light. */
  lemma FinderRings(f: seq<Byte>, version: nat, k: nat, x: nat, y: nat)
    requires 1 <= version <= VERSION_MAX && PlanOf(version).Valid() && Patterned(f, version)
    requires k < 3 && x < Width(version) && y < Width(version)
    requires var (cx, cy) := FinderCentre(Width(version), k); Ring(x - cx, y - cy) <= 4
    ensures var w := Width(version); var (cx, cy) := FinderCentre(w, k);
            Reserved(At(FrameOf(version), w, x, y)) && (Dark(At(f, w, x, y)) <==> Ring(x - cx, y - cy) in {0, 1, 3})
  {
    hide Width, FrameOf, Draws, FixedDraws, Dark, At, Reserved, Covers, VersionPattern, AlignmentTable;
    hide FormatCell, InfoBlock, Offset;
    var w := Width(version);
    WidthFormula(version);
    var m := FinderCovered(w, k, x, y);
    FixedFirst(version, m);
    CoveredShows(version, m, x, y);
    FinderAlone(PlanOf(version), k, x, y);
  }

  lemma FinderAlone(p: Plan, k: nat, x: nat, y: nat)
    requires p.Valid() && k < 3 && x < p.w && y < p.w
    requires var (cx, cy) := FinderCentre(p.w, k); Ring(x - cx, y - cy) <= 4
    ensures !FormatCell(p.w, x, y)
    ensures var (cx, cy) := FinderCentre(p.w, k); Shown(p, x, y) <==> Ring(x - cx, y - cy) in {0, 1, 3}
  {
    hide InfoBlock, Offset;
  }

  /** The row and the column through the centre of a finder pattern show a 1:1:3:1:1 pattern. */
  lemma FinderLines(f: seq<Byte>, version: nat, k: nat)
    requires 1 <= version <= VERSION_MAX && PlanOf(version).Valid() && Patterned(f, version) && k < 3
    ensures var w := Width(version); var (cx, cy) := FinderCentre(w, k);
            && 0 <= cx < w && 0 <= cy < w && |f| == w * w
            && FinderLike(RowOf(f, w, cy), cx - 1, 1) && FinderLike(ColumnOf(f, w, cx), cy - 1, 1)
  {
    hide Width, FrameOf, Dark, At, Reserved, PlanOf;
    WidthFormula(version);
    var w := Width(version);
    var (cx, cy) := FinderCentre(w, k);
    assert |f| == w * w;
    forall x: nat | x < w && -4 <= x - cx <= 4
      ensures RowOf(f, w, cy)[x] <==> Abs(x - cx) in {0, 1, 3}
    {
      FinderRings(f, version, k, x, cy);
    }
    forall y: nat | y < w && -4 <= y - cy <= 4
      ensures ColumnOf(f, w, cx)[y] <==> Abs(y - cy) in {0, 1, 3}
    {
      FinderRings(f, version, k, cx, y);
    }
    hide Patterned, RowOf, ColumnOf;
    LineLike(RowOf(f, w, cy), w, cx);
    LineLike(ColumnOf(f, w, cx), w, cy);
  }

  lemma LineLike(l: seq<bool>, w: nat, c: int)
    requires |l| == w >= 21 && (c == 3 || c == w - 4)
    requires forall x: nat :: x < w && -4 <= x - c <= 4 ==> (l[x] <==> Abs(x - c) in {0, 1, 3})
    ensures FinderLike(l, c - 1, 1)
  {}

  /** Row 6 and column 6 alternate between the finder patterns, starting and ending dark. */
  lemma TimingModules(f: seq<Byte>, version: nat, i: nat)
    requires 1 <= version <= VERSION_MAX && PlanOf(version).Valid() && Patterned(f, version)
    requires 8 <= i < Width(version) - 8
    ensures var w := Width(version);
            && |f| == w * w
            && Reserved(At(FrameOf(version), w, i, 6)) && Reserved(At(FrameOf(version), w, 6, i))
            && (Dark(At(f, w, i, 6)) <==> i % 2 == 0) && (Dark(At(f, w, 6, i)) <==> i % 2 == 0)
  {
    hide Width, FrameOf, Draws, FixedDraws, Dark, At, Reserved, Covers, VersionPattern, AlignmentTable, Offset;
    WidthFormula(version);
    TimingRow(Width(version), i);
    FixedFirst(version, 13); FixedFirst(version, 14);
    CoveredShows(version, 13, i, 6); CoveredShows(version, 14, 6, i);
  }

  lemma TimingRow(w: nat, i: nat)
    requires SymbolWidth(w) && 8 <= i < w - 8
    ensures Covers(FixedDraws(w)[13], i, 6) && Covers(FixedDraws(w)[14], 6, i)
  {}

  /** The single dark module. */
  lemma DarkModule(f: seq<Byte>, version: nat)
    requires 1 <= version <= VERSION_MAX && PlanOf(version).Valid() && Patterned(f, version)
    ensures var w := Width(version);
            w >= 21 && |f| == w * w && Reserved(At(FrameOf(version), w, 8, w - 8)) && Dark(At(f, w, 8, w - 8))
  {
    hide Width, FrameOf, FixedDraws, AlignmentDraws, VersionDraws, Dark, At, Reserved, VersionPattern, AlignmentTable, Offset;
    WidthFormula(version);
    var ds := Draws(version);
    CoveredShows(version, |ds| - 1, 8, Width(version) - 8);
  }

  /** Bit k of the version information is shown at two places. */
  lemma VersionModules(f: seq<Byte>, version: nat, k: nat)
    requires 7 <= version <= VERSION_MAX && PlanOf(version).Valid() && Patterned(f, version) && k < 18
    ensures var w := Width(version); var (x, y) := (k / 3, w - 11 + k % 3);
            && 0 <= y < w && |f| == w * w && Reserved(At(FrameOf(version), w, x, y)) && Reserved(At(FrameOf(version), w, y, x))
            && (Dark(At(f, w, x, y)) <==> VersionPattern(version) / Pow2(k) % 2 == 1)
            && (Dark(At(f, w, y, x)) <==> VersionPattern(version) / Pow2(k) % 2 == 1)
  {
    hide Width, FrameOf, FixedDraws, AlignmentDraws, Dark, At, Reserved, VersionPattern, AlignmentTable, Offset, Pow2;
    WidthFormula(version);
    var ds, w := Draws(version), Width(version);
    var (x, y) := (k / 3, w - 11 + k % 3);
    CoveredShows(version, |ds| - 3, x, y);
    CoveredShows(version, |ds| - 2, y, x);
    assert InfoPlace(w, x, y) == k && InfoPlace(w, y, x) == k;
  }

  // ---- Alignment patterns ----

  /** The coordinates of the alignment patterns: 6, and then evenly spaced up to seven from the border. */
  function AlignmentPositions(version: nat): (r: seq<nat>)
    requires version <= VERSION_MAX
  {
    if version < 2 then []
    else [6] + seq(Markers(version) - 1, k requires 0 <= k < Markers(version) - 1 => LaterPosition(version, k))
  }

  function LaterPosition(version: nat, k: nat): nat
    requires 2 <= version <= VERSION_MAX && k < Markers(version) - 1
  {
    BackFits(version, k);
    4 * version + 10 - (Markers(version) - 2 - k) * Spacing(version)
  }

  /** Counting forward from the first position is counting back from the last one. */
  lemma BackFits(version: nat, k: nat)
    requires 2 <= version <= VERSION_MAX && k < Markers(version) - 1
    ensures 18 <= 4 * version + 10 - (Markers(version) - 2 - k) * Spacing(version)
    ensures version >= 7 ==>
              4 * version + 10 - (Markers(version) - 2 - k) * Spacing(version)
              == AlignmentTable(version).0 + k * (AlignmentTable(version).1 - AlignmentTable(version).0)
  {
    AlignmentSpacing(version);
    AlignmentEven(version);
    hide AlignmentTable, Spacing, Gaps;
    if version >= 7 {
      var n, d := Markers(version) - 2, Spacing(version);
      assert n * d == k * d + (n - k) * d;
      MulLe(0, k, d);
    }
  }

  lemma {:induction false} EdgeDrawn(a: nat, d: nat, n: nat, k: nat) returns (i: nat)
    requires k < n
    ensures i + 1 < |EdgeDraws(a, d, n)|
    ensures EdgeDraws(a, d, n)[i] == Marker(6, a + k * d) && EdgeDraws(a, d, n)[i + 1] == Marker(a + k * d, 6)
  {
    if k == n - 1 { i := |EdgeDraws(a, d, n - 1)|; } else { i := EdgeDrawn(a, d, n - 1, k); }
  }

  lemma {:induction false} RowDrawn(a: nat, d: nat, cy: nat, n: nat, k: nat)
    requires k < n
    ensures k < |RowDraws(a, d, cy, n)| == n && RowDraws(a, d, cy, n)[k] == Marker(a + k * d, cy)
  {
    RowLength(a, d, cy, n - 1);
    if k < n - 1 { RowDrawn(a, d, cy, n - 1, k); }
  }

  lemma {:induction false} RowLength(a: nat, d: nat, cy: nat, n: nat)
    ensures |RowDraws(a, d, cy, n)| == n
  {
    if n > 0 { RowLength(a, d, cy, n - 1); }
  }

  lemma {:induction false} GridDrawn(a: nat, d: nat, m: nat, n: nat, i: nat, j: nat) returns (k: nat)
    requires i < m && j < n
    ensures k < |GridDraws(a, d, m, n)| && GridDraws(a, d, m, n)[k] == Marker(a + i * d, a + j * d)
  {
    hide RowDraws;
    if j == n - 1 {
      RowDrawn(a, d, a + j * d, m, i);
      k := |GridDraws(a, d, m, n - 1)| + i;
    } else {
      k := GridDrawn(a, d, m, n - 1, i, j);
    }
  }

  /** The markers that are drawn: all pairs of positions, except those in the three corners of the
      finder patterns. */
  predicate Corner(n: nat, i: nat, j: nat) { (i == 0 && j == 0) || (i == 0 && j == n - 1) || (i == n - 1 && j == 0) }

  /** Position number i of a row of patterns. */
  function PositionAt(a: nat, d: nat, i: nat): nat { if i == 0 then 6 else a + (i - 1) * d }

  lemma GridIs(w: nat, a: nat, d: nat, n: nat)
    requires 3 <= n && 16 <= d && a + (n - 2) * d == w - 7
    ensures MarkerDraws(w, a, a + d) == EdgeDraws(a, d, n - 2) + GridDraws(a, d, n - 1, n - 1)
  {
    hide EdgeDraws, GridDraws;
    DivMod(w - a, d, n - 2, 7);
  }

  lemma GridMarker(w: nat, a: nat, d: nat, n: nat, i: nat, j: nat) returns (k: nat)
    requires 3 <= n && 16 <= d && a + (n - 2) * d == w - 7 && i < n && j < n && !Corner(n, i, j)
    ensures k < |MarkerDraws(w, a, a + d)|
    ensures MarkerDraws(w, a, a + d)[k] == Marker(PositionAt(a, d, i), PositionAt(a, d, j))
  {
    hide MarkerDraws, EdgeDraws, GridDraws;
    GridIs(w, a, d, n);
    if i == 0 {
      k := EdgeDrawn(a, d, n - 2, j - 1);
    } else if j == 0 {
      k := EdgeDrawn(a, d, n - 2, i - 1);
      k := k + 1;
    } else {
      k := GridDrawn(a, d, n - 1, n - 1, i - 1, j - 1);
      k := |EdgeDraws(a, d, n - 2)| + k;
    }
  }

  lemma PositionIs(version: nat, i: nat)
    requires 7 <= version <= VERSION_MAX && i < |AlignmentPositions(version)|
    ensures AlignmentTable(version).0 <= AlignmentTable(version).1
    ensures AlignmentPositions(version)[i]
         == PositionAt(AlignmentTable(version).0, AlignmentTable(version).1 - AlignmentTable(version).0, i)
  {
    hide AlignmentTable, Spacing, Gaps;
    AlignmentEven(version);
    if i > 0 { BackFits(version, i - 1); }
  }

  lemma MarkerDrawn(version: nat, i: nat, j: nat) returns (k: nat)
    requires 2 <= version <= VERSION_MAX
    requires i < |AlignmentPositions(version)| && j < |AlignmentPositions(version)|
             && !Corner(|AlignmentPositions(version)|, i, j)
    ensures k < |AlignmentDraws(version)|
    ensures AlignmentDraws(version)[k] == Marker(AlignmentPositions(version)[i], AlignmentPositions(version)[j])
  {
    hide AlignmentTable, Spacing, Width, Gaps, MarkerDraws, PositionAt;
    WidthFormula(version);
    AlignmentEven(version);
    AlignmentSpacing(version);
    var a, b, n := AlignmentTable(version).0, AlignmentTable(version).1, Markers(version);
    if version < 7 {
      LonePosition(version);
      SingleMarker(Width(version), a, b);
      k := 0;
    } else {
      PositionIs(version, i); PositionIs(version, j);
      hide AlignmentPositions;
      PositionCount(version);
      k := GridMarker(Width(version), a, b - a, n, i, j);
    }
  }

  lemma PositionCount(version: nat)
    requires 2 <= version <= VERSION_MAX
    ensures |AlignmentPositions(version)| == Markers(version) >= 2 && (version >= 7 ==> Markers(version) >= 3)
  {}

  lemma LonePosition(version: nat)
    requires 2 <= version < 7
    ensures |AlignmentPositions(version)| == 2 && AlignmentPositions(version)[1] == 4 * version + 10
  {}

  lemma SingleMarker(w: nat, a: nat, b: nat)
    requires b <= a
    ensures MarkerDraws(w, a, b) == [Marker(a, a)]
  {}

  lemma AgreesAt(p: Plan, e: Draw, x: int, y: int)
    requires p.Valid() && Agrees(p, e) && Covers(e, x, y)
    ensures e.ox <= x && e.oy <= y && Dark(PatternCell(e.p, x - e.ox, y - e.oy)) == Shown(p, x, y)
  {}

  lemma MarkerIndex(version: nat, k: nat)
    requires version <= VERSION_MAX && k < |AlignmentDraws(version)|
    ensures 15 + k < |Draws(version)| && Draws(version)[15 + k] == AlignmentDraws(version)[k]
  {
    hide Width, AlignmentDraws, VersionDraws;
  }

  lemma HarmlessAlignment(w: nat, e: Draw, x: int, y: int)
    requires Harmless(w, e) && e.p == Alignment && Covers(e, x, y)
    ensures !FormatCell(w, x, y)
  {}

  /** Around every alignment position: the centre and the border are dark, the ring between them is
      light. */
  lemma AlignmentRings(f: seq<Byte>, version: nat, i: nat, j: nat, x: nat, y: nat)
    requires 2 <= version <= VERSION_MAX && PlanOf(version).Valid() && Patterned(f, version)
    requires i < |AlignmentPositions(version)| && j < |AlignmentPositions(version)|
             && !Corner(|AlignmentPositions(version)|, i, j)
    requires x < Width(version) && y < Width(version)
    requires Ring(x - AlignmentPositions(version)[i], y - AlignmentPositions(version)[j]) <= 2
    ensures var w := Width(version); var (cx, cy) := (AlignmentPositions(version)[i], AlignmentPositions(version)[j]);
            Reserved(At(FrameOf(version), w, x, y)) && (Dark(At(f, w, x, y)) <==> Ring(x - cx, y - cy) in {0, 2})
  {
    hide Width, FrameOf, Draws, AlignmentDraws, AlignmentPositions, PatternCell, Dark, At, Reserved, Shown;
    hide FormatCell, PlanOf, Agrees;
    var k := MarkerDrawn(version, i, j);
    var e := Marker(AlignmentPositions(version)[i], AlignmentPositions(version)[j]);
    MarkersAgree(version);
    AgreesAt(PlanOf(version), e, x, y);
    MarkerIndex(version, k);
    CoveredShows(version, 15 + k, x, y);
    MarkerCell(x - e.ox, y - e.oy);
    AlignmentHarmless(version);
    HarmlessAlignment(Width(version), e, x, y);
  }
}
