/** Counting the modules that the function patterns leave free: exactly the bits of the codes and
    the remainder bits of the version. */
module FreeModules {
  import opened Arith
  import opened GF256
  import opened QRSpec
  import opened FrameFillers
  import opened Frames

  type Cells = set<(int, int)>

  ghost function Rect(ox: int, oy: int, nx: nat, ny: nat): Cells {
    set x: int, y: int | ox <= x < ox + nx && oy <= y < oy + ny :: (x, y)
  }

  ghost function Area(d: Draw): Cells { Rect(d.ox, d.oy, d.nx, d.ny) }

  ghost function Union(ds: seq<Draw>): Cells {
    if ds == [] then {} else Union(ds[..|ds| - 1]) + Area(ds[|ds| - 1])
  }

  // ---- Cardinalities ----

  lemma {:induction false} RowSize(ox: int, oy: int, nx: nat)
    ensures |Rect(ox, oy, nx, 1)| == nx
  {
    if nx == 0 {
      assert Rect(ox, oy, nx, 1) == {};
    } else {
      RowSize(ox, oy, nx - 1);
      assert Rect(ox, oy, nx, 1) == Rect(ox, oy, nx - 1, 1) + {(ox + nx - 1, oy)};
    }
  }

  lemma AddRow(ox: int, oy: int, nx: nat, ny: nat)
    requires 1 <= ny
    ensures |Rect(ox, oy, nx, ny)| == |Rect(ox, oy, nx, ny - 1)| + |Rect(ox, oy + ny - 1, nx, 1)|
  {
    var a, b := Rect(ox, oy, nx, ny - 1), Rect(ox, oy + ny - 1, nx, 1);
    assert Rect(ox, oy, nx, ny) == a + b;
    assert a * b == {};
  }

  lemma {:induction false} RectSize(ox: int, oy: int, nx: nat, ny: nat)
    ensures |Rect(ox, oy, nx, ny)| == nx * ny
  {
    if ny == 0 {
      assert Rect(ox, oy, nx, ny) == {};
    } else {
      AddRow(ox, oy, nx, ny);
      RowSize(ox, oy + ny - 1, nx);
      RectSize(ox, oy, nx, ny - 1);
      hide Rect;
      MulSucc(ny - 1, nx);
    }
  }

  lemma {:induction false} InUnion(ds: seq<Draw>, x: int, y: int)
    ensures (x, y) in Union(ds) <==> exists k :: 0 <= k < |ds| && Covers(ds[k], x, y)
  {
    if ds != [] {
      var n := |ds| - 1;
      InUnion(ds[..n], x, y);
      if k: nat :| k < n && Covers(ds[..n][k], x, y) {
        assert Covers(ds[k], x, y);
      }
    }
  }

  predicate Apart(a: Draw, b: Draw) {
    a.ox + a.nx <= b.ox || b.ox + b.nx <= a.ox || a.oy + a.ny <= b.oy || b.oy + b.ny <= a.oy
  }

  /** What a and b share lies in the rectangle r. */
  ghost predicate Share(a: Draw, b: Draw, r: Draw) {
    forall x, y :: Covers(a, x, y) && Covers(b, x, y) ==> Covers(r, x, y)
  }

  lemma Overlap(ds: seq<Draw>, d: Draw, r: Draw, k: nat)
    requires forall i :: 0 <= i < |ds| ==> Share(ds[i], d, r)
    requires forall x, y :: Covers(r, x, y) ==> Covers(d, x, y) && k < |ds| && Covers(ds[k], x, y)
    ensures Union(ds) * Area(d) == Area(r)
  {
    hide Union, Covers, Area;
    forall c: (int, int)
      ensures c in Union(ds) && c in Area(d) <==> c in Area(r)
    {
      var x, y := c.0, c.1;
      assert c == (x, y);
      InUnion(ds, x, y);
      CoversArea(d, x, y); CoversArea(r, x, y);
      if i :| 0 <= i < |ds| && Covers(ds[i], x, y) {
        assert Share(ds[i], d, r);
      }
    }
  }

  lemma AddUnion(ds: seq<Draw>, d: Draw)
    ensures Union(ds + [d]) == Union(ds) + Area(d)
  {
    assert (ds + [d])[..|ds|] == ds;
  }

  /** A drawing adds its area, except for the part r that is covered already. */
  lemma AddDraw(ds: seq<Draw>, d: Draw, r: Draw, k: nat)
    requires forall i :: 0 <= i < |ds| ==> Share(ds[i], d, r)
    requires forall x, y :: Covers(r, x, y) ==> Covers(d, x, y) && k < |ds| && Covers(ds[k], x, y)
    ensures |Union(ds + [d])| + r.nx * r.ny == |Union(ds)| + d.nx * d.ny
  {
    Overlap(ds, d, r, k);
    AddUnion(ds, d);
    RectSize(d.ox, d.oy, d.nx, d.ny); RectSize(r.ox, r.oy, r.nx, r.ny);
    hide Union, Covers, Rect, Share;
  }

  /** A drawing that is apart from all others adds its whole area. */
  lemma AddApart(ds: seq<Draw>, d: Draw)
    requires forall i :: 0 <= i < |ds| ==> Apart(ds[i], d)
    ensures |Union(ds + [d])| == |Union(ds)| + d.nx * d.ny
  {
    AddDraw(ds, d, Draw(d.ox, d.oy, 0, 0, d.p), 0);
  }

  // ---- Reserved modules are the covered ones ----

  ghost function ReservedCells(f: seq<Byte>, w: nat): Cells
    requires |f| == w * w
  {
    set x: int, y: int | 0 <= x < w && 0 <= y < w && Reserved(At(f, w, x, y)) :: (x, y)
  }

  lemma {:induction false} ReservedUnion(w: nat, ds: seq<Draw>)
    requires SymbolWidth(w) && AllHarmless(w, ds)
    ensures ReservedCells(DrawnAll(Blank(w), w, ds), w) == Union(ds)
  {
    hide At, Reserved, PatternCell, Harmless, Drawn, Covers;
    var f := DrawnAll(Blank(w), w, ds);
    if ds == [] {
      forall x, y | 0 <= x < w && 0 <= y < w
        ensures !Reserved(At(f, w, x, y))
      {
        BlankFree(w, x, y);
      }
    } else {
      var n := |ds| - 1;
      var g, d := DrawnAll(Blank(w), w, ds[..n]), ds[n];
      ReservedUnion(w, ds[..n]);
      HarmlessInside(w, d);
      forall x, y
        ensures (x, y) in ReservedCells(f, w) <==> (x, y) in Union(ds)
      {
        CoversArea(d, x, y);
        if 0 <= x < w && 0 <= y < w {
          DrawnAt(g, w, d, x, y);
          if Covers(d, x, y) { PatternReserved(d, w, x - d.ox, y - d.oy); }
        }
      }
    }
  }

  lemma BlankFree(w: nat, x: nat, y: nat)
    requires x < w && y < w
    ensures !Reserved(At(Blank(w), w, x, y))
  {
    assert !Reserved(0);
  }

  lemma CoversArea(d: Draw, x: int, y: int)
    ensures Covers(d, x, y) <==> (x, y) in Area(d)
    ensures Covers(d, x, y) ==> x >= d.ox && y >= d.oy
    ensures forall w: nat :: Inside(w, d) && Covers(d, x, y) ==> 0 <= x < w && 0 <= y < w
  {}

  // ---- Finder patterns, separators, format information and timing patterns ----

  lemma FixedApart(w: nat, i: nat, j: nat)
    requires SymbolWidth(w) && i < j < 13
    ensures Apart(FixedDraws(w)[i], FixedDraws(w)[j])
  {}

  lemma {:induction false} FixedSize(w: nat, n: nat)
    requires SymbolWidth(w) && n <= 13
    ensures |FixedDraws(w)| == 15 && |Union(FixedDraws(w)[..n])| == FixedArea(n)
  {
    if n == 0 {
      assert FixedDraws(w)[..0] == [];
    } else {
      FixedSize(w, n - 1);
      FixedAreaStep(w, n);
      hide FixedDraws, Union, FixedArea;
      FixedStep(w, n);
    }
  }

  lemma FixedStep(w: nat, n: nat)
    requires SymbolWidth(w) && 1 <= n <= 13 && |FixedDraws(w)| == 15
    ensures var ds := FixedDraws(w); |Union(ds[..n])| == |Union(ds[..n - 1])| + ds[n - 1].nx * ds[n - 1].ny
  {
    hide FixedDraws, Apart, Union;
    var ds := FixedDraws(w);
    forall i | 0 <= i < n - 1 ensures Apart(ds[i], ds[n - 1]) { FixedApart(w, i, n - 1); }
    AddApart(ds[..n - 1], ds[n - 1]);
    assert ds[..n - 1] + [ds[n - 1]] == ds[..n];
  }

  /** The area of the first n fixed drawings. */
  function FixedArea(n: nat): nat {
    if n <= 3 then 49 * n
    else if n <= 6 then 147 + 7 * (n - 3)
    else if n <= 9 then 168 + 8 * (n - 6)
    else if n == 10 then 201 else if n == 11 then 209 else if n == 12 then 217 else 224
  }

  lemma FixedAreaStep(w: nat, n: nat)
    requires SymbolWidth(w) && 1 <= n <= 13
    ensures var d := FixedDraws(w)[n - 1]; FixedArea(n) == FixedArea(n - 1) + d.nx * d.ny
  {}

  /** The timing patterns cross the format area once each. */
  lemma FixedTotal(w: nat)
    requires SymbolWidth(w)
    ensures |Union(FixedDraws(w))| == 2 * w + 190
  {
    var ds := FixedDraws(w);
    FixedSize(w, 13);
    TimingShares(w);
    assert ds[..13] + [ds[13]] == ds[..14] && ds[..14] + [ds[14]] == ds;
    AddDraw(ds[..13], ds[13], Draw(8, 6, 1, 1, Timing), 11);
    AddDraw(ds[..14], ds[14], Draw(6, 8, 1, 1, Timing), 9);
  }

  lemma TimingShares(w: nat)
    requires SymbolWidth(w)
    ensures forall i :: 0 <= i < 13 ==> Share(FixedDraws(w)[i], FixedDraws(w)[13], Draw(8, 6, 1, 1, Timing))
    ensures forall i :: 0 <= i < 14 ==> Share(FixedDraws(w)[i], FixedDraws(w)[14], Draw(6, 8, 1, 1, Timing))
  {}

  // ---- Alignment patterns ----

  /** A marker on a timing pattern, with its centre between lo and hi. */
  predicate EdgeLike(e: Draw, lo: int, hi: int) {
    && e.nx == 5 && e.ny == 5
    && ((e.ox == 4 && lo - 2 <= e.oy <= hi - 2) || (e.oy == 4 && lo - 2 <= e.ox <= hi - 2))
  }

  lemma {:induction false} EdgeMembers(a: nat, d: nat, n: nat)
    ensures forall i :: 0 <= i < |EdgeDraws(a, d, n)| ==> EdgeLike(EdgeDraws(a, d, n)[i], a, a + (n - 1) * d)
  {
    if n > 0 {
      EdgeMembers(a, d, n - 1);
      MulLe(0, n - 1, d);
      MulSucc(n - 2, d);
    }
  }

  /** Both markers of a pair lie across a timing pattern, five modules of which they cover again. */
  lemma {:induction false} EdgeSize(w: nat, a: nat, d: nat, n: nat)
    requires SymbolWidth(w) && 18 <= a && 16 <= d && (n > 0 ==> a + (n - 1) * d <= w - 11)
    ensures |Union(FixedDraws(w) + EdgeDraws(a, d, n))| == |Union(FixedDraws(w))| + 40 * n
  {
    hide FixedDraws, Union, Apart;
    var fixed := FixedDraws(w);
    if n == 0 {
      assert fixed + EdgeDraws(a, d, n) == fixed;
    } else {
      MulSucc(n - 2, d); MulLe(0, n - 1, d); MulLe(n - 2, n - 1, d);
      EdgeSize(w, a, d, n - 1);
      EdgeMembers(a, d, n - 1);
      var before, c := EdgeDraws(a, d, n - 1), a + (n - 1) * d;
      hide EdgeDraws;
      PairSize(w, before, c);
      assert EdgeDraws(a, d, n) == before + [Marker(6, c), Marker(c, 6)] by { NextEdge(a, d, n); }
      assert fixed + EdgeDraws(a, d, n) == fixed + before + [Marker(6, c)] + [Marker(c, 6)];
    }
  }

  lemma NextEdge(a: nat, d: nat, n: nat)
    requires 1 <= n
    ensures EdgeDraws(a, d, n) == EdgeDraws(a, d, n - 1) + [Marker(6, a + (n - 1) * d), Marker(a + (n - 1) * d, 6)]
  {}

  lemma PairSize(w: nat, edges: seq<Draw>, c: nat)
    requires SymbolWidth(w) && 18 <= c <= w - 11
    requires forall i :: 0 <= i < |edges| ==> EdgeLike(edges[i], 18, c - 16)
    ensures |Union(FixedDraws(w) + edges + [Marker(6, c)] + [Marker(c, 6)])| == |Union(FixedDraws(w) + edges)| + 40
  {
    var fixed, m, m' := FixedDraws(w), Marker(6, c), Marker(c, 6);
    var r, r' := Draw(6, c - 2, 1, 5, Alignment), Draw(c - 2, 6, 5, 1, Alignment);
    FixedShares(w, c);
    hide FixedDraws;
    var ds := fixed + edges;
    forall i | 0 <= i < |ds| ensures Share(ds[i], m, r) {
      if i >= |fixed| { EdgesApart(edges[i - |fixed|], c); }
    }
    AddDraw(ds, m, r, 14);
    forall i | 0 <= i < |ds + [m]| ensures Share((ds + [m])[i], m', r') {
      if |fixed| <= i < |ds| { EdgesApart(edges[i - |fixed|], c); }
    }
    AddDraw(ds + [m], m', r', 13);
  }

  lemma FixedShares(w: nat, c: nat)
    requires SymbolWidth(w) && 18 <= c <= w - 11
    ensures |FixedDraws(w)| == 15
    ensures forall i :: 0 <= i < 15 ==> Share(FixedDraws(w)[i], Marker(6, c), Draw(6, c - 2, 1, 5, Alignment))
    ensures forall i :: 0 <= i < 15 ==> Share(FixedDraws(w)[i], Marker(c, 6), Draw(c - 2, 6, 5, 1, Alignment))
    ensures FixedDraws(w)[13] == Draw(8, 6, w - 16, 1, Timing) && FixedDraws(w)[14] == Draw(6, 8, 1, w - 16, Timing)
  {}

  lemma EdgesApart(e: Draw, c: nat)
    requires EdgeLike(e, 18, c - 16) && 18 <= c
    ensures Share(e, Marker(6, c), Draw(6, c - 2, 1, 5, Alignment))
    ensures Share(e, Marker(c, 6), Draw(c - 2, 6, 5, 1, Alignment))
  {}

  /** A drawing that a square of five modules with its centre at (cx, cy), cx >= 18, does not meet
      because it ends left of it or above it. */
  predicate LeftOrAbove(e: Draw, cy: int) { e.ox + e.nx <= 16 || e.oy + e.ny <= cy - 2 }

  /** A row of markers adds 25 modules for each of them. */
  lemma {:induction false} RowSizes(ds: seq<Draw>, a: nat, d: nat, cy: nat, n: nat)
    requires 18 <= a && 16 <= d
    requires forall i :: 0 <= i < |ds| ==> LeftOrAbove(ds[i], cy)
    ensures |Union(ds + RowDraws(a, d, cy, n))| == |Union(ds)| + 25 * n
  {
    hide Union;
    if n == 0 {
      assert ds + RowDraws(a, d, cy, n) == ds;
    } else {
      RowSizes(ds, a, d, cy, n - 1);
      RowMembers(a, d, cy, n - 1);
      MulSucc(n - 2, d); MulLe(0, n - 1, d);
      var before, m := RowDraws(a, d, cy, n - 1), Marker(a + (n - 1) * d, cy);
      assert ds + RowDraws(a, d, cy, n) == ds + before + [m];
      AddApart(ds + before, m);
    }
  }

  lemma {:induction false} RowMembers(a: nat, d: nat, cy: nat, n: nat)
    ensures forall i :: 0 <= i < |RowDraws(a, d, cy, n)| ==>
              var e := RowDraws(a, d, cy, n)[i];
              e.oy == cy - 2 && e.nx == 5 && e.ny == 5 && a - 2 <= e.ox <= a + (n - 1) * d - 2
  {
    if n > 0 {
      RowMembers(a, d, cy, n - 1);
      MulLe(0, n - 1, d);
      MulSucc(n - 2, d);
    }
  }

  lemma {:induction false} GridMembers(a: nat, d: nat, m: nat, n: nat)
    ensures forall i :: 0 <= i < |GridDraws(a, d, m, n)| ==>
              var e := GridDraws(a, d, m, n)[i];
              e.nx == 5 && e.ny == 5 && a - 2 <= e.ox && a - 2 <= e.oy <= a + (n - 1) * d - 2
  {
    hide RowDraws;
    if n > 0 {
      GridMembers(a, d, m, n - 1);
      RowMembers(a, d, a + (n - 1) * d, m);
      MulLe(0, n - 1, d);
      MulSucc(n - 2, d);
    }
  }

  lemma {:induction false} GridSizes(ds: seq<Draw>, a: nat, d: nat, m: nat, n: nat)
    requires 18 <= a && 16 <= d
    requires forall i :: 0 <= i < |ds| ==> LeftOrAbove(ds[i], 18)
    ensures |Union(ds + GridDraws(a, d, m, n))| == |Union(ds)| + 25 * m * n
  {
    hide Union, RowDraws;
    if n == 0 {
      assert ds + GridDraws(a, d, m, n) == ds;
    } else {
      GridSizes(ds, a, d, m, n - 1);
      GridMembers(a, d, m, n - 1);
      MulSucc(n - 2, d); MulLe(0, n - 1, d);
      var before, cy := GridDraws(a, d, m, n - 1), a + (n - 1) * d;
      RowSizes(ds + before, a, d, cy, m);
      assert ds + GridDraws(a, d, m, n) == ds + before + RowDraws(a, d, cy, m);
      MulSucc(n - 1, 25 * m);
    }
  }

  lemma FixedLeftOrAbove(w: nat)
    requires SymbolWidth(w)
    ensures forall i :: 0 <= i < |FixedDraws(w)| ==> LeftOrAbove(FixedDraws(w)[i], 18)
  {}

  // ---- All drawings of a version ----

  /** The drawings that come last: version information and the single dark module. */
  function Late(w: int, info: nat): seq<Draw> {
    [Draw(0, w - 11, 6, 3, VersionColumns(info)), Draw(w - 11, 0, 3, 6, VersionRows(info)), Draw(8, w - 8, 1, 1, Plain(0x81))]
  }

  /** A drawing that keeps clear of the late ones. */
  predicate ClearOfLate(e: Draw, w: int) {
    && Apart(e, Draw(0, w - 11, 6, 3, Timing)) && Apart(e, Draw(w - 11, 0, 3, 6, Timing))
    && Apart(e, Draw(8, w - 8, 1, 1, Plain(0x81)))
  }

  lemma FixedClear(w: nat)
    requires SymbolWidth(w) && 45 <= w
    ensures forall i :: 0 <= i < |FixedDraws(w)| ==> ClearOfLate(FixedDraws(w)[i], w)
  {}

  lemma FixedClearOfDark(w: nat)
    requires SymbolWidth(w)
    ensures forall i :: 0 <= i < |FixedDraws(w)| ==> Apart(FixedDraws(w)[i], Draw(8, w - 8, 1, 1, Plain(0x81)))
  {}

  /** The area of the alignment patterns outside of the timing patterns. */
  function AlignmentArea(version: nat): nat {
    if version < 2 then 0
    else if version < 7 then 25
    else if version <= 13 then 40 + 25 * 2 * 2
    else if version <= 20 then 80 + 25 * 3 * 3
    else if version <= 27 then 120 + 25 * 4 * 4
    else if version <= 34 then 160 + 25 * 5 * 5
    else 200 + 25 * 6 * 6
  }

  lemma EvenGrid(w: nat, a: nat, b: nat, q: nat)
    requires SymbolWidth(w) && 45 <= w && 18 <= a && 16 <= b - a && 1 <= q && a + q * (b - a) == w - 7
    ensures |Union(FixedDraws(w) + MarkerDraws(w, a, b))| == 2 * w + 190 + 40 * q + 25 * (q + 1) * (q + 1)
    ensures forall i :: 0 <= i < |MarkerDraws(w, a, b)| ==> ClearOfLate(MarkerDraws(w, a, b)[i], w)
  {
    var d := b - a;
    hide FixedDraws, EdgeDraws, GridDraws, Union;
    DivMod(w - a, d, q, 7);
    assert MarkerDraws(w, a, b) == EdgeDraws(a, d, q) + GridDraws(a, d, q + 1, q + 1);
    MulSucc(q - 1, d);
    FixedTotal(w);
    EdgeSize(w, a, d, q);
    EdgeMembers(a, d, q); GridMembers(a, d, q + 1, q + 1);
    FixedLeftOrAbove(w);
    var ds := FixedDraws(w) + EdgeDraws(a, d, q);
    GridSizes(ds, a, d, q + 1, q + 1);
    assert FixedDraws(w) + MarkerDraws(w, a, b) == ds + GridDraws(a, d, q + 1, q + 1);
  }

  /** One marker, in versions 2 to 6. */
  lemma SingleMarker(w: nat)
    requires SymbolWidth(w) && 25 <= w
    ensures |Union(FixedDraws(w) + [Marker(w - 7, w - 7)])| == 2 * w + 190 + 25
    ensures Apart(Marker(w - 7, w - 7), Draw(8, w - 8, 1, 1, Plain(0x81)))
  {
    FixedTotal(w);
    FixedLeftOrAbove(w);
    hide FixedDraws, Union;
    AddApart(FixedDraws(w), Marker(w - 7, w - 7));
  }

  lemma LargeAlignment(version: nat)
    requires 7 <= version <= VERSION_MAX
    ensures var w, ds := Width(version), AlignmentDraws(version);
            && |Union(FixedDraws(w) + ds)| == 2 * w + 190 + AlignmentArea(version)
            && (forall i :: 0 <= i < |ds| ==> ClearOfLate(ds[i], w))
  {
    WidthFormula(version);
    AlignmentEven(version);
    GapsAre(version);
    hide Width, AlignmentTable, FixedDraws, Union, Gaps, MarkerDraws, ClearOfLate, AlignmentArea;
    EvenGrid(Width(version), AlignmentTable(version).0, AlignmentTable(version).1, Gaps(version));
  }

  lemma AlignmentSize(version: nat)
    requires 1 <= version <= VERSION_MAX
    ensures var w, ds := Width(version), AlignmentDraws(version);
            && |Union(FixedDraws(w) + ds)| == 2 * w + 190 + AlignmentArea(version)
            && (forall i :: 0 <= i < |ds| ==> Apart(ds[i], Draw(8, w - 8, 1, 1, Plain(0x81))))
            && (7 <= version ==> forall i :: 0 <= i < |ds| ==> ClearOfLate(ds[i], w))
  {
    WidthFormula(version);
    var w, ds := Width(version), AlignmentDraws(version);
    hide Width, AlignmentTable, FixedDraws, Union, MarkerDraws, Apart, ClearOfLate;
    if version < 2 {
      FixedTotal(w);
      assert FixedDraws(w) + ds == FixedDraws(w);
    } else if version < 7 {
      AlignmentEven(version);
      SingleMarker(w);
      OneMarker(w, AlignmentTable(version).0, AlignmentTable(version).1);
    } else {
      LargeAlignment(version);
      ClearOfDark(ds, w);
    }
  }

  lemma OneMarker(w: int, a: nat, b: nat)
    requires b <= a
    ensures MarkerDraws(w, a, b) == [Marker(a, a)]
  {}

  lemma ClearOfDark(ds: seq<Draw>, w: int)
    requires forall i :: 0 <= i < |ds| ==> ClearOfLate(ds[i], w)
    ensures forall i :: 0 <= i < |ds| ==> Apart(ds[i], Draw(8, w - 8, 1, 1, Plain(0x81)))
  {}

  lemma GapsAre(version: nat)
    requires 7 <= version <= VERSION_MAX
    ensures 40 * Gaps(version) + 25 * (Gaps(version) + 1) * (Gaps(version) + 1) == AlignmentArea(version)
  {}

  /** The number of modules that belong to function patterns. */
  lemma ReservedSize(version: nat)
    requires 1 <= version <= VERSION_MAX
    ensures |ReservedCells(FrameOf(version), Width(version))|
         == 2 * Width(version) + 191 + AlignmentArea(version) + if version >= 7 then 36 else 0
  {
    WidthFormula(version);
    var w, info := Width(version), VersionPattern(version);
    DrawsHarmless(version);
    ReservedUnion(w, Draws(version));
    AlignmentSize(version);
    hide Width, VersionPattern, AlignmentDraws, FixedDraws, Union, ReservedCells, DrawnAll, AllHarmless, AlignmentArea, Apart;
    LateSize(w, AlignmentDraws(version), info, version >= 7);
  }

  lemma LateSize(w: nat, alignment: seq<Draw>, info: nat, large: bool)
    requires SymbolWidth(w) && (large ==> 45 <= w)
    requires forall i :: 0 <= i < |alignment| ==> Apart(alignment[i], Draw(8, w - 8, 1, 1, Plain(0x81)))
    requires large ==> forall i :: 0 <= i < |alignment| ==> ClearOfLate(alignment[i], w)
    ensures var ds, late := FixedDraws(w) + alignment, Late(w, info);
            if large then |Union(ds + [late[0], late[1]] + [late[2]])| == |Union(ds)| + 37
            else |Union(ds + [] + [late[2]])| == |Union(ds)| + 1
  {
    FixedClearOfDark(w);
    hide FixedDraws, Union;
    var ds, late := FixedDraws(w) + alignment, Late(w, info);
    if large {
      FixedClear(w);
      AllLate(ds, w, info);
    } else {
      assert ds + [] == ds;
      AddApart(ds, late[2]);
    }
  }

  lemma AllLate(ds: seq<Draw>, w: nat, info: nat)
    requires 45 <= w && forall i :: 0 <= i < |ds| ==> ClearOfLate(ds[i], w)
    ensures var late := Late(w, info); |Union(ds + [late[0], late[1]] + [late[2]])| == |Union(ds)| + 37
  {
    hide Union;
    var late := Late(w, info);
    AddApart(ds, late[0]);
    AddApart(ds + [late[0]], late[1]);
    assert ds + [late[0]] + [late[1]] == ds + [late[0], late[1]];
    AddApart(ds + [late[0], late[1]], late[2]);
  }

  // ---- The path ----

  ghost function PathCells(p: seq<nat>, w: nat): Cells
    requires 1 <= w
  {
    set k: nat | k < |p| :: (p[k] % w, p[k] / w)
  }

  lemma {:induction false} PathCellsSize(p: seq<nat>, w: nat)
    requires 1 <= w && forall i :: 0 <= i < |p| ==> p[i] < w * w
    requires forall i, j :: 0 <= i < j < |p| ==> p[i] != p[j]
    ensures |PathCells(p, w)| == |p|
  {
    if p != [] {
      var n := |p| - 1;
      PathCellsSize(p[..n], w);
      var c := (p[n] % w, p[n] / w);
      forall k: nat | k < n ensures (p[k] % w, p[k] / w) != c {
        IndexOfAny(w, p[k]); IndexOfAny(w, p[n]);
      }
      assert PathCells(p, w) == PathCells(p[..n], w) + {c};
      assert c !in PathCells(p[..n], w);
    }
  }

  /** The walk visits as many modules as there are free ones. */
  lemma PathSize(f: seq<Byte>, w: nat)
    requires Walkable(f, w)
    ensures |Path(f, w, 0)| + |ReservedCells(f, w)| == w * w
  {
    var p := Path(f, w, 0);
    PathDistinct(f, w, 0);
    PathCellsSize(p, w);
    RectSize(0, 0, w, w);
    hide Path, Reserved, Index;
    var free, reserved := PathCells(p, w), ReservedCells(f, w);
    forall x, y
      ensures (x, y) in Rect(0, 0, w, w) <==> (x, y) in free + reserved
      ensures (x, y) !in free * reserved
    {
      if 0 <= x < w && 0 <= y < w {
        IndexInverse(w, x, y);
        var i := Index(w, x, y);
        PathComplete(f, w, i);
        assert At(f, w, x, y) == f[i];
        InPath(p, w, x, y);
      } else if (x, y) in free {
        var k: nat :| k < |p| && (p[k] % w, p[k] / w) == (x, y);
        IndexOfAny(w, p[k]);
      }
    }
    assert Rect(0, 0, w, w) == free + reserved;
    assert free * reserved == {};
  }

  lemma InPath(p: seq<nat>, w: nat, x: nat, y: nat)
    requires x < w && y < w && forall i :: 0 <= i < |p| ==> p[i] < w * w
    ensures (x, y) in PathCells(p, w) <==> Index(w, x, y) in p
  {
    IndexInverse(w, x, y);
    if (x, y) in PathCells(p, w) {
      var k: nat :| k < |p| && (p[k] % w, p[k] / w) == (x, y);
      IndexOfAny(w, p[k]);
    }
  }

  lemma CapacityMatches(version: nat)
    requires 1 <= version <= VERSION_MAX
    ensures var w := 4 * version + 17;
            w * w == 2 * w + 191 + AlignmentArea(version) + (if version >= 7 then 36 else 0)
                     + 8 * CapacityTable(version).words + Remainder(version)
  {}

  lemma FrameShape(version: nat)
    requires 1 <= version <= VERSION_MAX
    ensures SymbolWidth(Width(version)) && |FrameOf(version)| == Width(version) * Width(version)
  {
    WidthFormula(version);
    hide Width;
  }

  /** The free modules of a version, in the order of the walk. */
  function DataPath(version: nat): (p: seq<nat>)
    requires 1 <= version <= VERSION_MAX
    ensures forall i :: 0 <= i < |p| ==> p[i] < Width(version) * Width(version)
  {
    FrameShape(version);
    Path(FrameOf(version), Width(version), 0)
  }

  /** In every version the walk visits exactly one module for each bit of the codes and for each
      remainder bit. */
  lemma PathCapacity(version: nat)
    requires 1 <= version <= VERSION_MAX
    ensures |DataPath(version)| == 8 * CapacityTable(version).words + Remainder(version)
  {
    hide Path, FrameOf, ReservedCells, AlignmentArea, Width, Remainder, CapacityTable;
    WidthFormula(version);
    FrameOfOk(version);
    PathSize(FrameOf(version), Width(version));
    ReservedSize(version);
    CapacityMatches(version);
  }
}
