/** The zig-zag walk over the free modules of a frame. */
module FrameFillers {
  import opened Arith
  import opened GF256

  /** Modules with the top bit set belong to a function pattern and carry no data. */
  predicate Reserved(b: Byte) { b & 0x80 != 0 }

  /** The width of a QR code symbol. */
  predicate SymbolWidth(w: int) { w >= 21 && (w - 17) % 4 == 0 }

  // ---- The walk as a formula ----
  // Step u of the walk is in column pair u / 2w, counted from the right and skipping column 6;
  // even pairs are walked upwards, odd pairs downwards, the right module of each row first.

  function Pair(w: nat, u: nat): nat
    requires 1 <= w
  {
    Quot(u, 2 * w)
  }

  function InPair(w: nat, u: nat): nat
    requires 1 <= w
  {
    Rem(u, 2 * w)
  }

  /** The right column of pair c. */
  function RightColumn(w: nat, c: nat): int {
    if w - 1 - 2 * c > 6 then w - 1 - 2 * c else w - 2 - 2 * c
  }

  /** The column and the row of place r in pair c. */
  function Column(w: nat, c: nat, r: nat): int { RightColumn(w, c) - r % 2 }

  function Row(w: nat, c: nat, r: nat): int { if c % 2 == 0 then w - 1 - r / 2 else r / 2 }

  function Direction(c: nat): int { if c % 2 == 0 then -1 else 1 }

  function WalkX(w: nat, u: nat): int
    requires 1 <= w
  {
    Column(w, Pair(w, u), InPair(w, u))
  }

  function WalkY(w: nat, u: nat): int
    requires 1 <= w
  {
    Row(w, Pair(w, u), InPair(w, u))
  }

  /** The number of column pairs. */
  function Pairs(w: nat): int { (w - 1) / 2 }

  function Steps(w: nat): int { Pairs(w) * (2 * w) }

  /** The step at which the walk is at column x, row y. */
  function StepAt(w: nat, x: int, y: int): int
    requires 1 <= w
  {
    var offset := if x > 6 then w - 1 - x else w - 2 - x;
    var c := offset / 2;
    c * (2 * w) + 2 * (if c % 2 == 0 then w - 1 - y else y) + offset % 2
  }

  lemma PairBound(w: nat, u: nat)
    requires SymbolWidth(w) && u < Steps(w)
    ensures Pair(w, u) < Pairs(w) && InPair(w, u) < 2 * w && u == Pair(w, u) * (2 * w) + InPair(w, u)
  {
    Quotient(u, Pairs(w), 2 * w);
  }

  lemma Halves(q: nat, b: nat)
    requires b < 2
    ensures (2 * q + b) / 2 == q && (2 * q + b) % 2 == b
  {}

  lemma ColumnFacts(w: nat, c: nat, r: nat)
    requires SymbolWidth(w) && c < Pairs(w) && r < 2 * w
    ensures 0 <= Column(w, c, r) < w && Column(w, c, r) != 6 && 0 <= Row(w, c, r) < w
    ensures StepAt(w, Column(w, c, r), Row(w, c, r)) == c * (2 * w) + r
  {
    ColumnBack(w, c, r % 2); RowBack(w, c, r);
    Halves(c, r % 2);
    hide RightColumn, Row, Pairs;
  }

  lemma ColumnBack(w: nat, c: nat, b: nat)
    requires SymbolWidth(w) && c < Pairs(w) && b < 2
    ensures var x := RightColumn(w, c) - b;
            0 <= x < w && x != 6 && (if x > 6 then w - 1 - x else w - 2 - x) == 2 * c + b
  {}

  lemma RowBack(w: nat, c: nat, r: nat)
    requires SymbolWidth(w) && r < 2 * w
    ensures var y := Row(w, c, r);
            0 <= y < w && r == 2 * (if c % 2 == 0 then w - 1 - y else y) + r % 2
  {}

  lemma WalkInside(w: nat, u: nat)
    requires SymbolWidth(w) && u < Steps(w)
    ensures 0 <= WalkX(w, u) < w && WalkX(w, u) != 6 && 0 <= WalkY(w, u) < w
    ensures StepAt(w, WalkX(w, u), WalkY(w, u)) == u
  {
    PairBound(w, u);
    hide Pair, InPair, Steps, Column, Row, Pairs, StepAt;
    ColumnFacts(w, Pair(w, u), InPair(w, u));
  }

  /** The pair, and the place in the pair, of the module at column x, row y. */
  function PairOf(w: nat, x: int): int { (if x > 6 then w - 1 - x else w - 2 - x) / 2 }

  function PlaceOf(w: nat, x: int, y: int): int {
    var offset := if x > 6 then w - 1 - x else w - 2 - x;
    2 * (if offset / 2 % 2 == 0 then w - 1 - y else y) + offset % 2
  }

  lemma PlaceFacts(w: nat, x: nat, y: nat)
    requires SymbolWidth(w) && x < w && x != 6 && y < w
    ensures var c, r := PairOf(w, x), PlaceOf(w, x, y);
            && 0 <= c < Pairs(w) && 0 <= r < 2 * w
            && Column(w, c, r) == x && Row(w, c, r) == y
            && StepAt(w, x, y) == c * (2 * w) + r
  {
    var offset := if x > 6 then w - 1 - x else w - 2 - x;
    PlaceColumn(w, x, offset / 2, offset % 2);
    var row := if offset / 2 % 2 == 0 then w - 1 - y else y;
    Halves(row, offset % 2);
    hide RightColumn, Pairs;
  }

  lemma PlaceColumn(w: nat, x: nat, c: nat, b: nat)
    requires SymbolWidth(w) && x < w && x != 6 && b < 2 && 2 * c + b == (if x > 6 then w - 1 - x else w - 2 - x)
    ensures c < Pairs(w) && RightColumn(w, c) - b == x
  {}

  lemma StepInside(w: nat, x: nat, y: nat)
    requires SymbolWidth(w) && x < w && x != 6 && y < w
    ensures 0 <= StepAt(w, x, y) < Steps(w)
    ensures WalkX(w, StepAt(w, x, y)) == x && WalkY(w, StepAt(w, x, y)) == y
  {
    PlaceFacts(w, x, y);
    hide Quot, Rem, Column, Row, PairOf, PlaceOf, Pairs, StepAt;
    var c, r := PairOf(w, x), PlaceOf(w, x, y);
    MulLe(c + 1, Pairs(w), 2 * w); MulSucc(c, 2 * w); MulLe(0, c, 2 * w);
    DivMod(c * (2 * w) + r, 2 * w, c, r);
  }

  // ---- The free modules in the order of the walk ----

  /** The index of the module at column x, row y. */
  function Index(w: nat, x: nat, y: nat): (i: nat)
    requires x < w && y < w
    ensures i < w * w
  {
    MulLe(y + 1, w, w); MulSucc(y, w);
    y * w + x
  }

  lemma IndexInverse(w: nat, x: nat, y: nat)
    requires x < w && y < w
    ensures Index(w, x, y) / w == y && Index(w, x, y) % w == x
  {
    DivMod(y * w + x, w, y, x);
  }

  lemma IndexOfAny(w: nat, i: nat)
    requires i < w * w
    ensures 0 <= i / w < w && 0 <= i % w < w && Index(w, i % w, i / w) == i
  {
    Quotient(i, w, w);
  }

  /** The module visited at step u. */
  function Cell(w: nat, u: nat): (i: nat)
    requires SymbolWidth(w) && u < Steps(w)
    ensures i < w * w
  {
    WalkInside(w, u);
    Index(w, WalkX(w, u), WalkY(w, u))
  }

  /** The free modules from step u on. */
  function Path(f: seq<Byte>, w: nat, u: nat): (p: seq<nat>)
    requires SymbolWidth(w) && |f| == w * w
    ensures forall i :: 0 <= i < |p| ==> p[i] < w * w
    decreases Steps(w) - u
  {
    if u >= Steps(w) then []
    else if Reserved(f[Cell(w, u)]) then Path(f, w, u + 1)
    else [Cell(w, u)] + Path(f, w, u + 1)
  }

  lemma CellInjective(w: nat, u: nat, v: nat)
    requires SymbolWidth(w) && u < Steps(w) && v < Steps(w) && Cell(w, u) == Cell(w, v)
    ensures u == v
  {
    WalkInside(w, u); WalkInside(w, v);
    hide WalkX, WalkY, StepAt, Steps, Index;
    IndexInverse(w, WalkX(w, u), WalkY(w, u));
    IndexInverse(w, WalkX(w, v), WalkY(w, v));
  }

  lemma {:induction false} PathPlace(f: seq<Byte>, w: nat, u: nat, i: nat) returns (v: nat)
    requires SymbolWidth(w) && |f| == w * w && i < |Path(f, w, u)|
    ensures u <= v < Steps(w) && Path(f, w, u)[i] == Cell(w, v) && !Reserved(f[Cell(w, v)])
    decreases Steps(w) - u
  {
    hide Reserved, Cell;
    if Reserved(f[Cell(w, u)]) {
      v := PathPlace(f, w, u + 1, i);
    } else if i == 0 {
      v := u;
    } else {
      v := PathPlace(f, w, u + 1, i - 1);
    }
  }

  lemma {:induction false} PathReaches(f: seq<Byte>, w: nat, u: nat, v: nat)
    requires SymbolWidth(w) && |f| == w * w && u <= v < Steps(w) && !Reserved(f[Cell(w, v)])
    ensures Cell(w, v) in Path(f, w, u)
    decreases v - u
  {
    hide Reserved, Cell;
    if u < v { PathReaches(f, w, u + 1, v); }
  }

  lemma {:induction false} PathDistinct(f: seq<Byte>, w: nat, u: nat)
    requires SymbolWidth(w) && |f| == w * w
    ensures forall i, j :: 0 <= i < j < |Path(f, w, u)| ==> Path(f, w, u)[i] != Path(f, w, u)[j]
    decreases Steps(w) - u
  {
    hide Reserved, Cell;
    if u < Steps(w) {
      PathDistinct(f, w, u + 1);
      var rest := Path(f, w, u + 1);
      forall i | 0 <= i < |rest| ensures rest[i] != Cell(w, u) {
        var v := PathPlace(f, w, u + 1, i);
        if Cell(w, v) == Cell(w, u) { CellInjective(w, u, v); }
      }
    }
  }

  /** What the walk needs of a frame: column 6 is reserved, and so are the first nine rows of
      columns 4 and 5; the bottom right module, where it starts, is free. */
  ghost predicate Walkable(f: seq<Byte>, w: nat) {
    && SymbolWidth(w) && |f| == w * w
    && !Reserved(f[w * w - 1])
    && (forall x, y :: 0 <= x < w && 0 <= y < w && (x == 6 || (4 <= x <= 5 && y <= 8)) ==> Reserved(At(f, w, x, y)))
  }

  function At(f: seq<Byte>, w: nat, x: nat, y: nat): Byte
    requires |f| == w * w && x < w && y < w
  {
    f[Index(w, x, y)]
  }

  /** The walk visits exactly the free modules. */
  lemma PathComplete(f: seq<Byte>, w: nat, i: nat)
    requires Walkable(f, w) && i < w * w
    ensures i in Path(f, w, 0) <==> !Reserved(f[i])
  {
    hide Reserved, WalkX, WalkY, StepAt;
    var p := Path(f, w, 0);
    if i in p {
      var k: nat :| k < |p| && p[k] == i;
      var v := PathPlace(f, w, 0, k);
    }
    if !Reserved(f[i]) {
      IndexOfAny(w, i);
      var x, y := i % w, i / w;
      assert At(f, w, x, y) == f[i];
      StepInside(w, x, y);
      PathReaches(f, w, 0, StepAt(w, x, y));
    }
  }

  /** The path depends on the reservations only. */
  lemma {:induction false} PathSame(f: seq<Byte>, g: seq<Byte>, w: nat, u: nat)
    requires SymbolWidth(w) && |f| == |g| == w * w
    requires forall i :: 0 <= i < |f| ==> Reserved(f[i]) == Reserved(g[i])
    ensures Path(f, w, u) == Path(g, w, u)
    decreases Steps(w) - u
  {
    hide Reserved, Cell;
    if u < Steps(w) { PathSame(f, g, w, u + 1); }
  }

  lemma {:induction false} PathSkips(f: seq<Byte>, w: nat, u: nat, v: nat)
    requires SymbolWidth(w) && |f| == w * w && u <= v <= Steps(w)
    requires forall k: nat :: u <= k < v ==> Reserved(f[Cell(w, k)])
    ensures Path(f, w, u) == Path(f, w, v)
    decreases v - u
  {
    hide Reserved, Cell;
    if u < v { PathSkips(f, w, u + 1, v); }
  }

  // ---- The order of the walk ----

  /** The right one of the two columns that are walked together. */
  function RightOf(x: nat): nat { if x > 6 then x + x % 2 else x + 1 - x % 2 }

  /** The right columns of the pairs that are walked upwards. */
  predicate Upwards(right: nat) { right % 4 == 0 || right == 3 }

  /** The zig-zag order of modules: pairs from right to left, in a pair row by row in its direction,
      and in a row the right module first. */
  predicate Earlier(x: nat, y: nat, x2: nat, y2: nat) {
    if RightOf(x) != RightOf(x2) then RightOf(x) > RightOf(x2)
    else if y != y2 then (if Upwards(RightOf(x)) then y > y2 else y < y2)
    else x > x2
  }

  lemma PairColumns(w: nat, x: nat)
    requires SymbolWidth(w) && x < w && x != 6
    ensures 0 <= PairOf(w, x)
    ensures RightOf(x) == RightColumn(w, PairOf(w, x)) && (Upwards(RightOf(x)) <==> PairOf(w, x) % 2 == 0)
  {}

  lemma PairOrder(w: nat, c: nat, d: nat)
    ensures c < d <==> RightColumn(w, c) > RightColumn(w, d)
  {}

  lemma PlaceOrder(w: nat, x: nat, y: nat, x2: nat, y2: nat)
    requires SymbolWidth(w) && x < w && x2 < w && x != 6 && x2 != 6 && y < w && y2 < w && RightOf(x) == RightOf(x2)
    requires PairOf(w, x) == PairOf(w, x2) >= 0 && (Upwards(RightOf(x)) <==> PairOf(w, x) % 2 == 0)
    ensures PlaceOf(w, x, y) < PlaceOf(w, x2, y2) <==> Earlier(x, y, x2, y2)
  {}

  lemma StepOrder(c: nat, r: nat, d: nat, s: nat, n: nat)
    requires r < n && s < n
    ensures c * n + r < d * n + s <==> c < d || (c == d && r < s)
  {
    if c < d { MulLe(c + 1, d, n); MulSucc(c, n); }
    if d < c { MulLe(d + 1, c, n); MulSucc(d, n); }
  }

  /** The walk takes the modules in this order. */
  lemma WalkOrder(w: nat, x: nat, y: nat, x2: nat, y2: nat)
    requires SymbolWidth(w) && x < w && x2 < w && x != 6 && x2 != 6 && y < w && y2 < w
    ensures StepAt(w, x, y) < StepAt(w, x2, y2) <==> Earlier(x, y, x2, y2)
  {
    PlaceFacts(w, x, y); PlaceFacts(w, x2, y2);
    PairColumns(w, x); PairColumns(w, x2);
    PairOrder(w, PairOf(w, x), PairOf(w, x2)); PairOrder(w, PairOf(w, x2), PairOf(w, x));
    StepOrder(PairOf(w, x), PlaceOf(w, x, y), PairOf(w, x2), PlaceOf(w, x2, y2), 2 * w);
    if RightOf(x) == RightOf(x2) { PlaceOrder(w, x, y, x2, y2); }
    hide StepAt, PlaceOf, PairOf, RightOf, Upwards, RightColumn, Column, Row, Pairs;
  }

  lemma {:induction false} PathSteps(f: seq<Byte>, w: nat, u: nat, i: nat, j: nat) returns (v: nat, t: nat)
    requires SymbolWidth(w) && |f| == w * w && i < j < |Path(f, w, u)|
    ensures u <= v < t < Steps(w) && Path(f, w, u)[i] == Cell(w, v) && Path(f, w, u)[j] == Cell(w, t)
    decreases Steps(w) - u
  {
    hide Reserved, Cell;
    if Reserved(f[Cell(w, u)]) {
      v, t := PathSteps(f, w, u + 1, i, j);
    } else if i == 0 {
      v := u;
      t := PathPlace(f, w, u + 1, j - 1);
    } else {
      v, t := PathSteps(f, w, u + 1, i - 1, j - 1);
    }
  }

  /** So the free modules are listed in the zig-zag order. */
  lemma PathOrder(f: seq<Byte>, w: nat, i: nat, j: nat)
    requires SymbolWidth(w) && |f| == w * w && i < j < |Path(f, w, 0)|
    ensures var p, q := Path(f, w, 0)[i], Path(f, w, 0)[j];
            0 <= p / w && 0 <= p % w && 0 <= q / w && 0 <= q % w && Earlier(p % w, p / w, q % w, q / w)
  {
    hide WalkX, WalkY, StepAt, Earlier, Index, Path;
    var v, t := PathSteps(f, w, 0, i, j);
    WalkInside(w, v); WalkInside(w, t);
    IndexInverse(w, WalkX(w, v), WalkY(w, v)); IndexInverse(w, WalkX(w, t), WalkY(w, t));
    WalkOrder(w, WalkX(w, v), WalkY(w, v), WalkX(w, t), WalkY(w, t));
  }

  // ---- One step of the walk ----

  /** The first step of the pair left of column 6, and the step where the walk enters that pair. */
  function Gap(w: nat): int { (w - 7) / 2 * (2 * w) }

  function NextStep(w: nat, u: nat): nat {
    if u + 1 == Gap(w) then u + 19 else u + 1
  }

  /** The filler is at step u: its position, its direction, and the side of the column pair. */
  predicate Standing(w: nat, x: int, y: int, dir: int, bit: int, u: nat)
    requires 1 <= w
  {
    && u < Steps(w) && x == WalkX(w, u) && y == WalkY(w, u)
    && dir == Direction(Pair(w, u))
    && bit == InPair(w, u) % 2
  }

  /** The movement from one module to the next, without the test for reserved modules. */
  function Move(w: nat, x: int, y: int, dir: int, bit: int): (int, int, int, int) {
    var (x1, y1, bit1) := if bit == 0 then (x - 1, y, 1) else (x + 1, y + dir, 0);
    if dir < 0 && y1 < 0 then
      if x1 - 2 == 6 then (5, 9, 1, bit1) else (x1 - 2, 0, 1, bit1)
    else if dir >= 0 && y1 == w then
      if x1 - 2 == 6 then (5, w - 9, -1, bit1) else (x1 - 2, w - 1, -1, bit1)
    else (x1, y1, dir, bit1)
  }

  lemma PairShift(w: nat, u: nat, c: nat, r: nat)
    requires 1 <= w && r < 2 * w && u == c * (2 * w) + r
    ensures Pair(w, u) == c && InPair(w, u) == r
  {
    DivMod(u, 2 * w, c, r);
  }

  lemma StepsBound(w: nat, c: nat, r: nat)
    requires SymbolWidth(w) && r < 2 * w
    ensures c * (2 * w) + r < Steps(w) <==> c < Pairs(w)
  {
    if c < Pairs(w) {
      MulLe(c + 1, Pairs(w), 2 * w); MulSucc(c, 2 * w);
    } else {
      MulLe(Pairs(w), c, 2 * w);
    }
  }

  /** The coordinates of the step after u. */
  lemma NextStepAt(w: nat, u: nat)
    requires SymbolWidth(w) && u < Steps(w)
    ensures var c, r, v := Pair(w, u), InPair(w, u), NextStep(w, u);
            && (r + 1 < 2 * w ==> Pair(w, v) == c && InPair(w, v) == r + 1 && v < Steps(w))
            && (r + 1 == 2 * w ==> Pair(w, v) == c + 1 && InPair(w, v) == (if c + 1 == (w - 7) / 2 then 18 else 0))
            && (r + 1 == 2 * w ==> (v < Steps(w) <==> c + 1 < Pairs(w)))
  {
    PairBound(w, u);
    hide Pair, InPair, Pairs, Steps;
    var c, r := Pair(w, u), InPair(w, u);
    var n, g := 2 * w, (w - 7) / 2;
    MulSucc(c, n);
    if r + 1 < n {
      StepsBound(w, c, r); StepsBound(w, c, r + 1);
      PairShift(w, u + 1, c, r + 1);
      if u + 1 == Gap(w) { PairShift(w, u + 1, g, 0); }
    } else {
      PairShift(w, u + 1, c + 1, 0);
      PairShift(w, g * n, g, 0);
      var k := if c + 1 == g then 18 else 0;
      StepsBound(w, c + 1, k);
      PairShift(w, (c + 1) * n + k, c + 1, k);
    }
  }

  lemma MoveIn(w: nat, c: nat, r: nat)
    requires SymbolWidth(w) && c < Pairs(w) && r + 1 < 2 * w
    ensures Move(w, Column(w, c, r), Row(w, c, r), Direction(c), r % 2)
         == (Column(w, c, r + 1), Row(w, c, r + 1), Direction(c), (r + 1) % 2)
  {
    hide RightColumn;
    assert r % 2 == 0 ==> (r + 1) / 2 == r / 2 && (r + 1) % 2 == 1;
    assert r % 2 == 1 ==> (r + 1) / 2 == r / 2 + 1 && (r + 1) % 2 == 0;
  }

  /** Leaving pair c at its last place: column 6 is met from an upward pair only. */
  lemma MoveOut(w: nat, c: nat)
    requires SymbolWidth(w) && c < Pairs(w)
    ensures var k := if c + 1 == (w - 7) / 2 then 18 else 0;
            var (x, y, dir, bit) := Move(w, Column(w, c, 2 * w - 1), Row(w, c, 2 * w - 1), Direction(c), 1);
            if c + 1 == Pairs(w) then x < 0
            else (x, y, dir, bit) == (Column(w, c + 1, k), Row(w, c + 1, k), Direction(c + 1), 0)
  {
    assert (2 * w - 1) % 2 == 1 && (2 * w - 1) / 2 == w - 1;
    assert (w - 7) / 2 % 2 == 1 && Pairs(w) % 2 == 0;
  }

  /** Moving from step u leads to the next step of the formula, or off the symbol at the end. */
  lemma MoveFollowsWalk(w: nat, x: int, y: int, dir: int, bit: int, u: nat)
    requires SymbolWidth(w) && Standing(w, x, y, dir, bit, u)
    ensures var (x1, y1, dir1, bit1) := Move(w, x, y, dir, bit);
            if NextStep(w, u) < Steps(w) then
              0 <= x1 < w && 0 <= y1 < w && Standing(w, x1, y1, dir1, bit1, NextStep(w, u))
            else x1 < 0
  {
    PairBound(w, u);
    NextStepAt(w, u);
    hide Pair, InPair, Steps, NextStep, Move, Column, Row, Direction;
    var c, r := Pair(w, u), InPair(w, u);
    if r + 1 < 2 * w {
      MoveIn(w, c, r);
    } else {
      MoveOut(w, c);
    }
    if NextStep(w, u) < Steps(w) {
      WalkInside(w, NextStep(w, u));
    }
  }

  // ---- The filler ----

  class FrameFiller {
    const width: nat
    const frame: array<Byte>
    var x: int
    var y: int
    var dir: int
    var bit: int
    ghost var step: int  // the step of the walk the filler stands at, or -1 before the first

    ghost predicate Valid()
      reads this, frame
    {
      && frame.Length == width * width && Walkable(frame[..], width)
      && (step == -1 || step >= 0)
      && (step == -1 <==> bit == -1)
      && (step == -1 ==> x == y == width - 1 && dir == -1)
      && (step >= 0 ==> Standing(width, x, y, dir, bit, step))
    }

    /** The free modules that are still ahead. */
    ghost function Rest(): seq<nat>
      requires Valid()
      reads this, frame
    {
      Path(frame[..], width, step + 1)
    }

    constructor (width: nat, frame: array<Byte>)
      requires frame.Length == width * width && Walkable(frame[..], width)
      ensures Valid() && this.width == width && this.frame == frame
      ensures Rest() == Path(frame[..], width, 0)
    {
      this.width := width;
      this.frame := frame;
      x, y := width - 1, width - 1;
      dir, bit, step := -1, -1, -1;
    }

    /** The index of the next free module, or -1 when there is none. */
    method Next() returns (p: int)
      requires Valid()
      modifies this
      ensures p >= 0 ==> Valid() && old(Rest()) == [p] + Rest()
      ensures p >= 0 ==> p < frame.Length
      ensures p < 0 ==> old(Rest()) == []
      decreases Steps(width) - step
    {
      hide Path, Cell, Reserved, Index, Walkable, Standing, Move, NextStep, Steps;
      if bit == -1 {
        bit, step := 0, 0;
        FirstStep(frame[..], width);
        return Index(width, x, y);
      }
      ghost var u: nat, v: nat := step, NextStep(width, step);
      ghost var moved := Move(width, x, y, dir, bit);
      WidthOf(frame[..], width);
      StandingFacts(width, x, y, dir, bit, u);
      MoveFollowsWalk(width, x, y, dir, bit, u);
      SkipGap(frame[..], width, u);
      var x1, y1 := MoveOn();
      if x1 < 0 || y1 < 0 {
        PathEnds(frame[..], width, v);
        return -1;
      }
      x, y, step := x1, y1, v;
      PathUnfolds(frame[..], width, x, y, dir, bit, v);
      if Reserved(frame[Index(width, x, y)]) {
        p := Next();
        return;
      }
      return Index(width, x, y);
    }

    /** One movement; the direction and the side change even when it leads off the symbol. */
    method MoveOn() returns (x1: int, y1: int)
      requires bit == 0 || bit == 1
      modifies this`dir, this`bit
      ensures (x1, y1, dir, bit) == Move(width, x, y, old(dir), old(bit))
    {
      x1, y1 := x, y;
      if bit == 0 {
        x1 := x1 - 1;
        bit := bit + 1;
      } else {
        x1 := x1 + 1;
        y1 := y1 + dir;
        bit := bit - 1;
      }
      if dir < 0 {
        if y1 < 0 {
          y1 := 0;
          x1 := x1 - 2;
          dir := 1;
          if x1 == 6 {
            x1 := x1 - 1;
            y1 := 9;
          }
        }
      } else {
        if y1 == width {
          y1 := width - 1;
          x1 := x1 - 2;
          dir := -1;
          if x1 == 6 {
            x1 := x1 - 1;
            y1 := y1 - 8;
          }
        }
      }
    }
  }

  lemma WidthOf(f: seq<Byte>, w: nat)
    requires Walkable(f, w)
    ensures SymbolWidth(w) && |f| == w * w
  {}

  lemma StandingFacts(w: nat, x: int, y: int, dir: int, bit: int, u: nat)
    requires 1 <= w && Standing(w, x, y, dir, bit, u)
    ensures u < Steps(w) && (bit == 0 || bit == 1)
  {}

  lemma FirstStep(f: seq<Byte>, w: nat)
    requires Walkable(f, w)
    ensures Standing(w, w - 1, w - 1, -1, 0, 0)
    ensures Path(f, w, 0) == [Index(w, w - 1, w - 1)] + Path(f, w, 1)
  {
    PairShift(w, 0, 0, 0);
    StepsBound(w, 0, 0);
    assert Cell(w, 0) == w * w - 1 by { MulSucc(w - 1, w); }
  }

  lemma PathUnfolds(f: seq<Byte>, w: nat, x: int, y: int, dir: int, bit: int, u: nat)
    requires SymbolWidth(w) && |f| == w * w && Standing(w, x, y, dir, bit, u) && 0 <= x < w && 0 <= y < w
    ensures Path(f, w, u) == if Reserved(f[Index(w, x, y)]) then Path(f, w, u + 1) else [Index(w, x, y)] + Path(f, w, u + 1)
    ensures u < Steps(w) && (bit == 0 || bit == 1)
  {
    hide WalkX, WalkY, Index, Steps, Reserved;
    assert Cell(w, u) == Index(w, x, y);
  }

  lemma PathEnds(f: seq<Byte>, w: nat, u: nat)
    requires SymbolWidth(w) && |f| == w * w && u >= Steps(w)
    ensures Path(f, w, u) == []
  {}

  /** The modules that the walk jumps over left of column 6 are reserved. */
  lemma SkipGap(f: seq<Byte>, w: nat, u: nat)
    requires Walkable(f, w) && u < Steps(w)
    ensures Path(f, w, u + 1) == Path(f, w, NextStep(w, u))
    ensures u < NextStep(w, u)
  {
    if u + 1 == Gap(w) {
      hide Reserved, Path, Cell, WalkX, WalkY, Steps, Walkable;
      var g := (w - 7) / 2;
      WidthOf(f, w);
      forall k: nat | u + 1 <= k < u + 19
        ensures k < Steps(w) && Reserved(f[Cell(w, k)])
      {
        StepsBound(w, g, k - (u + 1));
        GapReserved(f, w, k);
      }
      assert u + 19 <= Steps(w) by { StepsBound(w, g, 18); }
      PathSkips(f, w, u + 1, u + 19);
    }
  }

  lemma GapPlace(w: nat, k: nat)
    requires SymbolWidth(w) && k < Steps(w) && Gap(w) <= k < Gap(w) + 18
    ensures 4 <= WalkX(w, k) <= 5 && 0 <= WalkY(w, k) <= 8
  {
    hide Pair, InPair, Steps;
    PairShift(w, k, (w - 7) / 2, k - Gap(w));
    GapColumn(w, (w - 7) / 2, k - Gap(w));
    hide Column, Row;
  }

  lemma GapColumn(w: nat, g: nat, r: nat)
    requires SymbolWidth(w) && 2 * g == w - 7 && r < 18
    ensures 4 <= Column(w, g, r) <= 5 && 0 <= Row(w, g, r) <= 8
  {}

  lemma GapReserved(f: seq<Byte>, w: nat, k: nat)
    requires Walkable(f, w) && k < Steps(w) && Gap(w) <= k < Gap(w) + 18
    ensures Reserved(f[Cell(w, k)])
  {
    hide Reserved, Index, WalkX, WalkY, Steps;
    GapPlace(w, k);
    WalkInside(w, k);
    assert Reserved(At(f, w, WalkX(w, k), WalkY(w, k)));
  }
}
