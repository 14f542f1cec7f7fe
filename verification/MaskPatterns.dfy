/** Mask patterns and format information. */
module MaskPatterns {
  import opened Arith
  import opened GF256
  import opened QRSpec
  import opened FrameFillers
  import opened Frames

  // ---- Modules as bytes ----

  function Toggle(b: Byte): Byte { b ^ 1 }

  lemma ToggleFacts(b: Byte)
    ensures Reserved(Toggle(b)) == Reserved(b) && Dark(Toggle(b)) == !Dark(b) && Toggle(Toggle(b)) == b
  {}

  function DarkBit(b: Byte): nat { if Dark(b) then 1 else 0 }

  /** The number of dark modules. */
  function DarkCount(f: seq<Byte>): nat {
    if f == [] then 0 else DarkCount(f[..|f| - 1]) + DarkBit(f[|f| - 1])
  }

  lemma {:induction false} DarkUpdate(f: seq<Byte>, i: nat, b: Byte)
    requires i < |f|
    ensures DarkCount(f[i := b]) + DarkBit(f[i]) == DarkCount(f) + DarkBit(b)
  {
    hide DarkBit;
    var n := |f| - 1;
    if i == n {
      assert f[i := b][..n] == f[..n];
    } else {
      assert f[i := b][..n] == f[..n][i := b];
      DarkUpdate(f[..n], i, b);
    }
  }

  lemma {:induction false} DarkAtMost(f: seq<Byte>)
    ensures DarkCount(f) <= |f|
  {
    if f != [] { DarkAtMost(f[..|f| - 1]); }
  }

  // ---- Mask patterns ----

  const MASKS := 8

  /** The value that each mask pattern compares with zero. */
  function Condition(mask: nat, x: nat, y: nat): nat
    requires mask < MASKS
  {
    match mask
    case 0 => (x + y) % 2
    case 1 => y % 2
    case 2 => x % 3
    case 3 => (x + y) % 3
    case 4 => (y / 2 + x / 3) % 2
    case 5 => (x * y) % 2 + (x * y) % 3
    case 6 => ((x * y) % 2 + (x * y) % 3) % 2
    case _ => ((x * y) % 3 + (x + y) % 2) % 2
  }

  /** Reserved modules stay; the others are inverted where the condition is zero. */
  function MaskedModule(b: Byte, mask: nat, x: nat, y: nat): Byte
    requires mask < MASKS
  {
    if !Reserved(b) && Condition(mask, x, y) == 0 then Toggle(b) else b
  }

  function MaskedCell(f: seq<Byte>, w: nat, mask: nat, i: nat): Byte
    requires |f| == w * w && i < w * w && mask < MASKS
  {
    IndexOfAny(w, i);
    MaskedModule(f[i], mask, i % w, i / w)
  }

  function Masked(f: seq<Byte>, w: nat, mask: nat): (g: seq<Byte>)
    requires |f| == w * w && mask < MASKS
    ensures |g| == w * w
  {
    seq(w * w, i requires 0 <= i < w * w => MaskedCell(f, w, mask, i))
  }

  /** Masking keeps the reservations, and masking twice restores the frame. */
  lemma MaskedTwice(f: seq<Byte>, w: nat, mask: nat)
    requires |f| == w * w && mask < MASKS
    ensures forall i :: 0 <= i < w * w ==> Reserved(Masked(f, w, mask)[i]) == Reserved(f[i])
    ensures forall i :: 0 <= i < w * w && Reserved(f[i]) ==> Masked(f, w, mask)[i] == f[i]
    ensures Masked(Masked(f, w, mask), w, mask) == f
  {
    hide Reserved, Toggle, Condition;
    forall i | 0 <= i < w * w
      ensures Reserved(Masked(f, w, mask)[i]) == Reserved(f[i])
      ensures Masked(Masked(f, w, mask), w, mask)[i] == f[i]
    {
      ToggleFacts(f[i]);
    }
  }

  /** Mask pattern 0 to 7 from s into d; returns the number of dark modules. */
  method MaskMaker(width: nat, s: array<Byte>, d: array<Byte>, mask: nat) returns (b: nat)
    requires s.Length == d.Length == width * width && s != d && mask < MASKS
    modifies d
    ensures d[..] == Masked(s[..], width, mask)
    ensures b == DarkCount(d[..])
  {
    hide Reserved, Toggle, Condition, DarkBit;
    b := 0;
    ghost var g := Masked(s[..], width, mask);
    var k := 0;
    for y := 0 to width
      invariant k == y * width <= width * width
      invariant d[..k] == g[..k] && b == DarkCount(g[..k])
    {
      for x := 0 to width
        invariant k == y * width + x <= width * width
        invariant d[..k] == g[..k] && b == DarkCount(g[..k])
      {
        IndexInverse(width, x, y);
        assert k == Index(width, x, y);
        d[k] := MaskedModule(s[k], mask, x, y);
        b := b + DarkBit(d[k]);
        assert g[..k + 1] == g[..k] + [g[k]];
        k := k + 1;
      }
      MulSucc(y, width);
    }
    assert g[..width * width] == g && d[..width * width] == d[..];
  }

  // ---- What the patterns look like ----

  /** The tile that each mask pattern repeats, row by row; the modules under '#' are inverted. */
  function Tile(mask: nat): (rows: seq<string>)
    requires mask < MASKS
  {
    match mask
    case 0 => ["#.", ".#"]
    case 1 => ["#", "."]
    case 2 => ["#.."]
    case 3 => ["#..", "..#", ".#."]
    case 4 => ["###...", "###...", "...###", "...###"]
    case 5 => ["######", "#.....", "#..#..", "#.#.#.", "#..#..", "#....."]
    case 6 => ["######", "###...", "##.##.", "#.#.#.", "#.##.#", "#...##"]
    case _ => ["#.#.#.", "...###", "#...##", ".#.#.#", "###...", ".###.."]
  }

  function TileWidth(mask: nat): (n: nat)
    ensures 1 <= n
  {
    match mask case 0 => 2 case 1 => 1 case 2 => 3 case 3 => 3 case _ => 6
  }

  function TileHeight(mask: nat): (n: nat)
    ensures 1 <= n
  {
    match mask case 0 => 2 case 1 => 2 case 2 => 1 case 3 => 3 case 4 => 4 case _ => 6
  }

  lemma TileSize(mask: nat)
    requires mask < MASKS
    ensures |Tile(mask)| == TileHeight(mask) && forall y :: 0 <= y < TileHeight(mask) ==> |Tile(mask)[y]| == TileWidth(mask)
  {}

  /** Whether the tiled picture marks the module at column x, row y. */
  predicate Marked(mask: nat, x: nat, y: nat)
    requires mask < MASKS
  {
    TileSize(mask);
    Tile(mask)[y % TileHeight(mask)][x % TileWidth(mask)] == '#'
  }

  lemma SmallTiles(x: nat, y: nat)
    ensures forall mask :: 0 <= mask < 4 ==> (Marked(mask, x, y) <==> Condition(mask, x, y) == 0)
  {
    assert Marked(0, x, y) <==> Condition(0, x, y) == 0;
    assert Marked(1, x, y) <==> Condition(1, x, y) == 0;
    assert Marked(2, x, y) <==> Condition(2, x, y) == 0;
    assert Marked(3, x, y) <==> Condition(3, x, y) == 0;
  }

  lemma Tile4(x: nat, y: nat)
    ensures Marked(4, x, y) <==> Condition(4, x, y) == 0
  {
    Quarters(x, y);
    var a, b := y % 4, x % 6;
    TileFour(a, b);
    hide Tile;
  }

  lemma Quarters(x: nat, y: nat)
    ensures (y / 2) % 2 == (y % 4) / 2 && (x / 3) % 2 == (x % 6) / 3
    ensures (y / 2 + x / 3) % 2 == ((y % 4) / 2 + (x % 6) / 3) % 2
  {
    HalfParity(y, 2); HalfParity(x, 3);
    SumParity(y / 2, x / 3);
  }

  lemma HalfParity(x: nat, n: nat)
    requires n == 2 || n == 3
    ensures (x / n) % 2 == (x % (2 * n)) / n
  {
    var q, r := x / (2 * n), x % (2 * n);
    var h := r / n;
    DivMod(x, n, 2 * q + h, r % n);
  }

  lemma SumParity(a: nat, b: nat)
    ensures (a + b) % 2 == (a % 2 + b % 2) % 2
  {}

  lemma TileFour(a: nat, b: nat)
    requires a < 4 && b < 6
    ensures |Tile(4)| == 4 && |Tile(4)[a]| == 6
    ensures Tile(4)[a][b] == '#' <==> (a / 2 + b / 3) % 2 == 0
  {}

  lemma Expand(a: nat, p: nat, b: nat, q: nat)
    ensures (6 * a + p) * (6 * b + q) == 6 * (a * (6 * b + q) + p * b) + p * q
  {}

  lemma SixTimes(t: nat, r: nat)
    ensures (6 * t + r) % 2 == r % 2 && (6 * t + r) % 3 == r % 3
  {
    DivMod(6 * t + r, 2, 3 * t + r / 2, r % 2);
    DivMod(6 * t + r, 3, 2 * t + r / 3, r % 3);
  }

  lemma ProductResidue(x: nat, y: nat, m: nat)
    requires m == 2 || m == 3
    ensures (x * y) % m == ((x % 6) * (y % 6)) % m
  {
    var a, b, p, q := x / 6, y / 6, x % 6, y % 6;
    Expand(a, p, b, q);
    SixTimes(a * (6 * b + q) + p * b, p * q);
  }

  lemma Tile5(x: nat, y: nat)
    requires x < 6 && y < 6
    ensures Marked(5, x, y) <==> Condition(5, x, y) == 0
  {
    match y
    case 0 =>
    case 1 =>
    case 2 =>
    case 3 =>
    case 4 =>
    case _ =>
  }

  lemma Upper6(x: nat, y: nat)
    requires x < 6 && 0 <= y < 3
    ensures Marked(6, x, y) <==> Condition(6, x, y) == 0
  {
    hide Condition;
    Products(x, y); Formulas(x, y);
    match y
    case 0 =>
    case 1 =>
    case _ =>
  }

  lemma Lower6(x: nat, y: nat)
    requires x < 6 && 3 <= y < 6
    ensures Marked(6, x, y) <==> Condition(6, x, y) == 0
  {
    hide Condition;
    Products(x, y); Formulas(x, y);
    match y
    case 3 =>
    case 4 =>
    case _ =>
  }

  lemma Tile6(x: nat, y: nat)
    requires x < 6 && y < 6
    ensures Marked(6, x, y) <==> Condition(6, x, y) == 0
  {
    hide Marked, Condition;
    if y < 3 { Upper6(x, y); } else { Lower6(x, y); }
  }

  lemma Upper7(x: nat, y: nat)
    requires x < 6 && 0 <= y < 3
    ensures Marked(7, x, y) <==> Condition(7, x, y) == 0
  {
    hide Condition;
    Products(x, y); Formulas(x, y);
    match y
    case 0 =>
    case 1 =>
    case _ =>
  }

  lemma Lower7(x: nat, y: nat)
    requires x < 6 && 3 <= y < 6
    ensures Marked(7, x, y) <==> Condition(7, x, y) == 0
  {
    hide Condition;
    Products(x, y); Formulas(x, y);
    match y
    case 3 =>
    case 4 =>
    case _ =>
  }

  lemma Tile7(x: nat, y: nat)
    requires x < 6 && y < 6
    ensures Marked(7, x, y) <==> Condition(7, x, y) == 0
  {
    hide Marked, Condition;
    if y < 3 { Upper7(x, y); } else { Lower7(x, y); }
  }

  lemma Formulas(x: nat, y: nat)
    ensures Condition(6, x, y) == ((x * y) % 2 + (x * y) % 3) % 2
    ensures Condition(7, x, y) == ((x * y) % 3 + (x + y) % 2) % 2
  {}

  /** The residues of products of numbers below six. */
  lemma Products(x: nat, y: nat)
    requires x < 6 && y < 6
    ensures (x * y) % 2 == if x % 2 == 1 && y % 2 == 1 then 1 else 0
    ensures (x * y) % 3 == if x % 3 == 0 || y % 3 == 0 then 0 else if x % 3 == y % 3 then 1 else 2
  {
    match y
    case 0 =>
    case 1 =>
    case 2 =>
    case 3 =>
    case 4 =>
    case _ =>
  }

  lemma Residues(mask: nat, x: nat, y: nat)
    requires 5 <= mask < MASKS
    ensures Condition(mask, x, y) == Condition(mask, x % 6, y % 6) && Marked(mask, x, y) == Marked(mask, x % 6, y % 6)
  {
    hide Tile;
    ProductResidue(x, y, 2); ProductResidue(x, y, 3);
    SumResidue(x, y);
    hide Marked;
    SameTile(mask, x, y);
  }

  lemma SumResidue(x: nat, y: nat)
    ensures (x + y) % 2 == (x % 6 + y % 6) % 2
  {
    SixTimes(x / 6 + y / 6, x % 6 + y % 6);
  }

  lemma SameTile(mask: nat, x: nat, y: nat)
    requires 5 <= mask < MASKS
    ensures Marked(mask, x, y) == Marked(mask, x % 6, y % 6)
  {
    hide Tile;
    SixResidue(x); SixResidue(y);
  }

  lemma SixResidue(x: nat)
    ensures (x % 6) % 6 == x % 6
  {}

  /** The formulas of the patterns draw the tiles. */
  lemma MarkedIs(mask: nat, x: nat, y: nat)
    requires mask < MASKS
    ensures Marked(mask, x, y) <==> Condition(mask, x, y) == 0
  {
    hide Condition, Marked;
    SmallTiles(x, y);
    Tile4(x, y);
    if mask >= 5 {
      Residues(mask, x, y);
      Tile5(x % 6, y % 6); Tile6(x % 6, y % 6); Tile7(x % 6, y % 6);
    }
  }

  /** A pattern inverts exactly the free modules that its tile marks. */
  lemma MaskedPicture(f: seq<Byte>, w: nat, mask: nat, x: nat, y: nat)
    requires |f| == w * w && mask < MASKS && x < w && y < w
    ensures Dark(At(Masked(f, w, mask), w, x, y)) != Dark(At(f, w, x, y))
       <==> !Reserved(At(f, w, x, y)) && Marked(mask, x, y)
  {
    hide Reserved, Dark, Condition, Marked, Toggle;
    IndexInverse(w, x, y);
    MarkedIs(mask, x, y);
    ToggleFacts(At(f, w, x, y));
  }

  // ---- Format information ----

  /** A number without its k lowest bits. */
  function Shifted(word: nat, k: nat): nat {
    if k == 0 then word else Shifted(word, k - 1) / 2
  }

  function FormatByte(word: nat, k: nat): Byte { if Shifted(word, k) % 2 == 1 then 0x85 else 0x84 }

  /** The module of the first copy that carries bit k: along the right and the bottom border. */
  function FirstX(w: nat, k: nat): int { if k < 8 then w - 1 - k else 8 }

  function FirstY(w: nat, k: nat): int { if k < 8 then 8 else w - 15 + k }

  /** The module of the second copy that carries bit k: around the top left finder pattern. */
  function SecondX(k: nat): int { if k < 8 then 8 else if k == 8 then 7 else 14 - k }

  function SecondY(k: nat): int { if k < 6 then k else if k < 8 then k + 1 else 8 }

  /** The bit that a module carries, or -1. */
  function FormatIndex(w: nat, x: int, y: int): int {
    if y == 8 && w - 8 <= x < w then w - 1 - x
    else if x == 8 && w - 7 <= y < w then y + 15 - w
    else if x == 8 && 0 <= y <= 5 then y
    else if x == 8 && 7 <= y <= 8 then y - 1
    else if y == 8 && x == 7 then 8
    else if y == 8 && 0 <= x <= 5 then 14 - x
    else -1
  }

  lemma FormatIndexMeaning(w: nat, x: int, y: int)
    requires SymbolWidth(w)
    ensures FormatCell(w, x, y) <==> 0 <= FormatIndex(w, x, y)
    ensures FormatIndex(w, x, y) < 15
    ensures forall k: nat :: k < 15 ==>
              (FormatIndex(w, x, y) == k <==> (x == FirstX(w, k) && y == FirstY(w, k)) || (x == SecondX(k) && y == SecondY(k)))
  {}

  lemma CopiesInside(w: nat, k: nat)
    requires SymbolWidth(w) && k < 15
    ensures 0 <= FirstX(w, k) < w && 0 <= FirstY(w, k) < w && 0 <= SecondX(k) < w && 0 <= SecondY(k) < w
    ensures FirstX(w, k) != SecondX(k) || FirstY(w, k) != SecondY(k)
  {}

  /** The indices of the two modules that carry bit k. */
  function First(w: nat, k: nat): (i: nat)
    requires SymbolWidth(w) && k < 15
    ensures i < w * w
  {
    CopiesInside(w, k);
    Index(w, FirstX(w, k), FirstY(w, k))
  }

  function Second(w: nat, k: nat): (i: nat)
    requires SymbolWidth(w) && k < 15
    ensures i < w * w
  {
    CopiesInside(w, k);
    Index(w, SecondX(k), SecondY(k))
  }

  /** The frame after the lowest k bits of a format word are written twice each. */
  function Written(f: seq<Byte>, w: nat, word: nat, k: nat): (g: seq<Byte>)
    requires SymbolWidth(w) && |f| == w * w && k <= 15
    ensures |g| == w * w
  {
    if k == 0 then f
    else
      var v := FormatByte(word, k - 1);
      Written(f, w, word, k - 1)[First(w, k - 1) := v][Second(w, k - 1) := v]
  }

  /** The frame with a format word in both copies. */
  function WithFormat(f: seq<Byte>, w: nat, word: nat): (g: seq<Byte>)
    requires SymbolWidth(w) && |f| == w * w
    ensures |g| == w * w
  {
    Written(f, w, word, 15)
  }

  lemma {:induction false} WrittenAt(f: seq<Byte>, w: nat, word: nat, k: nat, x: nat, y: nat)
    requires SymbolWidth(w) && |f| == w * w && k <= 15 && x < w && y < w
    ensures At(Written(f, w, word, k), w, x, y)
         == if 0 <= FormatIndex(w, x, y) < k then FormatByte(word, FormatIndex(w, x, y)) else At(f, w, x, y)
  {
    hide FormatByte;
    if k > 0 {
      WrittenAt(f, w, word, k - 1, x, y);
      FormatIndexMeaning(w, x, y);
      CopiesInside(w, k - 1);
      hide FormatIndex, FirstX, FirstY, SecondX, SecondY, Index;
      IndexInverse(w, x, y);
      IndexInverse(w, FirstX(w, k - 1), FirstY(w, k - 1));
      IndexInverse(w, SecondX(k - 1), SecondY(k - 1));
    }
  }

  /** Only format modules change, and they are all reserved afterwards. */
  lemma WithFormatAt(f: seq<Byte>, w: nat, word: nat, x: nat, y: nat)
    requires SymbolWidth(w) && |f| == w * w && x < w && y < w
    ensures !FormatCell(w, x, y) ==> At(WithFormat(f, w, word), w, x, y) == At(f, w, x, y)
    ensures FormatCell(w, x, y) ==> Reserved(At(WithFormat(f, w, word), w, x, y))
  {
    WrittenAt(f, w, word, 15, x, y);
    FormatIndexMeaning(w, x, y);
    assert Reserved(0x84) && Reserved(0x85);
    hide Reserved;
  }

  // ---- Reading the format information ----

  /** What a reader sees of a frame. */
  function Colours(f: seq<Byte>): (l: seq<bool>)
    ensures |l| == |f|
  {
    seq(|f|, i requires 0 <= i < |f| => Dark(f[i]))
  }

  /** Bits k to 14 of the word in the first or in the second copy. */
  function ReadWord(l: seq<bool>, w: nat, second: bool, k: nat): nat
    requires SymbolWidth(w) && |l| == w * w && k <= 15
    decreases 15 - k
  {
    if k == 15 then 0
    else (if l[if second then Second(w, k) else First(w, k)] then 1 else 0) + 2 * ReadWord(l, w, second, k + 1)
  }

  lemma FormatDark(word: nat, k: nat)
    ensures DarkBit(FormatByte(word, k)) == Shifted(word, k) % 2
    ensures Dark(FormatByte(word, k)) <==> Shifted(word, k) % 2 == 1
  {}

  lemma {:induction false} ReadWordFrom(f: seq<Byte>, w: nat, word: nat, second: bool, k: nat)
    requires SymbolWidth(w) && |f| == w * w && k <= 15 && Shifted(word, 15) == 0
    ensures ReadWord(Colours(WithFormat(f, w, word)), w, second, k) == Shifted(word, k)
    decreases 15 - k
  {
    hide DarkBit, FormatByte, FormatIndex, FirstX, FirstY, SecondX, SecondY;
    if k < 15 {
      ReadWordFrom(f, w, word, second, k + 1);
      FormatDark(word, k);
      CopiesInside(w, k);
      var x, y := if second then SecondX(k) else FirstX(w, k), if second then SecondY(k) else FirstY(w, k);
      WrittenAt(f, w, word, 15, x, y);
      FormatIndexMeaning(w, x, y);
    }
  }

  lemma {:induction false} ShiftedBelow(word: nat, bits: nat, k: nat)
    requires word < Pow2(bits) && k <= bits
    ensures Shifted(word, k) < Pow2(bits - k)
  {
    if k > 0 { ShiftedBelow(word, bits, k - 1); }
  }

  /** Either copy of the format information tells the mask pattern and the level. */
  lemma FormatRead(f: seq<Byte>, w: nat, mask: nat, level: Level, second: bool)
    requires SymbolWidth(w) && |f| == w * w && mask < MASKS
    ensures ReadFormat(ReadWord(Colours(WithFormat(f, w, FormatInfo(mask, level))), w, second, 0)) == Format(mask, level)
  {
    FormatRoundTrip(mask, level);
    hide FormatInfo, ReadFormat;
    assert Pow2(15) == 0x8000;
    ShiftedBelow(FormatInfo(mask, level), 15, 15);
    ReadWordFrom(f, w, FormatInfo(mask, level), second, 0);
  }

  // ---- Where the bits of a format word are ----

  /** The places of the 15 bits around the top left finder pattern, the lowest bit first. */
  function PlacesAround(): (p: seq<(int, int)>)
    ensures |p| == 15
  {
    [ (8, 0), (8, 1), (8, 2), (8, 3), (8, 4), (8, 5), (8, 7), (8, 8),
      (7, 8), (5, 8), (4, 8), (3, 8), (2, 8), (1, 8), (0, 8) ]
  }

  /** Their places along the two other finder patterns: from the right border to the left, then
      downwards to the bottom border. */
  function PlacesApart(w: int): (p: seq<(int, int)>)
    ensures |p| == 15
  {
    [ (w - 1, 8), (w - 2, 8), (w - 3, 8), (w - 4, 8), (w - 5, 8), (w - 6, 8), (w - 7, 8), (w - 8, 8),
      (8, w - 7), (8, w - 6), (8, w - 5), (8, w - 4), (8, w - 3), (8, w - 2), (8, w - 1) ]
  }

  lemma PlacesAre(w: nat, k: nat)
    requires SymbolWidth(w) && k < 15
    ensures PlacesAround()[k] == (SecondX(k), SecondY(k)) && PlacesApart(w)[k] == (FirstX(w, k), FirstY(w, k))
  {}

  lemma {:induction false} ShiftedIs(word: nat, k: nat)
    ensures Shifted(word, k) == word / Pow2(k)
  {
    if k > 0 {
      ShiftedIs(word, k - 1);
      HalfQuotient(word, Pow2(k - 1));
    }
  }

  lemma HalfQuotient(v: nat, p: nat)
    requires 1 <= p
    ensures (v / p) / 2 == v / (2 * p)
  {
    QuotRem(v, p);
    var q, r := v / p, v % p;
    var h, b := q / 2, q % 2;
    assert q == 2 * h + b;
    Regroup(h, b, p, r);
    DivMod(v, 2 * p, h, b * p + r);
  }

  lemma Regroup(h: nat, b: nat, p: nat, r: nat)
    requires b < 2 && r < p
    ensures (2 * h + b) * p + r == h * (2 * p) + (b * p + r) && b * p + r < 2 * p
  {}

  /** A module of the format information is dark exactly if its bit of the word is set. */
  lemma FormatModules(f: seq<Byte>, w: nat, word: nat, k: nat)
    requires SymbolWidth(w) && |f| == w * w && k < 15
    ensures var (x, y) := PlacesAround()[k];
            0 <= x < w && 0 <= y < w && (Dark(At(WithFormat(f, w, word), w, x, y)) <==> word / Pow2(k) % 2 == 1)
    ensures var (x, y) := PlacesApart(w)[k];
            0 <= x < w && 0 <= y < w && (Dark(At(WithFormat(f, w, word), w, x, y)) <==> word / Pow2(k) % 2 == 1)
  {
    hide Dark, FormatByte, FormatIndex, FirstX, FirstY, SecondX, SecondY, At, PlacesAround, PlacesApart;
    PlacesAre(w, k);
    CopiesInside(w, k);
    WrittenAt(f, w, word, 15, FirstX(w, k), FirstY(w, k)); WrittenAt(f, w, word, 15, SecondX(k), SecondY(k));
    FormatIndexMeaning(w, FirstX(w, k), FirstY(w, k)); FormatIndexMeaning(w, SecondX(k), SecondY(k));
    FormatDark(word, k);
    ShiftedIs(word, k);
  }

  // ---- The incremental count of dark modules ----

  /** The bits that are set among the lowest k. */
  function Ones(word: nat, k: nat): nat {
    if k == 0 then 0 else Ones(word, k - 1) + Shifted(word, k - 1) % 2
  }

  /** The dark modules among those that carry the lowest k bits. */
  function FormatDarks(f: seq<Byte>, w: nat, k: nat): nat
    requires SymbolWidth(w) && |f| == w * w && k <= 15
  {
    if k == 0 then 0
    else FormatDarks(f, w, k - 1) + DarkBit(f[First(w, k - 1)]) + DarkBit(f[Second(w, k - 1)])
  }

  lemma {:induction false} WrittenDark(f: seq<Byte>, w: nat, word: nat, k: nat)
    requires SymbolWidth(w) && |f| == w * w && k <= 15
    ensures DarkCount(Written(f, w, word, k)) + FormatDarks(f, w, k) == DarkCount(f) + 2 * Ones(word, k)
  {
    hide DarkBit, FormatByte, FormatIndex, FirstX, FirstY, SecondX, SecondY;
    if k > 0 {
      WrittenDark(f, w, word, k - 1);
      var g, v, i, j := Written(f, w, word, k - 1), FormatByte(word, k - 1), First(w, k - 1), Second(w, k - 1);
      CopiesApart(w, k - 1);
      Untouched(f, w, word, k - 1);
      DarkUpdate(g, i, v);
      DarkUpdate(g[i := v], j, v);
      FormatDark(word, k - 1);
    }
  }

  lemma CopiesApart(w: nat, k: nat)
    requires SymbolWidth(w) && k < 15
    ensures First(w, k) != Second(w, k)
  {
    CopiesInside(w, k);
    hide FirstX, FirstY, SecondX, SecondY, Index;
    IndexInverse(w, FirstX(w, k), FirstY(w, k));
    IndexInverse(w, SecondX(k), SecondY(k));
  }

  /** The modules of bit k are as before while only lower bits are written. */
  lemma Untouched(f: seq<Byte>, w: nat, word: nat, k: nat)
    requires SymbolWidth(w) && |f| == w * w && k < 15
    ensures Written(f, w, word, k)[First(w, k)] == f[First(w, k)]
    ensures Written(f, w, word, k)[Second(w, k)] == f[Second(w, k)]
  {
    CopiesInside(w, k);
    FormatIndexMeaning(w, FirstX(w, k), FirstY(w, k));
    FormatIndexMeaning(w, SecondX(k), SecondY(k));
    hide FormatIndex, FirstX, FirstY, SecondX, SecondY;
    WrittenAt(f, w, word, k, FirstX(w, k), FirstY(w, k));
    WrittenAt(f, w, word, k, SecondX(k), SecondY(k));
  }

  /** Frames whose format modules are still light. */
  ghost predicate FormatLight(f: seq<Byte>, w: nat)
    requires |f| == w * w
  {
    forall x, y :: 0 <= x < w && 0 <= y < w && FormatCell(w, x, y) ==> !Dark(At(f, w, x, y))
  }

  lemma {:induction false} FormatDarksNone(f: seq<Byte>, w: nat, k: nat)
    requires SymbolWidth(w) && |f| == w * w && k <= 15
    ensures FormatLight(f, w) ==> FormatDarks(f, w, k) == 0
    ensures FormatDarks(f, w, k) == 0 ==>
              forall x, y :: 0 <= x < w && 0 <= y < w && 0 <= FormatIndex(w, x, y) < k ==> !Dark(At(f, w, x, y))
  {
    hide FormatIndex, FirstX, FirstY, SecondX, SecondY, FormatCell, Dark;
    if k > 0 {
      FormatDarksNone(f, w, k - 1);
      CopiesInside(w, k - 1);
      FormatIndexMeaning(w, FirstX(w, k - 1), FirstY(w, k - 1));
      FormatIndexMeaning(w, SecondX(k - 1), SecondY(k - 1));
      assert f[First(w, k - 1)] == At(f, w, FirstX(w, k - 1), FirstY(w, k - 1));
      assert f[Second(w, k - 1)] == At(f, w, SecondX(k - 1), SecondY(k - 1));
      forall x, y | FormatDarks(f, w, k) == 0 && 0 <= x < w && 0 <= y < w && 0 <= FormatIndex(w, x, y) < k
        ensures !Dark(At(f, w, x, y))
      {
        FormatIndexMeaning(w, x, y);
      }
    }
  }

  /** Two for every set bit is right exactly when the format modules start light. */
  lemma IncrementalCount(f: seq<Byte>, w: nat, word: nat)
    requires SymbolWidth(w) && |f| == w * w
    ensures DarkCount(WithFormat(f, w, word)) == DarkCount(f) + 2 * Ones(word, 15) <==> FormatLight(f, w)
  {
    hide FormatIndex, FormatCell, Dark, At;
    WrittenDark(f, w, word, 15);
    FormatDarksNone(f, w, 15);
    forall x, y | 0 <= x < w && 0 <= y < w
      ensures FormatCell(w, x, y) <==> 0 <= FormatIndex(w, x, y) < 15
    {
      FormatIndexMeaning(w, x, y);
    }
  }

  /** Write both copies; returns two for every bit that is set. */
  method WriteFormatInformation(width: nat, frame: array<Byte>, mask: nat, level: Level) returns (blacks: nat)
    requires SymbolWidth(width) && frame.Length == width * width && mask < MASKS
    modifies frame
    ensures frame[..] == WithFormat(old(frame[..]), width, FormatInfo(mask, level))
    ensures blacks == 2 * Ones(FormatInfo(mask, level), 15)
  {
    hide FormatInfo, Written, Ones, Shifted, FormatByte, First, Second;
    NothingWritten(frame[..], width, FormatInfo(mask, level));
    ghost var f, word := frame[..], FormatInfo(mask, level);
    var format := FormatInfo(mask, level);
    blacks := 0;
    for i := 0 to 8
      invariant format == Shifted(word, i) && blacks == 2 * Ones(word, i)
      invariant frame[..] == Written(f, width, word, i)
    {
      var v: Byte;
      if format % 2 == 1 {
        blacks := blacks + 2;
        v := 0x85;
      } else {
        v := 0x84;
      }
      FirstAt(width, i); SecondAt(width, i); OneBitWritten(f, width, word, i);
      frame[width * 8 + width - 1 - i] := v;
      if i < 6 {
        frame[width * i + 8] := v;
      } else {
        frame[width * (i + 1) + 8] := v;
      }
      format := format / 2;
    }
    for i := 0 to 7
      invariant format == Shifted(word, 8 + i) && blacks == 2 * Ones(word, 8 + i)
      invariant frame[..] == Written(f, width, word, 8 + i)
    {
      var v: Byte;
      if format % 2 == 1 {
        blacks := blacks + 2;
        v := 0x85;
      } else {
        v := 0x84;
      }
      FirstAt(width, 8 + i); SecondAt(width, 8 + i); OneBitWritten(f, width, word, 8 + i);
      frame[width * (width - 7 + i) + 8] := v;
      if i == 0 {
        frame[width * 8 + 7] := v;
      } else {
        frame[width * 8 + 6 - i] := v;
      }
      format := format / 2;
    }
  }

  lemma NothingWritten(f: seq<Byte>, w: nat, word: nat)
    requires SymbolWidth(w) && |f| == w * w
    ensures Written(f, w, word, 0) == f && Ones(word, 0) == 0 && Shifted(word, 0) == word
  {}

  lemma OneBitWritten(f: seq<Byte>, w: nat, word: nat, k: nat)
    requires SymbolWidth(w) && |f| == w * w && k < 15
    ensures Shifted(word, k + 1) == Shifted(word, k) / 2
    ensures Ones(word, k + 1) == Ones(word, k) + Shifted(word, k) % 2
    ensures FormatByte(word, k) == if Shifted(word, k) % 2 == 1 then 0x85 else 0x84
    ensures Written(f, w, word, k + 1)
         == Written(f, w, word, k)[First(w, k) := FormatByte(word, k)][Second(w, k) := FormatByte(word, k)]
  {}

  lemma FirstAt(w: nat, k: nat)
    requires SymbolWidth(w) && k < 15
    ensures First(w, k) == if k < 8 then w * 8 + w - 1 - k else w * (w - 15 + k) + 8
  {}

  lemma SecondAt(w: nat, k: nat)
    requires SymbolWidth(w) && k < 15
    ensures Second(w, k) == if k < 6 then w * k + 8 else if k < 8 then w * (k + 1) + 8
                            else if k == 8 then w * 8 + 7 else w * 8 + 14 - k
  {}
}
