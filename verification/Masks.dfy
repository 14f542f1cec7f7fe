/** Applying a mask pattern, and choosing the best one. */
module Masks {
  import opened Arith
  import opened GF256
  import opened QRSpec
  import opened FrameFillers
  import opened Frames
  import opened MaskPatterns
  import opened Penalties

  const INT_MAX := 0x7fffffff

  /** The frame that mask pattern and format information make of a frame. */
  function Candidate(f: seq<Byte>, w: nat, mask: nat, level: Level): (g: seq<Byte>)
    requires SymbolWidth(w) && |f| == w * w && mask < MASKS
    ensures |g| == w * w
  {
    WithFormat(Masked(f, w, mask), w, FormatInfo(mask, level))
  }

  /** The format modules are reserved and light: so are the frames that data is placed in. */
  ghost predicate FormatClear(f: seq<Byte>, w: nat)
    requires |f| == w * w
  {
    forall x, y :: 0 <= x < w && 0 <= y < w && FormatCell(w, x, y) ==> Reserved(At(f, w, x, y)) && !Dark(At(f, w, x, y))
  }

  /** A candidate has the reservations of the frame, and it differs from the frame in data and
      format modules only. */
  lemma CandidateKeeps(f: seq<Byte>, w: nat, mask: nat, level: Level)
    requires SymbolWidth(w) && |f| == w * w && FormatClear(f, w) && mask < MASKS
    ensures forall i :: 0 <= i < w * w ==> Reserved(Candidate(f, w, mask, level)[i]) == Reserved(f[i])
    ensures forall x, y :: 0 <= x < w && 0 <= y < w && Reserved(At(f, w, x, y)) && !FormatCell(w, x, y)
                           ==> At(Candidate(f, w, mask, level), w, x, y) == At(f, w, x, y)
  {
    MaskedTwice(f, w, mask);
    var m, g := Masked(f, w, mask), Candidate(f, w, mask, level);
    hide Masked, WithFormat, FormatCell, Reserved, Index, FormatInfo;
    forall x, y | 0 <= x < w && 0 <= y < w
      ensures Reserved(At(g, w, x, y)) == Reserved(At(f, w, x, y))
      ensures Reserved(At(f, w, x, y)) && !FormatCell(w, x, y) ==> At(g, w, x, y) == At(f, w, x, y)
    {
      WithFormatAt(m, w, FormatInfo(mask, level), x, y);
      assert At(m, w, x, y) == m[Index(w, x, y)];
    }
    forall i | 0 <= i < w * w
      ensures Reserved(g[i]) == Reserved(f[i])
    {
      IndexOfAny(w, i);
      assert Reserved(At(g, w, i % w, i / w)) == Reserved(At(f, w, i % w, i / w));
    }
  }

  /** Masking a candidate again with its own pattern gives the data modules back. */
  lemma CandidateUnmasks(f: seq<Byte>, w: nat, mask: nat, level: Level, i: nat)
    requires SymbolWidth(w) && |f| == w * w && FormatClear(f, w) && mask < MASKS
    requires i < w * w && !Reserved(f[i])
    ensures Masked(Candidate(f, w, mask, level), w, mask)[i] == f[i]
  {
    MaskedTwice(f, w, mask);
    var m, g := Masked(f, w, mask), Candidate(f, w, mask, level);
    IndexOfAny(w, i);
    hide WithFormat, FormatCell, Reserved, Index, FormatInfo, Condition, Toggle;
    WithFormatAt(m, w, FormatInfo(mask, level), i % w, i / w);
    assert At(f, w, i % w, i / w) == f[i] && At(g, w, i % w, i / w) == g[i] && At(m, w, i % w, i / w) == m[i];
    assert MaskedCell(g, w, mask, i) == MaskedCell(m, w, mask, i);
    assert Masked(m, w, mask)[i] == MaskedCell(m, w, mask, i);
  }

  // ---- The ratio of dark modules ----

  /** The percentage of dark modules among n, as the library computes it. */
  function DarkRatio(blacks: nat, n: nat): nat
    requires 1 <= n
  {
    (200 * blacks + n) / n / 2
  }

  /** It is the percentage rounded to the nearest number. */
  lemma DarkRatioRounded(blacks: nat, n: nat)
    requires 1 <= n
    ensures var r := DarkRatio(blacks, n); 2 * (r * n) - n <= 200 * blacks < 2 * (r * n) + n
  {
    hide Quot, Rem;
    var x := 200 * blacks + n;
    QuotRem(x, n);
    var q := x / n;
    var r := q / 2;
    assert r == DarkRatio(blacks, n);
    if q == 2 * r {
      Twice(r, n);
    } else {
      Twice(r, n); MulSucc(2 * r, n);
    }
  }

  lemma Twice(r: nat, n: nat)
    ensures (2 * r) * n == 2 * (r * n)
  {}

  function Balance(blacks: nat, n: nat): nat
    requires 1 <= n
  {
    var r := DarkRatio(blacks, n);
    (if r >= 50 then r - 50 else 50 - r) / 5 * N4
  }

  lemma BalanceBound(blacks: nat, n: nat)
    requires 1 <= n && blacks <= n + 30
    requires 441 <= n
    ensures Balance(blacks, n) <= 1000
  {
    DarkRatioRounded(blacks, n);
    var r := DarkRatio(blacks, n);
    if r > 500 { MulLe(501, r, n); }
  }

  /** The penalty of a finished symbol. */
  ghost function Demerit(g: seq<Byte>, w: nat): nat
    requires 1 <= w && |g| == w * w
  {
    MulLe(1, w, w);
    Balance(DarkCount(g), w * w) + PatternPenalty(g, w)
  }

  /** The score of a mask pattern: the dark modules are counted while they are written. */
  ghost function Score(f: seq<Byte>, w: nat, mask: nat, level: Level): nat
    requires SymbolWidth(w) && |f| == w * w && mask < MASKS
  {
    MulLe(1, w, w);
    Balance(DarkCount(Masked(f, w, mask)) + 2 * Ones(FormatInfo(mask, level), 15), w * w)
    + PatternPenalty(Candidate(f, w, mask, level), w)
  }

  /** On frames with light format modules, the score is the penalty of the finished symbol. */
  lemma ScoreIsDemerit(f: seq<Byte>, w: nat, mask: nat, level: Level)
    requires SymbolWidth(w) && |f| == w * w && FormatClear(f, w) && mask < MASKS
    ensures Score(f, w, mask, level) == Demerit(Candidate(f, w, mask, level), w)
  {
    hide Masked, WithFormat, PatternPenalty, Balance, Ones, DarkCount, FormatInfo, FormatClear, FormatLight;
    MaskedLight(f, w, mask);
    IncrementalCount(Masked(f, w, mask), w, FormatInfo(mask, level));
  }

  lemma MaskedLight(f: seq<Byte>, w: nat, mask: nat)
    requires |f| == w * w && FormatClear(f, w) && mask < MASKS
    ensures FormatLight(Masked(f, w, mask), w)
  {
    MaskedTwice(f, w, mask);
    var m := Masked(f, w, mask);
    hide Masked, FormatCell, Reserved, Dark, Index;
    forall x, y | 0 <= x < w && 0 <= y < w && FormatCell(w, x, y)
      ensures !Dark(At(m, w, x, y))
    {
      assert At(m, w, x, y) == m[Index(w, x, y)] && At(f, w, x, y) == f[Index(w, x, y)];
    }
  }

  // ---- Making a mask, and the best mask ----

  /** Returns null for a pattern number that does not exist. */
  method MakeMask(width: nat, frame: array<Byte>, mask: int, level: Level) returns (masked: array?<Byte>)
    requires SymbolWidth(width) && frame.Length == width * width
    ensures masked == null <==> !(0 <= mask < MASKS)
    ensures masked != null ==> fresh(masked) && masked[..] == Candidate(frame[..], width, mask, level)
  {
    if mask < 0 || mask >= MASKS { return null; }
    var buffer := new Byte[width * width];
    var b := MaskMaker(width, frame, buffer, mask);
    var blacks := WriteFormatInformation(width, buffer, mask, level);
    masked := buffer;
  }

  /** Pattern k is the first of the best among the first n patterns. */
  ghost predicate BestOf(f: seq<Byte>, w: nat, level: Level, n: nat, k: nat)
    requires SymbolWidth(w) && |f| == w * w && n <= MASKS
  {
    && k < n
    && (forall m: nat :: m < n ==> Score(f, w, k, level) <= Score(f, w, m, level))
    && (forall m: nat :: m < k ==> Score(f, w, k, level) < Score(f, w, m, level))
  }

  /** One more candidate is compared with the best one so far. */
  lemma NextBest(f: seq<Byte>, w: nat, level: Level, n: nat, k: nat)
    requires SymbolWidth(w) && |f| == w * w && n < MASKS && k <= n && (n > 0 ==> BestOf(f, w, level, n, k))
    ensures n == 0 || Score(f, w, n, level) < Score(f, w, k, level) ==> BestOf(f, w, level, n + 1, n)
    ensures n > 0 && Score(f, w, n, level) >= Score(f, w, k, level) ==> BestOf(f, w, level, n + 1, k)
  {
    hide Score;
  }

  lemma WidthSquare(w: nat)
    requires SymbolWidth(w) && w <= WIDTH_MAX
    ensures 441 <= w * w <= 31329
  {
    MulLe(21, w, w); MulLe(w, 177, w); MulLe(21, w, 21); MulLe(w, 177, 177);
  }

  lemma {:induction false} OnesBound(word: nat, k: nat)
    ensures Ones(word, k) <= k
  {
    if k > 0 { OnesBound(word, k - 1); }
  }

  lemma BalanceIs(blacks: nat, n: nat)
    requires 1 <= n
    ensures Balance(blacks, n)
         == var r := (200 * blacks + n) / n / 2; (if r >= 50 then r - 50 else 50 - r) / 5 * N4
  {}

  lemma ScoreIs(f: seq<Byte>, w: nat, mask: nat, level: Level)
    requires SymbolWidth(w) && |f| == w * w && mask < MASKS && 1 <= w * w
    ensures Score(f, w, mask, level)
         == Balance(DarkCount(Masked(f, w, mask)) + 2 * Ones(FormatInfo(mask, level), 15), w * w)
            + PatternPenalty(WithFormat(Masked(f, w, mask), w, FormatInfo(mask, level)), w)
    ensures Candidate(f, w, mask, level) == WithFormat(Masked(f, w, mask), w, FormatInfo(mask, level))
  {
    hide Masked, WithFormat, PatternPenalty, Balance, Ones, DarkCount, FormatInfo;
  }

  /** The symbol with the least penalty; the first such pattern if there are several. */
  method Mask(width: nat, frame: array<Byte>, level: Level) returns (best: array?<Byte>, ghost chosen: nat)
    requires SymbolWidth(width) && width <= WIDTH_MAX && frame.Length == width * width
    ensures best != null && fresh(best) && BestOf(frame[..], width, level, MASKS, chosen)
    ensures best[..] == Candidate(frame[..], width, chosen, level)
  {
    hide Candidate, FormatInfo, Score, Masked, WithFormat, PatternPenalty, Balance, Ones, DarkCount, BestOf;
    ghost var f := frame[..];
    var w2 := width * width;
    WidthSquare(width);
    var mask := new Byte[w2];
    best, chosen := null, 0;
    var minDemerit := INT_MAX;
    for i := 0 to MASKS
      invariant fresh(mask) && mask.Length == w2 && mask != frame && mask != best
      invariant (best == null <==> i == 0) && chosen <= i
      invariant best != null ==> chosen < MASKS
      invariant best == null ==> minDemerit == INT_MAX
      invariant best != null ==> fresh(best) && BestOf(f, width, level, i, chosen)
      invariant best != null ==> minDemerit == Score(f, width, chosen, level)
      invariant best != null ==> best[..] == Candidate(f, width, chosen, level)
      invariant frame[..] == f
    {
      var blacks := MaskMaker(width, frame, mask, i);
      DarkAtMost(mask[..]);
      var written := WriteFormatInformation(width, mask, i, level);
      OnesBound(FormatInfo(i, level), 15);
      blacks := blacks + written;
      var bratio := (200 * blacks + w2) / w2 / 2;
      var demerit := (if bratio >= 50 then bratio - 50 else 50 - bratio) / 5 * N4;
      BalanceBound(blacks, w2);
      assert demerit == Balance(blacks, w2) by { BalanceIs(blacks, w2); }
      var more := EvaluateSymbol(width, mask);
      demerit := demerit + more;
      ScoreIs(f, width, i, level);
      NextBest(f, width, level, i, chosen);
      if demerit < minDemerit {
        minDemerit := demerit;
        best, chosen := mask, i;
        mask := new Byte[w2];
      }
    }
  }
}
