/** The penalty score of a symbol (section 8.8.2 of JIS X0510:2004). */
module Penalties {
  import opened Arith
  import opened GF256
  import opened FrameFillers
  import opened Frames

  const N1 := 3
  const N2 := 3
  const N3 := 40
  const N4 := 10
  const WIDTH_MAX := 177

  // ---- Penalties of one line, read off its modules ----

  /** The colour of a place; outside of the line everything is light. */
  predicate Module(l: seq<bool>, p: int) { 0 <= p < |l| && l[p] }

  ghost predicate Same(l: seq<bool>, a: int, b: int, dark: bool) {
    forall q :: a <= q < b ==> Module(l, q) == dark
  }

  /** Five modules of one colour, ending at p. */
  predicate Five(l: seq<bool>, p: int) {
    4 <= p < |l| && l[p - 4] == l[p] && l[p - 3] == l[p] && l[p - 2] == l[p] && l[p - 1] == l[p]
  }

  /** The first five modules of a colour cost N1, each further one costs 1. */
  function RunPenalty(l: seq<bool>, p: int): nat {
    if !Five(l, p) then 0 else if Five(l, p - 1) then 1 else N1
  }

  /** A 1:1:3:1:1 pattern in units of m modules with its centre at p, next to 4m light modules. */
  ghost predicate FinderLike(l: seq<bool>, p: int, m: nat) {
    && 1 <= m
    && !Module(l, p - 2 * m - 1) && Same(l, p - 2 * m, p - m, true) && Same(l, p - m, p, false)
    && Same(l, p, p + 3 * m, true)
    && Same(l, p + 3 * m, p + 4 * m, false) && Same(l, p + 4 * m, p + 5 * m, true) && !Module(l, p + 5 * m)
    && (Same(l, p - 6 * m, p - 2 * m, false) || Same(l, p + 5 * m, p + 9 * m, false))
  }

  ghost predicate Finder(l: seq<bool>, p: int) { exists m: nat :: FinderLike(l, p, m) }

  /** The penalties that the first n places of a line earn. */
  ghost function LinePenalty(l: seq<bool>, n: nat): (d: nat)
    ensures d <= 43 * n
  {
    if n == 0 then 0
    else LinePenalty(l, n - 1) + RunPenalty(l, n - 1) + if Finder(l, n - 1) then N3 else 0
  }

  // ---- Run lengths ----

  /** The line that alternating run lengths stand for: light first; a first length of -1 is empty. */
  function Unrun(runs: seq<int>): seq<bool> {
    if runs == [] then []
    else
      var i := |runs| - 1;
      Unrun(runs[..i]) + seq(if runs[i] < 0 then 0 else runs[i], _ => i % 2 == 1)
  }

  /** Run lengths of a line, as Mask_calcRunLength leaves them. */
  predicate IsRuns(runs: seq<int>, l: seq<bool>) {
    && 1 <= |runs|
    && (runs[0] == -1 || 1 <= runs[0])
    && (forall i :: 1 <= i < |runs| ==> 1 <= runs[i])
    && Unrun(runs) == l
  }

  function Start(runs: seq<int>, i: nat): nat
    requires i <= |runs|
  {
    |Unrun(runs[..i])|
  }

  lemma {:induction false} UnrunPrefix(runs: seq<int>, i: nat)
    requires i <= |runs|
    ensures Start(runs, i) <= |Unrun(runs)| && Unrun(runs)[..Start(runs, i)] == Unrun(runs[..i])
    decreases |runs|
  {
    if i == |runs| {
      assert runs[..i] == runs;
    } else {
      var n := |runs| - 1;
      assert runs[..n][..i] == runs[..i];
      UnrunPrefix(runs[..n], i);
    }
  }

  /** The modules of run i. */
  lemma RunSame(runs: seq<int>, l: seq<bool>, i: nat)
    requires IsRuns(runs, l) && i < |runs|
    ensures Start(runs, i + 1) == Start(runs, i) + if runs[i] < 0 then 0 else runs[i]
    ensures Start(runs, i + 1) <= |l|
    ensures Same(l, Start(runs, i), Start(runs, i + 1), i % 2 == 1)
  {
    assert runs[..i + 1][..i] == runs[..i];
    UnrunPrefix(runs, i + 1);
    var u := Unrun(runs[..i + 1]);
    forall q | Start(runs, i) <= q < Start(runs, i + 1)
      ensures Module(l, q) == (i % 2 == 1)
    {
      assert l[..Start(runs, i + 1)][q] == u[q];
    }
  }

  /** Run i is followed by a run of the other colour, or by the end of the line. */
  lemma RunStarts(runs: seq<int>, l: seq<bool>, i: nat)
    requires IsRuns(runs, l) && i < |runs|
    ensures Start(runs, 0) == 0 && Start(runs, |runs|) == |l|
    ensures i + 1 < |runs| ==> Start(runs, i + 1) < |l| && l[Start(runs, i + 1)] == (i % 2 == 0)
    ensures i + 1 == |runs| ==> Start(runs, i + 1) == |l|
  {
    assert runs[..0] == [] && runs[..|runs|] == runs;
    if i + 1 < |runs| {
      RunSame(runs, l, i + 1);
      hide Unrun, Start;
      assert Module(l, Start(runs, i + 1)) == (i % 2 == 0);
    }
  }

  // ---- What a run costs ----

  /** The test for a 1:1:3:1:1 pattern around run i. */
  predicate Matches(runs: seq<int>, i: nat) {
    && i % 2 == 1 && 3 <= i < |runs| - 2 && runs[i] % 3 == 0
    && var fact := runs[i] / 3;
    && runs[i - 2] == fact && runs[i - 1] == fact && runs[i + 1] == fact && runs[i + 2] == fact
    && (i == 3 || runs[i - 3] >= 4 * fact || i + 4 >= |runs| || runs[i + 3] >= 4 * fact)
  }

  function RunDemerit(runs: seq<int>, i: nat): nat
    requires i < |runs|
  {
    (if runs[i] >= 5 then N1 + (runs[i] - 5) else 0) + if Matches(runs, i) then N3 else 0
  }

  lemma SameAt(l: seq<bool>, a: int, b: int, dark: bool, q: int)
    requires Same(l, a, b, dark) && a <= q < b
    ensures Module(l, q) == dark
  {}

  /** Inside of a run that starts at s, a finder pattern can be centred at s only. */
  lemma {:induction false} WithinRun(l: seq<bool>, s: nat, q: nat, dark: bool)
    requires s <= q <= |l| && Same(l, s, q, dark) && (s == 0 || l[s - 1] != dark)
    ensures LinePenalty(l, q) == LinePenalty(l, s)
                                 + (if q - s >= 5 then N1 + (q - s - 5) else 0)
                                 + (if q > s && Finder(l, s) then N3 else 0)
  {
    if q > s {
      WithinRun(l, s, q - 1, dark);
      SameAt(l, s, q, dark, q - 1);
      RunOfFive(l, s, q - 1, dark);
      if q - 1 > s {
        SameAt(l, s, q, dark, q - 2);
        RunOfFive(l, s, q - 2, dark);
        NotInside(l, q - 1);
      }
      hide Five, Finder, Same;
    }
  }

  lemma NotInside(l: seq<bool>, p: nat)
    requires 1 <= p < |l| && l[p - 1] == l[p]
    ensures !Finder(l, p)
  {
    forall m: nat ensures !FinderLike(l, p, m) {
      if FinderLike(l, p, m) {
        SameAt(l, p, p + 3 * m, true, p);
        SameAt(l, p - m, p, false, p - 1);
      }
    }
  }

  lemma RunOfFive(l: seq<bool>, s: nat, p: nat, dark: bool)
    requires s <= p < |l| && Same(l, s, p + 1, dark) && (s == 0 || l[s - 1] != dark)
    ensures Five(l, p) <==> p - s >= 4
  {
    assert forall q :: s <= q <= p ==> Module(l, q) == dark;
    assert Module(l, p) == dark;
    assert p >= s + 1 ==> Module(l, p - 1) == dark;
    assert p >= s + 2 ==> Module(l, p - 2) == dark;
    assert p >= s + 3 ==> Module(l, p - 3) == dark;
    assert p >= s + 4 ==> Module(l, p - 4) == dark;
    assert p < s + 4 ==> s == p || s == p - 1 || s == p - 2 || s == p - 3;
  }

  /** The light run before run i - 2 has k modules, or it begins outside of the line. */
  lemma QuietBefore(runs: seq<int>, l: seq<bool>, i: nat, k: nat)
    requires IsRuns(runs, l) && i % 2 == 1 && 3 <= i < |runs| && 1 <= k
    ensures Same(l, Start(runs, i - 2) - k, Start(runs, i - 2), false) <==> i == 3 || runs[i - 3] >= k
  {
    RunSame(runs, l, i - 3); RunStarts(runs, l, i - 3);
    if i > 3 { RunSame(runs, l, i - 4); }
    hide Unrun, Start;
    var b := Start(runs, i - 2);
    if i > 3 && runs[i - 3] < k && Same(l, b - k, b, false) {
      SameAt(l, b - k, b, false, Start(runs, i - 3) - 1);
    }
  }

  /** The same for the light run after run i + 2. */
  lemma QuietAfter(runs: seq<int>, l: seq<bool>, i: nat, k: nat)
    requires IsRuns(runs, l) && i % 2 == 1 && i + 2 < |runs| && 1 <= k
    ensures Same(l, Start(runs, i + 3), Start(runs, i + 3) + k, false) <==> i + 4 >= |runs| || runs[i + 3] >= k
  {
    RunStarts(runs, l, i + 2);
    if i + 3 < |runs| { RunSame(runs, l, i + 3); RunStarts(runs, l, i + 3); }
    hide Unrun, Start;
    var b := Start(runs, i + 3);
    if i + 4 < |runs| && runs[i + 3] < k && Same(l, b, b + k, false) {
      SameAt(l, b, b + k, false, Start(runs, i + 4));
    }
  }

  /** The five runs that a run test compares, as modules. */
  lemma MatchModules(runs: seq<int>, l: seq<bool>, i: nat, p: nat, m: nat)
    requires IsRuns(runs, l) && 3 <= i < |runs| - 2 && i % 2 == 1 && p == Start(runs, i) && runs[i] == 3 * m
    requires runs[i - 2] == m && runs[i - 1] == m && runs[i + 1] == m && runs[i + 2] == m
    ensures 1 <= m && Start(runs, i - 2) == p - 2 * m && Start(runs, i + 3) == p + 5 * m
    ensures Same(l, p - 2 * m, p - m, true) && Same(l, p - m, p, false) && Same(l, p, p + 3 * m, true)
    ensures Same(l, p + 3 * m, p + 4 * m, false) && Same(l, p + 4 * m, p + 5 * m, true)
  {
    RunPositive(runs, l, i);
    hide Unrun, Start, Same, Module, IsRuns;
    RunSame(runs, l, i - 2); RunSame(runs, l, i - 1); RunSame(runs, l, i);
    RunSame(runs, l, i + 1); RunSame(runs, l, i + 2);
  }

  /** A run test that matches finds a pattern of the modules. */
  lemma MatchIsFinder(runs: seq<int>, l: seq<bool>, i: nat)
    requires IsRuns(runs, l) && i < |runs| && Matches(runs, i)
    ensures Finder(l, Start(runs, i))
  {
    var m, p := runs[i] / 3, Start(runs, i);
    MatchModules(runs, l, i, p, m);
    RunPositive(runs, l, i - 3);
    if i + 3 < |runs| { RunPositive(runs, l, i + 3); }
    QuietBefore(runs, l, i, 4 * m); QuietAfter(runs, l, i, 4 * m);
    QuietBefore(runs, l, i, 1); QuietAfter(runs, l, i, 1);
    hide Unrun, Start, Same, Module, IsRuns;
    SameAt(l, p - 2 * m - 1, p - 2 * m, false, p - 2 * m - 1);
    SameAt(l, p + 5 * m, p + 5 * m + 1, false, p + 5 * m);
    assert FinderLike(l, p, m);
  }

  lemma RunPositive(runs: seq<int>, l: seq<bool>, i: nat)
    requires IsRuns(runs, l) && i < |runs|
    ensures i > 0 ==> 1 <= runs[i]
  {}

  /** Where a run ends can be seen from the modules. */
  lemma RunEnds(runs: seq<int>, l: seq<bool>, i: nat, e: int)
    requires IsRuns(runs, l) && i < |runs| && Start(runs, i) < Start(runs, i + 1)
    requires Start(runs, i) < e && Same(l, Start(runs, i), e, i % 2 == 1) && Module(l, e) == (i % 2 == 0)
    requires e < |l| || i % 2 == 1
    ensures Start(runs, i + 1) == e
    ensures e < |l| ==> i + 1 < |runs|
  {
    RunSame(runs, l, i); RunStarts(runs, l, i);
    hide Unrun, Start;
    if Start(runs, i + 1) < e { SameAt(l, Start(runs, i), e, i % 2 == 1, Start(runs, i + 1)); }
  }

  /** And so can where it begins. */
  lemma RunBegins(runs: seq<int>, l: seq<bool>, i: nat, s: int)
    requires IsRuns(runs, l) && 1 <= i < |runs| && 0 <= s < Start(runs, i + 1)
    requires Same(l, s, Start(runs, i + 1), i % 2 == 1) && Module(l, s - 1) == (i % 2 == 0)
    ensures Start(runs, i) == s
  {
    RunSame(runs, l, i); RunSame(runs, l, i - 1); RunStarts(runs, l, i - 1);
    hide Unrun, Start;
    var b := Start(runs, i);
    if s < b { SameAt(l, s, Start(runs, i + 1), i % 2 == 1, b - 1); }
  }

  /** A pattern that is centred at a dark run lies in the middle of the line. */
  lemma FinderInside(runs: seq<int>, l: seq<bool>, i: nat, m: nat)
    requires IsRuns(runs, l) && i < |runs| && i % 2 == 1 && FinderLike(l, Start(runs, i), m)
    ensures 3 <= i && Start(runs, i) >= 2 * m && Start(runs, i) + 5 * m <= |l|
  {
    var p := Start(runs, i);
    RunSame(runs, l, 0); RunStarts(runs, l, 0);
    hide Unrun, Start;
    SameAt(l, p - 2 * m, p - m, true, p - 2 * m);
    SameAt(l, p + 4 * m, p + 5 * m, true, p + 5 * m - 1);
    if i == 1 { SameAt(l, 0, p, false, p - 2 * m); }
  }

  lemma FinderIsMatch(runs: seq<int>, l: seq<bool>, i: nat, m: nat)
    requires IsRuns(runs, l) && i < |runs| && i % 2 == 1 && FinderLike(l, Start(runs, i), m)
    ensures Matches(runs, i)
  {
    var p := Start(runs, i);
    FinderInside(runs, l, i, m);
    PatternAfter(runs, l, i, m);
    PatternBefore(runs, l, i, m);
    QuietBefore(runs, l, i, 4 * m); QuietAfter(runs, l, i, 4 * m);
    hide Unrun, Start, Same, Module, IsRuns;
  }

  lemma PatternAfter(runs: seq<int>, l: seq<bool>, i: nat, m: nat)
    requires IsRuns(runs, l) && i < |runs| && i % 2 == 1 && FinderLike(l, Start(runs, i), m)
    requires Start(runs, i) + 5 * m <= |l|
    ensures i + 2 < |runs| && runs[i] == 3 * m && runs[i + 1] == m && runs[i + 2] == m
    ensures Start(runs, i + 3) == Start(runs, i) + 5 * m
  {
    var p := Start(runs, i);
    RunSame(runs, l, i);
    hide Unrun, Start, Same, Module;
    SameAt(l, p + 3 * m, p + 4 * m, false, p + 3 * m);
    SameAt(l, p + 4 * m, p + 5 * m, true, p + 4 * m);
    RunEnds(runs, l, i, p + 3 * m);
    RunSame(runs, l, i + 1);
    RunEnds(runs, l, i + 1, p + 4 * m);
    RunSame(runs, l, i + 2);
    RunEnds(runs, l, i + 2, p + 5 * m);
  }

  lemma PatternBefore(runs: seq<int>, l: seq<bool>, i: nat, m: nat)
    requires IsRuns(runs, l) && 3 <= i < |runs| && i % 2 == 1 && FinderLike(l, Start(runs, i), m)
    requires Start(runs, i) >= 2 * m
    ensures runs[i - 1] == m && runs[i - 2] == m && Start(runs, i - 2) == Start(runs, i) - 2 * m
  {
    var p := Start(runs, i);
    RunSame(runs, l, i - 1); RunSame(runs, l, i - 2);
    hide Unrun, Start, Same, Module;
    SameAt(l, p - 2 * m, p - m, true, p - m - 1);
    RunBegins(runs, l, i - 1, p - m);
    RunBegins(runs, l, i - 2, p - 2 * m);
  }

  /** The penalty of a run is what its modules earn. */
  lemma RunCost(runs: seq<int>, l: seq<bool>, i: nat)
    requires IsRuns(runs, l) && i < |runs|
    ensures LinePenalty(l, Start(runs, i + 1)) == LinePenalty(l, Start(runs, i)) + RunDemerit(runs, i)
  {
    RunSame(runs, l, i);
    RunStarts(runs, l, 0);
    if i > 0 { RunSame(runs, l, i - 1); RunStarts(runs, l, i - 1); }
    var s, e := Start(runs, i), Start(runs, i + 1);
    if Matches(runs, i) { MatchIsFinder(runs, l, i); }
    if e > s && Finder(l, s) {
      var m: nat :| FinderLike(l, s, m);
      hide Unrun, Start;
      assert Module(l, s);
      FinderIsMatch(runs, l, i, m);
    }
    hide Unrun, Start, Matches, Finder;
    if e > s {
      if s > 0 {
        assert i > 0;
        if Start(runs, i - 1) < s { assert Module(l, s - 1) == ((i - 1) % 2 == 1); }
      }
      WithinRun(l, s, e, i % 2 == 1);
    }
  }

  /** The penalties of the runs are those of the line. */
  method CalcN1N3(length: nat, runLength: array<int>, ghost l: seq<bool>) returns (demerit: nat)
    requires length <= runLength.Length && IsRuns(runLength[..length], l)
    ensures demerit == LinePenalty(l, |l|)
  {
    hide IsRuns, Start, LinePenalty;
    ghost var runs := runLength[..length];
    RunStartsAll(runs, l);
    demerit := 0;
    for i := 0 to length
      invariant demerit == LinePenalty(l, Start(runs, i))
    {
      RunCost(runs, l, i);
      if runLength[i] >= 5 {
        demerit := demerit + N1 + (runLength[i] - 5);
      }
      if i % 2 == 1 {
        if i >= 3 && i < length - 2 && runLength[i] % 3 == 0 {
          var fact := runLength[i] / 3;
          if runLength[i - 2] == fact && runLength[i - 1] == fact &&
             runLength[i + 1] == fact && runLength[i + 2] == fact {
            if i == 3 || runLength[i - 3] >= 4 * fact {
              demerit := demerit + N3;
            } else if i + 4 >= length || runLength[i + 3] >= 4 * fact {
              demerit := demerit + N3;
            }
          }
        }
      }
    }
  }

  lemma RunStartsAll(runs: seq<int>, l: seq<bool>)
    requires IsRuns(runs, l)
    ensures Start(runs, 0) == 0 && Start(runs, |runs|) == |l| && LinePenalty(l, 0) == 0
  {
    RunStarts(runs, l, 0);
  }

  // ---- Measuring the runs of a line ----

  function LineModule(f: seq<Byte>, start: nat, pitch: nat, w: nat, i: nat): bool
    requires i < w && start + (w - 1) * pitch < |f|
  {
    MulLe(i, w - 1, pitch); MulLe(0, i, pitch);
    Dark(f[start + i * pitch])
  }

  /** The modules of a line of the frame, as colours. */
  function Line(f: seq<Byte>, start: nat, pitch: nat, w: nat): (l: seq<bool>)
    requires 1 <= w && start + (w - 1) * pitch < |f|
    ensures |l| == w
  {
    seq(w, i requires 0 <= i < w => LineModule(f, start, pitch, w, i))
  }

  /** One more module of the same colour lengthens the last run. */
  lemma LastRunGrows(runs: seq<int>, more: seq<int>, l: seq<bool>)
    requires IsRuns(runs, l) && 1 <= runs[|runs| - 1]
    requires more == runs[|runs| - 1 := runs[|runs| - 1] + 1]
    ensures IsRuns(more, l + [Odd(|runs| - 1)])
  {
    assert more[..|runs| - 1] == runs[..|runs| - 1];
  }

  /** A module of the other colour starts a new run. */
  lemma NewRun(runs: seq<int>, more: seq<int>, l: seq<bool>)
    requires IsRuns(runs, l) && more == runs + [1]
    ensures IsRuns(more, l + [Odd(|runs|)]) && Odd(|runs|) == !Odd(|runs| - 1)
  {
    assert more[..|runs|] == runs;
  }

  lemma FirstRun(runs: seq<int>, l: seq<bool>)
    requires |l| == 1 && runs == if l[0] then [-1, 1] else [1]
    ensures IsRuns(runs, l)
  {
    if l[0] {
      assert runs[..1] == [-1] && [-1][..0] == [];
      assert Unrun([-1]) == [];
    } else {
      assert runs[..0] == [];
    }
  }

  /** The colours of two modules differ. */
  predicate Differ(a: Byte, b: Byte) { (a ^ b) & 1 != 0 }

  lemma DifferMeaning(a: Byte, b: Byte)
    ensures Differ(a, b) <==> Dark(a) != Dark(b)
  {}

  function Pitch(width: nat, dir: nat): nat { if dir == 0 then 1 else width }

  lemma LineAt(f: seq<Byte>, start: nat, pitch: nat, w: nat, i: nat, p: nat)
    requires i < w && start + (w - 1) * pitch < |f| && p == start + i * pitch
    ensures p < |f| && Line(f, start, pitch, w)[i] == Dark(f[p])
    ensures start + (i + 1) * pitch == p + pitch
  {
    MulLe(i, w - 1, pitch); MulSucc(i, pitch);
  }

  predicate Odd(n: nat) { n % 2 == 1 }

  lemma OddSmall()
    ensures !Odd(0) && Odd(1)
  {}

  /** Runs along a row (dir 0) or a column; at most width + 1 of them. */
  method CalcRunLength(width: nat, frame: array<Byte>, start: nat, dir: nat, runLength: array<int>) returns (length: nat)
    requires 1 <= width && start + (width - 1) * Pitch(width, dir) < frame.Length
    requires runLength.Length >= width + 1 && frame as object != runLength as object
    modifies runLength
    ensures 1 <= length <= width + 1
    ensures IsRuns(runLength[..length], Line(frame[..], start, Pitch(width, dir), width))
  {
    hide Dark, IsRuns, Differ, Line, Pitch, Odd;
    OddSmall();
    var pitch := Pitch(width, dir);
    ghost var f, l := frame[..], Line(frame[..], start, pitch, width);
    LineAt(f, start, pitch, width, 0, start);
    var head := 0;
    if Dark(frame[start]) {
      runLength[0] := -1;
      head := 1;
    }
    runLength[head] := 1;
    FirstRun(runLength[..head + 1], l[..1]);
    var p := start + pitch;
    for i := 1 to width
      invariant 0 <= head <= i && p == start + i * pitch && p - pitch >= 0
      invariant p - pitch < |f| && Dark(f[p - pitch]) == l[i - 1]
      invariant l[i - 1] == Odd(head)
      invariant IsRuns(runLength[..head + 1], l[..i]) && 1 <= runLength[head]
    {
      LineAt(f, start, pitch, width, i, p);
      DifferMeaning(frame[p], frame[p - pitch]);
      ghost var runs := runLength[..head + 1];
      assert l[..i + 1] == l[..i] + [l[i]];
      if Differ(frame[p], frame[p - pitch]) {
        head := head + 1;
        runLength[head] := 1;
        assert runLength[..head + 1] == runs + [1];
        NewRun(runs, runLength[..head + 1], l[..i]);
        assert |runs| == head;
      } else {
        runLength[head] := runLength[head] + 1;
        assert runLength[..head + 1] == runs[head := runs[head] + 1];
        LastRunGrows(runs, runLength[..head + 1], l[..i]);
      }
      p := p + pitch;
    }
    assert l[..width] == l;
    length := head + 1;
  }

  // ---- Blocks of one colour ----

  /** The two-by-two block whose bottom right module is at (x, y) has one colour. */
  predicate UniformBlock(f: seq<Byte>, w: nat, x: nat, y: nat)
    requires |f| == w * w && 1 <= x < w && 1 <= y < w
  {
    var c := Dark(At(f, w, x, y));
    Dark(At(f, w, x - 1, y)) == c && Dark(At(f, w, x, y - 1)) == c && Dark(At(f, w, x - 1, y - 1)) == c
  }

  /** The blocks of one colour that end before (x, y) in reading order. */
  ghost function BlocksBefore(f: seq<Byte>, w: nat, x: nat, y: nat): set<(nat, nat)>
    requires |f| == w * w
  {
    set i: nat, j: nat | 1 <= i < w && 1 <= j < w && (j < y || (j == y && i < x)) && UniformBlock(f, w, i, j) :: (i, j)
  }

  ghost function UniformBlocks(f: seq<Byte>, w: nat): set<(nat, nat)>
    requires |f| == w * w
  {
    set i: nat, j: nat | 1 <= i < w && 1 <= j < w && UniformBlock(f, w, i, j) :: (i, j)
  }

  /** The test of the four modules of a block by bit operations. */
  predicate OneColour(a: Byte, b: Byte, c: Byte, d: Byte) {
    ((a & b & c & d) | ((a | b | c | d) ^ 1)) & 1 != 0
  }

  lemma OneColourMeaning(a: Byte, b: Byte, c: Byte, d: Byte)
    ensures OneColour(a, b, c, d) <==> Dark(a) == Dark(b) && Dark(a) == Dark(c) && Dark(a) == Dark(d)
  {}

  lemma NextBlock(f: seq<Byte>, w: nat, x: nat, y: nat)
    requires |f| == w * w && 1 <= x < w && 1 <= y < w
    ensures |BlocksBefore(f, w, x + 1, y)| == |BlocksBefore(f, w, x, y)| + if UniformBlock(f, w, x, y) then 1 else 0
  {
    hide UniformBlock;
    var before, after := BlocksBefore(f, w, x, y), BlocksBefore(f, w, x + 1, y);
    if UniformBlock(f, w, x, y) {
      assert after == before + {(x, y)};
    } else {
      assert after == before;
    }
  }

  lemma NextRow(f: seq<Byte>, w: nat, y: nat)
    requires |f| == w * w && 1 <= w
    ensures BlocksBefore(f, w, w, y) == BlocksBefore(f, w, 1, y + 1)
    ensures y + 1 == w ==> BlocksBefore(f, w, 1, w) == UniformBlocks(f, w)
    ensures BlocksBefore(f, w, 1, 1) == {}
  {
    hide UniformBlock;
  }

  /** N2 for every two-by-two block of one colour. */
  method CalcN2(width: nat, frame: array<Byte>) returns (demerit: nat)
    requires 2 <= width && frame.Length == width * width
    ensures demerit == N2 * |UniformBlocks(frame[..], width)|
    ensures demerit <= N2 * (width * width)
  {
    hide UniformBlock, BlocksBefore, UniformBlocks, OneColour, Dark;
    demerit := 0;
    ghost var f := frame[..];
    NextRow(f, width, 0); NextRow(f, width, width - 1);
    var p := width + 1;
    for y := 1 to width
      invariant p == y * width + 1
      invariant demerit == N2 * |BlocksBefore(f, width, 1, y)| && demerit <= N2 * (y * width)
    {
      for x := 1 to width
        invariant p == y * width + x
        invariant demerit == N2 * |BlocksBefore(f, width, x, y)| && demerit <= N2 * (y * width + x)
      {
        BlockAt(f, width, x, y, p);
        NextBlock(f, width, x, y);
        if OneColour(frame[p], frame[p - 1], frame[p - width], frame[p - width - 1]) {
          demerit := demerit + N2;
        }
        p := p + 1;
      }
      NextRow(f, width, y);
      MulSucc(y, width);
      p := p + 1;
    }
  }

  lemma BlockAt(f: seq<Byte>, w: nat, x: nat, y: nat, p: nat)
    requires |f| == w * w && 1 <= x < w && 1 <= y < w && p == y * w + x
    ensures w + 1 <= p < w * w
    ensures OneColour(f[p], f[p - 1], f[p - w], f[p - w - 1]) <==> UniformBlock(f, w, x, y)
  {
    BlockIndices(w, x, y);
    OneColourMeaning(f[p], f[p - 1], f[p - w], f[p - w - 1]);
    hide OneColour, Dark, Index;
  }

  lemma BlockIndices(w: nat, x: nat, y: nat)
    requires 1 <= x < w && 1 <= y < w
    ensures y * w + x == Index(w, x, y) && y * w + x - 1 == Index(w, x - 1, y)
    ensures y * w + x - w == Index(w, x, y - 1) && y * w + x - w - 1 == Index(w, x - 1, y - 1)
  {
    MulSucc(y - 1, w);
  }

  // ---- The whole symbol ----

  function RowOf(f: seq<Byte>, w: nat, y: nat): (l: seq<bool>)
    requires |f| == w * w && y < w
    ensures |l| == w
  {
    seq(w, x requires 0 <= x < w => Dark(At(f, w, x, y)))
  }

  function ColumnOf(f: seq<Byte>, w: nat, x: nat): (l: seq<bool>)
    requires |f| == w * w && x < w
    ensures |l| == w
  {
    seq(w, y requires 0 <= y < w => Dark(At(f, w, x, y)))
  }

  ghost function RowsPenalty(f: seq<Byte>, w: nat, n: nat): nat
    requires |f| == w * w && n <= w
  {
    if n == 0 then 0 else RowsPenalty(f, w, n - 1) + LinePenalty(RowOf(f, w, n - 1), w)
  }

  ghost function ColumnsPenalty(f: seq<Byte>, w: nat, n: nat): nat
    requires |f| == w * w && n <= w
  {
    if n == 0 then 0 else ColumnsPenalty(f, w, n - 1) + LinePenalty(ColumnOf(f, w, n - 1), w)
  }

  /** The penalties of blocks, rows and columns. */
  ghost function PatternPenalty(f: seq<Byte>, w: nat): nat
    requires |f| == w * w
  {
    N2 * |UniformBlocks(f, w)| + RowsPenalty(f, w, w) + ColumnsPenalty(f, w, w)
  }

  lemma RowLine(f: seq<Byte>, w: nat, y: nat)
    requires |f| == w * w && y < w
    ensures y * w + (w - 1) * 1 < |f| && Line(f, y * w, 1, w) == RowOf(f, w, y)
  {
    MulSucc(y, w); MulLe(y + 1, w, w);
  }

  lemma ColumnLine(f: seq<Byte>, w: nat, x: nat)
    requires |f| == w * w && x < w
    ensures x + (w - 1) * w < |f| && Line(f, x, w, w) == ColumnOf(f, w, x)
  {
    MulSucc(w - 1, w);
  }

  method EvaluateSymbol(width: nat, frame: array<Byte>) returns (demerit: nat)
    requires 2 <= width <= WIDTH_MAX && frame.Length == width * width
    ensures demerit == PatternPenalty(frame[..], width)
    ensures demerit <= 89 * (width * width)
  {
    hide UniformBlocks, LinePenalty, IsRuns, Line, RowOf, ColumnOf;
    ghost var f := frame[..];
    demerit := 0;
    var runLength := new int[WIDTH_MAX + 1];
    demerit := CalcN2(width, frame);
    ghost var d := demerit;
    for y := 0 to width
      invariant demerit == d + RowsPenalty(f, width, y) && demerit <= d + 43 * (y * width)
      modifies runLength
    {
      RowLine(f, width, y);
      var length := CalcRunLength(width, frame, y * width, 0, runLength);
      var cost := CalcN1N3(length, runLength, RowOf(f, width, y));
      demerit := demerit + cost;
      MulSucc(y, width);
    }
    d := demerit;
    for x := 0 to width
      invariant demerit == d + ColumnsPenalty(f, width, x) && demerit <= d + 43 * (x * width)
      modifies runLength
    {
      ColumnLine(f, width, x);
      var length := CalcRunLength(width, frame, x, 1, runLength);
      var cost := CalcN1N3(length, runLength, ColumnOf(f, width, x));
      demerit := demerit + cost;
      MulSucc(x, width);
    }
  }
}
