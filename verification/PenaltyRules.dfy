/** The penalty rules on explicit lines and blocks, with their figures (Table 24 of JIS X0510:2004). */
module PenaltyRules {
  import opened GF256
  import opened FrameFillers
  import opened Frames
  import opened Penalties
  import opened Masks

  /** n modules of one colour. */
  function Stretch(n: nat, dark: bool): seq<bool> { seq(n, _ => dark) }

  lemma UnrunMore(runs: seq<int>, n: nat)
    ensures Unrun(runs + [n]) == Unrun(runs) + Stretch(n, |runs| % 2 == 1)
  {
    assert (runs + [n])[..|runs|] == runs;
  }

  lemma UnrunFirst()
    ensures Unrun([-1]) == []
  {
    assert [-1][..0] == [];
  }

  /** The penalty of a line is the sum of the penalties of its runs. */
  lemma {:induction false} SumOfRuns(runs: seq<int>, l: seq<bool>, n: nat)
    requires IsRuns(runs, l) && n <= |runs|
    ensures LinePenalty(l, Start(runs, n)) == Demerits(runs, n)
  {
    hide IsRuns, LinePenalty, RunDemerit, Start;
    if n == 0 {
      RunStart(runs, l);
    } else {
      SumOfRuns(runs, l, n - 1);
      RunCost(runs, l, n - 1);
    }
  }

  lemma RunStart(runs: seq<int>, l: seq<bool>)
    requires IsRuns(runs, l)
    ensures Start(runs, 0) == 0 && LinePenalty(l, 0) == 0
  {
    RunStarts(runs, l, 0);
  }

  function Demerits(runs: seq<int>, n: nat): nat
    requires n <= |runs|
  {
    if n == 0 then 0 else Demerits(runs, n - 1) + RunDemerit(runs, n - 1)
  }

  lemma WholeLine(runs: seq<int>, l: seq<bool>)
    requires IsRuns(runs, l)
    ensures LinePenalty(l, |l|) == Demerits(runs, |runs|)
  {
    SumOfRuns(runs, l, |runs|);
    RunStarts(runs, l, 0);
    RunStarts(runs, l, |runs| - 1);
  }

  lemma NextRun(runs: seq<int>, n: nat)
    requires n < |runs|
    ensures Demerits(runs, n + 1) == Demerits(runs, n) + RunDemerit(runs, n) && Demerits(runs, 0) == 0
  {}

  /** A run of five costs 3, and every further module of the same colour costs 1. */
  lemma RunRule(n: nat, dark: bool)
    requires 1 <= n
    ensures LinePenalty(Stretch(n, dark), n) == if n < 5 then 0 else 3 + (n - 5)
  {
    var m: int := n;
    var runs: seq<int> := if dark then [-1, m] else [m];
    hide LinePenalty, Demerits;
    UnrunFirst();
    UnrunMore([], n); UnrunMore([-1], n);
    assert dark ==> [-1] + [m] == runs;
    assert !dark ==> [] + [m] == runs;
    assert Unrun([]) == [];
    WholeLine(runs, Stretch(n, dark));
    NextRun(runs, 0);
    if dark { NextRun(runs, 1); }
  }

  /** The pattern of a finder, dark-light-dark-light-dark in the ratio 1:1:3:1:1. */
  function FinderPattern(): seq<bool> { [true, false, true, true, true, false, true] }

  /** Its run lengths. */
  lemma PatternRuns(runs: seq<int>)
    requires |runs| % 2 == 1
    ensures Unrun(runs + [1, 1, 3, 1, 1]) == Unrun(runs) + FinderPattern()
  {
    hide Unrun, Stretch, FinderPattern;
    Parts();
    TwoRuns(runs, 1, 1);
    TwoRuns(runs + [1, 1], 3, 1);
    UnrunMore(runs + [1, 1] + [3, 1], 1);
    Joined(runs, [1, 1], [3, 1], [1]);
    Joined(Unrun(runs), [true, false], [true, true, true, false], [true]);
  }

  /** A dark run and a light one. */
  lemma TwoRuns(runs: seq<int>, m: nat, n: nat)
    requires |runs| % 2 == 1
    ensures Unrun(runs + [m, n]) == Unrun(runs) + (Stretch(m, true) + Stretch(n, false))
  {
    hide Unrun, Stretch;
    UnrunMore(runs, m);
    UnrunMore(runs + [m], n);
    assert runs + [m] + [n] == runs + [m, n];
    Joined(Unrun(runs), [], Stretch(m, true), Stretch(n, false));
    assert [] + Stretch(m, true) == Stretch(m, true) && Unrun(runs) + [] == Unrun(runs);
  }

  lemma Joined<T>(a: seq<T>, b: seq<T>, c: seq<T>, d: seq<T>)
    ensures a + b + c + d == a + (b + c + d)
  {}

  lemma Parts()
    ensures Stretch(1, true) + Stretch(1, false) == [true, false] && Stretch(1, true) == [true]
    ensures Stretch(3, true) + Stretch(1, false) == [true, true, true, false]
    ensures [true, false] + [true, true, true, false] + [true] == FinderPattern()
    ensures [1, 1] + [3, 1] + [1] == [1, 1, 3, 1, 1]
  {}

  /** At the border it costs 40. */
  lemma BorderRule()
    ensures LinePenalty(FinderPattern(), 7) == 40
  {
    hide LinePenalty, Demerits, RunDemerit, Unrun;
    var runs: seq<int> := [-1, 1, 1, 3, 1, 1];
    UnrunFirst();
    PatternRuns([-1]);
    assert runs == [-1] + [1, 1, 3, 1, 1];
    WholeLine(runs, FinderPattern());
    SixRuns(runs);
  }

  lemma SixRuns(runs: seq<int>)
    requires runs == [-1, 1, 1, 3, 1, 1]
    ensures Demerits(runs, 6) == 40
  {
    hide Demerits;
    NextRun(runs, 0); NextRun(runs, 1); NextRun(runs, 2); NextRun(runs, 3); NextRun(runs, 4); NextRun(runs, 5);
  }

  /** Within a line it costs 40 exactly if at least four light modules are on one side. */
  lemma MarginRule(before: nat, after: nat)
    requires 1 <= before <= 4 && 1 <= after <= 4
    ensures var l := [true] + Stretch(before, false) + FinderPattern() + Stretch(after, false) + [true];
            LinePenalty(l, |l|) == if before == 4 || after == 4 then 40 else 0
  {
    hide LinePenalty, Demerits, RunDemerit, Unrun, Stretch, FinderPattern;
    var b: int, a: int := before, after;
    var l := [true] + Stretch(before, false) + FinderPattern() + Stretch(after, false) + [true];
    var runs: seq<int> := [-1, 1, b, 1, 1, 3, 1, 1, a, 1];
    var left: seq<int> := [-1, 1, b];
    UnrunFirst();
    assert Stretch(1, true) == [true] by { OneModule(); }
    UnrunMore([-1], 1); UnrunMore([-1, 1], before);
    assert [-1] + [1] == [-1, 1] && [-1, 1] + [b] == left;
    PatternRuns(left);
    var middle := left + [1, 1, 3, 1, 1];
    UnrunMore(middle, after); UnrunMore(middle + [a], 1);
    assert runs == middle + [a] + [1];
    WholeLine(runs, l);
    TenRuns(runs, b, a);
  }

  lemma OneModule()
    ensures Stretch(1, true) == [true]
  {}

  lemma TenRuns(runs: seq<int>, b: int, a: int)
    requires 1 <= b <= 4 && 1 <= a <= 4 && runs == [-1, 1, b, 1, 1, 3, 1, 1, a, 1]
    ensures Demerits(runs, 10) == if b == 4 || a == 4 then 40 else 0
  {
    hide Demerits;
    NextRun(runs, 0); NextRun(runs, 1); NextRun(runs, 2); NextRun(runs, 3); NextRun(runs, 4);
    NextRun(runs, 5); NextRun(runs, 6); NextRun(runs, 7); NextRun(runs, 8); NextRun(runs, 9);
  }

  /** Four modules of one colour in a square cost 3. */
  lemma BlockRule(f: seq<Byte>)
    requires |f| == 4
    ensures PatternPenalty(f, 2) == if Dark(f[0]) == Dark(f[1]) == Dark(f[2]) == Dark(f[3]) then 3 else 0
  {
    hide Dark;
    ShortLine(RowOf(f, 2, 0)); ShortLine(RowOf(f, 2, 1)); ShortLine(ColumnOf(f, 2, 0)); ShortLine(ColumnOf(f, 2, 1));
    LinesOfTwo(f);
    OneBlock(f);
  }

  lemma LinesOfTwo(f: seq<Byte>)
    requires |f| == 4
    requires LinePenalty(RowOf(f, 2, 0), 2) == 0 && LinePenalty(RowOf(f, 2, 1), 2) == 0
    requires LinePenalty(ColumnOf(f, 2, 0), 2) == 0 && LinePenalty(ColumnOf(f, 2, 1), 2) == 0
    ensures RowsPenalty(f, 2, 2) == 0 && ColumnsPenalty(f, 2, 2) == 0
  {
    hide RowsPenalty, ColumnsPenalty, LinePenalty, RowOf, ColumnOf;
    NextLine(f, 2, 0); NextLine(f, 2, 1);
  }

  lemma NextLine(f: seq<Byte>, w: nat, n: nat)
    requires |f| == w * w && n < w
    ensures RowsPenalty(f, w, n + 1) == RowsPenalty(f, w, n) + LinePenalty(RowOf(f, w, n), w)
    ensures ColumnsPenalty(f, w, n + 1) == ColumnsPenalty(f, w, n) + LinePenalty(ColumnOf(f, w, n), w)
    ensures RowsPenalty(f, w, 0) == 0 && ColumnsPenalty(f, w, 0) == 0
  {
    hide LinePenalty, RowOf, ColumnOf;
  }

  lemma ShortLine(l: seq<bool>)
    requires |l| == 2
    ensures LinePenalty(l, 2) == 0
  {
    assert !Five(l, 0) && !Five(l, 1);
    forall p: nat, m: nat ensures !FinderLike(l, p, m) {
      if FinderLike(l, p, m) { SameAt(l, p + 4 * m, p + 5 * m, true, p + 4 * m); }
    }
    assert LinePenalty(l, 1) == 0;
  }

  lemma OneBlock(f: seq<Byte>)
    requires |f| == 4
    ensures |UniformBlocks(f, 2)| == if Dark(f[0]) == Dark(f[1]) == Dark(f[2]) == Dark(f[3]) then 1 else 0
  {
    var c := Dark(f[0]) == Dark(f[1]) == Dark(f[2]) == Dark(f[3]);
    assert At(f, 2, 0, 0) == f[0] && At(f, 2, 1, 0) == f[1] && At(f, 2, 0, 1) == f[2] && At(f, 2, 1, 1) == f[3];
    assert UniformBlocks(f, 2) == if c then {(1, 1)} else {};
  }

  /** Every five percent away from one half cost 10. */
  lemma BalanceRule(blacks: nat, n: nat, k: nat)
    requires 1 <= n
    ensures var r := DarkRatio(blacks, n);
            Balance(blacks, n) == 10 * k <==> 5 * k <= (if r >= 50 then r - 50 else 50 - r) < 5 * k + 5
  {
    hide DarkRatio;
  }
}
