/** The hand-off of one semaphore token between callers and their worker jobs: every interleaving
    of the steps of any number of callers. */
module SemaphoreHandOff {
  /** Where a caller is: before the locker's constructor, holding the token with the job still to be
      spawned or without one, past the spawn, past wait(), or past the locker's destructor. */
  datatype Caller = Before | Holding | Spawned | Returned | Gone

  /** Where its job is: not there yet, queued, past the unlocker's constructor, or past its destructor. */
  datatype Job = NoJob | Queued | Running | Released

  datatype Party = Party(caller: Caller, job: Job)

  datatype State = State(available: int, parties: seq<Party>)

  datatype Action =
    | Lock(i: nat)      // SemaphoreLocker constructor: acquire
    | Spawn(i: nat)     // the job is queued
    | Enter(i: nat)     // SemaphoreUnlocker constructor
    | Leave(i: nat)     // SemaphoreUnlocker destructor: release
    | Wait(i: nat)      // SemaphoreLocker.wait: acquire
    | Unlock(i: nat)    // SemaphoreLocker destructor: release

  /** A semaphore of one, and n callers. */
  function Init(n: nat): State { State(1, seq(n, _ => Party(Before, NoJob))) }

  predicate Enabled(s: State, a: Action) {
    && a.i < |s.parties|
    && var p := s.parties[a.i];
    match a
    case Lock(_) => p.caller == Before && s.available >= 1
    case Spawn(_) => p.caller == Holding
    case Enter(_) => p.job == Queued
    case Leave(_) => p.job == Running
    case Wait(_) => p.caller == Spawned && s.available >= 1
    case Unlock(_) => p.caller == Holding || p.caller == Returned
  }

  function Next(s: State, a: Action): State
    requires Enabled(s, a)
  {
    var p := s.parties[a.i];
    match a
    case Lock(i) => State(s.available - 1, s.parties[i := p.(caller := Holding)])
    case Spawn(i) => State(s.available, s.parties[i := Party(Spawned, Queued)])
    case Enter(i) => State(s.available, s.parties[i := p.(job := Running)])
    case Leave(i) => State(s.available + 1, s.parties[i := p.(job := Released)])
    case Wait(i) => State(s.available - 1, s.parties[i := p.(caller := Returned)])
    case Unlock(i) => State(s.available + 1, s.parties[i := p.(caller := Gone)])
  }

  /** The assertion that the code checks at a step. */
  predicate Asserted(s: State, a: Action) {
    a.Enter? || a.Leave? || a.Unlock? ==> s.available == 0
  }

  /** The state after a run; none if a step of it was not possible. */
  datatype Outcome = Stuck | Reached(state: State)

  function Execute(s: State, run: seq<Action>): Outcome {
    if run == [] then Reached(s)
    else
      var n := |run| - 1;
      match Execute(s, run[..n])
      case Stuck => Stuck
      case Reached(t) => if Enabled(t, run[n]) then Reached(Next(t, run[n])) else Stuck
  }

  // ---- The token ----

  /** Whether the caller or its job may touch the wallet. */
  function Tokens(p: Party): nat {
    (if p.caller == Holding || p.caller == Returned then 1 else 0) + (if p.job == Queued || p.job == Running then 1 else 0)
  }

  function Holders(ps: seq<Party>): nat {
    if ps == [] then 0 else Holders(ps[..|ps| - 1]) + Tokens(ps[|ps| - 1])
  }

  predicate Consistent(p: Party) {
    match p.caller
    case Before => p.job == NoJob
    case Holding => p.job == NoJob
    case Spawned => p.job != NoJob
    case Returned => p.job == Released
    case Gone => p.job == NoJob || p.job == Released
  }

  /** Exactly one token: it is available, or one party holds it. */
  predicate Inv(s: State) {
    && s.available >= 0 && s.available + Holders(s.parties) == 1
    && forall i :: 0 <= i < |s.parties| ==> Consistent(s.parties[i])
  }

  lemma {:induction false} HoldersUpdate(ps: seq<Party>, i: nat, p: Party)
    requires i < |ps|
    ensures Holders(ps[i := p]) + Tokens(ps[i]) == Holders(ps) + Tokens(p)
    ensures Tokens(ps[i]) <= Holders(ps)
  {
    hide Tokens;
    var n := |ps| - 1;
    if i == n {
      assert ps[i := p][..n] == ps[..n];
    } else {
      assert ps[i := p][..n] == ps[..n][i := p];
      HoldersUpdate(ps[..n], i, p);
    }
  }

  lemma {:induction false} InitInv(n: nat)
    ensures Inv(Init(n))
  {
    if n > 0 {
      InitInv(n - 1);
      assert Init(n).parties[..n - 1] == Init(n - 1).parties;
    }
  }

  lemma NextInv(s: State, a: Action)
    requires Inv(s) && Enabled(s, a)
    ensures Asserted(s, a) && Inv(Next(s, a))
  {
    HoldersUpdate(s.parties, a.i, Next(s, a).parties[a.i]);
    hide Holders;
    assert s.parties[a.i := Next(s, a).parties[a.i]] == Next(s, a).parties;
  }

  /** In every run, from the start to any point of it, there is exactly one token, and the
      assertion of every step holds. */
  lemma {:induction false} RunSafe(n: nat, run: seq<Action>)
    requires Execute(Init(n), run).Reached?
    ensures Inv(Execute(Init(n), run).state)
    ensures forall k :: 0 <= k < |run| ==>
              Execute(Init(n), run[..k]).Reached? && Asserted(Execute(Init(n), run[..k]).state, run[k])
  {
    hide Inv, Enabled, Next, Asserted;
    if run == [] {
      InitInv(n);
    } else {
      var m := |run| - 1;
      RunSafe(n, run[..m]);
      NextInv(Execute(Init(n), run[..m]).state, run[m]);
      forall k | 0 <= k < |run|
        ensures Execute(Init(n), run[..k]).Reached? && Asserted(Execute(Init(n), run[..k]).state, run[k])
      {
        if k < m { assert run[..m][..k] == run[..k] && run[..m][k] == run[k]; }
      }
    }
  }

  /** No two parties hold the token at once, and no party together with its own job. */
  lemma MutualExclusion(n: nat, run: seq<Action>, i: nat, j: nat)
    requires Execute(Init(n), run).Reached?
    requires var s := Execute(Init(n), run).state;
             i < |s.parties| && j < |s.parties| && Tokens(s.parties[i]) >= 1 && Tokens(s.parties[j]) >= 1
    ensures i == j && Tokens(Execute(Init(n), run).state.parties[i]) == 1
    ensures Execute(Init(n), run).state.available == 0
  {
    RunSafe(n, run);
    var s := Execute(Init(n), run).state;
    HoldersUpdate(s.parties, i, Party(Before, NoJob));
    if i != j { HoldersUpdate(s.parties[i := Party(Before, NoJob)], j, Party(Before, NoJob)); }
  }

  // ---- wait() returns after the caller's own job ----

  /** What the run so far tells about a party. */
  lemma {:induction false} History(n: nat, run: seq<Action>, i: nat)
    requires Execute(Init(n), run).Reached? && i < n
    ensures var s := Execute(Init(n), run).state;
            && |s.parties| == n
            && (s.parties[i].job == Released ==> Leave(i) in run)
            && (s.parties[i].job != NoJob ==> Spawn(i) in run)
            && (s.parties[i].caller != Before ==> Lock(i) in run)
  {
    if run != [] {
      var m := |run| - 1;
      History(n, run[..m], i);
      assert forall a :: a in run[..m] ==> a in run;
    }
  }

  /** When a caller's wait() succeeds, its own job has released the token before. */
  lemma WaitAfterOwnJob(n: nat, run: seq<Action>, k: nat)
    requires Execute(Init(n), run).Reached? && k < |run| && run[k].Wait?
    ensures Leave(run[k].i) in run[..k] && Lock(run[k].i) in run[..k]
  {
    hide Enabled, Next, Inv, Asserted;
    Prefix(n, run, k + 1); Prefix(n, run, k);
    assert run[..k + 1][..k] == run[..k];
    var t := Execute(Init(n), run[..k]).state;
    assert Enabled(t, run[k]);
    hide Execute;
    RunSafe(n, run[..k]);
    PartyCount(n, run[..k]);
    WaitServed(t, run[k]);
    History(n, run[..k], run[k].i);
  }

  /** A caller that can go on from wait() has a job that is done. */
  lemma WaitServed(t: State, a: Action)
    requires Inv(t) && a.Wait? && Enabled(t, a)
    ensures a.i < |t.parties| && t.parties[a.i].job == Released && t.parties[a.i].caller == Spawned
  {
    hide Holders;
    HoldersUpdate(t.parties, a.i, t.parties[a.i]);
    assert Consistent(t.parties[a.i]);
  }

  lemma {:induction false} PartyCount(n: nat, run: seq<Action>)
    requires Execute(Init(n), run).Reached?
    ensures |Execute(Init(n), run).state.parties| == n
  {
    if run != [] { PartyCount(n, run[..|run| - 1]); }
  }

  lemma {:induction false} Prefix(n: nat, run: seq<Action>, k: nat)
    requires Execute(Init(n), run).Reached? && k <= |run|
    ensures Execute(Init(n), run[..k]).Reached?
    decreases |run|
  {
    hide Enabled, Next;
    if k == |run| {
      assert run[..k] == run;
    } else {
      Prefix(n, run[..|run| - 1], k);
      assert run[..|run| - 1][..k] == run[..k];
    }
  }

  // ---- Runs go on to the end ----

  lemma Then(s: State, run: seq<Action>, t: State, a: Action, u: State)
    requires Execute(s, run) == Reached(t) && Enabled(t, a) && Next(t, a) == u
    ensures Execute(s, run + [a]) == Reached(u)
  {
    hide Enabled, Next;
    assert (run + [a])[..|run|] == run;
  }

  /** Where a caller and its job stand. */
  function With(s: State, available: int, i: nat, caller: Caller, job: Job): State
    requires i < |s.parties|
  {
    State(available, s.parties[i := Party(caller, job)])
  }

  lemma Steps(s: State, i: nat)
    requires i < |s.parties| && s.available == 1 && s.parties[i] == Party(Before, NoJob)
    ensures Enabled(s, Lock(i)) && Next(s, Lock(i)) == With(s, 0, i, Holding, NoJob)
    ensures var t := With(s, 0, i, Holding, NoJob);
            Enabled(t, Spawn(i)) && Next(t, Spawn(i)) == With(s, 0, i, Spawned, Queued)
    ensures var t := With(s, 0, i, Spawned, Queued);
            Enabled(t, Enter(i)) && Next(t, Enter(i)) == With(s, 0, i, Spawned, Running)
    ensures var t := With(s, 0, i, Spawned, Running);
            Enabled(t, Leave(i)) && Next(t, Leave(i)) == With(s, 1, i, Spawned, Released)
    ensures var t := With(s, 1, i, Spawned, Released);
            Enabled(t, Wait(i)) && Next(t, Wait(i)) == With(s, 0, i, Returned, Released)
    ensures var t := With(s, 0, i, Returned, Released);
            Enabled(t, Unlock(i)) && Next(t, Unlock(i)) == With(s, 1, i, Gone, Released)
    ensures var t := With(s, 0, i, Holding, NoJob); Enabled(t, Unlock(i)) && Next(t, Unlock(i)) == With(s, 1, i, Gone, NoJob)
  {}

  /** The ordinary run of a caller, whenever the token is available: lock, start the job, which enters
      and leaves, wait for it, and unlock. Afterwards the token is available again. */
  lemma OrdinaryRun(s: State, i: nat)
    requires i < |s.parties| && s.available == 1 && s.parties[i] == Party(Before, NoJob)
    ensures Execute(s, [Lock(i), Spawn(i), Enter(i), Leave(i), Wait(i), Unlock(i)])
         == Reached(State(1, s.parties[i := Party(Gone, Released)]))
  {
    Steps(s, i);
    assert Execute(s, []) == Reached(s);
    hide Execute, Enabled, Next;
    Then(s, [], s, Lock(i), With(s, 0, i, Holding, NoJob));
    assert [] + [Lock(i)] == [Lock(i)];
    Then(s, [Lock(i)], With(s, 0, i, Holding, NoJob), Spawn(i), With(s, 0, i, Spawned, Queued));
    assert [Lock(i)] + [Spawn(i)] == [Lock(i), Spawn(i)];
    Then(s, [Lock(i), Spawn(i)], With(s, 0, i, Spawned, Queued), Enter(i), With(s, 0, i, Spawned, Running));
    assert [Lock(i), Spawn(i)] + [Enter(i)] == [Lock(i), Spawn(i), Enter(i)];
    Then(s, [Lock(i), Spawn(i), Enter(i)], With(s, 0, i, Spawned, Running), Leave(i), With(s, 1, i, Spawned, Released));
    assert [Lock(i), Spawn(i), Enter(i)] + [Leave(i)] == [Lock(i), Spawn(i), Enter(i), Leave(i)];
    Then(s, [Lock(i), Spawn(i), Enter(i), Leave(i)], With(s, 1, i, Spawned, Released), Wait(i), With(s, 0, i, Returned, Released));
    assert [Lock(i), Spawn(i), Enter(i), Leave(i)] + [Wait(i)] == [Lock(i), Spawn(i), Enter(i), Leave(i), Wait(i)];
    Then(s, [Lock(i), Spawn(i), Enter(i), Leave(i), Wait(i)], With(s, 0, i, Returned, Released), Unlock(i), With(s, 1, i, Gone, Released));
    assert [Lock(i), Spawn(i), Enter(i), Leave(i), Wait(i)] + [Unlock(i)]
        == [Lock(i), Spawn(i), Enter(i), Leave(i), Wait(i), Unlock(i)];
  }

  /** A caller without a job only locks and unlocks. */
  lemma ShortRun(s: State, i: nat)
    requires i < |s.parties| && s.available == 1 && s.parties[i] == Party(Before, NoJob)
    ensures Execute(s, [Lock(i), Unlock(i)]) == Reached(State(1, s.parties[i := Party(Gone, NoJob)]))
  {
    Steps(s, i);
    assert Execute(s, []) == Reached(s);
    hide Execute, Enabled, Next;
    Then(s, [], s, Lock(i), With(s, 0, i, Holding, NoJob));
    assert [] + [Lock(i)] == [Lock(i)];
    Then(s, [Lock(i)], With(s, 0, i, Holding, NoJob), Unlock(i), With(s, 1, i, Gone, NoJob));
    assert [Lock(i)] + [Unlock(i)] == [Lock(i), Unlock(i)];
  }

  lemma {:induction false} SomeHolder(ps: seq<Party>) returns (i: nat)
    requires Holders(ps) >= 1
    ensures i < |ps| && Tokens(ps[i]) >= 1
  {
    hide Tokens;
    var n := |ps| - 1;
    if Tokens(ps[n]) >= 1 { i := n; } else { i := SomeHolder(ps[..n]); }
  }

  lemma {:induction false} NoHolder(ps: seq<Party>)
    requires Holders(ps) == 0
    ensures forall i :: 0 <= i < |ps| ==> Tokens(ps[i]) == 0
  {
    hide Tokens;
    if ps != [] { NoHolder(ps[..|ps| - 1]); }
  }

  /** As long as a caller has not finished, some step is possible. */
  lemma Progress(n: nat, run: seq<Action>, i: nat) returns (a: Action)
    requires Execute(Init(n), run).Reached? && i < n
    ensures |Execute(Init(n), run).state.parties| == n
    ensures Execute(Init(n), run).state.parties[i].caller != Gone ==> Enabled(Execute(Init(n), run).state, a)
  {
    RunSafe(n, run);
    PartyCount(n, run);
    var s := Execute(Init(n), run).state;
    hide Execute;
    if s.available == 0 {
      var k := SomeHolder(s.parties);
      var p := s.parties[k];
      a := if p.caller == Holding || p.caller == Returned then Unlock(k) else if p.job == Queued then Enter(k) else Leave(k);
    } else {
      var p := s.parties[i];
      a := if p.caller == Before then Lock(i) else if p.caller == Spawned then Wait(i) else Unlock(i);
    }
  }

  /** The number of steps that a party has done. */
  function Done(p: Party): nat {
    (match p.caller case Before => 0 case Holding => 1 case Spawned => 2 case Returned => 3 case Gone => 4)
    + (match p.job case NoJob => 0 case Queued => 0 case Running => 1 case Released => 2)
  }

  function AllDone(ps: seq<Party>): nat {
    if ps == [] then 0 else AllDone(ps[..|ps| - 1]) + Done(ps[|ps| - 1])
  }

  lemma {:induction false} DoneUpdate(ps: seq<Party>, i: nat, p: Party)
    requires i < |ps|
    ensures AllDone(ps[i := p]) + Done(ps[i]) == AllDone(ps) + Done(p)
  {
    hide Done;
    var n := |ps| - 1;
    if i == n {
      assert ps[i := p][..n] == ps[..n];
    } else {
      assert ps[i := p][..n] == ps[..n][i := p];
      DoneUpdate(ps[..n], i, p);
    }
  }

  lemma {:induction false} DoneBound(ps: seq<Party>)
    ensures AllDone(ps) <= 6 * |ps|
  {
    if ps != [] { DoneBound(ps[..|ps| - 1]); }
  }

  lemma StepDone(s: State, a: Action)
    requires Inv(s) && Enabled(s, a)
    ensures AllDone(Next(s, a).parties) > AllDone(s.parties)
  {
    hide AllDone, Holders;
    var p := Next(s, a).parties[a.i];
    assert s.parties[a.i := p] == Next(s, a).parties;
    DoneUpdate(s.parties, a.i, p);
    assert Consistent(s.parties[a.i]);
  }

  lemma {:induction false} StepsDone(n: nat, run: seq<Action>)
    requires Execute(Init(n), run).Reached?
    ensures AllDone(Execute(Init(n), run).state.parties) >= |run|
  {
    hide Inv, Enabled, Next, AllDone;
    if run != [] {
      var m := |run| - 1;
      StepsDone(n, run[..m]);
      RunSafe(n, run[..m]);
      StepDone(Execute(Init(n), run[..m]).state, run[m]);
    }
  }

  /** No run has more than six steps for each caller. */
  lemma RunBounded(n: nat, run: seq<Action>)
    requires Execute(Init(n), run).Reached?
    ensures |run| <= 6 * n
  {
    StepsDone(n, run);
    PartyCount(n, run);
    DoneBound(Execute(Init(n), run).state.parties);
  }

  /** A run that cannot go on has served every caller, and the token is available. */
  lemma RunCompletes(n: nat, run: seq<Action>)
    requires Execute(Init(n), run).Reached?
    requires forall a :: !Enabled(Execute(Init(n), run).state, a)
    ensures var s := Execute(Init(n), run).state;
            s.available == 1 && |s.parties| == n && forall i :: 0 <= i < n ==> s.parties[i].caller == Gone
  {
    PartyCount(n, run);
    RunSafe(n, run);
    var s := Execute(Init(n), run).state;
    forall i: nat | i < n ensures s.parties[i].caller == Gone {
      var a := Progress(n, run, i);
    }
    hide Execute;
    if s.available == 0 {
      var k := SomeHolder(s.parties);
    }
  }
}
