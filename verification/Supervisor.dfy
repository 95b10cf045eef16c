/** The process supervisor: probing each program with retries, restarting what is gone, powering
    off on zombies and on missing threads. */
module Supervisor {

  const NOT_FOUND := -1
  const ZOMBIE := -2
  const TRIES := 10
  const MAX_ZOMBIES := 5
  const MAX_PROBES := 50

  datatype Program = Program(check: bool, numThread: int)

  /** How the probes of one program end; a power-off ends everything. */
  datatype Outcome = Found(threads: int) | Missing | PowerOff

  // ----- Series of probe results, without a counter -----

  function Zombies(r: seq<int>): nat {
    if r == [] then 0 else Zombies(r[..|r| - 1]) + if r[|r| - 1] == ZOMBIE then 1 else 0
  }

  /** Length of the run of not-found results at the end. */
  function MissesAtEnd(r: seq<int>): (n: nat)
    ensures n <= |r|
    ensures forall k | |r| - n <= k < |r| :: r[k] == NOT_FOUND
    ensures n < |r| ==> r[|r| - n - 1] != NOT_FOUND
  {
    if r == [] || r[|r| - 1] != NOT_FOUND then 0 else MissesAtEnd(r[..|r| - 1]) + 1
  }

  /** Nothing is decided yet: the program has not been found, fewer than five probes hit a zombie,
      and at no point were ten probes in a row without a result. */
  predicate Undecided(r: seq<int>) {
    r == [] ||
    (Undecided(r[..|r| - 1]) && (r[|r| - 1] == NOT_FOUND || r[|r| - 1] == ZOMBIE)
     && Zombies(r) < MAX_ZOMBIES && MissesAtEnd(r) < TRIES)
  }

  /** The last probe is the one that decides. */
  predicate Decided(r: seq<int>) {
    r != [] && Undecided(r[..|r| - 1]) && !Undecided(r)
  }

  function OutcomeOf(r: seq<int>): Outcome
    requires r != []
  {
    var last := r[|r| - 1];
    if last == NOT_FOUND then Missing else if last == ZOMBIE then PowerOff else Found(last)
  }

  lemma {:induction false} UndecidedIsShort(r: seq<int>)
    requires Undecided(r)
    ensures |r| <= 10 * Zombies(r) + MissesAtEnd(r) < 50
    ensures forall k | 0 <= k < |r| :: r[k] == -1 || r[k] == -2
  {
    if r != [] {
      UndecidedIsShort(r[..|r| - 1]);
    }
  }

  lemma {:induction false} ZombiesCounted(r: seq<int>)
    ensures Zombies(r) == multiset(r)[-2]
  {
    if r != [] {
      ZombiesCounted(r[..|r| - 1]);
      assert r == r[..|r| - 1] + [r[|r| - 1]];
    }
  }

  /** A program is given up, and restarted, exactly after ten probes in a row that did not find it. */
  lemma MissingExactlyIf(r: seq<int>)
    requires Decided(r)
    ensures |r| <= 50
    ensures OutcomeOf(r) == Missing <==> |r| >= 10 && forall k | |r| - 10 <= k < |r| :: r[k] == -1
  {
    UndecidedIsShort(r[..|r| - 1]);
    if OutcomeOf(r) == Missing {
      assert MissesAtEnd(r) == TRIES;
    }
  }

  /** ... and the machine is powered off exactly at the fifth zombie. */
  lemma PowerOffExactlyIf(r: seq<int>)
    requires Decided(r)
    ensures OutcomeOf(r) == PowerOff <==> r[|r| - 1] == -2 && multiset(r)[-2] == 5
    ensures OutcomeOf(r) == PowerOff <==> multiset(r)[-2] >= 5
  {
    UndecidedIsShort(r[..|r| - 1]);
    ZombiesCounted(r);
  }

  /** ... and found by any other result. */
  lemma FoundExactlyIf(r: seq<int>)
    requires Decided(r)
    ensures OutcomeOf(r).Found? <==> r[|r| - 1] != -1 && r[|r| - 1] != -2
    ensures OutcomeOf(r).Found? ==> OutcomeOf(r).threads == r[|r| - 1]
  {}

  /** The last probe of a series found the program, hit the fifth zombie or was the tenth miss in a row. */
  predicate Ends(r: seq<int>) {
    r != [] && ((r[|r| - 1] != -1 && r[|r| - 1] != -2) || multiset(r)[-2] >= 5
                || (|r| >= 10 && forall k | |r| - 10 <= k < |r| :: r[k] == -1))
  }

  /** A series is decided by the first probe that does one of the three. */
  lemma DecidedExactlyIf(r: seq<int>)
    ensures Decided(r) <==> Ends(r) && forall n | 0 < n < |r| :: !Ends(r[..n])
  {
    UndecidedExactlyIf(r);
    assert r[..|r|] == r;
    if r != [] {
      var front := r[..|r| - 1];
      UndecidedExactlyIf(front);
      assert forall n | 0 <= n < |r| :: r[..n] == front[..n];
      assert !Ends(r[..0]);
    }
    hide Undecided, Ends;
  }

  lemma {:induction false} UndecidedExactlyIf(r: seq<int>)
    ensures Undecided(r) <==> forall n | 0 <= n <= |r| :: !Ends(r[..n])
  {
    assert r[..|r|] == r;
    if r != [] {
      var front := r[..|r| - 1];
      UndecidedExactlyIf(front);
      assert forall n | 0 <= n < |r| :: r[..n] == front[..n];
      ZombiesCounted(r);
    }
  }

  /** Of all series of results only one beginning is decided, so the outcome is determined. */
  lemma {:induction false} DecidedOnce(r: seq<int>, n: nat)
    requires n < |r| && Decided(r)
    ensures !Decided(r[..n])
  {
    var front := r[..|r| - 1];
    assert r[..n] == front[..n];
    UndecidedPrefix(front, n);
  }

  lemma {:induction false} UndecidedPrefix(r: seq<int>, n: nat)
    requires n <= |r| && Undecided(r)
    ensures Undecided(r[..n])
    decreases |r|
  {
    if n == |r| {
      assert r[..n] == r;
    } else {
      UndecidedPrefix(r[..|r| - 1], n);
      assert r[..|r| - 1][..n] == r[..n];
    }
  }

  lemma OneProbe(r: seq<int>, res: int)
    requires Undecided(r)
    ensures Zombies(r + [res]) == Zombies(r) + if res == ZOMBIE then 1 else 0
    ensures MissesAtEnd(r + [res]) == if res == NOT_FOUND then MissesAtEnd(r) + 1 else 0
    ensures var known := (res == NOT_FOUND || res == ZOMBIE)
                         && Zombies(r + [res]) < MAX_ZOMBIES && MissesAtEnd(r + [res]) < TRIES;
            Undecided(r + [res]) == known && Decided(r + [res]) == !known
    ensures OutcomeOf(r + [res]) == if res == NOT_FOUND then Missing else if res == ZOMBIE then PowerOff else Found(res)
    ensures |r| < MAX_PROBES
  {
    assert (r + [res])[..|r|] == r;
    UndecidedIsShort(r);
  }

  lemma NoProbe()
    ensures Undecided([]) && Zombies([]) == 0 && MissesAtEnd([]) == 0
  {}

  function Results(probe: nat -> int, at: nat, n: nat): (r: seq<int>)
    ensures |r| == n
  {
    seq(n, k requires 0 <= k => probe(at + k))
  }

  lemma EachResult(probe: nat -> int, at: nat, n: nat)
    ensures forall k | 0 <= k < n :: Results(probe, at, n)[k] == probe(at + k)
  {}

  // ----- A sweep over all programs -----

  datatype End = Running | ZombiePowerOff(prog: nat) | ThreadPowerOff(prog: nat)

  /** How a program's probes went: a program that is not checked has none. */
  ghost predicate WellProbed(prog: Program, r: seq<int>, zombie: bool) {
    if prog.check then Decided(r) && (OutcomeOf(r) == PowerOff <==> zombie) else r == [] && !zombie
  }

  /** Only a zombie ends the probing. */
  ghost predicate Probed(progs: seq<Program>, runs: seq<seq<int>>, end: End) {
    && |runs| <= |progs|
    && forall i | 0 <= i < |runs| :: WellProbed(progs[i], runs[i], end == ZombiePowerOff(i))
  }

  predicate GivenUp(r: seq<int>) {
    r != [] && OutcomeOf(r) == Missing
  }

  predicate FirstTry(r: seq<int>) {
    |r| == 1 && OutcomeOf(r).Found?
  }

  predicate AllAtFirstTry(progs: seq<Program>, runs: seq<seq<int>>)
    requires |runs| <= |progs|
  {
    forall i | 0 <= i < |runs| :: progs[i].check ==> FirstTry(runs[i])
  }

  /** The programs that are started again, in order: given up, and their file is there. */
  function Restarts(progs: seq<Program>, fileExists: seq<bool>, runs: seq<seq<int>>): seq<nat>
    requires |runs| <= |progs| <= |fileExists|
  {
    if runs == [] then []
    else
      var i := |runs| - 1;
      Restarts(progs, fileExists, runs[..i]) + if progs[i].check && fileExists[i] && GivenUp(runs[i]) then [i] else []
  }

  function Flat(runs: seq<seq<int>>): seq<int> {
    if runs == [] then [] else Flat(runs[..|runs| - 1]) + runs[|runs| - 1]
  }

  lemma OneMoreRun(progs: seq<Program>, fileExists: seq<bool>, runs: seq<seq<int>>, r: seq<int>)
    requires |runs| < |progs| <= |fileExists|
    ensures var i := |runs|;
            Restarts(progs, fileExists, runs + [r])
            == Restarts(progs, fileExists, runs) + if progs[i].check && fileExists[i] && GivenUp(r) then [i] else []
    ensures Flat(runs + [r]) == Flat(runs) + r
  {
    hide GivenUp;
    assert (runs + [r])[..|runs|] == runs;
  }

  lemma {:induction false} RestartedExactlyIf(progs: seq<Program>, fileExists: seq<bool>, runs: seq<seq<int>>, p: nat)
    requires |runs| <= |progs| <= |fileExists|
    ensures p in Restarts(progs, fileExists, runs)
            <==> p < |runs| && progs[p].check && fileExists[p] && GivenUp(runs[p])
  {
    hide GivenUp;
    if runs != [] {
      RestartedExactlyIf(progs, fileExists, runs[..|runs| - 1], p);
    }
  }

  lemma {:induction false} RestartsInOrder(progs: seq<Program>, fileExists: seq<bool>, runs: seq<seq<int>>)
    requires |runs| <= |progs| <= |fileExists|
    ensures var restarted := Restarts(progs, fileExists, runs);
            forall i, j | 0 <= i < j < |restarted| :: restarted[i] < restarted[j]
  {
    hide GivenUp;
    if runs != [] {
      var last := |runs| - 1;
      var before := Restarts(progs, fileExists, runs[..last]);
      RestartsInOrder(progs, fileExists, runs[..last]);
      forall j | 0 <= j < |before|
        ensures before[j] < last
      {
        RestartedExactlyIf(progs, fileExists, runs[..last], before[j]);
      }
    }
  }

  /** The programs started again are those whose last ten probes all missed them and whose file is there. */
  lemma RestartsExactly(progs: seq<Program>, fileExists: seq<bool>, runs: seq<seq<int>>, end: End)
    requires |runs| <= |progs| <= |fileExists| && Probed(progs, runs, end)
    ensures var restarted := Restarts(progs, fileExists, runs);
            && (forall i, j | 0 <= i < j < |restarted| :: restarted[i] < restarted[j])
            && (forall p: nat :: p in restarted
                  <==> p < |runs| && progs[p].check && fileExists[p]
                       && |runs[p]| >= 10 && forall k | |runs[p]| - 10 <= k < |runs[p]| :: runs[p][k] == -1)
  {
    hide Decided, OutcomeOf, GivenUp, Restarts;
    RestartsInOrder(progs, fileExists, runs);
    forall p: nat
      ensures p in Restarts(progs, fileExists, runs)
              <==> p < |runs| && progs[p].check && fileExists[p] && GivenUp(runs[p])
    {
      RestartedExactlyIf(progs, fileExists, runs, p);
    }
    forall p | 0 <= p < |runs| && progs[p].check
      ensures GivenUp(runs[p])
              <==> |runs[p]| >= 10 && forall k | |runs[p]| - 10 <= k < |runs[p]| :: runs[p][k] == -1
    {
      assert WellProbed(progs[p], runs[p], end == ZombiePowerOff(p));
      GivenUpExactlyIf(runs[p]);
    }
  }

  lemma GivenUpExactlyIf(r: seq<int>)
    requires Decided(r)
    ensures GivenUp(r) <==> |r| >= 10 && forall k | |r| - 10 <= k < |r| :: r[k] == -1
  {
    MissingExactlyIf(r);
    hide Undecided;
  }

  lemma OneMoreProbed(progs: seq<Program>, runs: seq<seq<int>>, r: seq<int>, end: End)
    requires |runs| < |progs| && Probed(progs, runs, Running)
    requires end == Running || end == ZombiePowerOff(|runs|)
    requires WellProbed(progs[|runs|], r, end != Running)
    ensures Probed(progs, runs + [r], end)
    ensures AllAtFirstTry(progs, runs + [r]) <==> AllAtFirstTry(progs, runs) && (progs[|runs|].check ==> FirstTry(r))
  {
    hide WellProbed, FirstTry;
    var all := runs + [r];
    assert all[|runs|] == r;
    assert forall i | 0 <= i < |runs| :: all[i] == runs[i];
  }

  lemma FirstTriesExactly(progs: seq<Program>, runs: seq<seq<int>>, end: End)
    requires |runs| <= |progs| && Probed(progs, runs, end)
    ensures AllAtFirstTry(progs, runs)
            <==> forall p | 0 <= p < |runs| && progs[p].check ::
                   |runs[p]| == 1 && runs[p][0] != -1 && runs[p][0] != -2
  {
    hide Undecided;
  }

  lemma ZombieExactlyIf(progs: seq<Program>, runs: seq<seq<int>>, end: End, p: nat)
    requires p < |runs| <= |progs| && Probed(progs, runs, end)
    ensures if progs[p].check then Decided(runs[p]) else runs[p] == []
    ensures end == ZombiePowerOff(p) <==> multiset(runs[p])[-2] >= 5
    ensures end == ZombiePowerOff(p) ==> |runs[p]| > 1
  {
    hide Undecided;
    assert WellProbed(progs[p], runs[p], end == ZombiePowerOff(p));
    if progs[p].check {
      PowerOffExactlyIf(runs[p]);
      if |runs[p]| == 1 {
        assert runs[p] == [runs[p][0]];
      }
    }
  }

  lemma MoreResults(probe: nat -> int, at: nat, mid: nat, next: nat)
    requires at <= mid <= next
    ensures Results(probe, at, mid - at) + Results(probe, mid, next - mid) == Results(probe, at, next - at)
  {}

  lemma WhatDecided(r: seq<int>)
    requires Decided(r)
    ensures r != [] && (FirstTry(r) <==> |r| == 1 && OutcomeOf(r).Found?) && (GivenUp(r) <==> OutcomeOf(r) == Missing)
    ensures OutcomeOf(r).Found? ==> OutcomeOf(r).threads == r[|r| - 1]
  {}

  class Supervisor {
    const progs: seq<Program>
    const curNumThread: array<int>
    var zombiecnt: int
    var foundFailApps: bool

    ghost predicate Valid()
      reads this
    {
      curNumThread.Length == |progs|
    }

    constructor (progs: seq<Program>)
      ensures Valid() && this.progs == progs && fresh(curNumThread)
    {
      this.progs := progs;
      curNumThread := new int[|progs|](_ => 0);
      zombiecnt, foundFailApps := 0, false;
    }

    /** Probes one program; probe gives the results of all probes, from now on. */
    method ProbeProgram(i: nat, probe: nat -> int, at: nat) returns (outcome: Outcome, next: nat, ghost r: seq<int>)
      requires Valid() && i < |progs|
      modifies `zombiecnt, `foundFailApps, curNumThread
      ensures at < next <= at + 50 && r == Results(probe, at, next - at)
      ensures Decided(r) && outcome == OutcomeOf(r)
      ensures foundFailApps <==> old(foundFailApps) || !FirstTry(r)
      ensures curNumThread[i] == if outcome.Found? then outcome.threads else 0
      ensures forall k | 0 <= k < |progs| && k != i :: curNumThread[k] == old(curNumThread[k])
    {
      hide Undecided, Decided, OutcomeOf, Zombies, MissesAtEnd;
      zombiecnt := 0;
      next, r := at, [];
      NoProbe();
      var chkcnt := TRIES;
      while chkcnt > 0
        invariant 0 <= chkcnt <= TRIES && 0 <= zombiecnt < MAX_ZOMBIES
        invariant at <= next <= at + MAX_PROBES && (chkcnt == 0 ==> at < next) && r == Results(probe, at, next - at)
        invariant if chkcnt > 0 then Undecided(r) else Decided(r) && OutcomeOf(r) == Missing
        invariant zombiecnt == Zombies(r) && MissesAtEnd(r) == TRIES - chkcnt
        invariant chkcnt == 0 ==> curNumThread[i] == 0
        invariant foundFailApps <==> old(foundFailApps) || r != []
        invariant forall k | 0 <= k < |progs| && k != i :: curNumThread[k] == old(curNumThread[k])
        decreases MAX_ZOMBIES - zombiecnt, chkcnt
      {
        chkcnt := chkcnt - 1;
        curNumThread[i] := 0;
        var res := probe(next);
        OneProbe(r, res);
        r, next := r + [res], next + 1;
        if res == NOT_FOUND {
          foundFailApps := true;
        } else if res == ZOMBIE {
          foundFailApps := true;
          zombiecnt := zombiecnt + 1;
          if zombiecnt >= MAX_ZOMBIES {
            return PowerOff, next, r;
          }
          chkcnt := TRIES;
        } else {
          curNumThread[i] := res;
          return Found(res), next, r;
        }
      }
      return Missing, next, r;
    }

    /** The first half of a sweep: probe every checked program, and start again those given up. */
    method ProbeAll(probe: nat -> int, at: nat, fileExists: seq<bool>)
      returns (end: End, next: nat, restarted: seq<nat>, ghost runs: seq<seq<int>>)
      requires Valid() && |fileExists| == |progs|
      modifies `zombiecnt, `foundFailApps, curNumThread
      ensures Probed(progs, runs, end)
      ensures |runs| == if end.ZombiePowerOff? then end.prog + 1 else |progs|
      ensures at <= next <= at + MAX_PROBES * |progs| && Flat(runs) == Results(probe, at, next - at)
      ensures restarted == Restarts(progs, fileExists, runs)
      ensures end == Running || end.ZombiePowerOff?
      ensures end == Running ==> (foundFailApps <==> !AllAtFirstTry(progs, runs))
      ensures end == Running && !foundFailApps ==>
          forall k | 0 <= k < |progs| && progs[k].check :: |runs[k]| == 1 && curNumThread[k] == runs[k][0]
    {
      hide Decided, OutcomeOf, Flat, Results, Probed, FirstTry, GivenUp, Restarts, AllAtFirstTry;
      restarted, foundFailApps, next, runs := [], false, at, [];
      NothingProbed(progs, fileExists, probe, at);
      var i := 0;
      while i < |progs|
        invariant 0 <= i <= |progs| && |runs| == i && Probed(progs, runs, Running)
        invariant at <= next <= at + MAX_PROBES * i && Flat(runs) == Results(probe, at, next - at)
        invariant restarted == Restarts(progs, fileExists, runs)
        invariant foundFailApps <==> !AllAtFirstTry(progs, runs)
        invariant !foundFailApps ==>
            forall k | 0 <= k < i && progs[k].check :: |runs[k]| == 1 && curNumThread[k] == runs[k][0]
      {
        ghost var r := [];
        if progs[i].check {
          var outcome, before := Missing, next;
          outcome, next, r := ProbeProgram(i, probe, next);
          WhatDecided(r);
          MoreResults(probe, at, before, next);
          OneMoreRun(progs, fileExists, runs, r);
          OneMoreProbed(progs, runs, r, if outcome == PowerOff then ZombiePowerOff(i) else Running);
          runs := runs + [r];
          if outcome == PowerOff {
            return ZombiePowerOff(i), next, restarted, runs;
          }
          if outcome == Missing && fileExists[i] {
            restarted := restarted + [i];
          }
        } else {
          OneMoreRun(progs, fileExists, runs, r);
          OneMoreProbed(progs, runs, r, Running);
          runs := runs + [r];
        }
        i := i + 1;
      }
      return Running, next, restarted, runs;
    }

    /** One turn of the supervisor's loop. A program short of threads powers the machine off only if
        every checked program was found by its first probe and the flag file is absent when it is
        looked for; flagFile says what each program's turn would find. */
    method Sweep(probe: nat -> int, at: nat, fileExists: seq<bool>, flagFile: seq<bool>)
      returns (end: End, next: nat, restarted: seq<nat>, ghost runs: seq<seq<int>>)
      requires Valid() && |fileExists| == |flagFile| == |progs|
      modifies `zombiecnt, `foundFailApps, curNumThread
      ensures Probed(progs, runs, end)
      ensures |runs| == if end.ZombiePowerOff? then end.prog + 1 else |progs|
      ensures at <= next <= at + 50 * |progs| && |Flat(runs)| == next - at
      ensures forall k | 0 <= k < next - at :: Flat(runs)[k] == probe(at + k)
      ensures restarted == Restarts(progs, fileExists, runs)
      ensures forall i, j | 0 <= i < j < |restarted| :: restarted[i] < restarted[j]
      ensures forall p: nat ::
          p in restarted
          <==> p < |runs| && progs[p].check && fileExists[p]
               && |runs[p]| >= 10 && forall k | |runs[p]| - 10 <= k < |runs[p]| :: runs[p][k] == -1
      ensures forall p | 0 <= p < |runs| :: if progs[p].check then Decided(runs[p]) else runs[p] == []
      ensures end.ZombiePowerOff? ==> |runs| == end.prog + 1
      ensures forall p: nat | p < |runs| :: end == ZombiePowerOff(p) <==> multiset(runs[p])[-2] >= 5
      ensures end.ThreadPowerOff?
          <==> && (forall p | 0 <= p < |progs| && progs[p].check ::
                     p < |runs| && |runs[p]| == 1 && runs[p][0] != -1 && runs[p][0] != -2)
               && exists p | 0 <= p < |progs| && progs[p].check ::
                    progs[p].numThread != 0 && runs[p][0] < progs[p].numThread && !flagFile[p]
      ensures end.ThreadPowerOff? ==>
          && end.prog < |progs| && progs[end.prog].check && progs[end.prog].numThread != 0
          && runs[end.prog][0] < progs[end.prog].numThread && !flagFile[end.prog]
          && forall p | 0 <= p < end.prog && progs[p].check && progs[p].numThread != 0 && !flagFile[p] ::
               runs[p][0] >= progs[p].numThread
      ensures (forall p | 0 <= p < |progs| && progs[p].check ::
                 && p < |runs| && |runs[p]| == 1 && runs[p][0] != -1 && runs[p][0] != -2
                 && (progs[p].numThread == 0 || runs[p][0] >= progs[p].numThread))
              ==> end == Running
    {
      hide Decided, OutcomeOf, Flat, Results, FirstTry, GivenUp, Restarts, AllAtFirstTry;
      end, next, restarted, runs := ProbeAll(probe, at, fileExists);
      EachResult(probe, at, next - at);
      RestartsExactly(progs, fileExists, runs, end);
      FirstTriesExactly(progs, runs, end);
      forall p: nat | p < |runs|
        ensures if progs[p].check then Decided(runs[p]) else runs[p] == []
        ensures end == ZombiePowerOff(p) <==> multiset(runs[p])[-2] >= 5
        ensures end == ZombiePowerOff(p) ==> |runs[p]| > 1
      {
        ZombieExactlyIf(progs, runs, end, p);
      }
      if end != Running || foundFailApps {
        return;
      }
      var i := 0;
      while i < |progs|
        invariant 0 <= i <= |progs|
        invariant forall p | 0 <= p < i && progs[p].check && progs[p].numThread != 0 && !flagFile[p] ::
            runs[p][0] >= progs[p].numThread
      {
        if progs[i].check && progs[i].numThread != 0 && curNumThread[i] < progs[i].numThread {
          if !flagFile[i] {
            end := ThreadPowerOff(i);
            return;
          }
        }
        i := i + 1;
      }
    }
  }

  lemma NothingProbed(progs: seq<Program>, fileExists: seq<bool>, probe: nat -> int, at: nat)
    requires |progs| <= |fileExists|
    ensures Flat([]) == Results(probe, at, 0) && Probed(progs, [], Running)
    ensures Restarts(progs, fileExists, []) == [] && AllAtFirstTry(progs, [])
  {}
}
