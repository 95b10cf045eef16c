/** The edge detector: a polling loop that compares each pin's value with the last one it saw and
    calls back on the edges the pin was configured for. */
module GpioEvents {

  const MAX_CNT := 5
  const POLL_TIMEOUT := 30000
  const LOW := 0
  const HIGH := 1

  datatype Edge = NoEdge | Rising | Falling | Both

  datatype PinInfo = PinInfo(num: int, val: int, edge: Edge)

  /** A call of the callback, and the pin of the table it was made for. */
  datatype Call = Call(pin: nat, event: PinInfo)

  datatype Reading = Failed | Value(v: int)

  /** What the kernel answers in one turn of the loop: the result of poll, the pins it flags, and
      what reading each pin would give. */
  datatype Round = Round(rc: int, ready: seq<bool>, readings: seq<Reading>)

  predicate Covers(r: Round, cnt: nat) {
    |r.ready| >= cnt && |r.readings| >= cnt
  }

  predicate AllCover(rounds: seq<Round>) {
    forall j | 0 <= j < |rounds| :: Covers(rounds[j], 5)
  }

  // ----- What is to be reported, from a pin's values alone -----

  function EdgeBetween(pin: PinInfo, last: int, cur: int): (e: seq<PinInfo>)
    ensures |e| <= 1
  {
    if last == LOW && cur == HIGH && (pin.edge == Rising || pin.edge == Both) then
      [PinInfo(pin.num, cur, Rising)]
    else if last == HIGH && cur == LOW && (pin.edge == Falling || pin.edge == Both) then
      [PinInfo(pin.num, cur, Falling)]
    else []
  }

  function LastOf(initial: int, values: seq<int>): int {
    if values == [] then initial else values[|values| - 1]
  }

  function Edges(pin: PinInfo, initial: int, values: seq<int>): seq<PinInfo> {
    if values == [] then []
    else
      var front := values[..|values| - 1];
      Edges(pin, initial, front) + EdgeBetween(pin, LastOf(initial, front), values[|values| - 1])
  }

  /** The value a turn reads from a pin, if it reads one: every pin in the first turn, a flagged
      pin in the others. */
  function SampleOf(round: Round, first: bool, i: nat): (s: seq<int>)
    requires Covers(round, i + 1)
  {
    if round.rc > 0 && (first || round.ready[i]) && round.readings[i].Value? then [round.readings[i].v] else []
  }

  function Samples(rounds: seq<Round>, i: nat): seq<int>
    requires i < MAX_CNT && AllCover(rounds)
  {
    if rounds == [] then []
    else
      var last := rounds[|rounds| - 1];
      Samples(rounds[..|rounds| - 1], i) + SampleOf(last, |rounds| == 1, i)
  }

  lemma OneMoreInRow(at: seq<nat>, n: nat)
    requires forall a, b | 0 <= a < b < |at| :: at[a] < at[b]
    requires forall b | 0 <= b < |at| :: at[b] < n
    ensures var more := at + [n]; forall a, b | 0 <= a < b < |more| :: more[a] < more[b]
    ensures at + [] == at
  {}

  // Which readings these are.

  /** The turns that read the pin. */
  function Turns(rounds: seq<Round>, i: nat): seq<nat>
    requires i < 5 && AllCover(rounds)
  {
    if rounds == [] then []
    else
      var n := |rounds| - 1;
      Turns(rounds[..n], i) + if SampleOf(rounds[n], n == 0, i) == [] then [] else [n]
  }

  lemma {:induction false} TurnExactlyIf(rounds: seq<Round>, i: nat, j: nat)
    requires i < 5 && AllCover(rounds)
    ensures j in Turns(rounds, i) <==> j < |rounds| && SampleOf(rounds[j], j == 0, i) != []
  {
    hide SampleOf;
    if rounds != [] {
      TurnExactlyIf(rounds[..|rounds| - 1], i, j);
    }
  }

  lemma {:induction false} TurnsInOrder(rounds: seq<Round>, i: nat)
    requires i < 5 && AllCover(rounds)
    ensures var at := Turns(rounds, i);
            forall a, b | 0 <= a < b < |at| :: at[a] < at[b]
  {
    hide SampleOf;
    if rounds != [] {
      var n := |rounds| - 1;
      var before := Turns(rounds[..n], i);
      TurnsInOrder(rounds[..n], i);
      forall b | 0 <= b < |before|
        ensures before[b] < n
      {
        TurnExactlyIf(rounds[..n], i, before[b]);
      }
      OneMoreInRow(before, n);
    }
  }

  lemma {:induction false} SampleOfTurn(rounds: seq<Round>, i: nat, k: nat)
    requires i < 5 && AllCover(rounds) && k < |Turns(rounds, i)|
    ensures var j := Turns(rounds, i)[k];
            && |Samples(rounds, i)| == |Turns(rounds, i)| && j < |rounds|
            && SampleOf(rounds[j], j == 0, i) == [Samples(rounds, i)[k]]
  {
    var n := |rounds| - 1;
    SamplesAndTurns(rounds[..n], i);
    if k < |Turns(rounds[..n], i)| {
      SampleOfTurn(rounds[..n], i, k);
    }
  }

  lemma {:induction false} SamplesAndTurns(rounds: seq<Round>, i: nat)
    requires i < 5 && AllCover(rounds)
    ensures |Samples(rounds, i)| == |Turns(rounds, i)|
  {
    if rounds != [] {
      SamplesAndTurns(rounds[..|rounds| - 1], i);
    }
  }

  /** The samples are the values read in those turns in which poll reports something, the pin is flagged
      or the turn is the first, and the read succeeds; in all of them, and in order. */
  lemma SamplesAre(rounds: seq<Round>, i: nat) returns (at: seq<nat>)
    requires i < 5 && AllCover(rounds)
    ensures |at| == |Samples(rounds, i)| && forall a, b | 0 <= a < b < |at| :: at[a] < at[b]
    ensures forall j: nat ::
              j in at <==> && j < |rounds| && rounds[j].rc > 0 && rounds[j].readings[i].Value?
                           && (j == 0 || rounds[j].ready[i])
    ensures forall k | 0 <= k < |at| :: at[k] in at && Samples(rounds, i)[k] == rounds[at[k]].readings[i].v
  {
    hide Turns, Samples;
    at := Turns(rounds, i);
    SamplesAndTurns(rounds, i);
    TurnsInOrder(rounds, i);
    forall j: nat
      ensures j in at <==> j < |rounds| && SampleOf(rounds[j], j == 0, i) != []
    {
      TurnExactlyIf(rounds, i, j);
    }
    forall k | 0 <= k < |at|
      ensures at[k] in at && rounds[at[k]].readings[i].v == Samples(rounds, i)[k]
    {
      SampleOfTurn(rounds, i, k);
    }
  }

  /** Where no later turn flags the pin, only the first turn reads it. */
  lemma {:induction false} OnlyTheFirst(rounds: seq<Round>, i: nat)
    requires i < 5 && AllCover(rounds) && rounds != [] && rounds[0].rc > 0
    requires forall j | 1 <= j < |rounds| :: !rounds[j].ready[i]
    ensures Samples(rounds, i) == if rounds[0].readings[i].Value? then [rounds[0].readings[i].v] else []
  {
    var n := |rounds| - 1;
    if n > 0 {
      OnlyTheFirst(rounds[..n], i);
    } else {
      assert Samples(rounds[..0], i) == [];
    }
  }

  /** The events of one pin among all calls. */
  function CallsOf(calls: seq<Call>, i: nat): seq<PinInfo> {
    if calls == [] then []
    else
      var last := calls[|calls| - 1];
      CallsOf(calls[..|calls| - 1], i) + if last.pin == i then [last.event] else []
  }

  lemma {:induction false} CallsOfMore(calls: seq<Call>, more: seq<Call>, i: nat)
    ensures CallsOf(calls + more, i) == CallsOf(calls, i) + CallsOf(more, i)
  {
    if more == [] {
      assert calls + more == calls;
    } else {
      var n := |more| - 1;
      CallsOfMore(calls, more[..n], i);
      assert (calls + more)[..|calls + more| - 1] == calls + more[..n];
    }
  }

  function Tagged(pin: nat, events: seq<PinInfo>): (c: seq<Call>)
    ensures |c| == |events|
  {
    seq(|events|, i requires 0 <= i < |events| => Call(pin, events[i]))
  }

  lemma {:induction false} CallsOfTagged(pin: nat, events: seq<PinInfo>, i: nat)
    ensures CallsOf(Tagged(pin, events), i) == if pin == i then events else []
    decreases |events|
  {
    if events != [] {
      var n := |events| - 1;
      CallsOfTagged(pin, events[..n], i);
      assert Tagged(pin, events)[..n] == Tagged(pin, events[..n]);
    }
  }

  /** The calls of one turn for the first n pins, in the order of the table. */
  function TurnCalls(info: seq<PinInfo>, last: seq<int>, round: Round, first: bool, n: nat): seq<Call>
    requires n <= |info| && n <= |last| && Covers(round, n)
  {
    if n == 0 then []
    else
      TurnCalls(info, last, round, first, n - 1)
      + Tagged(n - 1, Edges(info[n - 1], last[n - 1], SampleOf(round, first, n - 1)))
  }

  lemma NextPin(info: seq<PinInfo>, last: seq<int>, round: Round, first: bool, n: nat)
    requires n <= |info| && n <= |last| && Covers(round, n)
    ensures TurnCalls(info, last, round, first, n)
         == if n == 0 then []
            else TurnCalls(info, last, round, first, n - 1)
                 + Tagged(n - 1, Edges(info[n - 1], last[n - 1], SampleOf(round, first, n - 1)))
  {}

  lemma EdgesOfOne(pin: PinInfo, last: int, cur: int)
    ensures Edges(pin, last, [cur]) == EdgeBetween(pin, last, cur) && Edges(pin, last, []) == []
  {
    assert [cur][..0] == [];
    assert [] + EdgeBetween(pin, last, cur) == EdgeBetween(pin, last, cur);
  }

  // Which events these are.

  /** The values that make the pin report an edge. */
  function Steps(pin: PinInfo, initial: int, values: seq<int>): seq<nat> {
    if values == [] then []
    else
      var n := |values| - 1;
      Steps(pin, initial, values[..n])
      + if EdgeBetween(pin, LastOf(initial, values[..n]), values[n]) == [] then [] else [n]
  }

  lemma {:induction false} StepExactlyIf(pin: PinInfo, initial: int, values: seq<int>, j: nat)
    ensures j in Steps(pin, initial, values)
            <==> && j < |values|
                 && EdgeBetween(pin, if j == 0 then initial else values[j - 1], values[j]) != []
  {
    hide EdgeBetween;
    if values != [] {
      StepExactlyIf(pin, initial, values[..|values| - 1], j);
    }
  }

  lemma {:induction false} StepsInOrder(pin: PinInfo, initial: int, values: seq<int>)
    ensures var at := Steps(pin, initial, values);
            forall a, b | 0 <= a < b < |at| :: at[a] < at[b]
  {
    hide EdgeBetween;
    if values != [] {
      var n := |values| - 1;
      var before := Steps(pin, initial, values[..n]);
      StepsInOrder(pin, initial, values[..n]);
      forall b | 0 <= b < |before|
        ensures before[b] < n
      {
        StepExactlyIf(pin, initial, values[..n], before[b]);
      }
      OneMoreInRow(before, n);
    }
  }

  lemma {:induction false} EdgesAndSteps(pin: PinInfo, initial: int, values: seq<int>)
    ensures |Edges(pin, initial, values)| == |Steps(pin, initial, values)|
  {
    if values != [] {
      EdgesAndSteps(pin, initial, values[..|values| - 1]);
    }
  }

  lemma {:induction false} EdgeOfStep(pin: PinInfo, initial: int, values: seq<int>, k: nat)
    requires k < |Steps(pin, initial, values)|
    ensures var j := Steps(pin, initial, values)[k];
            && |Edges(pin, initial, values)| == |Steps(pin, initial, values)| && j < |values|
            && EdgeBetween(pin, if j == 0 then initial else values[j - 1], values[j])
               == [Edges(pin, initial, values)[k]]
  {
    hide EdgeBetween;
    var n := |values| - 1;
    EdgesAndSteps(pin, initial, values[..n]);
    if k < |Steps(pin, initial, values[..n])| {
      EdgeOfStep(pin, initial, values[..n], k);
    }
  }

  lemma EdgeIs(pin: PinInfo, last: int, cur: int)
    ensures EdgeBetween(pin, last, cur) != []
            <==> || (last == 0 && cur == 1 && (pin.edge == Rising || pin.edge == Both))
                 || (last == 1 && cur == 0 && (pin.edge == Falling || pin.edge == Both))
    ensures EdgeBetween(pin, last, cur) != [] ==>
              EdgeBetween(pin, last, cur) == [PinInfo(pin.num, cur, if cur == 1 then Rising else Falling)]
  {}

  /** The events are one for every step from 0 to 1 or back that the pin is configured for, in order. */
  lemma EdgesAre(pin: PinInfo, initial: int, values: seq<int>) returns (at: seq<nat>)
    ensures |at| == |Edges(pin, initial, values)| && forall a, b | 0 <= a < b < |at| :: at[a] < at[b]
    ensures 0 in at <==> && values != []
                         && (|| (initial == 0 && values[0] == 1 && (pin.edge == Rising || pin.edge == Both))
                             || (initial == 1 && values[0] == 0 && (pin.edge == Falling || pin.edge == Both)))
    ensures forall j: nat | j > 0 ::
              j in at
              <==> && j < |values|
                   && (|| (values[j - 1] == 0 && values[j] == 1 && (pin.edge == Rising || pin.edge == Both))
                       || (values[j - 1] == 1 && values[j] == 0 && (pin.edge == Falling || pin.edge == Both)))
    ensures forall k | 0 <= k < |at| ::
              && at[k] < |values|
              && Edges(pin, initial, values)[k]
                 == PinInfo(pin.num, values[at[k]], if values[at[k]] == 1 then Rising else Falling)
  {
    hide Edges, Steps, EdgeBetween;
    at := Steps(pin, initial, values);
    EdgesAndSteps(pin, initial, values);
    StepsInOrder(pin, initial, values);
    forall j: nat
      ensures j in at <==> && j < |values|
                           && EdgeBetween(pin, if j == 0 then initial else values[j - 1], values[j]) != []
    {
      StepExactlyIf(pin, initial, values, j);
    }
    StepExactlyIf(pin, initial, values, 0);
    if values != [] {
      EdgeIs(pin, initial, values[0]);
    }
    forall j: nat | 0 < j < |values| {
      EdgeIs(pin, values[j - 1], values[j]);
    }
    forall k | 0 <= k < |at|
      ensures at[k] < |values|
      ensures Edges(pin, initial, values)[k]
           == PinInfo(pin.num, values[at[k]], if values[at[k]] == 1 then Rising else Falling)
    {
      EdgeOfStep(pin, initial, values, k);
    }
  }

  predicate InTableOrder(calls: seq<Call>, n: nat) {
    && (forall a, b | 0 <= a < b < |calls| :: calls[a].pin < calls[b].pin)
    && (forall a | 0 <= a < |calls| :: calls[a].pin < n)
  }

  lemma {:induction false} TurnInTableOrder(info: seq<PinInfo>, last: seq<int>, round: Round, first: bool, n: nat)
    requires n <= |info| && n <= |last| && Covers(round, n)
    ensures InTableOrder(TurnCalls(info, last, round, first, n), n)
  {
    hide TurnCalls, Edges, SampleOf, Tagged;
    NextPin(info, last, round, first, n);
    if n > 0 {
      TurnInTableOrder(info, last, round, first, n - 1);
      AtMostOneEdge(info[n - 1], last[n - 1], round, first, n - 1);
      OneMoreInOrder(TurnCalls(info, last, round, first, n - 1), n - 1,
                     Edges(info[n - 1], last[n - 1], SampleOf(round, first, n - 1)));
    }
  }

  /** The calls of a turn are in the order of the table, at most one for a pin. */
  lemma TurnInOrder(info: seq<PinInfo>, last: seq<int>, round: Round, first: bool, n: nat, a: nat, b: nat)
    requires n <= |info| && n <= |last| && Covers(round, n)
    requires a < b < |TurnCalls(info, last, round, first, n)|
    ensures TurnCalls(info, last, round, first, n)[a].pin < TurnCalls(info, last, round, first, n)[b].pin < n
  {
    TurnInTableOrder(info, last, round, first, n);
    hide TurnCalls;
  }

  lemma OneMoreInOrder(calls: seq<Call>, pin: nat, events: seq<PinInfo>)
    requires InTableOrder(calls, pin) && |events| <= 1
    ensures InTableOrder(calls + Tagged(pin, events), pin + 1)
  {}

  lemma AtMostOneEdge(pin: PinInfo, last: int, round: Round, first: bool, i: nat)
    requires Covers(round, i + 1)
    ensures |Edges(pin, last, SampleOf(round, first, i))| <= 1
  {
    var s := SampleOf(round, first, i);
    if s == [] {
      assert Edges(pin, last, []) == [];
    } else {
      EdgesOfOne(pin, last, s[0]);
    }
  }

  lemma WhatIsSampled(pin: PinInfo, last: int, round: Round, first: bool, i: nat)
    requires Covers(round, i + 1) && round.rc > 0
    ensures SampleOf(round, first, i)
         == if (first || round.ready[i]) && round.readings[i].Value? then [round.readings[i].v] else []
    ensures Edges(pin, last, []) == [] && Tagged(i, []) == [] && LastOf(last, []) == last
  {}

  lemma NothingSampled(last: seq<int>, round: Round, first: bool, n: nat)
    requires n <= |last| && Covers(round, n) && round.rc <= 0
    ensures forall i | 0 <= i < n :: LastOf(last[i], SampleOf(round, first, i)) == last[i]
  {}

  /** What a turn adds to the history of each pin. */
  lemma {:induction false} TurnHistory(info: seq<PinInfo>, last: seq<int>, round: Round, first: bool, n: nat, i: nat)
    requires n <= |info| && n <= |last| && Covers(round, n)
    ensures CallsOf(TurnCalls(info, last, round, first, n), i)
         == if i < n then Edges(info[i], last[i], SampleOf(round, first, i)) else []
  {
    hide Edges, SampleOf, Tagged;
    if n > 0 {
      var k := n - 1;
      var events := Edges(info[k], last[k], SampleOf(round, first, k));
      TurnHistory(info, last, round, first, k, i);
      CallsOfTagged(k, events, i);
      CallsOfMore(TurnCalls(info, last, round, first, k), Tagged(k, events), i);
    }
  }

  lemma {:induction false} NoCalls(info: seq<PinInfo>, last: seq<int>, round: Round, first: bool, n: nat)
    requires n <= |info| && n <= |last| && Covers(round, n) && round.rc <= 0
    ensures TurnCalls(info, last, round, first, n) == []
  {
    if n > 0 {
      NoCalls(info, last, round, first, n - 1);
    }
  }

  class Manager {
    var info: seq<PinInfo>
    const lastVal: array<int>
    var cnt: nat
    var hasCallback: bool
    var calls: seq<Call>  // the callback's history

    ghost predicate Valid()
      reads this
    {
      cnt <= MAX_CNT && |info| == cnt && lastVal.Length == MAX_CNT
    }

    constructor ()
      ensures Valid() && cnt == 0 && fresh(lastVal)
    {
      info, cnt, hasCallback, calls := [], 0, false, [];
      lastVal := new int[MAX_CNT](_ => 0);
    }

    /** Takes over the pins up to a terminator, five at most. */
    method Start(evtRet: seq<PinInfo>, hasCallback: bool)
      requires Valid()
      requires |evtRet| >= 5 || exists k | 0 <= k < |evtRet| :: evtRet[k].num == -1
      modifies this, lastVal
      ensures Valid() && this.hasCallback == hasCallback && calls == [] && cnt <= |evtRet|
      ensures info == evtRet[..cnt] && (forall k | 0 <= k < cnt :: evtRet[k].num != -1)
      ensures cnt <= 5 && (cnt == 5 || evtRet[cnt].num == -1)
      ensures forall k | 0 <= k < cnt :: lastVal[k] == evtRet[k].val
    {
      forall i | 0 <= i < MAX_CNT {
        lastVal[i] := 0;
      }
      info, cnt, calls := [], 0, [];
      var i := 0;
      while i < MAX_CNT
        invariant 0 <= i <= MAX_CNT && cnt == i <= |evtRet| && Valid() && calls == []
        invariant info == evtRet[..i] && forall k | 0 <= k < i :: evtRet[k].num != -1
        invariant forall k | 0 <= k < i :: lastVal[k] == evtRet[k].val
      {
        if evtRet[i].num == -1 {
          break;
        }
        info := info + [evtRet[i]];
        lastVal[i] := info[i].val;
        cnt := cnt + 1;
        i := i + 1;
      }
      this.hasCallback := hasCallback;
    }

    method Report(pin: nat, event: PinInfo)
      modifies `calls
      ensures calls == old(calls) + if hasCallback then Tagged(pin, [event]) else []
    {
      if hasCallback {
        calls := calls + [Call(pin, event)];
      }
    }

    /** One pin in one turn. */
    method CheckPin(i: nat, reading: Reading)
      requires Valid() && i < cnt
      modifies `calls, lastVal
      ensures var sample := if reading.Value? then [reading.v] else [];
              && lastVal[i] == LastOf(old(lastVal[i]), sample)
              && calls == old(calls) + if hasCallback then Tagged(i, Edges(info[i], old(lastVal[i]), sample)) else []
      ensures forall k | 0 <= k < MAX_CNT && k != i :: lastVal[k] == old(lastVal[k])
    {
      if reading.Failed? {
        return;
      }
      var cur := reading.v;
      EdgesOfOne(info[i], lastVal[i], cur);
      if lastVal[i] == cur {
        return;
      }
      if lastVal[i] == LOW && cur == HIGH {
        if info[i].edge == Rising || info[i].edge == Both {
          Report(i, PinInfo(info[i].num, cur, Rising));
        }
      }
      if lastVal[i] == HIGH && cur == LOW {
        if info[i].edge == Falling || info[i].edge == Both {
          Report(i, PinInfo(info[i].num, cur, Falling));
        }
      }
      lastVal[i] := cur;
    }

    /** What a turn of the loop has done to a pin: its last value and its history. */
    ghost predicate PinAfter(i: nat, last: int, history: seq<PinInfo>, sample: seq<int>)
      requires Valid() && i < cnt
      reads this, lastVal
    {
      && lastVal[i] == LastOf(last, sample)
      && CallsOf(calls, i) == history + if hasCallback then Edges(info[i], last, sample) else []
    }

    /** The body of the loop over pins. */
    method VisitPin(i: nat, round: Round, timeout: int)
      requires Valid() && i < cnt && Covers(round, cnt) && round.rc > 0
      modifies `calls, lastVal
      ensures var sample := SampleOf(round, timeout == 0, i);
              && lastVal[i] == LastOf(old(lastVal[i]), sample)
              && calls == old(calls) + if hasCallback then Tagged(i, Edges(info[i], old(lastVal[i]), sample)) else []
      ensures forall k | 0 <= k < MAX_CNT && k != i :: lastVal[k] == old(lastVal[k])
    {
      WhatIsSampled(info[i], lastVal[i], round, timeout == 0, i);
      hide Edges, SampleOf, Tagged;
      if round.ready[i] || timeout == 0 {
        CheckPin(i, round.readings[i]);
      }
    }

    method PollOnce(round: Round, timeout: int) returns (next: int)
      requires Valid() && Covers(round, cnt)
      modifies `calls, lastVal
      ensures next == 30000
      ensures calls == old(calls)
          + if hasCallback then TurnCalls(info, old(lastVal[..]), round, timeout == 0, cnt) else []
      ensures forall i | 0 <= i < cnt :: lastVal[i] == LastOf(old(lastVal[i]), SampleOf(round, timeout == 0, i))
    {
      hide Edges, Tagged, LastOf, SampleOf, EdgeBetween, TurnCalls;
      ghost var last, first := lastVal[..], timeout == 0;
      if round.rc <= 0 {
        NoCalls(info, last, round, first, cnt);
        NothingSampled(last, round, first, cnt);
        return POLL_TIMEOUT;
      }
      ghost var more: seq<Call> := [];
      NextPin(info, last, round, first, 0);
      var i := 0;
      while i < cnt
        invariant 0 <= i <= cnt && calls == old(calls) + more
        invariant more == if hasCallback then TurnCalls(info, last, round, first, i) else []
        invariant forall k | 0 <= k < cnt ::
            lastVal[k] == if k < i then LastOf(last[k], SampleOf(round, first, k)) else last[k]
      {
        NextPin(info, last, round, first, i + 1);
        VisitPin(i, round, timeout);
        more := more + if hasCallback then Tagged(i, Edges(info[i], last[i], SampleOf(round, first, i))) else [];
        i := i + 1;
      }
      return POLL_TIMEOUT;
    }

    /** The next turn of a run, for all pins: initial and past are the values and the calls before the run. */
    method NextTurn(rounds: seq<Round>, j: nat, timeout: int, ghost initial: seq<int>, ghost past: seq<Call>)
      returns (next: int)
      requires Valid() && AllCover(rounds) && j < |rounds| && timeout == (if j == 0 then 0 else POLL_TIMEOUT)
      requires |initial| == MAX_CNT
      requires forall i | 0 <= i < cnt :: PinAfter(i, initial[i], CallsOf(past, i), Samples(rounds[..j], i))
      modifies `calls, lastVal
      ensures next == POLL_TIMEOUT
      ensures forall i | 0 <= i < cnt :: PinAfter(i, initial[i], CallsOf(past, i), Samples(rounds[..j + 1], i))
    {
      hide CallsOf, Edges, SampleOf, TurnCalls;
      ghost var before, last := calls, lastVal[..];
      next := PollOnce(rounds[j], timeout);
      forall i | 0 <= i < cnt
        ensures PinAfter(i, initial[i], CallsOf(past, i), Samples(rounds[..j + 1], i))
      {
        assert rounds[..j + 1][..j] == rounds[..j];
        TurnHistory(info, last, rounds[j], j == 0, cnt, i);
        CallsOfMore(before, if hasCallback then TurnCalls(info, last, rounds[j], j == 0, cnt) else [], i);
        EdgesInTwoParts(info[i], initial[i], Samples(rounds[..j], i), SampleOf(rounds[j], j == 0, i));
        NoSamples(info[i], initial[i], rounds, i);
      }
    }

    /** The polling thread over any number of turns: whatever the pattern of timeouts, flags and
        failed reads, each pin's history grows by the edges of the values read from it. */
    method Monitor(rounds: seq<Round>)
      requires Valid() && AllCover(rounds)
      modifies `calls, lastVal
      ensures forall i | 0 <= i < cnt ::
          && lastVal[i] == LastOf(old(lastVal[i]), Samples(rounds, i))
          && CallsOf(calls, i) == old(CallsOf(calls, i))
                                  + if hasCallback then Edges(info[i], old(lastVal[i]), Samples(rounds, i)) else []
      ensures rounds != [] && rounds[0].rc > 0 ==>
          forall i | 0 <= i < cnt && forall j | 1 <= j < |rounds| :: !rounds[j].ready[i] ::
            match rounds[0].readings[i]
            case Failed => lastVal[i] == old(lastVal[i]) && CallsOf(calls, i) == old(CallsOf(calls, i))
            case Value(v) =>
              && lastVal[i] == v
              && CallsOf(calls, i) == old(CallsOf(calls, i)) +
                   if !hasCallback then []
                   else if old(lastVal[i]) == 0 && v == 1 && (info[i].edge == Rising || info[i].edge == Both) then
                     [PinInfo(info[i].num, 1, Rising)]
                   else if old(lastVal[i]) == 1 && v == 0 && (info[i].edge == Falling || info[i].edge == Both) then
                     [PinInfo(info[i].num, 0, Falling)]
                   else []
    {
      hide CallsOf, Edges, SampleOf, TurnCalls, Samples;
      ghost var initial, past := lastVal[..], calls;
      forall i | 0 <= i < cnt {
        NoSamples(info[i], lastVal[i], rounds, i);
      }
      var timeout, j := 0, 0;
      while j < |rounds|
        invariant 0 <= j <= |rounds| && timeout == if j == 0 then 0 else POLL_TIMEOUT
        invariant forall i | 0 <= i < cnt :: PinAfter(i, initial[i], CallsOf(past, i), Samples(rounds[..j], i))
      {
        timeout := NextTurn(rounds, j, timeout, initial, past);
        j := j + 1;
      }
      assert rounds[..|rounds|] == rounds;
      if rounds != [] && rounds[0].rc > 0 {
        forall i | 0 <= i < cnt && forall j | 1 <= j < |rounds| :: !rounds[j].ready[i]
          ensures Samples(rounds, i) == if rounds[0].readings[i].Value? then [rounds[0].readings[i].v] else []
          ensures Edges(info[i], old(lastVal[i]), []) == []
          ensures rounds[0].readings[i].Value? ==>
              Edges(info[i], old(lastVal[i]), [rounds[0].readings[i].v])
              == EdgeBetween(info[i], old(lastVal[i]), rounds[0].readings[i].v)
        {
          OnlyTheFirst(rounds, i);
          EdgesOfOne(info[i], old(lastVal[i]), if rounds[0].readings[i].Value? then rounds[0].readings[i].v else 0);
        }
      }
    }
  }

  lemma NoSamples(pin: PinInfo, initial: int, rounds: seq<Round>, i: nat)
    requires i < MAX_CNT
    ensures Samples(rounds[..0], i) == [] && Edges(pin, initial, []) == [] && CallsOf([], i) == []
  {}

  lemma {:induction false} EdgesInTwoParts(pin: PinInfo, initial: int, a: seq<int>, b: seq<int>)
    ensures Edges(pin, initial, a + b) == Edges(pin, initial, a) + Edges(pin, LastOf(initial, a), b)
    ensures LastOf(initial, a + b) == LastOf(LastOf(initial, a), b)
    decreases |b|
  {
    hide EdgeBetween;
    if b == [] {
      assert a + b == a;
    } else {
      var n := |b| - 1;
      EdgesInTwoParts(pin, initial, a, b[..n]);
      assert (a + b)[..|a + b| - 1] == a + b[..n];
    }
  }

  // ----- What the histories look like -----

  predicate Binary(initial: int, values: seq<int>) {
    (initial == 0 || initial == 1) && forall i | 0 <= i < |values| :: values[i] == 0 || values[i] == 1
  }

  /** Changes from one value to the next, counted without looking at edges. */
  function Changes(initial: int, values: seq<int>): nat {
    if values == [] then 0
    else
      var front := values[..|values| - 1];
      Changes(initial, front) + if LastOf(initial, front) != values[|values| - 1] then 1 else 0
  }

  /** A pin that reports both edges reports every change, rising and falling by turns. */
  lemma {:induction false} BothEdgesAlternate(pin: PinInfo, initial: int, values: seq<int>)
    requires pin.edge == Both && Binary(initial, values)
    ensures var e := Edges(pin, initial, values);
            && |e| == Changes(initial, values)
            && LastOf(initial, values) == (if |e| % 2 == 0 then initial else 1 - initial)
            && forall k | 0 <= k < |e| ::
                 e[k] == (if (k % 2 == 0) == (initial == 0) then PinInfo(pin.num, 1, Rising)
                          else PinInfo(pin.num, 0, Falling))
  {
    if values != [] {
      BothEdgesAlternate(pin, initial, values[..|values| - 1]);
    }
  }

  function Count(e: seq<PinInfo>, kind: Edge): nat {
    if e == [] then 0 else Count(e[..|e| - 1], kind) + if e[|e| - 1].edge == kind then 1 else 0
  }

  lemma CountMore(e: seq<PinInfo>, more: seq<PinInfo>, kind: Edge)
    requires |more| <= 1
    ensures Count(e + more, kind) == Count(e, kind) + if more != [] && more[0].edge == kind then 1 else 0
  {
    if more == [] {
      assert e + more == e;
    } else {
      assert (e + more)[..|e|] == e;
    }
  }

  /** Rises minus falls is the last value minus the first. */
  lemma {:induction false} RisesMinusFalls(pin: PinInfo, initial: int, values: seq<int>)
    requires pin.edge == Both && Binary(initial, values)
    ensures var e := Edges(pin, initial, values);
            Count(e, Rising) - Count(e, Falling) == LastOf(initial, values) - initial
  {
    if values != [] {
      var front, last := values[..|values| - 1], values[|values| - 1];
      RisesMinusFalls(pin, initial, front);
      CountMore(Edges(pin, initial, front), EdgeBetween(pin, LastOf(initial, front), last), Rising);
      CountMore(Edges(pin, initial, front), EdgeBetween(pin, LastOf(initial, front), last), Falling);
    }
  }

  function Selected(e: seq<PinInfo>, kind: Edge): seq<PinInfo> {
    if e == [] then []
    else Selected(e[..|e| - 1], kind) + if kind == Both || e[|e| - 1].edge == kind then [e[|e| - 1]] else []
  }

  lemma SelectedMore(e: seq<PinInfo>, more: seq<PinInfo>, kind: Edge)
    requires |more| <= 1
    ensures Selected(e + more, kind)
         == Selected(e, kind) + if more != [] && (kind == Both || more[0].edge == kind) then more else []
  {
    if more == [] {
      assert e + more == e;
    } else {
      assert (e + more)[..|e|] == e && [more[0]] == more;
    }
  }

  /** A pin configured for one edge, or for none, reports exactly the edges of that kind that it
      would report among others if it were configured for both. */
  lemma {:induction false} ConfiguredEdges(pin: PinInfo, initial: int, values: seq<int>)
    ensures Edges(pin, initial, values) == Selected(Edges(pin.(edge := Both), initial, values), pin.edge)
  {
    if values != [] {
      var front, last := values[..|values| - 1], values[|values| - 1];
      ConfiguredEdges(pin, initial, front);
      var both := pin.(edge := Both);
      SelectedMore(Edges(both, initial, front), EdgeBetween(both, LastOf(initial, front), last), pin.edge);
    }
  }

  predicate Constant(initial: int, values: seq<int>) {
    forall i | 0 <= i < |values| :: values[i] == initial
  }

  lemma {:induction false} NoMoreEdgesThanChanges(pin: PinInfo, initial: int, values: seq<int>)
    ensures |Edges(pin, initial, values)| <= Changes(initial, values)
  {
    if values != [] {
      NoMoreEdgesThanChanges(pin, initial, values[..|values| - 1]);
    }
  }

  lemma {:induction false} AllReportedOnlyIf(pin: PinInfo, initial: int, values: seq<int>)
    requires pin.edge == Both && |Edges(pin, initial, values)| == Changes(initial, values)
    ensures Binary(initial, values) || Constant(initial, values)
  {
    if values != [] {
      var front := values[..|values| - 1];
      NoMoreEdgesThanChanges(pin, initial, front);
      AllReportedOnlyIf(pin, initial, front);
      assert forall i | 0 <= i < |front| :: values[i] == front[i];
    }
  }

  lemma {:induction false} ConstantHasNoChanges(initial: int, values: seq<int>)
    requires Constant(initial, values)
    ensures Changes(initial, values) == 0 && LastOf(initial, values) == initial
  {
    if values != [] {
      ConstantHasNoChanges(initial, values[..|values| - 1]);
    }
  }

  /** A pin on both edges reports every change exactly if all its values are 0 and 1, the initial one
      its owner gave it included, or it never changes at all. */
  lemma EveryChangeIsReportedExactlyIf(pin: PinInfo, initial: int, values: seq<int>)
    requires pin.edge == Both
    ensures |Edges(pin, initial, values)| == Changes(initial, values)
            <==> Binary(initial, values) || Constant(initial, values)
  {
    NoMoreEdgesThanChanges(pin, initial, values);
    if |Edges(pin, initial, values)| == Changes(initial, values) {
      AllReportedOnlyIf(pin, initial, values);
    } else if Binary(initial, values) {
      BothEdgesAlternate(pin, initial, values);
    } else if Constant(initial, values) {
      ConstantHasNoChanges(initial, values);
    }
  }

  /** A pin started with another value than 0 or 1 loses its first change, whatever is read. */
  lemma FirstChangeLost(pin: PinInfo, initial: int, value: int)
    requires initial != 0 && initial != 1 && value != initial
    ensures Edges(pin, initial, [value]) == [] && Changes(initial, [value]) == 1
  {
    EdgesOfOne(pin, initial, value);
    assert [value][..0] == [];
  }
}
