/** The traffic policer: every source may send one packet per `frequency` on average, with bursts bounded by BQ. */
module Policer {
  import opened Bytes
  import opened Packet
  import opened FlowKey
  import opened Efsm
  import opened TableIndex
  import opened Engine
  import opened Runs
  import opened Tables

  /** The burst budget and the time one packet costs, in microseconds. */
  const BQ: nat := 0xffa0
  const FREQUENCY: nat := 0x40

  const INIT: nat := 0
  const ESTABLISHED: nat := 1

  const NOW: Operand := Field(Timestamp)

  const CONDITIONS: seq<Condition> := [
    Condition(NOW, Register(0), LessEq),
    Condition(Register(0), NOW, Less),
    Condition(NOW, Register(1), LessEq),
    Condition(NOW, Register(1), Greater)
  ]

  /** Sets the budget, opens the window around the packet and forwards it. */
  const START: seq<Action> := [
    Assign(Global(0), Sum, Constant(BQ), Constant(0)),
    Assign(Global(1), Sum, Constant(FREQUENCY), Constant(0)),
    Assign(Local(0), Minus, NOW, GlobalRegister(0)),
    Assign(Local(1), Sum, NOW, GlobalRegister(1)),
    Send(1)
  ]

  /** Moves the window by one packet and forwards. */
  const MOVE: seq<Action> := [
    Assign(Local(0), Sum, Register(0), GlobalRegister(1)),
    Assign(Local(1), Sum, Register(1), GlobalRegister(1)),
    Send(1)
  ]

  /** Opens the window anew around the packet and forwards. */
  const RESTART: seq<Action> := [
    Assign(Local(0), Minus, NOW, GlobalRegister(0)),
    Assign(Local(1), Sum, NOW, GlobalRegister(1)),
    Send(1)
  ]

  const ROWS: seq<Row> := [
    Row(INIT, DONT_CARES, START, ESTABLISHED, NULL_STAGE),
    Row(INIT, DONT_CARES, [], INIT, NULL_STAGE),
    Row(INIT, DONT_CARES, [], INIT, NULL_STAGE),
    Row(ESTABLISHED, DONT_CARES[0 := IsTrue], [Send(0)], ESTABLISHED, NULL_STAGE),
    Row(ESTABLISHED, DONT_CARES[1 := IsTrue][2 := IsTrue], MOVE, ESTABLISHED, NULL_STAGE),
    Row(ESTABLISHED, DONT_CARES[3 := IsTrue], RESTART, ESTABLISHED, NULL_STAGE)
  ]

  const PROGRAM: Program := Program(CONDITIONS, ROWS, KeySpec([Ipv4Src], 0), INIT)

  /** Times far enough from the end of the 64-bit clock, which counts microseconds. */
  predicate InTime(v: View) { v.timestamp < HALF64 - 0x2_0000 }

  // ---------------------------------------------------------------- one packet

  /** The budget registers have their values. */
  predicate Budgeted(global: Registers) { global[0] == BQ && global[1] == FREQUENCY }

  /** The window of a flow, [Tmin, Tmax], is always as wide as the budget and one packet together. */
  predicate Window(f: Flow, tmin: int) {
    f.state == ESTABLISHED && f.local[0] == tmin && f.local[1] == tmin + BQ + FREQUENCY
    && -HALF64 < tmin < HALF64 - 0x2_0000 + FREQUENCY
  }

  /** Three actions in a row: two assignments to local registers and a transmission. */
  lemma TwoAndSend(actions: seq<Action>, at: nat, c: Context, o1: Opcode, a1: Operand, b1: Operand, x1: int,
                   o2: Opcode, a2: Operand, b2: Operand, x2: int)
    requires ValidView(c.view) && |actions| == at + 3
    requires actions[at] == Assign(Local(0), o1, a1, b1) && actions[at + 1] == Assign(Local(1), o2, a2, b2)
    requires actions[at + 2] == Send(1)
    requires Compute(o1, Load(a1, c, c.reg1), Load(b1, c, c.reg2)) == Some(x1)
    requires a1 != NoOperand && b1 != NoOperand && a2 in {Register(1), NOW} && b2.GlobalRegister?
    requires Compute(o2, Load(a2, c, 0), Load(b2, c, 0)) == Some(x2)
    ensures var d := Execute(actions[at..], c);
      d.Some? && d.value.view == c.view && d.value.destroy == c.destroy && d.value.global == c.global &&
      d.value.local == c.local[0 := x1][1 := x2] && d.value.sent == c.sent + [0]
  {
    hide Perform, Loaded, Compute, Load, Execute;
    Assigned(Local(0), o1, a1, b1, c, x1);
    var c1 := Perform(actions[at].kind, Loaded(actions[at], c)).value;
    LoadedLater(a2, c, c1);
    LoadedLater(b2, c, c1);
    Assigned(Local(1), o2, a2, b2, c1, x2);
    var c2 := Perform(actions[at + 1].kind, Loaded(actions[at + 1], c1)).value;
    Sent(c2, 1);
    var c3 := Perform(actions[at + 2].kind, Loaded(actions[at + 2], c2)).value;
    ExecuteFrom(actions, at, c);
    ExecuteFrom(actions, at + 1, c1);
    ExecuteFrom(actions, at + 2, c2);
    assert actions[at + 3..] == [];
    NothingLeft(c3);
  }

  lemma NothingLeft(c: Context)
    requires ValidView(c.view)
    ensures Execute([], c) == Some(c)
  {
  }

  /** Writing the first register does not change what the other operands are. */
  lemma LoadedLater(a: Operand, c: Context, d: Context)
    requires ValidView(c.view) && d.view == c.view && d.global == c.global && d.local[1] == c.local[1]
    requires a in {Register(1), NOW} || a.GlobalRegister?
    ensures forall x, y :: Load(a, d, x) == Load(a, c, y)
  {
  }

  /** The first packet of a flow sets the budget, opens the window and is forwarded. */
  lemma Starts(local: Registers, global: Registers, v: View)
    requires ValidView(v) && InTime(v)
    ensures var c := Execute(START, Started(local, global, v));
      c.Some? && !c.value.destroy && c.value.sent == [0] && c.value.global == global[0 := BQ][1 := FREQUENCY] &&
        c.value.view == v &&
      c.value.local == local[0 := v.timestamp - BQ][1 := v.timestamp + FREQUENCY]
  {
    hide Perform, Loaded;
    var c0 := Started(local, global, v);
    Assigned(Global(0), Sum, Constant(BQ), Constant(0), c0, BQ);
    var c1 := Perform(START[0].kind, Loaded(START[0], c0)).value;
    Assigned(Global(1), Sum, Constant(FREQUENCY), Constant(0), c1, FREQUENCY);
    var c2 := Perform(START[1].kind, Loaded(START[1], c1)).value;
    ExecuteFrom(START, 0, c0);
    ExecuteFrom(START, 1, c1);
    TwoAndSend(START, 2, c2, Minus, NOW, GlobalRegister(0), v.timestamp - BQ, Sum, NOW, GlobalRegister(1),
      v.timestamp + FREQUENCY);
    assert START[0..] == START;
  }

  lemma Moves(local: Registers, global: Registers, v: View)
    requires ValidView(v) && InTime(v) && Budgeted(global)
    requires -HALF64 <= local[0] < HALF64 - FREQUENCY && -HALF64 <= local[1] < HALF64 - FREQUENCY
    ensures var c := Execute(MOVE, Started(local, global, v));
      c.Some? && !c.value.destroy && c.value.sent == [0] && c.value.global == global && c.value.view == v &&
      c.value.local == local[0 := local[0] + FREQUENCY][1 := local[1] + FREQUENCY]
  {
    var c := Started(local, global, v);
    TwoAndSend(MOVE, 0, c, Sum, Register(0), GlobalRegister(1), local[0] + FREQUENCY, Sum, Register(1),
      GlobalRegister(1), local[1] + FREQUENCY);
    assert MOVE[0..] == MOVE;
  }

  lemma Restarts(local: Registers, global: Registers, v: View)
    requires ValidView(v) && InTime(v) && Budgeted(global)
    ensures var c := Execute(RESTART, Started(local, global, v));
      c.Some? && !c.value.destroy && c.value.sent == [0] && c.value.global == global && c.value.view == v &&
      c.value.local == local[0 := v.timestamp - BQ][1 := v.timestamp + FREQUENCY]
  {
    var c := Started(local, global, v);
    TwoAndSend(RESTART, 0, c, Minus, NOW, GlobalRegister(0), v.timestamp - BQ, Sum, NOW, GlobalRegister(1),
      v.timestamp + FREQUENCY);
    assert RESTART[0..] == RESTART;
  }

  lemma Drops(local: Registers, global: Registers, v: View)
    requires ValidView(v)
    ensures var c := Execute([Send(0)], Started(local, global, v));
      c.Some? && !c.value.destroy && c.value.sent == [] && c.value.global == global && c.value.view == v &&
        c.value.local == local
  {
    var c := Started(local, global, v);
    Sent(c, 0);
    assert [Send(0)][0..] == [Send(0)];
    ExecuteFrom([Send(0)], 0, c);
  }

  /** The four conditions, for a packet at time `now`. */
  lemma Conditions(local: Registers, global: Registers, v: View)
    requires ValidView(v) && InTime(v)
    ensures var r := EvaluateAll(CONDITIONS, local, global, v);
      |r| == 4 && (r[0] == IsTrue <==> v.timestamp <= local[0]) && (r[1] == IsTrue <==> local[0] < v.timestamp) &&
      (r[2] == IsTrue <==> v.timestamp <= local[1]) && (r[3] == IsTrue <==> local[1] < v.timestamp)
  {
    hide EvaluateAll;
    var r := EvaluateAll(CONDITIONS, local, global, v);
    assert forall i :: 0 <= i < 4 ==> r[i] == Evaluate(CONDITIONS[i], local, global, v);
  }

  lemma {:induction false} Fitting(r: seq<Outcome>)
    requires |r| == 4 && forall i :: 0 <= i < 4 ==> r[i] != DontCare
    ensures Fits(ROWS[0], r)
    ensures Fits(ROWS[3], r) <==> r[0] == IsTrue
    ensures Fits(ROWS[4], r) <==> r[1] == IsTrue && r[2] == IsTrue
    ensures Fits(ROWS[5], r) <==> r[3] == IsTrue
  {
  }

  /** Which row a packet takes. */
  lemma {:induction false} RowOf(state: nat, r: seq<Outcome>)
    requires |r| == 4 && state in {INIT, ESTABLISHED} && forall i :: 0 <= i < 4 ==> r[i] != DontCare
    ensures FirstMatch(ROWS, state, r)
         == if state == INIT then Some(ROWS[0])
            else if r[0] == IsTrue then Some(ROWS[3])
            else if r[1] == IsTrue && r[2] == IsTrue then Some(ROWS[4])
            else if r[3] == IsTrue then Some(ROWS[5]) else None
  {
    hide Fits, FirstMatch;
    assert ROWS[0..] == ROWS && ROWS[6..] == [];
    Fitting(r);
    NoRows(state, r);
    FirstMatchFrom(ROWS, 0, state, r);
    FirstMatchFrom(ROWS, 1, state, r);
    FirstMatchFrom(ROWS, 2, state, r);
    FirstMatchFrom(ROWS, 3, state, r);
    FirstMatchFrom(ROWS, 4, state, r);
    FirstMatchFrom(ROWS, 5, state, r);
  }

  // ---------------------------------------------------------------- the window

  /** Where the window of a flow starts after a packet at time `now`. */
  function Next(tmin: int, now: int): int {
    if now <= tmin then tmin else if now <= tmin + BQ + FREQUENCY then tmin + FREQUENCY else now - BQ
  }

  /** The first packet of a flow: it is forwarded and opens the window. */
  lemma FirstPacket(global: Registers, v: View)
    requires ValidView(v) && InTime(v)
    ensures var r := Step(PROGRAM, FreshFlow(PROGRAM), global, v);
      r.Some? && r.value.sent == [0] && r.value.flow.Some? && Window(r.value.flow.value, v.timestamp - BQ) &&
        Budgeted(r.value.global)
  {
    hide EvaluateAll, FirstMatch, Execute;
    Conditions(ZERO_REGISTERS, global, v);
    RowOf(INIT, EvaluateAll(CONDITIONS, ZERO_REGISTERS, global, v));
    Starts(ZERO_REGISTERS, global, v);
  }

  /** Every later packet: it is dropped exactly when it comes no later than Tmin. */
  lemma LaterPacket(f: Flow, global: Registers, v: View, tmin: int)
    requires ValidView(v) && InTime(v) && Budgeted(global) && Window(f, tmin)
    ensures var r := Step(PROGRAM, f, global, v);
      r.Some? && r.value.sent == (if v.timestamp <= tmin then [] else [0]) && r.value.flow.Some?
      && Window(r.value.flow.value, Next(tmin, v.timestamp)) && Budgeted(r.value.global)
  {
    hide EvaluateAll, FirstMatch, Execute;
    Conditions(f.local, global, v);
    RowOf(ESTABLISHED, EvaluateAll(CONDITIONS, f.local, global, v));
    Drops(f.local, global, v);
    Moves(f.local, global, v);
    Restarts(f.local, global, v);
  }

  // ---------------------------------------------------------------- runs

  /** The times at which packets of a flow were forwarded. */
  function Forwarded(trace: Trace, verdicts: seq<Verdict>, k: Key): seq<int>
    requires |trace| == |verdicts|
  {
    if trace == [] then []
    else
      (if trace[0].key == k && verdicts[0].sent != [] then [trace[0].view.timestamp] else [])
      + Forwarded(trace[1..], verdicts[1..], k)
  }

  predicate AllInTime(trace: Trace) { forall i :: 0 <= i < |trace| ==> InTime(trace[i].view) }

  /** Any two forwards bound the number of those between them. */
  predicate RateBound(times: seq<int>) {
    forall i, j :: 0 <= i < j < |times| ==> (j - i - 1) * FREQUENCY < times[j] - times[i] + BQ
  }

  /** The window lies where the forwards so far put it: after any of them by the cost of the later ones, but
      never a packet's cost past the last. */
  predicate Tracks(tmin: int, times: seq<int>) {
    times != [] && tmin < times[|times| - 1] + FREQUENCY &&
    forall i :: 0 <= i < |times| ==> times[i] - BQ + (|times| - 1 - i) * FREQUENCY <= tmin
  }

  /** The time up to which packets are dropped, after forwards at some times: each one moves it on by its cost, and it
      is never further behind the last forward than the budget. */
  function Floor(times: seq<int>): int
    requires times != []
  {
    var last := times[|times| - 1] - BQ;
    if |times| == 1 then last
    else
      var before := Floor(times[..|times| - 1]) + FREQUENCY;
      if before < last then last else before
  }

  lemma FloorNext(times: seq<int>, now: int)
    ensures Floor([now]) == now - BQ
    ensures times != [] && now > Floor(times) ==> Floor(times + [now]) == Next(Floor(times), now)
  {
    assert (times + [now])[..|times|] == times;
  }

  /** What holds in every reachable state of the table. */
  predicate Invariant(m: Machine, k: Key, times: seq<int>) {
    (forall l :: l in m.flows ==> Budgeted(m.global) && Window(m.flows[l], m.flows[l].local[0])) &&
    (if k in m.flows then Tracks(m.flows[k].local[0], times) && m.flows[k].local[0] == Floor(times) else times == [])
    && RateBound(times)
  }

  /** A packet is let through: the first one of its flow, and any later one that comes behind the floor. */
  predicate LetThrough(times: seq<int>, now: int) { times == [] || now > Floor(times) }

  /** A forward keeps the bound and moves the window as far as it costs. */
  lemma Forwards(tmin: int, times: seq<int>, now: int)
    requires Tracks(tmin, times) && RateBound(times) && now > tmin
    ensures Tracks(Next(tmin, now), times + [now]) && RateBound(times + [now])
  {
    var after := times + [now];
    forall i, j | 0 <= i < j < |after| ensures (j - i - 1) * FREQUENCY < after[j] - after[i] + BQ {
      if j == |times| {
        assert times[i] - BQ + (|times| - 1 - i) * FREQUENCY <= tmin;
      }
    }
    forall i | 0 <= i < |after| ensures after[i] - BQ + (|after| - 1 - i) * FREQUENCY <= Next(tmin, now) {
      if i < |times| {
        assert times[i] - BQ + (|times| - 1 - i) * FREQUENCY <= tmin;
      }
    }
  }

  /** One packet of a flow that exists, and what it does to the history of `k`. */
  lemma KeepsKnown(m: Machine, k: Key, times: seq<int>, l: Key, v: View)
    requires ValidView(v) && InTime(v) && Invariant(m, k, times) && Advance(PROGRAM, m, l, v).Some? && l in m.flows
    ensures var (n, verdict) := Advance(PROGRAM, m, l, v).value;
      Invariant(n, k, times + if l == k && verdict.sent != [] then [v.timestamp] else [])
    ensures l == k && times != [] && v.timestamp >= times[|times| - 1] + FREQUENCY ==>
      Advance(PROGRAM, m, l, v).value.1.sent == [0]
    ensures l == k ==> Advance(PROGRAM, m, l, v).value.1.sent == if LetThrough(times, v.timestamp) then [0] else []
  {
    hide Step, Tracks, RateBound, Next, Floor;
    var (n, verdict) := Advance(PROGRAM, m, l, v).value;
    var tmin := m.flows[l].local[0];
    LaterPacket(m.flows[l], m.global, v, tmin);
    assert times + [] == times;
    if l == k {
      Before(tmin, times, v.timestamp);
      FloorNext(times, v.timestamp);
      if v.timestamp > tmin {
        Forwards(tmin, times, v.timestamp);
      }
    }
  }

  lemma Before(tmin: int, times: seq<int>, now: int)
    requires Tracks(tmin, times)
    ensures times != [] && (now <= tmin ==> Next(tmin, now) == tmin && now < times[|times| - 1] + FREQUENCY)
  {
  }

  /** The first packet of a flow. */
  lemma KeepsNew(m: Machine, k: Key, times: seq<int>, l: Key, v: View)
    requires ValidView(v) && InTime(v) && Invariant(m, k, times) && Advance(PROGRAM, m, l, v).Some? && l !in m.flows
    ensures var (n, verdict) := Advance(PROGRAM, m, l, v).value;
      Invariant(n, k, times + if l == k && verdict.sent != [] then [v.timestamp] else []) && verdict.sent == [0]
  {
    hide Step, Tracks, RateBound, Floor;
    FirstPacket(m.global, v);
    FloorNext([], v.timestamp);
    assert times + [] == times && [] + [v.timestamp] == [v.timestamp];
    OneForward(v.timestamp);
  }

  lemma OneForward(now: int)
    ensures Tracks(now - BQ, [now]) && RateBound([now])
  {
  }

  /** One packet of any flow, and what it does to the history of `k`. */
  lemma Keeps(m: Machine, k: Key, times: seq<int>, l: Key, v: View)
    requires ValidView(v) && InTime(v) && Invariant(m, k, times) && Advance(PROGRAM, m, l, v).Some?
    ensures var (n, verdict) := Advance(PROGRAM, m, l, v).value;
      Invariant(n, k, times + if l == k && verdict.sent != [] then [v.timestamp] else [])
    ensures l == k && (times == [] || v.timestamp >= times[|times| - 1] + FREQUENCY) ==>
      Advance(PROGRAM, m, l, v).value.1.sent == [0]
    ensures l == k ==> Advance(PROGRAM, m, l, v).value.1.sent == if LetThrough(times, v.timestamp) then [0] else []
  {
    hide Advance, Invariant, Floor;
    NoHistory(m, k, times);
    if l in m.flows {
      KeepsKnown(m, k, times, l, v);
    } else {
      KeepsNew(m, k, times, l, v);
    }
  }

  lemma NoHistory(m: Machine, k: Key, times: seq<int>)
    requires Invariant(m, k, times)
    ensures k in m.flows <==> times != []
  {
  }

  lemma {:induction false} RunKeeps(m: Machine, trace: Trace, k: Key, times: seq<int>)
    requires AllInTime(trace) && Invariant(m, k, times) && Run(PROGRAM, m, trace).Some?
    ensures var r := Run(PROGRAM, m, trace).value; Invariant(r.machine, k, times + Forwarded(trace, r.verdicts, k))
    decreases |trace|
  {
    hide Advance, Invariant, Run;
    if trace != [] {
      RunFirst(PROGRAM, m, trace);
      var (l, v) := (trace[0].key, trace[0].view);
      Keeps(m, k, times, l, v);
      var (n, verdict) := Advance(PROGRAM, m, l, v).value;
      var one := if l == k && verdict.sent != [] then [v.timestamp] else [];
      RunKeeps(n, trace[1..], k, times + one);
      var r := Run(PROGRAM, m, trace).value;
      assert r.verdicts[1..] == Run(PROGRAM, n, trace[1..]).value.verdicts;
      assert times + one + Forwarded(trace[1..], r.verdicts[1..], k) == times + Forwarded(trace, r.verdicts, k);
    } else {
      RunNothing(PROGRAM, m);
      assert times + [] == times;
    }
  }

  /** In every run, any n >= 2 consecutive forwards of a flow, from time t1 to time tn, satisfy
      (n - 2) * FREQUENCY < (tn - t1) + BQ. */
  lemma RateIsBounded(trace: Trace, r: Outcomes, k: Key)
    requires AllInTime(trace) && Run(PROGRAM, Fresh(PROGRAM), trace) == Some(r)
    ensures RateBound(Forwarded(trace, r.verdicts, k))
  {
    var times := Forwarded(trace, r.verdicts, k);
    RunKeeps(Fresh(PROGRAM), trace, k, []);
    assert [] + times == times;
  }

  /** In every run, a packet is forwarded exactly when it is the first one of its flow or comes behind the floor that
      the earlier forwards of its flow make. */
  lemma ForwardsExactly(trace: Trace, r: Outcomes, i: nat)
    requires AllInTime(trace) && Run(PROGRAM, Fresh(PROGRAM), trace) == Some(r) && i < |trace|
    ensures r.verdicts[i].sent
         == if LetThrough(Forwarded(trace[..i], r.verdicts[..i], trace[i].key), trace[i].view.timestamp) then [0]
           else []
  {
    hide Advance, Run, Invariant, LetThrough, Fresh, Forwarded, AllInTime, InTime;
    var m := BeforePacket(trace, r, i);
    InTimeAt(trace, i);
    Keeps(m, trace[i].key, Forwarded(trace[..i], r.verdicts[..i], trace[i].key), trace[i].key, trace[i].view);
  }

  lemma InTimeAt(trace: Trace, i: nat)
    requires AllInTime(trace) && i < |trace|
    ensures InTime(trace[i].view) && AllInTime(trace[..i])
  {
  }

  lemma BeforePacket(trace: Trace, r: Outcomes, i: nat) returns (m: Machine)
    requires AllInTime(trace) && Run(PROGRAM, Fresh(PROGRAM), trace) == Some(r) && i < |trace|
    ensures Invariant(m, trace[i].key, Forwarded(trace[..i], r.verdicts[..i], trace[i].key))
    ensures Advance(PROGRAM, m, trace[i].key, trace[i].view).Some?
    ensures Advance(PROGRAM, m, trace[i].key, trace[i].view).value.1 == r.verdicts[i]
  {
    hide Advance, Run, Invariant, Fresh, Forwarded, AllInTime, InTime;
    RunPrefix(PROGRAM, Fresh(PROGRAM), trace, i);
    FreshIsReached(trace[i].key);
    InTimeAt(trace, i);
    RunKeeps(Fresh(PROGRAM), trace[..i], trace[i].key, []);
    var times := Forwarded(trace[..i], r.verdicts[..i], trace[i].key);
    assert [] + times == times;
    m := Run(PROGRAM, Fresh(PROGRAM), trace[..i]).value.machine;
  }

  lemma FreshIsReached(k: Key)
    ensures Invariant(Fresh(PROGRAM), k, [])
  {
  }

  /** Conversely, a packet that comes at least FREQUENCY after the last forward of its flow is forwarded. */
  lemma PatientIsServed(trace: Trace, r: Outcomes, k: Key, v: View)
    requires AllInTime(trace) && Run(PROGRAM, Fresh(PROGRAM), trace) == Some(r) && ValidView(v) && InTime(v)
    requires var times := Forwarded(trace, r.verdicts, k);
      times == [] || v.timestamp >= times[|times| - 1] + FREQUENCY
    requires Advance(PROGRAM, r.machine, k, v).Some?
    ensures Advance(PROGRAM, r.machine, k, v).value.1.sent == [0]
  {
    hide Advance;
    var times := Forwarded(trace, r.verdicts, k);
    RunKeeps(Fresh(PROGRAM), trace, k, []);
    assert [] + times == times;
    Keeps(r.machine, k, times, k, v);
  }

  /** The engine never stops on a packet of this program, except when there is no room for another flow. */
  lemma NeverTraps(m: Machine, k: Key, times: seq<int>, l: Key, v: View)
    requires ValidView(v) && InTime(v) && Invariant(m, k, times)
    ensures Advance(PROGRAM, m, l, v).Some? <==> WithFlow(PROGRAM, m, l).Some?
  {
    hide Step;
    if l in m.flows {
      LaterPacket(m.flows[l], m.global, v, m.flows[l].local[0]);
    } else {
      FirstPacket(m.global, v);
    }
  }

  /** The engine accepts the table. */
  lemma Loads()
    ensures Loadable(PROGRAM)
  {
    SmallTable(ROWS);
  }
}
