/** The load balancer: new flows alternate between two servers, and a flow stays with its server. */
module LoadBalancer {
  import opened Bytes
  import opened Packet
  import opened FlowKey
  import opened Efsm
  import opened TableIndex
  import opened Engine
  import opened Runs
  import opened Tables

  const INIT: nat := 0
  const SERVER1: nat := 1
  const SERVER2: nat := 2

  const COUNTER: Operand := GlobalRegister(0)
  const ZERO: Operand := GlobalRegister(1)

  const CONDITIONS: seq<Condition> := [
    Condition(Field(InPort), Constant(1), Equal),
    Condition(COUNTER, ZERO, Greater),
    Condition(COUNTER, ZERO, Equal)
  ]

  const ROWS: seq<Row> := [
    Row(INIT, DONT_CARES[0 := IsTrue][1 := IsTrue], [Assign(Global(0), Minus, COUNTER, Constant(1)), Send(2)],
        SERVER1, NULL_STAGE),
    Row(INIT, DONT_CARES[0 := IsTrue][2 := IsTrue], [Assign(Global(0), Sum, COUNTER, Constant(1)), Send(3)],
        SERVER2, NULL_STAGE),
    Row(SERVER1, DONT_CARES, [Send(2)], SERVER1, NULL_STAGE),
    Row(SERVER1, DONT_CARES, [Send(2)], SERVER1, NULL_STAGE),
    Row(SERVER2, DONT_CARES, [Send(3)], SERVER2, NULL_STAGE),
    Row(SERVER2, DONT_CARES, [Send(3)], SERVER2, NULL_STAGE)
  ]

  const PROGRAM: Program := Program(CONDITIONS, ROWS, KeySpec([TcpSport, TcpDport], 0), INIT)

  // ---------------------------------------------------------------- one packet

  lemma Conditions(local: Registers, global: Registers, v: View)
    requires ValidView(v)
    ensures var r := EvaluateAll(CONDITIONS, local, global, v);
      |r| == 3 && (r[0] == IsTrue <==> v.inPort == 1) && (r[1] == IsTrue <==> global[0] > global[1]) &&
        (r[2] == IsTrue <==> global[0] == global[1])
  {
    hide EvaluateAll;
    var r := EvaluateAll(CONDITIONS, local, global, v);
    assert forall i :: 0 <= i < 3 ==> r[i] == Evaluate(CONDITIONS[i], local, global, v);
  }

  lemma {:induction false} Fitting(r: seq<Outcome>)
    requires |r| == 3 && forall i :: 0 <= i < 3 ==> r[i] != DontCare
    ensures Fits(ROWS[0], r) <==> r[0] == IsTrue && r[1] == IsTrue
    ensures Fits(ROWS[1], r) <==> r[0] == IsTrue && r[2] == IsTrue
    ensures Fits(ROWS[2], r) && Fits(ROWS[4], r)
  {
  }

  /** Which row a packet takes. */
  lemma {:induction false} RowOf(state: nat, r: seq<Outcome>)
    requires |r| == 3 && state in {INIT, SERVER1, SERVER2} && forall i :: 0 <= i < 3 ==> r[i] != DontCare
    ensures FirstMatch(ROWS, state, r)
         == if state == SERVER1 then Some(ROWS[2])
            else if state == SERVER2 then Some(ROWS[4])
            else if r[0] == IsTrue && r[1] == IsTrue then Some(ROWS[0])
            else if r[0] == IsTrue && r[2] == IsTrue then Some(ROWS[1]) else None
  {
    hide Fits, FirstMatch;
    assert ROWS[0..] == ROWS && ROWS[6..] == [];
    Fitting(r);
    NoRows(state, r);
    FirstMatchFrom(ROWS, 0, state, r);
    FirstMatchFrom(ROWS, 1, state, r);
    FirstMatchFrom(ROWS, 2, state, r);
    FirstMatchFrom(ROWS, 3, state, r);
    FirstMatchFrom(ROWS, 4, state, r);
    FirstMatchFrom(ROWS, 5, state, r);
  }

  /** Counting and sending. */
  lemma CountAndSend(opcode: Opcode, port: nat, local: Registers, global: Registers, v: View, x: int)
    requires ValidView(v) && port > 0 && opcode in {Sum, Minus} && Compute(opcode, global[0], 1) == Some(x)
    ensures var c := Execute([Assign(Global(0), opcode, COUNTER, Constant(1)), Send(port)], Started(local, global, v));
      c.Some? && !c.value.destroy && c.value.sent == [port - 1] && c.value.global == global[0 := x] &&
        c.value.local == local
  {
    hide Perform, Loaded;
    var actions := [Assign(Global(0), opcode, COUNTER, Constant(1)), Send(port)];
    var c0 := Started(local, global, v);
    Assigned(Global(0), opcode, COUNTER, Constant(1), c0, x);
    var c1 := Perform(actions[0].kind, Loaded(actions[0], c0)).value;
    Sent(c1, port);
    assert actions[0..] == actions && actions[2..] == [];
    ExecuteFrom(actions, 0, c0);
    ExecuteFrom(actions, 1, c1);
  }

  lemma OnlySend(port: nat, local: Registers, global: Registers, v: View)
    requires ValidView(v) && port > 0
    ensures var c := Execute([Send(port)], Started(local, global, v));
      c.Some? && !c.value.destroy && c.value.sent == [port - 1] && c.value.global == global && c.value.local == local
  {
    var c := Started(local, global, v);
    Sent(c, port);
    assert [Send(port)][0..] == [Send(port)];
    ExecuteFrom([Send(port)], 0, c);
  }

  /** The counter is 0 or 1. */
  predicate Counting(global: Registers) { 0 <= global[0] <= 1 && global[1] == 0 }

  /** The server that a packet binds its flow to: an unbound flow is bound by a packet from port 1. */
  function NextState(state: nat, global: Registers, inPort: byte): nat
    requires Counting(global)
  {
    if state != INIT || inPort != 1 then state else if global[0] == 1 then SERVER1 else SERVER2
  }

  /** What one packet does: server `s` is behind port `s + 1`, which is `s` when counted from zero. */
  lemma OnePacket(f: Flow, global: Registers, v: View)
    requires ValidView(v) && Counting(global) && f.state in {INIT, SERVER1, SERVER2}
    ensures var r := Step(PROGRAM, f, global, v);
      var next := NextState(f.state, global, v.inPort);
      r.Some? && r.value.flow.Some? && r.value.flow.value.state == next &&
      r.value.sent == (if next == INIT then [] else [next]) &&
      r.value.global == if next == f.state then global else global[0 := 1 - global[0]]
  {
    hide EvaluateAll, FirstMatch, Execute;
    Conditions(f.local, global, v);
    RowOf(f.state, EvaluateAll(CONDITIONS, f.local, global, v));
    OnlySend(2, f.local, global, v);
    OnlySend(3, f.local, global, v);
    CountAndSend(Minus, 2, f.local, global, v, Wrap64(global[0] - 1));
    CountAndSend(Sum, 3, f.local, global, v, Wrap64(global[0] + 1));
  }

  // ---------------------------------------------------------------- all flows

  /** The flows in a state. */
  function In(flows: map<Key, Flow>, state: nat): set<Key> { set k | k in flows && flows[k].state == state }

  /** The flows bound to server 2 outnumber those bound to server 1 by the counter, which is 0 or 1. */
  predicate Balanced(m: Machine) {
    Counting(m.global) && m.global[0] == |In(m.flows, SERVER2)| - |In(m.flows, SERVER1)| &&
    forall k :: k in m.flows ==> m.flows[k].state in {INIT, SERVER1, SERVER2}
  }

  /** Moving one flow to a state changes the counts of the two states only. */
  lemma Moved(flows: map<Key, Flow>, k: Key, f: Flow, state: nat)
    ensures |In(flows[k := f], state)|
         == |In(flows, state)| + (if f.state == state then 1 else 0) - (if k in In(flows, state) then 1 else 0)
  {
    var rest := In(flows, state) - {k};
    assert In(flows[k := f], state) == if f.state == state then rest + {k} else rest;
    assert k in In(flows, state) ==> In(flows, state) == rest + {k};
  }

  lemma Keeps(m: Machine, k: Key, v: View)
    requires ValidView(v) && Balanced(m) && Advance(PROGRAM, m, k, v).Some?
    ensures Balanced(Advance(PROGRAM, m, k, v).value.0)
    ensures var (n, verdict) := Advance(PROGRAM, m, k, v).value;
      k in n.flows &&
      n.flows[k].state == NextState(if k in m.flows then m.flows[k].state else INIT, m.global, v.inPort) &&
      verdict.sent == (if n.flows[k].state == INIT then [] else [n.flows[k].state]) &&
      (forall l :: l in m.flows && l != k ==> l in n.flows && n.flows[l] == m.flows[l])
  {
    hide Step, In;
    var w := WithFlow(PROGRAM, m, k).value;
    var f := w.flows[k];
    OnePacket(f, m.global, v);
    var after := Step(PROGRAM, f, m.global, v).value.flow.value;
    assert w.flows[k := after] == m.flows[k := after];
    Moved(m.flows, k, after, SERVER1);
    Moved(m.flows, k, after, SERVER2);
    Members(m.flows, k);
  }

  lemma Members(flows: map<Key, Flow>, k: Key)
    ensures forall s :: k in In(flows, s) <==> k in flows && flows[k].state == s
  {
  }

  lemma {:induction false} RunKeeps(m: Machine, trace: Trace)
    requires Balanced(m) && Run(PROGRAM, m, trace).Some?
    ensures Balanced(Run(PROGRAM, m, trace).value.machine)
    decreases |trace|
  {
    hide Advance, Balanced, Run;
    if trace != [] {
      RunFirst(PROGRAM, m, trace);
      Keeps(m, trace[0].key, trace[0].view);
      RunKeeps(Advance(PROGRAM, m, trace[0].key, trace[0].view).value.0, trace[1..]);
    } else {
      RunNothing(PROGRAM, m);
    }
  }

  /** In every run the servers differ by the counter, which is 0 or 1. */
  lemma StaysBalanced(trace: Trace, r: Outcomes)
    requires Run(PROGRAM, Fresh(PROGRAM), trace) == Some(r)
    ensures 0 <= r.machine.global[0] <= 1
    ensures |In(r.machine.flows, SERVER2)| - |In(r.machine.flows, SERVER1)| == r.machine.global[0]
  {
    hide Run;
    FreshIsBalanced();
    RunKeeps(Fresh(PROGRAM), trace);
  }

  lemma FreshIsBalanced()
    ensures Balanced(Fresh(PROGRAM))
  {
    assert In(map[], SERVER1) == {} && In(map[], SERVER2) == {};
  }

  /** Once bound, a flow stays bound, and all its packets go to its server. */
  lemma {:induction false} StaysBound(m: Machine, trace: Trace, r: Outcomes, k: Key)
    requires Balanced(m) && k in m.flows && m.flows[k].state != INIT && Run(PROGRAM, m, trace) == Some(r)
    ensures k in r.machine.flows && r.machine.flows[k].state == m.flows[k].state
    ensures forall i :: 0 <= i < |trace| && trace[i].key == k ==> r.verdicts[i].sent == [m.flows[k].state]
    decreases |trace|
  {
    hide Advance, Balanced, In;
    if trace != [] {
      BalancedCounts(m);
      Keeps(m, trace[0].key, trace[0].view);
      var n := Advance(PROGRAM, m, trace[0].key, trace[0].view).value.0;
      var rest := Run(PROGRAM, n, trace[1..]).value;
      StaysBound(n, trace[1..], rest, k);
      forall i | 0 < i < |trace| && trace[i].key == k ensures r.verdicts[i].sent == [m.flows[k].state] {
        assert trace[1..][i - 1] == trace[i] && r.verdicts[i] == rest.verdicts[i - 1];
      }
    }
  }

  lemma BalancedCounts(m: Machine)
    requires Balanced(m)
    ensures Counting(m.global)
  {
  }

  /** The flows of this program are not independent: a flow that alone would go to server 2 goes to server 1
      when another flow comes first. */
  lemma FlowsShareTheCounter(k: Key, l: Key, v: View, w: View)
    requires k != l && ValidView(v) && ValidView(w) && v.inPort == 1 && w.inPort == 1
    ensures var first := Advance(PROGRAM, Fresh(PROGRAM), k, v);
      first.Some? &&
      var second := Advance(PROGRAM, first.value.0, l, w);
      var alone := Advance(PROGRAM, Fresh(PROGRAM), l, w);
      second.Some? && alone.Some? && second.value.1.sent == [SERVER1] && alone.value.1.sent == [SERVER2]
  {
    hide Step;
    var start := FreshFlow(PROGRAM);
    OnePacket(start, ZERO_REGISTERS, v);
    OnePacket(start, ZERO_REGISTERS, w);
    OnePacket(start, ZERO_REGISTERS[0 := 1], w);
  }

  /** The engine accepts the table. */
  lemma Loads()
    ensures Loadable(PROGRAM)
  {
    SmallTable(ROWS);
  }
}
