/** Flows that do not depend on each other although their program writes global registers. */
module Independence {
  import opened Bytes
  import opened Packet
  import opened FlowKey
  import opened Efsm
  import opened Runs
  import Policer
  import Tables

  // ---------------------------------------------------------------- one row

  /** Two sets of globals agree on some registers. */
  predicate AgreeOn(known: set<nat>, g: Registers, h: Registers) {
    forall i :: 0 <= i < 32 && i in known ==> g[i] == h[i]
  }

  predicate Reads(op: Operand, known: set<nat>) { op.GlobalRegister? ==> op.index in known }

  predicate ActionReads(a: Action, known: set<nat>) {
    Reads(a.op1, known) && Reads(a.op2, known) && Reads(a.op3, known)
  }

  function Writes(k: Kind, known: set<nat>): set<nat> {
    if k.Update? && k.output.Global? then known + {k.output.index} else known
  }

  /** The actions read only globals that are known, or that were written before in the same row. */
  predicate Defines(actions: seq<Action>, known: set<nat>) {
    actions == [] || (ActionReads(actions[0], known) && Defines(actions[1..], Writes(actions[0].kind, known)))
  }

  function Known(actions: seq<Action>, known: set<nat>): set<nat> {
    if actions == [] then known else Known(actions[1..], Writes(actions[0].kind, known))
  }

  function With(c: Context, h: Registers): Context { c.(global := h) }

  lemma LoadAgrees(op: Operand, c: Context, h: Registers, was: int, known: set<nat>)
    requires ValidView(c.view) && AgreeOn(known, c.global, h) && Reads(op, known)
    ensures Load(op, With(c, h), was) == Load(op, c, was)
  {
  }

  lemma LoadedAgrees(a: Action, c: Context, h: Registers, known: set<nat>)
    requires ValidView(c.view) && AgreeOn(known, c.global, h) && ActionReads(a, known)
    ensures Loaded(a, With(c, h)) == With(Loaded(a, c), h)
  {
    hide Load, AgreeOn;
    LoadAgrees(a.op1, c, h, c.reg1, known);
    LoadAgrees(a.op2, c, h, c.reg2, known);
    LoadAgrees(a.op3, c, h, c.reg3, known);
  }

  lemma PerformAgrees(k: Kind, c: Context, h: Registers, known: set<nat>)
    requires ValidView(c.view) && AgreeOn(known, c.global, h)
    ensures var d, e := Perform(k, c), Perform(k, With(c, h));
      (d.Some? <==> e.Some?) &&
      (d.Some? ==> e.value == With(d.value, e.value.global) &&
                   AgreeOn(Writes(k, known), d.value.global, e.value.global))
  {
    hide Compute, Set;
  }

  /** Running such actions does the same to everything but the globals, and agrees on those it knows in the end. */
  lemma {:induction false} ExecuteAgrees(actions: seq<Action>, c: Context, h: Registers, known: set<nat>)
    requires ValidView(c.view) && AgreeOn(known, c.global, h) && Defines(actions, known)
    ensures var d, e := Execute(actions, c), Execute(actions, With(c, h));
      (d.Some? <==> e.Some?) &&
      (d.Some? ==> e.value == With(d.value, e.value.global) &&
                   AgreeOn(Known(actions, known), d.value.global, e.value.global))
    decreases |actions|
  {
    hide Perform, Loaded, AgreeOn, ActionReads;
    if actions != [] {
      var a := actions[0];
      LoadedAgrees(a, c, h, known);
      PerformAgrees(a.kind, Loaded(a, c), h, known);
      var d, e := Perform(a.kind, Loaded(a, c)), Perform(a.kind, Loaded(a, With(c, h)));
      if d.Some? {
        ExecuteAgrees(actions[1..], d.value, e.value.global, Writes(a.kind, known));
      }
    }
  }

  // ---------------------------------------------------------------- one packet

  predicate ConditionsReadNoGlobal(p: Program) {
    forall i :: 0 <= i < |p.conditions| ==> Reads(p.conditions[i].op0, {}) && Reads(p.conditions[i].op1, {})
  }

  lemma {:induction false} EvaluateAgrees(cs: seq<Condition>, local: Registers, g: Registers, h: Registers, v: View)
    requires ValidView(v)
    requires forall i :: 0 <= i < |cs| ==> Reads(cs[i].op0, {}) && Reads(cs[i].op1, {})
    ensures EvaluateAll(cs, local, g, v) == EvaluateAll(cs, local, h, v)
  {
    if cs != [] {
      EvaluateAgrees(cs[1..], local, g, h, v);
    }
  }

  /** A verdict without the globals. */
  function Apart(v: Verdict): Verdict { v.(global := ZERO_REGISTERS) }

  function AllApart(vs: seq<Verdict>): (r: seq<Verdict>)
    ensures |r| == |vs| && forall i :: 0 <= i < |r| ==> r[i] == Apart(vs[i])
  {
    seq(|vs|, i requires 0 <= i < |vs| => Apart(vs[i]))
  }

  /** All rows for a state read only globals that are known, or that they write themselves. */
  predicate StateDefines(p: Program, state: nat, known: set<nat>) {
    forall i :: 0 <= i < |p.rows| && p.rows[i].state == state ==> Defines(p.rows[i].actions, known)
  }

  /** A packet does the same to a flow whatever the globals that are not known. */
  lemma StepAgrees(p: Program, f: Flow, g: Registers, h: Registers, v: View, known: set<nat>)
    requires p.Valid() && ValidView(v) && ConditionsReadNoGlobal(p) && StateDefines(p, f.state, known)
    requires AgreeOn(known, g, h)
    ensures var r, s := Step(p, f, g, v), Step(p, f, h, v);
      (r.Some? <==> s.Some?) && (r.Some? ==> Apart(r.value) == Apart(s.value))
  {
    hide Execute, EvaluateAll, Fits, AgreeOn, Defines;
    EvaluateAgrees(p.conditions, f.local, g, h, v);
    var row := FirstMatch(p.rows, f.state, EvaluateAll(p.conditions, f.local, g, v));
    if row.Some? {
      var i :| 0 <= i < |p.rows| && p.rows[i] == row.value;
      ExecuteAgrees(row.value.actions, Started(f.local, g, v), h, known);
    }
  }

  // ---------------------------------------------------------------- runs

  /** Two machines hold the same for a flow, whatever their globals. */
  predicate SameFlow(m: Machine, n: Machine, k: Key) {
    (k in m.flows <==> k in n.flows) && (k in m.flows ==> m.flows[k] == n.flows[k]) &&
    n.inserted <= m.inserted < MAX_INSTANCES
  }

  /** A packet of the flow does the same in both machines. */
  lemma OwnPacketAgrees(p: Program, m: Machine, n: Machine, k: Key, v: View, known: set<nat>)
    requires p.Valid() && ConditionsReadNoGlobal(p) && ValidView(v) && SameFlow(m, n, k) && Advance(p, m, k, v).Some?
    requires AgreeOn(known, m.global, n.global)
    requires StateDefines(p, if k in m.flows then m.flows[k].state else p.initialState, known)
    ensures Advance(p, n, k, v).Some? && Apart(Advance(p, n, k, v).value.1) == Apart(Advance(p, m, k, v).value.1)
    ensures SameFlow(Advance(p, m, k, v).value.0, Advance(p, n, k, v).value.0, k)
  {
    hide Step, AgreeOn, StateDefines, ConditionsReadNoGlobal;
    var w := WithFlow(p, m, k).value;
    StepAgrees(p, w.flows[k], m.global, n.global, v, known);
  }

  lemma OtherPacketLeaves(p: Program, m: Machine, n: Machine, k: Key, l: Key, v: View)
    requires p.Valid() && ValidView(v) && SameFlow(m, n, k) && l != k && Advance(p, m, l, v).Some?
    ensures SameFlow(Advance(p, m, l, v).value.0, n, k)
  {
    hide Step;
  }

  /** The runs of a flow in both machines when its next packet does the same in both. */
  lemma OwnFirst(p: Program, m: Machine, n: Machine, trace: Trace, k: Key)
    requires p.Valid() && trace != [] && trace[0].key == k && Run(p, m, trace).Some?
    requires Advance(p, m, k, trace[0].view).Some? && Advance(p, n, k, trace[0].view).Some?
    requires Apart(Advance(p, n, k, trace[0].view).value.1) == Apart(Advance(p, m, k, trace[0].view).value.1)
    requires SameRest(p, Advance(p, m, k, trace[0].view).value.0, Advance(p, n, k, trace[0].view).value.0, trace[1..],
                      k)
    ensures SameRest(p, m, n, trace, k)
  {
    hide Advance, SameFlow, Apart, Run;
    RunFirst(p, m, trace);
    var own := Project(trace, k);
    assert own[0] == trace[0] && own[1..] == Project(trace[1..], k);
    var (next, verdict) := Advance(p, n, k, trace[0].view).value;
    RunMore(p, n, own);
    var mixed, alone := Run(p, m, trace).value, Run(p, n, own).value;
    var rest := Run(p, Advance(p, m, k, trace[0].view).value.0, trace[1..]).value;
    assert mixed.verdicts[1..] == rest.verdicts;
    assert ProjectVerdicts(trace, mixed.verdicts, k)
        == [mixed.verdicts[0]] + ProjectVerdicts(trace[1..], rest.verdicts, k);
    ApartMore(alone.verdicts[0], Run(p, next, own[1..]).value.verdicts);
    ApartMore(mixed.verdicts[0], ProjectVerdicts(trace[1..], rest.verdicts, k));
  }

  lemma OtherFirst(p: Program, m: Machine, n: Machine, trace: Trace, k: Key)
    requires p.Valid() && trace != [] && trace[0].key != k && Run(p, m, trace).Some?
    requires Advance(p, m, trace[0].key, trace[0].view).Some?
    requires SameRest(p, Advance(p, m, trace[0].key, trace[0].view).value.0, n, trace[1..], k)
    ensures SameRest(p, m, n, trace, k)
  {
    hide Advance, SameFlow, Apart, Run, AllApart;
    RunFirst(p, m, trace);
    assert Project(trace, k) == Project(trace[1..], k);
    var mixed := Run(p, m, trace).value;
    var rest := Run(p, Advance(p, m, trace[0].key, trace[0].view).value.0, trace[1..]).value;
    assert mixed.verdicts[1..] == rest.verdicts;
    assert ProjectVerdicts(trace, mixed.verdicts, k) == ProjectVerdicts(trace[1..], rest.verdicts, k);
  }

  lemma NoneFirst(p: Program, m: Machine, n: Machine, k: Key)
    requires p.Valid() && SameFlow(m, n, k)
    ensures Run(p, m, []).Some? && SameRest(p, m, n, [], k)
  {
    hide SameFlow, Apart;
  }

  lemma ApartMore(v: Verdict, vs: seq<Verdict>)
    ensures AllApart([v] + vs) == [Apart(v)] + AllApart(vs)
  {
    hide Apart;
  }

  /** The run of a trace and that of the flow's own packets from another machine have the same outcome for the flow. */
  ghost predicate SameRest(p: Program, m: Machine, n: Machine, trace: Trace, k: Key)
    requires p.Valid() && Run(p, m, trace).Some?
  {
    var (mixed, alone) := (Run(p, m, trace).value, Run(p, n, Project(trace, k)));
    alone.Some? && SameFlow(mixed.machine, alone.value.machine, k) &&
    AllApart(alone.value.verdicts) == AllApart(ProjectVerdicts(trace, mixed.verdicts, k))
  }

  /** No condition reads a global, and every row writes a global before it reads it. */
  predicate SelfContained(p: Program) {
    ConditionsReadNoGlobal(p) && forall i :: 0 <= i < |p.rows| ==> Defines(p.rows[i].actions, {})
  }

  lemma {:induction false} ProjectionApart(p: Program, m: Machine, n: Machine, trace: Trace, k: Key)
    requires p.Valid() && SelfContained(p) && SameFlow(m, n, k) && Run(p, m, trace).Some?
    ensures SameRest(p, m, n, trace, k)
    decreases |trace|
  {
    hide Advance, SameFlow, SelfContained, Apart, Run, SameRest;
    if trace == [] {
      NoneFirst(p, m, n, k);
    } else {
      RunFirst(p, m, trace);
      var (l, v) := (trace[0].key, trace[0].view);
      var next := Advance(p, m, l, v).value.0;
      if l == k {
        OwnContained(p, m, n, k, v);
        ProjectionApart(p, next, Advance(p, n, k, v).value.0, trace[1..], k);
        OwnFirst(p, m, n, trace, k);
      } else {
        OtherPacketLeaves(p, m, n, k, l, v);
        ProjectionApart(p, next, n, trace[1..], k);
        OtherFirst(p, m, n, trace, k);
      }
    }
  }

  lemma OwnContained(p: Program, m: Machine, n: Machine, k: Key, v: View)
    requires p.Valid() && SelfContained(p) && ValidView(v) && SameFlow(m, n, k) && Advance(p, m, k, v).Some?
    ensures Advance(p, n, k, v).Some? && Apart(Advance(p, n, k, v).value.1) == Apart(Advance(p, m, k, v).value.1)
    ensures SameFlow(Advance(p, m, k, v).value.0, Advance(p, n, k, v).value.0, k)
  {
    hide Advance, SameFlow;
    OwnPacketAgrees(p, m, n, k, v, {});
  }

  /** From a fresh table on: for a program that reads no global it has not just written, the state, the registers and
      the outputs of a flow do not depend on other flows, whatever they write to the globals. */
  lemma FlowsAreApart(p: Program, trace: Trace, k: Key)
    requires p.Valid() && SelfContained(p) && Run(p, Fresh(p), trace).Some?
    ensures Run(p, Fresh(p), Project(trace, k)).Some?
    ensures var mixed, alone := Run(p, Fresh(p), trace).value, Run(p, Fresh(p), Project(trace, k)).value;
      (k in mixed.machine.flows <==> k in alone.machine.flows) &&
      (k in mixed.machine.flows ==> mixed.machine.flows[k] == alone.machine.flows[k]) &&
      AllApart(alone.verdicts) == AllApart(ProjectVerdicts(trace, mixed.verdicts, k))
  {
    hide Run, SelfContained;
    ProjectionApart(p, Fresh(p), Fresh(p), trace, k);
  }

  // ---------------------------------------------------------------- the policer

  lemma DefinesFrom(actions: seq<Action>, i: nat, known: set<nat>)
    requires i < |actions|
    ensures Defines(actions[i..], known)
       <==> ActionReads(actions[i], known) && Defines(actions[i + 1..], Writes(actions[i].kind, known))
    ensures i + 1 == |actions| ==> Defines(actions[i + 1..], Writes(actions[i].kind, known))
  {
    assert actions[i..][1..] == actions[i + 1..];
  }

  /** The first packet of a flow writes both globals before it reads them; later ones read those two. */
  lemma PolicerDefines()
    ensures Defines(Policer.START, {}) && Defines(Policer.MOVE, {0, 1}) && Defines(Policer.RESTART, {0, 1})
  {
    hide Defines;
    var a, b, c := Policer.START, Policer.MOVE, Policer.RESTART;
    assert a[0..] == a && b[0..] == b && c[0..] == c;
    DefinesFrom(a, 0, {});
    DefinesFrom(a, 1, {0});
    DefinesFrom(a, 2, {0} + {1});
    DefinesFrom(a, 3, {0} + {1});
    DefinesFrom(a, 4, {0} + {1});
    assert {} + {0} == {0};
    DefinesFrom(b, 0, {0, 1});
    DefinesFrom(b, 1, {0, 1});
    DefinesFrom(b, 2, {0, 1});
    DefinesFrom(c, 0, {0, 1});
    DefinesFrom(c, 1, {0, 1});
    DefinesFrom(c, 2, {0, 1});
  }

  lemma PolicerStates()
    ensures ConditionsReadNoGlobal(Policer.PROGRAM)
    ensures StateDefines(Policer.PROGRAM, Policer.INIT, {})
    ensures StateDefines(Policer.PROGRAM, Policer.ESTABLISHED, {0, 1})
  {
    hide Defines;
    PolicerDefines();
    NothingDefines({});
    SendDefines({0, 1});
  }

  lemma NothingDefines(known: set<nat>)
    ensures Defines([], known)
  {
  }

  lemma SendDefines(known: set<nat>)
    ensures Defines([Tables.Send(0)], known)
  {
  }

  /** A packet of the policer's own flow does the same in two tables that agree on the flow and its forwards. */
  lemma PolicerOwn(m: Machine, n: Machine, k: Key, v: View, times: seq<int>)
    requires ValidView(v) && SameFlow(m, n, k) && Advance(Policer.PROGRAM, m, k, v).Some?
    requires Policer.Invariant(m, k, times) && Policer.Invariant(n, k, times)
    ensures Advance(Policer.PROGRAM, n, k, v).Some?
    ensures Apart(Advance(Policer.PROGRAM, n, k, v).value.1) == Apart(Advance(Policer.PROGRAM, m, k, v).value.1)
    ensures SameFlow(Advance(Policer.PROGRAM, m, k, v).value.0, Advance(Policer.PROGRAM, n, k, v).value.0, k)
  {
    hide Advance, StateDefines, Policer.Tracks, Policer.RateBound, ConditionsReadNoGlobal;
    PolicerStates();
    OwnPacketAgrees(Policer.PROGRAM, m, n, k, v, if k in m.flows then {0, 1} else {});
  }

  lemma {:induction false} PolicerProjection(m: Machine, n: Machine, trace: Trace, k: Key, times: seq<int>)
    requires Policer.AllInTime(trace) && SameFlow(m, n, k) && Run(Policer.PROGRAM, m, trace).Some?
    requires Policer.Invariant(m, k, times) && Policer.Invariant(n, k, times)
    ensures SameRest(Policer.PROGRAM, m, n, trace, k)
    decreases |trace|
  {
    hide Advance, SameFlow, Policer.Invariant, Run, SameRest;
    if trace == [] {
      NoneFirst(Policer.PROGRAM, m, n, k);
    } else {
      RunFirst(Policer.PROGRAM, m, trace);
      var (l, v) := (trace[0].key, trace[0].view);
      var (next, verdict) := Advance(Policer.PROGRAM, m, l, v).value;
      Policer.Keeps(m, k, times, l, v);
      if l == k {
        PolicerOwn(m, n, k, v, times);
        Policer.Keeps(n, k, times, k, v);
        var one := if verdict.sent != [] then [v.timestamp] else [];
        PolicerProjection(next, Advance(Policer.PROGRAM, n, k, v).value.0, trace[1..], k, times + one);
        OwnFirst(Policer.PROGRAM, m, n, trace, k);
      } else {
        OtherPacketLeaves(Policer.PROGRAM, m, n, k, l, v);
        assert times + [] == times;
        PolicerProjection(next, n, trace[1..], k, times);
        OtherFirst(Policer.PROGRAM, m, n, trace, k);
      }
    }
  }

  /** The policer shares its budget among all flows through globals, and yet what it does to a source does not depend on
      other sources. */
  lemma PolicerFlowsAreApart(trace: Trace, k: Key)
    requires Policer.AllInTime(trace) && Run(Policer.PROGRAM, Fresh(Policer.PROGRAM), trace).Some?
    ensures Run(Policer.PROGRAM, Fresh(Policer.PROGRAM), Project(trace, k)).Some?
    ensures var mixed := Run(Policer.PROGRAM, Fresh(Policer.PROGRAM), trace).value;
      var alone := Run(Policer.PROGRAM, Fresh(Policer.PROGRAM), Project(trace, k)).value;
      (k in mixed.machine.flows <==> k in alone.machine.flows) &&
      (k in mixed.machine.flows ==> mixed.machine.flows[k] == alone.machine.flows[k]) &&
      AllApart(alone.verdicts) == AllApart(ProjectVerdicts(trace, mixed.verdicts, k))
  {
    hide Run, Project;
    PolicerProjection(Fresh(Policer.PROGRAM), Fresh(Policer.PROGRAM), trace, k, []);
  }
}
