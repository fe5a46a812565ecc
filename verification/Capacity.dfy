/** Which runs the engine completes: it stops on divisions that trap, and when there is no room for another flow. */
module Capacity {
  import opened Bytes
  import opened Packet
  import opened FlowKey
  import opened Efsm
  import opened Runs

  // ---------------------------------------------------------------- one packet

  /** Actions that can neither trap nor end a flow. */
  predicate Steady(k: Kind) { k != Destroy && (k.Update? ==> k.opcode != Divide && k.opcode != Modulo) }

  predicate AllSteady(actions: seq<Action>) { forall i :: 0 <= i < |actions| ==> Steady(actions[i].kind) }

  predicate SteadyProgram(p: Program) { forall i :: 0 <= i < |p.rows| ==> AllSteady(p.rows[i].actions) }

  lemma {:induction false} ExecuteSteadily(actions: seq<Action>, c: Context)
    requires ValidView(c.view) && AllSteady(actions)
    ensures Execute(actions, c).Some? && Execute(actions, c).value.destroy == c.destroy
    decreases |actions|
  {
    hide Loaded;
    if actions != [] {
      assert Steady(actions[0].kind);
      ExecuteSteadily(actions[1..], Perform(actions[0].kind, Loaded(actions[0], c)).value);
    }
  }

  /** A packet of such a program is stopped only for lack of room, and its flow stays. */
  lemma StepSteadily(p: Program, f: Flow, global: Registers, v: View)
    requires p.Valid() && SteadyProgram(p) && ValidView(v)
    ensures Step(p, f, global, v).Some? && Step(p, f, global, v).value.flow.Some?
  {
    hide Execute, EvaluateAll, Fits;
    var row := FirstMatch(p.rows, f.state, EvaluateAll(p.conditions, f.local, global, v));
    if row.Some? {
      ExecuteSteadily(row.value.actions, Started(f.local, global, v));
    }
  }

  /** Every flow that was inserted is still there. */
  predicate Counted(m: Machine) { m.inserted == |m.flows.Keys| < MAX_INSTANCES }

  lemma AdvanceSteadily(p: Program, m: Machine, k: Key, v: View)
    requires p.Valid() && SteadyProgram(p) && Counted(m) && ValidView(v)
    ensures Advance(p, m, k, v).Some? <==> |m.flows.Keys + {k}| < MAX_INSTANCES
    ensures Advance(p, m, k, v).Some? ==>
      var n := Advance(p, m, k, v).value.0; n.flows.Keys == m.flows.Keys + {k} && Counted(n)
  {
    hide Step;
    if k in m.flows {
      assert m.flows.Keys + {k} == m.flows.Keys;
    }
    var n := WithFlow(p, m, k);
    if n.Some? {
      StepSteadily(p, n.value.flows[k], n.value.global, v);
      assert Advance(p, m, k, v).value.0.flows.Keys == m.flows.Keys + {k};
    }
  }

  // ---------------------------------------------------------------- runs

  /** The keys of the flows that a trace has packets of. */
  function Flows(trace: Trace): set<Key> { if trace == [] then {} else {trace[0].key} + Flows(trace[1..]) }

  lemma Fewer(a: set<Key>, b: set<Key>)
    ensures |a| <= |a + b|
  {
    assert a + b == a + (b - a);
  }

  /** A table whose flows are all there completes a run exactly when they and those of the trace are at most 999,999. */
  lemma {:induction false} RunSteadily(p: Program, m: Machine, trace: Trace)
    requires p.Valid() && SteadyProgram(p) && Counted(m)
    ensures Run(p, m, trace).Some? <==> |m.flows.Keys + Flows(trace)| < MAX_INSTANCES
    decreases |trace|
  {
    hide Advance, Counted, SteadyProgram, Run, Flows;
    if trace == [] {
      RunNothing(p, m);
      NoFlows(m);
    } else {
      var k := trace[0].key;
      AdvanceSteadily(p, m, k, trace[0].view);
      MoreFlows(m.flows.Keys, trace);
      if Advance(p, m, k, trace[0].view).Some? {
        RunSteadily(p, Advance(p, m, k, trace[0].view).value.0, trace[1..]);
      }
      Split(p, m, trace);
    }
  }

  lemma NoFlows(m: Machine)
    requires Counted(m)
    ensures |m.flows.Keys + Flows([])| < MAX_INSTANCES
  {
    assert m.flows.Keys + {} == m.flows.Keys;
  }

  lemma MoreFlows(known: set<Key>, trace: Trace)
    requires trace != []
    ensures known + Flows(trace) == known + {trace[0].key} + Flows(trace[1..])
    ensures |known + {trace[0].key}| <= |known + Flows(trace)|
  {
    Fewer(known + {trace[0].key}, Flows(trace[1..]));
    assert known + Flows(trace) == known + {trace[0].key} + Flows(trace[1..]);
  }

  /** A run succeeds when its first packet and the run of the others do. */
  lemma Split(p: Program, m: Machine, trace: Trace)
    requires p.Valid() && trace != []
    ensures Run(p, m, trace).Some?
       <==> Advance(p, m, trace[0].key, trace[0].view).Some? &&
            Run(p, Advance(p, m, trace[0].key, trace[0].view).value.0, trace[1..]).Some?
  {
    hide Advance;
  }

  /** From a fresh table on, the engine completes a run of a program that neither divides nor destroys flows exactly
      when the trace has packets of at most 999,999 flows. */
  lemma CompletesExactly(p: Program, trace: Trace)
    requires p.Valid() && SteadyProgram(p)
    ensures Run(p, Fresh(p), trace).Some? <==> |Flows(trace)| < MAX_INSTANCES
  {
    hide Run, SteadyProgram;
    RunSteadily(p, Fresh(p), trace);
    assert Fresh(p).flows.Keys + Flows(trace) == Flows(trace);
  }
}
