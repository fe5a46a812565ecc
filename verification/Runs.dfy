/** Whole runs of a table, and what one flow of a run depends on. */
module Runs {
  import opened Bytes
  import opened Packet
  import opened FlowKey
  import opened Efsm

  /** A packet and the key of its flow. */
  datatype Arrival = Arrival(key: Key, view: View)

  type Trace = t: seq<Arrival> | forall i :: 0 <= i < |t| ==> ValidView(t[i].view)

  /** Where a run ends and what every packet of it did. */
  datatype Outcomes = Outcomes(machine: Machine, verdicts: seq<Verdict>)

  /** Running a trace; nothing when the engine cannot go on. */
  function Run(p: Program, m: Machine, trace: Trace): (r: Option<Outcomes>)
    requires p.Valid()
    ensures r.Some? ==> |r.value.verdicts| == |trace|
    decreases |trace|
  {
    if trace == [] then Some(Outcomes(m, []))
    else
      match Advance(p, m, trace[0].key, trace[0].view)
      case None => None
      case Some((n, verdict)) =>
        match Run(p, n, trace[1..])
        case None => None
        case Some(rest) => Some(Outcomes(rest.machine, [verdict] + rest.verdicts))
  }

  lemma RunNothing(p: Program, m: Machine)
    requires p.Valid()
    ensures Run(p, m, []) == Some(Outcomes(m, []))
  {
  }

  /** A run is its first packet, followed by a run of the others. */
  lemma RunFirst(p: Program, m: Machine, trace: Trace)
    requires p.Valid() && trace != [] && Run(p, m, trace).Some?
    ensures Advance(p, m, trace[0].key, trace[0].view).Some?
    ensures var (n, verdict) := Advance(p, m, trace[0].key, trace[0].view).value;
      var (r, rest) := (Run(p, m, trace), Run(p, n, trace[1..]));
      rest.Some? && r.value.machine == rest.value.machine && r.value.verdicts == [verdict] + rest.value.verdicts
  {
    hide Advance;
  }

  lemma RunMore(p: Program, m: Machine, trace: Trace)
    requires p.Valid() && trace != [] && Advance(p, m, trace[0].key, trace[0].view).Some?
    requires Run(p, Advance(p, m, trace[0].key, trace[0].view).value.0, trace[1..]).Some?
    ensures var (n, verdict) := Advance(p, m, trace[0].key, trace[0].view).value;
      var (r, rest) := (Run(p, m, trace), Run(p, n, trace[1..]));
      r.Some? && r.value.machine == rest.value.machine && r.value.verdicts == [verdict] + rest.value.verdicts
  {
    hide Advance;
  }

  /** What a packet of a run did is what it does to the machine that the packets before it lead to. */
  lemma {:induction false} RunPrefix(p: Program, m: Machine, trace: Trace, i: nat)
    requires p.Valid() && i < |trace| && Run(p, m, trace).Some?
    ensures Run(p, m, trace[..i]).Some? && Run(p, m, trace[..i]).value.verdicts == Run(p, m, trace).value.verdicts[..i]
    ensures var r := Advance(p, Run(p, m, trace[..i]).value.machine, trace[i].key, trace[i].view);
      r.Some? && r.value.1 == Run(p, m, trace).value.verdicts[i]
    decreases i
  {
    hide Advance;
    var (n, verdict) := Advance(p, m, trace[0].key, trace[0].view).value;
    if i == 0 {
      assert trace[..0] == [];
    } else {
      RunPrefix(p, n, trace[1..], i - 1);
      assert trace[..i][0] == trace[0] && trace[..i][1..] == trace[1..][..i - 1];
    }
  }

  // ---------------------------------------------------------------- keys

  /** A run that extracts the key of every packet into the buffer of the previous one. */
  function RunBuffered(p: Program, m: Machine, key: Key, views: seq<View>): Option<Outcomes>
    requires p.Valid() && forall i :: 0 <= i < |views| ==> ValidView(views[i])
    decreases |views|
  {
    if views == [] then Some(Outcomes(m, []))
    else
      var k := KeyOf(key, p.key, views[0]);
      match Advance(p, m, k, views[0])
      case None => None
      case Some((n, verdict)) =>
        match RunBuffered(p, n, k, views[1..])
        case None => None
        case Some(rest) => Some(Outcomes(rest.machine, [verdict] + rest.verdicts))
  }

  /** The packets with the keys that they have on their own. */
  function Arrivals(p: Program, views: seq<View>): (r: Trace)
    requires p.Valid() && forall i :: 0 <= i < |views| ==> ValidView(views[i])
    ensures |r| == |views|
  {
    if views == [] then [] else [Arrival(KeyOf(ZERO_KEY, p.key, views[0]), views[0])] + Arrivals(p, views[1..])
  }

  /** When every packet has the key fields, the buffer carries nothing from one packet to the next. */
  lemma {:induction false} KeysAreTheirOwn(p: Program, m: Machine, key: Key, views: seq<View>)
    requires p.Valid() && p.key.fields != [] && 2 * p.key.pairs <= |p.key.fields|
    requires forall i :: 0 <= i < |views| ==> ValidView(views[i]) && KeyFieldsPresent(p.key, views[i])
    requires CleanBehind(key, |p.key.fields|)
    ensures RunBuffered(p, m, key, views) == Run(p, m, Arrivals(p, views))
    decreases |views|
  {
    hide FlowKey.KeyOf, Advance, KeyFieldsPresent;
    if views != [] {
      KeyOfPacket(key, ZERO_KEY, p.key, views[0]);
      var k := KeyOf(key, p.key, views[0]);
      var arrivals := Arrivals(p, views);
      assert arrivals[1..] == Arrivals(p, views[1..]);
      var r := Advance(p, m, k, views[0]);
      if r.Some? {
        KeysAreTheirOwn(p, r.value.0, k, views[1..]);
      }
    }
  }

  // ---------------------------------------------------------------- projection

  predicate WritesNoGlobal(p: Program) {
    forall i :: 0 <= i < |p.rows| ==> ActionsWriteNoGlobal(p.rows[i].actions)
  }

  predicate ActionsWriteNoGlobal(actions: seq<Action>) {
    forall i :: 0 <= i < |actions| ==> !(actions[i].kind.Update? && actions[i].kind.output.Global?)
  }

  /** The packets of one flow. */
  function Project(trace: Trace, k: Key): Trace {
    if trace == [] then []
    else (if trace[0].key == k then [trace[0]] else []) + Project(trace[1..], k)
  }

  /** What the packets of one flow did. */
  function ProjectVerdicts(trace: Trace, verdicts: seq<Verdict>, k: Key): seq<Verdict>
    requires |trace| == |verdicts|
  {
    if trace == [] then []
    else (if trace[0].key == k then [verdicts[0]] else []) + ProjectVerdicts(trace[1..], verdicts[1..], k)
  }

  /** Two machines hold the same for a flow, and the second has inserted no more instances than the first. */
  predicate Agree(m: Machine, n: Machine, k: Key) {
    (k in m.flows <==> k in n.flows) && (k in m.flows ==> m.flows[k] == n.flows[k]) &&
    m.global == n.global && n.inserted <= m.inserted < MAX_INSTANCES
  }

  lemma {:induction false} ExecuteKeepsGlobals(actions: seq<Action>, c: Context)
    requires ValidView(c.view) && ActionsWriteNoGlobal(actions)
    ensures Execute(actions, c).Some? ==> Execute(actions, c).value.global == c.global
    decreases |actions|
  {
    if actions != [] {
      var d := Perform(actions[0].kind, Loaded(actions[0], c));
      if d.Some? {
        ExecuteKeepsGlobals(actions[1..], d.value);
      }
    }
  }

  lemma StepKeepsGlobals(p: Program, f: Flow, global: Registers, v: View)
    requires p.Valid() && ValidView(v) && WritesNoGlobal(p)
    ensures Step(p, f, global, v).Some? ==> Step(p, f, global, v).value.global == global
  {
    hide Execute, EvaluateAll, Fits;
    var row := FirstMatch(p.rows, f.state, EvaluateAll(p.conditions, f.local, global, v));
    if row.Some? {
      var i :| 0 <= i < |p.rows| && p.rows[i] == row.value;
      ExecuteKeepsGlobals(row.value.actions, Started(f.local, global, v));
    }
  }

  /** A packet of the flow does the same to both machines. */
  lemma OwnPacket(p: Program, m: Machine, n: Machine, k: Key, v: View)
    requires p.Valid() && WritesNoGlobal(p) && ValidView(v) && Agree(m, n, k) && Advance(p, m, k, v).Some?
    ensures Advance(p, n, k, v).Some? && Advance(p, n, k, v).value.1 == Advance(p, m, k, v).value.1
    ensures Agree(Advance(p, m, k, v).value.0, Advance(p, n, k, v).value.0, k)
  {
    hide Step;
    var w := WithFlow(p, m, k).value;
    StepKeepsGlobals(p, w.flows[k], w.global, v);
  }

  /** A packet of another flow leaves this one alone. */
  lemma OtherPacket(p: Program, m: Machine, n: Machine, k: Key, l: Key, v: View)
    requires p.Valid() && WritesNoGlobal(p) && ValidView(v) && Agree(m, n, k) && l != k && Advance(p, m, l, v).Some?
    ensures Agree(Advance(p, m, l, v).value.0, n, k)
  {
    hide Step;
    var w := WithFlow(p, m, l).value;
    StepKeepsGlobals(p, w.flows[l], w.global, v);
  }

  /** Running the packets of one flow alone gives the same flow and the same verdicts as running it among all
      the others, for every program that writes no global register. */
  lemma {:induction false} FlowProjection(p: Program, m: Machine, n: Machine, trace: Trace, k: Key)
    requires p.Valid() && WritesNoGlobal(p) && Agree(m, n, k) && Run(p, m, trace).Some?
    ensures Run(p, n, Project(trace, k)).Some?
    ensures var mixed, alone := Run(p, m, trace).value, Run(p, n, Project(trace, k)).value;
      Agree(mixed.machine, alone.machine, k) && alone.verdicts == ProjectVerdicts(trace, mixed.verdicts, k)
    decreases |trace|
  {
    hide Advance, Agree;
    if trace != [] {
      var (l, v) := (trace[0].key, trace[0].view);
      var (next, verdict) := Advance(p, m, l, v).value;
      var mixed, rest := Run(p, m, trace).value, Run(p, next, trace[1..]).value;
      assert mixed.verdicts[1..] == rest.verdicts;
      if l == k {
        OwnPacket(p, m, n, k, v);
        var other := Advance(p, n, k, v).value.0;
        FlowProjection(p, next, other, trace[1..], k);
        assert Project(trace, k)[1..] == Project(trace[1..], k);
      } else {
        OtherPacket(p, m, n, k, l, v);
        FlowProjection(p, next, n, trace[1..], k);
        assert Project(trace, k) == Project(trace[1..], k);
      }
    }
  }

  /** From a fresh table on: the state, the registers and the outputs of a flow do not depend on other flows. */
  lemma FlowsAreIndependent(p: Program, trace: Trace, k: Key)
    requires p.Valid() && WritesNoGlobal(p) && Run(p, Fresh(p), trace).Some?
    ensures Run(p, Fresh(p), Project(trace, k)).Some?
    ensures var mixed, alone := Run(p, Fresh(p), trace).value, Run(p, Fresh(p), Project(trace, k)).value;
      (k in mixed.machine.flows <==> k in alone.machine.flows) &&
      (k in mixed.machine.flows ==> mixed.machine.flows[k] == alone.machine.flows[k]) &&
      alone.verdicts == ProjectVerdicts(trace, mixed.verdicts, k)
  {
    FlowProjection(p, Fresh(p), Fresh(p), trace, k);
  }
}
