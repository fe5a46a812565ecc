/** The elephant detector: a flow that has sent enough packets is marked in the IPv4 type of service from then on. */
module Elephant {
  import opened Bytes
  import opened Packet
  import opened FlowKey
  import opened Efsm
  import opened TableIndex
  import opened Engine
  import opened Runs
  import opened Tables

  const DEFAULT: nat := 0
  const DETECTED: nat := 1

  const THRESHOLD: int := 150
  const MARK: int := 150

  const COUNTER: Operand := Register(0)
  const LIMIT: Operand := GlobalRegister(0)

  const CONDITIONS: seq<Condition> := [Condition(COUNTER, LIMIT, Less), Condition(COUNTER, LIMIT, GreaterEq)]

  /** The threshold is set again with every packet of a flow that is not detected yet. */
  const SET_LIMIT: Action := Assign(Global(0), Sum, Constant(THRESHOLD), Constant(0))

  const COUNT: seq<Action> := [SET_LIMIT, Assign(Local(0), Sum, COUNTER, Constant(1)), Send(1)]

  const DETECT: seq<Action> := [SET_LIMIT, Send(1)]

  const FORWARD_MARKED: seq<Action> := [SetTo(Ipv4Tos, MARK), Send(1)]

  const ROWS: seq<Row> := [
    Row(DEFAULT, DONT_CARES[0 := IsTrue], COUNT, DEFAULT, NULL_STAGE),
    Row(DEFAULT, DONT_CARES[1 := IsTrue], DETECT, DETECTED, NULL_STAGE),
    Row(DETECTED, DONT_CARES, FORWARD_MARKED, DETECTED, NULL_STAGE),
    Row(DETECTED, DONT_CARES, [], DETECTED, NULL_STAGE),
    Row(DETECTED, DONT_CARES, [], DETECTED, NULL_STAGE)
  ]

  const PROGRAM: Program := Program(CONDITIONS, ROWS, KeySpec([Ipv4Src, Ipv4Dst], 0), DEFAULT)

  // ---------------------------------------------------------------- one packet

  lemma Conditions(local: Registers, global: Registers, v: View)
    requires ValidView(v)
    ensures var r := EvaluateAll(CONDITIONS, local, global, v);
      |r| == 2 && (r[0] == IsTrue <==> local[0] < global[0]) && (r[1] == IsTrue <==> global[0] <= local[0]) &&
      r[0] != DontCare && r[1] != DontCare
  {
    hide EvaluateAll;
    var r := EvaluateAll(CONDITIONS, local, global, v);
    assert forall i :: 0 <= i < 2 ==> r[i] == Evaluate(CONDITIONS[i], local, global, v);
  }

  lemma {:induction false} Fitting(r: seq<Outcome>)
    requires |r| == 2 && r[0] != DontCare && r[1] != DontCare
    ensures Fits(ROWS[0], r) <==> r[0] == IsTrue
    ensures Fits(ROWS[1], r) <==> r[1] == IsTrue
    ensures Fits(ROWS[2], r)
  {
  }

  /** Which row a packet takes. */
  lemma {:induction false} RowOf(state: nat, r: seq<Outcome>)
    requires |r| == 2 && state in {DEFAULT, DETECTED} && r[0] != DontCare && r[1] != DontCare
    requires r[0] == IsTrue <==> r[1] != IsTrue
    ensures FirstMatch(ROWS, state, r)
         == Some(if state == DETECTED then ROWS[2] else if r[0] == IsTrue then ROWS[0] else ROWS[1])
  {
    hide Fits, FirstMatch;
    assert ROWS[0..] == ROWS;
    Fitting(r);
    FirstMatchFrom(ROWS, 0, state, r);
    FirstMatchFrom(ROWS, 1, state, r);
    FirstMatchFrom(ROWS, 2, state, r);
  }

  /** Counting a packet and sending it on. */
  lemma Counts(local: Registers, global: Registers, v: View)
    requires ValidView(v) && 0 <= local[0] < THRESHOLD
    ensures var c := Execute(COUNT, Started(local, global, v));
      c.Some? && !c.value.destroy && c.value.sent == [0] && c.value.view == v &&
      c.value.global == global[0 := THRESHOLD] && c.value.local == local[0 := local[0] + 1]
  {
    hide Perform, Loaded;
    var c0 := Started(local, global, v);
    Assigned(Global(0), Sum, Constant(THRESHOLD), Constant(0), c0, THRESHOLD);
    var c1 := Perform(COUNT[0].kind, Loaded(COUNT[0], c0)).value;
    Assigned(Local(0), Sum, COUNTER, Constant(1), c1, local[0] + 1);
    var c2 := Perform(COUNT[1].kind, Loaded(COUNT[1], c1)).value;
    Sent(c2, 1);
    assert COUNT[0..] == COUNT && COUNT[3..] == [];
    ExecuteFrom(COUNT, 0, c0);
    ExecuteFrom(COUNT, 1, c1);
    ExecuteFrom(COUNT, 2, c2);
  }

  lemma Detects(local: Registers, global: Registers, v: View)
    requires ValidView(v)
    ensures var c := Execute(DETECT, Started(local, global, v));
      c.Some? && !c.value.destroy && c.value.sent == [0] && c.value.view == v &&
      c.value.global == global[0 := THRESHOLD] && c.value.local == local
  {
    hide Perform, Loaded;
    var c0 := Started(local, global, v);
    Assigned(Global(0), Sum, Constant(THRESHOLD), Constant(0), c0, THRESHOLD);
    var c1 := Perform(DETECT[0].kind, Loaded(DETECT[0], c0)).value;
    Sent(c1, 1);
    assert DETECT[0..] == DETECT && DETECT[2..] == [];
    ExecuteFrom(DETECT, 0, c0);
    ExecuteFrom(DETECT, 1, c1);
  }

  /** Marking a packet and sending it on. */
  lemma Marks(local: Registers, global: Registers, v: View)
    requires ValidView(v)
    ensures var c := Execute(FORWARD_MARKED, Started(local, global, v));
      c.Some? && !c.value.destroy && c.value.sent == [0] && c.value.view == Set(v, Ipv4Tos, MARK) &&
      c.value.global == global && c.value.local == local
  {
    hide Set;
    var c0 := Started(local, global, v);
    var c1 := Perform(FORWARD_MARKED[0].kind, Loaded(FORWARD_MARKED[0], c0)).value;
    Sent(c1, 1);
    assert FORWARD_MARKED[0..] == FORWARD_MARKED && FORWARD_MARKED[2..] == [];
    ExecuteFrom(FORWARD_MARKED, 0, c0);
    ExecuteFrom(FORWARD_MARKED, 1, c1);
  }

  /** What is left of a packet: it is marked when its flow was detected before. */
  function Leaves(v: View, marked: bool): View
    requires ValidView(v)
  {
    if marked then Set(v, Ipv4Tos, MARK) else v
  }

  /** One packet: every packet is sent on; it counts or detects its flow, or it is marked. */
  lemma OnePacket(f: Flow, global: Registers, v: View)
    requires ValidView(v) && f.state in {DEFAULT, DETECTED} && 0 <= f.local[0] && global[0] in {0, THRESHOLD}
    ensures var r := Step(PROGRAM, f, global, v);
      r.Some? && r.value.sent == [0] && r.value.view == Leaves(v, f.state == DETECTED) &&
      (f.state == DETECTED ==> r.value.flow == Some(f) && r.value.global == global) &&
      (f.state == DEFAULT ==>
        r.value.global == global[0 := THRESHOLD] &&
        r.value.flow == Some(if f.local[0] < global[0] then Flow(f.local[0 := f.local[0] + 1], DEFAULT)
                             else Flow(f.local, DETECTED)))
  {
    hide EvaluateAll, FirstMatch, Execute, Set;
    Conditions(f.local, global, v);
    RowOf(f.state, EvaluateAll(CONDITIONS, f.local, global, v));
    if f.state == DETECTED {
      Marks(f.local, global, v);
    } else if f.local[0] < global[0] {
      Counts(f.local, global, v);
    } else {
      Detects(f.local, global, v);
    }
  }

  // ---------------------------------------------------------------- runs

  /** How many packets of a flow pass unmarked. The very first flow meets a threshold that is still 0. */
  function Unmarked(first: bool): nat { if first then 1 else THRESHOLD + 1 }

  /** What is kept for a flow after `n` of its packets. */
  predicate Counted(f: Flow, n: nat, first: bool) {
    f.state == (if n < Unmarked(first) then DEFAULT else DETECTED) &&
    0 <= f.local[0] && (n < Unmarked(first) ==> f.local[0] == n)
  }

  /** What holds after some packets of which the first was of the flow `lead`, and `n` of the flow `k`. */
  predicate Invariant(m: Machine, lead: Option<Key>, k: Key, n: nat) {
    (k in m.flows <==> n > 0) && m.global[0] == (if lead.None? then 0 else THRESHOLD) &&
    (lead.None? <==> m.flows == map[]) && (lead.Some? ==> lead.value in m.flows) &&
    (forall l :: l in m.flows ==> m.flows[l].state in {DEFAULT, DETECTED} && 0 <= m.flows[l].local[0]) &&
    (n > 0 && lead.Some? ==> Counted(m.flows[k], n, lead.value == k))
  }

  /** The packets of a flow. */
  function Packets(trace: Trace, k: Key): nat {
    if trace == [] then 0 else (if trace[0].key == k then 1 else 0) + Packets(trace[1..], k)
  }

  /** The flow of the first packet. */
  function Lead(lead: Option<Key>, trace: Trace): Option<Key> {
    if lead.Some? || trace == [] then lead else Some(trace[0].key)
  }

  lemma Keeps(m: Machine, lead: Option<Key>, k: Key, n: nat, l: Key, v: View)
    requires ValidView(v) && Invariant(m, lead, k, n) && Advance(PROGRAM, m, l, v).Some?
    ensures var after := if lead.None? then Some(l) else lead;
      Invariant(Advance(PROGRAM, m, l, v).value.0, after, k, n + if l == k then 1 else 0) &&
      Advance(PROGRAM, m, l, v).value.1.sent == [0] &&
      (l == k ==> Advance(PROGRAM, m, l, v).value.1.view == Leaves(v, n >= Unmarked(after.value == k)))
  {
    hide Step, Leaves;
    var w := WithFlow(PROGRAM, m, l).value;
    OnePacket(w.flows[l], m.global, v);
  }

  lemma {:induction false} RunKeeps(m: Machine, trace: Trace, lead: Option<Key>, k: Key, n: nat)
    requires Invariant(m, lead, k, n) && Run(PROGRAM, m, trace).Some?
    ensures Invariant(Run(PROGRAM, m, trace).value.machine, Lead(lead, trace), k, n + Packets(trace, k))
    decreases |trace|
  {
    hide Advance, Invariant, Run;
    if trace != [] {
      RunFirst(PROGRAM, m, trace);
      var (l, v) := (trace[0].key, trace[0].view);
      Keeps(m, lead, k, n, l, v);
      var after := if lead.None? then Some(l) else lead;
      RunKeeps(Advance(PROGRAM, m, l, v).value.0, trace[1..], after, k, n + if l == k then 1 else 0);
    } else {
      RunNothing(PROGRAM, m);
    }
  }

  /** In every run all packets are sent on. A packet leaves with the mark exactly when its flow has had 151 packets
      before it, or, for the flow that the very first packet belongs to, one; otherwise it leaves as it came. */
  lemma MarksElephants(trace: Trace, r: Outcomes, i: nat)
    requires Run(PROGRAM, Fresh(PROGRAM), trace) == Some(r) && i < |trace|
    ensures r.verdicts[i].sent == [0]
    ensures var (k, before) := (trace[i].key, Packets(trace[..i], trace[i].key));
      r.verdicts[i].view == Leaves(trace[i].view, before >= if trace[0].key == k then 1 else 151)
  {
    hide Advance, Run, Leaves, Invariant, Packets, Lead, Fresh;
    var m := BeforePacket(trace, r, i);
    LeadOf(trace, i);
    Keeps(m, Lead(None, trace[..i]), trace[i].key, Packets(trace[..i], trace[i].key), trace[i].key, trace[i].view);
  }

  lemma BeforePacket(trace: Trace, r: Outcomes, i: nat) returns (m: Machine)
    requires Run(PROGRAM, Fresh(PROGRAM), trace) == Some(r) && i < |trace|
    ensures Invariant(m, Lead(None, trace[..i]), trace[i].key, Packets(trace[..i], trace[i].key))
    ensures Advance(PROGRAM, m, trace[i].key, trace[i].view).Some?
    ensures Advance(PROGRAM, m, trace[i].key, trace[i].view).value.1 == r.verdicts[i]
  {
    hide Advance, Run, Invariant, Packets, Lead, Fresh;
    RunPrefix(PROGRAM, Fresh(PROGRAM), trace, i);
    FreshIsReached(trace[i].key);
    RunKeeps(Fresh(PROGRAM), trace[..i], None, trace[i].key, 0);
    m := Run(PROGRAM, Fresh(PROGRAM), trace[..i]).value.machine;
  }

  lemma LeadOf(trace: Trace, i: nat)
    requires i < |trace|
    ensures Lead(None, trace[..i]) == if i == 0 then None else Some(trace[0].key)
  {
  }

  lemma FreshIsReached(k: Key)
    ensures Invariant(Fresh(PROGRAM), None, k, 0)
  {
  }

  /** A marked packet reads 150 as its type of service, and all else as it came. */
  lemma MarkIsRead(v: View, f: HdrField)
    requires ValidView(v)
    ensures Get(Leaves(v, true), Ipv4Tos) == Some(150)
    ensures f != Ipv4Tos ==> Get(Leaves(v, true), f) == Get(v, f)
  {
    hide Get, Set;
    SetGet(v, Ipv4Tos, f, MARK);
  }

  /** The engine accepts the table. */
  lemma Loads()
    ensures Loadable(PROGRAM)
  {
    SmallTable(ROWS);
  }
}
