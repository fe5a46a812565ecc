/** The port-knocking firewall: a source reaches port 22 only after knocking on four ports in order. */
module PortKnocking {
  import opened Bytes
  import opened Packet
  import opened FlowKey
  import opened Efsm
  import opened TableIndex
  import opened Engine
  import opened Runs
  import opened Tables

  const KNOCKS: seq<int> := [2570, 2827, 3084, 5555]
  const SSH: int := 22

  const ALLOWED: nat := 4

  const DPORT: Operand := Field(TcpDport)

  const CONDITIONS: seq<Condition> := [
    Condition(DPORT, Constant(2570), Equal),
    Condition(DPORT, Constant(2827), Equal),
    Condition(DPORT, Constant(3084), Equal),
    Condition(DPORT, Constant(5555), Equal),
    Condition(DPORT, Constant(22), Equal)
  ]

  const ROWS: seq<Row> := [
    Row(0, DONT_CARES[0 := IsTrue], [], 1, NULL_STAGE),
    Row(1, DONT_CARES[1 := IsTrue], [], 2, NULL_STAGE),
    Row(2, DONT_CARES[2 := IsTrue], [], 3, NULL_STAGE),
    Row(3, DONT_CARES[3 := IsTrue], [], 4, NULL_STAGE),
    Row(4, DONT_CARES[4 := IsTrue], [Send(2)], 4, NULL_STAGE)
  ]

  const PROGRAM: Program := Program(CONDITIONS, ROWS, KeySpec([Ipv4Src], 0), 0)

  // ---------------------------------------------------------------- what the firewall is for

  /** Strictly increasing positions of `t` where `s` can be read. */
  predicate Embeds(at: seq<nat>, s: seq<int>, t: seq<int>) {
    |at| == |s| &&
    (forall i :: 0 <= i < |at| ==> at[i] < |t| && t[at[i]] == s[i]) &&
    (forall i, j :: 0 <= i < j < |at| ==> at[i] < at[j])
  }

  ghost predicate Subsequence(s: seq<int>, t: seq<int>) { exists at: seq<nat> :: Embeds(at, s, t) }

  /** The first `n` knocks were heard in order, and no more than those. */
  ghost predicate Heard(n: nat, ports: seq<int>) {
    n <= |KNOCKS| && Subsequence(KNOCKS[..n], ports) && (n < |KNOCKS| ==> !Subsequence(KNOCKS[..n + 1], ports))
  }

  /** The destination port as conditions see it: 0 for a packet that has none. */
  function Port(v: View): int
    requires ValidView(v)
  {
    match Get(v, TcpDport) case None => 0 case Some(x) => x
  }

  /** The destination ports of the packets of a flow. */
  function Ports(trace: Trace, k: Key): seq<int> {
    if trace == [] then []
    else (if trace[0].key == k then [Port(trace[0].view)] else []) + Ports(trace[1..], k)
  }

  // ---------------------------------------------------------------- knocks

  lemma Shortened(at: seq<nat>, s: seq<int>, t: seq<int>, n: nat, m: nat)
    requires Embeds(at, s, t) && n <= |s| && m <= |t| && (n == 0 || at[n - 1] < m)
    ensures Subsequence(s[..n], t[..m])
  {
    forall i | 0 <= i < n ensures at[i] < m {
      assert i < n - 1 ==> at[i] < at[n - 1];
    }
    assert Embeds(at[..n], s[..n], t[..m]);
  }

  lemma Extended(s: seq<int>, t: seq<int>, x: int)
    requires Subsequence(s, t)
    ensures Subsequence(s, t + [x]) && Subsequence(s + [x], t + [x])
  {
    var at: seq<nat> :| Embeds(at, s, t);
    assert Embeds(at, s, t + [x]);
    assert Embeds(at + [|t|], s + [x], t + [x]);
  }

  lemma NotExtended(s: seq<int>, n: nat, t: seq<int>, x: int)
    requires n < |s| && !Subsequence(s[..n + 1], t)
    ensures s[n] != x ==> !Subsequence(s[..n + 1], t + [x])
    ensures n + 1 < |s| ==> !Subsequence(s[..n + 2], t + [x])
  {
    assert (t + [x])[..|t|] == t;
    if s[n] != x && Subsequence(s[..n + 1], t + [x]) {
      var at: seq<nat> :| Embeds(at, s[..n + 1], t + [x]);
      assert s[..n + 1][..n + 1] == s[..n + 1];
      Shortened(at, s[..n + 1], t + [x], n + 1, |t|);
    }
    if n + 1 < |s| && Subsequence(s[..n + 2], t + [x]) {
      var at: seq<nat> :| Embeds(at, s[..n + 2], t + [x]);
      assert s[..n + 2][..n + 1] == s[..n + 1];
      assert at[n] < at[n + 1] < |t| + 1;
      Shortened(at, s[..n + 2], t + [x], n + 1, |t|);
    }
  }

  /** Hearing one more port moves on exactly when it is the next knock. */
  lemma HeardNext(n: nat, ports: seq<int>, x: int)
    requires Heard(n, ports)
    ensures Heard(if n < |KNOCKS| && x == KNOCKS[n] then n + 1 else n, ports + [x])
  {
    Extended(KNOCKS[..n], ports, x);
    if n < |KNOCKS| {
      NotExtended(KNOCKS, n, ports, x);
      assert x == KNOCKS[n] ==> KNOCKS[..n] + [x] == KNOCKS[..n + 1];
    }
  }

  lemma HeardNothing()
    ensures Heard(0, [])
  {
    assert Embeds([], KNOCKS[..0], []);
    forall at: seq<nat> ensures !Embeds(at, KNOCKS[..1], []) {
      assert |at| == 1 ==> at[0] >= 0;
    }
  }

  // ---------------------------------------------------------------- one packet

  lemma Conditions(local: Registers, global: Registers, v: View)
    requires ValidView(v)
    ensures var r := EvaluateAll(CONDITIONS, local, global, v);
      |r| == 5 && (forall i :: 0 <= i < 4 ==> (r[i] == IsTrue <==> Port(v) == KNOCKS[i])) &&
        (r[4] == IsTrue <==> Port(v) == SSH)
  {
    hide EvaluateAll, Get;
    var r := EvaluateAll(CONDITIONS, local, global, v);
    assert forall i :: 0 <= i < 5 ==> r[i] == Evaluate(CONDITIONS[i], local, global, v);
  }

  lemma {:induction false} Fitting(r: seq<Outcome>)
    requires |r| == 5 && forall i :: 0 <= i < 5 ==> r[i] != DontCare
    ensures Fits(ROWS[0], r) <==> r[0] == IsTrue
    ensures Fits(ROWS[1], r) <==> r[1] == IsTrue
    ensures Fits(ROWS[2], r) <==> r[2] == IsTrue
    ensures Fits(ROWS[3], r) <==> r[3] == IsTrue
    ensures Fits(ROWS[4], r) <==> r[4] == IsTrue
  {
    hide Fits;
    OneWanted(ROWS[0], 0, r);
    OneWanted(ROWS[1], 1, r);
    OneWanted(ROWS[2], 2, r);
    OneWanted(ROWS[3], 3, r);
    OneWanted(ROWS[4], 4, r);
  }

  /** A row that wants one condition to hold. */
  lemma OneWanted(row: Row, c: nat, r: seq<Outcome>)
    requires c < |r| <= |DONT_CARES| && row.results == DONT_CARES[c := IsTrue]
    requires forall i :: 0 <= i < |r| ==> r[i] != DontCare
    ensures Fits(row, r) <==> r[c] == IsTrue
  {
    assert forall i :: 0 <= i < |DONT_CARES| ==> DONT_CARES[i] == DontCare;
  }

  /** Which row a packet takes. */
  lemma {:induction false} RowOf(state: nat, r: seq<Outcome>)
    requires |r| == 5 && state <= ALLOWED && forall i :: 0 <= i < 5 ==> r[i] != DontCare
    ensures FirstMatch(ROWS, state, r) == if r[state] == IsTrue then Some(ROWS[state]) else None
  {
    hide Fits, FirstMatch;
    assert ROWS[0..] == ROWS && ROWS[5..] == [];
    Fitting(r);
    NoRows(state, r);
    FirstMatchFrom(ROWS, 0, state, r);
    FirstMatchFrom(ROWS, 1, state, r);
    FirstMatchFrom(ROWS, 2, state, r);
    FirstMatchFrom(ROWS, 3, state, r);
    FirstMatchFrom(ROWS, 4, state, r);
  }

  /** What one packet does: the next knock moves the flow on, and port 22 is let through once allowed. */
  lemma OnePacket(f: Flow, global: Registers, v: View)
    requires ValidView(v) && f.state <= ALLOWED
    ensures var r := Step(PROGRAM, f, global, v);
      r.Some? && r.value.flow.Some? &&
      r.value.flow.value.state == (if f.state < ALLOWED && Port(v) == KNOCKS[f.state] then f.state + 1 else f.state) &&
      r.value.sent == if f.state == ALLOWED && Port(v) == SSH then [1] else []
  {
    hide EvaluateAll, FirstMatch, Get, Port;
    Conditions(f.local, global, v);
    RowOf(f.state, EvaluateAll(CONDITIONS, f.local, global, v));
    var c := Started(f.local, global, v);
    if f.state == ALLOWED {
      Sent(c, 2);
      assert [Send(2)][0..] == [Send(2)];
      ExecuteFrom([Send(2)], 0, c);
    }
  }

  // ---------------------------------------------------------------- runs

  /** The state of a flow counts the knocks heard so far. */
  ghost predicate Invariant(m: Machine, k: Key, ports: seq<int>) {
    if k in m.flows then Heard(m.flows[k].state, ports) else ports == []
  }

  lemma Keeps(m: Machine, k: Key, ports: seq<int>, l: Key, v: View)
    requires ValidView(v) && Invariant(m, k, ports) && Advance(PROGRAM, m, l, v).Some?
    ensures Invariant(Advance(PROGRAM, m, l, v).value.0, k, ports + if l == k then [Port(v)] else [])
    ensures l == k ==>
      (Advance(PROGRAM, m, l, v).value.1.sent == if Subsequence(KNOCKS, ports) && Port(v) == SSH then [1] else [])
  {
    hide Step, Heard, Port;
    assert ports + [] == ports;
    if l == k {
      HeardNothing();
      var f := WithFlow(PROGRAM, m, l).value.flows[l];
      HeardAll(f.state, ports);
      OnePacket(f, m.global, v);
      HeardNext(f.state, ports, Port(v));
    }
  }

  lemma HeardAll(n: nat, ports: seq<int>)
    requires Heard(n, ports)
    ensures n <= |KNOCKS| && (n == |KNOCKS| <==> Subsequence(KNOCKS, ports))
  {
    assert KNOCKS[..|KNOCKS|] == KNOCKS;
    assert ports[..|ports|] == ports;
    if n < |KNOCKS| && Subsequence(KNOCKS, ports) {
      var at: seq<nat> :| Embeds(at, KNOCKS, ports);
      Shortened(at, KNOCKS, ports, n + 1, |ports|);
    }
  }

  lemma NoPorts(ports: seq<int>, k: Key)
    ensures ports + Ports([], k) == ports
  {
  }

  lemma FirstPort(ports: seq<int>, trace: Trace, k: Key)
    requires trace != []
    ensures ports + Ports(trace, k)
         == ports + (if trace[0].key == k then [Port(trace[0].view)] else []) + Ports(trace[1..], k)
  {
    hide Port;
    var one := if trace[0].key == k then [Port(trace[0].view)] else [];
    assert ports + (one + Ports(trace[1..], k)) == ports + one + Ports(trace[1..], k);
  }

  lemma {:induction false} RunKeeps(m: Machine, trace: Trace, k: Key, ports: seq<int>)
    requires Invariant(m, k, ports) && Run(PROGRAM, m, trace).Some?
    ensures Invariant(Run(PROGRAM, m, trace).value.machine, k, ports + Ports(trace, k))
    decreases |trace|
  {
    hide Advance, Invariant, Port, Run, Ports;
    if trace != [] {
      RunFirst(PROGRAM, m, trace);
      var (l, v) := (trace[0].key, trace[0].view);
      Keeps(m, k, ports, l, v);
      FirstPort(ports, trace, k);
      RunKeeps(Advance(PROGRAM, m, l, v).value.0, trace[1..], k, ports + if l == k then [Port(v)] else []);
    } else {
      RunNothing(PROGRAM, m);
      NoPorts(ports, k);
    }
  }

  /** In every run, the state of a source is the length of the longest prefix of the knocks that is a
      subsequence of the ports it has tried. */
  lemma StateCountsKnocks(trace: Trace, r: Outcomes, k: Key)
    requires Run(PROGRAM, Fresh(PROGRAM), trace) == Some(r)
    ensures if k in r.machine.flows then Heard(r.machine.flows[k].state, Ports(trace, k)) else Ports(trace, k) == []
  {
    RunKeeps(Fresh(PROGRAM), trace, k, []);
    assert [] + Ports(trace, k) == Ports(trace, k);
  }

  /** In every run, the next packet of a source leaves by port 2 exactly when it goes to port 22 and the source
      has knocked on all four ports in order; no other packet leaves at all. */
  lemma OpensAfterKnocks(trace: Trace, r: Outcomes, k: Key, v: View)
    requires Run(PROGRAM, Fresh(PROGRAM), trace) == Some(r) && ValidView(v) && Advance(PROGRAM, r.machine, k, v).Some?
    ensures Advance(PROGRAM, r.machine, k, v).value.1.sent
         == if Subsequence(KNOCKS, Ports(trace, k)) && Port(v) == SSH then [1] else []
  {
    hide Advance, Heard;
    StateCountsKnocks(trace, r, k);
    Keeps(r.machine, k, Ports(trace, k), k, v);
  }

  /** The engine accepts the table. */
  lemma Loads()
    ensures Loadable(PROGRAM)
  {
    SmallTable(ROWS);
  }
}
