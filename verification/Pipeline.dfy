/** The packet loop: a packet goes from stage to stage until a table sends it to no stage. */
module Pipeline {
  import opened Bytes
  import opened Packet
  import opened Headers
  import opened FlowKey
  import opened Efsm
  import opened TableIndex
  import opened Engine

  const MAX_STAGES: nat := 8

  /** Every row goes on to a later stage or to none, and leaves the transport protocol of the packet alone. */
  predicate WellStaged(ps: seq<Program>) {
    0 < |ps| <= MAX_STAGES &&
    (forall i :: 0 <= i < |ps| ==> ps[i].Valid()) &&
    (forall i, j :: 0 <= i < |ps| && 0 <= j < |ps[i].rows| ==> WellPlaced(ps[i].rows[j], i, |ps|))
  }

  predicate WellPlaced(row: Row, stage: nat, stages: nat) {
    (row.nextStage == NULL_STAGE || stage < row.nextStage < stages) && KeepsProtocol(row.actions)
  }

  predicate KeepsProtocol(actions: seq<Action>) {
    forall i :: 0 <= i < |actions| ==> actions[i].kind != SetField(Ipv4Proto)
  }

  /** What a packet leaves behind: the machines of all stages, the key buffer, the frame and the ports it left by. */
  datatype Passage = Passage(machines: seq<Machine>, key: Key, data: bytes, sent: seq<nat>)

  function Earlier(sent: seq<nat>, r: Option<Passage>): Option<Passage> {
    match r
    case None => None
    case Some(p) => Some(p.(sent := sent + p.sent))
  }

  /** A packet from one stage on; nothing when some table cannot go on. Every stage parses the frame again. */
  function PassThrough(ps: seq<Program>, ms: seq<Machine>, key: Key, data: bytes, port: byte, now: nat,
                       stage: nat): Option<Passage>
    requires WellStaged(ps) && |ms| == |ps| && |data| >= MIN_FRAME && now < WORD64
    requires stage < |ps| || stage == NULL_STAGE
    decreases if stage == NULL_STAGE then 0 else |ps| - stage
  {
    if stage == NULL_STAGE then Some(Passage(ms, key, data, []))
    else
      var v := Parse(data, port, now);
      var k := KeyOf(key, ps[stage].key, v);
      var r := Advance(ps[stage], ms[stage], k, v);
      if r.None? then None
      else
        StaysPlaced(ps, ms[stage], k, v, stage);
        Earlier(r.value.1.sent,
          PassThrough(ps, ms[stage := r.value.0], k, r.value.1.view.data, port, now, r.value.1.stage))
  }

  lemma {:induction false} ExecuteKeepsProtocol(actions: seq<Action>, c: Context)
    requires ValidView(c.view) && KeepsProtocol(actions)
    ensures Execute(actions, c).Some? ==> Execute(actions, c).value.view.data[23] == c.view.data[23]
    decreases |actions|
  {
    if actions != [] {
      assert actions[0].kind != SetField(Ipv4Proto);
      PerformKeepsProtocol(actions[0].kind, Loaded(actions[0], c));
      var d := Perform(actions[0].kind, Loaded(actions[0], c));
      if d.Some? {
        ExecuteKeepsProtocol(actions[1..], d.value);
      }
    }
  }

  lemma PerformKeepsProtocol(k: Kind, c: Context)
    requires ValidView(c.view) && k != SetField(Ipv4Proto)
    ensures Perform(k, c).Some? ==> Perform(k, c).value.view.data[23] == c.view.data[23]
  {
    if k.SetField? && Present(c.view, k.field) {
      SetGet(c.view, k.field, Ipv4Proto, c.reg3);
      ProtocolByte(c.view);
      ProtocolByte(Set(c.view, k.field, c.reg3));
    }
  }

  lemma ProtocolByte(v: View)
    requires ValidView(v)
    ensures Get(v, Ipv4Proto) == Some(v.data[23])
  {
    BigEndianSlice(v.data, 23);
  }

  /** A table leads to a later stage and keeps the transport protocol. */
  lemma StaysPlaced(ps: seq<Program>, m: Machine, k: Key, v: View, stage: nat)
    requires WellStaged(ps) && stage < |ps| && ValidView(v)
    ensures var r := Advance(ps[stage], m, k, v);
      r.Some? ==>
        (r.value.1.stage == NULL_STAGE || stage < r.value.1.stage < |ps|) && r.value.1.view.data[23] == v.data[23]
  {
    hide Execute, EvaluateAll, Fits;
    var p, n := ps[stage], WithFlow(ps[stage], m, k);
    if n.Some? {
      var f := n.value.flows[k];
      var row := FirstMatch(p.rows, f.state, EvaluateAll(p.conditions, f.local, n.value.global, v));
      if row.Some? {
        assert WellPlaced(row.value, stage, |ps|);
        ExecuteKeepsProtocol(row.value.actions, Started(f.local, n.value.global, v));
      }
    }
  }

  // ---------------------------------------------------------------- the way of a packet

  /** A packet at a stage: what the stage sees of it, and what the stage does. */
  datatype Visit = Visit(stage: nat, key: Key, view: View, machine: Machine, verdict: Verdict)

  /** What a stage does to the frame that comes to it. */
  predicate IsVisit(ps: seq<Program>, ms: seq<Machine>, port: byte, now: nat, v: Visit, key: Key, data: bytes)
    requires |ms| == |ps| && now < WORD64
  {
    v.stage < |ps| && ps[v.stage].Valid() && |data| >= MIN_FRAME && v.view == Parse(data, port, now) &&
    v.key == KeyOf(key, ps[v.stage].key, v.view) &&
    Advance(ps[v.stage], ms[v.stage], v.key, v.view) == Some((v.machine, v.verdict))
  }

  /** The key and the frame that come to the visit `i`. */
  function KeyBefore(path: seq<Visit>, i: nat, key: Key): Key
    requires i <= |path|
  {
    if i == 0 then key else path[i - 1].key
  }

  function DataBefore(path: seq<Visit>, i: nat, data: bytes): bytes
    requires i <= |path|
  {
    if i == 0 then data else path[i - 1].verdict.view.data
  }

  /** The way of a packet from a stage on: every stage that it visits is the one that the verdict before it names, and
      the last verdict names none. */
  predicate IsPath(ps: seq<Program>, ms: seq<Machine>, key: Key, data: bytes, port: byte, now: nat, stage: nat,
                   path: seq<Visit>)
    requires |ms| == |ps| && now < WORD64
  {
    (path == [] <==> stage == 255) &&
      (path != [] ==> path[0].stage == stage && path[|path| - 1].verdict.stage == 255) &&
    (forall i :: 0 <= i < |path| ==>
      IsVisit(ps, ms, port, now, path[i], KeyBefore(path, i, key), DataBefore(path, i, data))) &&
    (forall i :: 0 < i < |path| ==> path[i].stage == path[i - 1].verdict.stage)
  }

  function AllSent(path: seq<Visit>): seq<nat> {
    if path == [] then [] else path[0].verdict.sent + AllSent(path[1..])
  }

  /** The machines afterwards: a stage that was visited has moved on, and the others are as they were. */
  predicate Visited(ms: seq<Machine>, after: seq<Machine>, path: seq<Visit>) {
    |after| == |ms| && (forall i :: 0 <= i < |path| ==>
      path[i].stage < |ms| && after[path[i].stage] == path[i].machine) &&
    forall s :: 0 <= s < |ms| && (forall i :: 0 <= i < |path| ==> path[i].stage != s) ==> after[s] == ms[s]
  }

  /** The stages of a path only go up. */
  lemma {:induction false} PathAscends(ps: seq<Program>, ms: seq<Machine>, key: Key, data: bytes, port: byte, now: nat,
                                       stage: nat, path: seq<Visit>, i: nat)
    requires WellStaged(ps) && |ms| == |ps| && now < WORD64 && IsPath(ps, ms, key, data, port, now, stage, path)
    requires 0 < i < |path|
    ensures path[0].stage < path[i].stage
    decreases i
  {
    hide Advance, FlowKey.KeyOf, Parse;
    var v := path[i - 1];
    StaysPlaced(ps, ms[v.stage], v.key, v.view, v.stage);
    if i > 1 {
      PathAscends(ps, ms, key, data, port, now, stage, path, i - 1);
    }
  }

  lemma FirstStage(ps: seq<Program>, ms: seq<Machine>, port: byte, now: nat, v: Visit, key: Key, data: bytes)
    requires |ms| == |ps| && now < WORD64 && IsVisit(ps, ms, port, now, v, key, data)
    ensures v.stage < |ps| && (WellStaged(ps) ==> v.stage != NULL_STAGE)
  {
  }

  /** A visit to another stage does not see what became of this one. */
  lemma OtherVisit(ps: seq<Program>, ms: seq<Machine>, port: byte, now: nat, v: Visit, key: Key, data: bytes, s: nat,
                   m: Machine)
    requires |ms| == |ps| && now < WORD64 && s < |ms| && v.stage != s
    ensures IsVisit(ps, ms[s := m], port, now, v, key, data) <==> IsVisit(ps, ms, port, now, v, key, data)
  {
    hide Advance, FlowKey.KeyOf, Parse;
  }

  /** The way of a packet after its first visit. */
  lemma PathRest(ps: seq<Program>, ms: seq<Machine>, key: Key, data: bytes, port: byte, now: nat, stage: nat,
                 path: seq<Visit>)
    requires WellStaged(ps) && |ms| == |ps| && now < WORD64 && IsPath(ps, ms, key, data, port, now, stage, path)
    requires path != []
    ensures var first := path[0];
      IsPath(ps, ms[stage := first.machine], first.key, first.verdict.view.data, port, now, first.verdict.stage,
        path[1..])
  {
    hide IsVisit, WellStaged;
    var rest, first := path[1..], path[0];
    FirstStage(ps, ms, port, now, first, key, data);
    forall i | 0 <= i < |rest|
      ensures IsVisit(ps, ms[stage := first.machine], port, now, rest[i], KeyBefore(rest, i, first.key),
        DataBefore(rest, i, first.verdict.view.data)) {
      var (k, d) := (KeyBefore(path, i + 1, key), DataBefore(path, i + 1, data));
      assert IsVisit(ps, ms, port, now, path[i + 1], k, d);
      PathAscends(ps, ms, key, data, port, now, stage, path, i + 1);
      OtherVisit(ps, ms, port, now, path[i + 1], k, d, stage, first.machine);
      assert rest[i] == path[i + 1] && KeyBefore(rest, i, first.key) == k;
      assert DataBefore(rest, i, first.verdict.view.data) == d;
    }
    if rest != [] {
      assert rest[0] == path[1] && rest[|rest| - 1] == path[|path| - 1];
      assert IsVisit(ps, ms, port, now, path[1], KeyBefore(path, 1, key), DataBefore(path, 1, data));
      FirstStage(ps, ms, port, now, path[1], KeyBefore(path, 1, key), DataBefore(path, 1, data));
    }
    forall i | 0 < i < |rest| ensures rest[i].stage == rest[i - 1].verdict.stage {
      assert rest[i] == path[i + 1] && rest[i - 1] == path[i];
    }
  }

  /** What the pipeline does to a packet is what the stages on its way do, in order. */
  lemma {:induction false} PathIsPassage(ps: seq<Program>, ms: seq<Machine>, key: Key, data: bytes, port: byte,
                                         now: nat,
                                         stage: nat, path: seq<Visit>)
    requires WellStaged(ps) && |ms| == |ps| && |data| >= MIN_FRAME && now < WORD64
    requires IsPath(ps, ms, key, data, port, now, stage, path)
    ensures stage < |ps| || stage == NULL_STAGE
    ensures var r := PassThrough(ps, ms, key, data, port, now, stage);
      r.Some? && r.value.sent == AllSent(path) && r.value.key == KeyBefore(path, |path|, key) &&
      r.value.data == DataBefore(path, |path|, data) && Visited(ms, r.value.machines, path)
    decreases |path|
  {
    hide Advance, FlowKey.KeyOf, Parse, WellStaged;
    if path != [] {
      var first, rest := path[0], path[1..];
      PathRest(ps, ms, key, data, port, now, stage, path);
      assert IsVisit(ps, ms, port, now, first, key, data);
      PathIsPassage(ps, ms[stage := first.machine], first.key, first.verdict.view.data, port, now, first.verdict.stage,
        rest);
      var after := PassThrough(ps, ms, key, data, port, now, stage).value.machines;
      forall i | 0 < i < |path| ensures path[0].stage < path[i].stage && path[i] == rest[i - 1] {
        PathAscends(ps, ms, key, data, port, now, stage, path, i);
      }
      VisitedMore(ms, after, path);
    }
  }

  lemma VisitedMore(ms: seq<Machine>, after: seq<Machine>, path: seq<Visit>)
    requires path != [] && path[0].stage < |ms| && Visited(ms[path[0].stage := path[0].machine], after, path[1..])
    requires forall i :: 0 < i < |path| ==> path[0].stage < path[i].stage
    ensures Visited(ms, after, path)
  {
    var rest, s := path[1..], path[0].stage;
    assert forall i :: 0 <= i < |rest| ==> rest[i] == path[i + 1];
    assert forall i :: 0 < i < |path| ==> path[i] == rest[i - 1];
  }

  /** Every packet that passes has such a way. */
  lemma {:induction false} PassageHasPath(ps: seq<Program>, ms: seq<Machine>, key: Key, data: bytes, port: byte,
                                          now: nat, stage: nat)
    returns (path: seq<Visit>)
    requires WellStaged(ps) && |ms| == |ps| && |data| >= MIN_FRAME && now < WORD64
    requires stage < |ps| || stage == NULL_STAGE
    requires PassThrough(ps, ms, key, data, port, now, stage).Some?
    ensures IsPath(ps, ms, key, data, port, now, stage, path)
    decreases if stage == NULL_STAGE then 0 else |ps| - stage
  {
    hide Advance, FlowKey.KeyOf, Parse, WellPlaced, IsPath;
    if stage == NULL_STAGE {
      NoWay(ps, ms, key, data, port, now);
      return [];
    }
    var v := Parse(data, port, now);
    var k := KeyOf(key, ps[stage].key, v);
    var (n, verdict) := Advance(ps[stage], ms[stage], k, v).value;
    StaysPlaced(ps, ms[stage], k, v, stage);
    var rest := PassageHasPath(ps, ms[stage := n], k, verdict.view.data, port, now, verdict.stage);
    path := [Visit(stage, k, v, n, verdict)] + rest;
    assert path[0] == Visit(stage, k, v, n, verdict) && path[1..] == rest;
    PathFrom(ps, ms, key, data, port, now, path);
  }

  lemma NoWay(ps: seq<Program>, ms: seq<Machine>, key: Key, data: bytes, port: byte, now: nat)
    requires |ms| == |ps| && now < WORD64
    ensures IsPath(ps, ms, key, data, port, now, NULL_STAGE, [])
  {
  }

  lemma PathFrom(ps: seq<Program>, ms: seq<Machine>, key: Key, data: bytes, port: byte, now: nat, path: seq<Visit>)
    requires WellStaged(ps) && |ms| == |ps| && now < WORD64 && path != []
    requires IsVisit(ps, ms, port, now, path[0], key, data)
    requires var first := path[0];
      first.stage != NULL_STAGE && (first.verdict.stage == NULL_STAGE || first.stage < first.verdict.stage) &&
      IsPath(ps, ms[first.stage := first.machine], first.key, first.verdict.view.data, port, now, first.verdict.stage,
        path[1..])
    ensures IsPath(ps, ms, key, data, port, now, path[0].stage, path)
  {
    hide IsVisit, WellStaged;
    var rest, first := path[1..], path[0];
    FirstStage(ps, ms, port, now, first, key, data);
    var later := ms[first.stage := first.machine];
    forall i | 0 < i < |path|
      ensures IsVisit(ps, ms, port, now, path[i], KeyBefore(path, i, key), DataBefore(path, i, data))
      ensures path[i].stage == path[i - 1].verdict.stage {
      assert path[i] == rest[i - 1] && (i > 1 ==> path[i - 1] == rest[i - 2]);
      var (k, d) := (first.key, first.verdict.view.data);
      assert IsVisit(ps, later, port, now, rest[i - 1], KeyBefore(rest, i - 1, k), DataBefore(rest, i - 1, d));
      if i > 1 {
        PathAscends(ps, later, k, d, port, now, first.verdict.stage, rest, i - 1);
      }
      assert KeyBefore(path, i, key) == KeyBefore(rest, i - 1, k);
      assert DataBefore(path, i, data) == DataBefore(rest, i - 1, d);
      OtherVisit(ps, ms, port, now, path[i], KeyBefore(path, i, key), DataBefore(path, i, data), first.stage,
        first.machine);
    }
    assert rest != [] ==> path[|path| - 1] == rest[|rest| - 1];
  }

  // ---------------------------------------------------------------- the loop

  /** The tables of a pipeline do not share state. */
  ghost predicate Separate(tables: seq<XfsmTable>) {
    forall i, j :: 0 <= i < j < |tables| ==> tables[i] != tables[j] && tables[i].pool != tables[j].pool
  }

  ghost function Programs(tables: seq<XfsmTable>): (r: seq<Program>)
    ensures |r| == |tables| && forall i :: 0 <= i < |r| ==> r[i] == tables[i].program
  {
    seq(|tables|, i requires 0 <= i < |tables| => tables[i].program)
  }

  /** The tables are valid and hold the given machines. */
  ghost predicate Hold(tables: seq<XfsmTable>, ms: seq<Machine>)
    reads tables, set t | t in tables :: t.pool, set t | t in tables :: t.index, set t | t in tables :: t.index.pool
  {
    |ms| == |tables| && forall i :: 0 <= i < |tables| ==> tables[i].Valid() && tables[i].Contents() == ms[i]
  }

  /** One packet through one stage. */
  method RunStage(tables: seq<XfsmTable>, at: nat, m: Mbuf, fields: PacketFields, fk: array<nat>, port: byte, now: nat,
                  ghost ms: seq<Machine>)
    returns (ok: bool, stage: nat, sent: seq<nat>, ghost after: seq<Machine>)
    requires Separate(tables) && Hold(tables, ms) && at < |tables|
    requires m.data.Length >= MIN_FRAME && KnownTransport(m.data[23]) && now < WORD64 && fk.Length == KEY_WORDS
    modifies tables, set t | t in tables :: t.pool, m, m.data, fields, fk
    ensures fk[..] == KeyOf(old(fk[..]), tables[at].program.key, Parse(old(m.data[..]), port, now))
    ensures ok <==> Advance(tables[at].program, ms[at], fk[..], Parse(old(m.data[..]), port, now)).Some?
    ensures ok ==> Hold(tables, after)
    ensures ok ==>
      var r := Advance(tables[at].program, ms[at], fk[..], Parse(old(m.data[..]), port, now)).value;
      after == ms[at := r.0] && stage == r.1.stage && sent == r.1.sent && m.data[..] == r.1.view.data
  {
    hide FlowKey.KeyOf, Advance, Parse, XfsmTable.PoolValid, XfsmTable.TableValid, XfsmTable.CacheValid,
      PacketFields.Valid;
    m.timestamp := now;
    fields.ParsePktHeader(m, port);
    ok, stage, sent := tables[at].ProcessStage(fields, fk);
    after := ms;
    if ok {
      after := ms[at := tables[at].Contents()];
    }
  }

  /** One packet through the pipeline, starting at stage 0. */
  method ProcessPacket(tables: seq<XfsmTable>, m: Mbuf, fields: PacketFields, fk: array<nat>, port: byte, now: nat,
                       ghost ms: seq<Machine>)
    returns (ok: bool, sent: seq<nat>, ghost after: seq<Machine>)
    requires Separate(tables) && Hold(tables, ms) && WellStaged(Programs(tables))
    requires m.data.Length >= MIN_FRAME && KnownTransport(m.data[23]) && now < WORD64 && fk.Length == KEY_WORDS
    modifies tables, set t | t in tables :: t.pool, m, m.data, fields, fk
    ensures var r := PassThrough(Programs(tables), ms, old(fk[..]), old(m.data[..]), port, now, 0);
      (ok <==> r.Some?) && (ok ==> r.value == Passage(after, fk[..], m.data[..], sent))
    ensures ok ==> Hold(tables, after)
  {
    hide FlowKey.KeyOf, Advance, Hold;
    HoldCount(tables, ms);
    ghost var ps := Programs(tables);
    ghost var r := PassThrough(ps, ms, fk[..], m.data[..], port, now, 0);
    EarlierNothing(r);
    after := ms;
    sent := [];
    var stage := 0;
    while stage != NULL_STAGE
      invariant stage < |tables| || stage == NULL_STAGE
      invariant m.data.Length >= MIN_FRAME && KnownTransport(m.data[23])
      invariant |after| == |tables| && Hold(tables, after)
      invariant Earlier(sent, PassThrough(ps, after, fk[..], m.data[..], port, now, stage)) == r
      decreases if stage == NULL_STAGE then 0 else |tables| - stage
    {
      ghost var at, v, was := stage, Parse(m.data[..], port, now), after;
      var out: seq<nat>;
      ok, stage, out, after := RunStage(tables, stage, m, fields, fk, port, now, after);
      if !ok {
        return;
      }
      StaysPlaced(ps, was[at], fk[..], v, at);
      EarlierTwice(sent, out, PassThrough(ps, after, fk[..], m.data[..], port, now, stage));
      sent := sent + out;
    }
    ok := true;
  }

  lemma EarlierTwice(a: seq<nat>, b: seq<nat>, r: Option<Passage>)
    ensures Earlier(a, Earlier(b, r)) == Earlier(a + b, r)
  {
    assert r.Some? ==> a + (b + r.value.sent) == a + b + r.value.sent;
  }

  lemma EarlierNothing(r: Option<Passage>)
    ensures Earlier([], r) == r
  {
    assert r.Some? ==> [] + r.value.sent == r.value.sent;
  }

  lemma HoldCount(tables: seq<XfsmTable>, ms: seq<Machine>)
    requires Hold(tables, ms)
    ensures |ms| == |tables|
  {
  }
}
