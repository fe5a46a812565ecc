/** The tables of the three programs are what the compiler makes of their blocks and the software engine loads. */
module Programs {
  import opened Bytes
  import opened XlBlocks
  import opened Flattening
  import Efsm
  import Tables
  import Policer
  import PortKnocking
  import LoadBalancer
  import Elephant

  const STAGE: Stage := Declared(0)

  // ---------------------------------------------------------------- loading

  /** The results that a row asks of conditions; all others are don't-care. */
  function Results(conditions: seq<nat>): (r: seq<Efsm.Outcome>)
    ensures |r| == |Tables.DONT_CARES|
  {
    if conditions == [] then Tables.DONT_CARES
    else
      var before, c := Results(conditions[..|conditions| - 1]), conditions[|conditions| - 1];
      if c < |before| then before[c := Efsm.IsTrue] else before
  }

  /** The actions that are left when transitions are taken out. */
  function Loaded(actions: seq<Action>): seq<Efsm.Action> {
    if actions == [] then []
    else if actions[0].Effect? then [actions[0].action] + Loaded(actions[1..])
    else Loaded(actions[1..])
  }

  /** The engine's row; it knows no events. */
  function Load(r: RowView): Efsm.Row {
    Efsm.Row(r.state, Results(r.conditions), Loaded(r.actions), r.nextState,
             if r.nextStage.NoStage? then Efsm.NULL_STAGE else r.nextStage.number)
  }

  function LoadAll(rows: seq<RowView>): (r: seq<Efsm.Row>)
    ensures |r| == |rows| && forall i :: 0 <= i < |rows| ==> r[i] == Load(rows[i])
  {
    seq(|rows|, i requires 0 <= i < |rows| => Load(rows[i]))
  }

  /** The table of a state, after packets have been the only event in the program. */
  ghost predicate CompilesTo(b: StateBlock, rows: seq<Efsm.Row>) {
    forall added :: WithoutIfs(b.events, added) ==>
      Compiled(b, STAGE, added, PktRcvd).Some? && LoadAll(Compiled(b, STAGE, added, PktRcvd).value) == rows
  }

  // ---------------------------------------------------------------- bodies

  function Doing(actions: seq<Efsm.Action>): (r: seq<Action>)
    ensures |r| == |actions| && forall i :: 0 <= i < |r| ==> r[i] == Effect(actions[i])
  {
    seq(|actions|, i requires 0 <= i < |actions| => Effect(actions[i]))
  }

  /** Actions, and then the next state. */
  function Going(actions: seq<Efsm.Action>, next: nat): seq<Action> { Doing(actions) + [StateTransition(next)] }

  lemma {:induction false} LoadedDoing(actions: seq<Efsm.Action>)
    ensures Loaded(Doing(actions)) == actions
  {
    if actions != [] {
      assert Doing(actions)[1..] == Doing(actions[1..]);
      LoadedDoing(actions[1..]);
    }
  }

  lemma {:induction false} SettleDoing(actions: seq<Efsm.Action>, next: nat, state: nat, stage: Stage)
    ensures Settle(Doing(actions), state, state, stage) == Some(Settled(Doing(actions), state, stage))
    ensures Settle(Going(actions, next), state, state, stage) == Some(Settled(Doing(actions), next, stage))
  {
    SettledOnce(Doing(actions), state, state, stage);
    if actions == [] {
      assert Going(actions, next) == [StateTransition(next)] && [StateTransition(next)][1..] == [];
    } else {
      assert Going(actions, next)[1..] == Going(actions[1..], next);
      assert Doing(actions)[1..] == Doing(actions[1..]);
      SettleDoing(actions[1..], next, state, stage);
      assert [Effect(actions[0])] + Doing(actions[1..]) == Doing(actions);
    }
  }

  /** A body is actions with or without a next state behind them. */
  predicate IsBody(body: seq<Action>, actions: seq<Efsm.Action>, next: nat, state: nat) {
    body == Going(actions, next) || (body == Doing(actions) && next == state)
  }

  /** The engine's row that an unsettled row becomes. */
  predicate Becomes(r: RowView, row: Efsm.Row) {
    Unsettled(r) && IsBody(r.actions, row.actions, row.nextState, r.state) && row.state == r.state &&
    row.results == Results(r.conditions) && row.nextStage == Efsm.NULL_STAGE
  }

  lemma BodyLoads(r: RowView, row: Efsm.Row)
    requires Becomes(r, row)
    ensures SettleRow(r).Some? && !IsEmpty(SettleRow(r).value, STAGE) && Load(SettleRow(r).value) == row
  {
    SettleDoing(row.actions, row.nextState, r.state, NoStage);
    LoadedDoing(row.actions);
  }

  lemma RowsLoad(rows: seq<RowView>, loaded: seq<Efsm.Row>)
    requires |rows| == |loaded| && forall i :: 0 <= i < |rows| ==> Becomes(rows[i], loaded[i])
    ensures SettleAll(rows).Some? && LoadAll(NonEmpty(SettleAll(rows).value, STAGE)) == loaded
  {
    hide Becomes, Load, SettleRow, SettleAll, LoadAll, IsEmpty, NonEmpty;
    forall i | 0 <= i < |rows| ensures SettleRow(rows[i]).Some? {
      BodyLoads(rows[i], loaded[i]);
    }
    var settled := SettleAll(rows).value;
    forall i | 0 <= i < |rows| ensures !IsEmpty(settled[i], STAGE) && Load(settled[i]) == loaded[i] {
      BodyLoads(rows[i], loaded[i]);
    }
    NonEmptyAll(settled, STAGE);
  }

  /** A state that only treats packets, by ifs, and has some actions on every packet. */
  function PacketState(state: nat, front: seq<Action>, ifs: seq<If>): StateBlock {
    StateBlock(state, front, [EventBlock(PktRcvd, [], ifs)])
  }

  lemma PacketStateRows(state: nat, front: seq<Action>, ifs: seq<If>)
    requires ifs != []
    ensures StateRows(PacketState(state, front, ifs)) == IfRows(front, state, PktRcvd, ifs, |ifs|)
  {
    var b := PacketState(state, front, ifs);
    var eb := b.events[0];
    assert EventActions(b.events, PktRcvd) == [] by {
      assert b.events[..0] == [];
      assert EventActions([], PktRcvd) + eb.body == [];
    }
    assert front + [] == front;
    assert BlockRows(b, 1) == BlockRows(b, 0) + IfRows(front, state, PktRcvd, ifs, |ifs|);
  }

  /** The engine's row that an if becomes. */
  predicate IfBecomes(front: seq<Action>, i: If, row: Efsm.Row, state: nat) {
    Becomes(FreshRow(i.conditions, front + i.body, state, PktRcvd), row)
  }

  /** A state that only treats packets compiles to one row for each of its ifs. */
  lemma PacketStateCompiles(state: nat, front: seq<Action>, ifs: seq<If>, loaded: seq<Efsm.Row>)
    requires |ifs| == |loaded| && ifs != []
    requires forall i :: 0 <= i < |ifs| ==> IfBecomes(front, ifs[i], loaded[i], state)
    ensures CompilesTo(PacketState(state, front, ifs), loaded)
  {
    hide Becomes, StateRows, Gathered, SettleAll;
    var b, rows := PacketState(state, front, ifs), IfRows(front, state, PktRcvd, ifs, |ifs|);
    PacketStateRows(state, front, ifs);
    forall i | 0 <= i < |ifs| ensures Becomes(rows[i], loaded[i]) {
      assert IfBecomes(front, ifs[i], loaded[i], state);
    }
    RowsLoad(rows, loaded);
    forall added | WithoutIfs(b.events, added)
      ensures Compiled(b, STAGE, added, PktRcvd).Some? && LoadAll(Compiled(b, STAGE, added, PktRcvd).value) == loaded {
      GatheredPlain(b, added, PktRcvd);
    }
  }

  lemma NoFront(i: If, row: Efsm.Row, state: nat)
    ensures IfBecomes([], i, row, state) <==> Becomes(FreshRow(i.conditions, i.body, state, PktRcvd), row)
  {
    assert [] + i.body == i.body;
  }

  // ---------------------------------------------------------------- the policer

  const POLICER_INIT: StateBlock :=
    StateBlock(Policer.INIT, [], [EventBlock(PktRcvd, Going(Policer.START, Policer.ESTABLISHED), [])])

  const POLICER_IFS: seq<If> := [
    If([0], Doing([Tables.Send(0)])), If([1, 2], Doing(Policer.MOVE)), If([3], Doing(Policer.RESTART))
  ]

  lemma OneResult(c: nat)
    requires c < |Tables.DONT_CARES|
    ensures Results([c]) == Tables.DONT_CARES[c := Efsm.IsTrue]
    ensures Results([]) == Tables.DONT_CARES
  {
    assert [c][..0] == [];
  }

  lemma TwoResults(c: nat, d: nat)
    requires c < |Tables.DONT_CARES| && d < |Tables.DONT_CARES|
    ensures Results([c, d]) == Tables.DONT_CARES[c := Efsm.IsTrue][d := Efsm.IsTrue]
  {
    assert [c, d][..1] == [c];
    OneResult(c);
  }

  /** A state whose only block treats packets without an if: besides its actions, it gets two rows that do nothing. */
  lemma IflessCompiles(state: nat, body: seq<Action>, loaded: seq<Efsm.Row>)
    requires |loaded| == 3 && Becomes(FreshRow([], body, state, PktRcvd), loaded[0])
    requires Becomes(FreshRow([], [], state, PktRcvd), loaded[1])
    requires Becomes(FreshRow([], [], state, Timeout), loaded[2])
    ensures CompilesTo(StateBlock(state, [], [EventBlock(PktRcvd, body, [])]), loaded)
  {
    hide Becomes, SettleAll, NonEmpty;
    var b := StateBlock(state, [], [EventBlock(PktRcvd, body, [])]);
    var rows := [FreshRow([], body, state, PktRcvd), FreshRow([], [], state, PktRcvd),
      FreshRow([], [], state, Timeout)];
    RowsLoad(rows, loaded);
    assert b.events[..0] == [] && EventActions(b.events, PktRcvd) == [] + body == body;
    assert BlockRows(b, 1) == BlockRows(b, 0) + IfRows(b.body + body, state, PktRcvd, [], 0) == [];
    forall added | WithoutIfs(b.events, added)
      ensures Compiled(b, STAGE, added, PktRcvd).Some? && LoadAll(Compiled(b, STAGE, added, PktRcvd).value) == loaded {
      OnlyPackets(b.events, added);
      assert Gathered(b, added, PktRcvd) == rows;
    }
  }

  lemma OnlyPackets(events: seq<EventBlock>, added: seq<Event>)
    requires |events| == 1 && events[0].event == PktRcvd && events[0].ifs == [] && WithoutIfs(events, added)
    ensures added == [PktRcvd]
  {
    assert HasBlock(events, PktRcvd) && !HasIf(events, PktRcvd) && !HasBlock(events, Timeout);
    assert |added| > 1 ==> added[0] != added[1];
    assert Timeout !in added && PktRcvd in added;
    assert forall i :: 0 <= i < |added| ==> added[i] in added && added[i] == PktRcvd;
  }

  /** A state without event blocks has a row for each event. */
  lemma StateCompiles(state: nat, body: seq<Action>, loaded: seq<Efsm.Row>)
    requires |loaded| == 2
    requires Becomes(FreshRow([], body, state, PktRcvd), loaded[0])
    requires Becomes(FreshRow([], body, state, Timeout), loaded[1])
    ensures CompilesTo(StateBlock(state, body, []), loaded)
  {
    hide Becomes, SettleAll, NonEmpty;
    var b := StateBlock(state, body, []);
    RowsLoad(StateRows(b), loaded);
    forall added | WithoutIfs(b.events, added)
      ensures Compiled(b, STAGE, added, PktRcvd).Some? && LoadAll(Compiled(b, STAGE, added, PktRcvd).value) == loaded {
      GatheredPlain(b, added, PktRcvd);
    }
  }

  lemma PolicerCompiles()
    ensures CompilesTo(POLICER_INIT, Policer.ROWS[..3])
    ensures CompilesTo(PacketState(Policer.ESTABLISHED, [], POLICER_IFS), Policer.ROWS[3..])
  {
    hide CompilesTo;
    OneResult(0);
    TwoResults(1, 2);
    OneResult(3);
    assert Doing([]) == [];
    IflessCompiles(Policer.INIT, Going(Policer.START, Policer.ESTABLISHED), Policer.ROWS[..3]);
    forall i | 0 <= i < 3
      ensures IfBecomes([], POLICER_IFS[i], Policer.ROWS[i + 3], Policer.ESTABLISHED) {
      NoFront(POLICER_IFS[i], Policer.ROWS[i + 3], Policer.ESTABLISHED);
    }
    PacketStateCompiles(Policer.ESTABLISHED, [], POLICER_IFS, Policer.ROWS[3..]);
  }

  // ---------------------------------------------------------------- port knocking

  /** The state waits for a condition, acts and goes on. */
  function Waiting(state: nat, condition: nat, body: seq<Action>): StateBlock {
    PacketState(state, [], [If([condition], body)])
  }

  lemma WaitingCompiles(state: nat, condition: nat, body: seq<Action>, row: Efsm.Row)
    requires condition < |Tables.DONT_CARES| && row.results == Tables.DONT_CARES[condition := Efsm.IsTrue]
    requires IsBody(body, row.actions, row.nextState, state) && row.state == state && row.nextStage == Efsm.NULL_STAGE
    ensures CompilesTo(Waiting(state, condition, body), [row])
  {
    hide CompilesTo, IsBody;
    OneResult(condition);
    var ifs := [If([condition], body)];
    NoFront(ifs[0], row, state);
    PacketStateCompiles(state, [], ifs, [row]);
  }

  lemma PortKnockingCompiles()
    ensures forall s :: 0 <= s < 4 ==> CompilesTo(Waiting(s, s, Going([], s + 1)), [PortKnocking.ROWS[s]])
    ensures CompilesTo(Waiting(4, 4, Doing([Tables.Send(2)])), [PortKnocking.ROWS[4]])
  {
    hide CompilesTo;
    forall s | 0 <= s < 4 ensures CompilesTo(Waiting(s, s, Going([], s + 1)), [PortKnocking.ROWS[s]]) {
      WaitingCompiles(s, s, Going([], s + 1), PortKnocking.ROWS[s]);
    }
    WaitingCompiles(4, 4, Doing([Tables.Send(2)]), PortKnocking.ROWS[4]);
  }

  // ---------------------------------------------------------------- the load balancer

  const BALANCER_IFS: seq<If> := [
    If([0, 1], Going([Tables.Assign(Efsm.Global(0), Efsm.Minus, LoadBalancer.COUNTER, Efsm.Constant(1)),
      Tables.Send(2)],
                     LoadBalancer.SERVER1)),
    If([0, 2], Going([Tables.Assign(Efsm.Global(0), Efsm.Sum, LoadBalancer.COUNTER, Efsm.Constant(1)), Tables.Send(3)],
                     LoadBalancer.SERVER2))
  ]

  lemma LoadBalancerCompiles()
    ensures CompilesTo(PacketState(LoadBalancer.INIT, [], BALANCER_IFS), LoadBalancer.ROWS[..2])
    ensures CompilesTo(StateBlock(LoadBalancer.SERVER1, Doing([Tables.Send(2)]), []), LoadBalancer.ROWS[2..4])
    ensures CompilesTo(StateBlock(LoadBalancer.SERVER2, Doing([Tables.Send(3)]), []), LoadBalancer.ROWS[4..])
  {
    hide CompilesTo;
    TwoResults(0, 1);
    TwoResults(0, 2);
    OneResult(0);
    forall i | 0 <= i < 2 ensures IfBecomes([], BALANCER_IFS[i], LoadBalancer.ROWS[i], LoadBalancer.INIT) {
      NoFront(BALANCER_IFS[i], LoadBalancer.ROWS[i], LoadBalancer.INIT);
    }
    PacketStateCompiles(LoadBalancer.INIT, [], BALANCER_IFS, LoadBalancer.ROWS[..2]);
    StateCompiles(LoadBalancer.SERVER1, Doing([Tables.Send(2)]), LoadBalancer.ROWS[2..4]);
    StateCompiles(LoadBalancer.SERVER2, Doing([Tables.Send(3)]), LoadBalancer.ROWS[4..]);
  }

  // ---------------------------------------------------------------- the elephant detector

  const ELEPHANT_IFS: seq<If> := [
    If([0], Doing([Tables.Assign(Efsm.Local(0), Efsm.Sum, Elephant.COUNTER, Efsm.Constant(1)), Tables.Send(1)])),
    If([1], Going([Tables.Send(1)], Elephant.DETECTED))
  ]

  lemma ElephantCompiles()
    ensures CompilesTo(PacketState(Elephant.DEFAULT, Doing([Elephant.SET_LIMIT]), ELEPHANT_IFS), Elephant.ROWS[..2])
    ensures CompilesTo(
      StateBlock(Elephant.DETECTED, [], [EventBlock(PktRcvd, Doing(Elephant.FORWARD_MARKED), [])]), Elephant.ROWS[2..])
  {
    hide CompilesTo;
    OneResult(0);
    OneResult(1);
    var front := Doing([Elephant.SET_LIMIT]);
    assert front + ELEPHANT_IFS[0].body == Doing(Elephant.COUNT);
    assert front + ELEPHANT_IFS[1].body == Going(Elephant.DETECT, Elephant.DETECTED);
    PacketStateCompiles(Elephant.DEFAULT, front, ELEPHANT_IFS, Elephant.ROWS[..2]);
    assert Doing([]) == [];
    IflessCompiles(Elephant.DETECTED, Doing(Elephant.FORWARD_MARKED), Elephant.ROWS[2..]);
  }
}
