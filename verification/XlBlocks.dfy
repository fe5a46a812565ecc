/** The blocks of a program and the table rows that they stand for. */
module XlBlocks {
  import opened Bytes
  import Efsm

  datatype Event = PktRcvd | Timeout

  /** The stage a row goes on to; rows start with none. */
  datatype Stage = NoStage | Declared(number: nat)

  datatype Action = StateTransition(state: nat) | StageTransition(stage: Stage) | Effect(action: Efsm.Action)

  datatype If = If(conditions: seq<nat>, body: seq<Action>)

  datatype EventBlock = EventBlock(event: Event, body: seq<Action>, ifs: seq<If>)

  datatype StateBlock = StateBlock(state: nat, body: seq<Action>, events: seq<EventBlock>)

  // ---------------------------------------------------------------- transitions

  /** What actions leave when the transitions among them are taken out. */
  datatype Settled = Settled(actions: seq<Action>, nextState: nat, nextStage: Stage)

  function After(a: Action, r: Option<Settled>): Option<Settled> {
    match r
    case None => None
    case Some(s) => Some(s.(actions := [a] + s.actions))
  }

  /** Taking the transitions out of the actions of a row in a state; nothing when the next state is set again
      after it was set to another state. The last stage counts. */
  function Settle(actions: seq<Action>, state: nat, next: nat, stage: Stage): Option<Settled> {
    if actions == [] then Some(Settled([], next, stage))
    else
      match actions[0]
      case StateTransition(s) => if next != state then None else Settle(actions[1..], state, s, stage)
      case StageTransition(g) => Settle(actions[1..], state, next, g)
      case Effect(_) => After(actions[0], Settle(actions[1..], state, next, stage))
  }

  predicate OnlyEffects(actions: seq<Action>) { forall i :: 0 <= i < |actions| ==> actions[i].Effect? }

  lemma {:induction false} SettledOnce(actions: seq<Action>, state: nat, next: nat, stage: Stage)
    ensures OnlyEffects(actions) ==> Settle(actions, state, next, stage) == Some(Settled(actions, next, stage))
    ensures Settle(actions, state, next, stage).Some? ==> OnlyEffects(Settle(actions, state, next, stage).value.actions)
  {
    if actions != [] {
      var rest := actions[1..];
      match actions[0]
      case StateTransition(s) => SettledOnce(rest, state, s, stage);
      case StageTransition(g) => SettledOnce(rest, state, next, g);
      case Effect(_) =>
        SettledOnce(rest, state, next, stage);
        assert [actions[0]] + rest == actions;
    }
  }

  // ---------------------------------------------------------------- rows

  datatype RowView = RowView(conditions: seq<nat>, actions: seq<Action>, state: nat, event: Event, nextState: nat,
                             nextStage: Stage)

  function SettleRow(r: RowView): Option<RowView> {
    match Settle(r.actions, r.state, r.nextState, r.nextStage)
    case None => None
    case Some(s) => Some(r.(actions := s.actions, nextState := s.nextState, nextStage := s.nextStage))
  }

  /** A row without effects that stays in its state and in its stage. */
  predicate IsEmpty(r: RowView, own: Stage) { r.actions == [] && r.nextState == r.state && r.nextStage == own }

  function SettleAll(rows: seq<RowView>): (r: Option<seq<RowView>>)
    ensures r.Some? <==> forall i :: 0 <= i < |rows| ==> SettleRow(rows[i]).Some?
    ensures r.Some? ==> |r.value| == |rows| && forall i :: 0 <= i < |rows| ==> r.value[i] == SettleRow(rows[i]).value
  {
    if rows == [] then Some([])
    else
      match (SettleRow(rows[0]), SettleAll(rows[1..]))
      case (Some(first), Some(rest)) => Some([first] + rest)
      case _ => None
  }

  function NonEmpty(rows: seq<RowView>, own: Stage): seq<RowView> {
    if rows == [] then [] else (if IsEmpty(rows[0], own) then [] else [rows[0]]) + NonEmpty(rows[1..], own)
  }

  lemma {:induction false} NonEmptyConcat(a: seq<RowView>, b: seq<RowView>, own: Stage)
    ensures NonEmpty(a + b, own) == NonEmpty(a, own) + NonEmpty(b, own)
  {
    hide IsEmpty;
    if a == [] {
      assert a + b == b;
    } else {
      assert (a + b)[0] == a[0] && (a + b)[1..] == a[1..] + b;
      NonEmptyConcat(a[1..], b, own);
      var head := if IsEmpty(a[0], own) then [] else [a[0]];
      assert head + (NonEmpty(a[1..], own) + NonEmpty(b, own)) == head + NonEmpty(a[1..], own) + NonEmpty(b, own);
    }
  }

  lemma {:induction false} NonEmptyAll(rows: seq<RowView>, own: Stage)
    requires forall i :: 0 <= i < |rows| ==> !IsEmpty(rows[i], own)
    ensures NonEmpty(rows, own) == rows
  {
    if rows != [] {
      NonEmptyAll(rows[1..], own);
    }
  }

  /** All actions on the level of an event, gathered from every block for it. */
  function EventActions(events: seq<EventBlock>, e: Event): seq<Action> {
    if events == [] then []
    else
      var before, last := EventActions(events[..|events| - 1], e), events[|events| - 1];
      if last.event == e then before + last.body else before
  }

  /** A fresh row. */
  function FreshRow(conditions: seq<nat>, actions: seq<Action>, state: nat, e: Event): RowView {
    RowView(conditions, actions, state, e, state, NoStage)
  }

  /** One row for each of the first `n` ifs, with the given actions in front. */
  function IfRows(front: seq<Action>, state: nat, e: Event, ifs: seq<If>, n: nat): (r: seq<RowView>)
    requires n <= |ifs|
    ensures |r| == n && forall i :: 0 <= i < n ==> r[i] == FreshRow(ifs[i].conditions, front + ifs[i].body, state, e)
  {
    if n == 0 then []
    else IfRows(front, state, e, ifs, n - 1) + [FreshRow(ifs[n - 1].conditions, front + ifs[n - 1].body, state, e)]
  }

  /** The rows of the first `n` event blocks of a state, before transitions are taken out: actions of the state,
      then of the event, then of the if. */
  function BlockRows(b: StateBlock, n: nat): seq<RowView>
    requires n <= |b.events|
  {
    if n == 0 then []
    else
      var eb := b.events[n - 1];
      BlockRows(b, n - 1) + IfRows(b.body + EventActions(b.events, eb.event), b.state, eb.event, eb.ifs, |eb.ifs|)
  }

  /** A state without event blocks has one row for every event. */
  function StateRows(b: StateBlock): seq<RowView> {
    if b.events == [] then [FreshRow([], b.body, b.state, PktRcvd), FreshRow([], b.body, b.state, Timeout)]
    else BlockRows(b, |b.events|)
  }

  /** The rows of the ifs alone, before the actions around them are put in front. */
  function BareRows(state: nat, events: seq<EventBlock>, n: nat): seq<RowView>
    requires n <= |events|
  {
    if n == 0 then []
    else BareRows(state, events, n - 1) + IfRows([], state, events[n - 1].event, events[n - 1].ifs, |events[n - 1].ifs|)
  }

  /** The events that have a block but no if, in some order. */
  ghost predicate WithoutIfs(events: seq<EventBlock>, added: seq<Event>) {
    (forall i, j :: 0 <= i < j < |added| ==> added[i] != added[j]) &&
    forall e :: e in added <==> HasBlock(events, e) && !HasIf(events, e)
  }

  predicate HasBlock(events: seq<EventBlock>, e: Event) { exists i :: 0 <= i < |events| && events[i].event == e }

  predicate HasIf(events: seq<EventBlock>, e: Event) {
    exists i :: 0 <= i < |events| && events[i].event == e && events[i].ifs != []
  }

  /** The rows of a state block when it ends. An event without ifs gets a row that has only its own actions and is
      filed under the event that was read last; a state without ifs gets a row for every event. */
  function Gathered(b: StateBlock, added: seq<Event>, last: Event): seq<RowView> {
    var rows := BlockRows(b, |b.events|);
    rows + (seq(|added|, k requires 0 <= k < |added| => FreshRow([], EventActions(b.events, added[k]), b.state, last))
            + if rows == [] then [FreshRow([], b.body, b.state, PktRcvd), FreshRow([], b.body, b.state, Timeout)]
              else [])
  }

  /** When every event block has an if, these are the rows of the state. */
  lemma GatheredPlain(b: StateBlock, added: seq<Event>, last: Event)
    requires (forall i :: 0 <= i < |b.events| ==> b.events[i].ifs != []) && WithoutIfs(b.events, added)
    ensures added == [] && Gathered(b, added, last) == StateRows(b)
  {
    if added != [] {
      assert added[0] in added && HasBlock(b.events, added[0]);
      var i :| 0 <= i < |b.events| && b.events[i].event == added[0];
      assert HasIf(b.events, added[0]);
    }
    if b.events != [] {
      assert BlockRows(b, |b.events|) != [];
    }
  }

  lemma {:induction false} NoActions(events: seq<EventBlock>, e: Event)
    requires forall i :: 0 <= i < |events| ==> events[i].event != e
    ensures EventActions(events, e) == []
  {
    if events != [] {
      NoActions(events[..|events| - 1], e);
    }
  }
}
