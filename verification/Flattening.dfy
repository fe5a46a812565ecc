/** What the nested blocks of a state mean, and exactly when the rows they are flattened to mean the same. */
module Flattening {
  import opened Bytes
  import opened XlBlocks

  // ---------------------------------------------------------------- what a list of actions does

  /** What a block or a table does on an event: nothing at all, something, or it asks for two next states. */
  datatype Reaction = Nothing | Conflict | Does(settled: Settled)

  function React(actions: seq<Action>, state: nat): Reaction {
    match Settle(actions, state, state, NoStage)
    case None => Conflict
    case Some(s) => Does(s)
  }

  function Effects(actions: seq<Action>): (r: seq<Action>)
    ensures |r| <= |actions|
  {
    if actions == [] then []
    else if actions[0].Effect? then [actions[0]] + Effects(actions[1..])
    else Effects(actions[1..])
  }

  /** The state that the last state transition names. */
  function StateAfter(actions: seq<Action>, state: nat): nat {
    if actions == [] then state
    else StateAfter(actions[1..], if actions[0].StateTransition? then actions[0].state else state)
  }

  /** The stage that the last stage transition names. */
  function StageAfter(actions: seq<Action>, stage: Stage): Stage {
    if actions == [] then stage
    else StageAfter(actions[1..], if actions[0].StageTransition? then actions[0].stage else stage)
  }

  /** Another state transition comes after one that leaves the state. */
  predicate Conflicts(actions: seq<Action>, state: nat) {
    exists i, j :: 0 <= i < j < |actions| && Leaves(actions[i], state) && actions[j].StateTransition?
  }

  predicate Leaves(a: Action, state: nat) { a.StateTransition? && a.state != state }

  predicate Moves(actions: seq<Action>) { exists j :: 0 <= j < |actions| && actions[j].StateTransition? }

  lemma ConflictsFirst(actions: seq<Action>, state: nat)
    requires actions != []
    ensures Conflicts(actions, state)
       <==> Conflicts(actions[1..], state) || (Leaves(actions[0], state) && Moves(actions[1..]))
  {
    var rest := actions[1..];
    assert forall j :: 0 < j < |actions| ==> actions[j] == rest[j - 1];
    if Conflicts(rest, state) {
      var i, j :| 0 <= i < j < |rest| && Leaves(rest[i], state) && rest[j].StateTransition?;
      assert Leaves(actions[i + 1], state) && actions[j + 1].StateTransition?;
    }
    if Leaves(actions[0], state) && Moves(rest) {
      var j :| 0 <= j < |rest| && rest[j].StateTransition?;
      assert actions[j + 1].StateTransition?;
    }
  }

  lemma ConflictMoves(actions: seq<Action>, state: nat)
    ensures Conflicts(actions, state) ==> Moves(actions)
  {
  }

  lemma MovesFirst(actions: seq<Action>)
    requires actions != []
    ensures Moves(actions) <==> actions[0].StateTransition? || Moves(actions[1..])
  {
    assert forall j :: 0 < j < |actions| ==> actions[j] == actions[1..][j - 1];
    if Moves(actions[1..]) {
      var j :| 0 <= j < |actions[1..]| && actions[1..][j].StateTransition?;
      assert actions[j + 1].StateTransition?;
    }
  }

  /** Taking the transitions out leaves the effects, the last state and the last stage, unless two states conflict. */
  lemma {:induction false} SettleMeans(actions: seq<Action>, state: nat, next: nat, stage: Stage)
    ensures Settle(actions, state, next, stage)
         == if (if next == state then Conflicts(actions, state) else Moves(actions)) then None
            else Some(Settled(Effects(actions), StateAfter(actions, next), StageAfter(actions, stage)))
  {
    hide Conflicts, Moves;
    if actions == [] {
      NothingConflicts(state);
    } else {
      ConflictsFirst(actions, state);
      MovesFirst(actions);
      ConflictMoves(actions[1..], state);
      match actions[0]
      case StateTransition(s) => SettleMeans(actions[1..], state, s, stage);
      case StageTransition(g) => SettleMeans(actions[1..], state, next, g);
      case Effect(_) => SettleMeans(actions[1..], state, next, stage);
    }
  }

  lemma NothingConflicts(state: nat)
    ensures !Conflicts([], state) && !Moves([])
  {
  }

  /** Two lists of actions do the same: the same effects in the same order, and the same state and stage next. */
  predicate SameReaction(x: seq<Action>, y: seq<Action>, state: nat) {
    !Conflicts(x, state) && Effects(x) == Effects(y) &&
    StateAfter(x, state) == StateAfter(y, state) && StageAfter(x, NoStage) == StageAfter(y, NoStage)
  }

  lemma SameReactionReacts(x: seq<Action>, y: seq<Action>, state: nat)
    requires React(y, state) != Conflict
    ensures React(x, state) == React(y, state) <==> SameReaction(x, y, state)
  {
    SettleMeans(x, state, state, NoStage);
    SettleMeans(y, state, state, NoStage);
  }

  /** Nothing but transitions, and none to another state. */
  predicate Quiet(actions: seq<Action>, state: nat) {
    forall i :: 0 <= i < |actions| ==> !actions[i].Effect? && !Leaves(actions[i], state)
  }

  /** Actions that stay, without doing anything, in the same state of the same stage. */
  predicate Idle(actions: seq<Action>, state: nat, own: Stage) {
    Quiet(actions, state) && StageAfter(actions, NoStage) == own
  }

  lemma {:induction false} QuietMeans(actions: seq<Action>, state: nat)
    ensures Quiet(actions, state) ==>
      Effects(actions) == [] && StateAfter(actions, state) == state && !Conflicts(actions, state)
    ensures !Conflicts(actions, state) && Effects(actions) == [] && StateAfter(actions, state) == state ==>
      Quiet(actions, state)
  {
    hide Conflicts, Moves;
    if actions == [] {
      NothingConflicts(state);
    } else {
      ConflictsFirst(actions, state);
      QuietMeans(actions[1..], state);
      StaysAway(actions[1..], if actions[0].StateTransition? then actions[0].state else state);
      assert Quiet(actions, state)
         <==> Quiet(actions[1..], state) && !actions[0].Effect? && !Leaves(actions[0], state) by {
        assert forall i :: 0 < i < |actions| ==> actions[i] == actions[1..][i - 1];
        assert forall i :: 0 <= i < |actions[1..]| ==> actions[1..][i] == actions[i + 1];
      }
    }
  }

  lemma {:induction false} StaysAway(actions: seq<Action>, next: nat)
    ensures !Moves(actions) ==> StateAfter(actions, next) == next
  {
    if actions != [] {
      MovesFirst(actions);
      StaysAway(actions[1..], next);
    }
  }

  lemma {:induction false} EffectsConcat(x: seq<Action>, y: seq<Action>)
    ensures Effects(x + y) == Effects(x) + Effects(y)
  {
    if x == [] {
      assert x + y == y;
    } else {
      assert (x + y)[1..] == x[1..] + y;
      EffectsConcat(x[1..], y);
    }
  }

  lemma {:induction false} AfterConcat(x: seq<Action>, y: seq<Action>, state: nat, stage: Stage)
    ensures StateAfter(x + y, state) == StateAfter(y, StateAfter(x, state))
    ensures StageAfter(x + y, stage) == StageAfter(y, StageAfter(x, stage))
  {
    if x == [] {
      assert x + y == y;
    } else {
      assert (x + y)[1..] == x[1..] + y;
      AfterConcat(x[1..], y, if x[0].StateTransition? then x[0].state else state,
                  if x[0].StageTransition? then x[0].stage else stage);
    }
  }

  // ---------------------------------------------------------------- what blocks mean

  predicate AllHold(conditions: seq<nat>, holds: set<nat>) {
    forall i :: 0 <= i < |conditions| ==> conditions[i] in holds
  }

  /** The first if whose conditions all hold. */
  function FirstIf(ifs: seq<If>, holds: set<nat>): Option<If> {
    if ifs == [] then None
    else if AllHold(ifs[0].conditions, holds) then Some(ifs[0])
    else FirstIf(ifs[1..], holds)
  }

  /** What the event blocks of a state say on an event: the first block for it runs its own actions and those of
      its first if whose conditions hold. A block whose ifs all fail leaves the event to the next block for it. */
  function Spoken(events: seq<EventBlock>, e: Event, holds: set<nat>): Option<seq<Action>> {
    if events == [] then None
    else if events[0].event != e then Spoken(events[1..], e, holds)
    else if events[0].ifs == [] then Some(events[0].body)
    else
      match FirstIf(events[0].ifs, holds)
      case Some(i) => Some(events[0].body + i.body)
      case None => Spoken(events[1..], e, holds)
  }

  /** What a state says on an event; a state without event blocks runs its own actions on every event. */
  function Said(b: StateBlock, e: Event, holds: set<nat>): Option<seq<Action>> {
    if b.events == [] then Some(b.body)
    else
      match Spoken(b.events, e, holds)
      case None => None
      case Some(actions) => Some(b.body + actions)
  }

  /** The meaning of the nested blocks. */
  function Interpret(b: StateBlock, e: Event, holds: set<nat>): Reaction {
    match Said(b, e, holds)
    case None => Nothing
    case Some(actions) => React(actions, b.state)
  }

  // ---------------------------------------------------------------- what rows mean

  predicate RowFits(r: RowView, state: nat, e: Event, holds: set<nat>) {
    r.state == state && r.event == e && AllHold(r.conditions, holds)
  }

  /** What a table does: the first row for the state and event whose conditions hold. */
  function FirstRow(rows: seq<RowView>, state: nat, e: Event, holds: set<nat>): Reaction {
    if rows == [] then Nothing
    else if RowFits(rows[0], state, e, holds) then
      Does(Settled(rows[0].actions, rows[0].nextState, rows[0].nextStage))
    else FirstRow(rows[1..], state, e, holds)
  }

  /** The actions of the rows that fit, in order. */
  function Fitting(rows: seq<RowView>, state: nat, e: Event, holds: set<nat>): seq<seq<Action>> {
    if rows == [] then []
    else if RowFits(rows[0], state, e, holds) then [rows[0].actions] + Fitting(rows[1..], state, e, holds)
    else Fitting(rows[1..], state, e, holds)
  }

  /** The first list of actions that is not idle. */
  function FirstLively(candidates: seq<seq<Action>>, state: nat, own: Stage): (r: Option<seq<Action>>)
    ensures r.None? <==> forall i :: 0 <= i < |candidates| ==> Idle(candidates[i], state, own)
    ensures r.Some? ==> r.value in candidates && !Idle(r.value, state, own)
  {
    if candidates == [] then None
    else if Idle(candidates[0], state, own) then FirstLively(candidates[1..], state, own)
    else Some(candidates[0])
  }

  function Reacts(chosen: Option<seq<Action>>, state: nat): Reaction {
    match chosen
    case None => Nothing
    case Some(actions) => React(actions, state)
  }

  /** A row whose transitions are still among its actions. */
  predicate Unsettled(r: RowView) { r.nextState == r.state && r.nextStage == NoStage }

  lemma SettledIdle(r: RowView, own: Stage)
    requires Unsettled(r) && SettleRow(r).Some?
    ensures IsEmpty(SettleRow(r).value, own) <==> Idle(r.actions, r.state, own)
  {
    hide Conflicts, Quiet;
    SettleMeans(r.actions, r.state, r.state, NoStage);
    QuietMeans(r.actions, r.state);
  }

  /** A table whose transitions are taken out and whose empty rows are dropped does what the first fitting row does
      that is not idle. */
  lemma {:induction false} TableChooses(rows: seq<RowView>, own: Stage, state: nat, e: Event, holds: set<nat>)
    requires SettleAll(rows).Some? && forall i :: 0 <= i < |rows| ==> Unsettled(rows[i])
    ensures FirstRow(NonEmpty(SettleAll(rows).value, own), state, e, holds)
         == Reacts(FirstLively(Fitting(rows, state, e, holds), state, own), state)
  {
    hide Idle, Settle, IsEmpty, AllHold;
    if rows != [] {
      var all := SettleAll(rows).value;
      assert all[0] == SettleRow(rows[0]).value && all[1..] == SettleAll(rows[1..]).value;
      TableChooses(rows[1..], own, state, e, holds);
      SettledIdle(rows[0], own);
      var kept := NonEmpty(all, own);
      if IsEmpty(all[0], own) {
        assert kept == NonEmpty(all[1..], own);
      } else {
        assert kept == [all[0]] + NonEmpty(all[1..], own);
      }
      var fitting := Fitting(rows, state, e, holds);
      if RowFits(rows[0], state, e, holds) {
        assert fitting[0] == rows[0].actions && fitting[1..] == Fitting(rows[1..], state, e, holds);
      }
    }
  }

  // ---------------------------------------------------------------- what the rows of a block mean

  lemma {:induction false} FittingConcat(a: seq<RowView>, b: seq<RowView>, state: nat, e: Event, holds: set<nat>)
    ensures Fitting(a + b, state, e, holds) == Fitting(a, state, e, holds) + Fitting(b, state, e, holds)
  {
    hide RowFits;
    if a == [] {
      assert a + b == b;
    } else {
      assert (a + b)[1..] == a[1..] + b;
      FittingConcat(a[1..], b, state, e, holds);
    }
  }

  lemma FittingOne(r: RowView, state: nat, e: Event, holds: set<nat>)
    ensures Fitting([r], state, e, holds) == if RowFits(r, state, e, holds) then [r.actions] else []
    ensures Fitting([], state, e, holds) == []
  {
  }

  /** The actions of those among the first `n` ifs whose conditions hold, with the actions around them in front. */
  function Chosen(front: seq<Action>, ifs: seq<If>, n: nat, holds: set<nat>): seq<seq<Action>>
    requires n <= |ifs|
  {
    if n == 0 then []
    else
      Chosen(front, ifs, n - 1, holds)
      + if AllHold(ifs[n - 1].conditions, holds) then [front + ifs[n - 1].body] else []
  }

  /** The same for all ifs of an event in the first `n` event blocks; every block for the event adds its actions. */
  function ChosenAll(b: StateBlock, n: nat, e: Event, holds: set<nat>): seq<seq<Action>>
    requires n <= |b.events|
  {
    if n == 0 then []
    else
      var eb := b.events[n - 1];
      ChosenAll(b, n - 1, e, holds)
      + if eb.event == e then Chosen(b.body + EventActions(b.events, e), eb.ifs, |eb.ifs|, holds) else []
  }

  predicate SomeIf(events: seq<EventBlock>) { exists i :: 0 <= i < |events| && events[i].ifs != [] }

  /** The actions of events on their own. */
  function Alone(events: seq<EventBlock>, added: seq<Event>): (r: seq<seq<Action>>)
    ensures |r| == |added| && forall k :: 0 <= k < |added| ==> r[k] == EventActions(events, added[k])
  {
    seq(|added|, k requires 0 <= k < |added| => EventActions(events, added[k]))
  }

  /** What the table can do on an event, best first: the ifs of the event that hold; the actions of the events
      without ifs, if the event was the last to be read; and the actions of the state when it has no if at all. */
  function Candidates(b: StateBlock, added: seq<Event>, last: Event, e: Event, holds: set<nat>): seq<seq<Action>> {
    ChosenAll(b, |b.events|, e, holds)
    + ((if e == last then Alone(b.events, added) else []) + if SomeIf(b.events) then [] else [b.body])
  }

  lemma {:induction false} FittingIfs(front: seq<Action>, state: nat, e: Event, ifs: seq<If>, n: nat, event: Event,
                                      holds: set<nat>)
    requires n <= |ifs|
    ensures Fitting(IfRows(front, state, e, ifs, n), state, event, holds)
         == if e == event then Chosen(front, ifs, n, holds) else []
  {
    hide AllHold, Fitting;
    FittingOne(FreshRow([], [], state, e), state, event, holds);
    if n > 0 {
      var r := FreshRow(ifs[n - 1].conditions, front + ifs[n - 1].body, state, e);
      FittingIfs(front, state, e, ifs, n - 1, event, holds);
      FittingConcat(IfRows(front, state, e, ifs, n - 1), [r], state, event, holds);
      FittingOne(r, state, event, holds);
    }
  }

  lemma {:induction false} FittingBlocks(b: StateBlock, n: nat, e: Event, holds: set<nat>)
    requires n <= |b.events|
    ensures Fitting(BlockRows(b, n), b.state, e, holds) == ChosenAll(b, n, e, holds)
    ensures BlockRows(b, n) == [] <==> !SomeIf(b.events[..n])
  {
    hide Fitting, Chosen;
    if n == 0 {
      FittingOne(FreshRow([], [], b.state, e), b.state, e, holds);
    } else {
      var eb := b.events[n - 1];
      var front := b.body + EventActions(b.events, eb.event);
      FittingBlocks(b, n - 1, e, holds);
      FittingIfs(front, b.state, eb.event, eb.ifs, |eb.ifs|, e, holds);
      FittingConcat(BlockRows(b, n - 1), IfRows(front, b.state, eb.event, eb.ifs, |eb.ifs|), b.state, e, holds);
      SomeIfOneMore(b.events, n);
    }
  }

  lemma SomeIfOneMore(events: seq<EventBlock>, n: nat)
    requires 0 < n <= |events|
    ensures SomeIf(events[..n]) <==> SomeIf(events[..n - 1]) || events[n - 1].ifs != []
  {
    if SomeIf(events[..n - 1]) {
      var i :| 0 <= i < n - 1 && events[..n - 1][i].ifs != [];
      assert events[..n][i].ifs != [];
    }
    if events[n - 1].ifs != [] {
      assert events[..n][n - 1].ifs != [];
    }
    if SomeIf(events[..n]) {
      var i :| 0 <= i < n && events[..n][i].ifs != [];
      assert i < n - 1 ==> events[..n - 1][i].ifs != [];
    }
  }

  function AddedRows(b: StateBlock, added: seq<Event>, last: Event): (r: seq<RowView>)
    ensures |r| == |added|
    ensures forall k :: 0 <= k < |added| ==> r[k] == FreshRow([], EventActions(b.events, added[k]), b.state, last)
  {
    seq(|added|, k requires 0 <= k < |added| => FreshRow([], EventActions(b.events, added[k]), b.state, last))
  }

  lemma {:induction false} FittingAdded(b: StateBlock, added: seq<Event>, last: Event, e: Event, holds: set<nat>)
    ensures Fitting(AddedRows(b, added, last), b.state, e, holds) == if e == last then Alone(b.events, added) else []
  {
    if added != [] {
      FittingAdded(b, added[1..], last, e, holds);
      assert AddedRows(b, added, last)[1..] == AddedRows(b, added[1..], last);
      assert Alone(b.events, added)[1..] == Alone(b.events, added[1..]);
    }
  }

  /** What the rows of a block can do on an event. */
  lemma GatheredFits(b: StateBlock, added: seq<Event>, last: Event, e: Event, holds: set<nat>)
    ensures Fitting(Gathered(b, added, last), b.state, e, holds) == Candidates(b, added, last, e, holds)
    ensures forall i :: 0 <= i < |Gathered(b, added, last)| ==> Unsettled(Gathered(b, added, last)[i])
  {
    hide Fitting, BlockRows, ChosenAll, EventActions;
    var rows, more := BlockRows(b, |b.events|), AddedRows(b, added, last);
    var r0, r1 := FreshRow([], b.body, b.state, PktRcvd), FreshRow([], b.body, b.state, Timeout);
    var bare := if rows == [] then [r0, r1] else [];
    assert Gathered(b, added, last) == rows + (more + bare);
    FittingConcat(rows, more + bare, b.state, e, holds);
    FittingConcat(more, bare, b.state, e, holds);
    FittingBlocks(b, |b.events|, e, holds);
    assert b.events[..|b.events|] == b.events;
    FittingAdded(b, added, last, e, holds);
    FittingConcat([r0], [r1], b.state, e, holds);
    FittingOne(r0, b.state, e, holds);
    FittingOne(r1, b.state, e, holds);
    assert [r0, r1] == [r0] + [r1];
    RowsUnsettled(b, |b.events|);
  }

  lemma {:induction false} RowsUnsettled(b: StateBlock, n: nat)
    requires n <= |b.events|
    ensures forall i :: 0 <= i < |BlockRows(b, n)| ==> Unsettled(BlockRows(b, n)[i])
  {
    if n > 0 {
      RowsUnsettled(b, n - 1);
    }
  }

  /** The rows that a block is compiled to, if none of them sets the next state twice. */
  function Compiled(b: StateBlock, own: Stage, added: seq<Event>, last: Event): Option<seq<RowView>> {
    match SettleAll(Gathered(b, added, last))
    case None => None
    case Some(rows) => Some(NonEmpty(rows, own))
  }

  /** What the blocks say and what the table does have the same effects, next state and next stage. */
  predicate Agree(said: Option<seq<Action>>, done: Option<seq<Action>>, state: nat) {
    match (said, done)
    case (None, None) => true
    case (Some(x), Some(y)) => SameReaction(x, y, state)
    case _ => false
  }

  /** What the table does on an event. */
  function Done(b: StateBlock, own: Stage, added: seq<Event>, last: Event, e: Event,
                holds: set<nat>): Option<seq<Action>> {
    FirstLively(Candidates(b, added, last, e, holds), b.state, own)
  }

  /** When flattening preserves meaning, for every block, event and outcome of the conditions: exactly when the
      actions that the blocks choose and those that the table chooses have the same effects, the same next state
      and the same next stage. */
  lemma FlatteningPreserves(b: StateBlock, own: Stage, added: seq<Event>, last: Event, e: Event, holds: set<nat>)
    requires Compiled(b, own, added, last).Some?
    ensures FirstRow(Compiled(b, own, added, last).value, b.state, e, holds) == Interpret(b, e, holds)
       <==> Agree(Said(b, e, holds), Done(b, own, added, last, e, holds), b.state)
  {
    hide Said, Candidates, Gathered, SettleAll, FirstRow, NonEmpty, SameReaction, React, FirstLively;
    var rows := Gathered(b, added, last);
    GatheredFits(b, added, last, e, holds);
    TableChooses(rows, own, b.state, e, holds);
    var done := Done(b, own, added, last, e, holds);
    if done.Some? {
      ChosenSettles(rows, b.state, own, e, holds);
      if Said(b, e, holds).Some? {
        SameReactionReacts(Said(b, e, holds).value, done.value, b.state);
      }
    }
    NothingIsNoReaction(Said(b, e, holds), b.state);
    NothingIsNoReaction(done, b.state);
  }

  lemma NothingIsNoReaction(chosen: Option<seq<Action>>, state: nat)
    ensures Reacts(chosen, state) == Nothing <==> chosen == None
  {
  }

  /** What the table does is never in conflict. */
  lemma ChosenSettles(rows: seq<RowView>, state: nat, own: Stage, e: Event, holds: set<nat>)
    requires SettleAll(rows).Some? && forall i :: 0 <= i < |rows| ==> Unsettled(rows[i])
    ensures forall y :: y in Fitting(rows, state, e, holds) ==> React(y, state) != Conflict && !Conflicts(y, state)
    ensures var done := FirstLively(Fitting(rows, state, e, holds), state, own);
      done.Some? ==> React(done.value, state) != Conflict && !Conflicts(done.value, state)
  {
    forall y | y in Fitting(rows, state, e, holds) ensures React(y, state) != Conflict && !Conflicts(y, state) {
      FittingIsRow(rows, state, e, holds, y);
      var i :| 0 <= i < |rows| && rows[i].actions == y && rows[i].state == state;
      assert SettleRow(rows[i]).Some?;
      SettleMeans(y, state, state, NoStage);
    }
  }

  lemma {:induction false} FittingIsRow(rows: seq<RowView>, state: nat, e: Event, holds: set<nat>, y: seq<Action>)
    requires y in Fitting(rows, state, e, holds)
    ensures exists i :: 0 <= i < |rows| && rows[i].actions == y && rows[i].state == state
  {
    if RowFits(rows[0], state, e, holds) && rows[0].actions == y {
    } else {
      FittingIsRow(rows[1..], state, e, holds, y);
      var i :| 0 <= i < |rows[1..]| && rows[1..][i].actions == y && rows[1..][i].state == state;
      assert rows[i + 1].actions == y;
    }
  }

  lemma {:induction false} OtherStates(before: seq<RowView>, rows: seq<RowView>, state: nat, e: Event, holds: set<nat>)
    requires forall i :: 0 <= i < |before| ==> before[i].state != state
    ensures FirstRow(before + rows, state, e, holds) == FirstRow(rows, state, e, holds)
  {
    if before == [] {
      assert before + rows == rows;
    } else {
      assert (before + rows)[1..] == before[1..] + rows;
      OtherStates(before[1..], rows, state, e, holds);
    }
  }

  /** The rows of a state mean what its block says, behind those of other states, exactly when the choices agree. */
  ghost predicate TableAgrees(rows: seq<RowView>, b: StateBlock, own: Stage, added: seq<Event>, last: Event) {
    forall e, holds :: FirstRow(rows, b.state, e, holds) == Interpret(b, e, holds)
                  <==> Agree(Said(b, e, holds), Done(b, own, added, last, e, holds), b.state)
  }

  lemma TableMeans(before: seq<RowView>, b: StateBlock, own: Stage, added: seq<Event>, last: Event)
    requires Compiled(b, own, added, last).Some? && forall i :: 0 <= i < |before| ==> before[i].state != b.state
    ensures TableAgrees(before + Compiled(b, own, added, last).value, b, own, added, last)
  {
    hide FirstRow, Interpret, Agree, Said, Done, Compiled;
    var rows := Compiled(b, own, added, last).value;
    forall e, holds
      ensures FirstRow(before + rows, b.state, e, holds) == Interpret(b, e, holds)
         <==> Agree(Said(b, e, holds), Done(b, own, added, last, e, holds), b.state) {
      OtherStates(before, rows, b.state, e, holds);
      FlatteningPreserves(b, own, added, last, e, holds);
    }
  }

  // ---------------------------------------------------------------- which blocks that is

  /** The table of a block does what the block says. */
  predicate Preserved(b: StateBlock, own: Stage, added: seq<Event>, last: Event, e: Event, holds: set<nat>)
    requires Compiled(b, own, added, last).Some?
  {
    FirstRow(Compiled(b, own, added, last).value, b.state, e, holds) == Interpret(b, e, holds)
  }

  predicate OnlyBlock(events: seq<EventBlock>, j: nat, e: Event) {
    j < |events| && events[j].event == e && forall i :: 0 <= i < |events| && i != j ==> events[i].event != e
  }

  /** The block `j` is the first for the event in which an if holds, and all earlier ones for it have ifs. */
  predicate FiresAt(events: seq<EventBlock>, j: nat, e: Event, holds: set<nat>) {
    HoldsAt(events, j, e, holds) && forall i :: 0 <= i < j && events[i].event == e ==> events[i].ifs != []
  }

  /** The block `j` is the first for the event in which an if holds. */
  predicate HoldsAt(events: seq<EventBlock>, j: nat, e: Event, holds: set<nat>) {
    j < |events| && events[j].event == e && FirstIf(events[j].ifs, holds).Some? &&
    forall i :: 0 <= i < j && events[i].event == e ==> FirstIf(events[i].ifs, holds).None?
  }

  /** The block `j` has no if, and all earlier ones for the event have ifs of which none holds. */
  predicate IflessAt(events: seq<EventBlock>, j: nat, e: Event, holds: set<nat>) {
    j < |events| && events[j].event == e && events[j].ifs == [] &&
    forall i :: 0 <= i < j && events[i].event == e ==> events[i].ifs != [] && FirstIf(events[i].ifs, holds).None?
  }

  predicate NoneHolds(events: seq<EventBlock>, e: Event, holds: set<nat>) {
    forall i :: 0 <= i < |events| && events[i].event == e ==> FirstIf(events[i].ifs, holds).None?
  }

  lemma {:induction false} SpokenIfless(events: seq<EventBlock>, j: nat, e: Event, holds: set<nat>)
    requires IflessAt(events, j, e, holds)
    ensures Spoken(events, e, holds) == Some(events[j].body)
  {
    if j > 0 {
      assert IflessAt(events[1..], j - 1, e, holds);
      SpokenIfless(events[1..], j - 1, e, holds);
    }
  }

  lemma {:induction false} SpokenAt(events: seq<EventBlock>, j: nat, e: Event, holds: set<nat>)
    requires FiresAt(events, j, e, holds)
    ensures Spoken(events, e, holds) == Some(events[j].body + FirstIf(events[j].ifs, holds).value.body)
  {
    if j > 0 {
      assert FiresAt(events[1..], j - 1, e, holds);
      SpokenAt(events[1..], j - 1, e, holds);
    }
  }

  lemma {:induction false} SpokenNothing(events: seq<EventBlock>, e: Event, holds: set<nat>)
    ensures Spoken(events, e, holds).None?
       <==> forall i :: 0 <= i < |events| && events[i].event == e ==>
              events[i].ifs != [] && FirstIf(events[i].ifs, holds).None?
  {
    if events != [] {
      SpokenNothing(events[1..], e, holds);
      assert forall i :: 0 < i < |events| ==> events[i] == events[1..][i - 1];
    }
  }

  lemma {:induction false} FirstIfConcat(a: seq<If>, b: seq<If>, holds: set<nat>)
    ensures FirstIf(a + b, holds) == if FirstIf(a, holds).Some? then FirstIf(a, holds) else FirstIf(b, holds)
  {
    if a == [] {
      assert a + b == b;
    } else {
      assert (a + b)[1..] == a[1..] + b;
      FirstIfConcat(a[1..], b, holds);
    }
  }

  predicate FirstOf(candidates: seq<seq<Action>>, actions: seq<Action>) {
    candidates != [] && candidates[0] == actions
  }

  /** What the block `j` runs by itself when it fires, and what the table runs for it: the actions of every other
      block for the event as well. */
  function Own(b: StateBlock, j: nat, holds: set<nat>): seq<Action>
    requires j < |b.events| && FirstIf(b.events[j].ifs, holds).Some?
  {
    b.body + b.events[j].body + FirstIf(b.events[j].ifs, holds).value.body
  }

  function Merged(b: StateBlock, j: nat, e: Event, holds: set<nat>): seq<Action>
    requires j < |b.events| && FirstIf(b.events[j].ifs, holds).Some?
  {
    b.body + EventActions(b.events, e) + FirstIf(b.events[j].ifs, holds).value.body
  }

  lemma {:induction false} ChosenFirst(front: seq<Action>, ifs: seq<If>, n: nat, holds: set<nat>)
    requires n <= |ifs|
    ensures var c, first := Chosen(front, ifs, n, holds), FirstIf(ifs[..n], holds);
      (c == [] <==> first.None?) && (c != [] ==> c[0] == front + first.value.body)
  {
    if n > 0 {
      ChosenFirst(front, ifs, n - 1, holds);
      FirstIfConcat(ifs[..n - 1], [ifs[n - 1]], holds);
      assert ifs[..n] == ifs[..n - 1] + [ifs[n - 1]];
    }
  }

  /** The first if that holds is the table's first choice, with the actions of all blocks for the event. */
  lemma {:induction false} ChosenAllFirst(b: StateBlock, n: nat, j: nat, e: Event, holds: set<nat>)
    requires n <= |b.events| && HoldsAt(b.events, j, e, holds)
    ensures n <= j ==> ChosenAll(b, n, e, holds) == []
    ensures j < n ==> FirstOf(ChosenAll(b, n, e, holds), Merged(b, j, e, holds))
  {
    hide Chosen, FirstIf, EventActions;
    if n > 0 {
      var ifs := b.events[n - 1].ifs;
      ChosenAllFirst(b, n - 1, j, e, holds);
      ChosenFirst(b.body + EventActions(b.events, e), ifs, |ifs|, holds);
      assert ifs[..|ifs|] == ifs;
    }
  }

  lemma {:induction false} ChosenAllNothing(b: StateBlock, n: nat, e: Event, holds: set<nat>)
    requires n <= |b.events|
    requires forall i :: 0 <= i < n && b.events[i].event == e ==> FirstIf(b.events[i].ifs, holds).None?
    ensures ChosenAll(b, n, e, holds) == []
  {
    hide Chosen, FirstIf, EventActions;
    if n > 0 {
      var ifs := b.events[n - 1].ifs;
      ChosenAllNothing(b, n - 1, e, holds);
      ChosenNone(b.body + EventActions(b.events, e), ifs, holds);
    }
  }

  lemma ChosenNone(front: seq<Action>, ifs: seq<If>, holds: set<nat>)
    ensures FirstIf(ifs, holds).None? ==> Chosen(front, ifs, |ifs|, holds) == []
  {
    hide Chosen, FirstIf;
    ChosenFirst(front, ifs, |ifs|, holds);
    assert ifs[..|ifs|] == ifs;
  }

  lemma {:induction false} EventActionsConcat(a: seq<EventBlock>, b: seq<EventBlock>, e: Event)
    ensures EventActions(a + b, e) == EventActions(a, e) + EventActions(b, e)
  {
    if b == [] {
      assert a + b == a;
    } else {
      assert (a + b)[..|a + b| - 1] == a + b[..|b| - 1];
      EventActionsConcat(a, b[..|b| - 1], e);
    }
  }

  /** The actions of an event are those of one block for it, between those of the others. */
  lemma EventActionsAround(events: seq<EventBlock>, j: nat, e: Event)
    requires j < |events| && events[j].event == e
    ensures EventActions(events, e)
         == EventActions(events[..j], e) + events[j].body + EventActions(events[j + 1..], e)
  {
    var one := [events[j]];
    assert events == events[..j] + one + events[j + 1..];
    EventActionsConcat(events[..j] + one, events[j + 1..], e);
    EventActionsConcat(events[..j], one, e);
    assert one[..0] == [] && EventActions(one, e) == [] + events[j].body;
  }

  lemma OnlyActions(events: seq<EventBlock>, j: nat, e: Event)
    requires OnlyBlock(events, j, e)
    ensures EventActions(events, e) == events[j].body
  {
    EventActionsAround(events, j, e);
    NoActions(events[..j], e);
    NoActions(events[j + 1..], e);
    assert [] + events[j].body + [] == events[j].body;
  }

  // ---------------------------------------------------------------- actions that make no difference

  lemma JoinedConflicts(x: seq<Action>, y: seq<Action>, state: nat)
    ensures Conflicts(x + y, state)
       <==> Conflicts(x, state) || Conflicts(y, state) || (Leaving(x, state) && Moves(y))
    ensures Moves(x + y) <==> Moves(x) || Moves(y)
    ensures Leaving(x + y, state) <==> Leaving(x, state) || Leaving(y, state)
  {
    var z := x + y;
    assert forall i :: 0 <= i < |x| ==> z[i] == x[i];
    assert forall i :: 0 <= i < |y| ==> z[|x| + i] == y[i];
    if Conflicts(y, state) {
      var i, j :| 0 <= i < j < |y| && Leaves(y[i], state) && y[j].StateTransition?;
      assert Leaves(z[|x| + i], state) && z[|x| + j].StateTransition?;
    }
    if Leaving(x, state) && Moves(y) {
      var i :| 0 <= i < |x| && Leaves(x[i], state);
      var j :| 0 <= j < |y| && y[j].StateTransition?;
      assert Leaves(z[i], state) && z[|x| + j].StateTransition?;
    }
    if Moves(y) {
      var j :| 0 <= j < |y| && y[j].StateTransition?;
      assert z[|x| + j].StateTransition?;
    }
    if Leaving(y, state) {
      var j :| 0 <= j < |y| && Leaves(y[j], state);
      assert Leaves(z[|x| + j], state);
    }
  }

  predicate Leaving(actions: seq<Action>, state: nat) {
    exists i :: 0 <= i < |actions| && Leaves(actions[i], state)
  }

  lemma {:induction false} LeavingMeans(actions: seq<Action>, state: nat)
    requires !Conflicts(actions, state)
    ensures StateAfter(actions, state) != state <==> Leaving(actions, state)
  {
    hide Conflicts, Moves;
    if actions != [] {
      ConflictsFirst(actions, state);
      LeavingMeans(actions[1..], state);
      if Leaves(actions[0], state) {
        StaysAway(actions[1..], actions[0].state);
      }
      assert [actions[0]] + actions[1..] == actions;
      JoinedConflicts([actions[0]], actions[1..], state);
      assert Leaving([actions[0]], state) <==> Leaves(actions[0], state) by {
        assert [actions[0]][0] == actions[0];
      }
    }
  }

  lemma QuietIs(actions: seq<Action>, state: nat)
    ensures Quiet(actions, state) <==> Effects(actions) == [] && !Leaving(actions, state)
    ensures Leaving(actions, state) ==> Moves(actions)
  {
    NoEffects(actions);
  }

  lemma {:induction false} NoEffects(actions: seq<Action>)
    ensures Effects(actions) == [] <==> forall i :: 0 <= i < |actions| ==> !actions[i].Effect?
  {
    if actions != [] {
      NoEffects(actions[1..]);
      assert forall i :: 0 < i < |actions| ==> actions[i] == actions[1..][i - 1];
      assert forall i :: 0 <= i < |actions[1..]| ==> actions[1..][i] == actions[i + 1];
    }
  }

  lemma PassedOver(v: seq<Action>, next: nat, state: nat)
    requires !Moves(v) || (next == state && !Leaving(v, state))
    ensures StateAfter(v, next) == next
  {
    if !Moves(v) {
      StaysAway(v, next);
    } else {
      LeavingMeans(v, state);
    }
  }

  /** Actions left out of a list make no difference exactly when they only name the state itself and the stage
      comes out the same. */
  lemma LeftOut(u: seq<Action>, p: seq<Action>, q: seq<Action>, r: seq<Action>, w: seq<Action>, state: nat)
    requires !Conflicts(u + (p + q + r) + w, state)
    ensures var x, y := u + q + w, u + (p + q + r) + w;
      SameReaction(x, y, state)
      <==> Quiet(p, state) && Quiet(r, state) && StageAfter(x, NoStage) == StageAfter(y, NoStage)
  {
    hide Conflicts, Moves, Leaving, Quiet, Effects, StateAfter, StageAfter;
    var x, y := u + q + w, u + (p + q + r) + w;
    ConflictsOfParts(u, p, q, r, w, state);
    EffectsOfParts(u, p, q, r, w);
    QuietIs(p, state);
    QuietIs(r, state);
    LeavingMeans(x, state);
    LeavingMeans(y, state);
    if !Leaving(p, state) && !Leaving(r, state) {
      StateOfParts(u, p, q, r, w, state);
    }
  }

  lemma ConflictsOfParts(u: seq<Action>, p: seq<Action>, q: seq<Action>, r: seq<Action>, w: seq<Action>, state: nat)
    requires !Conflicts(u + (p + q + r) + w, state)
    ensures !Conflicts(u + q + w, state) && !Conflicts(u + (p + q + r) + w, state)
    ensures Leaving(u + q + w, state) ==> !Leaving(p, state) && !Leaving(r, state)
    ensures Leaving(p, state) || Leaving(r, state) ==> Leaving(u + (p + q + r) + w, state)
  {
    hide Conflicts, Moves, Leaving;
    JoinedConflicts(p, q, state);
    JoinedConflicts(p + q, r, state);
    JoinedConflicts(u, p + q + r, state);
    JoinedConflicts(u + (p + q + r), w, state);
    JoinedConflicts(u, q, state);
    JoinedConflicts(u + q, w, state);
    LeavingMoves(p, state);
    LeavingMoves(q, state);
    LeavingMoves(r, state);
    LeavingMoves(w, state);
  }

  lemma LeavingMoves(actions: seq<Action>, state: nat)
    ensures Leaving(actions, state) ==> Moves(actions)
    ensures Conflicts(actions, state) ==> Leaving(actions, state)
  {
  }

  lemma EffectsOfParts(u: seq<Action>, p: seq<Action>, q: seq<Action>, r: seq<Action>, w: seq<Action>)
    ensures Effects(u + q + w) == Effects(u + (p + q + r) + w) <==> Effects(p) == [] && Effects(r) == []
  {
    hide Effects;
    EffectsConcat(p, q);
    EffectsConcat(p + q, r);
    EffectsConcat(u, p + q + r);
    EffectsConcat(u + (p + q + r), w);
    EffectsConcat(u, q);
    EffectsConcat(u + q, w);
    if Effects(p) == [] && Effects(r) == [] {
      assert [] + Effects(q) + [] == Effects(q);
    }
    assert |Effects(u + (p + q + r) + w)| == |Effects(u + q + w)| + |Effects(p)| + |Effects(r)|;
  }

  lemma StateOfParts(u: seq<Action>, p: seq<Action>, q: seq<Action>, r: seq<Action>, w: seq<Action>, state: nat)
    requires !Conflicts(u + (p + q + r) + w, state) && !Leaving(p, state) && !Leaving(r, state)
    ensures StateAfter(u + q + w, state) == StateAfter(u + (p + q + r) + w, state)
  {
    hide Conflicts, Moves, Leaving, StateAfter;
    JoinedConflicts(p, q, state);
    JoinedConflicts(p + q, r, state);
    JoinedConflicts(u, p + q + r, state);
    JoinedConflicts(u + (p + q + r), w, state);
    AfterConcat(p, q, state, NoStage);
    LeavingMeans(u, state);
    var s := StateAfter(u, state);
    PassedOver(p, s, state);
    var t := StateAfter(q, s);
    JoinedConflicts(u, q, state);
    AfterConcat(u, q, state, NoStage);
    LeavingMeans(u + q, state);
    PassedOver(r, t, state);
    AfterConcat(p, q, s, NoStage);
    AfterConcat(p + q, r, s, NoStage);
    AfterConcat(u, p + q + r, state, NoStage);
    AfterConcat(u + (p + q + r), w, state, NoStage);
    AfterConcat(u + q, w, state, NoStage);
  }

  /** Actions in front make no difference exactly when they only name the state itself and the stage they name is
      not the one that counts. */
  lemma InFront(p: seq<Action>, y: seq<Action>, state: nat)
    requires !Conflicts(y, state)
    ensures SameReaction(p + y, y, state)
       <==> Quiet(p, state) && StageAfter(p + y, NoStage) == StageAfter(y, NoStage)
  {
    hide Conflicts, Moves, Leaving, Quiet, Effects, StateAfter, StageAfter;
    QuietIs(p, state);
    LeavingMoves(p, state);
    JoinedConflicts(p, y, state);
    if !Conflicts(p + y, state) {
      assert [] + (p + [] + []) + y == p + y && [] + [] + y == y;
      LeftOut([], p, [], [], y, state);
      QuietIs([], state);
      NothingQuiet(state);
    }
  }

  lemma NothingQuiet(state: nat)
    ensures Quiet([], state)
  {
  }

  /** Actions behind make no difference exactly when they name no state at all, or only the state itself and nothing
      before has left it, and the stage comes out the same. */
  lemma Behind(y: seq<Action>, v: seq<Action>, state: nat)
    requires !Conflicts(y, state)
    ensures SameReaction(y + v, y, state)
       <==> Quiet(v, state) && !(Leaving(y, state) && Moves(v)) && StageAfter(y + v, NoStage) == StageAfter(y, NoStage)
  {
    hide Conflicts, Moves, Leaving, Quiet, Effects, StateAfter, StageAfter;
    QuietIs(v, state);
    JoinedConflicts(y, v, state);
    if Quiet(v, state) {
      QuietMeans(v, state);
    }
    if !Conflicts(y + v, state) {
      assert y + ([] + [] + v) + [] == y + v && y + [] + [] == y;
      LeftOut(y, [], [], v, [], state);
      NothingQuiet(state);
    }
  }

  // ---------------------------------------------------------------- exactly when, case by case

  /** Without event blocks: unless the state's own actions are idle. */
  lemma StateAlone(b: StateBlock, own: Stage, added: seq<Event>, last: Event, e: Event, holds: set<nat>)
    requires Compiled(b, own, added, last).Some? && WithoutIfs(b.events, added) && b.events == []
    ensures Preserved(b, own, added, last, e, holds) <==> !Idle(b.body, b.state, own)
  {
    hide Compiled, SameReaction, Idle;
    NothingAdded(b.events, added);
    FlatteningPreserves(b, own, added, last, e, holds);
    assert Candidates(b, added, last, e, holds) == [b.body];
    TableSettles(b, own, added, last, e, holds);
    AgreesWithItself(b.body, b.state);
  }

  lemma NothingAdded(events: seq<EventBlock>, added: seq<Event>)
    requires WithoutIfs(events, added) && forall i :: 0 <= i < |events| ==> events[i].ifs != []
    ensures added == []
  {
    if added != [] {
      assert added[0] in added && HasBlock(events, added[0]);
      var i :| 0 <= i < |events| && events[i].event == added[0];
      assert HasIf(events, added[0]);
    }
  }

  lemma AgreesWithItself(x: seq<Action>, state: nat)
    ensures SameReaction(x, x, state) <==> !Conflicts(x, state)
  {
  }

  lemma TableSettles(b: StateBlock, own: Stage, added: seq<Event>, last: Event, e: Event, holds: set<nat>)
    requires Compiled(b, own, added, last).Some?
    ensures forall y :: y in Candidates(b, added, last, e, holds) ==> !Conflicts(y, b.state)
  {
    hide Gathered, Candidates, Fitting, Conflicts, React, SettleAll, Unsettled;
    GatheredFits(b, added, last, e, holds);
    ChosenSettles(Gathered(b, added, last), b.state, own, e, holds);
  }

  /** An idle reaction is only that of idle actions. */
  lemma IdleTogether(x: seq<Action>, y: seq<Action>, state: nat, own: Stage)
    requires !Conflicts(y, state) && SameReaction(x, y, state)
    ensures Idle(x, state, own) <==> Idle(y, state, own)
  {
    hide Conflicts, Quiet;
    QuietMeans(x, state);
    QuietMeans(y, state);
  }

  /** Several blocks for one event, all with ifs up to the one that fires: unless the merged actions are idle, exactly
      when the actions of the other blocks for the event only name the state itself and the stage comes out the same. */
  lemma SeveralBlocks(b: StateBlock, own: Stage, added: seq<Event>, last: Event, e: Event, holds: set<nat>, j: nat)
    requires Compiled(b, own, added, last).Some? && FiresAt(b.events, j, e, holds)
    requires !Idle(Merged(b, j, e, holds), b.state, own)
    ensures Preserved(b, own, added, last, e, holds)
       <==> Quiet(EventActions(b.events[..j], e), b.state) && Quiet(EventActions(b.events[j + 1..], e), b.state) &&
            StageAfter(Own(b, j, holds), NoStage) == StageAfter(Merged(b, j, e, holds), NoStage)
  {
    hide Compiled, SameReaction, Idle, EventActions, ChosenAll, Alone, Quiet, StageAfter, Conflicts, FirstIf;
    FlatteningPreserves(b, own, added, last, e, holds);
    SpokenAt(b.events, j, e, holds);
    ChosenAllFirst(b, |b.events|, j, e, holds);
    var p, q, r := EventActions(b.events[..j], e), b.events[j].body, EventActions(b.events[j + 1..], e);
    var w := FirstIf(b.events[j].ifs, holds).value.body;
    EventActionsAround(b.events, j, e);
    assert b.body + (q + w) == b.body + q + w;
    TableSettles(b, own, added, last, e, holds);
    assert Candidates(b, added, last, e, holds)[0] == b.body + (p + q + r) + w;
    LeftOut(b.body, p, q, r, w, b.state);
  }

  /** One block with ifs for an event, one of which holds: unless its actions are idle. */
  lemma OneBlock(b: StateBlock, own: Stage, added: seq<Event>, last: Event, e: Event, holds: set<nat>, j: nat)
    requires Compiled(b, own, added, last).Some? && OnlyBlock(b.events, j, e) && FirstIf(b.events[j].ifs, holds).Some?
    ensures Preserved(b, own, added, last, e, holds) <==> !Idle(Own(b, j, holds), b.state, own)
  {
    hide Compiled, SameReaction, Idle, EventActions, ChosenAll, Alone, Conflicts, FirstIf;
    FlatteningPreserves(b, own, added, last, e, holds);
    SpokenAt(b.events, j, e, holds);
    ChosenAllFirst(b, |b.events|, j, e, holds);
    OnlyActions(b.events, j, e);
    var q, w := b.events[j].body, FirstIf(b.events[j].ifs, holds).value.body;
    assert b.body + (q + w) == b.body + q + w;
    TableSettles(b, own, added, last, e, holds);
    var x := Own(b, j, holds);
    assert Candidates(b, added, last, e, holds)[0] == x;
    AgreesWithItself(x, b.state);
    var done := Done(b, own, added, last, e, holds);
    if Idle(x, b.state, own) && done.Some? && SameReaction(x, done.value, b.state) {
      IdleTogether(x, done.value, b.state, own);
    }
  }

  /** Blocks that say nothing on an event: exactly when the table has nothing left that is not idle, that is, no
      actions of an event without ifs, if the event is the last that was read, and no actions of a state that has
      no if at all. */
  lemma NothingSaid(b: StateBlock, own: Stage, added: seq<Event>, last: Event, e: Event, holds: set<nat>)
    requires Compiled(b, own, added, last).Some? && Said(b, e, holds) == None
    ensures Preserved(b, own, added, last, e, holds)
       <==> (e == last ==> forall k :: 0 <= k < |added| ==> Idle(EventActions(b.events, added[k]), b.state, own)) &&
            (!SomeIf(b.events) ==> Idle(b.body, b.state, own))
  {
    hide Compiled, SameReaction, Idle, EventActions, ChosenAll, SomeIf, FirstLively, FirstIf, AllIdle, Alone;
    FlatteningPreserves(b, own, added, last, e, holds);
    SpokenNothing(b.events, e, holds);
    ChosenAllNothing(b, |b.events|, e, holds);
    var alone, bare := if e == last then Alone(b.events, added) else [], if SomeIf(b.events) then [] else [b.body];
    assert Candidates(b, added, last, e, holds) == alone + bare;
    NothingLively(alone, bare, b.state, own);
    AllIdleAlone(b.events, added, b.state, own);
    OneIdle(b.body, b.state, own);
  }

  predicate AllIdle(candidates: seq<seq<Action>>, state: nat, own: Stage) {
    forall k :: 0 <= k < |candidates| ==> Idle(candidates[k], state, own)
  }

  lemma NothingLively(x: seq<seq<Action>>, y: seq<seq<Action>>, state: nat, own: Stage)
    ensures FirstLively(x + y, state, own).None? <==> AllIdle(x, state, own) && AllIdle(y, state, own)
  {
    hide Idle;
    assert forall k :: 0 <= k < |x| ==> (x + y)[k] == x[k];
    assert forall k :: 0 <= k < |y| ==> (x + y)[|x| + k] == y[k];
  }

  lemma AllIdleAlone(events: seq<EventBlock>, added: seq<Event>, state: nat, own: Stage)
    ensures AllIdle(Alone(events, added), state, own)
       <==> forall k :: 0 <= k < |added| ==> Idle(EventActions(events, added[k]), state, own)
  {
    hide Idle, EventActions;
    var alone := Alone(events, added);
    assert forall k :: 0 <= k < |added| ==> alone[k] == EventActions(events, added[k]);
  }

  lemma OneIdle(actions: seq<Action>, state: nat, own: Stage)
    ensures AllIdle([actions], state, own) <==> Idle(actions, state, own)
    ensures AllIdle([], state, own)
  {
    hide Idle;
    assert [actions][0] == actions;
  }

  /** A block without ifs comes before one for the same event in which an if holds: unless the merged actions are
      idle, exactly when the actions of the other blocks and of the if only name the state itself and the stage comes
      out the same. */
  lemma IflessBeforeIfs(b: StateBlock, own: Stage, added: seq<Event>, last: Event, e: Event, holds: set<nat>, j: nat,
                        l: nat)
    requires Compiled(b, own, added, last).Some? && IflessAt(b.events, j, e, holds) && HoldsAt(b.events, l, e, holds)
    requires !Idle(Merged(b, l, e, holds), b.state, own)
    ensures Preserved(b, own, added, last, e, holds)
       <==> Quiet(EventActions(b.events[..j], e), b.state) &&
            Quiet(EventActions(b.events[j + 1..], e) + FirstIf(b.events[l].ifs, holds).value.body, b.state) &&
            StageAfter(b.body + b.events[j].body, NoStage) == StageAfter(Merged(b, l, e, holds), NoStage)
  {
    hide Compiled, SameReaction, Idle, EventActions, ChosenAll, Alone, Quiet, StageAfter, Conflicts, FirstIf;
    FlatteningPreserves(b, own, added, last, e, holds);
    SpokenIfless(b.events, j, e, holds);
    ChosenAllFirst(b, |b.events|, l, e, holds);
    var p, q, r := EventActions(b.events[..j], e), b.events[j].body, EventActions(b.events[j + 1..], e);
    var w := FirstIf(b.events[l].ifs, holds).value.body;
    EventActionsAround(b.events, j, e);
    assert b.body + (p + q + (r + w)) + [] == b.body + (p + q + r) + w && b.body + q + [] == b.body + q;
    TableSettles(b, own, added, last, e, holds);
    assert Candidates(b, added, last, e, holds)[0] == b.body + (p + q + r) + w;
    LeftOut(b.body, p, q, r + w, [], b.state);
  }

  /** A block without ifs, of whose event no if holds, when no row with its own actions is filed under the event: the
      event is not the last one read, or all actions that are filed are idle. Never when the state has an if anywhere;
      otherwise its actions must add nothing to those of the state. */
  lemma IflessUnfiled(b: StateBlock, own: Stage, added: seq<Event>, last: Event, e: Event, holds: set<nat>, j: nat)
    requires Compiled(b, own, added, last).Some? && IflessAt(b.events, j, e, holds) && NoneHolds(b.events, e, holds)
    requires e == last ==> AllIdle(Alone(b.events, added), b.state, own)
    ensures Preserved(b, own, added, last, e, holds)
       <==> !SomeIf(b.events) && !Idle(b.body, b.state, own) &&
            Quiet(b.events[j].body, b.state) && !(Leaving(b.body, b.state) && Moves(b.events[j].body)) &&
            StageAfter(b.body + b.events[j].body, NoStage) == StageAfter(b.body, NoStage)
  {
    hide Compiled, SameReaction, Idle, EventActions, ChosenAll, Quiet, StageAfter, Conflicts, FirstIf, SomeIf, Leaving,
      Moves, FirstLively, AllIdle, Alone;
    FlatteningPreserves(b, own, added, last, e, holds);
    SpokenIfless(b.events, j, e, holds);
    ChosenAllNothing(b, |b.events|, e, holds);
    var alone := if e == last then Alone(b.events, added) else [];
    var bare := if SomeIf(b.events) then [] else [b.body];
    assert Candidates(b, added, last, e, holds) == alone + bare;
    OneIdle(b.body, b.state, own);
    LivelyBehind(alone, bare, b.state, own);
    LivelyOne(b.body, b.state, own);
    TableSettles(b, own, added, last, e, holds);
    if !SomeIf(b.events) {
      assert (alone + bare)[|alone|] == b.body;
      assert b.body in Candidates(b, added, last, e, holds);
      Behind(b.body, b.events[j].body, b.state);
    }
  }

  lemma {:induction false} LivelyBehind(x: seq<seq<Action>>, y: seq<seq<Action>>, state: nat, own: Stage)
    requires AllIdle(x, state, own)
    ensures FirstLively(x + y, state, own) == FirstLively(y, state, own)
  {
    hide Idle;
    if x == [] {
      assert x + y == y;
    } else {
      assert (x + y)[1..] == x[1..] + y && (x + y)[0] == x[0];
      LivelyBehind(x[1..], y, state, own);
    }
  }

  lemma LivelyOne(actions: seq<Action>, state: nat, own: Stage)
    ensures FirstLively([actions], state, own) == if Idle(actions, state, own) then None else Some(actions)
    ensures FirstLively([], state, own) == None
  {
    hide Idle;
  }

  /** The position `k` is the first among the events whose actions are not idle. */
  predicate FiledAt(b: StateBlock, own: Stage, added: seq<Event>, k: nat) {
    k < |added| && !Idle(EventActions(b.events, added[k]), b.state, own) &&
    forall i :: 0 <= i < k ==> Idle(EventActions(b.events, added[i]), b.state, own)
  }

  lemma LivelyAt(b: StateBlock, own: Stage, added: seq<Event>, k: nat, rest: seq<seq<Action>>)
    requires FiledAt(b, own, added, k)
    ensures FirstLively(Alone(b.events, added) + rest, b.state, own) == Some(EventActions(b.events, added[k]))
  {
    hide Idle, EventActions;
    var all := Alone(b.events, added) + rest;
    assert all == all[..k] + all[k..] && all[k] == EventActions(b.events, added[k]);
    assert forall i :: 0 <= i < k ==> all[..k][i] == EventActions(b.events, added[i]);
    LivelyBehind(all[..k], all[k..], b.state, own);
  }

  /** A block without ifs for the event that is read last, of whose event no if holds: what runs are the actions, on
      their own, of the first event without ifs whose actions are not idle, in an order that depends on a hash. When
      that is the event itself and this its only block, exactly when the actions of the state only name the state itself
      and the stage comes out the same. */
  lemma IflessLast(b: StateBlock, own: Stage, added: seq<Event>, e: Event, holds: set<nat>, j: nat, k: nat)
    requires Compiled(b, own, added, e).Some? && IflessAt(b.events, j, e, holds) && NoneHolds(b.events, e, holds)
    requires FiledAt(b, own, added, k)
    ensures Preserved(b, own, added, e, e, holds)
       <==> if added[k] == e && OnlyBlock(b.events, j, e)
            then Quiet(b.body, b.state) &&
                 StageAfter(b.body + b.events[j].body, NoStage) == StageAfter(b.events[j].body, NoStage)
            else SameReaction(b.body + b.events[j].body, EventActions(b.events, added[k]), b.state)
  {
    hide Compiled, SameReaction, Idle, EventActions, ChosenAll, Quiet, StageAfter, Conflicts, FirstIf, SomeIf,
      FirstLively;
    FlatteningPreserves(b, own, added, e, e, holds);
    SpokenIfless(b.events, j, e, holds);
    ChosenAllNothing(b, |b.events|, e, holds);
    var y, alone := EventActions(b.events, added[k]), Alone(b.events, added);
    var bare := if SomeIf(b.events) then [] else [b.body];
    assert Candidates(b, added, e, e, holds) == alone + bare;
    LivelyAt(b, own, added, k, bare);
    TableSettles(b, own, added, e, e, holds);
    assert (alone + bare)[k] == y && y in Candidates(b, added, e, e, holds);
    if added[k] == e && OnlyBlock(b.events, j, e) {
      OnlyActions(b.events, j, e);
      InFront(b.body, y, b.state);
    }
  }

  /** Merged actions that are idle: their row is deleted, and the next choice of the table that is not idle decides.
      What the blocks say only leads to a stage, so that choice must do nothing but lead to the same one. */
  lemma IdleMerged(b: StateBlock, own: Stage, added: seq<Event>, last: Event, e: Event, holds: set<nat>, l: nat)
    requires Compiled(b, own, added, last).Some? && HoldsAt(b.events, l, e, holds)
    requires Idle(Merged(b, l, e, holds), b.state, own)
    ensures Said(b, e, holds).Some? && Candidates(b, added, last, e, holds) != []
    ensures var x := Said(b, e, holds).value;
      var next := FirstLively(Candidates(b, added, last, e, holds)[1..], b.state, own);
      Preserved(b, own, added, last, e, holds)
      <==> next.Some? && Quiet(next.value, b.state) && StageAfter(next.value, NoStage) == StageAfter(x, NoStage)
  {
    hide Compiled, SameReaction, EventActions, ChosenAll, Alone, StageAfter, Conflicts, FirstIf, Quiet, Merged, Spoken;
    FlatteningPreserves(b, own, added, last, e, holds);
    ChosenAllFirst(b, |b.events|, l, e, holds);
    QuietlySaid(b, e, holds, l);
    TableSettles(b, own, added, last, e, holds);
    var x, done := Said(b, e, holds).value, Done(b, own, added, last, e, holds);
    if done.Some? {
      QuietlyTheSame(x, done.value, b.state);
    }
  }

  lemma QuietlyTheSame(x: seq<Action>, y: seq<Action>, state: nat)
    requires Quiet(x, state) && !Conflicts(y, state)
    ensures SameReaction(x, y, state) <==> Quiet(y, state) && StageAfter(y, NoStage) == StageAfter(x, NoStage)
  {
    hide Quiet, Conflicts;
    QuietMeans(x, state);
    QuietMeans(y, state);
  }

  /** What the blocks say is part of the merged actions. */
  lemma QuietlySaid(b: StateBlock, e: Event, holds: set<nat>, l: nat)
    requires HoldsAt(b.events, l, e, holds) && Quiet(Merged(b, l, e, holds), b.state)
    ensures Said(b, e, holds).Some? && Quiet(Said(b, e, holds).value, b.state)
  {
    hide Quiet, FirstIf, EventActions, Spoken;
    var w := FirstIf(b.events[l].ifs, holds).value.body;
    if FiresAt(b.events, l, e, holds) {
      SpokenAt(b.events, l, e, holds);
      QuietPart(b, l, e, w);
    } else {
      var j := FirstIfless(b.events, l, e, holds);
      SpokenIfless(b.events, j, e, holds);
      QuietPart(b, j, e, w);
    }
  }

  lemma QuietPart(b: StateBlock, j: nat, e: Event, w: seq<Action>)
    requires j < |b.events| && b.events[j].event == e && Quiet(b.body + EventActions(b.events, e) + w, b.state)
    ensures Quiet(b.body + (b.events[j].body + w), b.state) && Quiet(b.body + b.events[j].body, b.state)
  {
    hide Quiet, EventActions;
    var p, q, r := EventActions(b.events[..j], e), b.events[j].body, EventActions(b.events[j + 1..], e);
    EventActionsAround(b.events, j, e);
    QuietConcat(b.body + (p + q + r), w, b.state);
    QuietConcat(b.body, p + q + r, b.state);
    QuietConcat(p + q, r, b.state);
    QuietConcat(p, q, b.state);
    QuietConcat(b.body, q + w, b.state);
    QuietConcat(q, w, b.state);
    QuietConcat(b.body, q, b.state);
  }

  lemma QuietConcat(x: seq<Action>, y: seq<Action>, state: nat)
    ensures Quiet(x + y, state) <==> Quiet(x, state) && Quiet(y, state)
  {
    assert forall i :: 0 <= i < |x| ==> (x + y)[i] == x[i];
    assert forall i :: 0 <= i < |y| ==> (x + y)[|x| + i] == y[i];
  }

  lemma {:induction false} FirstIfless(events: seq<EventBlock>, l: nat, e: Event, holds: set<nat>) returns (j: nat)
    requires l <= |events| && forall i :: 0 <= i < l && events[i].event == e ==> FirstIf(events[i].ifs, holds).None?
    requires exists i :: 0 <= i < l && events[i].event == e && events[i].ifs == []
    ensures j < l && IflessAt(events, j, e, holds)
    decreases l
  {
    hide FirstIf;
    if exists i :: 0 <= i < l - 1 && events[i].event == e && events[i].ifs == [] {
      j := FirstIfless(events, l - 1, e, holds);
    } else {
      j := l - 1;
    }
  }

  lemma {:induction false} FirstHolds(events: seq<EventBlock>, n: nat, e: Event, holds: set<nat>) returns (l: nat)
    requires n <= |events|
    requires exists i :: 0 <= i < n && events[i].event == e && FirstIf(events[i].ifs, holds).Some?
    ensures l < n && HoldsAt(events, l, e, holds)
    decreases n
  {
    hide FirstIf;
    if exists i :: 0 <= i < n - 1 && events[i].event == e && FirstIf(events[i].ifs, holds).Some? {
      l := FirstHolds(events, n - 1, e, holds);
    } else {
      l := n - 1;
    }
  }

  /** These are all cases: a state without event blocks, nothing said, an if that holds, with or without a block without
      ifs before it, or a block without ifs and no if that holds. */
  lemma AllCases(b: StateBlock, e: Event, holds: set<nat>)
    ensures b.events == [] || Said(b, e, holds) == None ||
      (exists l :: FiresAt(b.events, l, e, holds)) ||
      (exists j, l :: IflessAt(b.events, j, e, holds) && HoldsAt(b.events, l, e, holds)) ||
      ((exists j :: IflessAt(b.events, j, e, holds)) && NoneHolds(b.events, e, holds))
  {
    hide FirstIf, IflessAt;
    SpokenNothing(b.events, e, holds);
    if !NoneHolds(b.events, e, holds) {
      var l := FirstHolds(b.events, |b.events|, e, holds);
      if !FiresAt(b.events, l, e, holds) {
        var j := FirstIfless(b.events, l, e, holds);
      }
    } else if exists i :: 0 <= i < |b.events| && b.events[i].event == e && b.events[i].ifs == [] {
      var j := FirstIfless(b.events, |b.events|, e, holds);
    }
  }

  // ---------------------------------------------------------------- blocks for which it always holds

  predicate AllOf(actions: seq<Action>, p: Action -> bool) { forall i :: 0 <= i < |actions| ==> p(actions[i]) }

  predicate EventAllOf(eb: EventBlock, p: Action -> bool) {
    AllOf(eb.body, p) && forall i :: 0 <= i < |eb.ifs| ==> AllOf(eb.ifs[i].body, p)
  }

  /** All actions of a block, on every level, are of a kind. */
  predicate BlockAllOf(b: StateBlock, p: Action -> bool) {
    AllOf(b.body, p) && forall i :: 0 <= i < |b.events| ==> EventAllOf(b.events[i], p)
  }

  predicate Elsewhere(a: Action, own: Stage) { a != StageTransition(own) }

  /** Blocks that never name their own stage as the next one. */
  predicate BlockNeverOwnStage(b: StateBlock, own: Stage) { BlockAllOf(b, a => Elsewhere(a, own)) }

  /** Every event block has an if, and no event has two blocks. */
  predicate OneBlockWithIfs(b: StateBlock) {
    (forall i :: 0 <= i < |b.events| ==> b.events[i].ifs != []) &&
    forall i, j :: 0 <= i < j < |b.events| ==> b.events[i].event != b.events[j].event
  }

  lemma {:induction false} NeverIdle(actions: seq<Action>, own: Stage, stage: Stage)
    requires AllOf(actions, a => Elsewhere(a, own)) && stage != own
    ensures StageAfter(actions, stage) != own
  {
    if actions != [] {
      assert Elsewhere(actions[0], own);
      NeverIdle(actions[1..], own, if actions[0].StageTransition? then actions[0].stage else stage);
    }
  }

  lemma {:induction false} EventActionsAllOf(events: seq<EventBlock>, e: Event, p: Action -> bool)
    requires forall i :: 0 <= i < |events| ==> EventAllOf(events[i], p)
    ensures AllOf(EventActions(events, e), p)
  {
    if events != [] {
      EventActionsAllOf(events[..|events| - 1], e, p);
      assert EventAllOf(events[|events| - 1], p);
    }
  }

  lemma {:induction false} BlockRowsAllOf(b: StateBlock, n: nat, p: Action -> bool)
    requires n <= |b.events| && BlockAllOf(b, p)
    ensures forall i :: 0 <= i < |BlockRows(b, n)| ==> AllOf(BlockRows(b, n)[i].actions, p)
  {
    if n > 0 {
      var eb := b.events[n - 1];
      BlockRowsAllOf(b, n - 1, p);
      EventActionsAllOf(b.events, eb.event, p);
      assert EventAllOf(eb, p);
    }
  }

  lemma RowsAllOf(b: StateBlock, added: seq<Event>, last: Event, p: Action -> bool)
    requires BlockAllOf(b, p)
    ensures var rows := Gathered(b, added, last); forall i :: 0 <= i < |rows| ==> AllOf(rows[i].actions, p)
  {
    hide BlockRows, AllOf, EventActions;
    BlockRowsAllOf(b, |b.events|, p);
    forall e ensures AllOf(EventActions(b.events, e), p) {
      EventActionsAllOf(b.events, e, p);
    }
  }

  /** Blocks without any transition can always be compiled. */
  lemma EffectsCompile(b: StateBlock, own: Stage, added: seq<Event>, last: Event)
    requires BlockAllOf(b, (a: Action) => a.Effect?)
    ensures Compiled(b, own, added, last).Some?
  {
    hide Gathered, BlockAllOf;
    var rows := Gathered(b, added, last);
    RowsAllOf(b, added, last, (a: Action) => a.Effect?);
    forall i | 0 <= i < |rows| ensures SettleRow(rows[i]).Some? {
      assert OnlyEffects(rows[i].actions);
      SettledOnce(rows[i].actions, rows[i].state, rows[i].nextState, rows[i].nextStage);
    }
  }

  lemma {:induction false} FirstIfIn(ifs: seq<If>, holds: set<nat>)
    ensures FirstIf(ifs, holds).Some? ==> exists i :: 0 <= i < |ifs| && ifs[i] == FirstIf(ifs, holds).value
  {
    if ifs != [] {
      FirstIfIn(ifs[1..], holds);
      if FirstIf(ifs[1..], holds).Some? {
        var i :| 0 <= i < |ifs[1..]| && ifs[1..][i] == FirstIf(ifs[1..], holds).value;
        assert ifs[i + 1] == ifs[1..][i];
      }
    }
  }

  lemma OwnNeverIdle(b: StateBlock, j: nat, holds: set<nat>, own: Stage)
    requires BlockNeverOwnStage(b, own) && own != NoStage && j < |b.events|
    requires FirstIf(b.events[j].ifs, holds).Some?
    ensures !Idle(Own(b, j, holds), b.state, own)
  {
    FirstIfIn(b.events[j].ifs, holds);
    assert EventAllOf(b.events[j], a => Elsewhere(a, own));
    NeverIdle(Own(b, j, holds), own, NoStage);
  }

  /** Blocks that have one event block with ifs for every event they treat and never name their own stage: every if
      has its row, in the order of the source, and the table always does what the blocks say. */
  lemma PlainBlocks(b: StateBlock, own: Stage, added: seq<Event>, last: Event, e: Event, holds: set<nat>)
    requires Compiled(b, own, added, last).Some? && WithoutIfs(b.events, added)
    requires OneBlockWithIfs(b) && BlockNeverOwnStage(b, own) && own != NoStage
    ensures Compiled(b, own, added, last) == SettleAll(StateRows(b))
    ensures Preserved(b, own, added, last, e, holds)
  {
    hide Compiled, Said, Own, Idle, FirstIf, EventActions, BlockNeverOwnStage, SomeIf, SettleAll, StateRows, Gathered;
    PlainRows(b, own, added, last);
    PlainBody(b, own);
    NothingAdded(b.events, added);
    if b.events == [] {
      StateAlone(b, own, added, last, e, holds);
    } else if Said(b, e, holds).None? {
      NothingSaid(b, own, added, last, e, holds);
      assert b.events[0].ifs != [];
      IfIn(b.events, 0);
    } else {
      var j := PlainSpoken(b, e, holds);
      OneBlock(b, own, added, last, e, holds, j);
      OwnNeverIdle(b, j, holds, own);
    }
  }

  lemma IfIn(events: seq<EventBlock>, i: nat)
    requires i < |events| && events[i].ifs != []
    ensures SomeIf(events)
  {
  }

  lemma PlainBody(b: StateBlock, own: Stage)
    requires BlockNeverOwnStage(b, own) && own != NoStage
    ensures !Idle(b.body, b.state, own)
  {
    NeverIdle(b.body, own, NoStage);
  }

  lemma PlainSpoken(b: StateBlock, e: Event, holds: set<nat>) returns (j: nat)
    requires OneBlockWithIfs(b) && b.events != [] && Said(b, e, holds).Some?
    ensures OnlyBlock(b.events, j, e) && FirstIf(b.events[j].ifs, holds).Some?
  {
    SpokenNothing(b.events, e, holds);
    j :| 0 <= j < |b.events| && b.events[j].event == e && FirstIf(b.events[j].ifs, holds).Some?;
  }

  lemma PlainRows(b: StateBlock, own: Stage, added: seq<Event>, last: Event)
    requires Compiled(b, own, added, last).Some? && WithoutIfs(b.events, added)
    requires OneBlockWithIfs(b) && BlockNeverOwnStage(b, own) && own != NoStage
    ensures Compiled(b, own, added, last) == SettleAll(StateRows(b))
  {
    hide BlockRows, AllOf, SettleRow, IsEmpty, Idle;
    GatheredPlain(b, added, last);
    GatheredFits(b, added, last, last, {});
    var rows := StateRows(b);
    var settled := SettleAll(rows).value;
    RowsAllOf(b, added, last, a => Elsewhere(a, own));
    forall i | 0 <= i < |rows| ensures !IsEmpty(settled[i], own) {
      SettledIdle(rows[i], own);
      RowNeverIdle(rows[i], own);
    }
    NonEmptyAll(settled, own);
  }

  lemma RowNeverIdle(r: RowView, own: Stage)
    requires own != NoStage
    ensures AllOf(r.actions, a => Elsewhere(a, own)) ==> !Idle(r.actions, r.state, own)
  {
    if AllOf(r.actions, a => Elsewhere(a, own)) {
      NeverIdle(r.actions, own, NoStage);
    }
  }

  // ---------------------------------------------------------------- blocks for which it does not hold

  /** A state with two blocks for packets, each with an action and an if. */
  function TwoBlocks(a: Action, c: Action): StateBlock {
    StateBlock(0, [], [EventBlock(PktRcvd, [a], [If([0], [])]), EventBlock(PktRcvd, [c], [If([1], [])])])
  }

  /** Two blocks for one event share their actions. */
  lemma BlocksAreMerged(a: Action, c: Action, own: Stage)
    requires a.Effect? && c.Effect?
    ensures Compiled(TwoBlocks(a, c), own, [], PktRcvd).Some? &&
      !Preserved(TwoBlocks(a, c), own, [], PktRcvd, PktRcvd, {0})
  {
    hide Compiled;
    var b := TwoBlocks(a, c);
    EffectsCompile(b, own, [], PktRcvd);
    assert FirstIf(b.events[0].ifs, {0}) == Some(If([0], []));
    EventActionsAround(b.events, 0, PktRcvd);
    assert b.events[1..] == [b.events[1]] && b.events[1..][..0] == [];
    assert EventActions(b.events[1..], PktRcvd)[0] == c;
    assert Merged(b, 0, PktRcvd, {0})[0] == a;
    SeveralBlocks(b, own, [], PktRcvd, PktRcvd, {0}, 0);
  }

  /** A state with a block without ifs for time-outs, and then one with an if for packets. */
  function IflessBlock(a: Action, c: Action): StateBlock {
    StateBlock(0, [], [EventBlock(Timeout, [a], []), EventBlock(PktRcvd, [], [If([0], [c])])])
  }

  /** What is to be done on a time-out is done on packets instead. */
  lemma FiledUnderLastEvent(a: Action, c: Action, own: Stage)
    requires a.Effect? && c.Effect?
    ensures Compiled(IflessBlock(a, c), own, [Timeout], PktRcvd).Some? &&
      WithoutIfs(IflessBlock(a, c).events, [Timeout]) &&
      !Preserved(IflessBlock(a, c), own, [Timeout], PktRcvd, PktRcvd, {}) &&
      !Preserved(IflessBlock(a, c), own, [Timeout], PktRcvd, Timeout, {})
  {
    hide Compiled;
    var b, added := IflessBlock(a, c), [Timeout];
    EffectsCompile(b, own, added, PktRcvd);
    assert b.events[0].event == Timeout && b.events[1].event == PktRcvd && b.events[1].ifs != [];
    assert !AllHold([0], {}) by {
      assert [0][0] == 0;
    }
    SpokenNothing(b.events, PktRcvd, {});
    EventActionsAround(b.events, 0, Timeout);
    assert EventActions(b.events, added[0])[0] == a;
    NothingSaid(b, own, added, PktRcvd, PktRcvd, {});
    IfIn(b.events, 1);
    IflessUnfiled(b, own, added, PktRcvd, Timeout, {}, 0);
  }

  /** A state with a block without ifs for packets, and another one with an if. */
  function IflessFirst(a: Action, c: Action): StateBlock {
    StateBlock(0, [], [EventBlock(PktRcvd, [a], []), EventBlock(PktRcvd, [], [If([0], [c])])])
  }

  /** What is to be done on every packet is lost when the if of the other block does not hold: no row has it. */
  lemma LostBesideIf(a: Action, c: Action, own: Stage)
    requires a.Effect? && c.Effect?
    ensures Compiled(IflessFirst(a, c), own, [], PktRcvd).Some? && WithoutIfs(IflessFirst(a, c).events, []) &&
      !Preserved(IflessFirst(a, c), own, [], PktRcvd, PktRcvd, {})
  {
    hide Compiled;
    var b := IflessFirst(a, c);
    EffectsCompile(b, own, [], PktRcvd);
    assert b.events[1].event == PktRcvd && b.events[1].ifs != [];
    assert !AllHold([0], {}) by {
      assert [0][0] == 0;
    }
    assert b.events[1].ifs[1..] == [] && FirstIf(b.events[1].ifs, {}) == None;
    IfIn(b.events, 1);
    IflessUnfiled(b, own, [], PktRcvd, PktRcvd, {}, 0);
  }
}
