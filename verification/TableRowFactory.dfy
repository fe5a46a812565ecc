/** The factory that collects table rows while the blocks of a program are read, and finishes them when a state
    block ends. */
module TableRowFactory {
  import opened Bytes
  import opened XlBlocks
  import opened Flattening

  class TableRow {
    var conditionResults: seq<nat>
    var actions: seq<Action>
    const state: nat
    const event: Event
    var nextState: nat
    var nextStage: Stage

    constructor (state: nat, event: Event, nextStage: Stage)
      ensures View() == RowView([], [], state, event, state, nextStage)
    {
      this.state := state;
      this.event := event;
      conditionResults := [];
      actions := [];
      nextState := state;
      this.nextStage := nextStage;
    }

    ghost function View(): RowView
      reads this
    {
      RowView(conditionResults, actions, state, event, nextState, nextStage)
    }

    /** Sets the next state; fails when it was already set to another state. */
    method SetNextState(next: nat) returns (ok: bool)
      modifies `nextState
      ensures ok <==> old(nextState) == state
      ensures nextState == if ok then next else old(nextState)
    {
      if nextState != state {
        return false;
      }
      nextState := next;
      ok := true;
    }

    predicate IsEmpty(own: Stage)
      reads this
      ensures IsEmpty(own) <==> XlBlocks.IsEmpty(View(), own)
    {
      actions == [] && state == nextState && nextStage == own
    }

    /** Takes the transitions out of the actions. */
    method ProcessSetNext() returns (ok: bool)
      modifies this
      ensures ok <==> SettleRow(old(View())).Some?
      ensures ok ==> View() == SettleRow(old(View())).value
    {
      var kept: seq<Action> := [];
      assert actions[0..] == actions;
      AfterAll([], StateTransition(0), Settle(actions, state, nextState, nextStage));
      for i := 0 to |actions|
        invariant conditionResults == old(conditionResults) && actions == old(actions)
        invariant Settle(actions, state, old(nextState), old(nextStage))
             == AllAfter(kept, Settle(actions[i..], state, nextState, nextStage))
      {
        ghost var before := Settle(actions[i..], state, nextState, nextStage);
        assert actions[i..][1..] == actions[i + 1..];
        match actions[i] {
          case StateTransition(s) =>
            ok := SetNextState(s);
            if !ok {
              return;
            }
          case StageTransition(g) =>
            nextStage := g;
          case Effect(_) =>
            AfterAll(kept, actions[i], Settle(actions[i + 1..], state, nextState, nextStage));
            kept := kept + [actions[i]];
        }
      }
      assert kept + [] == kept;
      actions := kept;
      ok := true;
    }
  }

  function AllAfter(kept: seq<Action>, r: Option<Settled>): Option<Settled> {
    match r
    case None => None
    case Some(s) => Some(s.(actions := kept + s.actions))
  }

  lemma AfterAll(kept: seq<Action>, a: Action, r: Option<Settled>)
    ensures AllAfter(kept, After(a, r)) == AllAfter(kept + [a], r)
    ensures AllAfter([], r) == r
  {
    if r.Some? {
      assert kept + ([a] + r.value.actions) == kept + [a] + r.value.actions;
      assert [] + r.value.actions == r.value.actions;
    }
  }

  // ---------------------------------------------------------------- rows and blocks

  /** The event that was read last when a state block ends. */
  function LastRead(b: StateBlock, previous: Event): Event {
    if b.events == [] then previous else b.events[|b.events| - 1].event
  }

  /** The rows of a block and the actions on its level. */
  datatype Block = Block(tableRows: seq<TableRow>, actions: seq<Action>)

  predicate Distinct(rows: seq<TableRow>) { forall i, j :: 0 <= i < j < |rows| ==> rows[i] != rows[j] }

  /** The block that is filed under a key, or a new one. */
  function BlockAt<K>(m: map<K, Block>, k: K): Block { if k in m then m[k] else Block([], []) }

  function WithRow(b: Block, r: TableRow): Block { b.(tableRows := b.tableRows + [r]) }

  /** Two filings have the same keys and the same actions under each. */
  predicate SameActions<K(!new)>(m: map<K, Block>, n: map<K, Block>) {
    m.Keys == n.Keys && forall k :: k in m ==> m[k].actions == n[k].actions
  }

  lemma SameActionsTransitive<K(!new)>(l: map<K, Block>, m: map<K, Block>, n: map<K, Block>)
    requires SameActions(l, m) && SameActions(m, n)
    ensures SameActions(l, n)
  {
  }

  /** A filing in which an event got more actions. */
  predicate MoreActions(m: map<Event, Block>, n: map<Event, Block>, event: Event, body: seq<Action>) {
    n.Keys == m.Keys + {event} &&
    forall e :: e in n ==> n[e].actions == if e == event then BlockAt(m, e).actions + body else BlockAt(m, e).actions
  }

  lemma MoreByOne(m: map<Event, Block>, n: map<Event, Block>, event: Event, body: seq<Action>, a: Action)
    requires MoreActions(m, n, event, body)
    ensures event in n && MoreActions(m, n[event := n[event].(actions := n[event].actions + [a])], event, body + [a])
  {
    assert BlockAt(m, event).actions + body + [a] == BlockAt(m, event).actions + (body + [a]);
  }

  lemma MoreByNone(m: map<Event, Block>, n: map<Event, Block>, event: Event)
    requires n == if event in m then m else m[event := Block([], [])]
    ensures MoreActions(m, n, event, [])
  {
    assert BlockAt(m, event).actions + [] == BlockAt(m, event).actions;
  }

  lemma MoreThenSame(l: map<Event, Block>, m: map<Event, Block>, n: map<Event, Block>, event: Event, body: seq<Action>)
    requires MoreActions(l, m, event, body) && SameActions(m, n)
    ensures MoreActions(l, n, event, body)
  {
  }

  /** The events of the first `n` blocks are filed with all their actions. */
  ghost predicate EventsRead(m: map<Event, Block>, events: seq<EventBlock>, n: nat) {
    n <= |events| &&
    (forall e :: e in m <==> HasBlock(events[..n], e)) &&
    forall e :: e in m ==> m[e].actions == EventActions(events[..n], e)
  }

  lemma EventsReadMore(m: map<Event, Block>, l: map<Event, Block>, events: seq<EventBlock>, n: nat)
    requires EventsRead(m, events, n) && n < |events| && MoreActions(m, l, events[n].event, events[n].body)
    ensures EventsRead(l, events, n + 1)
  {
    forall e
      ensures (e in l <==> HasBlock(events[..n + 1], e)) &&
        (e in l ==> l[e].actions == EventActions(events[..n + 1], e)) {
      EventReadMore(m, l, events, n, e);
    }
  }

  lemma EventReadMore(m: map<Event, Block>, l: map<Event, Block>, events: seq<EventBlock>, n: nat, e: Event)
    requires EventsRead(m, events, n) && n < |events| && MoreActions(m, l, events[n].event, events[n].body)
    ensures (e in l <==> HasBlock(events[..n + 1], e)) && (e in l ==> l[e].actions == EventActions(events[..n + 1], e))
  {
    hide HasBlock;
    assert events[..n + 1][..n] == events[..n];
    BlockIn(events, n, e);
    if e !in m {
      NoActions(events[..n], e);
    }
  }

  lemma BlockIn(events: seq<EventBlock>, n: nat, e: Event)
    requires n < |events|
    ensures HasBlock(events[..n + 1], e) <==> HasBlock(events[..n], e) || events[n].event == e
    ensures !HasBlock(events[..n], e) ==> forall i :: 0 <= i < n ==> events[..n][i].event != e
  {
    if HasBlock(events[..n], e) {
      var i :| 0 <= i < n && events[..n][i].event == e;
      assert events[..n + 1][i].event == e;
    }
    if events[n].event == e {
      assert events[..n + 1][n].event == e;
    }
    if HasBlock(events[..n + 1], e) {
      var i :| 0 <= i < n + 1 && events[..n + 1][i].event == e;
      assert i < n ==> events[..n][i].event == e;
    }
  }

  /** All rows are different, and those from some position on are not among the given ones. */
  predicate NewFrom(rows: seq<TableRow>, from: nat, open: seq<TableRow>) {
    Distinct(rows) && from <= |rows| && forall i :: from <= i < |rows| ==> rows[i] !in open
  }

  lemma NewFromGrows(rows: seq<TableRow>, from: nat, open: seq<TableRow>, row: TableRow)
    requires NewFrom(rows, from, open) && row !in rows && row !in open
    ensures NewFrom(rows + [row], from, open)
  {
  }

  /** Puts the actions of a block in front of those of its rows. */
  method FinalizeRows(block: Block)
    requires Distinct(block.tableRows)
    modifies block.tableRows`actions
    ensures forall r :: r in block.tableRows ==> r.actions == block.actions + old(r.actions)
  {
    for i := 0 to |block.tableRows|
      invariant forall k :: 0 <= k < i ==> block.tableRows[k].actions == block.actions + old(block.tableRows[k].actions)
      invariant forall k :: i <= k < |block.tableRows| ==> block.tableRows[k].actions == old(block.tableRows[k].actions)
    {
      var row := block.tableRows[i];
      row.actions := block.actions + row.actions;
    }
  }

  /** The values of rows. */
  ghost function Views(rows: seq<TableRow>): (r: seq<RowView>)
    reads rows
    ensures |r| == |rows| && forall i :: 0 <= i < |r| ==> r[i] == rows[i].View()
  {
    seq(|rows|, i requires 0 <= i < |rows| reads rows => rows[i].View())
  }

  /** The rows have got some actions in front of those they had. */
  ghost predicate PutInFront(actions: seq<Action>, now: seq<RowView>, was: seq<RowView>) {
    |now| == |was| && forall i :: 0 <= i < |now| ==> now[i] == was[i].(actions := actions + was[i].actions)
  }

  /** The rows of a group are those among the given ones that belong to an event. */
  ghost predicate EventGroup(group: seq<TableRow>, rows: seq<TableRow>, e: Event) {
    Distinct(group) && (forall r :: r in group ==> r in rows && r.event == e) &&
    forall r :: r in rows && r.event == e ==> r in group
  }

  ghost predicate StateGroup(group: seq<TableRow>, rows: seq<TableRow>, s: nat) {
    Distinct(group) && (forall r :: r in group ==> r in rows && r.state == s) &&
    forall r :: r in rows && r.state == s ==> r in group
  }

  ghost predicate EventGroups(m: map<Event, Block>, rows: seq<TableRow>) {
    (forall e :: e in m ==> EventGroup(m[e].tableRows, rows, e)) && forall r :: r in rows ==> r.event in m
  }

  ghost predicate StateGroups(m: map<nat, Block>, rows: seq<TableRow>) {
    (forall s :: s in m ==> StateGroup(m[s].tableRows, rows, s)) && forall r :: r in rows ==> r.state in m
  }

  /** Filing a new row under its event keeps the groups. */
  lemma EventGroupsGrow(m: map<Event, Block>, rows: seq<TableRow>, row: TableRow)
    requires EventGroups(m, rows) && row !in rows
    ensures EventGroups(m[row.event := WithRow(BlockAt(m, row.event), row)], rows + [row])
  {
    var n, more := m[row.event := WithRow(BlockAt(m, row.event), row)], rows + [row];
    assert forall r :: r in more <==> r in rows || r == row;
    forall e | e in n ensures EventGroup(n[e].tableRows, more, e) {
      assert e in m ==> EventGroup(m[e].tableRows, rows, e);
      assert forall r :: r in n[e].tableRows <==> r in BlockAt(m, e).tableRows || (e == row.event && r == row);
    }
  }

  lemma StateGroupsGrow(m: map<nat, Block>, rows: seq<TableRow>, row: TableRow)
    requires StateGroups(m, rows) && row !in rows
    ensures StateGroups(m[row.state := WithRow(BlockAt(m, row.state), row)], rows + [row])
  {
    var n, more := m[row.state := WithRow(BlockAt(m, row.state), row)], rows + [row];
    assert forall r :: r in more <==> r in rows || r == row;
    forall s | s in n ensures StateGroup(n[s].tableRows, more, s) {
      assert s in m ==> StateGroup(m[s].tableRows, rows, s);
      assert forall r :: r in n[s].tableRows <==> r in BlockAt(m, s).tableRows || (s == row.state && r == row);
    }
  }

  /** Rows with the actions of their event, and of the state before those, in front. */
  ghost function Prefixed(rows: seq<RowView>, s: seq<Action>, m: map<Event, Block>): (r: seq<RowView>)
    ensures |r| == |rows|
    ensures forall i :: 0 <= i < |rows| ==>
      r[i] == rows[i].(actions := s + (BlockAt(m, rows[i].event).actions + rows[i].actions))
  {
    seq(|rows|, i requires 0 <= i < |rows| => rows[i].(actions :=
      s + (BlockAt(m, rows[i].event).actions + rows[i].actions)))
  }

  /** The rows for events without ifs. */
  ghost function AddedViews(m: map<Event, Block>, added: seq<Event>, state: nat, event: Event): (r: seq<RowView>)
    ensures |r| == |added|
    ensures forall k :: 0 <= k < |added| ==> r[k] == FreshRow([], BlockAt(m, added[k]).actions, state, event)
  {
    seq(|added|, k requires 0 <= k < |added| => FreshRow([], BlockAt(m, added[k]).actions, state, event))
  }

  /** The rows for a state without rows. */
  function StateViews(actions: seq<Action>, state: nat): seq<RowView> {
    [FreshRow([], actions, state, PktRcvd), FreshRow([], actions, state, Timeout)]
  }

  lemma {:induction false} SettleAllConcat(a: seq<RowView>, b: seq<RowView>)
    ensures SettleAll(a + b)
         == if SettleAll(a).None? || SettleAll(b).None? then None else Some(SettleAll(a).value + SettleAll(b).value)
  {
    if a == [] {
      assert a + b == b;
      assert SettleAll(b).Some? ==> [] + SettleAll(b).value == SettleAll(b).value;
    } else {
      assert (a + b)[1..] == a[1..] + b;
      SettleAllConcat(a[1..], b);
      if SettleRow(a[0]).Some? && SettleAll(a[1..]).Some? && SettleAll(b).Some? {
        assert [SettleRow(a[0]).value] + (SettleAll(a[1..]).value + SettleAll(b).value)
            == [SettleRow(a[0]).value] + SettleAll(a[1..]).value + SettleAll(b).value;
      }
    }
  }

  /** Finished rows stay as they are. */
  lemma {:induction false} SettledStay(rows: seq<RowView>, own: Stage)
    requires forall i :: 0 <= i < |rows| ==> OnlyEffects(rows[i].actions) && !IsEmpty(rows[i], own)
    ensures SettleAll(rows) == Some(rows) && NonEmpty(rows, own) == rows
  {
    NonEmptyAll(rows, own);
    forall i | 0 <= i < |rows| ensures SettleRow(rows[i]) == Some(rows[i]) {
      SettledOnce(rows[i].actions, rows[i].state, rows[i].nextState, rows[i].nextStage);
    }
    assert SettleAll(rows).Some? && SettleAll(rows).value == rows;
  }

  lemma {:induction false} SettledRows(rows: seq<RowView>, own: Stage)
    requires SettleAll(rows).Some?
    ensures forall i :: 0 <= i < |NonEmpty(SettleAll(rows).value, own)| ==>
      OnlyEffects(NonEmpty(SettleAll(rows).value, own)[i].actions) &&
        !IsEmpty(NonEmpty(SettleAll(rows).value, own)[i], own)
  {
    if rows != [] {
      assert SettleAll(rows).value[1..] == SettleAll(rows[1..]).value;
      SettledRows(rows[1..], own);
      SettledOnce(rows[0].actions, rows[0].state, rows[0].nextState, rows[0].nextStage);
    }
  }

  lemma PrefixedConcat(a: seq<RowView>, b: seq<RowView>, s: seq<Action>, m: map<Event, Block>)
    ensures Prefixed(a + b, s, m) == Prefixed(a, s, m) + Prefixed(b, s, m)
  {
  }

  lemma PrefixedIfs(state: nat, s: seq<Action>, front: seq<Action>, e: Event, ifs: seq<If>, m: map<Event, Block>)
    requires BlockAt(m, e).actions == front
    ensures Prefixed(IfRows([], state, e, ifs, |ifs|), s, m) == IfRows(s + front, state, e, ifs, |ifs|)
  {
    hide Prefixed, IfRows, BlockAt;
    var more := IfRows([], state, e, ifs, |ifs|);
    forall i | 0 <= i < |more| ensures Prefixed(more, s, m)[i] == IfRows(s + front, state, e, ifs, |ifs|)[i] {
      FrontsJoin(s, front, ifs[i].body);
    }
  }

  lemma FrontsJoin(s: seq<Action>, front: seq<Action>, body: seq<Action>)
    ensures s + (front + ([] + body)) == s + front + body
  {
  }

  /** Putting the actions around the ifs in front makes the rows of the blocks. */
  lemma {:induction false} PrefixedBare(b: StateBlock, n: nat, m: map<Event, Block>)
    requires n <= |b.events|
    requires forall i :: 0 <= i < n ==>
      BlockAt(m, b.events[i].event).actions == EventActions(b.events, b.events[i].event)
    ensures Prefixed(BareRows(b.state, b.events, n), b.body, m) == BlockRows(b, n)
  {
    hide Prefixed, IfRows, BlockAt;
    if n > 0 {
      PrefixedBare(b, n - 1, m);
      var eb := b.events[n - 1];
      PrefixedConcat(BareRows(b.state, b.events, n - 1), IfRows([], b.state, eb.event, eb.ifs, |eb.ifs|), b.body, m);
      PrefixedIfs(b.state, b.body, EventActions(b.events, eb.event), eb.event, eb.ifs, m);
    }
  }

  /** Some row is for the event. */
  predicate RowFor(rows: seq<RowView>, e: Event) { exists i :: 0 <= i < |rows| && rows[i].event == e }

  lemma RowForConcat(a: seq<RowView>, b: seq<RowView>, e: Event)
    ensures RowFor(a + b, e) <==> RowFor(a, e) || RowFor(b, e)
  {
    if RowFor(a, e) {
      var i :| 0 <= i < |a| && a[i].event == e;
      assert (a + b)[i].event == e;
    }
    if RowFor(b, e) {
      var i :| 0 <= i < |b| && b[i].event == e;
      assert (a + b)[|a| + i].event == e;
    }
  }

  lemma RowForIfs(state: nat, eb: EventBlock, e: Event)
    ensures RowFor(IfRows([], state, eb.event, eb.ifs, |eb.ifs|), e) <==> eb.event == e && eb.ifs != []
  {
    if eb.event == e && eb.ifs != [] {
      assert IfRows([], state, eb.event, eb.ifs, |eb.ifs|)[0].event == e;
    }
  }

  lemma HasIfMore(events: seq<EventBlock>, n: nat, e: Event)
    requires n < |events|
    ensures HasIf(events[..n + 1], e) <==> HasIf(events[..n], e) || (events[n].event == e && events[n].ifs != [])
  {
    if HasIf(events[..n], e) {
      var i :| 0 <= i < n && events[..n][i].event == e && events[..n][i].ifs != [];
      assert events[..n + 1][i].event == e;
    }
    if events[n].event == e && events[n].ifs != [] {
      assert events[..n + 1][n].event == e;
    }
    if HasIf(events[..n + 1], e) {
      var i :| 0 <= i < n + 1 && events[..n + 1][i].event == e && events[..n + 1][i].ifs != [];
      assert i < n ==> events[..n][i].event == e;
    }
  }

  /** An event has a row exactly when one of its blocks has an if. */
  lemma {:induction false} BareHasIf(state: nat, events: seq<EventBlock>, n: nat, e: Event)
    requires n <= |events|
    ensures RowFor(BareRows(state, events, n), e) <==> HasIf(events[..n], e)
  {
    if n > 0 {
      BareHasIf(state, events, n - 1, e);
      var eb := events[n - 1];
      RowForConcat(BareRows(state, events, n - 1), IfRows([], state, eb.event, eb.ifs, |eb.ifs|), e);
      RowForIfs(state, eb, e);
      HasIfMore(events, n - 1, e);
    }
  }

  class Factory {
    const ownStage: Stage
    var tableRows: seq<TableRow>
    var current: TableRow?
    var eventRows: map<Event, Block>
    var stateRows: map<nat, Block>
    /** How many rows belong to state blocks that have ended. */
    ghost var closed: nat

    constructor (ownStage: Stage)
      ensures this.ownStage == ownStage && Valid() && BetweenStates() && tableRows == []
    {
      this.ownStage := ownStage;
      tableRows := [];
      current := null;
      eventRows := map[];
      stateRows := map[];
      closed := 0;
    }

    /** The rows of the state block that is being read. */
    ghost function Open(): seq<TableRow>
      requires closed <= |tableRows|
      reads this
    {
      tableRows[closed..]
    }

    /** The row of a finished state block: its transitions are taken out and it is not empty. */
    ghost predicate Finished(r: TableRow)
      reads r
    {
      OnlyEffects(r.actions) && !r.IsEmpty(ownStage)
    }

    ghost predicate Valid()
      reads this, tableRows
    {
      closed <= |tableRows| && Distinct(tableRows) &&
      (forall i :: 0 <= i < closed ==> Finished(tableRows[i])) &&
      EventGroups(eventRows, Open()) && StateGroups(stateRows, Open()) &&
      (forall r :: r in Open() ==> r.nextState == r.state && r.nextStage == NoStage)
    }

    ghost predicate BetweenStates()
      reads this
    {
      closed == |tableRows| && eventRows == map[] && stateRows == map[]
    }

    method AddState(state: nat)
      requires Valid() && BetweenStates()
      modifies `stateRows
      ensures Valid() && stateRows == map[state := Block([], [])]
    {
      if state !in stateRows {
        stateRows := stateRows[state := Block([], [])];
      }
    }

    method AddEvent(event: Event)
      requires Valid()
      modifies `eventRows
      ensures Valid()
      ensures eventRows == if event in old(eventRows) then old(eventRows) else old(eventRows)[event := Block([], [])]
    {
      if event !in eventRows {
        eventRows := eventRows[event := Block([], [])];
      }
    }

    /** Starts a row for an `if` and files it under its event and its state. */
    method CreateNewTableRow(event: Event, state: nat)
      requires Valid()
      modifies this
      ensures Valid() && current != null && fresh(current) && tableRows == old(tableRows) + [current]
      ensures closed == old(closed)
      ensures current.View() == FreshRow([], [], state, event)
      ensures eventRows == old(eventRows)[event := WithRow(BlockAt(old(eventRows), event), current)]
      ensures stateRows == old(stateRows)[state := WithRow(BlockAt(old(stateRows), state), current)]
    {
      hide EventGroups, StateGroups;
      var row := new TableRow(state, event, NoStage);
      EventGroupsGrow(eventRows, Open(), row);
      StateGroupsGrow(stateRows, Open(), row);
      current := row;
      tableRows := tableRows + [row];
      eventRows := eventRows[event := WithRow(BlockAt(eventRows, event), row)];
      stateRows := stateRows[state := WithRow(BlockAt(stateRows, state), row)];
      assert Open() == old(Open()) + [row];
    }

    method AddConditionResult(condition: nat)
      requires Valid() && current != null && current in Open()
      modifies current`conditionResults
      ensures Valid()
      ensures current.View() == old(current.View()).(conditions := old(current.conditionResults) + [condition])
    {
      current.conditionResults := current.conditionResults + [condition];
    }

    method AddActionToCurrentTableRow(action: Action)
      requires Valid() && current != null && current in Open()
      modifies current`actions
      ensures Valid() && current.View() == old(current.View()).(actions := old(current.actions) + [action])
    {
      current.actions := current.actions + [action];
    }

    method AddActionToStateBlock(action: Action, state: nat)
      requires Valid() && state in stateRows
      modifies `stateRows
      ensures Valid()
      ensures stateRows == old(stateRows)[state :=
        old(stateRows[state]).(actions := old(stateRows[state]).actions + [action])]
    {
      stateRows := stateRows[state := stateRows[state].(actions := stateRows[state].actions + [action])];
    }

    method AddActionToEventBlock(action: Action, event: Event)
      requires Valid() && event in eventRows
      modifies `eventRows
      ensures Valid()
      ensures eventRows == old(eventRows)[event :=
        old(eventRows[event]).(actions := old(eventRows[event]).actions + [action])]
    {
      eventRows := eventRows[event := eventRows[event].(actions := eventRows[event].actions + [action])];
    }

    // -------------------------------------------------------------- finishing

    /** Finishes one group: puts its actions in front of those of its rows; a group without rows gets one row for
        the current state and event. */
    method FinalizeGroup(value: Block, state: nat, event: Event) returns (extra: TableRow?)
      requires Distinct(value.tableRows)
      modifies `tableRows, value.tableRows`actions
      ensures forall r :: r in value.tableRows ==> r.actions == value.actions + old(r.actions)
      ensures value.tableRows != [] ==> tableRows == old(tableRows)
      ensures value.tableRows == [] ==>
        extra != null && fresh(extra) && tableRows == old(tableRows) + [extra] &&
          extra.View() == FreshRow([], value.actions, state, event)
    {
      extra := null;
      if value.tableRows == [] {
        var row := new TableRow(state, event, NoStage);
        extra := row;
        tableRows := tableRows + [row];
        FinalizeRows(WithRow(value, row));
        assert value.actions + [] == value.actions;
      } else {
        FinalizeRows(value);
      }
    }

    /** The rows added for events without rows. */
    ghost predicate Added(from: nat, m: map<Event, Block>, added: seq<Event>, state: nat, event: Event)
      reads this, tableRows
    {
      |tableRows| == from + |added| &&
      forall k :: 0 <= k < |added| ==>
        added[k] in m && tableRows[from + k].View() == FreshRow([], m[added[k]].actions, state, event)
    }

    /** The open rows, of which the values at the start are given, have the actions of their events in front,
        except for the events in `todo`, which are still to come. */
    ghost predicate Fronted(open: seq<TableRow>, was: seq<RowView>, m: map<Event, Block>, todo: set<Event>)
      reads open
    {
      |was| == |open| &&
      forall i :: 0 <= i < |open| ==>
        open[i].event in m &&
        open[i].View() == was[i].(actions :=
          if open[i].event in todo then was[i].actions else m[open[i].event].actions + was[i].actions)
    }

    lemma FrontedNext(open: seq<TableRow>, was: seq<RowView>, todo: set<Event>, e: Event)
      requires EventGroups(eventRows, open) && e in eventRows && e in todo && |was| == |open|
      requires forall i :: 0 <= i < |open| ==>
        open[i].View() == was[i].(actions :=
          if open[i].event in todo - {e} then was[i].actions else eventRows[open[i].event].actions + was[i].actions)
      ensures Fronted(open, was, eventRows, todo - {e})
    {
    }

    /** Finishes the group of one more event. */
    method FinalizeEvent(e: Event, state: nat, event: Event, ghost open: seq<TableRow>, ghost was: seq<RowView>,
                         ghost todo: set<Event>)
      returns (extra: TableRow?)
      requires EventGroups(eventRows, open) && e in eventRows && e in todo && Distinct(open)
      requires Fronted(open, was, eventRows, todo)
      modifies `tableRows, open`actions
      ensures Fronted(open, was, eventRows, todo - {e})
      ensures eventRows[e].tableRows != [] ==> tableRows == old(tableRows)
      ensures eventRows[e].tableRows == [] ==>
        extra != null && fresh(extra) && tableRows == old(tableRows) + [extra] &&
          extra.View() == FreshRow([], eventRows[e].actions, state, event)
    {
      var value := eventRows[e];
      assert EventGroup(value.tableRows, open, e);
      assert forall i :: 0 <= i < |value.tableRows| ==> value.tableRows[i] in open;
      extra := FinalizeGroup(value, state, event);
      forall i | 0 <= i < |open|
        ensures open[i].View() == was[i].(actions :=
          if open[i].event in todo - {e} then was[i].actions else eventRows[open[i].event].actions + was[i].actions) {
        assert open[i].event == e <==> open[i] in value.tableRows;
      }
      FrontedNext(open, was, todo, e);
    }

    /** The events without rows that are not in `todo`, in the order in which they were finished. */
    ghost predicate EmptyEvents(added: seq<Event>, todo: set<Event>)
      reads `eventRows
    {
      (forall e :: e in added ==> e in eventRows && e !in todo && eventRows[e].tableRows == []) &&
      (forall e :: e in eventRows && e !in todo && eventRows[e].tableRows == [] ==> e in added) &&
      (forall i, j :: 0 <= i < j < |added| ==> added[i] != added[j])
    }

    lemma EmptyEventsNext(added: seq<Event>, todo: set<Event>, e: Event)
      requires EmptyEvents(added, todo) && e in todo && e in eventRows
      ensures EmptyEvents(if eventRows[e].tableRows == [] then added + [e] else added, todo - {e})
    {
    }

    /** Finishes the group of one more event, and remembers it when it had no rows. */
    method FinalizeNext(e: Event, state: nat, event: Event, ghost from: nat, ghost open: seq<TableRow>,
                        ghost was: seq<RowView>,
                        ghost todo: set<Event>, ghost added: seq<Event>)
      returns (ghost more: seq<Event>)
      requires EventGroups(eventRows, open) && e in eventRows && e in todo && Distinct(open)
      requires NewFrom(tableRows, from, open)
      requires Fronted(open, was, eventRows, todo) && Added(from, eventRows, added, state, event)
      requires EmptyEvents(added, todo)
      modifies `tableRows, open`actions
      ensures Fronted(open, was, eventRows, todo - {e}) && Added(from, eventRows, more, state, event)
      ensures EmptyEvents(more, todo - {e})
      ensures old(tableRows) <= tableRows && NewFrom(tableRows, from, open)
      ensures forall i :: |old(tableRows)| <= i < |tableRows| ==> fresh(tableRows[i])
    {
      hide EventGroups, Fronted, EmptyEvents, NewFrom, Distinct;
      EmptyEventsNext(added, todo, e);
      NotOpen(from, open);
      ghost var rows := tableRows;
      var extra := FinalizeEvent(e, state, event, open, was, todo);
      forall k | 0 <= k < |added|
        ensures rows[from + k].View() == FreshRow([], eventRows[added[k]].actions, state, event) {
        assert rows[from + k] !in open;
      }
      more := added;
      if eventRows[e].tableRows == [] {
        more := added + [e];
        NewFromGrows(rows, from, open, extra);
      }
    }

    lemma NotOpen(from: nat, open: seq<TableRow>)
      requires NewFrom(tableRows, from, open)
      ensures forall i :: from <= i < |tableRows| ==> tableRows[i] !in open
    {
    }

    /** Puts the actions of every event in front of those of its rows. An event without rows gets one row, which
        is filed under the state and the event that are current; the order of the events is up to the hash. */
    method FinalizeEventRows(state: nat, event: Event) returns (ghost added: seq<Event>)
      requires Valid()
      modifies `tableRows, Open()`actions
      ensures old(tableRows) <= tableRows && NewFrom(tableRows, |old(tableRows)|, old(Open()))
      ensures forall i :: |old(tableRows)| <= i < |tableRows| ==> fresh(tableRows[i])
      ensures Fronted(old(Open()), old(Views(Open())), eventRows, {})
      ensures Added(|old(tableRows)|, eventRows, added, state, event) && EmptyEvents(added, {})
    {
      hide EventGroups, StateGroups, Added, Fronted, EmptyEvents, NewFrom;
      ghost var open, was := Open(), Views(Open());
      added := [];
      var todo := eventRows.Keys;
      AtStart(state, event);
      while todo != {}
        invariant todo <= eventRows.Keys
        invariant old(tableRows) <= tableRows && NewFrom(tableRows, |old(tableRows)|, open)
        invariant forall i :: |old(tableRows)| <= i < |tableRows| ==> fresh(tableRows[i])
        invariant Fronted(open, was, eventRows, todo) && Added(|old(tableRows)|, eventRows, added, state, event)
        invariant EmptyEvents(added, todo)
        decreases |todo|
      {
        var e :| e in todo;
        added := FinalizeNext(e, state, event, |old(tableRows)|, open, was, todo, added);
        todo := todo - {e};
      }
    }

    lemma AtStart(state: nat, event: Event)
      requires Valid()
      ensures Fronted(Open(), Views(Open()), eventRows, eventRows.Keys)
      ensures Added(|tableRows|, eventRows, [], state, event)
      ensures EmptyEvents([], eventRows.Keys) && NewFrom(tableRows, |tableRows|, Open())
    {
    }

    /** Adds a row for every event to a state without rows. */
    method AddStateRows(value: Block, state: nat)
      modifies `tableRows
      ensures |tableRows| == |old(tableRows)| + 2 && old(tableRows) <= tableRows
      ensures fresh(tableRows[|old(tableRows)|]) && fresh(tableRows[|old(tableRows)| + 1])
      ensures tableRows[|old(tableRows)|] != tableRows[|old(tableRows)| + 1]
      ensures tableRows[|old(tableRows)|].View() == FreshRow([], value.actions, state, PktRcvd)
      ensures tableRows[|old(tableRows)| + 1].View() == FreshRow([], value.actions, state, Timeout)
    {
      var first := new TableRow(state, PktRcvd, NoStage);
      var second := new TableRow(state, Timeout, NoStage);
      tableRows := tableRows + [first, second];
      FinalizeRows(Block([first, second], value.actions));
      assert value.actions + [] == value.actions;
      assert first.View() == FreshRow([], value.actions, state, PktRcvd);
    }

    /** Puts the actions of the state in front of those of its rows. A state without rows gets one for every event. */
    method FinalizeStateRows(state: nat)
      requires state in stateRows && Distinct(stateRows[state].tableRows)
      modifies `tableRows, stateRows[state].tableRows`actions
      ensures forall r :: r in stateRows[state].tableRows ==> r.actions == stateRows[state].actions + old(r.actions)
      ensures stateRows[state].tableRows != [] ==> tableRows == old(tableRows)
      ensures stateRows[state].tableRows == [] ==>
        |tableRows| == |old(tableRows)| + 2 && old(tableRows) <= tableRows &&
        (forall i :: |old(tableRows)| <= i < |tableRows| ==> fresh(tableRows[i])) &&
        tableRows[|old(tableRows)|] != tableRows[|old(tableRows)| + 1] &&
        tableRows[|old(tableRows)|].View() == FreshRow([], stateRows[state].actions, state, PktRcvd) &&
        tableRows[|old(tableRows)| + 1].View() == FreshRow([], stateRows[state].actions, state, Timeout)
    {
      var value := stateRows[state];
      if value.tableRows == [] {
        AddStateRows(value, state);
      } else {
        FinalizeRows(value);
      }
    }

    /** Takes the transitions out of the actions of all rows. */
    method ProcessSetNext() returns (ok: bool)
      requires Distinct(tableRows)
      modifies tableRows
      ensures ok <==> SettleAll(old(Views(tableRows))).Some?
      ensures ok ==> Views(tableRows) == SettleAll(old(Views(tableRows))).value
    {
      for i := 0 to |tableRows|
        invariant forall k :: 0 <= k < i ==>
          SettleRow(old(tableRows[k].View())).Some? && tableRows[k].View() == SettleRow(old(tableRows[k].View())).value
        invariant forall k :: i <= k < |tableRows| ==> tableRows[k].View() == old(tableRows[k].View())
      {
        ok := tableRows[i].ProcessSetNext();
        if !ok {
          assert SettleRow(old(Views(tableRows))[i]).None?;
          return;
        }
      }
      ok := true;
      assert Views(tableRows) == SettleAll(old(Views(tableRows))).value;
    }

    /** Some of the first `n` rows, none twice. */
    static ghost predicate Chosen(kept: seq<TableRow>, rows: seq<TableRow>, n: nat) {
      n <= |rows| && Distinct(kept) && forall r :: r in kept ==> r in rows[..n]
    }

    static lemma ChosenMore(kept: seq<TableRow>, rows: seq<TableRow>, n: nat)
      requires Chosen(kept, rows, n) && n < |rows| && Distinct(rows)
      ensures Chosen(kept, rows, n + 1) && Chosen(kept + [rows[n]], rows, n + 1)
    {
      assert rows[..n + 1] == rows[..n] + [rows[n]];
      assert rows[n] !in rows[..n];
      assert forall r :: r in kept ==> r in rows[..n];
    }

    /** Keeps the rows that are not empty. */
    method DeleteEmptyTableRows()
      requires Distinct(tableRows)
      modifies `tableRows
      ensures Distinct(tableRows) && (forall r :: r in tableRows ==> r in old(tableRows))
      ensures Views(tableRows) == NonEmpty(old(Views(tableRows)), ownStage)
    {
      hide Chosen, NonEmpty;
      var kept: seq<TableRow> := [];
      NothingKept(tableRows, ownStage);
      for i := 0 to |tableRows|
        invariant tableRows == old(tableRows)
        invariant Chosen(kept, tableRows, i) && Views(kept) == NonEmpty(Views(tableRows)[..i], ownStage)
      {
        ChosenMore(kept, tableRows, i);
        KeptMore(kept, tableRows, i, ownStage);
        if !tableRows[i].IsEmpty(ownStage) {
          kept := kept + [tableRows[i]];
        }
      }
      AllKept(kept, tableRows);
      tableRows := kept;
    }

    static lemma NothingKept(rows: seq<TableRow>, own: Stage)
      ensures Chosen([], rows, 0) && Views([]) == NonEmpty(Views(rows)[..0], own)
    {
    }

    static lemma AllKept(kept: seq<TableRow>, rows: seq<TableRow>)
      requires Chosen(kept, rows, |rows|)
      ensures Distinct(kept) && (forall r :: r in kept ==> r in rows) && Views(rows)[..|rows|] == Views(rows)
    {
    }

    static lemma KeptMore(kept: seq<TableRow>, rows: seq<TableRow>, n: nat, own: Stage)
      requires n < |rows| && Views(kept) == NonEmpty(Views(rows)[..n], own)
      ensures Views(if rows[n].IsEmpty(own) then kept else kept + [rows[n]]) == NonEmpty(Views(rows)[..n + 1], own)
    {
      var views := Views(rows);
      NonEmptyConcat(views[..n], [views[n]], own);
      assert views[..n + 1] == views[..n] + [views[n]];
      ViewsOfOneMore(kept, rows[n]);
    }

    /** The group of the one state that is being read holds all open rows. */
    lemma OneState(state: nat)
      requires Valid() && stateRows.Keys == {state}
      ensures Distinct(stateRows[state].tableRows) && (stateRows[state].tableRows == [] <==> Open() == [])
      ensures forall i :: 0 <= i < |Open()| ==> Open()[i] in stateRows[state].tableRows
      ensures forall i :: 0 <= i < |stateRows[state].tableRows| ==> stateRows[state].tableRows[i] in Open()
    {
      assert StateGroup(stateRows[state].tableRows, Open(), state);
      forall i | 0 <= i < |Open()| ensures Open()[i] in stateRows[state].tableRows {
        assert Open()[i] in Open() && Open()[i].state in stateRows;
      }
      if stateRows[state].tableRows != [] {
        assert stateRows[state].tableRows[0] in Open();
      }
      if Open() != [] {
        assert Open()[0] in stateRows[state].tableRows;
      }
    }

    lemma ClosedApart()
      requires closed <= |tableRows| && Distinct(tableRows)
      ensures forall i :: 0 <= i < closed ==> tableRows[i] !in Open()
      ensures NewFrom(tableRows, |tableRows|, Open()) && Distinct(Open())
    {
    }

    lemma FrontedViews(open: seq<TableRow>, was: seq<RowView>)
      requires Fronted(open, was, eventRows, {})
      ensures Views(open) == Prefixed(was, [], eventRows)
    {
      forall i | 0 <= i < |open| ensures open[i].View() == Prefixed(was, [], eventRows)[i] {
        assert [] + (eventRows[open[i].event].actions + was[i].actions)
             == eventRows[open[i].event].actions + was[i].actions;
      }
    }

    lemma AddedTail(from: nat, added: seq<Event>, state: nat, event: Event)
      requires Added(from, eventRows, added, state, event)
      ensures Views(tableRows[from..]) == AddedViews(eventRows, added, state, event)
    {
    }

    lemma PrefixedTwice(was: seq<RowView>, s: seq<Action>, rows: seq<RowView>)
      requires PutInFront(s, rows, Prefixed(was, [], eventRows))
      ensures rows == Prefixed(was, s, eventRows)
    {
      forall i | 0 <= i < |was| ensures rows[i] == Prefixed(was, s, eventRows)[i] {
        assert [] + (BlockAt(eventRows, was[i].event).actions + was[i].actions)
             == BlockAt(eventRows, was[i].event).actions + was[i].actions;
      }
    }

    /** Finishes the events, and says so for the values of the rows. */
    method FinalizeEvents(state: nat, event: Event) returns (ghost added: seq<Event>)
      requires Valid()
      modifies `tableRows, Open()`actions
      ensures old(tableRows) <= tableRows && Distinct(tableRows) && EmptyEvents(added, {})
      ensures forall i :: |old(tableRows)| <= i < |tableRows| ==> fresh(tableRows[i]) && tableRows[i] !in old(Open())
      ensures Views(old(Open())) == Prefixed(old(Views(Open())), [], eventRows)
      ensures Views(tableRows[|old(tableRows)|..]) == AddedViews(eventRows, added, state, event)
    {
      hide EventGroups, StateGroups, EmptyEvents, Fronted, Added, NewFrom, Finished;
      ghost var n, open, was := |tableRows|, Open(), Views(Open());
      added := FinalizeEventRows(state, event);
      FrontedViews(open, was);
      AddedTail(n, added, state, event);
      NotOpen(n, open);
      NewRowsDistinct(n, open);
    }

    /** Finishes the events, then the state: the closed rows stay, the open ones get the actions of the state and
        of their events in front, and there are new ones for events and states that have none. */
    method FinalizeBlocks(state: nat, event: Event) returns (ghost added: seq<Event>)
      requires Valid() && stateRows.Keys == {state}
      modifies `tableRows, Open()`actions
      ensures old(tableRows) <= tableRows && Distinct(tableRows) && EmptyEvents(added, {})
      ensures forall i :: |old(tableRows)| <= i < |tableRows| ==> fresh(tableRows[i])
      ensures Views(old(Open())) == Prefixed(old(Views(Open())), stateRows[state].actions, eventRows)
      ensures Views(tableRows[|old(tableRows)|..])
           == AddedViews(eventRows, added, state, event)
              + if old(Open()) == [] then StateViews(stateRows[state].actions, state) else []
    {
      hide EventGroups, StateGroups, EmptyEvents, Fronted, Added, NewFrom, Finished, Distinct, Prefixed, AddedViews,
        StateViews, Views, PutInFront;
      ghost var n, open, was := |tableRows|, Open(), Views(Open());
      OneState(state);
      added := FinalizeEvents(state, event);
      ghost var mid, tail := |tableRows|, tableRows[n..];
      FinalizeStateOf(state, open, tail);
      TailViews(n, mid, tail);
      PrefixedTwice(was, stateRows[state].actions, Views(open));
    }

    lemma NewRowsDistinct(from: nat, open: seq<TableRow>)
      requires NewFrom(tableRows, from, open)
      ensures Distinct(tableRows)
    {
    }

    lemma TailViews(n: nat, mid: nat, tail: seq<TableRow>)
      requires n <= mid <= |tableRows| && tableRows[n..mid] == tail
      ensures Views(tableRows[n..]) == Views(tail) + Views(tableRows[mid..])
    {
      assert tableRows[n..] == tail + tableRows[mid..];
      ViewsConcat(tail, tableRows[mid..]);
    }

    /** Finishes the state whose rows are the given ones. */
    method FinalizeStateOf(state: nat, ghost open: seq<TableRow>, ghost tail: seq<TableRow>)
      requires state in stateRows && Distinct(stateRows[state].tableRows)
      requires (stateRows[state].tableRows == [] <==> open == [])
      requires forall i :: 0 <= i < |open| ==> open[i] in stateRows[state].tableRows
      requires forall i :: 0 <= i < |stateRows[state].tableRows| ==> stateRows[state].tableRows[i] in open
      requires Distinct(tableRows) && forall i :: 0 <= i < |tail| ==> tail[i] !in open
      modifies `tableRows, open`actions
      ensures old(tableRows) <= tableRows && Distinct(tableRows)
      ensures forall i :: |old(tableRows)| <= i < |tableRows| ==> fresh(tableRows[i])
      ensures PutInFront(stateRows[state].actions, Views(open), old(Views(open)))
      ensures Views(tail) == old(Views(tail))
      ensures Views(tableRows[|old(tableRows)|..])
           == if open == [] then StateViews(stateRows[state].actions, state) else []
    {
      FinalizeStateRows(state);
    }

    /** The rows of a state block when it ends, before transitions are taken out. */
    ghost function Collected(state: nat, event: Event, added: seq<Event>): seq<RowView>
      requires closed <= |tableRows| && state in stateRows
      reads this, tableRows
    {
      Prefixed(Views(Open()), stateRows[state].actions, eventRows)
      + (AddedViews(eventRows, added, state, event)
         + if Open() == [] then StateViews(stateRows[state].actions, state) else [])
    }

    lemma AllViews(n: nat, open: seq<TableRow>)
      requires closed <= n <= |tableRows| && tableRows[closed..n] == open
      ensures Views(tableRows) == Views(tableRows[..closed]) + (Views(open) + Views(tableRows[n..]))
    {
    }

    lemma ClosedAreFinished()
      requires closed <= |tableRows| && forall i :: 0 <= i < closed ==> Finished(tableRows[i])
      ensures SettleAll(Views(tableRows[..closed])) == Some(Views(tableRows[..closed]))
      ensures NonEmpty(Views(tableRows[..closed]), ownStage) == Views(tableRows[..closed])
    {
      SettledStay(Views(tableRows[..closed]), ownStage);
    }

    /** Finishes the blocks and forgets them. */
    method CollectRows(state: nat, event: Event) returns (ghost added: seq<Event>)
      requires Valid() && stateRows.Keys == {state}
      modifies this, Open()`actions
      ensures old(EmptyEvents(added, {})) && Distinct(tableRows) && eventRows == map[] && stateRows == map[]
      ensures old(tableRows) <= tableRows && forall i :: |old(tableRows)| <= i < |tableRows| ==> fresh(tableRows[i])
      ensures Views(tableRows) == old(Views(tableRows[..closed])) + old(Collected(state, event, added))
    {
      hide EventGroups, StateGroups, EmptyEvents, Finished, Distinct;
      ghost var n, open, done := |tableRows|, Open(), tableRows[..closed];
      ClosedApart();
      assert forall i :: 0 <= i < |done| ==> done[i] !in open;
      ghost var views := Views(done);
      added := FinalizeBlocks(state, event);
      assert Views(done) == views;
      assert tableRows[..closed] == done && tableRows[closed..n] == open;
      AllViews(n, open);
      eventRows := map[];
      stateRows := map[];
    }

    lemma OpenRows()
      requires closed <= |tableRows|
      ensures forall i :: 0 <= i < |Open()| ==> Open()[i] in tableRows
    {
    }

    /** Takes out the transitions of all rows and drops the empty ones. */
    method CloseRows() returns (ok: bool)
      requires Distinct(tableRows) && eventRows == map[] && stateRows == map[]
      modifies this, tableRows
      ensures ok <==> SettleAll(old(Views(tableRows))).Some?
      ensures ok ==> Valid() && BetweenStates()
      ensures ok ==> Views(tableRows) == NonEmpty(SettleAll(old(Views(tableRows))).value, ownStage)
      ensures forall r :: r in tableRows ==> r in old(tableRows)
    {
      hide SettleAll, NonEmpty, Finished;
      ghost var views := Views(tableRows);
      ok := ProcessSetNext();
      if ok {
        SettledRows(views, ownStage);
        DeleteEmptyTableRows();
        closed := |tableRows|;
        RowsFinished();
        NothingOpen();
      }
    }

    lemma RowsFinished()
      requires forall i :: 0 <= i < |tableRows| ==>
        OnlyEffects(Views(tableRows)[i].actions) && !IsEmpty(Views(tableRows)[i], ownStage)
      ensures forall i :: 0 <= i < |tableRows| ==> Finished(tableRows[i])
    {
      assert forall i :: 0 <= i < |tableRows| ==> Views(tableRows)[i] == tableRows[i].View();
    }

    lemma NothingOpen()
      requires BetweenStates()
      ensures Open() == [] && EventGroups(eventRows, Open()) && StateGroups(stateRows, Open())
    {
    }

    /** Ends a state block: finishes its events and its state, takes out the transitions and drops empty rows.
        Fails when a row sets its next state twice. */
    method FinalizeTableRows(state: nat, event: Event) returns (ok: bool, ghost added: seq<Event>)
      requires Valid() && stateRows.Keys == {state}
      modifies this, tableRows
      ensures old(EmptyEvents(added, {}))
      ensures ok <==> SettleAll(old(Collected(state, event, added))).Some?
      ensures ok ==> Valid() && BetweenStates()
      ensures ok ==>
        Views(tableRows)
        == old(Views(tableRows[..closed])) + NonEmpty(SettleAll(old(Collected(state, event, added))).value, ownStage)
      ensures forall r :: r in tableRows ==> r in old(tableRows) || fresh(r)
    {
      hide SettleAll, NonEmpty, EmptyEvents, EventGroups, StateGroups, Collected;
      ghost var done := Views(tableRows[..closed]);
      ClosedAreFinished();
      OpenRows();
      added := CollectRows(state, event);
      ghost var rest := old(Collected(state, event, added));
      SettleAllConcat(done, rest);
      if SettleAll(rest).Some? {
        NonEmptyConcat(done, SettleAll(rest).value, ownStage);
      }
      ok := CloseRows();
    }

    // -------------------------------------------------------------- reading

    /** Fills the current row with the conditions and the actions of an if. */
    method FillRow(i: If, ghost row: TableRow)
      requires Valid() && current == row && row in Open() && row.conditionResults == [] && row.actions == []
      modifies row
      ensures Valid() && row.View() == old(row.View()).(conditions := i.conditions, actions := i.body)
    {
      for k := 0 to |i.conditions|
        invariant Valid() && row.View() == old(row.View()).(conditions := i.conditions[..k])
      {
        AddConditionResult(i.conditions[k]);
        assert i.conditions[..k + 1] == i.conditions[..k] + [i.conditions[k]];
      }
      assert i.conditions[..|i.conditions|] == i.conditions;
      for k := 0 to |i.body|
        invariant Valid() && row.View() == old(row.View()).(conditions := i.conditions, actions := i.body[..k])
      {
        AddActionToCurrentTableRow(i.body[k]);
        assert i.body[..k + 1] == i.body[..k] + [i.body[k]];
      }
      assert i.body[..|i.body|] == i.body;
    }

    /** Reads an if: a row with its conditions and its actions. */
    method ReadIf(i: If, event: Event, state: nat)
      requires Valid() && event in eventRows && state in stateRows
      modifies this
      ensures Valid() && closed == old(closed) && SameActions(old(eventRows), eventRows)
      ensures SameActions(old(stateRows), stateRows)
      ensures current != null && fresh(current) && tableRows == old(tableRows) + [current]
      ensures current.View() == FreshRow(i.conditions, i.body, state, event)
    {
      hide EventGroups, StateGroups;
      CreateNewTableRow(event, state);
      assert Open()[|Open()| - 1] == current;
      FillRow(i, current);
    }

    /** Reads the ifs of an event block. */
    method ReadIfs(ifs: seq<If>, event: Event, state: nat)
      requires Valid() && event in eventRows && state in stateRows
      modifies this
      ensures Valid() && closed == old(closed) && SameActions(old(eventRows), eventRows)
      ensures SameActions(old(stateRows), stateRows)
      ensures NewRows(old(tableRows)) && forall k :: |old(tableRows)| <= k < |tableRows| ==> fresh(tableRows[k])
      ensures Views(tableRows[|old(tableRows)|..]) == IfRows([], state, event, ifs, |ifs|)
    {
      hide EventGroups, StateGroups, Distinct, SameActions, Finished;
      ghost var was := tableRows;
      StartsSame();
      for k := 0 to |ifs|
        invariant Valid() && closed == old(closed)
        invariant SameActions(old(eventRows), eventRows) && SameActions(old(stateRows), stateRows)
        invariant NewRows(was) && forall i :: |was| <= i < |tableRows| ==> fresh(tableRows[i])
        invariant Views(tableRows[|was|..]) == IfRows([], state, event, ifs, k)
      {
        ghost var events, states := eventRows, stateRows;
        StillFiled(old(eventRows), old(stateRows), event, state);
        ReadNextIf(ifs[k], event, state, was);
        NoFront(ifs, state, event, k);
        SameActionsTransitive(old(eventRows), events, eventRows);
        SameActionsTransitive(old(stateRows), states, stateRows);
      }
    }

    predicate NewRows(was: seq<TableRow>)
      reads `tableRows
    {
      was <= tableRows
    }

    /** Reads one more if: its row comes behind those that were added since `was`. */
    method ReadNextIf(i: If, event: Event, state: nat, ghost was: seq<TableRow>)
      requires Valid() && event in eventRows && state in stateRows && NewRows(was)
      modifies this
      ensures Valid() && closed == old(closed) && SameActions(old(eventRows), eventRows)
      ensures SameActions(old(stateRows), stateRows)
      ensures NewRows(was) && old(tableRows) <= tableRows
      ensures forall k :: |old(tableRows)| <= k < |tableRows| ==> fresh(tableRows[k])
      ensures Views(tableRows[|was|..])
           == old(Views(tableRows[|was|..])) + [FreshRow(i.conditions, i.body, state, event)]
    {
      hide EventGroups, StateGroups, Distinct, SameActions, Finished;
      ghost var tail := tableRows[|was|..];
      ReadIf(i, event, state);
      assert tableRows[|was|..] == tail + [current];
      ViewsOfOneMore(tail, current);
    }

    static lemma NoFront(ifs: seq<If>, state: nat, event: Event, k: nat)
      requires k < |ifs|
      ensures IfRows([], state, event, ifs, k + 1)
           == IfRows([], state, event, ifs, k) + [FreshRow(ifs[k].conditions, ifs[k].body, state, event)]
    {
      assert [] + ifs[k].body == ifs[k].body;
    }

    lemma StartsSame()
      ensures SameActions(eventRows, eventRows) && SameActions(stateRows, stateRows)
    {
    }

    lemma StillFiled(events: map<Event, Block>, states: map<nat, Block>, e: Event, s: nat)
      requires e in events && s in states && SameActions(events, eventRows) && SameActions(states, stateRows)
      ensures e in eventRows && s in stateRows
    {
    }

    static lemma ViewsOfOneMore(rows: seq<TableRow>, row: TableRow)
      ensures Views(rows + [row]) == Views(rows) + [row.View()]
    {
    }

    /** Reads the actions on the level of an event. */
    method ReadEventBody(body: seq<Action>, event: Event)
      requires Valid()
      modifies `eventRows
      ensures Valid() && MoreActions(old(eventRows), eventRows, event, body)
    {
      hide EventGroups, StateGroups, Distinct, MoreActions;
      AddEvent(event);
      MoreByNone(old(eventRows), eventRows, event);
      for k := 0 to |body|
        invariant Valid() && MoreActions(old(eventRows), eventRows, event, body[..k])
      {
        MoreByOne(old(eventRows), eventRows, event, body[..k], body[k]);
        AddActionToEventBlock(body[k], event);
        assert body[..k + 1] == body[..k] + [body[k]];
      }
      assert body[..|body|] == body;
    }

    /** Reads an event block. */
    method ReadEvent(eb: EventBlock, state: nat)
      requires Valid() && state in stateRows
      modifies this
      ensures Valid() && closed == old(closed) && MoreActions(old(eventRows), eventRows, eb.event, eb.body)
      ensures SameActions(old(stateRows), stateRows)
      ensures old(tableRows) <= tableRows && forall k :: |old(tableRows)| <= k < |tableRows| ==> fresh(tableRows[k])
      ensures Views(tableRows[|old(tableRows)|..]) == IfRows([], state, eb.event, eb.ifs, |eb.ifs|)
    {
      hide EventGroups, StateGroups, Distinct, SameActions;
      ReadEventBody(eb.body, eb.event);
      ghost var mid := eventRows;
      ReadIfs(eb.ifs, eb.event, state);
      MoreThenSame(old(eventRows), mid, eventRows, eb.event, eb.body);
    }

    /** What has been read of a state block: its own actions and the first `n` event blocks. */
    ghost predicate HasRead(b: StateBlock, n: nat)
      reads this, tableRows
    {
      Valid() && n <= |b.events| && stateRows.Keys == {b.state} && stateRows[b.state].actions == b.body &&
      EventsRead(eventRows, b.events, n) && Views(Open()) == BareRows(b.state, b.events, n)
    }

    static lemma BareNext(b: StateBlock, n: nat)
      requires n < |b.events|
      ensures var eb := b.events[n];
        BareRows(b.state, b.events, n + 1)
        == BareRows(b.state, b.events, n) + IfRows([], b.state, eb.event, eb.ifs, |eb.ifs|)
    {
    }

    /** Reads one more event block of a state block. */
    method ReadNextEvent(b: StateBlock, n: nat)
      requires HasRead(b, n) && n < |b.events|
      modifies this
      ensures HasRead(b, n + 1) && closed == old(closed) && old(tableRows) <= tableRows
      ensures forall k :: |old(tableRows)| <= k < |tableRows| ==> fresh(tableRows[k])
    {
      hide EventGroups, StateGroups, Distinct, EventsRead, MoreActions, Finished, BareRows;
      BareNext(b, n);
      ghost var events, open, tail := eventRows, Open(), |tableRows|;
      ghost var views := Views(open);
      ReadEvent(b.events[n], b.state);
      EventsReadMore(events, eventRows, b.events, n);
      assert Open() == open + tableRows[tail..];
      ViewsConcat(open, tableRows[tail..]);
      assert Views(open) == views;
    }

    static lemma ViewsConcat(a: seq<TableRow>, b: seq<TableRow>)
      ensures Views(a + b) == Views(a) + Views(b)
    {
    }

    /** Reads the actions on the level of a state. */
    method ReadStateBody(b: StateBlock)
      requires Valid() && BetweenStates()
      modifies `stateRows
      ensures HasRead(b, 0)
    {
      hide EventGroups, StateGroups, Distinct;
      AddState(b.state);
      for k := 0 to |b.body|
        invariant Valid() && stateRows.Keys == {b.state} && stateRows[b.state].actions == b.body[..k]
      {
        AddActionToStateBlock(b.body[k], b.state);
        assert b.body[..k + 1] == b.body[..k] + [b.body[k]];
      }
      assert b.body[..|b.body|] == b.body;
      assert Open() == [];
    }

    /** What is collected when a state block ends is what its blocks stand for. */
    lemma CollectedIsGathered(b: StateBlock, last: Event, added: seq<Event>)
      requires HasRead(b, |b.events|) && EmptyEvents(added, {})
      ensures Collected(b.state, last, added) == Gathered(b, added, last) && WithoutIfs(b.events, added)
    {
      var n := |b.events|;
      assert b.events[..n] == b.events;
      forall i | 0 <= i < n
        ensures BlockAt(eventRows, b.events[i].event).actions == EventActions(b.events, b.events[i].event) {
        assert HasBlock(b.events, b.events[i].event);
      }
      PrefixedBare(b, n, eventRows);
      forall e ensures e in added <==> HasBlock(b.events, e) && !HasIf(b.events, e) {
        NoRowsNoIfs(b, e);
      }
      assert Prefixed(Views(Open()), b.body, eventRows) == BlockRows(b, n);
      assert Open() == [] <==> BlockRows(b, n) == [];
      forall k | 0 <= k < |added| ensures BlockAt(eventRows, added[k]).actions == EventActions(b.events, added[k]) {
        assert added[k] in eventRows;
      }
      assert AddedViews(eventRows, added, b.state, last)
          == seq(|added|, k requires 0 <= k < |added| => FreshRow([], EventActions(b.events, added[k]), b.state, last));
    }

    lemma NoRowsNoIfs(b: StateBlock, e: Event)
      requires HasRead(b, |b.events|)
      ensures e in eventRows ==> (eventRows[e].tableRows == [] <==> !HasIf(b.events, e))
      ensures e in eventRows <==> HasBlock(b.events, e)
    {
      hide HasIf, StateGroups;
      assert b.events[..|b.events|] == b.events;
      BareHasIf(b.state, b.events, |b.events|, e);
      if e in eventRows {
        GroupHasRow(eventRows[e].tableRows, Open(), e);
      }
    }

    static lemma GroupHasRow(group: seq<TableRow>, rows: seq<TableRow>, e: Event)
      requires EventGroup(group, rows, e)
      ensures group != [] <==> RowFor(Views(rows), e)
    {
      if group != [] {
        assert group[0] in group && group[0] in rows;
        var i :| 0 <= i < |rows| && rows[i] == group[0];
        assert Views(rows)[i].event == e;
      }
      if RowFor(Views(rows), e) {
        var i :| 0 <= i < |rows| && Views(rows)[i].event == e;
        assert rows[i] in rows && rows[i].event == e;
      }
    }

    /** Compiles a state block. Its rows are those its blocks stand for, without the empty ones, behind the rows
        that are already there; it fails exactly when one of its rows sets the next state twice. When no row for the
        state is there yet, the whole table does what the blocks say exactly when the choices of both agree. */
    method CompileState(b: StateBlock, previous: Event) returns (ok: bool, ghost added: seq<Event>)
      requires Valid() && BetweenStates()
      modifies this, tableRows
      ensures WithoutIfs(b.events, added)
      ensures var rows := Compiled(b, ownStage, added, LastRead(b, previous));
        (ok <==> rows.Some?) && (ok ==> Views(tableRows) == old(Views(tableRows)) + rows.value)
      ensures ok ==> Valid() && BetweenStates()
      ensures ok && old(NoRowFor(b.state)) ==>
        TableAgrees(Views(tableRows), b, ownStage, added, LastRead(b, previous))
    {
      hide EventGroups, StateGroups, Distinct, EventsRead, SettleAll, NonEmpty, EmptyEvents, Collected, Gathered,
        WithoutIfs,
        TableAgrees;
      ghost var n, done, views := |tableRows|, tableRows, Views(tableRows);
      var last := previous;
      ReadStateBody(b);
      for i := 0 to |b.events|
        invariant HasRead(b, i) && closed == n && done <= tableRows && Views(done) == views
        invariant forall k :: n <= k < |tableRows| ==> fresh(tableRows[k])
        invariant last == if i == 0 then previous else b.events[i - 1].event
      {
        last := b.events[i].event;
        ReadNextEvent(b, i);
      }
      assert tableRows[..closed] == done && Views(done) == views;
      forall any: seq<Event> | EmptyEvents(any, {})
        ensures Collected(b.state, last, any) == Gathered(b, any, last) && WithoutIfs(b.events, any) {
        CollectedIsGathered(b, last, any);
      }
      ok, added := FinalizeTableRows(b.state, last);
      if ok && old(NoRowFor(b.state)) {
        TableMeans(views, b, ownStage, added, last);
      }
    }

    ghost predicate NoRowFor(state: nat)
      reads this, tableRows
    {
      forall i :: 0 <= i < |tableRows| ==> Views(tableRows)[i].state != state
    }
  }
}
