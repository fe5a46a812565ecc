/** The table as the packet loop runs it: a pool of instances, a hash of flow keys, a row index and a cache. */
module Engine {
  import opened Bytes
  import opened Packet
  import opened Headers
  import opened FlowKey
  import opened Efsm
  import opened TableIndex

  datatype Instance = Instance(registers: Registers, state: nat, results: seq<Outcome>, key: Key, destroy: bool)

  const ALL_TRUE: seq<Outcome> := [IsTrue, IsTrue, IsTrue, IsTrue, IsTrue, IsTrue, IsTrue, IsTrue,
                                   IsTrue, IsTrue, IsTrue, IsTrue, IsTrue, IsTrue, IsTrue, IsTrue]

  /** An initialised instance, once for a table whose default state is `state`. */
  function Blank(state: nat): Instance { Instance(ZERO_REGISTERS, state, ALL_TRUE, ZERO_KEY, false) }

  datatype CacheKey = CacheKey(results: seq<Outcome>, state: nat)

  /** The programs a table can be created from: the rows can be indexed and all their states fit the hash. */
  predicate Loadable(p: Program) {
    p.Valid() && Indexable(p.rows) && |States(p.rows, |p.rows|)| <= MAX_ENTRIES_FOREACH_STATE
  }

  // ---------------------------------------------------------------- slots

  /** A slot is live when the hash leads the key it stores back to it. */
  predicate Live(slots: seq<Instance>, m: map<Key, nat>, i: nat) {
    i < |slots| && slots[i].key in m && m[slots[i].key] == i
  }

  /** Every live key has a slot of its own that stores the key; every other slot, reused or not, is blank. */
  ghost predicate Stored(slots: seq<Instance>, m: map<Key, nat>, initial: nat) {
    (forall k :: k in m ==> m[k] < |slots| && slots[m[k]].key == k) &&
    (forall i :: 0 <= i < |slots| ==> |slots[i].results| == MAX_CONDITIONS && !slots[i].destroy) &&
    (forall i :: 0 <= i < |slots| ==> Live(slots, m, i) || IsBlank(slots[i], initial))
  }

  predicate IsBlank(x: Instance, initial: nat) { x.registers == ZERO_REGISTERS && x.state == initial }

  function FlowOf(x: Instance): Flow { Flow(x.registers, x.state) }

  /** The flows that the hash and the slots stand for. */
  ghost function FlowsOf(slots: seq<Instance>, m: map<Key, nat>): map<Key, Flow> {
    map k | k in m && m[k] < |slots| :: FlowOf(slots[m[k]])
  }

  lemma StoredAt(slots: seq<Instance>, m: map<Key, nat>, initial: nat, k: Key)
    requires Stored(slots, m, initial) && k in m
    ensures m[k] < |slots| && Live(slots, m, m[k]) && slots[m[k]].key == k
    ensures |slots[m[k]].results| == MAX_CONDITIONS && !slots[m[k]].destroy
    ensures k in FlowsOf(slots, m) && FlowsOf(slots, m)[k] == FlowOf(slots[m[k]])
  {
  }

  /** Slots blanked for default state 0 are well formed exactly when the initial state is 0. */
  lemma NewPool(slots: seq<Instance>, initial: nat)
    requires slots != [] && forall i :: 0 <= i < |slots| ==> slots[i] == Blank(0)
    ensures Stored(slots, map[], initial) <==> initial == 0
    ensures FlowsOf(slots, map[]) == map[]
  {
    assert !Live(slots, map[], 0) && slots[0].state == 0;
  }

  /** As long as there are fewer keys than slots, some slot is free. */
  lemma {:induction false} LiveSlots(slots: seq<Instance>, m: map<Key, nat>, n: nat)
    requires n <= |slots| && forall i :: 0 <= i < n ==> Live(slots, m, i)
    ensures |m| >= n
  {
    if n > 0 {
      assert Live(slots, m, n - 1);
      var k := slots[n - 1].key;
      var rest := m - {k};
      forall i | 0 <= i < n - 1 ensures Live(slots, rest, i) {
        assert Live(slots, m, i);
      }
      LiveSlots(slots, rest, n - 1);
      assert rest.Keys == m.Keys - {k};
      assert |m| == |m.Keys| && |rest| == |rest.Keys|;
    }
  }

  /** Giving a free slot to a new key keeps the pool well formed and adds a fresh flow. */
  lemma Claim(slots: seq<Instance>, m: map<Key, nat>, initial: nat, fk: Key, free: nat)
    requires Stored(slots, m, initial) && fk !in m && free < |slots| && !Live(slots, m, free)
    ensures var after := slots[free := slots[free].(key := fk)];
      Stored(after, m[fk := free], initial) && Live(after, m[fk := free], free)
      && FlowsOf(after, m[fk := free]) == FlowsOf(slots, m)[fk := Flow(ZERO_REGISTERS, initial)]
    ensures |m[fk := free]| == |m| + 1
  {
    ClaimStored(slots, m, initial, fk, free);
    ClaimFlows(slots, m, initial, fk, free);
    CountKeys(m, fk, free);
  }

  lemma ClaimStored(slots: seq<Instance>, m: map<Key, nat>, initial: nat, fk: Key, free: nat)
    requires Stored(slots, m, initial) && fk !in m && free < |slots| && !Live(slots, m, free)
    ensures var after := slots[free := slots[free].(key := fk)];
      Stored(after, m[fk := free], initial) && Live(after, m[fk := free], free)
  {
    var after, n := slots[free := slots[free].(key := fk)], m[fk := free];
    forall k | k in n ensures n[k] < |after| && after[n[k]].key == k {
      if k != fk {
        assert m[k] == free ==> Live(slots, m, free);
      }
    }
    forall i | 0 <= i < |after| ensures Live(after, n, i) || IsBlank(after[i], initial) {
      ClaimElsewhere(slots, m, initial, fk, free, i);
    }
  }

  lemma ClaimFlows(slots: seq<Instance>, m: map<Key, nat>, initial: nat, fk: Key, free: nat)
    requires Stored(slots, m, initial) && fk !in m && free < |slots| && !Live(slots, m, free)
    ensures FlowsOf(slots[free := slots[free].(key := fk)], m[fk := free])
         == FlowsOf(slots, m)[fk := Flow(ZERO_REGISTERS, initial)]
  {
    var after, n := slots[free := slots[free].(key := fk)], m[fk := free];
    assert IsBlank(slots[free], initial);
    forall k | k in m ensures m[k] < |slots| && after[m[k]] == slots[m[k]] {
      assert m[k] == free ==> Live(slots, m, free);
    }
  }

  lemma ClaimElsewhere(slots: seq<Instance>, m: map<Key, nat>, initial: nat, fk: Key, free: nat, i: nat)
    requires Stored(slots, m, initial) && fk !in m && free < |slots| && !Live(slots, m, free) && i < |slots|
    ensures var after := slots[free := slots[free].(key := fk)];
      Live(after, m[fk := free], i) || IsBlank(after[i], initial)
  {
    assert Live(slots, m, i) || IsBlank(slots[i], initial);
  }

  lemma CountKeys(m: map<Key, nat>, fk: Key, free: nat)
    ensures fk !in m ==> |m[fk := free]| == |m| + 1
    ensures |m - {fk}| <= |m|
  {
    assert m[fk := free].Keys == m.Keys + {fk} && (m - {fk}).Keys == m.Keys - {fk};
    assert |m[fk := free]| == |m[fk := free].Keys| && |m| == |m.Keys| && |m - {fk}| == |(m - {fk}).Keys|;
  }

  /** Blanking the slot of a key that leaves keeps the pool well formed and takes the flow away. */
  lemma Release(slots: seq<Instance>, m: map<Key, nat>, initial: nat, slot: nat)
    requires Live(slots, m, slot) && Stored(slots, m, initial)
    ensures var after := slots[slot := Blank(initial)];
      Stored(after, m - {slots[slot].key}, initial)
      && FlowsOf(after, m - {slots[slot].key}) == FlowsOf(slots, m) - {slots[slot].key}
    ensures |m - {slots[slot].key}| <= |m|
  {
    var after, n := slots[slot := Blank(initial)], m - {slots[slot].key};
    forall k | k in n ensures m[k] != slot && after[m[k]] == slots[m[k]] {
      assert slots[m[k]].key == k;
    }
    forall i | 0 <= i < |after| ensures Live(after, n, i) || IsBlank(after[i], initial) {
      assert Live(slots, m, i) || IsBlank(slots[i], initial);
    }
    CountKeys(m, slots[slot].key, slot);
  }

  /** Rewriting a live slot without touching its key changes its flow and no other. */
  lemma Rewrite(slots: seq<Instance>, m: map<Key, nat>, initial: nat, slot: nat, x: Instance)
    requires Stored(slots, m, initial) && Live(slots, m, slot)
    requires x.key == slots[slot].key && |x.results| == MAX_CONDITIONS && !x.destroy
    ensures Stored(slots[slot := x], m, initial) && Live(slots[slot := x], m, slot)
    ensures FlowsOf(slots[slot := x], m) == FlowsOf(slots, m)[x.key := FlowOf(x)]
    ensures FlowOf(x) == FlowOf(slots[slot]) ==> FlowsOf(slots[slot := x], m) == FlowsOf(slots, m)
  {
    var after := slots[slot := x];
    forall i | 0 <= i < |after| ensures Live(after, m, i) || IsBlank(after[i], initial) {
      assert Live(slots, m, i) || IsBlank(slots[i], initial);
    }
  }

  class XfsmTable {
    const program: Program
    const index: Index
    const pool: array<Instance>
    const cacheEnabled: bool
    var globals: Registers
    var instances: map<Key, nat>
    var nbInstances: nat
    var cache: map<CacheKey, Row>

    /** The pool is well formed and the count of instances is at least the number of live ones. */
    ghost predicate PoolValid()
      reads `instances, `nbInstances, pool
    {
      pool.Length == MAX_INSTANCES && |instances| <= nbInstances <= MAX_INSTANCES - 1 &&
      Stored(pool[..], instances, program.initialState)
    }

    /** Every cache entry is what a lookup would return. */
    ghost predicate CacheValid()
      reads `cache
    {
      forall ck :: ck in cache ==> IndexedMatch(program.rows, ck.state, ck.results) == Some(cache[ck])
    }

    ghost predicate TableValid()
      reads index, index.pool
    {
      Loadable(program) && index.Valid(program.rows)
    }

    ghost predicate Valid()
      reads this, pool, index, index.pool
    {
      TableValid() && PoolValid() && CacheValid()
    }

    /** The flows as the specification sees them. */
    ghost function Flows(): map<Key, Flow>
      requires PoolValid()
      reads `instances, `nbInstances, pool
    {
      FlowsOf(pool[..], instances)
    }

    ghost function Contents(): Machine
      requires PoolValid()
      reads `instances, `nbInstances, `globals, pool
    {
      Machine(Flows(), globals, nbInstances)
    }

    /** Creates a table. The instances are initialised before the default state is known, while it is still 0. */
    constructor (p: Program, withCache: bool)
      requires Loadable(p)
      ensures program == p && cacheEnabled == withCache
      ensures fresh(pool) && fresh(index) && fresh(index.pool)
      ensures TableValid() && CacheValid() && (PoolValid() <==> p.initialState == 0)
      ensures p.initialState == 0 ==> Contents() == Fresh(p)
    {
      hide Stored, FlowsOf, Indexable, States;
      program := p;
      cacheEnabled := withCache;
      index := new Index(p.rows);
      pool := new Instance[MAX_INSTANCES](_ => Blank(0));
      globals := ZERO_REGISTERS;
      instances := map[];
      nbInstances := 0;
      cache := map[];
      new;
      NewPool(pool[..], p.initialState);
    }

    // -------------------------------------------------------------- instances

    method InitInstance(slot: nat)
      requires slot < pool.Length
      modifies pool
      ensures pool[..] == old(pool[..])[slot := Blank(program.initialState)]
    {
      pool[slot] := Blank(program.initialState);
    }

    lemma FreeSlotExists()
      requires PoolValid()
      ensures exists i: nat :: i < pool.Length && !Live(pool[..], instances, i)
    {
      if forall i: nat :: i < pool.Length ==> Live(pool[..], instances, i) {
        LiveSlots(pool[..], instances, pool.Length);
      }
    }

    /** Gives a key one of the free slots of the pool, which one is up to the hash. The count of instances only
        ever grows. */
    method InsertInstance(fk: Key) returns (slot: Option<nat>)
      requires PoolValid() && fk !in instances
      modifies this`instances, this`nbInstances, pool
      ensures PoolValid()
      ensures slot.None? <==> old(nbInstances) == MAX_INSTANCES - 1
      ensures slot.None? ==> Contents() == old(Contents())
      ensures slot.Some? ==> fk in instances && instances[fk] == slot.value < pool.Length
      ensures slot.Some? ==>
        Contents() == Machine(old(Flows())[fk := FreshFlow(program)], globals, old(nbInstances) + 1)
    {
      if nbInstances == MAX_INSTANCES - 1 {
        return None;
      }
      FreeSlotExists();
      var free: nat :| free < pool.Length && !Live(pool[..], instances, free);
      Claim(pool[..], instances, program.initialState, fk, free);
      instances := instances[fk := free];
      pool[free] := pool[free].(key := fk);
      nbInstances := nbInstances + 1;
      slot := Some(free);
    }

    /** Finds the instance of a flow, or creates it. */
    method LookupInstance(fk: Key) returns (slot: Option<nat>)
      requires PoolValid()
      modifies this`instances, this`nbInstances, pool
      ensures PoolValid()
      ensures slot.Some? <==> WithFlow(program, old(Contents()), fk).Some?
      ensures slot.Some? ==> fk in instances && instances[fk] == slot.value < pool.Length
      ensures slot.Some? ==> WithFlow(program, old(Contents()), fk) == Some(Contents())
    {
      if fk in instances {
        slot := Some(instances[fk]);
      } else {
        slot := InsertInstance(fk);
      }
    }

    /** Takes a flow out of the hash and blanks its slot; the count of instances stays as it is. */
    method DestroyInstance(slot: nat)
      requires slot < pool.Length && Live(pool[..], instances, slot)
      modifies this`instances, pool
      ensures instances == old(instances) - {old(pool[slot].key)}
      ensures pool[..] == old(pool[..])[slot := Blank(program.initialState)]
    {
      instances := instances - {pool[slot].key};
      InitInstance(slot);
    }

    // -------------------------------------------------------------- conditions

    method LoadCondition(op: Operand, slot: nat, fields: PacketFields) returns (x: int)
      requires slot < pool.Length && fields.Valid()
      ensures x == Value(op, pool[slot].registers, globals, fields.Seen())
    {
      match op
      case Register(i) => x := pool[slot].registers[i];
      case GlobalRegister(i) => x := globals[i];
      case Constant(c) => x := Wrap64(c);
      case Field(f) =>
        var value := fields.GetHdrValue(f);
        x := if value.Some? then value.value else 0;
      case NoOperand => x := 0;
    }

    method EvaluateCondition(c: Condition, slot: nat, fields: PacketFields) returns (r: Outcome)
      requires slot < pool.Length && fields.Valid()
      ensures r == Evaluate(c, pool[slot].registers, globals, fields.Seen())
    {
      var param1 := LoadCondition(c.op0, slot, fields);
      var param2 := LoadCondition(c.op1, slot, fields);
      r := if Compare(c.comparison, param1, param2) then IsTrue else IsFalse;
    }

    /** Stores the result of every condition in the instance. */
    method EvaluateConditions(slot: nat, fields: PacketFields)
      requires slot < pool.Length && fields.Valid()
      requires |program.conditions| <= MAX_CONDITIONS == |pool[slot].results|
      modifies pool
      ensures |pool[slot].results| == MAX_CONDITIONS
      ensures pool[..] == old(pool[..])[slot := old(pool[slot]).(results := pool[slot].results)]
      ensures fields.Valid() && fields.Seen() == old(fields.Seen())
      ensures pool[slot].results[..|program.conditions|]
           == EvaluateAll(program.conditions, old(pool[slot].registers), globals, fields.Seen())
    {
      ghost var v := fields.Seen();
      for i := 0 to |program.conditions|
        invariant fields.Valid() && fields.Seen() == v
        invariant |pool[slot].results| == MAX_CONDITIONS
        invariant pool[..] == old(pool[..])[slot := old(pool[slot]).(results := pool[slot].results)]
        invariant forall k :: 0 <= k < i ==>
          pool[slot].results[k] == Evaluate(program.conditions[k], old(pool[slot].registers), globals, v)
      {
        var r := EvaluateCondition(program.conditions[i], slot, fields);
        pool[slot] := pool[slot].(results := pool[slot].results[i := r]);
      }
    }

    // -------------------------------------------------------------- actions

    /** The instance, the globals and the packet are where the specification has them while actions run. */
    ghost predicate Mirrors(slot: nat, fields: PacketFields, c: Context)
      reads `globals, pool, fields, fields.packet, fields.packet.data
    {
      slot < pool.Length && fields.Valid() && fields.Seen() == c.view && globals == c.global &&
      pool[slot].registers == c.local && pool[slot].destroy == c.destroy
    }

    /** Loads an operand of an action; a missing field or operand leaves the value of the previous action. */
    method LoadOperand(op: Operand, was: int, slot: nat, fields: PacketFields, ghost c: Context) returns (x: int)
      requires Mirrors(slot, fields, c)
      ensures x == Load(op, c, was)
    {
      match op
      case Register(i) => x := pool[slot].registers[i];
      case GlobalRegister(i) => x := globals[i];
      case Constant(k) => x := Wrap64(k);
      case Field(f) =>
        var value := fields.GetHdrValue(f);
        x := if value.Some? then value.value else was;
      case NoOperand => x := was;
    }

    /** Computes an update and stores its result; fails when the division traps. */
    method UpdateRegister(opcode: Opcode, output: Target, reg1: int, reg2: int, slot: nat, fields: PacketFields,
                          ghost c: Context) returns (ok: bool)
      requires Mirrors(slot, fields, c) && c.reg1 == reg1 && c.reg2 == reg2
      modifies this`globals, pool
      ensures ok <==> Perform(Update(opcode, output), c).Some?
      ensures ok ==> Mirrors(slot, fields, Perform(Update(opcode, output), c).value)
      ensures slot < pool.Length
      ensures pool[..] == old(pool[..])[slot := old(pool[slot]).(registers := pool[slot].registers)]
    {
      match Compute(opcode, reg1, reg2)
      case None =>
        ok := false;
      case Some(result) =>
        match output {
          case Local(i) => pool[slot] := pool[slot].(registers := pool[slot].registers[i := result]);
          case Global(i) => globals := globals[i := result];
        }
        ok := true;
    }

    /** Performs one action on its loaded operands. Sending remembers the port in the second one. */
    method PerformAction(kind: Kind, reg1: int, reg2: int, reg3: int, slot: nat, fields: PacketFields, ghost c: Context)
      returns (ok: bool, port: int, sent: seq<nat>)
      requires Mirrors(slot, fields, c) && c.reg1 == reg1 && c.reg2 == reg2 && c.reg3 == reg3
      modifies this`globals, pool, fields`inPort, fields.packet`timestamp, fields.packet.data
      ensures ok <==> Perform(kind, c).Some?
      ensures ok ==>
        var d := Perform(kind, c).value;
        Mirrors(slot, fields, d) && d.reg1 == reg1 && d.reg2 == port && d.reg3 == reg3 && d.sent == c.sent + sent
      ensures slot < pool.Length && SameButWritten(old(pool[..]), pool[..], slot)
    {
      ok, port, sent := true, reg2, [];
      match kind {
        case Update(opcode, output) =>
          ok := UpdateRegister(opcode, output, reg1, reg2, slot, fields, c);
        case SendPacket(out) =>
          port := out;
          if out != 0 {
            sent := [out - 1];
          }
        case SetField(f) =>
          fields.SetField(f, reg3);
        case Destroy =>
          pool[slot] := pool[slot].(destroy := true);
      }
    }

    /** Runs the actions of a row in order. Each sees what the earlier ones wrote. */
    method ExecuteActions(actions: seq<Action>, slot: nat, fields: PacketFields) returns (ok: bool, sent: seq<nat>)
      requires slot < pool.Length && fields.Valid() && !pool[slot].destroy
      modifies this`globals, pool, fields`inPort, fields.packet`timestamp, fields.packet.data
      ensures var r := old(Execute(actions, Started(pool[slot].registers, globals, fields.Seen())));
        (ok <==> r.Some?) && (ok ==> Mirrors(slot, fields, r.value) && sent == r.value.sent)
      ensures SameButWritten(old(pool[..]), pool[..], slot)
    {
      hide Perform, Load, Get, Set;
      var reg1, reg2, reg3 := 0, 0, 0;
      sent := [];
      ghost var c := Started(pool[slot].registers, globals, fields.Seen());
      ghost var r := Execute(actions, c);
      for i := 0 to |actions|
        invariant Mirrors(slot, fields, c) && c.reg1 == reg1 && c.reg2 == reg2 && c.reg3 == reg3 && c.sent == sent
        invariant Execute(actions[i..], c) == r
        invariant SameButWritten(old(pool[..]), pool[..], slot)
      {
        var act := actions[i];
        ExecuteFrom(actions, i, c);
        if act.kind.SetField? {
          reg1 := Id(act.kind.field);
        } else {
          reg1 := LoadOperand(act.op1, reg1, slot, fields, c);
        }
        reg2 := LoadOperand(act.op2, reg2, slot, fields, c);
        reg3 := LoadOperand(act.op3, reg3, slot, fields, c);
        c := Loaded(act, c);
        var out: seq<nat>;
        ok, reg2, out := PerformAction(act.kind, reg1, reg2, reg3, slot, fields, c);
        if !ok {
          return;
        }
        sent := sent + out;
        c := Perform(act.kind, c).value;
      }
      ok := true;
    }

    // -------------------------------------------------------------- rows

    /** Enters a row into the cache unless the cache is full. */
    method CacheInsert(ck: CacheKey, row: Row)
      requires CacheValid() && IndexedMatch(program.rows, ck.state, ck.results) == Some(row)
      modifies this`cache
      ensures CacheValid() && (cache == old(cache) || cache == old(cache)[ck := row])
    {
      if ck in cache || |cache| < MAX_INSTANCES * |program.conditions| {
        cache := cache[ck := row];
      }
    }

    /** The row for the state and results of an instance, through the cache when there is one. */
    method FindMatch(slot: nat) returns (row: Option<Row>)
      requires TableValid() && CacheValid() && slot < pool.Length && |pool[slot].results| == MAX_CONDITIONS
      modifies this`cache
      ensures CacheValid()
      ensures row == FirstMatch(program.rows, pool[slot].state, pool[slot].results[..|program.conditions|])
    {
      var ck := CacheKey(pool[slot].results[..|program.conditions|], pool[slot].state);
      IndexRefines(program.rows, ck.state, ck.results);
      if cacheEnabled && ck in cache {
        row := Some(cache[ck]);
      } else {
        row := index.Lookup(program.rows, ck.state, ck.results);
        if cacheEnabled && row.Some? {
          CacheInsert(ck, row.value);
        }
      }
    }

    // -------------------------------------------------------------- one packet

    /** Destroys the flow of a row whose actions have run, or moves it to the next state. */
    method Settle(row: Row, slot: nat, ghost was: seq<Instance>) returns (stage: nat)
      requires pool.Length == MAX_INSTANCES && |instances| <= nbInstances <= MAX_INSTANCES - 1
      requires Stored(was, instances, program.initialState) && Live(was, instances, slot)
      requires SameButWritten(was, pool[..], slot)
      modifies `instances, pool
      ensures PoolValid()
      ensures var x := old(pool[slot]);
        Flows() == Put(FlowsOf(was, old(instances)), was[slot].key,
                       if x.destroy then None else Some(Flow(x.registers, row.nextState)))
      ensures stage == if old(pool[slot]).destroy then NULL_STAGE else row.nextStage
    {
      hide Stored, FlowsOf;
      StoredAt(was, instances, program.initialState, was[slot].key);
      if pool[slot].destroy {
        Release(was, instances, program.initialState, slot);
        DestroyInstance(slot);
        assert pool[..] == was[slot := Blank(program.initialState)];
        stage := NULL_STAGE;
      } else {
        Rewrite(was, instances, program.initialState, slot, pool[slot].(state := row.nextState));
        pool[slot] := pool[slot].(state := row.nextState);
        assert pool[..] == was[slot := pool[slot]];
        stage := row.nextStage;
      }
    }

    /** Runs the actions of the matching row, then destroys the flow or moves it on. */
    method ApplyRow(row: Row, slot: nat, fields: PacketFields) returns (ok: bool, stage: nat, sent: seq<nat>)
      requires PoolValid() && fields.Valid() && Live(pool[..], instances, slot)
      modifies `globals, `instances, pool, fields`inPort, fields.packet`timestamp, fields.packet.data
      ensures ok <==> old(Apply(row, FlowOf(pool[slot]), globals, fields.Seen())).Some?
      ensures ok ==> PoolValid() && fields.Valid()
      ensures ok ==>
        var r := old(Apply(row, FlowOf(pool[slot]), globals, fields.Seen())).value;
        fields.Seen() == r.view && stage == r.stage && sent == r.sent && globals == r.global
        && Flows() == Put(old(Flows()), old(pool[slot].key), r.flow)
    {
      hide Execute, Get;
      ghost var was := pool[..];
      stage := NULL_STAGE;
      assert !pool[..][slot].destroy;
      ok, sent := ExecuteActions(row.actions, slot, fields);
      if ok {
        stage := Settle(row, slot, was);
      }
    }

    /** Looks the flow up or creates it, and evaluates the conditions for it. */
    method Prepare(fk: Key, fields: PacketFields) returns (slot: Option<nat>)
      requires PoolValid() && fields.Valid() && |program.conditions| <= MAX_CONDITIONS
      modifies `instances, `nbInstances, pool
      ensures fields.Valid() && fields.Seen() == old(fields.Seen())
      ensures PoolValid() && (slot.Some? <==> WithFlow(program, old(Contents()), fk).Some?)
      ensures slot.Some? ==>
        slot.value < pool.Length && Live(pool[..], instances, slot.value) && pool[slot.value].key == fk
      ensures slot.Some? ==> WithFlow(program, old(Contents()), fk) == Some(Contents())
      ensures slot.Some? ==>
        fk in Flows() && Flows()[fk] == FlowOf(pool[slot.value]) && |pool[slot.value].results| == MAX_CONDITIONS
      ensures slot.Some? ==>
        pool[slot.value].results[..|program.conditions|]
        == EvaluateAll(program.conditions, pool[slot.value].registers, globals, fields.Seen())
    {
      hide Stored, FlowsOf, Live, EvaluateAll, Evaluate;
      slot := LookupInstance(fk);
      if slot.Some? {
        ghost var before := pool[..];
        StoredAt(before, instances, program.initialState, fk);
        EvaluateConditions(slot.value, fields);
        Rewrite(before, instances, program.initialState, slot.value, pool[slot.value]);
      }
    }

    /** Finds the row for an instance whose conditions are evaluated, and applies it. */
    method Dispatch(slot: nat, fields: PacketFields) returns (ok: bool, stage: nat, sent: seq<nat>)
      requires Valid() && fields.Valid()
      requires slot < pool.Length && Live(pool[..], instances, slot) && |pool[slot].results| == MAX_CONDITIONS
      requires pool[slot].results[..|program.conditions|]
            == EvaluateAll(program.conditions, pool[slot].registers, globals, fields.Seen())
      modifies this, pool, fields`inPort, fields.packet`timestamp, fields.packet.data
      ensures ok <==> old(Step(program, FlowOf(pool[slot]), globals, fields.Seen())).Some?
      ensures ok ==> Valid() && fields.Valid()
      ensures nbInstances == old(nbInstances)
      ensures ok ==>
        var r := old(Step(program, FlowOf(pool[slot]), globals, fields.Seen())).value;
        fields.Seen() == r.view && stage == r.stage && sent == r.sent && globals == r.global
        && Flows() == Put(old(Flows()), old(pool[slot].key), r.flow)
    {
      hide FirstMatch, EvaluateAll, Apply, FlowsOf, Loadable;
      stage, sent := NULL_STAGE, [];
      var row := FindMatch(slot);
      if row.None? {
        ok := true;
        KeepFlow(slot);
      } else {
        ok, stage, sent := ApplyRow(row.value, slot, fields);
      }
    }

    lemma KeepFlow(slot: nat)
      requires PoolValid() && Live(pool[..], instances, slot)
      ensures Put(Flows(), pool[slot].key, Some(FlowOf(pool[slot]))) == Flows()
    {
      StoredAt(pool[..], instances, program.initialState, pool[slot].key);
    }

    /** One packet through this table: the flow key, the instance, the conditions, the row, its actions and the
        transition. It does what the specification says whether or not there is a cache. */
    method ProcessStage(fields: PacketFields, fk: array<nat>) returns (ok: bool, stage: nat, sent: seq<nat>)
      requires Valid() && fields.Valid() && fk.Length == KEY_WORDS
      modifies this, pool, fields`inPort, fields.packet`timestamp, fields.packet.data, fk
      ensures fk[..] == KeyOf(old(fk[..]), program.key, old(fields.Seen()))
      ensures ok <==> Advance(program, old(Contents()), fk[..], old(fields.Seen())).Some?
      ensures ok ==> Valid() && fields.Valid()
      ensures ok ==>
        var r := Advance(program, old(Contents()), fk[..], old(fields.Seen())).value;
        Contents() == r.0 && fields.Seen() == r.1.view && stage == r.1.stage && sent == r.1.sent
    {
      hide Stored, FlowsOf, Step, EvaluateAll, KeyOf, Live, Get, PacketFields.Valid, CacheValid, Index.Valid, Indexable;
      stage, sent := NULL_STAGE, [];
      KeyExtract(program.key, fields, fk);
      var slot := Prepare(fk[..], fields);
      if slot.None? {
        ok := false;
      } else {
        ok, stage, sent := Dispatch(slot.value, fields);
      }
    }
  }

  /** Two pools agree except that actions may have written the registers and the destroy flag of a slot. */
  predicate SameButWritten(before: seq<Instance>, after: seq<Instance>, slot: nat)
    requires slot < |before|
  {
    |after| == |before| &&
    after == before[slot := before[slot].(registers := after[slot].registers, destroy := after[slot].destroy)]
  }
}
