/** The extended finite state machine that a table describes: what one packet does to one flow. */
module Efsm {
  import opened Bytes
  import opened Packet
  import opened FlowKey

  const MAX_CONDITIONS: nat := 16
  const NULL_STAGE: nat := 255
  const STATE_NULL: nat := 255

  type RegisterIndex = i: nat | i < 32

  type Registers = r: seq<int> | |r| == 32 witness [0, 0, 0, 0, 0, 0, 0, 0, 0, 0, 0, 0, 0, 0, 0, 0,
                                                    0, 0, 0, 0, 0, 0, 0, 0, 0, 0, 0, 0, 0, 0, 0, 0]

  const ZERO_REGISTERS: Registers := [0, 0, 0, 0, 0, 0, 0, 0, 0, 0, 0, 0, 0, 0, 0, 0,
                                      0, 0, 0, 0, 0, 0, 0, 0, 0, 0, 0, 0, 0, 0, 0, 0]

  datatype Operand =
    | Register(index: RegisterIndex)
    | Constant(value: int)
    | Field(field: HdrField)
    | GlobalRegister(index: RegisterIndex)
    | NoOperand

  datatype Comparison = Less | LessEq | Greater | GreaterEq | Equal | NotEqual

  datatype Condition = Condition(op0: Operand, op1: Operand, comparison: Comparison)

  datatype Outcome = IsFalse | IsTrue | DontCare

  datatype Opcode = Sum | Minus | Multiply | Divide | Modulo | Maximum | Minimum

  datatype Target = Local(index: RegisterIndex) | Global(index: RegisterIndex)

  datatype Kind =
    | Update(opcode: Opcode, output: Target)
    | SendPacket(port: nat)
    | SetField(field: HdrField)
    | Destroy

  datatype Action = Action(kind: Kind, op1: Operand, op2: Operand, op3: Operand)

  datatype Row = Row(state: nat, results: seq<Outcome>, actions: seq<Action>, nextState: nat, nextStage: nat)

  /** What a table is created from. */
  datatype Program = Program(conditions: seq<Condition>, rows: seq<Row>, key: KeySpec, initialState: nat) {
    predicate Valid() {
      |conditions| <= MAX_CONDITIONS && key.Valid() &&
      forall i :: 0 <= i < |rows| ==> |rows[i].results| == MAX_CONDITIONS
    }
  }

  // ---------------------------------------------------------------- conditions

  /** The value of a condition operand; a missing field or operand counts as zero. */
  function Value(op: Operand, local: Registers, global: Registers, v: View): int
    requires ValidView(v)
  {
    match op
    case Register(i) => local[i]
    case GlobalRegister(i) => global[i]
    case Constant(c) => Wrap64(c)
    case Field(f) => (match Get(v, f) case None => 0 case Some(x) => x)
    case NoOperand => 0
  }

  predicate Compare(comparison: Comparison, a: int, b: int) {
    match comparison
    case Less => a < b
    case LessEq => a <= b
    case Greater => a > b
    case GreaterEq => a >= b
    case Equal => a == b
    case NotEqual => a != b
  }

  function Evaluate(c: Condition, local: Registers, global: Registers, v: View): (r: Outcome)
    requires ValidView(v)
    ensures r != DontCare
  {
    if Compare(c.comparison, Value(c.op0, local, global, v), Value(c.op1, local, global, v)) then IsTrue else IsFalse
  }

  function EvaluateAll(cs: seq<Condition>, local: Registers, global: Registers, v: View): (r: seq<Outcome>)
    requires ValidView(v)
    ensures |r| == |cs|
    ensures forall i :: 0 <= i < |cs| ==> r[i] == Evaluate(cs[i], local, global, v)
  {
    if cs == [] then [] else [Evaluate(cs[0], local, global, v)] + EvaluateAll(cs[1..], local, global, v)
  }

  // ---------------------------------------------------------------- rows

  /** A row fits when each of its results is don't-care or the result of the condition. */
  predicate Fits(row: Row, results: seq<Outcome>) {
    |results| <= |row.results| &&
    forall i :: 0 <= i < |results| ==> row.results[i] == DontCare || row.results[i] == results[i]
  }

  /** The first row of the table for the state that fits; with no conditions at all nothing ever matches. */
  function FirstMatch(rows: seq<Row>, state: nat, results: seq<Outcome>): (r: Option<Row>)
    ensures r.Some? ==> r.value in rows && r.value.state == state && Fits(r.value, results)
  {
    if rows == [] || results == [] then None
    else if rows[0].state == state && Fits(rows[0], results) then Some(rows[0])
    else FirstMatch(rows[1..], state, results)
  }

  predicate Applies(row: Row, state: nat, results: seq<Outcome>) { row.state == state && Fits(row, results) }

  /** A copy of the first row for the state whose results all fit; nothing exactly when there is no such row or there
      are no conditions. */
  predicate IsFirstMatch(rows: seq<Row>, state: nat, results: seq<Outcome>, r: Option<Row>) {
    match r
    case None => results == [] || forall k :: 0 <= k < |rows| ==> !Applies(rows[k], state, results)
    case Some(row) =>
      results != [] &&
      exists k :: 0 <= k < |rows| && rows[k] == row && Applies(rows[k], state, results) &&
        forall i :: 0 <= i < k ==> !Applies(rows[i], state, results)
  }

  lemma {:induction false} FirstMatchIsFirst(rows: seq<Row>, state: nat, results: seq<Outcome>)
    ensures IsFirstMatch(rows, state, results, FirstMatch(rows, state, results))
  {
    hide Fits;
    if rows != [] && results != [] {
      var rest, found := rows[1..], FirstMatch(rows, state, results);
      FirstMatchIsFirst(rest, state, results);
      assert forall i :: 0 < i < |rows| ==> rows[i] == rest[i - 1];
      if Applies(rows[0], state, results) {
        assert rows[0] == found.value;
      } else if found.Some? {
        var k :| 0 <= k < |rest| && rest[k] == found.value && Applies(rest[k], state, results) &&
          forall i :: 0 <= i < k ==> !Applies(rest[i], state, results);
        assert rows[k + 1] == found.value && forall i :: 0 <= i < k + 1 ==> !Applies(rows[i], state, results);
      }
    }
  }

  /** Looking for the first match from position `i` on. */
  lemma FirstMatchFrom(rows: seq<Row>, i: nat, state: nat, results: seq<Outcome>)
    requires i < |rows| && results != []
    ensures FirstMatch(rows[i..], state, results)
         == if Applies(rows[i], state, results) then Some(rows[i]) else FirstMatch(rows[i + 1..], state, results)
  {
    assert rows[i..][1..] == rows[i + 1..];
  }

  // ---------------------------------------------------------------- actions

  function Abs(x: int): nat { if x < 0 then -x else x }

  /** Division that truncates toward zero. */
  function Quotient(a: int, b: int): int
    requires b != 0
  {
    if (a < 0) == (b < 0) then Abs(a) / Abs(b) else -(Abs(a) / Abs(b))
  }

  /** The remainder, with the sign of the dividend. */
  function Remainder(a: int, b: int): int
    requires b != 0
  {
    if a < 0 then -(Abs(a) % Abs(b)) else Abs(a) % Abs(b)
  }

  /** The result of an update, or nothing when the division traps. */
  function Compute(op: Opcode, a: int, b: int): Option<int> {
    match op
    case Sum => Some(Wrap64(a + b))
    case Minus => Some(Wrap64(a - b))
    case Multiply => Some(Wrap64(a * b))
    case Divide =>
      if b == 0 then Some(a) else if a == -HALF64 && b == -1 then None else Some(Quotient(a, b))
    case Modulo =>
      if b == 0 || (a == -HALF64 && b == -1) then None else Some(Remainder(a, b))
    case Maximum => Some(if a > b then a else b)
    case Minimum => Some(if a < b then a else b)
  }

  /** The state of a packet while actions run. The three operand values survive from one action to the next
      and keep their value when a field is missing. */
  datatype Context = Context(
    local: Registers, global: Registers, view: View,
    reg1: int, reg2: int, reg3: int, sent: seq<nat>, destroy: bool)

  function Load(op: Operand, c: Context, was: int): int
    requires ValidView(c.view)
  {
    match op
    case Register(i) => c.local[i]
    case GlobalRegister(i) => c.global[i]
    case Constant(k) => Wrap64(k)
    case Field(f) => (match Get(c.view, f) case None => was case Some(x) => x)
    case NoOperand => was
  }

  /** Loading the operands of an action. */
  function Loaded(a: Action, c: Context): (r: Context)
    requires ValidView(c.view)
    ensures r.view == c.view && r.local == c.local && r.global == c.global && r.sent == c.sent && r.destroy == c.destroy
  {
    c.(reg1 := if a.kind.SetField? then Id(a.kind.field) else Load(a.op1, c, c.reg1),
       reg2 := Load(a.op2, c, c.reg2),
       reg3 := Load(a.op3, c, c.reg3))
  }

  /** Performing an action on loaded operands; port 0 drops, other ports are numbered from one. */
  function Perform(k: Kind, c: Context): (r: Option<Context>)
    requires ValidView(c.view)
    ensures r.Some? ==> ValidView(r.value.view)
  {
    match k
    case Update(opcode, output) =>
      (match Compute(opcode, c.reg1, c.reg2)
       case None => None
       case Some(x) =>
         match output
         case Local(i) => Some(c.(local := c.local[i := x]))
         case Global(i) => Some(c.(global := c.global[i := x])))
    case SendPacket(port) =>
      var d := c.(reg2 := port);
      if port == 0 then Some(d) else Some(d.(sent := c.sent + [port - 1]))
    case SetField(f) => Some(c.(view := Set(c.view, f, c.reg3)))
    case Destroy => Some(c.(destroy := true))
  }

  /** Running the actions of a row in order; nothing when one of them traps. */
  function Execute(actions: seq<Action>, c: Context): (r: Option<Context>)
    requires ValidView(c.view)
    ensures r.Some? ==> ValidView(r.value.view)
    decreases |actions|
  {
    if actions == [] then Some(c)
    else
      match Perform(actions[0].kind, Loaded(actions[0], c))
      case None => None
      case Some(d) => Execute(actions[1..], d)
  }

  /** Actions run one after the other: later ones see what earlier ones wrote, and a trap stops all that follow. */
  lemma {:induction false} ExecuteInTurn(first: seq<Action>, second: seq<Action>, c: Context)
    requires ValidView(c.view)
    ensures Execute(first + second, c)
         == match Execute(first, c) case None => None case Some(d) => Execute(second, d)
    decreases |first|
  {
    hide Perform, Loaded;
    if first == [] {
      assert first + second == second;
    } else {
      assert (first + second)[1..] == first[1..] + second;
      match Perform(first[0].kind, Loaded(first[0], c))
      case None =>
      case Some(d) => ExecuteInTurn(first[1..], second, d);
    }
  }

  /** Running the actions from position `i` on. */
  lemma ExecuteFrom(actions: seq<Action>, i: nat, c: Context)
    requires ValidView(c.view) && i < |actions|
    ensures Execute(actions[i..], c)
         == match Perform(actions[i].kind, Loaded(actions[i], c))
            case None => None
            case Some(d) => Execute(actions[i + 1..], d)
  {
    assert actions[i..][1..] == actions[i + 1..];
  }

  function Started(local: Registers, global: Registers, v: View): Context {
    Context(local, global, v, 0, 0, 0, [], false)
  }

  // ---------------------------------------------------------------- one packet, one flow

  /** What is kept for a flow. */
  datatype Flow = Flow(local: Registers, state: nat)

  /** What a packet does: the flow that remains, the globals, the packet, the ports it leaves by and the stage
      it goes to, 255 when the pipeline is done with it. */
  datatype Verdict = Verdict(flow: Option<Flow>, global: Registers, view: View, sent: seq<nat>, stage: nat)

  /** One packet of one flow: conditions first, then the first fitting row, its actions and its transition. */
  function Step(p: Program, f: Flow, global: Registers, v: View): (r: Option<Verdict>)
    requires p.Valid() && ValidView(v)
    ensures r.Some? ==> ValidView(r.value.view)
  {
    match FirstMatch(p.rows, f.state, EvaluateAll(p.conditions, f.local, global, v))
    case None => Some(Verdict(Some(f), global, v, [], NULL_STAGE))
    case Some(row) => Apply(row, f, global, v)
  }

  /** Applying a matching row. */
  function Apply(row: Row, f: Flow, global: Registers, v: View): (r: Option<Verdict>)
    requires ValidView(v)
    ensures r.Some? ==> ValidView(r.value.view)
  {
    match Execute(row.actions, Started(f.local, global, v))
    case None => None
    case Some(c) =>
      if c.destroy then Some(Verdict(None, c.global, c.view, c.sent, NULL_STAGE))
      else Some(Verdict(Some(Flow(c.local, row.nextState)), c.global, c.view, c.sent, row.nextStage))
  }

  // ---------------------------------------------------------------- one packet, all flows

  const MAX_INSTANCES: nat := 1_000_000

  /** The flows of a table, its globals and how many instances were ever inserted: destroying a flow does not
      give its place back. */
  datatype Machine = Machine(flows: map<Key, Flow>, global: Registers, inserted: nat)

  function FreshFlow(p: Program): Flow { Flow(ZERO_REGISTERS, p.initialState) }

  function Fresh(p: Program): Machine { Machine(map[], ZERO_REGISTERS, 0) }

  /** The machine once the flow of a packet exists; nothing when no more instances can be inserted. */
  function WithFlow(p: Program, m: Machine, k: Key): Option<Machine> {
    if k in m.flows then Some(m)
    else if m.inserted == MAX_INSTANCES - 1 then None
    else Some(Machine(m.flows[k := FreshFlow(p)], m.global, m.inserted + 1))
  }

  function Put(flows: map<Key, Flow>, k: Key, f: Option<Flow>): map<Key, Flow> {
    match f
    case None => flows - {k}
    case Some(flow) => flows[k := flow]
  }

  /** One packet of the flow `k`; nothing when the engine cannot go on. */
  function Advance(p: Program, m: Machine, k: Key, v: View): (r: Option<(Machine, Verdict)>)
    requires p.Valid() && ValidView(v)
    ensures r.Some? ==> ValidView(r.value.1.view)
  {
    match WithFlow(p, m, k)
    case None => None
    case Some(n) =>
      match Step(p, n.flows[k], n.global, v)
      case None => None
      case Some(verdict) =>
        Some((Machine(Put(n.flows, k, verdict.flow), verdict.global, n.inserted), verdict))
  }

  // ---------------------------------------------------------------- what rows ask for and lead to

  /** How the comparisons go together. */
  lemma Comparisons(a: int, b: int)
    ensures Compare(Less, a, b) <==> 0 < b - a
    ensures Compare(GreaterEq, a, b) <==> !Compare(Less, a, b)
    ensures Compare(Greater, a, b) <==> Compare(Less, b, a)
    ensures Compare(LessEq, a, b) <==> !Compare(Less, b, a)
    ensures Compare(Equal, a, b) <==> Compare(LessEq, a, b) && Compare(GreaterEq, a, b)
    ensures Compare(NotEqual, a, b) <==> !Compare(Equal, a, b)
  {
  }

  /** A row fits when every condition that it wants true holds and none that it wants false does. */
  lemma FitsMeans(row: Row, cs: seq<Condition>, local: Registers, global: Registers, v: View)
    requires ValidView(v) && |cs| <= |row.results|
    ensures Fits(row, EvaluateAll(cs, local, global, v)) <==>
      forall i :: 0 <= i < |cs| && row.results[i] != DontCare ==>
        (row.results[i] == IsTrue <==> Holds(cs[i], local, global, v))
  {
    hide EvaluateAll, Value, Compare;
    var r := EvaluateAll(cs, local, global, v);
    assert forall i :: 0 <= i < |cs| ==> r[i] == Evaluate(cs[i], local, global, v);
  }

  predicate Holds(c: Condition, local: Registers, global: Registers, v: View)
    requires ValidView(v)
  {
    Compare(c.comparison, Value(c.op0, local, global, v), Value(c.op1, local, global, v))
  }

  /** A condition on a field that the packet does not have comes out as it would for zero. */
  lemma MissingFieldIsZero(f: HdrField, op: Operand, comparison: Comparison, local: Registers, global: Registers,
                           v: View)
    requires ValidView(v) && Get(v, f).None?
    ensures Evaluate(Condition(Field(f), op, comparison), local, global, v)
         == Evaluate(Condition(Constant(0), op, comparison), local, global, v)
    ensures Evaluate(Condition(op, Field(f), comparison), local, global, v)
         == Evaluate(Condition(op, Constant(0), comparison), local, global, v)
  {
    hide Compare;
  }

  predicate Destroys(actions: seq<Action>) { exists i :: 0 <= i < |actions| && actions[i].kind.Destroy? }

  /** Running actions marks the flow to be destroyed exactly when one of them says so. */
  lemma {:induction false} ExecuteDestroys(actions: seq<Action>, c: Context)
    requires ValidView(c.view)
    ensures Execute(actions, c).Some? ==> (Execute(actions, c).value.destroy <==> c.destroy || Destroys(actions))
    decreases |actions|
  {
    hide Loaded, Compute, Set;
    if actions != [] {
      var d := Perform(actions[0].kind, Loaded(actions[0], c));
      if d.Some? {
        ExecuteDestroys(actions[1..], d.value);
        DestroysMore(actions);
      }
    }
  }

  lemma DestroysMore(actions: seq<Action>)
    requires actions != []
    ensures Destroys(actions) <==> actions[0].kind.Destroy? || Destroys(actions[1..])
  {
    if Destroys(actions) && !actions[0].kind.Destroy? {
      var i :| 0 <= i < |actions| && actions[i].kind.Destroy?;
      assert actions[1..][i - 1] == actions[i];
    }
    if Destroys(actions[1..]) {
      var i :| 0 <= i < |actions[1..]| && actions[1..][i].kind.Destroy?;
      assert actions[i + 1] == actions[1..][i];
    }
  }

  /** The flow that a packet meets. */
  function Met(p: Program, m: Machine, k: Key): Flow { if k in m.flows then m.flows[k] else FreshFlow(p) }

  /** Where a packet leads: without a matching row its flow stays as it is and the packet leaves the pipeline; a row
      that destroys the flow takes it away, and the packet leaves as well; any other row leads to its next state and its
      next stage. No packet changes another flow. */
  lemma Transition(p: Program, m: Machine, k: Key, v: View)
    requires p.Valid() && ValidView(v) && Advance(p, m, k, v).Some?
    ensures var (n, verdict) := Advance(p, m, k, v).value;
      var f := Met(p, m, k);
      var row := FirstMatch(p.rows, f.state, EvaluateAll(p.conditions, f.local, m.global, v));
      (forall l :: l != k ==> (l in n.flows <==> l in m.flows) && (l in m.flows ==> n.flows[l] == m.flows[l])) &&
      n.inserted == m.inserted + (if k in m.flows then 0 else 1) &&
      match row {
        case None =>
          n.flows == m.flows[k := f] && n.global == m.global && verdict.stage == 255 && verdict.view == v &&
          verdict.sent == []
        case Some(row) =>
          if Destroys(row.actions) then k !in n.flows && verdict.stage == 255
          else k in n.flows && n.flows[k].state == row.nextState && verdict.stage == row.nextStage
      }
  {
    hide Execute, EvaluateAll, Fits, Destroys;
    var f := Met(p, m, k);
    var row := FirstMatch(p.rows, f.state, EvaluateAll(p.conditions, f.local, m.global, v));
    if row.Some? {
      ExecuteDestroys(row.value.actions, Started(f.local, m.global, v));
    }
  }
}
