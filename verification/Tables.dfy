/** The building blocks of the tables that the compiler makes: assignments, transmissions, row results. */
module Tables {
  import opened Bytes
  import opened Packet
  import opened Efsm

  const DONT_CARES: seq<Outcome> := [DontCare, DontCare, DontCare, DontCare, DontCare, DontCare, DontCare, DontCare,
                                     DontCare, DontCare, DontCare, DontCare, DontCare, DontCare, DontCare, DontCare]

  function Assign(output: Target, opcode: Opcode, a: Operand, b: Operand): Action {
    Action(Update(opcode, output), a, b, NoOperand)
  }

  function Send(port: nat): Action { Action(SendPacket(port), Constant(255), Constant(port), NoOperand) }

  /** An assignment writes its output and nothing else. */
  lemma Assigned(output: Target, opcode: Opcode, a: Operand, b: Operand, c: Context, x: int)
    requires ValidView(c.view) && Compute(opcode, Load(a, c, c.reg1), Load(b, c, c.reg2)) == Some(x)
    ensures var d := Perform(Update(opcode, output), Loaded(Assign(output, opcode, a, b), c));
      d.Some? && d.value.view == c.view && d.value.sent == c.sent && d.value.destroy == c.destroy &&
      d.value.local == (if output.Local? then c.local[output.index := x] else c.local) &&
      d.value.global == (if output.Global? then c.global[output.index := x] else c.global)
  {
  }

  lemma Sent(c: Context, port: nat)
    requires ValidView(c.view)
    ensures var d := Perform(SendPacket(port), Loaded(Send(port), c));
      d.Some? && d.value.view == c.view && d.value.destroy == c.destroy && d.value.local == c.local &&
      d.value.global == c.global && d.value.sent == if port == 0 then c.sent else c.sent + [port - 1]
  {
  }

  function SetTo(f: HdrField, x: int): Action { Action(SetField(f), Field(f), Constant(255), Constant(x)) }

  /** The operand has a value: that of its constant, its register or its field. */
  predicate IsValue(op: Operand, c: Context, x: int)
    requires ValidView(c.view)
  {
    match op
    case Constant(k) => k == x && -HALF64 <= x < HALF64
    case Register(i) => x == c.local[i]
    case GlobalRegister(i) => x == c.global[i]
    case Field(f) => Get(c.view, f) == Some(x)
    case NoOperand => false
  }

  /** After a set-field action on a field that is there, the field reads as the third operand modulo its width; all
      other fields, the registers and what is done with the packet stay as they are. */
  lemma FieldSet(f: HdrField, op1: Operand, op2: Operand, op3: Operand, c: Context, x: int)
    requires ValidView(c.view) && Get(c.view, f).Some?
    requires IsValue(op3, c, x)
    ensures var d := Execute([Action(SetField(f), op1, op2, op3)], c);
      d.Some? && ValidView(d.value.view) &&
      Get(d.value.view, f) == Some(if f == Timestamp then Wrap64(x) else x % Values(Length(f))) &&
      (forall g :: g != f ==> Get(d.value.view, g) == Get(c.view, g)) &&
      d.value.local == c.local && d.value.global == c.global && d.value.sent == c.sent && d.value.destroy == c.destroy
  {
    hide Get, Set;
    var actions := [Action(SetField(f), op1, op2, op3)];
    assert actions[1..] == [];
    IsPresent(c.view, f);
    forall g {
      SetGet(c.view, f, g, x);
    }
  }

  lemma IsPresent(v: View, f: HdrField)
    requires ValidView(v)
    ensures Get(v, f).Some? <==> Present(v, f)
  {
  }

  /** An operand that is missing: there is none, or its field is not in the packet. */
  predicate Missing(op: Operand, v: View)
    requires ValidView(v)
  {
    op.NoOperand? || (op.Field? && Get(v, op.field).None?)
  }

  /** The action that adds what is left in the first two operands. */
  function AddUp(output: Target, m: Operand, n: Operand): Action { Action(Update(Sum, output), m, n, NoOperand) }

  /** Missing operands have the values that were loaded for the action before. */
  lemma MissingOperands(c: Context, output: Target, m: Operand, n: Operand, x: int, y: int)
    requires ValidView(c.view) && Missing(m, c.view) && Missing(n, c.view)
    requires -HALF64 <= x < HALF64 && -HALF64 <= y < HALF64
    ensures Execute([AddUp(output, Constant(x), Constant(y)), AddUp(output, m, n)], c)
         == Execute([AddUp(output, Constant(x), Constant(y)), AddUp(output, Constant(x), Constant(y))], c)
  {
    hide Get, Compute, Wrap64;
    Twice(AddUp(output, Constant(x), Constant(y)), AddUp(output, m, n), c);
    Twice(AddUp(output, Constant(x), Constant(y)), AddUp(output, Constant(x), Constant(y)), c);
    InRange(x);
    InRange(y);
  }

  /** After a packet was sent, the second one has the port, whatever was loaded. */
  lemma MissingAfterSend(c: Context, output: Target, m: Operand, n: Operand, p: Operand, x: int, port: nat)
    requires ValidView(c.view) && Missing(m, c.view) && Missing(n, c.view) && -HALF64 <= x < HALF64 && port < HALF64
    ensures var send := Action(SendPacket(port), Constant(x), p, NoOperand);
      Execute([send, AddUp(output, m, n)], c) == Execute([send, AddUp(output, Constant(x), Constant(port))], c)
  {
    hide Get, Compute, Wrap64;
    var send := Action(SendPacket(port), Constant(x), p, NoOperand);
    Twice(send, AddUp(output, m, n), c);
    Twice(send, AddUp(output, Constant(x), Constant(port)), c);
    InRange(x);
    InRange(port);
  }

  lemma InRange(x: int)
    ensures -HALF64 <= x < HALF64 ==> Wrap64(x) == x
  {
  }

  /** Two actions, one after the other. */
  lemma Twice(a: Action, b: Action, c: Context)
    requires ValidView(c.view)
    ensures Execute([a, b], c)
         == match Perform(a.kind, Loaded(a, c)) case None => None case Some(d) => Perform(b.kind, Loaded(b, d))
  {
    hide Perform, Loaded;
    var actions := [a, b];
    assert actions[0..] == actions && actions[2..] == [];
    ExecuteFrom(actions, 0, c);
    var d := Perform(a.kind, Loaded(a, c));
    if d.Some? {
      ExecuteFrom(actions, 1, d.value);
    }
  }

  /** Setting a field leaves its number in the first operand. */
  lemma FieldNumberIsLeft(c: Context, output: Target, f: HdrField, x: int)
    requires ValidView(c.view)
    ensures Execute([SetTo(f, x), AddUp(output, NoOperand, Constant(0))], c)
         == Execute([SetTo(f, x), AddUp(output, Constant(Id(f)), Constant(0))], c)
  {
    hide Set, Compute;
    Twice(SetTo(f, x), AddUp(output, NoOperand, Constant(0)), c);
    Twice(SetTo(f, x), AddUp(output, Constant(Id(f)), Constant(0)), c);
  }

  lemma NoRows(state: nat, r: seq<Outcome>)
    ensures FirstMatch([], state, r) == None
  {
  }
}
