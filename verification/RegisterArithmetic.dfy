/** The arithmetic of registers: what an update computes, and that registers stay 64-bit numbers in every run. */
module RegisterArithmetic {
  import opened Bytes
  import opened Packet
  import opened FlowKey
  import opened Efsm
  import opened Runs

  predicate In64(x: int) { -HALF64 <= x < HALF64 }

  // ---------------------------------------------------------------- one update

  lemma WrapCongruent(x: int)
    ensures (Wrap64(x) - x) % WORD64 == 0
  {
    var k := (x + HALF64) / WORD64;
    assert Wrap64(x) - x == -k * WORD64;
  }

  /** Sums, differences and products are right modulo 2^64. */
  lemma WrappedResults(a: int, b: int)
    ensures Compute(Sum, a, b).Some? && (Compute(Sum, a, b).value - (a + b)) % WORD64 == 0
    ensures Compute(Minus, a, b).Some? && (Compute(Minus, a, b).value - (a - b)) % WORD64 == 0
    ensures Compute(Multiply, a, b).Some? && (Compute(Multiply, a, b).value - a * b) % WORD64 == 0
  {
    WrapCongruent(a + b);
    WrapCongruent(a - b);
    WrapCongruent(a * b);
  }

  /** Quotient and remainder belong together; the remainder has the sign of the dividend. */
  lemma Divided(a: int, b: int)
    requires b != 0
    ensures Quotient(a, b) * b + Remainder(a, b) == a
    ensures Abs(Remainder(a, b)) < Abs(b) && (Remainder(a, b) == 0 || (Remainder(a, b) < 0 <==> a < 0))
  {
    var q, m := Abs(a) / Abs(b), Abs(a) % Abs(b);
    Euclid(Abs(a), Abs(b));
    Signs(q, b);
  }

  lemma Euclid(x: nat, y: nat)
    requires y > 0
    ensures x == (x / y) * y + x % y && x % y < y
  {
  }

  lemma Signs(q: int, b: int)
    ensures b < 0 ==> q * b == -(q * Abs(b)) && -q * b == q * Abs(b)
    ensures b >= 0 ==> q * b == q * Abs(b) && -q * b == -(q * Abs(b))
  {
  }

  /** Dividing by zero keeps the dividend; a remainder by zero traps, and so does dividing the least number by -1. */
  lemma DivisionTraps(a: int, b: int)
    requires In64(a) && In64(b)
    ensures Compute(Divide, a, b).None? <==> a == -HALF64 && b == -1
    ensures Compute(Modulo, a, b).None? <==> b == 0 || (a == -HALF64 && b == -1)
    ensures b == 0 ==> Compute(Divide, a, b) == Some(a)
    ensures b != 0 && Compute(Divide, a, b).Some? ==>
      Compute(Divide, a, b).value * b + Compute(Modulo, a, b).value == a
  {
    if b != 0 {
      Divided(a, b);
    }
  }

  /** The greater and the smaller of two numbers. */
  lemma Extremes(a: int, b: int)
    ensures var hi, lo := Compute(Maximum, a, b).value, Compute(Minimum, a, b).value;
      lo <= a <= hi && lo <= b <= hi && {lo, hi} == {a, b}
  {
  }

  /** The result of an update is a 64-bit number when its operands are. */
  lemma ComputeStays(op: Opcode, a: int, b: int)
    requires In64(a) && In64(b)
    ensures Compute(op, a, b).Some? ==> In64(Compute(op, a, b).value)
  {
    if op.Divide? && b != 0 {
      QuotientStays(a, b);
    }
    if op.Modulo? && b != 0 {
      Divided(a, b);
    }
  }

  lemma QuotientStays(a: int, b: int)
    requires In64(a) && In64(b) && b != 0
    ensures !(a == -HALF64 && b == -1) ==> In64(Quotient(a, b))
  {
    QuotientShrinks(Abs(a), Abs(b));
  }

  lemma QuotientShrinks(x: nat, y: nat)
    requires y > 0
    ensures 0 <= x / y <= x && (y >= 2 ==> 2 * (x / y) <= x)
  {
    TimesGrows(x / y, y);
  }

  lemma {:induction false} TimesGrows(q: nat, y: nat)
    requires y > 0
    ensures q <= q * y && (y >= 2 ==> 2 * q <= q * y)
    decreases y
  {
    if y > 1 {
      TimesGrows(q, y - 1);
      assert q * y == q * (y - 1) + q;
    }
  }

  // ---------------------------------------------------------------- all registers

  predicate AllIn64(r: Registers) { forall i :: 0 <= i < 32 ==> In64(r[i]) }

  predicate ContextIn64(c: Context) {
    AllIn64(c.local) && AllIn64(c.global) && In64(c.reg1) && In64(c.reg2) && In64(c.reg3)
  }

  /** Every field of a packet is a 64-bit number. */
  lemma FieldStays(v: View, f: HdrField)
    requires ValidView(v)
    ensures Get(v, f).Some? ==> In64(Get(v, f).value)
  {
    if InData(f) {
      BigEndianBound(v.data[Offset(f)..Offset(f) + Length(f)]);
    }
  }

  lemma BigEndianBound(s: bytes)
    requires |s| <= 4
    ensures BigEndian(s) < WORD32
  {
    BoundStep(s);
  }

  lemma {:induction false} BoundStep(s: bytes)
    requires |s| <= 4
    ensures BigEndian(s) < Power256(|s|)
    decreases |s|
  {
    if s != [] {
      BoundStep(s[..|s| - 1]);
    }
  }

  function Power256(n: nat): nat
    requires n <= 4
  {
    if n == 0 then 1 else if n == 1 then 0x100 else if n == 2 then 0x1_0000 else if n == 3 then 0x100_0000 else WORD32
  }

  lemma LoadedStays(a: Action, c: Context)
    requires ValidView(c.view) && ContextIn64(c)
    ensures ContextIn64(Loaded(a, c))
  {
    LoadStays(a.op1, c, c.reg1);
    LoadStays(a.op2, c, c.reg2);
    LoadStays(a.op3, c, c.reg3);
  }

  lemma LoadStays(op: Operand, c: Context, was: int)
    requires ValidView(c.view) && ContextIn64(c) && In64(was)
    ensures In64(Load(op, c, was))
  {
    if op.Field? {
      FieldStays(c.view, op.field);
    }
  }

  /** Ports are small numbers. */
  predicate SmallPort(k: Kind) { k.SendPacket? ==> k.port < HALF64 }

  lemma PerformStays(k: Kind, c: Context)
    requires ValidView(c.view) && ContextIn64(c) && SmallPort(k)
    ensures Perform(k, c).Some? ==> ContextIn64(Perform(k, c).value)
  {
    if k.Update? {
      ComputeStays(k.opcode, c.reg1, c.reg2);
    }
  }

  predicate SmallPorts(actions: seq<Action>) { forall i :: 0 <= i < |actions| ==> SmallPort(actions[i].kind) }

  lemma {:induction false} ExecuteStays(actions: seq<Action>, c: Context)
    requires ValidView(c.view) && ContextIn64(c) && SmallPorts(actions)
    ensures Execute(actions, c).Some? ==> ContextIn64(Execute(actions, c).value)
    decreases |actions|
  {
    hide ContextIn64, Perform, Loaded;
    if actions != [] {
      LoadedStays(actions[0], c);
      var d := Perform(actions[0].kind, Loaded(actions[0], c));
      assert SmallPort(actions[0].kind);
      PerformStays(actions[0].kind, Loaded(actions[0], c));
      if d.Some? {
        ExecuteStays(actions[1..], d.value);
      }
    }
  }

  // ---------------------------------------------------------------- runs

  predicate MachineIn64(m: Machine) {
    AllIn64(m.global) && forall k :: k in m.flows ==> AllIn64(m.flows[k].local)
  }

  predicate ProgramSmallPorts(p: Program) { forall i :: 0 <= i < |p.rows| ==> SmallPorts(p.rows[i].actions) }

  lemma StepStays(p: Program, f: Flow, global: Registers, v: View)
    requires p.Valid() && ValidView(v) && AllIn64(f.local) && AllIn64(global) && ProgramSmallPorts(p)
    ensures var r := Step(p, f, global, v);
      r.Some? ==> AllIn64(r.value.global) && (r.value.flow.Some? ==> AllIn64(r.value.flow.value.local))
  {
    hide Execute, EvaluateAll, Fits, AllIn64;
    var row := FirstMatch(p.rows, f.state, EvaluateAll(p.conditions, f.local, global, v));
    if row.Some? {
      var i :| 0 <= i < |p.rows| && p.rows[i] == row.value;
      var c := Started(f.local, global, v);
      ExecuteStays(row.value.actions, c);
    }
  }

  lemma AdvanceStays(p: Program, m: Machine, k: Key, v: View)
    requires p.Valid() && ValidView(v) && MachineIn64(m) && ProgramSmallPorts(p) && Advance(p, m, k, v).Some?
    ensures MachineIn64(Advance(p, m, k, v).value.0)
  {
    hide Step, AllIn64;
    ZerosAreSmall();
    var w := WithFlow(p, m, k).value;
    StepStays(p, w.flows[k], w.global, v);
  }

  lemma ZerosAreSmall()
    ensures AllIn64(ZERO_REGISTERS)
  {
  }

  /** In every run from a fresh table all registers stay 64-bit numbers. */
  lemma {:induction false} RegistersStay64(p: Program, m: Machine, trace: Trace)
    requires p.Valid() && ProgramSmallPorts(p) && MachineIn64(m) && Run(p, m, trace).Some?
    ensures MachineIn64(Run(p, m, trace).value.machine)
    decreases |trace|
  {
    hide Advance, MachineIn64, ProgramSmallPorts;
    if trace != [] {
      AdvanceStays(p, m, trace[0].key, trace[0].view);
      RegistersStay64(p, Advance(p, m, trace[0].key, trace[0].view).value.0, trace[1..]);
    }
  }
}
