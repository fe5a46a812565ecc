/** The condition numbers in the blocks of a program are those that the compiler's interning hands out. */
module ConditionNumbers {
  import opened Bytes
  import opened ConditionFactory
  import opened Packet
  import XlBlocks
  import Programs
  import Efsm
  import Policer
  import PortKnocking
  import LoadBalancer
  import Elephant

  // ---------------------------------------------------------------- operands of the engine as the compiler has them

  function Decimal(n: nat): (r: string)
    ensures r != []
  {
    (if n < 10 then "" else Decimal(n / 10)) + ["0123456789"[n % 10]]
  }

  lemma {:induction false} DecimalInjective(m: nat, n: nat)
    requires Decimal(m) == Decimal(n)
    ensures m == n
  {
    var s, t := Decimal(m), Decimal(n);
    assert s[|s| - 1] == t[|t| - 1];
    assert s[..|s| - 1] == t[..|t| - 1];
    assert s[..|s| - 1] == if m < 10 then "" else Decimal(m / 10);
    assert t[..|t| - 1] == if n < 10 then "" else Decimal(n / 10);
    if m >= 10 && n >= 10 {
      DecimalInjective(m / 10, n / 10);
    }
  }

  function FieldName(f: HdrField): string {
    match f
    case EthType => "eth.type"
    case Ipv4Src => "ipv4.src"
    case Ipv4Dst => "ipv4.dst"
    case Ipv4Proto => "ipv4.proto"
    case Ipv4Tos => "ipv4.tos"
    case TcpSport => "tcp.sport"
    case TcpDport => "tcp.dport"
    case UdpSport => "udp.sport"
    case UdpDport => "udp.dport"
    case InPort => "pktRcvd.port"
    case Timestamp => "currentTime"
  }

  /** Operands that a program can write: its constants are unsigned. */
  predicate Writable(op: Efsm.Operand) { op != Efsm.NoOperand && (op.Constant? ==> op.value >= 0) }

  /** What the compiler makes of an operand. Local and global registers are counted separately, each from 0, and the
      count is all the name that they have. */
  function Written(op: Efsm.Operand): Operand
    requires Writable(op)
  {
    match op
    case Register(i) => Register(LocalRegister, Decimal(i))
    case GlobalRegister(i) => Register(GlobalRegister, Decimal(i))
    case Constant(c) => Constant(IntegerConstant, Decimal(c))
    case Field(Timestamp) => Register(ReadOnlyRegister, "XTRA_TIMESTAMP")
    case Field(InPort) => EventField("XTRA_PKT_RCVD_PORT")
    case Field(f) => PacketField("XTRA_PKT_DATA", Decimal(Offset(f)), Decimal(Length(f)), FieldName(f))
  }

  /** A local and a global register that were declared in the same place of their kind. */
  predicate Confused(a: Efsm.Operand, b: Efsm.Operand) {
    (a.Register? && b.GlobalRegister? && a.index == b.index) || (a.GlobalRegister? && b.Register? && a.index == b.index)
  }

  lemma NoNumber(n: nat)
    ensures Decimal(n) != "XTRA_TIMESTAMP"
  {
    assert Decimal(n)[|Decimal(n)| - 1] == "0123456789"[n % 10];
    assert "XTRA_TIMESTAMP"[13] == 'P';
  }

  /** The compiler tells two operands apart exactly when they differ and are not a local and a global register with the
      same number. */
  lemma {:induction false} AlikeExactly(a: Efsm.Operand, b: Efsm.Operand)
    requires Writable(a) && Writable(b)
    ensures Alike(Written(a), Written(b)) <==> a == b || Confused(a, b)
  {
    hide Decimal;
    if Alike(Written(a), Written(b)) {
      match (a, b)
      case (Constant(x), Constant(y)) => DecimalInjective(x, y);
      case (Field(f), Field(g)) => FieldNames(f, g);
      case (Field(_), Register(i)) => NoNumber(i);
      case (Field(_), GlobalRegister(i)) => NoNumber(i);
      case (Register(i), Field(_)) => NoNumber(i);
      case (GlobalRegister(i), Field(_)) => NoNumber(i);
      case (Register(i), Register(j)) => DecimalInjective(i, j);
      case (Register(i), GlobalRegister(j)) => DecimalInjective(i, j);
      case (GlobalRegister(i), Register(j)) => DecimalInjective(i, j);
      case (GlobalRegister(i), GlobalRegister(j)) => DecimalInjective(i, j);
      case _ =>
    }
  }

  lemma FieldNames(f: HdrField, g: HdrField)
    requires FieldName(f) == FieldName(g)
    ensures f == g
  {
    var s, t := FieldName(f), FieldName(g);
    assert |s| == |t|;
    assert forall i :: 0 <= i < |s| ==> s[i] == t[i];
  }

  // ---------------------------------------------------------------- conditions

  predicate CanBeWritten(c: Efsm.Condition) { Writable(c.op0) && Writable(c.op1) }

  function Request(c: Efsm.Condition): Condition
    requires CanBeWritten(c)
  {
    Condition(0, Written(c.op0), Written(c.op1), c.comparison)
  }

  predicate SameRequest(c: Efsm.Condition, d: Efsm.Condition) {
    (c.op0 == d.op0 || Confused(c.op0, d.op0)) && (c.op1 == d.op1 || Confused(c.op1, d.op1)) &&
    c.comparison == d.comparison
  }

  /** The conditions of a table can be written, and the compiler can tell any two of them apart. */
  predicate Distinguished(cs: seq<Efsm.Condition>) {
    (forall i :: 0 <= i < |cs| ==> CanBeWritten(cs[i])) &&
    (forall i, j :: 0 <= i < j < |cs| ==> !SameRequest(cs[i], cs[j]))
  }

  /** The conditions in the order in which a program writes them down. */
  function Requests(cs: seq<Efsm.Condition>, uses: seq<nat>): (r: seq<Condition>)
    requires Distinguished(cs) && forall k :: 0 <= k < |uses| ==> uses[k] < |cs|
    ensures |r| == |uses| && forall k :: 0 <= k < |uses| ==> r[k] == Request(cs[uses[k]])
  {
    seq(|uses|, k requires 0 <= k < |uses| => Request(cs[uses[k]]))
  }

  /** Numbers in the order of first use: each is one used before or the next. */
  predicate InOrderOfUse(uses: seq<nat>, n: nat) {
    if uses == [] then n == 0
    else
      var front, last := uses[..|uses| - 1], uses[|uses| - 1];
      (last < n && InOrderOfUse(front, n)) || (last + 1 == n && InOrderOfUse(front, n - 1))
  }

  lemma {:induction false} UsesBelow(uses: seq<nat>, n: nat)
    requires InOrderOfUse(uses, n)
    ensures forall k :: 0 <= k < |uses| ==> uses[k] < n
    decreases |uses|
  {
    if uses != [] {
      var front, last := uses[..|uses| - 1], uses[|uses| - 1];
      if last < n && InOrderOfUse(front, n) {
        UsesBelow(front, n);
      } else {
        UsesBelow(front, n - 1);
      }
      assert forall k :: 0 <= k < |front| ==> uses[k] == front[k];
    }
  }

  /** Two conditions of a table are requested as the same one only if they are at the same place. */
  lemma RequestedApart(cs: seq<Efsm.Condition>, i: nat, j: nat, m: nat)
    requires Distinguished(cs) && i < |cs| && j < |cs| && Same(Request(cs[i]).(id := m), Request(cs[j]))
    ensures i == j
  {
    AlikeExactly(cs[i].op0, cs[j].op0);
    AlikeExactly(cs[i].op1, cs[j].op1);
    hide Writable, Confused, Alike, Written;
    assert SameRequest(cs[i], cs[j]);
    AlikeExactly(cs[j].op0, cs[i].op0);
    AlikeExactly(cs[j].op1, cs[i].op1);
    SameIsEquivalence(Request(cs[i]).(id := m), Request(cs[j]), Request(cs[j]));
    assert SameRequest(cs[j], cs[i]);
  }

  /** The first `n` conditions of the table, with their places as numbers. */
  predicate ListsTable(listed: seq<Condition>, cs: seq<Efsm.Condition>, n: nat)
    requires Distinguished(cs) && n <= |cs|
  {
    |listed| == n && forall i :: 0 <= i < n ==> listed[i] == Request(cs[i]).(id := i)
  }

  /** When a program uses its conditions in the order of their numbers, the compiler lists exactly these conditions with
      exactly these numbers. */
  lemma {:induction false} ListedInOrder(cs: seq<Efsm.Condition>, uses: seq<nat>, n: nat)
    requires Distinguished(cs) && InOrderOfUse(uses, n) && n <= |cs|
    requires forall k :: 0 <= k < |uses| ==> uses[k] < |cs|
    ensures ListsTable(Distinct(Requests(cs, uses)), cs, n)
    decreases |uses|
  {
    hide CanBeWritten, SameRequest, Request, Distinct, ListsTable, Occurs;
    DistinctMore(Requests(cs, uses));
    if uses == [] {
      NoneListed(cs);
    } else {
      var front, last := uses[..|uses| - 1], uses[|uses| - 1];
      assert Requests(cs, uses)[..|uses| - 1] == Requests(cs, front);
      var before := Distinct(Requests(cs, front));
      if last < n && InOrderOfUse(front, n) {
        ListedInOrder(cs, front, n);
        UsedAgain(before, cs, last, n);
      } else {
        ListedInOrder(cs, front, n - 1);
        UsedFirst(before, cs, last);
      }
    }
  }

  lemma NoneListed(cs: seq<Efsm.Condition>)
    requires Distinguished(cs)
    ensures ListsTable([], cs, 0)
  {
  }

  lemma DistinctMore(requests: seq<Condition>)
    ensures requests == [] ==> Distinct(requests) == []
    ensures requests != [] ==>
      var before, last := Distinct(requests[..|requests| - 1]), requests[|requests| - 1];
      Distinct(requests) == if Occurs(before, last) then before else before + [last.(id := |before|)]
  {
  }

  lemma UsedAgain(listed: seq<Condition>, cs: seq<Efsm.Condition>, i: nat, n: nat)
    requires Distinguished(cs) && i < n <= |cs| && ListsTable(listed, cs, n)
    ensures Occurs(listed, Request(cs[i]))
  {
    hide CanBeWritten, SameRequest, Request, Same;
    SameRequested(cs, i, i);
    assert Same(listed[i], Request(cs[i]));
  }

  lemma UsedFirst(listed: seq<Condition>, cs: seq<Efsm.Condition>, n: nat)
    requires Distinguished(cs) && n < |cs| && ListsTable(listed, cs, n)
    ensures !Occurs(listed, Request(cs[n])) && |listed| == n
    ensures ListsTable(listed + [Request(cs[n]).(id := n)], cs, n + 1)
  {
    hide CanBeWritten, SameRequest, Request, Same;
    forall i | 0 <= i < |listed| ensures !Same(listed[i], Request(cs[n])) {
      if Same(listed[i], Request(cs[n])) {
        RequestedApart(cs, i, n, i);
      }
    }
  }

  lemma SameRequested(cs: seq<Efsm.Condition>, i: nat, m: nat)
    requires Distinguished(cs) && i < |cs|
    ensures Same(Request(cs[i]).(id := m), Request(cs[i]))
  {
    SameIsEquivalence(Request(cs[i]), Request(cs[i]), Request(cs[i]));
  }

  /** Interns the conditions of a program as they come up: the numbers handed out are the places of the conditions in
      the table, and the factory lists the table's conditions. */
  method NumberConditions(cs: seq<Efsm.Condition>, uses: seq<nat>, factory: Factory) returns (ids: seq<nat>)
    requires Distinguished(cs) && InOrderOfUse(uses, |cs|)
    requires forall k :: 0 <= k < |uses| ==> uses[k] < |cs|
    requires factory.Valid() && factory.conditions == []
    modifies factory
    ensures ids == uses && factory.Valid() && |factory.conditions| == |cs|
    ensures forall i :: 0 <= i < |cs| ==> factory.conditions[i].key == Request(cs[i]).(id := i)
  {
    hide InOrderOfUse, Distinguished, Request, Distinct;
    ListedInOrder(cs, uses, |cs|);
    ids := factory.InternAll(Requests(cs, uses));
    forall k | 0 <= k < |uses| ensures ids[k] == uses[k] {
      RequestedApart(cs, ids[k], uses[k], ids[k]);
    }
  }

  // ---------------------------------------------------------------- the three programs

  /** The condition numbers in a list of ifs, in the order in which they are written. */
  function Uses(ifs: seq<XlBlocks.If>): seq<nat> {
    if ifs == [] then [] else ifs[0].conditions + Uses(ifs[1..])
  }

  lemma TwoUses(i: XlBlocks.If, j: XlBlocks.If)
    ensures Uses([i, j]) == i.conditions + j.conditions
  {
    assert [i, j][1..] == [j] && [j][1..] == [];
    assert Uses([j]) == j.conditions + [] == j.conditions;
  }

  lemma ThreeUses(i: XlBlocks.If, j: XlBlocks.If, k: XlBlocks.If)
    ensures Uses([i, j, k]) == i.conditions + (j.conditions + k.conditions)
  {
    assert [i, j, k][1..] == [j, k];
    TwoUses(j, k);
  }

  lemma InOrder(uses: seq<nat>, last: nat, n: nat)
    requires InOrderOfUse(uses, n) && last <= n
    ensures InOrderOfUse(uses + [last], if last < n then n else n + 1)
  {
    assert (uses + [last])[..|uses|] == uses;
  }

  /** The numbers 0 to n - 1, each used once. */
  lemma {:induction false} Ascending(n: nat)
    ensures InOrderOfUse(seq(n, i => i), n)
  {
    if n > 0 {
      Ascending(n - 1);
      assert seq(n, i => i) == seq(n - 1, i => i) + [n - 1];
      InOrder(seq(n - 1, i => i), n - 1, n - 1);
    }
  }

  lemma PolicerNumbers()
    ensures Distinguished(Policer.CONDITIONS)
    ensures InOrderOfUse(Uses(Programs.POLICER_IFS), |Policer.CONDITIONS|)
  {
    var ifs := Programs.POLICER_IFS;
    ThreeUses(ifs[0], ifs[1], ifs[2]);
    assert Uses(ifs) == [0] + ([1, 2] + [3]) == seq(4, i => i);
    Ascending(4);
  }

  lemma PortKnockingNumbers()
    ensures Distinguished(PortKnocking.CONDITIONS)
    ensures InOrderOfUse([0, 1, 2, 3, 4], |PortKnocking.CONDITIONS|)
  {
    assert [0, 1, 2, 3, 4] == seq(5, i => i);
    Ascending(5);
  }

  lemma LoadBalancerNumbers()
    ensures Distinguished(LoadBalancer.CONDITIONS)
    ensures InOrderOfUse(Uses(Programs.BALANCER_IFS), |LoadBalancer.CONDITIONS|)
  {
    var ifs := Programs.BALANCER_IFS;
    TwoUses(ifs[0], ifs[1]);
    assert Uses(ifs) == [0, 1] + [0, 2] == seq(2, i => i) + [0] + [2];
    Ascending(2);
    InOrder(seq(2, i => i), 0, 2);
    InOrder(seq(2, i => i) + [0], 2, 2);
  }

  lemma ElephantNumbers()
    ensures Distinguished(Elephant.CONDITIONS)
    ensures InOrderOfUse(Uses(Programs.ELEPHANT_IFS), |Elephant.CONDITIONS|)
  {
    var ifs := Programs.ELEPHANT_IFS;
    TwoUses(ifs[0], ifs[1]);
    assert Uses(ifs) == [0] + [1] == seq(2, i => i);
    Ascending(2);
  }
}
