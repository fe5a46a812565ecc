/** The programs on fresh tables: what happens to the frames themselves. */
module ProgramRuns {
  import opened Bytes
  import opened Packet
  import opened Headers
  import opened FlowKey
  import opened Efsm
  import opened Engine
  import opened Runs
  import opened TableRuns
  import Frames
  import Capacity
  import Policer
  import PortKnocking
  import Elephant

  // ---------------------------------------------------------------- flows by address

  /** The source address of a frame, or both addresses, as they stand in it. */
  function Address(f: Frame, both: bool): (r: bytes)
    requires Received(f)
    ensures |r| == if both then 8 else 4
  {
    if both then f.data[26..34] else f.data[26..30]
  }

  /** The key fields that make up these addresses. */
  function AddressFields(both: bool): KeySpec { KeySpec(if both then [Ipv4Src, Ipv4Dst] else [Ipv4Src], 0) }

  /** The key of the flow with an address. */
  function KeyFor(a: bytes, both: bool): Key
    requires |a| == if both then 8 else 4
  {
    var one := ZERO_KEY[0 := Frames.Number(a[..4])];
    if both then one[1 := Frames.Number(a[4..])] else one
  }

  function ViewOf(f: Frame): (v: View)
    requires Received(f)
    ensures ValidView(v)
  {
    Parse(f.data, f.port, f.now)
  }

  lemma AddressIsKey(f: Frame, both: bool)
    requires Received(f)
    ensures KeyOf(ZERO_KEY, AddressFields(both), ViewOf(f)) == KeyFor(Address(f, both), both)
  {
    hide Get, Extract;
    var spec, v, a := AddressFields(both), ViewOf(f), Address(f, both);
    assert a[..4] == f.data[26..30] && (both ==> a[4..] == f.data[30..34]);
    AddressFieldValues(f);
    var k := Extract(ZERO_KEY, spec, v, 0);
    forall i: nat | i < KEY_WORDS ensures k[i] == KeyFor(a, both)[i] {
      ExtractedKey(spec, v, i);
    }
  }

  lemma AddressFieldValues(f: Frame)
    requires Received(f)
    ensures Get(ViewOf(f), Ipv4Src) == Some(Frames.Number(f.data[26..30]))
    ensures Get(ViewOf(f), Ipv4Dst) == Some(Frames.Number(f.data[30..34]))
  {
    hide BigEndian, Frames.Number;
    Frames.NumberIsBigEndian(f.data[26..30]);
    Frames.NumberIsBigEndian(f.data[30..34]);
  }

  lemma NumberInjective(s: bytes, t: bytes)
    requires |s| == |t| == 4 && Frames.Number(s) == Frames.Number(t)
    ensures s == t
  {
    var x: nat, y: nat := s[0] as int * 256 + s[1], t[0] as int * 256 + t[1];
    var z: nat, w: nat := s[2] as int * 256 + s[3], t[2] as int * 256 + t[3];
    assert x * 0x1_0000 + z == y * 0x1_0000 + w;
    HighAndLow(x, z, y, w);
    HighByteAndLow(s[0], s[1], t[0], t[1]);
    HighByteAndLow(s[2], s[3], t[2], t[3]);
  }

  lemma HighAndLow(x: nat, z: nat, y: nat, w: nat)
    requires z < 0x1_0000 && w < 0x1_0000 && x * 0x1_0000 + z == y * 0x1_0000 + w
    ensures x == y && z == w
  {
  }

  lemma HighByteAndLow(x: nat, z: nat, y: nat, w: nat)
    requires z < 256 && w < 256 && x * 256 + z == y * 256 + w
    ensures x == y && z == w
  {
  }

  lemma KeyForInjective(a: bytes, b: bytes, both: bool)
    requires |a| == |b| == if both then 8 else 4
    ensures KeyFor(a, both) == KeyFor(b, both) <==> a == b
  {
    hide Frames.Number;
    if KeyFor(a, both) == KeyFor(b, both) {
      assert KeyFor(a, both)[0] == Frames.Number(a[..4]) && KeyFor(b, both)[0] == Frames.Number(b[..4]);
      NumberInjective(a[..4], b[..4]);
      assert a[..4] == b[..4];
      if both {
        assert KeyFor(a, both)[1] == Frames.Number(a[4..]);
        NumberInjective(a[4..], b[4..]);
        assert a == a[..4] + a[4..] && b == b[..4] + b[4..];
      } else {
        assert a == a[..4] && b == b[..4];
      }
    }
  }

  /** The addresses that frames have. */
  function Addresses(frames: seq<Frame>, both: bool): set<bytes>
    requires AllReceived(frames)
  {
    if frames == [] then {} else {Address(frames[0], both)} + Addresses(frames[1..], both)
  }

  lemma {:induction false} AddressesHaveLength(frames: seq<Frame>, both: bool)
    requires AllReceived(frames)
    ensures forall a :: a in Addresses(frames, both) ==> |a| == if both then 8 else 4
  {
    if frames != [] {
      AddressesHaveLength(frames[1..], both);
    }
  }

  // ---------------------------------------------------------------- runs of frames

  /** The packets of a trace of frames, with their keys. */
  function TraceOf(p: Program, frames: seq<Frame>): (r: Trace)
    requires p.Valid() && AllReceived(frames)
    ensures |r| == |frames|
  {
    Arrivals(p, Views(frames))
  }

  /** A program whose flows are told apart by addresses. */
  predicate ByAddress(p: Program, both: bool) {
    p.Valid() && p.key == AddressFields(both) && p.initialState == 0 && Capacity.SteadyProgram(p)
  }

  lemma {:induction false} ArrivalAt(p: Program, views: seq<View>, i: nat)
    requires p.Valid() && i < |views| && forall j :: 0 <= j < |views| ==> ValidView(views[j])
    ensures Arrivals(p, views)[i] == Arrival(KeyOf(ZERO_KEY, p.key, views[i]), views[i])
    decreases i
  {
    hide FlowKey.KeyOf;
    if i > 0 {
      ArrivalAt(p, views[1..], i - 1);
      assert Arrivals(p, views)[1..] == Arrivals(p, views[1..]);
    }
  }

  lemma FrameArrives(p: Program, both: bool, frames: seq<Frame>, i: nat)
    requires ByAddress(p, both) && AllReceived(frames) && i < |frames|
    ensures TraceOf(p, frames)[i] == Arrival(KeyFor(Address(frames[i], both), both), ViewOf(frames[i]))
  {
    hide FlowKey.KeyOf, KeyFor, Arrivals;
    ArrivalAt(p, Views(frames), i);
    AddressIsKey(frames[i], both);
  }

  /** A run on a fresh table, with every key extracted on its own. */
  lemma FreshRun(p: Program, both: bool, frames: seq<Frame>)
    requires ByAddress(p, both) && AllReceived(frames)
    ensures RunBuffered(p, Fresh(p), ZERO_KEY, Views(frames)) == Run(p, Fresh(p), TraceOf(p, frames))
  {
    hide RunBuffered, Run, Arrivals, FlowKey.KeyOf, Views;
    KeysAreTheirOwn(p, Fresh(p), ZERO_KEY, Views(frames));
  }

  lemma TraceMore(p: Program, frames: seq<Frame>)
    requires p.Valid() && AllReceived(frames) && frames != []
    ensures TraceOf(p, frames)[1..] == TraceOf(p, frames[1..])
  {
    hide FlowKey.KeyOf;
    assert Views(frames)[1..] == Views(frames[1..]);
  }

  /** There are as many flows as addresses. */
  lemma {:induction false} FlowsAreAddresses(p: Program, both: bool, frames: seq<Frame>)
    requires ByAddress(p, both) && AllReceived(frames)
    ensures |Capacity.Flows(TraceOf(p, frames))| == |Addresses(frames, both)|
    ensures forall a: bytes | |a| == (if both then 8 else 4) ::
      a in Addresses(frames, both) <==> KeyFor(a, both) in Capacity.Flows(TraceOf(p, frames))
  {
    hide TraceOf, KeyFor, Address, Capacity.SteadyProgram;
    if frames != [] {
      TraceMore(p, frames);
      FrameArrives(p, both, frames, 0);
      FlowsAreAddresses(p, both, frames[1..]);
      var first, rest := Address(frames[0], both), Addresses(frames[1..], both);
      forall a: bytes | |a| == (if both then 8 else 4)
        ensures KeyFor(a, both) == KeyFor(first, both) <==> a == first {
        KeyForInjective(a, first, both);
      }
      var flows := Capacity.Flows(TraceOf(p, frames[1..]));
      assert Capacity.Flows(TraceOf(p, frames)) == {KeyFor(first, both)} + flows;
      if first in rest {
        assert {first} + rest == rest && {KeyFor(first, both)} + flows == flows;
      }
    }
  }

  /** A run on a fresh table goes through to the end exactly when there is room for all flows. */
  lemma RoomExactly(p: Program, both: bool, frames: seq<Frame>)
    requires ByAddress(p, both) && AllReceived(frames)
    ensures RunBuffered(p, Fresh(p), ZERO_KEY, Views(frames)).Some? <==> |Addresses(frames, both)| < MAX_INSTANCES
  {
    hide Run, RunBuffered, TraceOf, Addresses, Capacity.Flows, Capacity.SteadyProgram;
    FreshRun(p, both, frames);
    FlowsAreAddresses(p, both, frames);
    Capacity.CompletesExactly(p, TraceOf(p, frames));
  }

  /** A program on a fresh table, with or without a cache. */
  method RunFresh(p: Program, ghost both: bool, cached: bool, fields: PacketFields, frames: seq<Frame>)
    returns (ok: bool, sent: seq<seq<nat>>, left: seq<bytes>)
    requires ByAddress(p, both) && Loadable(p) && AllReceived(frames)
    modifies fields
    ensures ok <==> |Addresses(frames, both)| < MAX_INSTANCES
    ensures ok ==> |sent| == |left| == |frames| && Run(p, Fresh(p), TraceOf(p, frames)).Some?
    ensures ok ==> Sends(sent, left, Run(p, Fresh(p), TraceOf(p, frames)).value.verdicts)
  {
    hide Run, RunBuffered, TraceOf, Views, Addresses, Sends, Capacity.SteadyProgram, XfsmTable.PoolValid,
      XfsmTable.TableValid, XfsmTable.CacheValid, FlowKey.KeyOf, Loadable;
    var table := new XfsmTable(p, cached);
    var fk := new nat[KEY_WORDS](_ => 0);
    assert fk[..] == ZERO_KEY;
    ok, sent, left := RunTrace(table, fields, fk, frames);
    FreshRun(p, both, frames);
    RoomExactly(p, both, frames);
  }

  /** No row sets a field. */
  predicate LeavesPackets(p: Program) {
    forall i, j :: 0 <= i < |p.rows| && 0 <= j < |p.rows[i].actions| ==> !p.rows[i].actions[j].kind.SetField?
  }

  lemma {:induction false} ExecuteLeaves(actions: seq<Action>, c: Context)
    requires ValidView(c.view) && forall j :: 0 <= j < |actions| ==> !actions[j].kind.SetField?
    ensures Execute(actions, c).Some? ==> Execute(actions, c).value.view == c.view
    decreases |actions|
  {
    hide Loaded, Compute;
    if actions != [] {
      var d := Perform(actions[0].kind, Loaded(actions[0], c));
      if d.Some? {
        ExecuteLeaves(actions[1..], d.value);
      }
    }
  }

  lemma AdvanceLeaves(p: Program, m: Machine, k: Key, v: View)
    requires p.Valid() && LeavesPackets(p) && ValidView(v)
    ensures Advance(p, m, k, v).Some? ==> Advance(p, m, k, v).value.1.view == v
  {
    hide Execute, EvaluateAll, Fits;
    var n := WithFlow(p, m, k);
    if n.Some? {
      var f := n.value.flows[k];
      var row := FirstMatch(p.rows, f.state, EvaluateAll(p.conditions, f.local, n.value.global, v));
      if row.Some? {
        ExecuteLeaves(row.value.actions, Started(f.local, n.value.global, v));
      }
    }
  }

  /** Frames leave as they came when no row sets a field. */
  lemma FramesLeave(p: Program, both: bool, frames: seq<Frame>, sent: seq<seq<nat>>, left: seq<bytes>)
    requires ByAddress(p, both) && LeavesPackets(p) && AllReceived(frames) && |left| == |frames|
    requires Run(p, Fresh(p), TraceOf(p, frames)).Some?
    requires Sends(sent, left, Run(p, Fresh(p), TraceOf(p, frames)).value.verdicts)
    ensures forall i :: 0 <= i < |frames| ==> left[i] == frames[i].data
  {
    hide Run, TraceOf, Advance, LeavesPackets, Capacity.SteadyProgram, KeyFor, Fresh;
    forall i | 0 <= i < |frames| ensures left[i] == frames[i].data {
      FrameArrives(p, both, frames, i);
      var trace := TraceOf(p, frames);
      RunPrefix(p, Fresh(p), trace, i);
      AdvanceLeaves(p, Run(p, Fresh(p), trace[..i]).value.machine, trace[i].key, trace[i].view);
    }
  }

  // ---------------------------------------------------------------- the policer

  /** The times at which frames from a source were sent on. */
  function SentTimes(frames: seq<Frame>, sent: seq<seq<nat>>, source: bytes): seq<int>
    requires AllReceived(frames) && |sent| == |frames|
  {
    if frames == [] then []
    else
      (if Address(frames[0], false) == source && sent[0] != [] then [frames[0].now] else [])
      + SentTimes(frames[1..], sent[1..], source)
  }

  lemma {:induction false} SentIsForwarded(frames: seq<Frame>, sent: seq<seq<nat>>, left: seq<bytes>,
                                           verdicts: seq<Verdict>, source: bytes)
    requires AllReceived(frames) && |sent| == |frames| && Sends(sent, left, verdicts)
    requires ByAddress(Policer.PROGRAM, false)
    ensures |source| == 4 ==>
      SentTimes(frames, sent, source)
      == Policer.Forwarded(TraceOf(Policer.PROGRAM, frames), verdicts, KeyFor(source, false))
    ensures |source| != 4 ==> SentTimes(frames, sent, source) == []
  {
    hide TraceOf, KeyFor, ByAddress;
    if frames != [] {
      TraceMore(Policer.PROGRAM, frames);
      FrameArrives(Policer.PROGRAM, false, frames, 0);
      SentIsForwarded(frames[1..], sent[1..], left[1..], verdicts[1..], source);
      if |source| == 4 {
        KeyForInjective(Address(frames[0], false), source, false);
      }
    }
  }

  lemma PolicerByAddress()
    ensures ByAddress(Policer.PROGRAM, false) && LeavesPackets(Policer.PROGRAM)
  {
  }

  /** In a time of any length no more frames are sent on than one for every 64 microseconds, but for a burst that makes
      up for 65440 microseconds. */
  predicate RateIsBounded(times: seq<int>) {
    forall i, j :: 0 <= i < j < |times| ==> (j - i - 1) * 64 < times[j] - times[i] + 65440
  }

  /** The time up to which no further frame is sent on, after frames that were sent on at some times: every one of them
      moves it on by 64 microseconds, and it is never more than 65440 microseconds behind the last one. */
  function Floor(times: seq<int>): int
    requires times != []
  {
    var last := times[|times| - 1] - 65440;
    if |times| == 1 then last
    else
      var before := Floor(times[..|times| - 1]) + 64;
      if before < last then last else before
  }

  /** A frame is sent on by port 1, which is 0 when counted from zero, exactly when it is the first one of its source or
      comes behind the time up to which none is. */
  predicate Policed(frames: seq<Frame>, sent: seq<seq<nat>>, i: nat)
    requires AllReceived(frames) && i < |frames| == |sent|
  {
    var times := SentTimes(frames[..i], sent[..i], Address(frames[i], false));
    sent[i] == if times == [] || frames[i].now > Floor(times) then [0] else []
  }

  /** The policer on a fresh table, with or without a cache: which of the frames of a source are sent on depends on
      nothing but their times, their rate is bounded, and they leave as they came. The run goes through unless there are
      a million sources. */
  method RunPolicer(cached: bool, fields: PacketFields, frames: seq<Frame>)
    returns (ok: bool, sent: seq<seq<nat>>, left: seq<bytes>)
    requires AllReceived(frames) && forall i :: 0 <= i < |frames| ==> frames[i].now < HALF64 - 0x2_0000
    modifies fields
    ensures ok <==> |Addresses(frames, false)| < 1_000_000
    ensures ok ==> |sent| == |left| == |frames| && forall i :: 0 <= i < |frames| ==> left[i] == frames[i].data
    ensures ok ==> forall source :: RateIsBounded(SentTimes(frames, sent, source))
    ensures ok ==> forall i :: 0 <= i < |frames| ==> Policed(frames, sent, i)
  {
    hide Policed, Run, TraceOf, RateIsBounded, SentTimes, Addresses, ByAddress, LeavesPackets, Sends, Loadable;
    Policer.Loads();
    PolicerByAddress();
    ok, sent, left := RunFresh(Policer.PROGRAM, false, cached, fields, frames);
    if ok {
      FramesLeave(Policer.PROGRAM, false, frames, sent, left);
      PolicerBounds(frames, sent, left);
      forall i | 0 <= i < |frames| ensures Policed(frames, sent, i) {
        PolicerPolices(frames, sent, left, i);
      }
    }
  }

  lemma {:induction false} SameFloor(times: seq<int>)
    requires times != []
    ensures Floor(times) == Policer.Floor(times)
  {
    if |times| > 1 {
      SameFloor(times[..|times| - 1]);
    }
  }

  lemma AllFramesInTime(frames: seq<Frame>)
    requires AllReceived(frames) && forall i :: 0 <= i < |frames| ==> frames[i].now < HALF64 - 0x2_0000
    requires ByAddress(Policer.PROGRAM, false)
    ensures Policer.AllInTime(TraceOf(Policer.PROGRAM, frames))
  {
    hide TraceOf, ByAddress, KeyFor;
    forall i | 0 <= i < |frames| ensures Policer.InTime(TraceOf(Policer.PROGRAM, frames)[i].view) {
      FrameArrives(Policer.PROGRAM, false, frames, i);
    }
  }

  lemma PolicerPolices(frames: seq<Frame>, sent: seq<seq<nat>>, left: seq<bytes>, i: nat)
    requires AllReceived(frames) && forall i :: 0 <= i < |frames| ==> frames[i].now < HALF64 - 0x2_0000
    requires i < |frames| == |sent| && ByAddress(Policer.PROGRAM, false)
    requires Run(Policer.PROGRAM, Fresh(Policer.PROGRAM), TraceOf(Policer.PROGRAM, frames)).Some?
    requires Sends(sent, left,
      Run(Policer.PROGRAM, Fresh(Policer.PROGRAM), TraceOf(Policer.PROGRAM, frames)).value.verdicts)
    ensures Policed(frames, sent, i)
  {
    hide Run, TraceOf, SentTimes, Policer.Forwarded, ByAddress, KeyFor, Fresh, Floor, Policer.Floor, Policer.AllInTime;
    var trace, source := TraceOf(Policer.PROGRAM, frames), Address(frames[i], false);
    var r := Run(Policer.PROGRAM, Fresh(Policer.PROGRAM), trace).value;
    AllFramesInTime(frames);
    FrameArrives(Policer.PROGRAM, false, frames, i);
    TracePrefix(Policer.PROGRAM, frames, i);
    SentIsForwarded(frames[..i], sent[..i], left[..i], r.verdicts[..i], source);
    Policer.ForwardsExactly(trace, r, i);
    var times := SentTimes(frames[..i], sent[..i], source);
    if times != [] {
      SameFloor(times);
    }
  }

  lemma PolicerBounds(frames: seq<Frame>, sent: seq<seq<nat>>, left: seq<bytes>)
    requires AllReceived(frames) && forall i :: 0 <= i < |frames| ==> frames[i].now < HALF64 - 0x2_0000
    requires |sent| == |frames| && ByAddress(Policer.PROGRAM, false)
    requires Run(Policer.PROGRAM, Fresh(Policer.PROGRAM), TraceOf(Policer.PROGRAM, frames)).Some?
    requires Sends(sent, left,
      Run(Policer.PROGRAM, Fresh(Policer.PROGRAM), TraceOf(Policer.PROGRAM, frames)).value.verdicts)
    ensures forall source :: RateIsBounded(SentTimes(frames, sent, source))
  {
    hide Run, TraceOf, RateIsBounded, Policer.RateBound, SentTimes, Policer.Forwarded, ByAddress, KeyFor, Fresh, Sends;
    var trace := TraceOf(Policer.PROGRAM, frames);
    forall i | 0 <= i < |frames| ensures Policer.InTime(trace[i].view) {
      FrameArrives(Policer.PROGRAM, false, frames, i);
    }
    var r := Run(Policer.PROGRAM, Fresh(Policer.PROGRAM), trace).value;
    forall source ensures RateIsBounded(SentTimes(frames, sent, source)) {
      SentIsForwarded(frames, sent, left, r.verdicts, source);
      if |source| == 4 {
        Policer.RateIsBounded(trace, r, KeyFor(source, false));
        InNumbers(SentTimes(frames, sent, source));
      } else {
        InNumbers([]);
      }
    }
  }

  lemma InNumbers(times: seq<int>)
    ensures Policer.RateBound(times) || times == [] ==> RateIsBounded(times)
  {
  }

  // ---------------------------------------------------------------- the firewall

  /** The destination port of a TCP frame, and 0 for other frames. */
  function DestinationPort(f: Frame): int
    requires Received(f)
  {
    if f.data[23] == 6 then f.data[36] as int * 256 + f.data[37] else 0
  }

  lemma PortIsSeen(f: Frame)
    requires Received(f)
    ensures PortKnocking.Port(ViewOf(f)) == DestinationPort(f)
  {
    BigEndianSlice(f.data, 36);
  }

  /** The ports that a source has tried. */
  function Tried(frames: seq<Frame>, source: bytes): seq<int>
    requires AllReceived(frames)
  {
    if frames == [] then []
    else (if Address(frames[0], false) == source then [DestinationPort(frames[0])] else []) + Tried(frames[1..], source)
  }

  lemma {:induction false} TriedIsPorts(frames: seq<Frame>, source: bytes)
    requires AllReceived(frames) && ByAddress(PortKnocking.PROGRAM, false) && |source| == 4
    ensures Tried(frames, source) == PortKnocking.Ports(TraceOf(PortKnocking.PROGRAM, frames), KeyFor(source, false))
  {
    hide TraceOf, KeyFor, ByAddress, PortKnocking.Port, DestinationPort;
    if frames != [] {
      TraceMore(PortKnocking.PROGRAM, frames);
      FrameArrives(PortKnocking.PROGRAM, false, frames, 0);
      TriedIsPorts(frames[1..], source);
      KeyForInjective(Address(frames[0], false), source, false);
      PortIsSeen(frames[0]);
    }
  }

  lemma {:induction false} TracePrefix(p: Program, frames: seq<Frame>, i: nat)
    requires p.Valid() && AllReceived(frames) && i <= |frames|
    ensures TraceOf(p, frames)[..i] == TraceOf(p, frames[..i])
    decreases i
  {
    hide TraceOf;
    if i == 0 {
      assert frames[..0] == [];
      assert TraceOf(p, frames)[..0] == [] && |TraceOf(p, frames[..0])| == 0;
    } else {
      TraceMore(p, frames);
      TraceMore(p, frames[..i]);
      TracePrefix(p, frames[1..], i - 1);
      assert frames[..i][1..] == frames[1..][..i - 1];
      FirstFrame(p, frames, i);
      var t, u := TraceOf(p, frames), TraceOf(p, frames[..i]);
      assert t[..i] == [t[0]] + t[1..][..i - 1] && u == [u[0]] + u[1..];
    }
  }

  lemma FirstFrame(p: Program, frames: seq<Frame>, i: nat)
    requires p.Valid() && AllReceived(frames) && 0 < i <= |frames|
    ensures TraceOf(p, frames)[0] == TraceOf(p, frames[..i])[0]
  {
    hide FlowKey.KeyOf;
  }

  /** The ports that a frame leaves by: port 2, which is 1 when counted from zero, if it goes to port 22 and its source
      has knocked on all four ports in order before, and none otherwise. */
  ghost predicate Guarded(frames: seq<Frame>, i: nat, sent: seq<nat>)
    requires AllReceived(frames) && i < |frames|
  {
    var open := PortKnocking.Subsequence([2570, 2827, 3084, 5555], Tried(frames[..i], Address(frames[i], false)));
    sent == if open && DestinationPort(frames[i]) == 22 then [1] else []
  }

  lemma FirewallByAddress()
    ensures ByAddress(PortKnocking.PROGRAM, false) && LeavesPackets(PortKnocking.PROGRAM)
  {
  }

  /** The firewall on a fresh table, with or without a cache: whatever frames arrive, those that are sent on are exactly
      the ones to port 22 whose source has knocked on all four ports in order before, and they leave as they came. The
      run goes through unless there are a million sources. */
  method RunFirewall(cached: bool, fields: PacketFields, frames: seq<Frame>)
    returns (ok: bool, sent: seq<seq<nat>>, left: seq<bytes>)
    requires AllReceived(frames)
    modifies fields
    ensures ok <==> |Addresses(frames, false)| < 1_000_000
    ensures ok ==> |sent| == |left| == |frames| && forall i :: 0 <= i < |frames| ==> left[i] == frames[i].data
    ensures ok ==> forall i :: 0 <= i < |frames| ==> Guarded(frames, i, sent[i])
  {
    hide Run, TraceOf, Guarded, Addresses, ByAddress, LeavesPackets, Sends, Loadable;
    PortKnocking.Loads();
    FirewallByAddress();
    ok, sent, left := RunFresh(PortKnocking.PROGRAM, false, cached, fields, frames);
    if ok {
      FramesLeave(PortKnocking.PROGRAM, false, frames, sent, left);
      forall i | 0 <= i < |frames| ensures Guarded(frames, i, sent[i]) {
        FirewallGuards(frames, sent, left, i);
      }
    }
  }

  lemma FirewallGuards(frames: seq<Frame>, sent: seq<seq<nat>>, left: seq<bytes>, i: nat)
    requires AllReceived(frames) && i < |frames| == |sent| && ByAddress(PortKnocking.PROGRAM, false)
    requires Run(PortKnocking.PROGRAM, Fresh(PortKnocking.PROGRAM), TraceOf(PortKnocking.PROGRAM, frames)).Some?
    requires Sends(sent, left,
      Run(PortKnocking.PROGRAM, Fresh(PortKnocking.PROGRAM), TraceOf(PortKnocking.PROGRAM, frames)).value.verdicts)
    ensures Guarded(frames, i, sent[i])
  {
    hide Run, TraceOf, Advance, PortKnocking.Port, PortKnocking.Ports, PortKnocking.Subsequence, Fresh, KeyFor,
      Tried, DestinationPort, ByAddress;
    var trace := TraceOf(PortKnocking.PROGRAM, frames);
    FrameArrives(PortKnocking.PROGRAM, false, frames, i);
    TracePrefix(PortKnocking.PROGRAM, frames, i);
    TriedIsPorts(frames[..i], Address(frames[i], false));
    PortIsSeen(frames[i]);
    RunPrefix(PortKnocking.PROGRAM, Fresh(PortKnocking.PROGRAM), trace, i);
    var before := Run(PortKnocking.PROGRAM, Fresh(PortKnocking.PROGRAM), trace[..i]).value;
    PortKnocking.OpensAfterKnocks(trace[..i], before, trace[i].key, trace[i].view);
  }

  // ---------------------------------------------------------------- the elephant detector

  /** The frames from one address to another. */
  function FramesBetween(frames: seq<Frame>, ends: bytes): nat
    requires AllReceived(frames)
  {
    if frames == [] then 0
    else (if Address(frames[0], true) == ends then 1 else 0) + FramesBetween(frames[1..], ends)
  }

  lemma {:induction false} FramesArePackets(frames: seq<Frame>, ends: bytes)
    requires AllReceived(frames) && ByAddress(Elephant.PROGRAM, true) && |ends| == 8
    ensures FramesBetween(frames, ends) == Elephant.Packets(TraceOf(Elephant.PROGRAM, frames), KeyFor(ends, true))
  {
    hide TraceOf, KeyFor, ByAddress;
    if frames != [] {
      TraceMore(Elephant.PROGRAM, frames);
      FrameArrives(Elephant.PROGRAM, true, frames, 0);
      FramesArePackets(frames[1..], ends);
      KeyForInjective(Address(frames[0], true), ends, true);
    }
  }

  /** A frame is marked when 151 frames have gone between the same addresses before it; for the addresses of the very
      first frame, one is enough. */
  predicate Marked(frames: seq<Frame>, i: nat)
    requires AllReceived(frames) && i < |frames|
  {
    var ends := Address(frames[i], true);
    FramesBetween(frames[..i], ends) >= if Address(frames[0], true) == ends then 1 else 151
  }

  lemma ElephantByAddress()
    ensures ByAddress(Elephant.PROGRAM, true)
  {
  }

  /** The elephant detector on a fresh table, with or without a cache: every frame is sent on by port 1, which is 0 when
      counted from zero. Marked ones leave with 150 as their type of service, and no other byte of any frame changes. */
  method RunElephant(cached: bool, fields: PacketFields, frames: seq<Frame>)
    returns (ok: bool, sent: seq<seq<nat>>, left: seq<bytes>)
    requires AllReceived(frames)
    modifies fields
    ensures ok <==> |Addresses(frames, true)| < 1_000_000
    ensures ok ==> |sent| == |left| == |frames|
    ensures ok ==> forall i :: 0 <= i < |frames| ==>
      sent[i] == [0] && left[i] == if Marked(frames, i) then frames[i].data[15 := 150] else frames[i].data
  {
    hide Run, TraceOf, Marked, Addresses, ByAddress, Sends, Loadable;
    Elephant.Loads();
    ElephantByAddress();
    ok, sent, left := RunFresh(Elephant.PROGRAM, true, cached, fields, frames);
    if ok {
      forall i | 0 <= i < |frames|
        ensures sent[i] == [0]
        ensures left[i] == if Marked(frames, i) then frames[i].data[15 := 150] else frames[i].data {
        ElephantMarks(frames, sent, left, i);
      }
    }
  }

  lemma ElephantMarks(frames: seq<Frame>, sent: seq<seq<nat>>, left: seq<bytes>, i: nat)
    requires AllReceived(frames) && i < |frames| == |sent| == |left| && ByAddress(Elephant.PROGRAM, true)
    requires Run(Elephant.PROGRAM, Fresh(Elephant.PROGRAM), TraceOf(Elephant.PROGRAM, frames)).Some?
    requires Sends(sent, left,
      Run(Elephant.PROGRAM, Fresh(Elephant.PROGRAM), TraceOf(Elephant.PROGRAM, frames)).value.verdicts)
    ensures sent[i] == [0]
    ensures left[i] == if Marked(frames, i) then frames[i].data[15 := 150] else frames[i].data
  {
    hide Run, TraceOf, Elephant.Packets, Elephant.Leaves, Fresh, KeyFor, FramesBetween, ByAddress;
    var trace, ends := TraceOf(Elephant.PROGRAM, frames), Address(frames[i], true);
    FrameArrives(Elephant.PROGRAM, true, frames, i);
    FrameArrives(Elephant.PROGRAM, true, frames, 0);
    TracePrefix(Elephant.PROGRAM, frames, i);
    FramesArePackets(frames[..i], ends);
    KeyForInjective(Address(frames[0], true), ends, true);
    Elephant.MarksElephants(trace, Run(Elephant.PROGRAM, Fresh(Elephant.PROGRAM), trace).value, i);
    MarkIsByte(frames[i], Marked(frames, i));
  }

  lemma MarkIsByte(f: Frame, marked: bool)
    requires Received(f)
    ensures Elephant.Leaves(ViewOf(f), marked).data == if marked then f.data[15 := 150] else f.data
  {
    assert ToBigEndian(150, 1) == [150] by {
      assert ToBigEndian(150 / 256, 0) == [];
    }
  }
}
