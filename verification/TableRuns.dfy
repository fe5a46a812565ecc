/** Running the engine's own table, with its pool, its hash and its cache, over a whole trace of received frames. */
module TableRuns {
  import opened Bytes
  import opened Packet
  import opened Headers
  import opened FlowKey
  import opened Efsm
  import opened Engine
  import opened Runs

  /** A frame as it is received: its bytes, the port it came in by and the time. */
  datatype Frame = Frame(data: bytes, port: byte, now: nat)

  predicate Received(f: Frame) { |f.data| >= MIN_FRAME && KnownTransport(f.data[23]) && f.now < WORD64 }

  predicate AllReceived(frames: seq<Frame>) { forall i :: 0 <= i < |frames| ==> Received(frames[i]) }

  /** The packets as the engine sees them. */
  function Views(frames: seq<Frame>): (r: seq<View>)
    requires AllReceived(frames)
    ensures |r| == |frames| && forall i :: 0 <= i < |r| ==> ValidView(r[i])
    ensures forall i :: 0 <= i < |r| ==> r[i] == Parse(frames[i].data, frames[i].port, frames[i].now)
  {
    seq(|frames|, i requires 0 <= i < |frames| => Parse(frames[i].data, frames[i].port, frames[i].now))
  }

  /** What was done before, and then the rest. */
  function Continued(done: seq<Verdict>, r: Option<Outcomes>): Option<Outcomes> {
    match r
    case None => None
    case Some(o) => Some(o.(verdicts := done + o.verdicts))
  }

  lemma ContinuedOnce(done: seq<Verdict>, verdict: Verdict, r: Option<Outcomes>)
    ensures Continued(done + [verdict], r) == Continued(done, Continued([verdict], r))
    ensures Continued([], r) == r
  {
    if r.Some? {
      assert done + [verdict] + r.value.verdicts == done + ([verdict] + r.value.verdicts);
      assert [] + r.value.verdicts == r.value.verdicts;
    }
  }

  /** One packet less to go. */
  lemma RunOnce(p: Program, m: Machine, key: Key, views: seq<View>)
    requires p.Valid() && views != [] && forall i :: 0 <= i < |views| ==> ValidView(views[i])
    ensures var k := KeyOf(key, p.key, views[0]);
      var r := Advance(p, m, k, views[0]);
      RunBuffered(p, m, key, views)
      == if r.None? then None else Continued([r.value.1], RunBuffered(p, r.value.0, k, views[1..]))
  {
    hide FlowKey.KeyOf, Advance;
  }

  lemma RunDone(p: Program, m: Machine, key: Key)
    requires p.Valid()
    ensures RunBuffered(p, m, key, []) == Some(Outcomes(m, []))
  {
  }

  /** One received frame through the table. */
  method ReceiveFrame(table: XfsmTable, fields: PacketFields, fk: array<nat>, frame: Frame)
    returns (ok: bool, sent: seq<nat>, left: bytes, ghost verdict: Verdict)
    requires table.Valid() && fk.Length == KEY_WORDS && Received(frame)
    modifies table, table.pool, fields, fk
    ensures fk[..] == KeyOf(old(fk[..]), table.program.key, Parse(frame.data, frame.port, frame.now))
    ensures var r := Advance(table.program, old(table.Contents()), fk[..], Parse(frame.data, frame.port, frame.now));
      (ok <==> r.Some?) &&
      (ok ==> table.Valid() && r.value.0 == table.Contents() && r.value.1 == verdict && verdict.sent == sent &&
              verdict.view.data == left)
  {
    hide FlowKey.KeyOf, Advance, Parse, XfsmTable.PoolValid, XfsmTable.TableValid, XfsmTable.CacheValid,
      PacketFields.Valid;
    var data := new byte[|frame.data|](i requires 0 <= i < |frame.data| => frame.data[i]);
    assert data[..] == frame.data;
    var m := new Mbuf(data, frame.now);
    fields.ParsePktHeader(m, frame.port);
    ghost var view := fields.Seen();
    ghost var before := table.Contents();
    ProgramValid(table);
    verdict := Verdict(None, before.global, view, [], NULL_STAGE);
    var stage;
    ok, stage, sent := table.ProcessStage(fields, fk);
    left := [];
    if ok {
      left := fields.packet.data[..];
      verdict := Advance(table.program, before, fk[..], view).value.1;
    }
  }

  lemma ProgramValid(table: XfsmTable)
    requires table.Valid()
    ensures table.program.Valid()
  {
  }

  /** The ports that every frame of a run left by, and its bytes when it did. */
  ghost predicate Sends(sent: seq<seq<nat>>, left: seq<bytes>, verdicts: seq<Verdict>) {
    |sent| == |left| == |verdicts| &&
    forall i :: 0 <= i < |sent| ==> sent[i] == verdicts[i].sent && left[i] == verdicts[i].view.data
  }

  /** A whole trace of frames through the table: with or without a cache, it does what the run of the specification
      does, in which every key is extracted into the buffer of the one before. */
  method RunTrace(table: XfsmTable, fields: PacketFields, fk: array<nat>, frames: seq<Frame>)
    returns (ok: bool, sent: seq<seq<nat>>, left: seq<bytes>)
    requires table.Valid() && table.program.Valid() && fk.Length == KEY_WORDS && AllReceived(frames)
    modifies table, table.pool, fields, fk
    ensures var r := RunBuffered(table.program, old(table.Contents()), old(fk[..]), Views(frames));
      (ok <==> r.Some?) &&
      (ok ==> table.Valid() && table.Contents() == r.value.machine && Sends(sent, left, r.value.verdicts))
    ensures ok ==> |sent| == |left| == |frames|
  {
    hide FlowKey.KeyOf, Advance, Parse, RunBuffered, Continued, XfsmTable.PoolValid,
      XfsmTable.TableValid, XfsmTable.CacheValid, XfsmTable.Contents;
    ghost var p, views := table.program, Views(frames);
    ghost var goal := RunBuffered(p, table.Contents(), fk[..], views);
    ghost var verdicts: seq<Verdict> := [];
    sent, left := [], [];
    Whole(p, table.Contents(), fk[..], views);
    for i := 0 to |frames|
      invariant table.Valid() && |sent| == i && Sends(sent, left, verdicts)
      invariant goal == Continued(verdicts, RunBuffered(p, table.Contents(), fk[..], views[i..]))
    {
      ghost var m, key := table.Contents(), fk[..];
      var out, bytes;
      ghost var verdict;
      ok, out, bytes, verdict := ReceiveFrame(table, fields, fk, frames[i]);
      RunNext(p, m, key, views, i, verdicts);
      if !ok {
        return;
      }
      sent, left := sent + [out], left + [bytes];
      verdicts := verdicts + [verdict];
    }
    ok := true;
    Finished(p, table.Contents(), fk[..], views, verdicts);
  }

  lemma Whole(p: Program, m: Machine, key: Key, views: seq<View>)
    requires p.Valid() && forall i :: 0 <= i < |views| ==> ValidView(views[i])
    ensures RunBuffered(p, m, key, views) == Continued([], RunBuffered(p, m, key, views[0..]))
  {
    hide RunBuffered;
    assert views[0..] == views;
    ContinuedOnce([], Verdict(None, m.global, View([], 0, 0, 0), [], 0), RunBuffered(p, m, key, views));
  }

  /** The next packet of a run. */
  lemma RunNext(p: Program, m: Machine, key: Key, views: seq<View>, i: nat, done: seq<Verdict>)
    requires p.Valid() && i < |views| && forall i :: 0 <= i < |views| ==> ValidView(views[i])
    ensures var k := KeyOf(key, p.key, views[i]);
      var r := Advance(p, m, k, views[i]);
      Continued(done, RunBuffered(p, m, key, views[i..]))
      == if r.None? then None
         else Continued(done + [r.value.1], RunBuffered(p, r.value.0, k, views[i + 1..]))
  {
    hide FlowKey.KeyOf, Advance, RunBuffered;
    var k := KeyOf(key, p.key, views[i]);
    var r := Advance(p, m, k, views[i]);
    assert views[i..][1..] == views[i + 1..] && views[i..][0] == views[i];
    RunOnce(p, m, key, views[i..]);
    if r.Some? {
      ContinuedOnce(done, r.value.1, RunBuffered(p, r.value.0, k, views[i + 1..]));
    }
  }

  lemma Finished(p: Program, m: Machine, key: Key, views: seq<View>, done: seq<Verdict>)
    requires p.Valid()
    ensures views[|views|..] == [] && Continued(done, RunBuffered(p, m, key, [])) == Some(Outcomes(m, done))
  {
    RunDone(p, m, key);
    assert done + [] == done;
  }
}
