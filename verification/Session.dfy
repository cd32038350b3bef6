/** Reading a whole multi-frame answer by alternating the frame count bit (gombus.go). */
module Session {
  import opened Bytes
  import opened Frames
  import opened Streams
  import opened LongFrames

  const MAX_FRAMES: nat := 64

  // ---------------------------------------------------------------- specification

  function Exchange(env: Env, s: Stream, addr: byte, fcb: bool): (Result<DecodedFrame, Error>, Stream) {
    match Write(env, s, RequestUd2(addr, fcb))
    case (Some(e), s1) => (Err(e), s1)
    case (None, s1) =>
      match ReadLong(s1)
      case (Err(e), s2) => (Err(e), s2)
      case (Ok(f), s2) =>
        match DecodeFrame(f)
        case Err(_) => (Err(DecodeFailed), s2)
        case Ok(d) => (Ok(d), s2)
  }

  /** The walk from its count-th request on. */
  function Walk(env: Env, s: Stream, addr: byte, count: nat, fcb: bool): (Result<seq<DecodedFrame>, Error>, Stream)
    decreases MAX_FRAMES - count
  {
    if env.over(s.sent) then (Err(ContextDone), s)
    else if count >= MAX_FRAMES then (Err(TooManyFrames), s)
    else
      match Exchange(env, s, addr, fcb)
      case (Err(e), s') => (Err(e), s')
      case (Ok(d), s') =>
        if !HasMoreRecords(d) then (Ok([d]), s')
        else PrependFirst([d], Walk(env, s', addr, count + 1, !fcb))
  }

  function ReadAll(env: Env, s: Stream, addr: byte): (Result<seq<DecodedFrame>, Error>, Stream) {
    if !ValidDestination(addr) then (Err(InvalidPrimaryId), s)
    else
      match Write(env, s, SndNke(addr))
      case (Some(e), s1) => (Err(e), s1)
      case (None, s1) =>
        match ReadAck(s1)
        case (Some(e), s2) => (Err(e), s2)
        case (None, s2) => Walk(env, s2, addr, 0, false)
  }

  // ---------------------------------------------------------------- whatever the slave does

  /** n requests whose frame count bits alternate, starting with fcb. */
  function Requests(addr: byte, fcb: bool, n: nat): (h: History)
    ensures |h| == n
    decreases n
  {
    if n == 0 then [] else [RequestUd2(addr, fcb)] + Requests(addr, !fcb, n - 1)
  }

  /** All frames but the last, and only those, announce more. */
  predicate MoreUntilLast(ds: seq<DecodedFrame>) {
    ds != [] && forall i :: 0 <= i < |ds| ==> (HasMoreRecords(ds[i]) <==> i < |ds| - 1)
  }

  lemma {:induction false} WalkShape(env: Env, s: Stream, addr: byte, count: nat, fcb: bool) returns (n: nat)
    requires count <= MAX_FRAMES
    ensures var (r, s') := Walk(env, s, addr, count, fcb);
      && n <= MAX_FRAMES - count && s'.sent == s.sent + Requests(addr, fcb, n)
      && (r.Ok? ==> |r.value| == n && MoreUntilLast(r.value))
    decreases MAX_FRAMES - count
  {
    hide HasMoreRecords, RequestUd2, Exchange;
    assert s.sent + [] == s.sent;
    n := 0;
    if !env.over(s.sent) && count < MAX_FRAMES {
      var (d, s') := Exchange(env, s, addr, fcb);
      ExchangeSends(env, s, addr, fcb);
      if s'.sent != s.sent {
        assert Requests(addr, fcb, 1) == [RequestUd2(addr, fcb)] + Requests(addr, !fcb, 0);
        n := 1;
        if d.Ok? && HasMoreRecords(d.value) {
          var m := WalkShape(env, s', addr, count + 1, !fcb);
          n := m + 1;
          assert s.sent + [RequestUd2(addr, fcb)] + Requests(addr, !fcb, m) == s.sent + Requests(addr, fcb, n);
          var r := Walk(env, s', addr, count + 1, !fcb).0;
          if r.Ok? { MoreThenRest(d.value, r.value); }
        }
      }
    }
  }

  lemma MoreThenRest(d: DecodedFrame, ds: seq<DecodedFrame>)
    requires HasMoreRecords(d) && MoreUntilLast(ds)
    ensures MoreUntilLast([d] + ds)
  {
    hide HasMoreRecords;
    var all := [d] + ds;
    forall i | 0 <= i < |all| ensures HasMoreRecords(all[i]) <==> i < |all| - 1 {
      if i > 0 { assert all[i] == ds[i - 1]; }
    }
  }

  lemma ExchangeSends(env: Env, s: Stream, addr: byte, fcb: bool)
    ensures var (r, s') := Exchange(env, s, addr, fcb);
      s'.sent == s.sent + [RequestUd2(addr, fcb)] || (s'.sent == s.sent && r.Err?)
  {
  }

  /** Against any transport and any slave: after one link reset at most 64 requests go out, consecutive ones
      with opposite frame count bits, and a successful walk returns one frame per request, every frame but
      the last announcing more. */
  lemma WalkIsDisciplined(env: Env, s: Stream, addr: byte)
    ensures var (r, s') := ReadAll(env, s, addr);
      && (s'.sent == s.sent
          || exists n: nat :: n <= MAX_FRAMES && s'.sent == s.sent + [SndNke(addr)] + Requests(addr, false, n)
               && (r.Ok? ==> |r.value| == n))
      && (r.Ok? ==> MoreUntilLast(r.value))
  {
    hide Walk, HasMoreRecords, RequestUd2, SndNke;
    if ValidDestination(addr) {
      var (e, s1) := Write(env, s, SndNke(addr));
      if e.None? {
        var (a, s2) := ReadAck(s1);
        if a.None? {
          var n := WalkShape(env, s2, addr, 0, false);
        } else {
          assert s2.sent == s.sent + [SndNke(addr)] + Requests(addr, false, 0);
        }
      }
    }
  }

  // ---------------------------------------------------------------- an ideal slave

  /** What a slave remembers: nothing since the link reset, or the telegram it last sent and the bit it was asked
      with. */
  datatype SlaveState = Fresh | At(index: nat, fcb: bool)

  /** A repeated bit repeats the telegram; a changed one advances. */
  function Ask(st: SlaveState, fcb: bool): SlaveState {
    match st
    case Fresh => At(0, fcb)
    case At(i, f) => if f == fcb then st else At(i + 1, fcb)
  }

  function Observe(st: SlaveState, frame: seq<byte>, addr: byte): SlaveState {
    if frame == SndNke(addr) then Fresh
    else if frame == RequestUd2(addr, false) then Ask(st, false)
    else if frame == RequestUd2(addr, true) then Ask(st, true)
    else st
  }

  function SlaveAfter(h: History, addr: byte): SlaveState {
    if h == [] then Fresh else Observe(SlaveAfter(h[..|h| - 1], addr), h[|h| - 1], addr)
  }

  function Reply(ts: seq<seq<byte>>, h: History, addr: byte): seq<byte> {
    if h == [] then []
    else if h[|h| - 1] == SndNke(addr) then [ACK]
    else if h[|h| - 1] != RequestUd2(addr, false) && h[|h| - 1] != RequestUd2(addr, true) then []
    else
      match SlaveAfter(h, addr)
      case Fresh => []
      case At(i, _) => if i < |ts| then ts[i] else []
  }

  /** The slave answers every frame with its reply, split into reads any way at all. */
  ghost predicate IdealSlave(env: Env, ts: seq<seq<byte>>, addr: byte) {
    forall h: History ::
      && env.fails(h).None? && !env.over(h)
      && Healthy(env.respond(h)) && Delivered(env.respond(h)) == Reply(ts, h, addr)
  }

  function SlaveEnv(ts: seq<seq<byte>>, addr: byte): Env {
    Env(h => [Data(Reply(ts, h, addr))], _ => None, _ => false)
  }

  /** Every list of telegrams has an ideal slave at every address. */
  lemma IdealSlaveExists(ts: seq<seq<byte>>, addr: byte)
    ensures IdealSlave(SlaveEnv(ts, addr), ts, addr)
  {
    hide Reply;
    forall h: History ensures Delivered([Data(Reply(ts, h, addr))]) == Reply(ts, h, addr) {
      assert [Data(Reply(ts, h, addr))][1..] == [] && Reply(ts, h, addr) + [] == Reply(ts, h, addr);
    }
  }

  /** A telegram sequence: decodable frames, all but the last announcing more. */
  predicate IsAnswer(ts: seq<seq<byte>>) {
    && ts != []
    && forall i :: 0 <= i < |ts| ==>
         IsLongFrame(ts[i]) && DecodeFrame(ts[i]).Ok? && (HasMoreRecords(DecodeFrame(ts[i]).value) <==> i < |ts| - 1)
  }

  function DecodeAll(ts: seq<seq<byte>>): (ds: seq<DecodedFrame>)
    requires forall i :: 0 <= i < |ts| ==> DecodeFrame(ts[i]).Ok?
    ensures |ds| == |ts| && forall i :: 0 <= i < |ts| ==> ds[i] == DecodeFrame(ts[i]).value
  {
    seq(|ts|, i requires 0 <= i < |ts| => DecodeFrame(ts[i]).value)
  }

  lemma RequestsDiffer(addr: byte)
    ensures SndNke(addr) != RequestUd2(addr, false) && SndNke(addr) != RequestUd2(addr, true)
    ensures RequestUd2(addr, false) != RequestUd2(addr, true)
  {
    assert SndNke(addr)[1] == 0x40 && RequestUd2(addr, false)[1] == 0x5B && RequestUd2(addr, true)[1] == 0x7B;
  }

  /** The slave's memory just before the k-th request of a walk. */
  function Expected(k: nat): SlaveState {
    if k == 0 then Fresh else At(k - 1, k % 2 == 0)
  }

  lemma ObserveRequest(k: nat, addr: byte)
    ensures Observe(Expected(k), RequestUd2(addr, k % 2 == 1), addr) == Expected(k + 1)
  {
    RequestsDiffer(addr);
  }

  /** One exchange of the walk gets exactly the k-th telegram and leaves nothing behind. */
  lemma ExchangeIdeal(env: Env, s: Stream, ts: seq<seq<byte>>, addr: byte, k: nat)
    requires IdealSlave(env, ts, addr) && IsAnswer(ts) && k < |ts|
    requires Healthy(s.script) && Pending(s) == [] && SlaveAfter(s.sent, addr) == Expected(k)
    ensures var (r, s') := Exchange(env, s, addr, k % 2 == 1);
      && r == Ok(DecodeFrame(ts[k]).value)
      && Healthy(s'.script) && Pending(s') == [] && SlaveAfter(s'.sent, addr) == Expected(k + 1)
  {
    hide DecodeFrame, HasMoreRecords, RequestUd2, IsLongFrame, ParseLongFrame, ReadLong, Write, Expected, SlaveAfter,
      IdealSlave;
    var s1 := Write(env, s, RequestUd2(addr, k % 2 == 1)).1;
    RequestIdeal(env, s, ts, addr, k);
    ParseLongFrameExact(Pending(s1), ts[k], |ts[k]|);
    ChunkingIndependence(s1);
    ReadLongKeeps(s1);
    assert [] + ts[k] == ts[k];
    assert |Pending(ReadLong(s1).1)| == 0;
  }

  lemma ReplyIsNext(ts: seq<seq<byte>>, sent: History, addr: byte, k: nat)
    requires k < |ts| && SlaveAfter(sent, addr) == Expected(k)
    ensures var h := sent + [RequestUd2(addr, k % 2 == 1)];
      SlaveAfter(h, addr) == Expected(k + 1) && Reply(ts, h, addr) == ts[k]
  {
    hide SndNke, RequestUd2;
    var frame := RequestUd2(addr, k % 2 == 1);
    var h := sent + [frame];
    assert h[..|h| - 1] == sent && h[|h| - 1] == frame;
    ObserveRequest(k, addr);
    RequestsDiffer(addr);
  }

  /** The k-th request adds exactly the k-th telegram to what is pending. */
  lemma RequestIdeal(env: Env, s: Stream, ts: seq<seq<byte>>, addr: byte, k: nat)
    requires IdealSlave(env, ts, addr) && k < |ts|
    requires Healthy(s.script) && SlaveAfter(s.sent, addr) == Expected(k)
    ensures var (e, s1) := Write(env, s, RequestUd2(addr, k % 2 == 1));
      && e == None && Healthy(s1.script) && Pending(s1) == Pending(s) + ts[k]
         && SlaveAfter(s1.sent, addr) == Expected(k + 1)
  {
    hide SndNke, RequestUd2, Reply, SlaveAfter, Expected;
    var h := s.sent + [RequestUd2(addr, k % 2 == 1)];
    ReplyIsNext(ts, s.sent, addr, k);
    DeliveredAppend(s.script, env.respond(h));
    assert s.buf + (Delivered(s.script) + ts[k]) == s.buf + Delivered(s.script) + ts[k];
  }

  lemma NeverOver(env: Env, ts: seq<seq<byte>>, addr: byte, h: History)
    requires IdealSlave(env, ts, addr)
    ensures !env.over(h)
  {
    assert env.fails(h).None?;
  }

  lemma {:induction false} WalkIdeal(env: Env, s: Stream, ts: seq<seq<byte>>, addr: byte, k: nat)
    requires IdealSlave(env, ts, addr) && IsAnswer(ts) && k < |ts| && k <= MAX_FRAMES
    requires Healthy(s.script) && Pending(s) == [] && SlaveAfter(s.sent, addr) == Expected(k)
    ensures Walk(env, s, addr, k, k % 2 == 1).0
            == if |ts| <= MAX_FRAMES then Ok(DecodeAll(ts[k..])) else Err(TooManyFrames)
    decreases MAX_FRAMES - k
  {
    hide DecodeFrame, HasMoreRecords, Exchange, Expected, SlaveAfter, IsLongFrame, IdealSlave;
    NeverOver(env, ts, addr, s.sent);
    if k < MAX_FRAMES {
      ExchangeIdeal(env, s, ts, addr, k);
      var (r, s') := Exchange(env, s, addr, k % 2 == 1);
      if k < |ts| - 1 {
        WalkIdeal(env, s', ts, addr, k + 1);
        assert !(k % 2 == 1) == ((k + 1) % 2 == 1);
        assert ts[k..][1..] == ts[k + 1..];
        if |ts| <= MAX_FRAMES { assert DecodeAll(ts[k..]) == [r.value] + DecodeAll(ts[k + 1..]); }
      } else {
        assert DecodeAll(ts[k..]) == [r.value];
      }
    }
  }

  /** The link reset is acknowledged, and the first acknowledgement pending is taken for its own. */
  lemma ResetIdeal(env: Env, s: Stream, ts: seq<seq<byte>>, addr: byte)
    requires IdealSlave(env, ts, addr) && Healthy(s.script)
    ensures var (e, s1) := Write(env, s, SndNke(addr));
      var (a, s2) := ReadAck(s1);
      && e == None && a == None && Healthy(s2.script)
      && Pending(s2) == AfterAck(Pending(s) + [ACK]) && SlaveAfter(s2.sent, addr) == Expected(0)
  {
    hide SndNke, RequestUd2;
    var h := s.sent + [SndNke(addr)];
    assert h[|h| - 1] == SndNke(addr);
    DeliveredAppend(s.script, env.respond(h));
    var s1 := Write(env, s, SndNke(addr)).1;
    assert Pending(s1) == Pending(s) + [ACK];
    AckIsFound(s1);
  }

  /** The answer read off the given bytes. */
  function FirstAnswer(read: seq<byte>): Result<DecodedFrame, Error> {
    match ParseLongFrame(read)
    case Err(e) => if e == NeedMore then Err(ReadTimeout) else Err(BadFrame(e))
    case Ok((f, _)) => if DecodeFrame(f).Ok? then Ok(DecodeFrame(f).value) else Err(DecodeFailed)
  }

  /** The outcome of a walk whose first answer is d. */
  predicate StartsWith(r: Result<seq<DecodedFrame>, Error>, d: Result<DecodedFrame, Error>) {
    match d
    case Err(e) => r == Err(e)
    case Ok(first) => if HasMoreRecords(first) then r.Ok? ==> r.value != [] && r.value[0] == first else r == Ok([first])
  }

  /** What an ideal slave's answer is preceded by: nothing, or what a stray acknowledgement left behind. */
  function LeftOver(pending: seq<byte>): seq<byte> {
    if ACK in pending then AfterAck(pending) + [ACK] else []
  }

  lemma LeftOverIs(pending: seq<byte>)
    ensures AfterAck(pending + [ACK]) == LeftOver(pending)
  {
    if ACK in pending {
      AfterAckAppend(pending, [ACK]);
    } else {
      AfterAckSkips(pending, [ACK]);
    }
  }

  /** Against an ideal slave. Bytes that are pending beforehand are dropped with the link reset, and then the walk
      returns the slave's whole answer when that is at most 64 telegrams, and reports the overrun otherwise. But a stray
      acknowledgement among them is taken for that of the reset, and the walk reads its first answer off what
      followed the stray one, the reset's own acknowledgement, and the first telegram. */
  lemma WalkIsComplete(env: Env, s: Stream, ts: seq<seq<byte>>, addr: byte)
    requires IdealSlave(env, ts, addr) && IsAnswer(ts) && ValidDestination(addr) && Healthy(s.script)
    ensures ACK !in Pending(s) ==>
      ReadAll(env, s, addr).0 == if |ts| <= MAX_FRAMES then Ok(DecodeAll(ts)) else Err(TooManyFrames)
    ensures StartsWith(ReadAll(env, s, addr).0, FirstAnswer(LeftOver(Pending(s)) + ts[0]))
  {
    hide DecodeFrame, HasMoreRecords, SndNke, RequestUd2, Walk, IsLongFrame, ReadAck, Write, IdealSlave, SlaveAfter,
      Expected, LeftOver, StartsWith, FirstAnswer;
    ResetIdeal(env, s, ts, addr);
    LeftOverIs(Pending(s));
    var s2 := ReadAck(Write(env, s, SndNke(addr)).1).1;
    FirstExchange(env, s2, ts, addr);
    if ACK !in Pending(s) {
      assert Pending(s2) == [] by { NothingLeftOver(Pending(s)); }
      WalkIdeal(env, s2, ts, addr, 0);
      assert ts[0..] == ts;
    }
  }

  lemma NothingLeftOver(pending: seq<byte>)
    requires ACK !in pending
    ensures LeftOver(pending) == []
  {
  }

  lemma FirstExchange(env: Env, s: Stream, ts: seq<seq<byte>>, addr: byte)
    requires IdealSlave(env, ts, addr) && ts != [] && Healthy(s.script) && SlaveAfter(s.sent, addr) == Expected(0)
    ensures StartsWith(Walk(env, s, addr, 0, false).0, FirstAnswer(Pending(s) + ts[0]))
  {
    hide DecodeFrame, HasMoreRecords, RequestUd2, IsLongFrame, ReadLong, Write, Expected, SlaveAfter, ParseLongFrame;
    RequestIdeal(env, s, ts, addr, 0);
    var s1 := Write(env, s, RequestUd2(addr, false)).1;
    ChunkingIndependence(s1);
  }

  /** So a stray acknowledgement makes the walk fail whenever what is left over cannot start a frame, as when nothing
      follows the stray one. Stale bytes that are frames themselves are read in the slave's place. */
  lemma StrayAckFails(env: Env, s: Stream, ts: seq<seq<byte>>, addr: byte)
    requires IdealSlave(env, ts, addr) && IsAnswer(ts) && ValidDestination(addr) && Healthy(s.script)
    requires ACK in Pending(s) && LeftOver(Pending(s))[0] != 0x68
    ensures ReadAll(env, s, addr).0 == Err(BadFrame(NoLongFrameFound))
  {
    hide DecodeFrame, HasMoreRecords, ReadAll, IdealSlave, Pending, LeftOver;
    WalkIsComplete(env, s, ts, addr);
    assert |LeftOver(Pending(s))| >= 1 by { SomethingLeftOver(Pending(s)); }
  }

  /** A stale frame behind a stray acknowledgement is returned as if it were the slave's. */
  lemma StaleFrameIsReturned(env: Env, s: Stream, ts: seq<seq<byte>>, addr: byte, f: seq<byte>)
    requires IdealSlave(env, ts, addr) && IsAnswer(ts) && ValidDestination(addr) && Healthy(s.script)
    requires ACK in Pending(s) && IsLongFrame(f) && f <= AfterAck(Pending(s))
    requires DecodeFrame(f).Ok? && !HasMoreRecords(DecodeFrame(f).value)
    ensures ReadAll(env, s, addr).0 == Ok([DecodeFrame(f).value])
  {
    hide DecodeFrame, HasMoreRecords, ReadAll, IdealSlave, Pending, ParseLongFrame, IsLongFrame;
    WalkIsComplete(env, s, ts, addr);
    var read := LeftOver(Pending(s)) + ts[0];
    assert f <= read;
    ParseLongFrameExact(read, f, |f|);
  }

  lemma SomethingLeftOver(pending: seq<byte>)
    requires ACK in pending
    ensures LeftOver(pending) != []
  {
  }

  // ---------------------------------------------------------------- the loop

  method ReadAllFrames(c: Client, primaryId: byte) returns (r: Result<seq<DecodedFrame>, Error>)
    modifies c, c.conn
    ensures (r, c.State()) == ReadAll(c.conn.env, old(c.State()), primaryId)
  {
    hide DecodeFrame, HasMoreRecords, Write, ReadLong, ReadAck, ShortFrame, Fcb;
    if !ValidDestination(primaryId) {
      return Err(InvalidPrimaryId);
    }
    var reset := NewShortFrame(0x40, primaryId);
    var failed := c.WriteFrame(reset[..]);
    if failed.Some? {
      return Err(failed.value);
    }
    failed := c.ReadSingleCharFrame();
    if failed.Some? {
      return Err(failed.value);
    }
    var frames: seq<DecodedFrame> := [];
    var lastFcb := true;
    var frameCount := 0;
    ghost var start := c.State();
    ghost var env := c.conn.env;
    PrependNothing(Walk(env, start, primaryId, 0, false).0);
    while true
      invariant 0 <= frameCount <= MAX_FRAMES
      invariant Walk(env, start, primaryId, 0, false)
          == PrependFirst(frames, Walk(env, c.State(), primaryId, frameCount, !lastFcb))
      decreases MAX_FRAMES - frameCount
    {
      if c.conn.env.over(c.conn.sent) {
        return Err(ContextDone);
      }
      if frameCount >= MAX_FRAMES {
        return Err(TooManyFrames);
      }
      var frame := BuildRequest(primaryId, !lastFcb);
      lastFcb := Fcb(frame[1]);
      failed := c.WriteFrame(frame[..]);
      if failed.Some? {
        return Err(failed.value);
      }
      var resp :- c.ReadLongFrame();
      var decoded := DecodeLongFrame(resp);
      if decoded.Err? {
        return Err(DecodeFailed);
      }
      ghost var before := frames;
      frames := frames + [decoded.value];
      if !HasMoreRecords(decoded.value) {
        return Ok(frames);
      }
      frameCount := frameCount + 1;
      PrependTwice(before, [decoded.value], Walk(env, c.State(), primaryId, frameCount, !lastFcb).0);
    }
  }

  method BuildRequest(addr: byte, fcb: bool) returns (frame: array<byte>)
    ensures fresh(frame) && frame[..] == RequestUd2(addr, fcb) && frame.Length == 5 && Fcb(frame[1]) == fcb
  {
    frame := NewShortFrame(0x5B, addr);
    if fcb {
      SetFcb(frame, 1);
      SetShortChecksum(frame);
      assert frame[1..3] == [0x7B, addr];
    }
  }
}
