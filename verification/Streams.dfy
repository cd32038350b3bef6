/** The byte stream of one master session: the Client's buffer, the transport, and the frame readers of read.go and
    scan.go. */
module Streams {
  import opened Bytes
  import opened Frames

  /** What one turn of the fill loop meets: bytes, a read that timed out or returned nothing, the deadline,
      a cancelled context, or a broken transport. */
  datatype Event = Data(bytes: seq<byte>) | Quiet | Expired | Cancelled | Failed(eof: bool)

  /** MidFrame is a transport failure with part of a frame buffered. */
  datatype Error = ReadTimeout | ContextDone | Transport(eof: bool) | MidFrame(eof: bool) | BadFrame(e: FrameError)
    | InvalidPrimaryId | TooManyFrames | DecodeFailed | InvalidMask

  type History = seq<seq<byte>>

  /** Everything outside the program, as a function of the frames written so far: what then arrives, whether
      the last write fails, and whether the context is over. */
  datatype Env = Env(respond: History -> seq<Event>, fails: History -> Option<Error>, over: History -> bool)

  datatype Stream = Stream(buf: seq<byte>, script: seq<Event>, sent: History)

  // ---------------------------------------------------------------- specification

  function Delivered(script: seq<Event>): seq<byte> {
    if script == [] then []
    else (if script[0].Data? then script[0].bytes else []) + Delivered(script[1..])
  }

  /** Bytes the client holds or will still receive. */
  function Pending(s: Stream): seq<byte> { s.buf + Delivered(s.script) }

  /** No failure and no deadline: only data and silence. */
  predicate Healthy(script: seq<Event>) {
    forall e :: e in script ==> e.Data? || e.Quiet?
  }

  function Fill(s: Stream): (r: (Option<Error>, Stream))
    ensures r.0.None? ==> |r.1.script| < |s.script|
    ensures r.0.Some? ==> r.1.buf == s.buf
    ensures r.1.sent == s.sent
    decreases |s.script|
  {
    if s.script == [] then (Some(ReadTimeout), s)
    else
      var rest := s.(script := s.script[1..]);
      match s.script[0]
      case Data(b) => if |b| > 0 then (None, rest.(buf := s.buf + b)) else Fill(rest)
      case Quiet => Fill(rest)
      case Expired => (Some(ReadTimeout), rest)
      case Cancelled => (Some(ContextDone), rest)
      case Failed(eof) => (Some(Transport(eof)), rest)
  }

  /** A transport failure part way through a frame is not reported as itself. */
  function WrapFill(e: Error, buf: seq<byte>): Error {
    if e.Transport? && buf != [] then MidFrame(e.eof) else e
  }

  function ReadLong(s: Stream): (r: (Result<seq<byte>, Error>, Stream))
    ensures r.1.sent == s.sent
    decreases |s.script|
  {
    match ParseLongFrame(s.buf)
    case Ok((f, n)) => (Ok(f), s.(buf := s.buf[n..]))
    case Err(e) =>
      if e != NeedMore then (Err(BadFrame(e)), s)
      else
        var (failed, s') := Fill(s);
        if failed.Some? then (Err(WrapFill(failed.value, s'.buf)), s') else ReadLong(s')
  }

  function AfterAck(buf: seq<byte>): seq<byte>
    requires ACK in buf
  {
    if buf[0] == ACK then buf[1..] else AfterAck(buf[1..])
  }

  function ReadAck(s: Stream): (r: (Option<Error>, Stream))
    ensures r.1.sent == s.sent
    decreases |s.script|
  {
    if ACK in s.buf then (None, s.(buf := AfterAck(s.buf)))
    else
      var (failed, s') := Fill(s.(buf := []));
      if failed.Some? then (failed, s') else ReadAck(s')
  }

  function TakeBuffered(buf: seq<byte>): Result<(seq<byte>, nat), FrameError> {
    if buf == [] then Err(NeedMore)
    else if buf[0] == ACK then Ok(([ACK], 1))
    else ParseLongFrame(buf)
  }

  /** The frame phase of a probe: what precedes a frame is not kept. */
  function FinishProbe(s: Stream): (r: (Result<seq<byte>, Error>, Stream))
    ensures r.1.sent == s.sent
    decreases |s.script|
  {
    match TakeBuffered(s.buf)
    case Ok((f, n)) => (Ok(f), s.(buf := s.buf[n..]))
    case Err(e) =>
      if e != NeedMore then (Err(BadFrame(e)), s.(buf := []))
      else
        var (failed, s') := Fill(s);
        if failed.Some? then (Err(WrapFill(failed.value, s'.buf)), s') else FinishProbe(s')
  }

  function Probe(s: Stream): (r: (Result<seq<byte>, Error>, Stream))
    ensures r.1.sent == s.sent
  {
    if s.buf != [] then FinishProbe(s)
    else
      var (failed, s') := Fill(s);
      if failed.Some? then (Err(WrapFill(failed.value, s'.buf)), s') else FinishProbe(s')
  }

  function Write(env: Env, s: Stream, frame: seq<byte>): (Option<Error>, Stream) {
    var h := s.sent + [frame];
    if env.over(s.sent) then (Some(ContextDone), s)
    else if env.fails(h).Some? then (env.fails(h), s)
    else (None, s.(sent := h, script := s.script + env.respond(h)))
  }

  /** n reads in a row, up to the first that fails. */
  function ReadMany(n: nat, s: Stream): (Result<seq<seq<byte>>, Error>, Stream) {
    if n == 0 then (Ok([]), s)
    else
      match ReadLong(s)
      case (Err(e), s') => (Err(e), s')
      case (Ok(f), s') =>
        match ReadMany(n - 1, s')
        case (Err(e), s'') => (Err(e), s'')
        case (Ok(fs), s'') => (Ok([f] + fs), s'')
  }

  // ---------------------------------------------------------------- theorems

  lemma {:induction false} FillKeeps(s: Stream)
    ensures Pending(Fill(s).1) == Pending(s)
    ensures Healthy(s.script) ==> Healthy(Fill(s).1.script)
    ensures Healthy(s.script) ==> Fill(s).0 == if Delivered(s.script) == [] then Some(ReadTimeout) else None
    decreases |s.script|
  {
    if s.script != [] {
      var rest := s.(script := s.script[1..]);
      assert Healthy(s.script) ==> Healthy(rest.script) && s.script[0] in s.script;
      match s.script[0]
      case Data(b) =>
        if |b| > 0 { assert s.buf + (b + Delivered(rest.script)) == s.buf + b + Delivered(rest.script); }
        else { FillKeeps(rest); assert [] + Delivered(rest.script) == Delivered(rest.script); }
      case Quiet => FillKeeps(rest); assert [] + Delivered(rest.script) == Delivered(rest.script);
      case Expired => assert [] + Delivered(rest.script) == Delivered(rest.script);
      case Cancelled => assert [] + Delivered(rest.script) == Delivered(rest.script);
      case Failed(_) => assert [] + Delivered(rest.script) == Delivered(rest.script);
    }
  }

  /** Conservation, whatever the transport does: a frame returned is taken off the front of the bytes
      delivered, and a failed read takes nothing. */
  lemma {:induction false} ReadLongKeeps(s: Stream)
    ensures match ReadLong(s)
            case (Ok(f), s') => IsLongFrame(f) && f + Pending(s') == Pending(s)
            case (Err(_), s') => Pending(s') == Pending(s)
    decreases |s.script|
  {
    match ParseLongFrame(s.buf)
    case Ok((f, n)) =>
      ParseLongFrameExact(s.buf, f, n);
      assert f + (s.buf[n..] + Delivered(s.script)) == s.buf + Delivered(s.script);
    case Err(e) =>
      if e == NeedMore {
        FillKeeps(s);
        if Fill(s).0.None? { ReadLongKeeps(Fill(s).1); }
      }
  }

  /** Chunking independence: while the transport only delivers bytes or stays silent, the result of a read
      depends on the pending bytes alone, not on how they are split. */
  lemma {:induction false} ChunkingIndependence(s: Stream)
    requires Healthy(s.script)
    ensures Healthy(ReadLong(s).1.script)
    ensures ReadLong(s).0 == match ParseLongFrame(Pending(s))
                             case Ok((f, _)) => Ok(f)
                             case Err(e) => Err(if e == NeedMore then ReadTimeout else BadFrame(e))
    decreases |s.script|
  {
    if ParseLongFrame(s.buf) == Err(NeedMore) {
      FillKeeps(s);
      var (failed, s') := Fill(s);
      if failed.None? {
        ChunkingIndependence(s');
      } else {
        assert Pending(s) == s.buf + [] == s.buf;
      }
    } else {
      VerdictIsStable(s.buf, Delivered(s.script));
    }
  }

  lemma {:induction false} DeliveredAppend(a: seq<Event>, b: seq<Event>)
    ensures Delivered(a + b) == Delivered(a) + Delivered(b)
    ensures Delivered(a) == [] ==> Delivered(a + b) == Delivered(b)
    ensures Healthy(a) && Healthy(b) ==> Healthy(a + b)
  {
    hide Healthy;
    HealthyAppend(a, b);
    assert [] + Delivered(b) == Delivered(b);
    if a == [] {
      assert a + b == b;
    } else {
      var head := if a[0].Data? then a[0].bytes else [];
      assert (a + b)[1..] == a[1..] + b && (a + b)[0] == a[0];
      DeliveredAppend(a[1..], b);
      assert head + (Delivered(a[1..]) + Delivered(b)) == head + Delivered(a[1..]) + Delivered(b);
    }
  }

  lemma HealthyAppend(a: seq<Event>, b: seq<Event>)
    ensures Healthy(a) && Healthy(b) ==> Healthy(a + b)
  {
  }

  predicate AllFrames(fs: seq<seq<byte>>) {
    forall f :: f in fs ==> IsLongFrame(f)
  }

  /** Successive reads return exactly the frames that were sent, however they arrive, and what follows the
      last of them stays pending. */
  lemma {:induction false} PipelinedFrames(s: Stream, fs: seq<seq<byte>>, rest: seq<byte>)
    requires Healthy(s.script) && AllFrames(fs) && Pending(s) == Concat(fs) + rest
    ensures var (r, s') := ReadMany(|fs|, s);
      r == Ok(fs) && Pending(s') == rest && Healthy(s'.script)
    decreases |fs|
  {
    if fs == [] {
      assert [] + rest == rest;
    } else {
      var more := Concat(fs[1..]) + rest;
      assert Pending(s) == fs[0] + more;
      ParseLongFrameExact(Pending(s), fs[0], |fs[0]|);
      ChunkingIndependence(s);
      ReadLongKeeps(s);
      var s' := ReadLong(s).1;
      assert Pending(s') == Pending(s)[|fs[0]|..] == more;
      PipelinedFrames(s', fs[1..], rest);
      assert fs == [fs[0]] + fs[1..];
    }
  }

  lemma {:induction false} AfterAckAppend(a: seq<byte>, b: seq<byte>)
    requires ACK in a
    ensures AfterAck(a + b) == AfterAck(a) + b
  {
    assert (a + b)[1..] == a[1..] + b;
    if a[0] != ACK { AfterAckAppend(a[1..], b); }
  }

  lemma {:induction false} AfterAckSkips(a: seq<byte>, b: seq<byte>)
    requires ACK !in a && ACK in b
    ensures AfterAck(a + b) == AfterAck(b)
  {
    if a == [] {
      assert a + b == b;
    } else {
      assert (a + b)[1..] == a[1..] + b;
      AfterAckSkips(a[1..], b);
    }
  }

  /** Waiting for an acknowledgement finds the first E5h in the pending bytes, drops what precedes it and
      keeps what follows, however the bytes are split. */
  lemma {:induction false} AckIsFound(s: Stream)
    requires Healthy(s.script)
    ensures Healthy(ReadAck(s).1.script)
    ensures ReadAck(s).0 == if ACK in Pending(s) then None else Some(ReadTimeout)
    ensures ACK in Pending(s) ==> Pending(ReadAck(s).1) == AfterAck(Pending(s))
    decreases |s.script|
  {
    if ACK in s.buf {
      AfterAckAppend(s.buf, Delivered(s.script));
    } else {
      var t := s.(buf := []);
      FillKeeps(t);
      assert Pending(t) == Delivered(s.script);
      if ACK in Pending(s) {
        assert ACK in Delivered(s.script);
        AfterAckSkips(s.buf, Delivered(s.script));
      }
      if Fill(t).0.None? { AckIsFound(Fill(t).1); }
    }
  }

  // ---------------------------------------------------------------- the objects

  /** The transport, driven by its environment. */
  class Conn {
    const env: Env
    var script: seq<Event>
    var sent: History

    constructor (env: Env)
      ensures this.env == env && script == [] && sent == []
    {
      this.env, script, sent := env, [], [];
    }
  }

  class Client {
    const conn: Conn
    var buf: seq<byte>

    constructor (conn: Conn)
      ensures this.conn == conn && buf == []
    {
      this.conn, buf := conn, [];
    }

    function State(): Stream
      reads this, conn
    {
      Stream(buf, conn.script, conn.sent)
    }

    method WriteFrame(frame: seq<byte>) returns (e: Option<Error>)
      modifies conn
      ensures (e, State()) == Write(conn.env, old(State()), frame)
    {
      if conn.env.over(conn.sent) {
        return Some(ContextDone);
      }
      e := conn.env.fails(conn.sent + [frame]);
      if e.None? {
        conn.sent := conn.sent + [frame];
        conn.script := conn.script + conn.env.respond(conn.sent);
      }
    }

    /** Blocks until at least one byte is buffered; silence past the last event is the deadline. */
    method FillBuffer() returns (e: Option<Error>)
      modifies this, conn
      ensures (e, State()) == Fill(old(State()))
    {
      while conn.script != []
        invariant Fill(State()) == Fill(old(State()))
        decreases |conn.script|
      {
        var event := conn.script[0];
        conn.script := conn.script[1..];
        match event
        case Expired => return Some(ReadTimeout);
        case Cancelled => return Some(ContextDone);
        case Failed(eof) => return Some(Transport(eof));
        case Data(b) =>
          if |b| > 0 {
            buf := buf + b;
            return None;
          }
        case Quiet =>
      }
      return Some(ReadTimeout);
    }

    method Consume(n: nat)
      requires n <= |buf|
      modifies this`buf
      ensures buf == old(buf)[n..]
    {
      buf := buf[n..];
    }

    method ReadLongFrame() returns (r: Result<seq<byte>, Error>)
      modifies this, conn
      ensures (r, State()) == ReadLong(old(State()))
    {
      while true
        invariant ReadLong(State()) == ReadLong(old(State()))
        decreases |conn.script|
      {
        match ParseLongFrame(buf)
        case Ok((f, n)) =>
          ParseLongFrameExact(buf, f, n);
          Consume(n);
          return Ok(f);
        case Err(e) =>
          if e != NeedMore {
            return Err(BadFrame(e));
          }
          var failed := FillBuffer();
          if failed.Some? {
            return Err(WrapFill(failed.value, buf));
          }
      }
    }

    method ReadSingleCharFrame() returns (e: Option<Error>)
      modifies this, conn
      ensures (e, State()) == ReadAck(old(State()))
    {
      while true
        invariant ReadAck(State()) == ReadAck(old(State()))
        decreases |conn.script|
      {
        var i := IndexOfAck();
        if i < |buf| {
          Consume(i + 1);
          return None;
        }
        Consume(|buf|);
        e := FillBuffer();
        if e.Some? {
          return;
        }
      }
    }

    method IndexOfAck() returns (i: nat)
      ensures i <= |buf| && (i < |buf| <==> ACK in buf)
      ensures i < |buf| ==> buf[i + 1..] == AfterAck(buf)
    {
      i := 0;
      while i < |buf| && buf[i] != ACK
        invariant i <= |buf| && ACK !in buf[..i]
      {
        i := i + 1;
      }
      assert buf == buf[..i] + buf[i..];
      if i < |buf| {
        AfterAckSkips(buf[..i], buf[i..]);
      }
    }

    /** Reads an acknowledgement or a long frame; bytes that are neither are dropped. */
    method ProbeResponse() returns (r: Result<seq<byte>, Error>)
      modifies this, conn
      ensures (r, State()) == Probe(old(State()))
    {
      if |buf| == 0 {
        var failed := FillBuffer();
        if failed.Some? {
          return Err(WrapFill(failed.value, buf));
        }
      }
      while true
        invariant FinishProbe(State()) == Probe(old(State()))
        decreases |conn.script|
      {
        match TakeBuffered(buf)
        case Ok((f, n)) =>
          ParseLongFrameExact(buf, f, n);
          Consume(n);
          return Ok(f);
        case Err(e) =>
          if e != NeedMore {
            Consume(|buf|);
            return Err(BadFrame(e));
          }
          var failed := FillBuffer();
          if failed.Some? {
            return Err(WrapFill(failed.value, buf));
          }
      }
    }
  }
}
