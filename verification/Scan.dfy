/** The secondary-address wildcard search over a live bus (scan.go). */
module Scan {
  import opened Bytes
  import opened Numbers
  import opened Frames
  import opened Streams
  import opened LongFrames
  import opened Search

  const WILDCARD := 0x46  // 'F'

  // ---------------------------------------------------------------- selection masks

  function MaskNibble(c: byte): Option<nat> {
    if 0x30 <= c <= 0x39 then Some(c - 0x30)
    else if c == WILDCARD || c == 0x66 then Some(15)
    else None
  }

  predicate ValidMask(mask: seq<byte>) {
    |mask| == DIGITS && forall i :: 0 <= i < DIGITS ==> MaskNibble(mask[i]).Some?
  }

  function Packed(mask: seq<byte>, i: nat): byte
    requires ValidMask(mask) && i < 4
  {
    MaskNibble(mask[2 * i]).value * 16 + MaskNibble(mask[2 * i + 1]).value
  }

  /** The ID field of a selection: most significant digit first in the mask, last byte first on the wire. */
  function MaskId(mask: seq<byte>): (id: seq<byte>)
    requires ValidMask(mask)
    ensures |id| == 4
  {
    [Packed(mask, 3), Packed(mask, 2), Packed(mask, 1), Packed(mask, 0)]
  }

  method MaskToBcd(mask: seq<byte>) returns (r: Option<seq<byte>>)
    ensures r == if ValidMask(mask) then Some(MaskId(mask)) else None
  {
    if |mask| != DIGITS {
      return None;
    }
    var id := new byte[4](_ => 0);
    for i := 0 to id.Length
      invariant forall j :: 0 <= j < 2 * i ==> MaskNibble(mask[j]).Some?
      invariant ValidMask(mask) ==> forall j :: 0 <= j < i ==> id[3 - j] == Packed(mask, j)
    {
      var hi := MaskNibble(mask[2 * i]);
      if hi.None? {
        return None;
      }
      var lo := MaskNibble(mask[2 * i + 1]);
      if lo.None? {
        return None;
      }
      id[id.Length - 1 - i] := hi.value * 16 + lo.value;
    }
    assert id[..] == MaskId(mask);
    return Some(id[..]);
  }

  /** SND_UD to address 253, CI 52h: the filter's manufacturer, version and medium are wildcards. */
  function SelectFrame(id: seq<byte>): seq<byte>
    requires |id| == 4
  {
    BuildLongFrame([0x53, 0xFD, 0x52] + id + [0xFF, 0xFF, 0xFF, 0xFF])
  }

  method BuildSelection(id: seq<byte>) returns (frame: array<byte>)
    requires |id| == 4
    ensures fresh(frame) && frame[..] == SelectFrame(id)
  {
    frame := new byte[17] [0x68, 0x00, 0x00, 0x68, 0x53, 0xFD, 0x52, id[0], id[1], id[2], id[3],
                           0xFF, 0xFF, 0xFF, 0xFF, 0x00, 0x16];
    assert frame[4..15] == [0x53, 0xFD, 0x52] + id + [0xFF, 0xFF, 0xFF, 0xFF];
    Finish(frame);
  }

  // ---------------------------------------------------------------- one probe, as a specification

  /** Silence and garbled bytes are ordinary on a bus being scanned; a broken transport is not. */
  predicate IsNoise(e: Error) {
    e == ReadTimeout || e.BadFrame? || (e.MidFrame? && !e.eof)
  }

  datatype Answer = Silent | Single | Collision

  function SendSelect(env: Env, s: Stream, id: seq<byte>): (Result<Answer, Error>, Stream)
    requires |id| == 4
  {
    match Write(env, s, SelectFrame(id))
    case (Some(e), s1) => (Err(e), s1)
    case (None, s1) =>
      match Probe(s1)
      case (Ok(resp), s2) =>
        if resp != [ACK] || s2.buf != [] then (Ok(Collision), s2.(buf := [])) else (Ok(Single), s2)
      case (Err(e), s2) =>
        if e == ReadTimeout then (Ok(Silent), s2)
        else if IsNoise(e) then (Ok(Collision), s2.(buf := []))
        else (Err(e), s2)
  }

  function FromHeader(frame: seq<byte>): Result<Address, Error> {
    if |frame| < HEADER_END then Err(BadFrame(InvalidFrame))
    else match Magnitude(frame[7..11])
      case None => Err(BadFrame(InvalidFrame))
      case Some(id) => Ok(Address(id, Manufacturer(frame[11], frame[12]), frame[13], frame[14]))
  }

  function ReadAddress(env: Env, s: Stream): (Result<Address, Error>, Stream) {
    match Write(env, s, RequestUd2(ADDR_SECONDARY, false))
    case (Some(e), s1) => (Err(e), s1)
    case (None, s1) =>
      match Probe(s1)
      case (Err(e), s2) => (Err(e), s2)
      case (Ok(f), s2) => (FromHeader(f), s2)
  }

  // ---------------------------------------------------------------- the search, as a specification

  predicate IsPrefix(p: seq<nat>) { |p| <= DIGITS && AreDigits(p) }

  /** The mask that fixes the digits of p and leaves the rest open. */
  function MaskOf(p: seq<nat>): (mask: seq<byte>)
    requires IsPrefix(p)
    ensures ValidMask(mask)
    ensures forall i :: 0 <= i < DIGITS ==> MaskNibble(mask[i]) == Some(if i < |p| then p[i] else 15)
  {
    seq(DIGITS, i requires 0 <= i < DIGITS => if i < |p| then p[i] + 0x30 else WILDCARD)
  }

  type Outcome = (Result<seq<Address>, Error>, Stream)

  function ScanFrom(env: Env, s: Stream, prefix: seq<nat>, digit: nat): Outcome
    requires IsPrefix(prefix) && |prefix| < DIGITS && digit <= 10
    decreases DIGITS - |prefix|, 11 - digit
  {
    if digit == 10 then (Ok([]), s)
    else if env.over(s.sent) then (Err(ContextDone), s)
    else
      match ScanBranch(env, s, prefix + [digit])
      case (Err(e), s') => (Err(e), s')
      case (Ok(found), s') => PrependFirst(found, ScanFrom(env, s', prefix, digit + 1))
  }

  /** Select the slaves under p, and read the one that answers or narrow the collision. */
  function ScanBranch(env: Env, s: Stream, p: seq<nat>): Outcome
    requires IsPrefix(p) && 1 <= |p|
    decreases DIGITS + 1 - |p|, 0
  {
    match SendSelect(env, s, MaskId(MaskOf(p)))
    case (Err(e), s1) => (Err(e), s1)
    case (Ok(Silent), s1) => (Ok([]), s1)
    case (Ok(Collision), s1) => Narrow(env, s1, p)
    case (Ok(Single), s1) =>
      match ReadAddress(env, s1)
      case (Ok(a), s2) => (Ok([a]), s2)
      case (Err(e), s2) => if IsNoise(e) then Narrow(env, s2, p) else (Err(e), s2)
  }

  function Narrow(env: Env, s: Stream, p: seq<nat>): Outcome
    requires IsPrefix(p) && 1 <= |p|
    decreases DIGITS - |p|, 12
  {
    if |p| < DIGITS then ScanFrom(env, s, p, 0) else (Ok([]), s)
  }

  // ---------------------------------------------------------------- whatever the bus answers

  predicate IsSelection(frame: seq<byte>) {
    |frame| == 17 && frame == SelectFrame(frame[7..11])
  }

  function SelectionsIn(h: History): nat {
    if h == [] then 0 else SelectionsIn(h[..|h| - 1]) + if IsSelection(h[|h| - 1]) then 1 else 0
  }

  /** Selections of a full search over the last `levels` digits with `digits` digits left at its top level. */
  function WorstCase(levels: nat, digits: nat): nat
    requires levels > 0
    decreases levels, digits
  {
    if digits == 0 then 0
    else 1 + (if levels > 1 then WorstCase(levels - 1, 10) else 0) + WorstCase(levels, digits - 1)
  }

  lemma SentByProbe(env: Env, s: Stream, id: seq<byte>)
    requires |id| == 4
    ensures SelectionsIn(SendSelect(env, s, id).1.sent) <= SelectionsIn(s.sent) + 1
    ensures SelectionsIn(ReadAddress(env, s).1.sent) == SelectionsIn(s.sent)
  {
    hide Probe, SelectFrame, FromHeader;
    var h := s.sent + [SelectFrame(id)];
    assert h[..|h| - 1] == s.sent;
    var g := s.sent + [RequestUd2(ADDR_SECONDARY, false)];
    assert g[..|g| - 1] == s.sent;
  }

  lemma {:induction false} WorkIsBounded(env: Env, s: Stream, prefix: seq<nat>, digit: nat)
    requires IsPrefix(prefix) && |prefix| < DIGITS && digit <= 10
    ensures SelectionsIn(ScanFrom(env, s, prefix, digit).1.sent)
            <= SelectionsIn(s.sent) + WorstCase(DIGITS - |prefix|, 10 - digit)
    decreases DIGITS - |prefix|, 11 - digit
  {
    hide SelectionsIn, ScanBranch, WorstCase;
    if digit < 10 {
      var p := prefix + [digit];
      WorstCaseStep(DIGITS - |prefix|, 10 - digit);
      BranchIsBounded(env, s, p);
      var (r, s') := ScanBranch(env, s, p);
      if r.Ok? { WorkIsBounded(env, s', prefix, digit + 1); }
    }
  }

  lemma WorstCaseStep(levels: nat, digits: nat)
    requires levels > 0 && digits > 0
    ensures WorstCase(levels, digits)
            == 1 + (if levels > 1 then WorstCase(levels - 1, 10) else 0) + WorstCase(levels, digits - 1)
  {
  }

  lemma {:induction false} BranchIsBounded(env: Env, s: Stream, p: seq<nat>)
    requires IsPrefix(p) && 1 <= |p|
    ensures SelectionsIn(ScanBranch(env, s, p).1.sent)
            <= SelectionsIn(s.sent) + 1 + if |p| < DIGITS then WorstCase(DIGITS - |p|, 10) else 0
    decreases DIGITS + 1 - |p|, 0
  {
    hide SelectionsIn, SendSelect, ReadAddress, ScanFrom, WorstCase, MaskId, MaskOf;
    var id := MaskId(MaskOf(p));
    SentByProbe(env, s, id);
    var s1 := SendSelect(env, s, id).1;
    SentByProbe(env, s1, id);
    var s2 := ReadAddress(env, s1).1;
    if |p| < DIGITS {
      WorkIsBounded(env, s1, p, 0);
      WorkIsBounded(env, s2, p, 0);
    }
  }

  lemma {:induction false} WorstCaseValue(levels: nat, digits: nat)
    requires levels > 0 && digits <= 10
    ensures 9 * WorstCase(levels, digits) == digits * (Pow(10, levels) - 1)
    decreases levels, digits
  {
    if digits > 0 {
      WorstCaseValue(levels, digits - 1);
      if levels > 1 { WorstCaseValue(levels - 1, 10); }
      assert Pow(10, levels) == 10 * Pow(10, levels - 1);
      assert digits * (Pow(10, levels) - 1) == (digits - 1) * (Pow(10, levels) - 1) + (Pow(10, levels) - 1);
    }
  }

  /** Whatever the bus answers, the search ends within 10 + 10^2 + ... + 10^8 selections. */
  lemma SearchTerminates(env: Env, s: Stream)
    ensures SelectionsIn(ScanFrom(env, s, [], 0).1.sent) <= SelectionsIn(s.sent) + 111_111_110
  {
    hide ScanFrom, SelectionsIn, WorstCase;
    WorkIsBounded(env, s, [], 0);
    WorstCaseTotal(DIGITS, 10);
  }

  lemma WorstCaseTotal(levels: nat, digits: nat)
    requires levels == DIGITS && digits == 10
    ensures WorstCase(levels, digits) == 111_111_110
  {
    hide WorstCase;
    WorstCaseValue(levels, digits);
    PowAdd(10, 4, 4);
    assert Pow(10, 2) == 100 && Pow(10, 4) == 10_000;
  }

  // ---------------------------------------------------------------- what one selection answers

  /** The first bytes that arrive together. */
  function FirstChunk(script: seq<Event>): seq<byte> {
    if script == [] then []
    else if script[0].Data? && script[0].bytes != [] then script[0].bytes
    else FirstChunk(script[1..])
  }

  lemma {:induction false} FillFirst(s: Stream)
    requires Healthy(s.script)
    ensures var (e, s') := Fill(s);
      && e == (if FirstChunk(s.script) == [] then Some(ReadTimeout) else None)
      && s'.buf == s.buf + FirstChunk(s.script) && Healthy(s'.script)
      && Delivered(s.script) == FirstChunk(s.script) + Delivered(s'.script)
      && (FirstChunk(s.script) == [] <==> Delivered(s.script) == [])
    decreases |s.script|
  {
    assert s.buf + [] == s.buf;
    if s.script != [] {
      assert s.script[0] in s.script;
      if !s.script[0].Data? || s.script[0].bytes == [] {
        FillFirst(s.(script := s.script[1..]));
        assert [] + Delivered(s.script[1..]) == Delivered(s.script[1..]);
      }
    }
  }

  /** Past the first byte of a frame a probe reads like ReadLongFrame, except that it drops what is no frame. */
  lemma {:induction false} FinishIsRead(s: Stream)
    requires s.buf != [] && s.buf[0] != ACK
    ensures FinishProbe(s).0 == ReadLong(s).0
    ensures ReadLong(s).0.Ok? || !ReadLong(s).0.error.BadFrame? ==> FinishProbe(s) == ReadLong(s)
    decreases |s.script|
  {
    hide ParseLongFrame;
    if ParseLongFrame(s.buf) == Err(NeedMore) {
      var (e, s') := Fill(s);
      FillExtends(s);
      if e.None? { FinishIsRead(s'); }
    }
  }

  lemma {:induction false} FillExtends(s: Stream)
    ensures Fill(s).0.None? ==> s.buf <= Fill(s).1.buf && s.buf != Fill(s).1.buf
    decreases |s.script|
  {
    if s.script != [] && (s.script[0].Quiet? || s.script[0].Data?) {
      FillExtends(s.(script := s.script[1..]));
    }
  }

  /** Bytes that start a frame and do not finish it. */
  predicate IsCutShort(d: seq<byte>) {
    d != [] && d[0] != ACK && ParseLongFrame(d) == Err(NeedMore)
  }

  /** With only bytes and silence to come, whatever the client holds: a selection counts as answered by one slave iff
      the bytes it holds, or the first to arrive when it holds none, are exactly one acknowledgement; and as
      unanswered iff there are none at all, or held and arriving bytes together only start a frame, which stays
      buffered. Everything else is a collision, and what was read is dropped. */
  lemma SelectClassified(env: Env, s: Stream, id: seq<byte>)
    requires |id| == 4
    requires var h := s.sent + [SelectFrame(id)];
      env.fails(h).None? && !env.over(s.sent) && Healthy(s.script + env.respond(h))
    ensures var arriving := s.script + env.respond(s.sent + [SelectFrame(id)]);
      var first := if s.buf != [] then s.buf else FirstChunk(arriving);
      var d := s.buf + Delivered(arriving);
      var (r, s') := SendSelect(env, s, id);
      && r == Ok(if first == [ACK] then Single else if d == [] || IsCutShort(d) then Silent else Collision)
      && s'.buf == (if r == Ok(Silent) then d else [])
      && s'.sent == s.sent + [SelectFrame(id)]
  {
    hide ParseLongFrame, Probe, SelectFrame;
    ProbeClassified(Write(env, s, SelectFrame(id)).1);
  }

  /** What a probe reads, by the bytes it holds or else receives first, and by all it will ever receive. */
  lemma ProbeClassified(s: Stream)
    requires Healthy(s.script)
    ensures var first := if s.buf != [] then s.buf else FirstChunk(s.script);
      var d := s.buf + Delivered(s.script);
      var (r, s') := Probe(s);
      && (first == [] <==> d == []) && (first != [] ==> d[0] == first[0])
      && if d == [] || IsCutShort(d) then r == Err(ReadTimeout) && s'.buf == d
         else if first[0] == ACK then r == Ok([ACK]) && s'.buf == first[1..]
         else (r.Ok? && r.value != [ACK]) || (r.Err? && r.error.BadFrame?)
  {
    hide ParseLongFrame, FinishProbe, Fill;
    FillFirst(s);
    var s2 := if s.buf != [] then s else Fill(s).1;
    assert [] + FirstChunk(s.script) == FirstChunk(s.script) && [] + Delivered(s.script) == Delivered(s.script);
    if s2.buf != [] {
      assert Pending(s2) == s.buf + Delivered(s.script) && Pending(s2)[0] == s2.buf[0];
      ProbeVerdict(s2);
    }
  }

  /** A probe that holds its first byte. */
  lemma ProbeVerdict(s: Stream)
    requires Healthy(s.script) && s.buf != []
    ensures var (r, s') := FinishProbe(s);
      if s.buf[0] == ACK then r == Ok([ACK]) && s' == s.(buf := s.buf[1..])
      else if IsCutShort(Pending(s)) then r == Err(ReadTimeout) && s'.buf == Pending(s)
      else (r.Ok? && r.value != [ACK]) || (r.Err? && r.error.BadFrame?)
  {
    hide ParseLongFrame, ReadLong, FinishProbe;
    assert Pending(s)[0] == s.buf[0];
    if s.buf[0] == ACK {
      AckEndsProbe(s);
    } else {
      FinishIsRead(s);
      ChunkingIndependence(s);
      ReadLongKeeps(s);
      TimeoutIsDry(s);
      LongIsNoAck(s);
    }
  }

  lemma AckEndsProbe(s: Stream)
    requires s.buf != [] && s.buf[0] == ACK
    ensures FinishProbe(s) == (Ok([ACK]), s.(buf := s.buf[1..]))
  {
  }

  lemma LongIsNoAck(s: Stream)
    ensures ReadLong(s).0.Ok? ==> ReadLong(s).0.value != [ACK]
  {
    hide ReadLong;
    ReadLongKeeps(s);
  }

  /** A read that times out on a healthy transport has taken in everything. */
  lemma {:induction false} TimeoutIsDry(s: Stream)
    requires Healthy(s.script)
    ensures ReadLong(s).0 == Err(ReadTimeout) ==> ReadLong(s).1.buf == Pending(s)
    decreases |s.script|
  {
    hide ParseLongFrame;
    if ParseLongFrame(s.buf) == Err(NeedMore) {
      FillKeeps(s);
      var (e, s') := Fill(s);
      if e.None? {
        TimeoutIsDry(s');
      } else {
        assert s.buf + [] == s.buf;
      }
    }
  }

  /** scan.go:247-248 says that no answer means nothing matched. One garbled byte reads as no answer too, and stays
      in the buffer, ahead of the next selection's answer. */
  lemma GarbleReadsAsSilence(id: seq<byte>) returns (env: Env, s: Stream)
    requires |id| == 4
    ensures s.buf == [] && Delivered(env.respond(s.sent + [SelectFrame(id)])) == [0x00]
    ensures SendSelect(env, s, id).0 == Ok(Silent) && SendSelect(env, s, id).1.buf == [0x00]
  {
    env, s := Answered(id, [], [0x00]);
  }

  /** There the next slave's acknowledgement goes unheard. */
  lemma AcknowledgementReadsAsSilence(id: seq<byte>) returns (env: Env, s: Stream)
    requires |id| == 4
    ensures s.buf == [0x00] && Delivered(env.respond(s.sent + [SelectFrame(id)])) == [ACK]
    ensures SendSelect(env, s, id).0 == Ok(Silent) && SendSelect(env, s, id).1.buf == [0x00, ACK]
  {
    env, s := Answered(id, [0x00], [ACK]);
  }

  lemma Answered(id: seq<byte>, held: seq<byte>, answer: seq<byte>) returns (env: Env, s: Stream)
    requires |id| == 4 && answer != [] && |held + answer| < 4 && (held + answer)[0] != ACK
    ensures s.buf == held && Delivered(env.respond(s.sent + [SelectFrame(id)])) == answer
    ensures SendSelect(env, s, id).0 == Ok(Silent) && SendSelect(env, s, id).1.buf == held + answer
  {
    hide SelectFrame, SendSelect;
    var script := [Data(answer)];
    env := Env(_ => script, _ => None, _ => false);
    s := Stream(held, [], []);
    assert script[1..] == [] && answer + [] == answer && [] + script == script;
    SelectClassified(env, s, id);
  }

  // ---------------------------------------------------------------- an ideal bus

  predicate NibbleMatches(filter: nat, digit: nat) { filter == 15 || filter == digit }

  /** A slave compares the filter with its own ID field nibble by nibble. */
  predicate FilterMatches(id: seq<byte>, f: seq<byte>)
    requires |id| == 4 && IsSlave(f)
  {
    forall i :: 0 <= i < 4 ==> NibbleMatches(id[i] / 16, f[7 + i] / 16) && NibbleMatches(id[i] % 16, f[7 + i] % 16)
  }

  function Selected(slaves: seq<seq<byte>>, id: seq<byte>): seq<seq<byte>>
    requires AllSlaves(slaves) && |id| == 4
  {
    if slaves == [] then []
    else (if FilterMatches(id, slaves[0]) then [slaves[0]] else []) + Selected(slaves[1..], id)
  }

  /** The slaves listening at address 253: those the last selection matched. */
  function Listening(slaves: seq<seq<byte>>, h: History): seq<seq<byte>>
    requires AllSlaves(slaves)
  {
    if h == [] then []
    else if IsSelection(h[|h| - 1]) then Selected(slaves, h[|h| - 1][7..11])
    else Listening(slaves, h[..|h| - 1])
  }

  /** Exactly b arrives, in one piece, possibly after some silence. */
  predicate Burst(script: seq<Event>, b: seq<byte>) {
    FirstChunk(script) == b && Delivered(script) == b
  }

  function Acks(n: nat): (s: seq<byte>)
    ensures |s| == n && forall i :: 0 <= i < n ==> s[i] == ACK
  {
    seq(n, _ => ACK)
  }

  /** Every selected slave acknowledges, the acknowledgements arriving together; a slave selected alone sends
      its frame, split any way at all. What several slaves would send is not restricted. */
  predicate Answers(slaves: seq<seq<byte>>, h: History, events: seq<Event>)
    requires AllSlaves(slaves)
  {
    h != [] ==>
      var listening := Listening(slaves, h);
      && (IsSelection(h[|h| - 1]) ==> Healthy(events) && Burst(events, Acks(|listening|)))
      && (h[|h| - 1] == RequestUd2(ADDR_SECONDARY, false) && |listening| == 1 ==>
            Healthy(events) && Delivered(events) == listening[0])
  }

  ghost predicate IdealBus(env: Env, slaves: seq<seq<byte>>)
    requires AllSlaves(slaves)
  {
    forall h: History :: env.fails(h).None? && !env.over(h) && Answers(slaves, h, env.respond(h))
  }

  function BusResponse(slaves: seq<seq<byte>>, h: History): seq<Event>
    requires AllSlaves(slaves)
  {
    if h == [] then []
    else
      var listening := Listening(slaves, h);
      if IsSelection(h[|h| - 1]) then (if listening == [] then [] else [Data(Acks(|listening|))])
      else if h[|h| - 1] == RequestUd2(ADDR_SECONDARY, false) && |listening| == 1 then [Data(listening[0])]
      else []
  }

  function BusEnv(slaves: seq<seq<byte>>): Env
    requires AllSlaves(slaves)
  {
    Env(h => BusResponse(slaves, h), _ => None, _ => false)
  }

  /** Every list of slaves makes an ideal bus. */
  lemma IdealBusExists(slaves: seq<seq<byte>>)
    requires AllSlaves(slaves)
    ensures IdealBus(BusEnv(slaves), slaves)
  {
    hide IsSlave, IsSelection, RequestUd2, Listening;
    SelectionIsRecognised([0, 0, 0, 0]);
    forall h: History ensures Answers(slaves, h, BusEnv(slaves).respond(h)) {
      if h != [] {
        var listening := Listening(slaves, h);
        OneChunk(Acks(|listening|));
        assert listening == [] ==> Acks(|listening|) == [];
        if |listening| == 1 { OneChunk(listening[0]); }
      }
    }
  }

  lemma OneChunk(b: seq<byte>)
    ensures Healthy([Data(b)]) && Delivered([Data(b)]) == b && FirstChunk([Data(b)]) == b
    ensures Healthy([]) && Delivered([]) == [] && FirstChunk([]) == []
  {
    assert [Data(b)][1..] == [] && b + [] == b;
  }

  /** Nothing buffered and nothing on its way. */
  predicate Idle(s: Stream) {
    Healthy(s.script) && s.buf == [] && Delivered(s.script) == []
  }

  lemma {:induction false} MaskSelects(slaves: seq<seq<byte>>, p: seq<nat>)
    requires AllSlaves(slaves) && IsPrefix(p)
    ensures Selected(slaves, MaskId(MaskOf(p))) == Under(slaves, p)
  {
    if slaves != [] {
      MaskMatches(slaves[0], p);
      MaskSelects(slaves[1..], p);
    }
  }

  /** A mask matches a slave iff its fixed digits are a prefix of the slave's number. */
  lemma MaskMatches(f: seq<byte>, p: seq<nat>)
    requires IsSlave(f) && IsPrefix(p)
    ensures FilterMatches(MaskId(MaskOf(p)), f) <==> p <= IdOf(f)
  {
    hide IsLongFrame, IsSlave, MaskId, FilterMatches, FieldDigits;
    var mask := MaskOf(p);
    var d := IdOf(f);
    MatchesByDigit(MaskId(mask), mask, f);
    if p <= d {
      assert forall k :: 0 <= k < |p| ==> p[k] == d[k];
      assert forall k :: 0 <= k < DIGITS ==> NibbleMatches(MaskNibble(mask[k]).value, d[k]);
    }
    if FilterMatches(MaskId(mask), f) {
      forall k | 0 <= k < |p| ensures p[k] == d[k] {
        assert NibbleMatches(MaskNibble(mask[k]).value, d[k]);
      }
    }
  }

  lemma MatchesByDigit(id: seq<byte>, mask: seq<byte>, f: seq<byte>)
    requires IsSlave(f) && ValidMask(mask) && id == MaskId(mask)
    ensures FilterMatches(id, f) <==> forall k :: 0 <= k < DIGITS ==>
        NibbleMatches(MaskNibble(mask[k]).value, IdOf(f)[k])
  {
    hide IsLongFrame, MaskNibble, NibbleMatches;
    FourFields(f[7..11]);
    forall i | 0 <= i < 4
      ensures id[i] / 16 == MaskNibble(mask[2 * (3 - i)]).value && id[i] % 16 == MaskNibble(mask[2 * (3 - i) + 1]).value
      ensures f[7 + i] / 16 == IdOf(f)[2 * (3 - i)] && f[7 + i] % 16 == IdOf(f)[2 * (3 - i) + 1]
    {
      NibbleBound(mask[2 * (3 - i)]);
      NibbleBound(mask[2 * (3 - i) + 1]);
    }
    if FilterMatches(id, f) {
      forall k | 0 <= k < DIGITS ensures NibbleMatches(MaskNibble(mask[k]).value, IdOf(f)[k]) {
        var i := 3 - k / 2;
        assert NibbleMatches(id[i] / 16, f[7 + i] / 16) && NibbleMatches(id[i] % 16, f[7 + i] % 16);
      }
    }
  }

  lemma NibbleBound(c: byte)
    ensures MaskNibble(c).Some? ==> MaskNibble(c).value < 16
  {
  }

  lemma SelectionIsRecognised(id: seq<byte>)
    requires |id| == 4
    ensures IsSelection(SelectFrame(id)) && SelectFrame(id)[7..11] == id
    ensures !IsSelection(RequestUd2(ADDR_SECONDARY, false))
  {
    assert SelectFrame(id)[7..11] == id;
  }

  lemma {:induction false} FirstAfterSilence(a: seq<Event>, events: seq<Event>)
    requires Healthy(a) && Delivered(a) == []
    ensures FirstChunk(a + events) == FirstChunk(events)
  {
    if a == [] {
      assert a + events == events;
    } else {
      assert (a + events)[1..] == a[1..] + events;
      assert a[0] in a;
      FirstAfterSilence(a[1..], events);
    }
  }

  /** A selection is classified by how many slaves it matched. */
  lemma SelectIdeal(env: Env, s: Stream, slaves: seq<seq<byte>>, p: seq<nat>)
    requires AllSlaves(slaves) && IdealBus(env, slaves) && Idle(s) && IsPrefix(p)
    ensures var id := MaskId(MaskOf(p));
      var n := |Under(slaves, p)|;
      var (r, s') := SendSelect(env, s, id);
      && r == Ok(if n == 0 then Silent else if n == 1 then Single else Collision)
      && Idle(s') && s'.sent == s.sent + [SelectFrame(id)] && Listening(slaves, s'.sent) == Under(slaves, p)
  {
    hide SelectFrame, RequestUd2, IsSelection, AllSlaves, Under, MaskId, MaskOf, SendSelect, Idle;
    var id := MaskId(MaskOf(p));
    var h := s.sent + [SelectFrame(id)];
    SelectionIsRecognised(id);
    MaskSelects(slaves, p);
    assert h[|h| - 1] == SelectFrame(id);
    assert Answers(slaves, h, env.respond(h));
    SelectAcks(env, s, id, |Under(slaves, p)|);
  }

  /** A selection answered by n acknowledgements at once. */
  lemma SelectAcks(env: Env, s: Stream, id: seq<byte>, n: nat)
    requires |id| == 4 && Idle(s)
    requires var h := s.sent + [SelectFrame(id)];
      env.fails(h).None? && !env.over(s.sent) && Healthy(env.respond(h)) && Burst(env.respond(h), Acks(n))
    ensures var (r, s') := SendSelect(env, s, id);
      && r == Ok(if n == 0 then Silent else if n == 1 then Single else Collision)
      && Idle(s') && s'.sent == s.sent + [SelectFrame(id)]
  {
    hide SelectFrame, ParseLongFrame, IsNoise;
    var h, b := s.sent + [SelectFrame(id)], Acks(n);
    DeliveredAppend(s.script, env.respond(h));
    FirstAfterSilence(s.script, env.respond(h));
    var s1 := s.(sent := h, script := s.script + env.respond(h));
    FillFirst(s1);
    assert |Delivered(Fill(s1).1.script)| == 0 && [] + b == b;
    if n > 0 {
      AckEndsProbe(Fill(s1).1);
      assert b[0] == ACK && (b[1..] == [] <==> n == 1);
    }
  }

  /** A lone slave's frame is read whole, however it is split. */
  lemma ProbeReadsFrame(s: Stream, f: seq<byte>)
    requires Healthy(s.script) && s.buf == [] && Delivered(s.script) == f && IsLongFrame(f)
    ensures Probe(s).0 == Ok(f) && Idle(Probe(s).1)
  {
    hide ParseLongFrame, ReadLong, FinishProbe;
    FillKeeps(s);
    var (e, s1) := Fill(s);
    FillExtends(s);
    assert Pending(s) == f && Pending(s1) == f;
    assert s1.buf[0] == f[0] == 0x68;
    ParseLongFrameExact(f, f, |f|);
    ChunkingIndependence(s1);
    ReadLongKeeps(s1);
    FinishIsRead(s1);
    assert |Pending(ReadLong(s1).1)| == 0;
  }

  lemma AddressIdeal(env: Env, s: Stream, slaves: seq<seq<byte>>, f: seq<byte>)
    requires AllSlaves(slaves) && IdealBus(env, slaves) && Idle(s) && Listening(slaves, s.sent) == [f] && IsSlave(f)
    ensures var (r, s') := ReadAddress(env, s);
      && r == Ok(AddressOf(f)) && Idle(s') && s'.sent == s.sent + [RequestUd2(ADDR_SECONDARY, false)]
  {
    hide RequestUd2, IsSelection, AllSlaves, Probe, IsLongFrame;
    var h := s.sent + [RequestUd2(ADDR_SECONDARY, false)];
    assert h[..|h| - 1] == s.sent && h[|h| - 1] == RequestUd2(ADDR_SECONDARY, false);
    SelectionIsRecognised([0, 0, 0, 0]);
    assert Answers(slaves, h, env.respond(h));
    DeliveredAppend(s.script, env.respond(h));
    ProbeReadsFrame(s.(sent := h, script := s.script + env.respond(h)), f);
    HeaderIsRead(f);
  }

  lemma HeaderIsRead(f: seq<byte>)
    requires IsSlave(f)
    ensures FromHeader(f) == Ok(AddressOf(f))
  {
    DecimalBound(f[7..11]);
    assert Pow(100, 2) == 10_000 && Pow(100, 4) == 10_000 * Pow(100, 2);
  }

  lemma {:induction false} ScanIdeal(env: Env, s: Stream, slaves: seq<seq<byte>>, prefix: seq<nat>, digit: nat)
    requires AllSlaves(slaves) && IdealBus(env, slaves) && Idle(s)
    requires IsPrefix(prefix) && |prefix| < DIGITS && digit <= 10
    ensures var (r, s') := ScanFrom(env, s, prefix, digit);
      && r == Ok(Found(slaves, prefix, digit)) && Idle(s')
      && SelectionsIn(s'.sent) == SelectionsIn(s.sent) + Selections(slaves, prefix, digit)
    decreases DIGITS - |prefix|, 11 - digit
  {
    hide AllSlaves, ScanBranch, FoundAt, SelectionsAt, SelectionsIn, Idle, Answers;
    if digit < 10 {
      assert !env.over(s.sent);
      var p := prefix + [digit];
      BranchIdeal(env, s, slaves, p);
      ScanIdeal(env, ScanBranch(env, s, p).1, slaves, prefix, digit + 1);
    }
  }

  lemma {:induction false} BranchIdeal(env: Env, s: Stream, slaves: seq<seq<byte>>, p: seq<nat>)
    requires AllSlaves(slaves) && IdealBus(env, slaves) && Idle(s) && IsPrefix(p) && 1 <= |p|
    ensures var (r, s') := ScanBranch(env, s, p);
      && r == Ok(FoundAt(slaves, p)) && Idle(s')
      && SelectionsIn(s'.sent) == SelectionsIn(s.sent) + SelectionsAt(slaves, p)
    decreases DIGITS + 1 - |p|, 0
  {
    hide IsSlave, Under, IdealBus, Idle, SendSelect, ReadAddress, ScanFrom, Found, Selections, SelectFrame,
      IsSelection, RequestUd2;
    var id := MaskId(MaskOf(p));
    var u := Under(slaves, p);
    SelectIdeal(env, s, slaves, p);
    var s1 := SendSelect(env, s, id).1;
    SelectionIsRecognised(id);
    CountOne(s.sent, SelectFrame(id));
    if |u| == 1 {
      AddressIdeal(env, s1, slaves, u[0]);
      CountOne(s1.sent, RequestUd2(ADDR_SECONDARY, false));
    } else if |u| >= 2 && |p| < DIGITS {
      ScanIdeal(env, s1, slaves, p, 0);
    }
  }

  lemma CountOne(h: History, frame: seq<byte>)
    ensures SelectionsIn(h + [frame]) == SelectionsIn(h) + if IsSelection(frame) then 1 else 0
  {
    assert (h + [frame])[..|h|] == h;
  }

  // ---------------------------------------------------------------- a client that holds bytes

  /** Nothing on its way, and nothing held but the start of a frame. */
  predicate Settled(s: Stream) {
    Healthy(s.script) && Delivered(s.script) == [] && (s.buf == [] || IsCutShort(s.buf))
  }

  /** The first digit, from `digit` on, whose acknowledgements together with the bytes held are no longer the start of
      a frame: until then every selection seems unanswered. */
  function Resync(slaves: seq<seq<byte>>, held: seq<byte>, digit: nat): (d: nat)
    requires AllSlaves(slaves) && digit <= 10
    ensures digit <= d <= 10
    decreases 10 - digit
  {
    if digit == 10 then 10
    else
      var all := held + Acks(|Under(slaves, [digit])|);
      if IsCutShort(all) then Resync(slaves, all, digit + 1) else digit
  }

  lemma NothingHeld(slaves: seq<seq<byte>>)
    requires AllSlaves(slaves)
    ensures Resync(slaves, [], 0) == 0
  {
    hide ParseLongFrame, Under;
    var n := |Under(slaves, [0])|;
    assert [] + Acks(n) == Acks(n);
  }

  lemma DryStays(s: Stream)
    requires Healthy(s.script) && Delivered(s.script) == []
    ensures Healthy(FinishProbe(s).1.script) && Delivered(FinishProbe(s).1.script) == []
  {
    hide ParseLongFrame;
    FillFirst(s);
    assert |Delivered(Fill(s).1.script)| == 0;
  }

  /** A selection on top of the start of a frame: unanswered while that is all there is, else a collision that clears
      the line. */
  lemma SelectOnTop(env: Env, s: Stream, id: seq<byte>, n: nat)
    requires |id| == 4 && Settled(s) && s.buf != []
    requires var h := s.sent + [SelectFrame(id)];
      env.fails(h).None? && !env.over(s.sent) && Healthy(env.respond(h)) && Burst(env.respond(h), Acks(n))
    ensures var (r, s') := SendSelect(env, s, id);
      var all := s.buf + Acks(n);
      && r == Ok(if IsCutShort(all) then Silent else Collision) && s'.buf == (if IsCutShort(all) then all else [])
      && Settled(s') && s'.sent == s.sent + [SelectFrame(id)]
  {
    hide SelectFrame, ParseLongFrame, IsNoise, FinishProbe;
    var h := s.sent + [SelectFrame(id)];
    DeliveredAppend(s.script, env.respond(h));
    FirstAfterSilence(s.script, env.respond(h));
    SelectClassified(env, s, id);
    var s1 := Write(env, s, SelectFrame(id)).1;
    FillFirst(s1);
    assert |Delivered(Fill(s1).1.script)| == 0;
    HeldProbe(s1);
  }

  /** A probe that holds the start of a frame reads one more chunk. */
  lemma HeldProbe(s: Stream)
    requires Healthy(s.script) && IsCutShort(s.buf) && Delivered(Fill(s).1.script) == []
    ensures Probe(s) == FinishProbe(s)
    ensures Healthy(FinishProbe(s).1.script) && Delivered(FinishProbe(s).1.script) == []
  {
    hide ParseLongFrame;
    FillFirst(s);
    DryStays(Fill(s).1);
  }

  lemma ReselectIdeal(env: Env, s: Stream, slaves: seq<seq<byte>>, p: seq<nat>)
    requires AllSlaves(slaves) && IdealBus(env, slaves) && Settled(s) && s.buf != [] && IsPrefix(p)
    ensures var id := MaskId(MaskOf(p));
      var all := s.buf + Acks(|Under(slaves, p)|);
      var (r, s') := SendSelect(env, s, id);
      && r == Ok(if IsCutShort(all) then Silent else Collision) && s'.buf == (if IsCutShort(all) then all else [])
      && Settled(s') && SelectionsIn(s'.sent) == SelectionsIn(s.sent) + 1
  {
    hide SelectFrame, RequestUd2, IsSelection, AllSlaves, Under, MaskId, MaskOf, SendSelect, Settled, IsCutShort;
    var id := MaskId(MaskOf(p));
    var h := s.sent + [SelectFrame(id)];
    SelectionIsRecognised(id);
    MaskSelects(slaves, p);
    assert h[|h| - 1] == SelectFrame(id);
    assert Answers(slaves, h, env.respond(h));
    SelectOnTop(env, s, id, |Under(slaves, p)|);
    CountOne(s.sent, SelectFrame(id));
  }

  /** What a branch comes to once its selection is classified, if not as one slave. */
  lemma BranchFollows(env: Env, s: Stream, p: seq<nat>)
    requires IsPrefix(p) && 1 <= |p|
    ensures var (r, s1) := SendSelect(env, s, MaskId(MaskOf(p)));
      && (r == Ok(Silent) ==> ScanBranch(env, s, p) == (Ok([]), s1))
      && (r == Ok(Collision) ==> ScanBranch(env, s, p) == Narrow(env, s1, p))
  {
    hide SendSelect, MaskId, MaskOf, Narrow;
  }

  /** On an ideal bus, from the start of a frame: nothing is found until the search is in step again, and everything
      from there on. */
  lemma {:induction false} ScanResyncs(env: Env, s: Stream, slaves: seq<seq<byte>>, digit: nat)
    requires AllSlaves(slaves) && IdealBus(env, slaves) && Settled(s) && s.buf != [] && digit <= 10
    ensures var d := Resync(slaves, s.buf, digit);
      var (r, s') := ScanFrom(env, s, [], digit);
      && r == Ok(Found(slaves, [], d)) && Settled(s') && (d < 10 ==> s'.buf == [])
      && SelectionsIn(s'.sent) == SelectionsIn(s.sent) + d - digit + CostAt(slaves, d)
    decreases 10 - digit
  {
    hide AllSlaves, IdealBus, SendSelect, ScanBranch, MaskId, MaskOf, SelectionsIn, IsCutShort, Settled, Narrow, Found,
      FoundAt, CostAt, Under;
    if digit == 10 {
      NothingLeft(slaves);
    } else {
      var p := [digit];
      assert [] + p == p;
      IdealIsUp(env, slaves, s.sent);
      ReselectIdeal(env, s, slaves, p);
      BranchFollows(env, s, p);
      var s1 := SendSelect(env, s, MaskId(MaskOf(p))).1;
      if IsCutShort(s.buf + Acks(|Under(slaves, p)|)) {
        ScanResyncs(env, s1, slaves, digit + 1);
        PrependNothing(ScanFrom(env, s1, [], digit + 1).0);
      } else {
        NarrowsInStep(env, s1, slaves, digit);
      }
    }
  }

  /** Selections of a search that falls into step at digit d: the one that collides, all below it, and the rest. */
  function CostAt(slaves: seq<seq<byte>>, d: nat): nat
    requires AllSlaves(slaves)
  {
    if d < 10 then 1 + Selections(slaves, [d], 0) + Selections(slaves, [], d + 1) else 0
  }

  lemma NothingLeft(slaves: seq<seq<byte>>)
    requires AllSlaves(slaves)
    ensures Found(slaves, [], 10) == [] && CostAt(slaves, 10) == 0
  {
  }

  lemma IdealIsUp(env: Env, slaves: seq<seq<byte>>, h: History)
    requires AllSlaves(slaves) && IdealBus(env, slaves)
    ensures !env.over(h)
  {
    assert env.fails(h).None?;
  }

  lemma NarrowsInStep(env: Env, s: Stream, slaves: seq<seq<byte>>, digit: nat)
    requires AllSlaves(slaves) && IdealBus(env, slaves) && Settled(s) && s.buf == [] && digit < 10
    ensures var (r1, s1) := Narrow(env, s, [digit]);
      var (r2, s2) := ScanFrom(env, s1, [], digit + 1);
      && r1.Ok? && r2.Ok? && r1.value + r2.value == Found(slaves, [], digit) && Settled(s2) && s2.buf == []
      && SelectionsIn(s2.sent) == SelectionsIn(s.sent) - 1 + CostAt(slaves, digit)
  {
    hide IdealBus, ScanFrom, SelectionsIn, Selections, AllSlaves, FoundAt;
    ScanIdeal(env, s, slaves, [digit], 0);
    ScanIdeal(env, ScanFrom(env, s, [digit], 0).1, slaves, [], digit + 1);
    NarrowedIsFound(slaves, [digit]);
    assert [] + [digit] == [digit];
  }

  /** On every ideal bus, from a client that holds nothing or the start of a frame, the search succeeds. It returns
      the header address of exactly the slaves whose number no other slave has, from the first digit on at which it is
      in step with the bus, in strictly ascending order of number. A client that holds nothing is in step from the
      start: it finds every such slave, and sends exactly ten selections plus ten for every proper prefix of one to
      seven digits that at least two slaves share. */
  lemma SearchIsExact(env: Env, s: Stream, slaves: seq<seq<byte>>)
    requires AllSlaves(slaves) && IdealBus(env, slaves) && Settled(s)
    ensures var (r, s') := ScanFrom(env, s, [], 0);
      var d := Resync(slaves, s.buf, 0);
      && r.Ok? && Ascending(r.value) && Settled(s') && (s.buf == [] ==> d == 0 && s'.buf == [])
      && (forall f :: f in slaves && Solo(slaves, f) ==> (AddressOf(f) in r.value <==> IdOf(f)[0] >= d))
      && (forall a :: a in r.value ==> exists f :: f in slaves && Solo(slaves, f) && a == AddressOf(f))
      && SelectionsIn(s'.sent) == SelectionsIn(s.sent)
           + if s.buf == [] then 10 * (1 + |SharedPrefixes(slaves)|) else d + CostAt(slaves, d)
  {
    hide IdealBus, Settled, ScanFrom, SelectionsIn, SharedPrefixes, Found, AddressOf, IdOf, Selections, CostAt, Resync;
    FoundExactly(slaves, Resync(slaves, s.buf, 0));
    if s.buf == [] {
      SettledIsIdle(s);
      NothingHeld(slaves);
      ScanIdeal(env, s, slaves, [], 0);
      SelectionsExactly(slaves);
      SettledIsIdle(ScanFrom(env, s, [], 0).1);
    } else {
      ScanResyncs(env, s, slaves, 0);
    }
  }

  lemma SettledIsIdle(s: Stream)
    requires s.buf == []
    ensures Settled(s) <==> Idle(s)
  {
  }

  /** scan.go:136 promises every slave on the bus. Holding one stray byte, the client misses the only one, whatever its
      number, and reports success. */
  lemma StrayByteHidesMeter(f: seq<byte>) returns (env: Env, s: Stream)
    requires IsSlave(f)
    ensures IdealBus(env, [f]) && s.buf == [0x00] && s.script == [] && ScanFrom(env, s, [], 0).0 == Ok([])
  {
    hide IsSlave, IdealBus, ScanFrom, Found, Selections, CostAt;
    env := BusEnv([f]);
    s := Stream([0x00], [], []);
    IdealBusExists([f]);
    OneAckAtMost(f, [0x00], 0);
    ScanResyncs(env, s, [f], 0);
    NothingLeft([f]);
  }

  lemma {:induction false} OneAckAtMost(f: seq<byte>, held: seq<byte>, digit: nat)
    requires IsSlave(f) && digit <= 10
    requires held != [] && held[0] == 0x00 && |held| <= if IdOf(f)[0] >= digit then 1 else 2
    ensures Resync([f], held, digit) == 10
    decreases 10 - digit
  {
    hide IsSlave, IdOf, Under, AllSlaves;
    if digit < 10 {
      assert [f] + [] == [f];
      NobodyUnder([digit]);
      UnderCons(f, [], [digit]);
      assert [digit] <= IdOf(f) ==> IdOf(f)[0] == digit;
      var all := held + Acks(|Under([f], [digit])|);
      ShortIsCut(all);
      OneAckAtMost(f, all, digit + 1);
    }
  }

  lemma NobodyUnder(p: seq<nat>)
    ensures AllSlaves([]) && Under([], p) == []
  {
  }

  lemma ShortIsCut(d: seq<byte>)
    requires d != [] && d[0] != ACK && |d| < 4
    ensures IsCutShort(d)
  {
  }

  /** Held bytes that are no start of a frame, and no lone acknowledgement, are dropped by the first selection, as a
      collision. If no number starts with 0 that is all they cost. */
  lemma GarbageIsDropped(env: Env, s: Stream, slaves: seq<seq<byte>>)
    requires AllSlaves(slaves) && IdealBus(env, slaves) && Healthy(s.script) && Delivered(s.script) == []
    requires s.buf != [] && s.buf != [ACK] && !IsCutShort(s.buf) && Under(slaves, [0]) == []
    ensures var (r, s') := ScanFrom(env, s, [], 0);
      && r == Ok(Found(slaves, [], 0)) && Idle(s')
      && SelectionsIn(s'.sent) == SelectionsIn(s.sent) + CostAt(slaves, 0)
  {
    hide AllSlaves, Under, MaskId, MaskOf, SendSelect, ScanBranch, SelectionsIn, IsCutShort, Narrow, Found, FoundAt,
      CostAt, IdealBus;
    assert [] + [0] == [0];
    GarbageCollides(env, s, slaves);
    IdealIsUp(env, slaves, s.sent);
    BranchFollows(env, s, [0]);
    NarrowsInStep(env, SendSelect(env, s, MaskId(MaskOf([0]))).1, slaves, 0);
  }

  lemma GarbageCollides(env: Env, s: Stream, slaves: seq<seq<byte>>)
    requires AllSlaves(slaves) && IdealBus(env, slaves) && Healthy(s.script) && Delivered(s.script) == []
    requires s.buf != [] && s.buf != [ACK] && !IsCutShort(s.buf) && Under(slaves, [0]) == []
    ensures var (r, s') := SendSelect(env, s, MaskId(MaskOf([0])));
      && r == Ok(Collision) && Settled(s') && s'.buf == [] && SelectionsIn(s'.sent) == SelectionsIn(s.sent) + 1
  {
    hide SelectFrame, RequestUd2, IsSelection, AllSlaves, Under, MaskId, MaskOf, SendSelect, SelectionsIn, IsCutShort,
      FinishProbe;
    var id := MaskId(MaskOf([0]));
    var h := s.sent + [SelectFrame(id)];
    SelectionIsRecognised(id);
    MaskSelects(slaves, [0]);
    assert h[|h| - 1] == SelectFrame(id);
    assert Answers(slaves, h, env.respond(h));
    DeliveredAppend(s.script, env.respond(h));
    SelectClassified(env, s, id);
    assert s.buf + [] == s.buf;
    CountOne(s.sent, SelectFrame(id));
    DryProbe(env, s, id);
  }

  lemma DryProbe(env: Env, s: Stream, id: seq<byte>)
    requires |id| == 4 && s.buf != []
    requires var h := s.sent + [SelectFrame(id)];
      && env.fails(h).None? && !env.over(s.sent)
      && Healthy(s.script + env.respond(h)) && Delivered(s.script + env.respond(h)) == []
    ensures Healthy(SendSelect(env, s, id).1.script) && Delivered(SendSelect(env, s, id).1.script) == []
  {
    hide SelectFrame, FinishProbe;
    DryStays(Write(env, s, SelectFrame(id)).1);
  }

  // ---------------------------------------------------------------- ten selections per digit level?

  /** scan.go:143-145 promises ten selections per digit level. That holds of exactly the buses on which at most
      seven proper prefixes are shared, as they are when all sharing is along one number. */
  lemma PerLevelBound(env: Env, s: Stream, slaves: seq<seq<byte>>)
    requires AllSlaves(slaves) && IdealBus(env, slaves) && Settled(s) && s.buf == []
    ensures SelectionsIn(ScanFrom(env, s, [], 0).1.sent) <= SelectionsIn(s.sent) + 10 * DIGITS
      <==> |SharedPrefixes(slaves)| <= 7
  {
    hide ScanFrom, SelectionsIn, SharedPrefixes, IdealBus, Settled, Resync, CostAt;
    SearchIsExact(env, s, slaves);
  }

  /** Four meters, two pairs of neighbours, are enough to exceed it. */
  lemma PerLevelBoundFails() returns (env: Env, s: Stream, slaves: seq<seq<byte>>)
    ensures AllSlaves(slaves) && |slaves| == 4 && (forall f :: f in slaves ==> Solo(slaves, f))
    ensures IdealBus(env, slaves) && s == Stream([], [], [])
    ensures SelectionsIn(ScanFrom(env, s, [], 0).1.sent) > SelectionsIn(s.sent) + 10 * DIGITS
  {
    hide ScanFrom, SelectionsIn, SharedPrefixes, IdealBus, AllSlaves, Solo;
    slaves := FourMeters();
    env, s := BusEnv(slaves), Stream([], [], []);
    IdealBusExists(slaves);
    PerLevelBound(env, s, slaves);
  }

  // ---------------------------------------------------------------- the search itself

  class FoundList {
    var list: seq<Address>

    constructor ()
      ensures list == []
    {
      list := [];
    }
  }

  method SelectMask(c: Client, mask: seq<byte>) returns (r: Result<Answer, Error>)
    modifies c, c.conn
    ensures ValidMask(mask) ==> (r, c.State()) == SendSelect(c.conn.env, old(c.State()), MaskId(mask))
    ensures !ValidMask(mask) ==> r == Err(InvalidMask) && c.State() == old(c.State())
  {
    hide Write, Probe, SelectFrame, MaskId;
    var id := MaskToBcd(mask);
    if id.None? {
      return Err(InvalidMask);
    }
    var frame := BuildSelection(id.value);
    var failed := c.WriteFrame(frame[..]);
    if failed.Some? {
      return Err(failed.value);
    }
    var resp := c.ProbeResponse();
    if resp.Err? {
      if resp.error == ReadTimeout {
        return Ok(Silent);
      }
      if IsNoise(resp.error) {
        c.Consume(|c.buf|);
        return Ok(Collision);
      }
      return Err(resp.error);
    }
    if resp.value != [ACK] || |c.buf| > 0 {
      c.Consume(|c.buf|);
      return Ok(Collision);
    }
    return Ok(Single);
  }

  method ReadSecondaryAddress(c: Client) returns (r: Result<Address, Error>)
    modifies c, c.conn
    ensures (r, c.State()) == ReadAddress(c.conn.env, old(c.State()))
  {
    hide Write, Probe, FromHeader;
    var request := NewShortFrame(0x5B, ADDR_SECONDARY);
    var failed := c.WriteFrame(request[..]);
    if failed.Some? {
      return Err(failed.value);
    }
    var frame :- c.ProbeResponse();
    r := SecondaryFromHeader(frame);
  }

  method SecondaryFromHeader(frame: seq<byte>) returns (r: Result<Address, Error>)
    ensures r == FromHeader(frame)
  {
    if |frame| < HEADER_END {
      return Err(BadFrame(InvalidFrame));
    }
    var id := BcdMagnitude(frame[7..11]);
    if id.None? {
      return Err(BadFrame(InvalidFrame));
    }
    return Ok(Address(id.value, Manufacturer(frame[11], frame[12]), frame[13], frame[14]));
  }

  /** The mask fixes the digits of a prefix and leaves every later position a wildcard. */
  predicate MaskHolds(mask: array<byte>, prefix: seq<nat>)
    reads mask
  {
    mask.Length == DIGITS && IsPrefix(prefix) && mask[..] == MaskOf(prefix)
  }

  lemma SetDigit(prefix: seq<nat>, digit: nat, mask: seq<byte>)
    requires IsPrefix(prefix) && |prefix| < DIGITS && digit <= 9 && |mask| == DIGITS
    requires forall i :: 0 <= i < DIGITS && i != |prefix| ==> mask[i] == MaskOf(prefix)[i]
    ensures mask[|prefix| := digit + 0x30] == MaskOf(prefix + [digit])
  {
  }

  method ScanSecondaryDigit(c: Client, mask: array<byte>, pos: nat, found: FoundList, ghost prefix: seq<nat>)
    returns (r: Option<Error>)
    requires MaskHolds(mask, prefix) && pos == |prefix| < DIGITS
    modifies c, c.conn, mask, found
    ensures var (o, s') := ScanFrom(c.conn.env, old(c.State()), prefix, 0);
      && c.State() == s'
      && (o.Ok? ==> r == None && found.list == old(found.list) + o.value && mask[..] == old(mask[..]))
      && (o.Err? ==> r == Some(o.error))
    decreases DIGITS - pos, 1
  {
    hide SendSelect, ReadAddress, MaskOf, MaskId;
    ghost var env, start, before := c.conn.env, c.State(), found.list;
    var digit := 0;
    assert found.list[|before|..] == [];
    PrependNothing(ScanFrom(env, start, prefix, 0).0);
    while digit <= 9
      invariant 0 <= digit <= 10 && mask.Length == DIGITS && c.conn.env == env
      invariant forall i :: 0 <= i < DIGITS && i != pos ==> mask[i] == MaskOf(prefix)[i]
      invariant before <= found.list
      invariant ScanFrom(env, start, prefix, 0)
                == PrependFirst(found.list[|before|..], ScanFrom(env, c.State(), prefix, digit))
    {
      ghost var sofar := found.list[|before|..];
      ghost var here := c.State();
      if c.conn.env.over(c.conn.sent) {
        return Some(ContextDone);
      }
      SetDigit(prefix, digit, mask[..]);
      mask[pos] := digit + 0x30;
      ghost var p := prefix + [digit];
      assert mask[..] == MaskOf(p);
      var answer := SelectMask(c, mask[..]);
      if answer.Err? {
        return Some(answer.error);
      }
      var narrow := answer.value == Collision;
      if answer.value == Single {
        var addr := ReadSecondaryAddress(c);
        if addr.Ok? {
          found.list := found.list + [addr.value];
        } else if !IsNoise(addr.error) {
          return Some(addr.error);
        } else {
          narrow := true;
        }
      }
      if narrow {
        r := NarrowSecondary(c, mask, pos, found, p);
        if r.Some? {
          return;
        }
      }
      ghost var branch := ScanBranch(env, here, p);
      assert branch.0.Ok? && branch.1 == c.State();
      assert found.list[|before|..] == sofar + branch.0.value;
      PrependTwice(sofar, branch.0.value, ScanFrom(env, c.State(), prefix, digit + 1).0);
      digit := digit + 1;
    }
    mask[pos] := WILDCARD;
    assert mask[..] == MaskOf(prefix) by { WildcardAt(prefix); }
    assert found.list == before + found.list[|before|..];
    return None;
  }

  lemma WildcardAt(prefix: seq<nat>)
    requires IsPrefix(prefix) && |prefix| < DIGITS
    ensures MaskOf(prefix)[|prefix|] == WILDCARD
  {
  }

  method NarrowSecondary(c: Client, mask: array<byte>, pos: nat, found: FoundList, ghost p: seq<nat>)
    returns (r: Option<Error>)
    requires MaskHolds(mask, p) && pos + 1 == |p|
    modifies c, c.conn, mask, found
    ensures var (o, s') := Narrow(c.conn.env, old(c.State()), p);
      && c.State() == s'
      && (o.Ok? ==> r == None && found.list == old(found.list) + o.value && mask[..] == old(mask[..]))
      && (o.Err? ==> r == Some(o.error))
    decreases DIGITS - pos, 0
  {
    if pos + 1 >= DIGITS {
      return None;
    }
    r := ScanSecondaryDigit(c, mask, pos + 1, found, p);
  }

  method ScanSecondary(c: Client) returns (r: Result<seq<Address>, Error>)
    modifies c, c.conn
    ensures (r, c.State()) == ScanFrom(c.conn.env, old(c.State()), [], 0)
  {
    hide ScanFrom, MaskId;
    var mask := new byte[DIGITS](_ => WILDCARD);
    var found := new FoundList();
    assert mask[..] == MaskOf([]);
    var failed := ScanSecondaryDigit(c, mask, 0, found, []);
    if failed.Some? {
      return Err(failed.value);
    }
    ghost var o := ScanFrom(c.conn.env, old(c.State()), [], 0).0;
    assert [] + o.value == o.value;
    return Ok(found.list);
  }
}
