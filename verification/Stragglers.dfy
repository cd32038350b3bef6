/** What becomes of the search when acknowledgements to one selection arrive apart (scan.go). */
module Stragglers {
  import opened Bytes
  import opened Frames
  import opened Streams
  import opened Search
  import opened Scan

  // ---------------------------------------------------------------- one step

  /** A lone acknowledgement that arrives first counts as one slave. When another one comes next, it is read in place of
      that slave's frame and rejected, and the search narrows after all. Bytes that came with it stay buffered. */
  lemma StragglerNarrows(env: Env, s: Stream, p: seq<nat>)
    requires IsPrefix(p) && 1 <= |p| && s.buf == []
    requires var h := s.sent + [SelectFrame(MaskId(MaskOf(p)))];
      && env.fails(h).None? && !env.over(s.sent) && Healthy(s.script + env.respond(h))
      && FirstChunk(s.script + env.respond(h)) == [ACK]
    requires var s1 := SendSelect(env, s, MaskId(MaskOf(p))).1;
      var h := s1.sent + [RequestUd2(ADDR_SECONDARY, false)];
      && env.fails(h).None? && !env.over(s1.sent) && Healthy(s1.script + env.respond(h))
      && FirstChunk(s1.script + env.respond(h)) != [] && FirstChunk(s1.script + env.respond(h))[0] == ACK
    ensures var s1 := SendSelect(env, s, MaskId(MaskOf(p))).1;
      var next := FirstChunk(s1.script + env.respond(s1.sent + [RequestUd2(ADDR_SECONDARY, false)]));
      var (r, s2) := ReadAddress(env, s1);
      && r == Err(BadFrame(InvalidFrame)) && s2.buf == next[1..] && ScanBranch(env, s, p) == Narrow(env, s2, p)
  {
    hide SelectFrame, RequestUd2, SendSelect, MaskId, MaskOf, Narrow, FinishProbe;
    SelectClassified(env, s, MaskId(MaskOf(p)));
    var s1 := SendSelect(env, s, MaskId(MaskOf(p))).1;
    var s2 := Write(env, s1, RequestUd2(ADDR_SECONDARY, false)).1;
    FillFirst(s2);
    AckEndsProbe(Fill(s2).1);
    assert [] + FirstChunk(s2.script) == FirstChunk(s2.script);
  }

  // ---------------------------------------------------------------- a bus whose acknowledgements straggle

  /** As an ideal bus answers, but for the acknowledgements, which may arrive apart. */
  predicate AnswersLoosely(slaves: seq<seq<byte>>, h: History, events: seq<Event>)
    requires AllSlaves(slaves)
  {
    h != [] ==>
      var listening := Listening(slaves, h);
      && (IsSelection(h[|h| - 1]) ==> Healthy(events) && Delivered(events) == Acks(|listening|))
      && (h[|h| - 1] == RequestUd2(ADDR_SECONDARY, false) && |listening| == 1 ==>
            Healthy(events) && Delivered(events) == listening[0])
  }

  ghost predicate LooseBus(env: Env, slaves: seq<seq<byte>>)
    requires AllSlaves(slaves)
  {
    forall h: History :: env.fails(h).None? && !env.over(h) && AnswersLoosely(slaves, h, env.respond(h))
  }

  /** Every acknowledgement by itself; several slaves answering REQ_UD2 garble each other to one byte. */
  function LooseResponse(slaves: seq<seq<byte>>, h: History): seq<Event>
    requires AllSlaves(slaves)
  {
    if h == [] then []
    else
      var listening := Listening(slaves, h);
      if IsSelection(h[|h| - 1]) then seq(|listening|, _ => Data([ACK]))
      else if h[|h| - 1] != RequestUd2(ADDR_SECONDARY, false) || listening == [] then []
      else [Data(if |listening| == 1 then listening[0] else [0x00])]
  }

  function LooseEnv(slaves: seq<seq<byte>>): Env
    requires AllSlaves(slaves)
  {
    Env(h => LooseResponse(slaves, h), _ => None, _ => false)
  }

  lemma {:induction false} AcksApart(n: nat)
    ensures Healthy(seq(n, _ => Data([ACK]))) && Delivered(seq(n, _ => Data([ACK]))) == Acks(n)
  {
    if n > 0 {
      AcksApart(n - 1);
      assert seq(n, _ => Data([ACK]))[1..] == seq(n - 1, _ => Data([ACK]));
      assert [ACK] + Acks(n - 1) == Acks(n);
    }
  }

  lemma LooseEnvIsLoose(slaves: seq<seq<byte>>)
    requires AllSlaves(slaves)
    ensures LooseBus(LooseEnv(slaves), slaves)
  {
    hide IsSlave, IsSelection, RequestUd2, Listening;
    SelectionIsRecognised([0, 0, 0, 0]);
    forall h: History ensures AnswersLoosely(slaves, h, LooseEnv(slaves).respond(h)) {
      if h != [] {
        var listening := Listening(slaves, h);
        AcksApart(|listening|);
        if |listening| == 1 { OneChunk(listening[0]); }
      }
    }
  }

  lemma {:induction false} TimeoutEmpties(s: Stream)
    requires Healthy(s.script)
    ensures Fill(s).0 == Some(ReadTimeout) ==> Fill(s).1.script == []
    ensures Healthy(Fill(s).1.script)
    decreases |s.script|
  {
    if s.script != [] {
      assert s.script[0] in s.script;
      if !s.script[0].Data? || s.script[0].bytes == [] { TimeoutEmpties(s.(script := s.script[1..])); }
    }
  }

  lemma {:induction false} ProbeTimeoutEmpties(s: Stream)
    requires Healthy(s.script)
    ensures FinishProbe(s).0 == Err(ReadTimeout) ==> FinishProbe(s).1.script == []
    decreases |s.script|
  {
    hide ParseLongFrame, Fill;
    if TakeBuffered(s.buf) == Err(NeedMore) {
      TimeoutEmpties(s);
      if Fill(s).0.None? { ProbeTimeoutEmpties(Fill(s).1); }
    }
  }

  /** Up to three bytes that start with a stray one keep a selection from being answered. */
  lemma SelectUnheard(env: Env, s: Stream, slaves: seq<seq<byte>>, p: seq<nat>)
    requires AllSlaves(slaves) && LooseBus(env, slaves) && IsPrefix(p) && Healthy(s.script)
    requires Pending(s) != [] && Pending(s)[0] == 0x00 && |Pending(s)| + |Under(slaves, p)| < 4
    ensures var (r, s') := SendSelect(env, s, MaskId(MaskOf(p)));
      && r == Ok(Silent) && s'.script == [] && s'.buf == Pending(s) + Acks(|Under(slaves, p)|)
  {
    hide SelectFrame, AllSlaves, LooseBus, Under, MaskId, MaskOf, SendSelect, IsCutShort;
    var n := |Under(slaves, p)|;
    LooseAnswer(env, s, slaves, p);
    ShortIsCut(Pending(s) + Acks(n));
    SilentIsDry(env, s, MaskId(MaskOf(p)));
  }

  lemma LooseAnswer(env: Env, s: Stream, slaves: seq<seq<byte>>, p: seq<nat>)
    requires AllSlaves(slaves) && LooseBus(env, slaves) && IsPrefix(p) && Healthy(s.script)
    ensures var h := s.sent + [SelectFrame(MaskId(MaskOf(p)))];
      && env.fails(h).None? && !env.over(s.sent) && Healthy(s.script + env.respond(h))
      && s.buf + Delivered(s.script + env.respond(h)) == Pending(s) + Acks(|Under(slaves, p)|)
  {
    hide SelectFrame, RequestUd2, IsSelection, AllSlaves, Under, MaskId, MaskOf;
    var id := MaskId(MaskOf(p));
    var h := s.sent + [SelectFrame(id)];
    SelectionIsRecognised(id);
    MaskSelects(slaves, p);
    assert h[|h| - 1] == SelectFrame(id);
    LooseIsUp(env, slaves, s.sent);
    assert AnswersLoosely(slaves, h, env.respond(h));
    DeliveredAppend(s.script, env.respond(h));
  }

  /** A selection that bytes keep from being answered takes in everything. */
  lemma SilentIsDry(env: Env, s: Stream, id: seq<byte>)
    requires |id| == 4
    requires var h := s.sent + [SelectFrame(id)];
      && env.fails(h).None? && !env.over(s.sent) && Healthy(s.script + env.respond(h))
      && IsCutShort(s.buf + Delivered(s.script + env.respond(h)))
    ensures var d := s.buf + Delivered(s.script + env.respond(s.sent + [SelectFrame(id)]));
      var (r, s') := SendSelect(env, s, id);
      r == Ok(Silent) && s'.script == [] && s'.buf == d
  {
    hide SelectFrame, FinishProbe, Fill, ParseLongFrame;
    var s1 := Write(env, s, SelectFrame(id)).1;
    ProbeClassified(s1);
    TimeoutEmpties(s1);
    ProbeTimeoutEmpties(s1);
    ProbeTimeoutEmpties(Fill(s1).1);
  }

  lemma {:induction false} ScanUnheard(env: Env, s: Stream, slaves: seq<seq<byte>>, prefix: seq<nat>, digit: nat)
    requires AllSlaves(slaves) && LooseBus(env, slaves) && IsPrefix(prefix) && |prefix| < DIGITS && digit <= 10
    requires Healthy(s.script) && Pending(s) != [] && Pending(s)[0] == 0x00
    requires |Pending(s)| + AcksFrom(slaves, prefix, digit) < 4
    ensures var (r, s') := ScanFrom(env, s, prefix, digit);
      && r == Ok([]) && Healthy(s'.script) && Pending(s') != [] && Pending(s')[0] == 0x00
      && |Pending(s')| == |Pending(s)| + AcksFrom(slaves, prefix, digit)
    decreases 10 - digit
  {
    hide AllSlaves, LooseBus, SendSelect, ScanBranch, MaskId, MaskOf, Under;
    if digit < 10 {
      var p := prefix + [digit];
      SelectUnheard(env, s, slaves, p);
      BranchFollows(env, s, p);
      FoundNothing(env, s, slaves, prefix, digit);
      var s1 := SendSelect(env, s, MaskId(MaskOf(p))).1;
      assert Pending(s1) == s1.buf + [] == s1.buf;
      ScanUnheard(env, s1, slaves, prefix, digit + 1);
    }
  }

  lemma LooseIsUp(env: Env, slaves: seq<seq<byte>>, h: History)
    requires AllSlaves(slaves) && LooseBus(env, slaves)
    ensures !env.over(h)
  {
    assert env.fails(h).None?;
  }

  /** Two acknowledgements apart: the first counts as one slave, the second is read as its reply, and the garbled
      reply is still on its way when the search narrows. */
  lemma BothStraggle(slaves: seq<seq<byte>>, s: Stream, p: seq<nat>)
    requires AllSlaves(slaves) && IsPrefix(p) && 1 <= |p| && |Under(slaves, p)| == 2 && s.buf == [] && s.script == []
    ensures var s2 := ReadAddress(LooseEnv(slaves), SendSelect(LooseEnv(slaves), s, MaskId(MaskOf(p))).1).1;
      && ScanBranch(LooseEnv(slaves), s, p) == Narrow(LooseEnv(slaves), s2, p)
      && s2.buf == [] && s2.script == [Data([0x00])]
  {
    hide SelectFrame, RequestUd2, IsSelection, AllSlaves, Under, MaskId, MaskOf, Narrow, ParseLongFrame;
    var env, id := LooseEnv(slaves), MaskId(MaskOf(p));
    var h := s.sent + [SelectFrame(id)];
    SelectionIsRecognised(id);
    MaskSelects(slaves, p);
    assert h[|h| - 1] == SelectFrame(id);
    assert env.respond(h) == [Data([ACK]), Data([ACK])];
    assert [] + [Data([ACK]), Data([ACK])] == [Data([ACK]), Data([ACK])];
    TwoChunks(s.(sent := h), [ACK]);
    var g := h + [RequestUd2(ADDR_SECONDARY, false)];
    assert g[..|g| - 1] == h && g[|g| - 1] == RequestUd2(ADDR_SECONDARY, false);
    assert env.respond(g) == [Data([0x00])];
    assert [Data([ACK])] + [Data([0x00])] == [Data([ACK]), Data([0x00])];
    TwoChunks(s.(sent := g), [0x00]);
  }

  lemma TwoChunks(s: Stream, b: seq<byte>)
    requires s.buf == []
    ensures Probe(s.(script := [Data([ACK]), Data(b)])) == (Ok([ACK]), s.(script := [Data(b)]))
  {
    var t := s.(script := [Data([ACK]), Data(b)]);
    assert t.script[1..] == [Data(b)] && t.buf + [ACK] == [ACK] && [ACK][1..] == [];
  }

  /** The ideal bus needs its acknowledgements together: when they straggle, any two meters whose numbers differ, but
      not in their first digit, can both be missed by a search that reports success. */
  lemma StragglersHideMeters(f: seq<byte>, g: seq<byte>) returns (env: Env)
    requires IsSlave(f) && IsSlave(g) && IdOf(f) != IdOf(g) && IdOf(f)[0] == IdOf(g)[0]
    ensures AllSlaves([f, g]) && LooseBus(env, [f, g]) && Solo([f, g], f) && Solo([f, g], g)
    ensures ScanFrom(env, Stream([], [], []), [], 0).0 == Ok([])
  {
    hide IsSlave, IdOf, ScanFrom, LooseBus, Solo;
    env := LooseEnv([f, g]);
    LooseEnvIsLoose([f, g]);
    DistinctAreSolo([f, g], f);
    DistinctAreSolo([f, g], g);
    ScanToStragglers(f, g, Stream([], [], []), 0);
  }

  lemma {:induction false} ScanToStragglers(f: seq<byte>, g: seq<byte>, s: Stream, digit: nat)
    requires IsSlave(f) && IsSlave(g) && IdOf(f)[0] == IdOf(g)[0] && digit <= 9 && digit <= IdOf(f)[0]
    requires AllSlaves([f, g]) && s.buf == [] && s.script == []
    ensures ScanFrom(LooseEnv([f, g]), s, [], digit).0 == Ok([])
    decreases 10 - digit
  {
    hide IsSlave, IdOf, AllSlaves, SendSelect, ScanBranch, ScanFrom, MaskId, MaskOf, Under, LooseEnv, LooseBus,
      AcksFrom;
    var slaves := [f, g];
    var env, p := LooseEnv(slaves), [digit];
    assert [] + [digit] == p;
    DigitBound(f, 0);
    LooseEnvIsLoose(slaves);
    PairUnder(f, g, digit);
    if digit < IdOf(f)[0] {
      SelectNobody(slaves, s, p);
      BranchFollows(env, s, p);
      FoundNothing(env, s, slaves, [], digit);
      ScanToStragglers(f, g, ScanBranch(env, s, p).1, digit + 1);
    } else {
      BranchUnheard(slaves, s, p);
      FoundNothing(env, s, slaves, [], digit);
      PairAfter(f, g, digit);
      ScanUnheard(env, ScanBranch(env, s, p).1, slaves, [], digit + 1);
    }
  }

  /** A branch without result leaves the search to the digits after it. */
  lemma FoundNothing(env: Env, s: Stream, slaves: seq<seq<byte>>, prefix: seq<nat>, digit: nat)
    requires AllSlaves(slaves) && LooseBus(env, slaves) && IsPrefix(prefix) && |prefix| < DIGITS && digit < 10
    requires ScanBranch(env, s, prefix + [digit]).0 == Ok([])
    ensures ScanFrom(env, s, prefix, digit)
            == ScanFrom(env, ScanBranch(env, s, prefix + [digit]).1, prefix, digit + 1)
  {
    hide AllSlaves, LooseBus, ScanBranch;
    LooseIsUp(env, slaves, s.sent);
    PrependNothing(ScanFrom(env, ScanBranch(env, s, prefix + [digit]).1, prefix, digit + 1).0);
  }

  lemma BranchUnheard(slaves: seq<seq<byte>>, s: Stream, p: seq<nat>)
    requires AllSlaves(slaves) && LooseBus(LooseEnv(slaves), slaves) && IsPrefix(p) && 1 <= |p| < DIGITS
    requires |Under(slaves, p)| == 2 && AcksFrom(slaves, p, 0) <= 2 && s.buf == [] && s.script == []
    ensures var (r, s') := ScanBranch(LooseEnv(slaves), s, p);
      && r == Ok([]) && Healthy(s'.script) && Pending(s') != [] && Pending(s')[0] == 0x00 && |Pending(s')| <= 3
  {
    hide AllSlaves, SendSelect, ReadAddress, ScanBranch, MaskId, MaskOf, Under, AcksFrom, Narrow, LooseEnv, LooseBus;
    var env := LooseEnv(slaves);
    BothStraggle(slaves, s, p);
    var s2 := ReadAddress(env, SendSelect(env, s, MaskId(MaskOf(p))).1).1;
    OneChunk([0x00]);
    assert Pending(s2) == [] + [0x00] == [0x00];
    NarrowUnheard(env, s2, slaves, p);
  }

  lemma NarrowUnheard(env: Env, s: Stream, slaves: seq<seq<byte>>, p: seq<nat>)
    requires AllSlaves(slaves) && LooseBus(env, slaves) && IsPrefix(p) && 1 <= |p| < DIGITS
    requires Healthy(s.script) && Pending(s) == [0x00] && AcksFrom(slaves, p, 0) <= 2
    ensures var (r, s') := Narrow(env, s, p);
      && r == Ok([]) && Healthy(s'.script) && Pending(s') != [] && Pending(s')[0] == 0x00 && |Pending(s')| <= 3
  {
    hide ScanFrom, LooseBus;
    ScanUnheard(env, s, slaves, p, 0);
  }

  lemma PairUnder(f: seq<byte>, g: seq<byte>, digit: nat)
    requires IsSlave(f) && IsSlave(g) && IdOf(f)[0] == IdOf(g)[0] && digit <= 9
    ensures AllSlaves([f, g])
    ensures |Under([f, g], [digit])| == (if digit == IdOf(f)[0] then 2 else 0) && AcksFrom([f, g], [digit], 0) <= 2
  {
    hide IsSlave, IdOf, AcksFrom;
    assert [f] + [g] == [f, g] && [g] + [] == [g];
    UnderCons(g, [], [digit]);
    UnderCons(f, [g], [digit]);
    StartsWithDigit(f, digit);
    StartsWithDigit(g, digit);
    hide Under;
    AcksOfOne(g, [], [digit], 0);
    AcksOfOne(f, [g], [digit], 0);
    NoneAcknowledge([digit], 0);
  }

  lemma StartsWithDigit(f: seq<byte>, digit: nat)
    requires IsSlave(f)
    ensures [digit] <= IdOf(f) <==> IdOf(f)[0] == digit
  {
    hide IsSlave, IdOf;
    assert [] + [digit] == [digit];
    Extends([], digit, IdOf(f));
  }

  lemma PairAfter(f: seq<byte>, g: seq<byte>, digit: nat)
    requires IsSlave(f) && IsSlave(g) && IdOf(f)[0] == IdOf(g)[0] == digit <= 9
    ensures AllSlaves([f, g]) && AcksFrom([f, g], [], digit + 1) == 0
  {
    hide IsSlave, IdOf, AcksFrom, Under;
    assert [f] + [g] == [f, g] && [g] + [] == [g];
    AcksOfOne(g, [], [], digit + 1);
    AcksOfOne(f, [g], [], digit + 1);
    NoneAcknowledge([], digit + 1);
  }

  lemma SelectNobody(slaves: seq<seq<byte>>, s: Stream, p: seq<nat>)
    requires AllSlaves(slaves) && IsPrefix(p) && |Under(slaves, p)| == 0 && s.buf == [] && s.script == []
    ensures var (r, s') := SendSelect(LooseEnv(slaves), s, MaskId(MaskOf(p)));
      r == Ok(Silent) && s'.buf == [] && s'.script == []
  {
    hide SelectFrame, RequestUd2, IsSelection, AllSlaves, Under, MaskId, MaskOf, ParseLongFrame;
    var env, id := LooseEnv(slaves), MaskId(MaskOf(p));
    var h := s.sent + [SelectFrame(id)];
    SelectionIsRecognised(id);
    MaskSelects(slaves, p);
    assert h[|h| - 1] == SelectFrame(id);
    assert env.respond(h) == [];
  }
}
