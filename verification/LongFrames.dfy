/** Decoding a whole long frame: the variable and the fixed data response (decode.go, decode_fixed.go). */
module LongFrames {
  import opened Bytes
  import opened Numbers
  import opened Records
  import opened Floats
  import Frames
  import Walker

  /** The medium is kept as its code; the product name is not modelled. */
  datatype DecodedFrame = DecodedFrame(serial: nat, manufacturer: string, version: byte, medium: byte,
                                       access: byte, status: byte, signature: nat, records: seq<Record>)

  datatype DecodeError = TooShort | UnsupportedCi | BadRecord(e: Records.Error) | BadSerial

  const MIN_FRAME := 21
  const RECORD_OFFSET := 19
  const CI_VARIABLE: byte := 0x72
  const CI_FIXED: byte := 0x73
  const FIXED_MIN_FRAME := 25

  /** The three letters packed into a manufacturer field, five bits each. */
  function Manufacturer(lo: byte, hi: byte): string {
    var id := Le16(lo, hi);
    [(id / 1024 % 32 + 64) as char, (id / 32 % 32 + 64) as char, (id % 32 + 64) as char]
  }

  /** The fixed structure's own 4-bit medium table, on the codes of the variable structure. */
  const FIXED_MEDIA: seq<byte> :=
    [0x00, 0x01, 0x02, 0x03, 0x04, 0x05, 0x06, 0x07, 0x08, 0x0F, 0x03, 0x04, 0x06, 0x07, 0x08, 0x0F]

  function FixedMedium(unit1: byte, unit2: byte): byte {
    FIXED_MEDIA[unit1 / 64 + unit2 / 64 * 4]
  }

  function FixedRecord(counter: seq<byte>, own: byte, other: byte, status: byte, storage: nat): Record {
    Record(Instantaneous, storage, 0, 0, FixedUnit(own, other),
           if status % 2 == 1 then Integer(RawNumber(counter, false)) else OrBad(Signed(counter)), false)
  }

  function DecodeFixed(lf: seq<byte>): Result<DecodedFrame, DecodeError> {
    if |lf| < FIXED_MIN_FRAME then Err(TooShort)
    else match Magnitude(lf[7..11])
      case None => Err(BadSerial)
      case Some(serial) =>
        Ok(DecodedFrame(serial, "", 0, FixedMedium(lf[13], lf[14]), lf[11], lf[12], 0,
                        [FixedRecord(lf[15..19], lf[13], lf[14], lf[12], 0),
                         FixedRecord(lf[19..23], lf[14], lf[13], lf[12], 1)]))
  }

  function DecodeVariable(lf: seq<byte>): Result<DecodedFrame, DecodeError>
    requires |lf| >= MIN_FRAME
  {
    match Walker.Decode(lf[RECORD_OFFSET..|lf| - 2])
    case Err(e) => Err(BadRecord(e))
    case Ok(records) =>
      match Magnitude(lf[7..11])
      case None => Err(BadSerial)
      case Some(serial) =>
        Ok(DecodedFrame(serial, Manufacturer(lf[11], lf[12]), lf[13], lf[14], lf[15], lf[16],
                        Le16(lf[17], lf[18]), records))
  }

  function DecodeFrame(lf: seq<byte>): Result<DecodedFrame, DecodeError> {
    if |lf| < MIN_FRAME then Err(TooShort)
    else if lf[6] == CI_VARIABLE then DecodeVariable(lf)
    else if lf[6] == CI_FIXED then DecodeFixed(lf)
    else Err(UnsupportedCi)
  }

  /** The last record announces that the telegram continues in another frame. */
  predicate HasMoreRecords(f: DecodedFrame) {
    f.records != [] && f.records[|f.records| - 1].more
  }

  /** The announcement is exactly a walk that ended on 1Fh. */
  lemma MoreMeansSentinel(lf: seq<byte>)
    requires DecodeFrame(lf).Ok?
    ensures HasMoreRecords(DecodeFrame(lf).value) ==>
      lf[6] == CI_VARIABLE && DecodeFrame(lf).value.records[|DecodeFrame(lf).value.records| - 1] == Sentinel(0x1F)
  {
    hide Magnitude, Walker.Decode, Manufacturer, Meaning, WellFormed;
    if lf[6] == CI_VARIABLE {
      var data := lf[RECORD_OFFSET..|lf| - 2];
      var items, tail := Walker.Tiling(data);
      NoMore(items);
    }
  }

  lemma {:induction false} NoMore(items: seq<Walker.Item>)
    ensures forall r :: r in Walker.Meanings(items) ==> !r.more
  {
    if items != [] { NoMore(items[1..]); }
  }

  // ---------------------------------------------------------------- which error a broken frame gets

  /** The documented errors: a frame too short or with an unreadable number is invalid, another CI unsupported. */
  predicate IsDocumented(e: DecodeError) { !e.BadRecord? }

  /** The user data is fillers, well-formed records and an optional opaque tail. */
  ghost predicate IsTiled(data: seq<byte>) {
    exists items, tail :: Walker.WellFormedItems(items) && Walker.IsTail(tail) && data == Walker.Serialize(items) + tail
  }

  /** decode.go:98-100 promises an invalid-frame error for every bounds violation. The code keeps that promise on
      exactly the frames that are not long enough variable responses with user data that cannot be tiled. */
  lemma UndocumentedExactly(lf: seq<byte>)
    ensures DecodeFrame(lf).Err? && !IsDocumented(DecodeFrame(lf).error)
      <==> |lf| >= MIN_FRAME && lf[6] == CI_VARIABLE && !IsTiled(lf[RECORD_OFFSET..|lf| - 2])
  {
    hide Magnitude, Walker.Decode, Walker.WellFormedItems, Manufacturer;
    if |lf| >= MIN_FRAME && lf[6] == CI_VARIABLE {
      var data := lf[RECORD_OFFSET..|lf| - 2];
      var items, tail := Walker.Tiling(data);
      if IsTiled(data) {
        var xs, t :| Walker.WellFormedItems(xs) && Walker.IsTail(t) && data == Walker.Serialize(xs) + t;
        Walker.RoundTrip(xs, t);
      }
    }
  }

  /** A well-formed frame whose one record stops after its DIF. */
  lemma UndocumentedAtInput() returns (lf: seq<byte>)
    ensures Frames.IsLongFrame(lf) && DecodeFrame(lf) == Err(BadRecord(Truncated))
  {
    hide Magnitude, CheckSum;
    var user := [0x08, 0x01, CI_VARIABLE] + seq(12, _ => 0) + [0x01];
    lf := Frames.BuildLongFrame(user);
    Frames.BuildIsLongFrame(user);
    assert lf[RECORD_OFFSET..|lf| - 2] == [0x01];
    DifAlone();
  }

  lemma DifAlone()
    ensures Walker.Decode([0x01]) == Err(Truncated)
  {
    var s: seq<byte> := [0x01];
    assert s[1..] == [];
  }

  // ---------------------------------------------------------------- the fixed structure

  /** A counter in the coding its status byte announces: two's complement or signed BCD. */
  predicate FitsCounter(v: int, status: byte) {
    if status % 2 == 1 then FitsTwosComplement(v, 4) else FitsSignedBcd(v, 4)
  }

  function EncodeCounter(v: int, status: byte): (b: seq<byte>)
    requires FitsCounter(v, status)
    ensures |b| == 4
  {
    if status % 2 == 1 then ToTwosComplement(v, 4) else ToSignedBcd(v, 4)
  }

  /** The fixed response of a meter: number, access number, status, two units, two counters. */
  function FixedFrame(addr: byte, serial: nat, access: byte, status: byte, unit1: byte, unit2: byte, c1: seq<byte>,
    c2: seq<byte>)
    : seq<byte>
    requires |c1| == |c2| == 4
  {
    Frames.BuildLongFrame([0x08, addr, CI_FIXED] + ToBcd(serial, 4) + [access, status, unit1, unit2] + c1 + c2)
  }

  function CounterRecord(v: int, own: byte, other: byte, storage: nat): Record {
    Record(Instantaneous, storage, 0, 0, FixedUnit(own, other), Integer(v), false)
  }

  lemma CounterRoundTrip(v: int, own: byte, other: byte, status: byte, storage: nat)
    requires FitsCounter(v, status)
    ensures FixedRecord(EncodeCounter(v, status), own, other, status, storage) == CounterRecord(v, own, other, storage)
  {
    hide Float64, ToTwosComplement, ToSignedBcd, TwosComplement, Signed;
    assert Pow(256, 4) == 0x1_0000_0000 && Pow(100, 4) == 100_000_000 && Pow(100, 3) == 1_000_000 by { Powers(); }
    ExactFloat(v);
    if status % 2 == 1 { TwosComplementRoundTrip(v, 4); } else { SignedRoundTrip(v, 4); }
  }

  lemma Powers()
    ensures Pow(256, 4) == 0x1_0000_0000 && Pow(100, 4) == 100_000_000 && Pow(100, 3) == 1_000_000
  {
    PowAdd(256, 2, 2);
    PowAdd(100, 2, 2);
    assert Pow(256, 2) == 0x1_0000 && Pow(100, 2) == 10_000;
  }

  lemma FixedParts(addr: byte, serial: nat, access: byte, status: byte, unit1: byte, unit2: byte, c1: seq<byte>,
    c2: seq<byte>)
    requires |c1| == |c2| == 4
    ensures var lf := FixedFrame(addr, serial, access, status, unit1, unit2, c1, c2);
      && |lf| == FIXED_MIN_FRAME && Frames.IsLongFrame(lf)
      && lf[6] == CI_FIXED && lf[7..11] == ToBcd(serial, 4)
      && lf[11] == access && lf[12] == status && lf[13] == unit1 && lf[14] == unit2 && lf[15..19] == c1
         && lf[19..23] == c2
  {
    hide ToBcd, CheckSum;
    var user := [0x08, addr, CI_FIXED] + ToBcd(serial, 4) + [access, status, unit1, unit2] + c1 + c2;
    var lf := Frames.BuildLongFrame(user);
    Frames.BuildIsLongFrame(user);
    assert forall i :: 0 <= i < |user| ==> lf[4 + i] == user[i];
    assert lf[7..11] == user[3..7] == ToBcd(serial, 4);
    assert lf[15..19] == user[11..15] == c1 && lf[19..23] == user[15..19] == c2;
  }

  /** Whatever a meter reports in the fixed structure is what is decoded: its number, access number and status, and
      both counters exactly, the current one and the historic one, each with its own unit before the other's. */
  lemma FixedRoundTrip(addr: byte, serial: nat, access: byte, status: byte, unit1: byte, unit2: byte, v1: int, v2: int)
    requires serial < 100_000_000 && FitsCounter(v1, status) && FitsCounter(v2, status)
    ensures DecodeFrame(FixedFrame(addr, serial, access, status, unit1, unit2, EncodeCounter(v1, status),
        EncodeCounter(v2, status)))
            == Ok(DecodedFrame(serial, "", 0, FixedMedium(unit1, unit2), access, status, 0,
                               [CounterRecord(v1, unit1, unit2, 0), CounterRecord(v2, unit2, unit1, 1)]))
  {
    hide Magnitude, ToBcd, EncodeCounter, FixedRecord, FixedFrame, FitsCounter, FixedMedium;
    FixedParts(addr, serial, access, status, unit1, unit2, EncodeCounter(v1, status), EncodeCounter(v2, status));
    Powers();
    MagnitudeInverse(serial, ToBcd(serial, 4));
    CounterRoundTrip(v1, unit1, unit2, status, 0);
    CounterRoundTrip(v2, unit2, unit1, status, 1);
  }

  /** Counter bytes of any kind cost no more than their own value: overwriting one counter leaves the rest of the
      decoded frame as it was. */
  lemma FixedCounterIsLocal(lf: seq<byte>, first: bool, counter: seq<byte>)
    requires |counter| == 4 && |lf| >= FIXED_MIN_FRAME && lf[6] == CI_FIXED
    ensures var at := if first then 15 else 19;
      var lf' := lf[..at] + counter + lf[at + 4..];
      match DecodeFrame(lf)
      case Err(e) => DecodeFrame(lf') == Err(e)
      case Ok(d) =>
        && |d.records| == 2
        && DecodeFrame(lf').Ok?
        && var k := if first then 0 else 1;
           DecodeFrame(lf').value
           == d.(records := d.records[k := d.records[k].(value := DecodeFrame(lf').value.records[k].value)])
  {
    hide Magnitude, FixedMedium, Signed, TwosComplement, Float64;
    var at := if first then 15 else 19;
    var lf' := lf[..at] + counter + lf[at + 4..];
    assert lf'[7..11] == lf[7..11];
    assert first ==> lf'[19..23] == lf[19..23];
    assert !first ==> lf'[15..19] == lf[15..19];
  }

  method DecodeFixedFrame(lf: seq<byte>) returns (r: Result<DecodedFrame, DecodeError>)
    ensures r == DecodeFixed(lf)
    ensures r.Ok? <==> |lf| >= FIXED_MIN_FRAME && IsBcd(lf[7..11])
  {
    hide IsBcd, Decimal;
    if |lf| >= FIXED_MIN_FRAME && IsBcd(lf[7..11]) { FourBytesFit(lf[7..11]); }
    if |lf| < FIXED_MIN_FRAME {
      return Err(TooShort);
    }
    var serial := BcdMagnitude(lf[7..11]);
    if serial.None? {
      return Err(BadSerial);
    }
    var first := DecodeCounter(lf[15..19], lf[13], lf[14], lf[12], 0);
    var second := DecodeCounter(lf[19..23], lf[14], lf[13], lf[12], 1);
    return Ok(DecodedFrame(serial.value, "", 0, FixedMedium(lf[13], lf[14]), lf[11], lf[12], 0, [first, second]));
  }

  method DecodeCounter(counter: seq<byte>, own: byte, other: byte, status: byte, storage: nat) returns (r: Record)
    ensures r == FixedRecord(counter, own, other, status, storage)
  {
    var value := BadValue;
    if status % 2 == 1 {
      var v := IntLE(counter);
      value := Integer(Float64(v));
    } else {
      var v := BcdSigned(counter);
      if v.Some? {
        value := Integer(Float64(v.value));
      }
    }
    return Record(Instantaneous, storage, 0, 0, FixedUnit(own, other), value, false);
  }

  method DecodeLongFrame(lf: seq<byte>) returns (r: Result<DecodedFrame, DecodeError>)
    ensures r == DecodeFrame(lf)
  {
    hide Magnitude, Manufacturer;
    if |lf| < MIN_FRAME {
      return Err(TooShort);
    }
    if lf[6] == CI_FIXED {
      r := DecodeFixedFrame(lf);
      return;
    }
    if lf[6] != CI_VARIABLE {
      return Err(UnsupportedCi);
    }
    var man := Manufacturer(lf[11], lf[12]);
    var records := Walker.DecodeData(lf[RECORD_OFFSET..|lf| - 2]);
    if records.Err? {
      return Err(BadRecord(records.error));
    }
    var serial := BcdMagnitude(lf[7..11]);
    if serial.None? {
      return Err(BadSerial);
    }
    return Ok(DecodedFrame(serial.value, man, lf[13], lf[14], lf[15], lf[16], Le16(lf[17], lf[18]), records.value));
  }
}
