/** The grammar of data records: what a DIF / DIFE / VIF / text / VIFE / value byte string means (decode.go,
    field.go). */
module Records {
  import opened Bytes
  import opened Numbers
  import opened DifFields
  import opened Floats
  import Dates

  datatype Function = Instantaneous | Maximum | Minimum | DuringError
    | ManufacturerSpecific | MoreRecordsFollow | IdleFiller | GlobalReadout | SpecialFunction

  /** The unit stays symbolic: it is determined by the VIF, its VIFE chain and the plain text, if any. */
  datatype Unit = NoUnit
    | VifUnit(vif: byte, vife: seq<byte>)
    | TextUnit(vif: byte, vife: seq<byte>, text: seq<byte>)
    | FixedUnit(own: byte, other: byte)

  /** An integer is the float64 it is kept as; a date keeps its raw number beside its stamp. BadValue is a value that
      could not be read; the record around it stands. */
  datatype Value = NoValue | Integer(v: int) | Dated(raw: int, time: Dates.Stamp, summer: bool)
    | Real(bits: seq<byte>) | Text(chars: seq<byte>) | BadValue

  datatype Record = Record(kind: Function, storage: nat, tariff: nat, device: nat,
                           unit: Unit, value: Value, more: bool)

  datatype Error = Truncated | TooManyExtensions | UnsupportedBinarySize | UnsupportedFloatSize | ReservedLvar

  const MAX_EXTENSIONS: nat := 10

  function RecordFunction(dif: byte): Function {
    if dif == 0x0F then ManufacturerSpecific
    else if dif == 0x1F then MoreRecordsFollow
    else if dif == 0x2F then IdleFiller
    else if dif == 0x7F then GlobalReadout
    else match dif / 16 % 4
      case 0 => Instantaneous
      case 1 => Maximum
      case 2 => Minimum
      case _ => DuringError
  }

  /** Entries the unit table marks as bit fields: they are never sign-extended. */
  predicate IsRaw(u: Unit) {
    u.VifUnit? && u.vif != 0xFB && u.vif != 0xFC
    && if u.vif == 0xFD then u.vife != [] && u.vife[0] % 128 in {0x17, 0x18, 0x1A, 0x1B, 0x70}
       else u.vif % 128 in {0x6C, 0x6D, 0x78, 0x79, 0x7A}
  }

  /** Dates are named by two codes of the primary table, with or without extensions. */
  function DateFormat(u: Unit): Dates.Format {
    if !u.VifUnit? || u.vif in {0xFB, 0xFC, 0xFD} then Dates.NoDate
    else if u.vif % 128 == 0x6C then Dates.TypeG
    else if u.vif % 128 == 0x6D then Dates.DateAndTime
    else Dates.NoDate
  }

  // ---------------------------------------------------------------- wire syntax

  datatype Head = Head(dif: byte, dife: seq<byte>, vif: byte, text: Option<seq<byte>>, vife: seq<byte>)

  datatype Body = Body(lvar: Option<byte>, payload: seq<byte>)

  datatype Wire = Wire(head: Head, body: Body) {
    function Field(): nat { head.dif % 16 }
  }

  function IntegerWidth(field: nat): Option<nat> {
    match field
    case 0x01 => Some(1)
    case 0x02 => Some(2)
    case 0x03 => Some(3)
    case 0x04 => Some(4)
    case 0x06 => Some(6)
    case 0x07 => Some(8)
    case _ => None
  }

  function BcdWidth(field: nat): Option<nat> {
    match field
    case 0x09 => Some(1)
    case 0x0A => Some(2)
    case 0x0B => Some(3)
    case 0x0C => Some(4)
    case 0x0E => Some(6)
    case _ => None
  }

  /** Payload bytes announced by an LVAR byte. */
  function LvarSize(lvar: byte): Result<nat, Error> {
    if lvar <= 0xBF then Ok(lvar)
    else if lvar <= 0xDF then Ok(lvar % 16)
    else if lvar <= 0xEF then
      if lvar == 0xE0 || lvar - 0xE0 > MAX_LE_BYTES then Err(UnsupportedBinarySize) else Ok(lvar - 0xE0)
    else if lvar <= 0xFA then
      if lvar - 0xF0 != 4 then Err(UnsupportedFloatSize) else Ok(4)
    else Err(ReservedLvar)
  }

  /** Width of a value whose size the DIF alone fixes; field 0Dh is sized by its LVAR byte instead. */
  function FixedWidth(field: nat): nat {
    if IntegerWidth(field).Some? then IntegerWidth(field).value
    else if BcdWidth(field).Some? then BcdWidth(field).value
    else if field == 0x05 then 4
    else 0
  }

  predicate WellFormedHead(h: Head) {
    && (if h.dif >= 128 then IsChain(h.dife) && |h.dife| <= MAX_EXTENSIONS else h.dife == [])
    && (if h.vif >= 128 then IsChain(h.vife) && |h.vife| <= MAX_EXTENSIONS else h.vife == [])
    && (h.text.Some? <==> h.vif % 128 == 0x7C)
    && (h.text.Some? ==> |h.text.value| < 256)
  }

  predicate WellFormedBody(field: nat, b: Body) {
    if field == 0x0D then b.lvar.Some? && LvarSize(b.lvar.value) == Ok(|b.payload|)
    else b.lvar.None? && |b.payload| == FixedWidth(field)
  }

  /** A record as it may stand in the data: special DIFs are not records. */
  predicate WellFormed(w: Wire) {
    WellFormedHead(w.head) && WellFormedBody(w.Field(), w.body) && w.head.dif !in {0x0F, 0x1F, 0x2F}
  }

  function EncodeText(text: Option<seq<byte>>): seq<byte>
    requires text.Some? ==> |text.value| < 256
  {
    match text
    case None => []
    case Some(t) => [|t|] + t
  }

  function EncodeHead(h: Head): (s: seq<byte>)
    requires WellFormedHead(h)
    ensures |s| >= 2
  {
    [h.dif] + h.dife + EncodeVib(h)
  }

  function EncodeVib(h: Head): (s: seq<byte>)
    requires WellFormedHead(h)
    ensures |s| >= 1
  {
    [h.vif] + (EncodeText(h.text) + h.vife)
  }

  function EncodeBody(b: Body): seq<byte> {
    (if b.lvar.Some? then [b.lvar.value] else []) + b.payload
  }

  function Encode(w: Wire): (s: seq<byte>)
    requires WellFormed(w)
    ensures |s| >= 2 && s[0] == w.head.dif
  {
    EncodeHead(w.head) + EncodeBody(w.body)
  }

  // ---------------------------------------------------------------- meaning

  function UnitOf(h: Head): Unit {
    match h.text
    case None => VifUnit(h.vif, h.vife)
    case Some(t) => TextUnit(h.vif, h.vife, Reverse(t))
  }

  function HeadRecord(h: Head): Record {
    Record(RecordFunction(h.dif), StorageNumber(h.dif, h.dife), DifFields.Field(Tariff, h.dife),
           DifFields.Field(Device, h.dife), UnitOf(h), NoValue, false)
  }

  function RawNumber(b: seq<byte>, raw: bool): int {
    Float64(if raw then LeValue(Clip(b)) else TwosComplement(Clip(b)))
  }

  /** A binary field, which under a date unit is a timestamp as well. */
  function BinaryValue(b: seq<byte>, unit: Unit): Value {
    var v := RawNumber(b, IsRaw(unit));
    if DateFormat(unit) == Dates.NoDate then Integer(v)
    else
      var stamp := Dates.ReadStamp(DateFormat(unit), b);
      Dated(v, stamp.0, stamp.1)
  }

  function OrBad(v: Option<int>): Value {
    if v.Some? then Integer(Float64(v.value)) else BadValue
  }

  function WithSign(v: int, negative: bool): int { if negative then -v else v }

  /** The sign of LVAR BCD is in the LVAR byte, so the payload is a magnitude. */
  function LvarValue(lvar: byte, payload: seq<byte>, raw: bool): Value {
    if lvar <= 0xBF then Text(Reverse(payload))
    else if lvar <= 0xDF then
      match Magnitude(payload)
      case None => BadValue
      case Some(v) => Integer(WithSign(Float64(v), lvar > 0xCF))
    else if lvar <= 0xEF then Integer(RawNumber(payload, raw))
    else Real(payload)
  }

  function ValueOf(field: nat, unit: Unit, b: Body): Value {
    if IntegerWidth(field).Some? then BinaryValue(b.payload, unit)
    else if BcdWidth(field).Some? then OrBad(Signed(b.payload))
    else if field == 0x05 then Real(b.payload)
    else if b.lvar.Some? then LvarValue(b.lvar.value, b.payload, IsRaw(unit))
    else NoValue
  }

  function Fill(r: Record, field: nat, b: Body): Record {
    r.(value := ValueOf(field, r.unit, b), kind := if field == 0x0F then SpecialFunction else r.kind)
  }

  /** The record a wire record stands for. */
  function Meaning(w: Wire): Record {
    Fill(HeadRecord(w.head), w.Field(), w.body)
  }

  function Sentinel(dif: byte): Record {
    Record(RecordFunction(dif), 0, 0, 0, NoUnit, NoValue, dif == 0x1F)
  }

  predicate IsSentinel(r: Record) {
    r.kind == ManufacturerSpecific || r.kind == MoreRecordsFollow
  }

  // ---------------------------------------------------------------- parsing

  /** The extension chain at the head of s, when `count` bytes of it have been read already. */
  function Extensions(s: seq<byte>, count: nat): (r: Result<seq<byte>, Error>)
    ensures r.Ok? ==> r.value <= s
  {
    if count >= MAX_EXTENSIONS then Err(TooManyExtensions)
    else if s == [] then Err(Truncated)
    else if s[0] < 128 then Ok([s[0]])
    else
      var rest :- Extensions(s[1..], count + 1);
      Ok([s[0]] + rest)
  }

  function OptionalExtensions(s: seq<byte>, present: bool): (r: Result<seq<byte>, Error>)
    ensures r.Ok? ==> r.value <= s
  {
    if present then Extensions(s, 0) else Ok([])
  }

  function ParseText(s: seq<byte>, present: bool): (r: Result<Option<seq<byte>>, Error>)
    ensures r.Ok? && r.value.Some? ==> |r.value.value| < 256
    ensures r.Ok? ==> EncodeText(r.value) <= s
  {
    if !present then Ok(None)
    else if s == [] || |s| - 1 < s[0] then Err(Truncated)
    else Ok(Some(s[1..1 + s[0]]))
  }

  /** The VIF at the head of s with its plain text and its VIFEs, completing a head that has its DIF and DIFEs. */
  function ParseVib(dif: byte, dife: seq<byte>, s: seq<byte>): Result<Head, Error> {
    if s == [] then Err(Truncated)
    else
      var text :- ParseText(s[1..], s[0] % 128 == 0x7C);
      var vife :- OptionalExtensions(s[1 + |EncodeText(text)|..], s[0] >= 128);
      Ok(Head(dif, dife, s[0], text, vife))
  }

  function ParseHead(s: seq<byte>): Result<Head, Error>
    requires s != []
  {
    var dife :- OptionalExtensions(s[1..], s[0] >= 128);
    ParseVib(s[0], dife, s[1 + |dife|..])
  }

  function ParseBody(s: seq<byte>, field: nat): Result<Body, Error> {
    if field == 0x0D then
      if s == [] then Err(Truncated)
      else
        var size :- LvarSize(s[0]);
        if |s| - 1 < size then Err(Truncated) else Ok(Body(Some(s[0]), s[1..1 + size]))
    else if |s| < FixedWidth(field) then Err(Truncated)
    else Ok(Body(None, s[..FixedWidth(field)]))
  }

  /** The record at the head of s, which does not start with a special DIF. */
  function Parse(s: seq<byte>): (r: Result<Wire, Error>)
    requires s != [] && s[0] !in {0x0F, 0x1F, 0x2F}
    ensures r.Ok? ==> WellFormed(r.value) && Encode(r.value) <= s
  {
    HeadSound(s);
    var head :- ParseHead(s);
    var body :- ParseBody(s[|EncodeHead(head)|..], head.dif % 16);
    ParseSound(s, head, body);
    Ok(Wire(head, body))
  }

  lemma ParseSound(s: seq<byte>, head: Head, body: Body)
    requires s != [] && s[0] !in {0x0F, 0x1F, 0x2F}
    requires WellFormedHead(head) && EncodeHead(head) <= s && head.dif == s[0]
    requires ParseBody(s[|EncodeHead(head)|..], head.dif % 16) == Ok(body)
    ensures WellFormed(Wire(head, body)) && Encode(Wire(head, body)) <= s
  {
    hide ParseBody, WellFormedHead, EncodeHead, EncodeBody, WellFormedBody;
    BodySound(s[|EncodeHead(head)|..], head.dif % 16);
    PrefixConcat(s, EncodeHead(head), EncodeBody(body));
  }

  lemma {:induction false} ExtensionsSound(s: seq<byte>, count: nat)
    ensures Extensions(s, count).Ok? ==>
      var c := Extensions(s, count).value;
      IsChain(c) && |c| + count <= MAX_EXTENSIONS
  {
    if count < MAX_EXTENSIONS && s != [] && s[0] >= 128 {
      ExtensionsSound(s[1..], count + 1);
      if Extensions(s[1..], count + 1).Ok? {
        var t := Extensions(s[1..], count + 1).value;
        var c := Extensions(s, count).value;
        assert c == [s[0]] + t;
        forall i | 0 <= i < |c| - 1 ensures c[i] >= 128 {
          if i > 0 { assert c[i] == t[i - 1]; }
        }
      }
    }
  }

  lemma {:induction false} ExtensionsComplete(c: seq<byte>, t: seq<byte>, count: nat)
    requires IsChain(c) && |c| + count <= MAX_EXTENSIONS
    ensures Extensions(c + t, count) == Ok(c)
  {
    assert (c + t)[1..] == c[1..] + t;
    if |c| > 1 {
      ExtensionsComplete(c[1..], t, count + 1);
      assert (c + t)[0] == c[0] >= 128 && c == [c[0]] + c[1..];
    } else {
      assert c == [c[0]];
    }
  }

  lemma VibSound(dif: byte, dife: seq<byte>, s: seq<byte>)
    requires if dif >= 128 then IsChain(dife) && |dife| <= MAX_EXTENSIONS else dife == []
    ensures ParseVib(dif, dife, s).Ok? ==>
      var h := ParseVib(dif, dife, s).value;
      WellFormedHead(h) && EncodeVib(h) <= s && h.dif == dif && h.dife == dife
  {
    hide IsChain, Extensions, EncodeText;
    if ParseVib(dif, dife, s).Ok? {
      var h := ParseVib(dif, dife, s).value;
      var t := EncodeText(h.text);
      var rest := s[1 + |t|..];
      ExtensionsSound(rest, 0);
      assert s[1..][|t|..] == rest;
      PrefixConcat(s[1..], t, h.vife);
      PrefixConcat(s, [s[0]], t + h.vife);
    }
  }

  lemma HeadSound(s: seq<byte>)
    requires s != []
    ensures ParseHead(s).Ok? ==>
      var h := ParseHead(s).value;
      WellFormedHead(h) && EncodeHead(h) <= s && h.dif == s[0]
  {
    hide IsChain, Extensions, ParseVib, EncodeVib;
    var dife := OptionalExtensions(s[1..], s[0] >= 128);
    if dife.Ok? {
      ExtensionsSound(s[1..], 0);
      VibSound(s[0], dife.value, s[1 + |dife.value|..]);
      PrefixConcat(s, [s[0]], dife.value);
      if ParseHead(s).Ok? {
        PrefixConcat(s, [s[0]] + dife.value, EncodeVib(ParseHead(s).value));
      }
    }
  }

  lemma TextComplete(text: Option<seq<byte>>, t: seq<byte>)
    requires text.Some? ==> |text.value| < 256
    ensures ParseText(EncodeText(text) + t, text.Some?) == Ok(text)
  {
    var s := EncodeText(text) + t;
    if text.Some? { assert s[0] == |text.value| && s[1..1 + |text.value|] == text.value; }
  }

  lemma VibComplete(h: Head, t: seq<byte>)
    requires WellFormedHead(h)
    ensures ParseVib(h.dif, h.dife, EncodeVib(h) + t) == Ok(h)
  {
    hide IsChain, Extensions, ParseText, EncodeText;
    var s := EncodeVib(h) + t;
    assert s == [h.vif] + EncodeText(h.text) + (h.vife + t);
    assert s[1..] == EncodeText(h.text) + (h.vife + t);
    TextComplete(h.text, h.vife + t);
    assert s[1 + |EncodeText(h.text)|..] == h.vife + t;
    if h.vif >= 128 { ExtensionsComplete(h.vife, t, 0); }
  }

  lemma HeadComplete(h: Head, t: seq<byte>)
    requires WellFormedHead(h)
    ensures ParseHead(EncodeHead(h) + t) == Ok(h)
  {
    hide IsChain, Extensions, ParseVib, EncodeVib;
    var s := EncodeHead(h) + t;
    assert s[1..] == h.dife + (EncodeVib(h) + t);
    assert s[1 + |h.dife|..] == EncodeVib(h) + t;
    if h.dif >= 128 { ExtensionsComplete(h.dife, EncodeVib(h) + t, 0); }
    VibComplete(h, t);
  }

  lemma BodySound(s: seq<byte>, field: nat)
    ensures ParseBody(s, field).Ok? ==>
      WellFormedBody(field, ParseBody(s, field).value) && EncodeBody(ParseBody(s, field).value) <= s
  {
  }

  lemma BodyComplete(b: Body, t: seq<byte>, field: nat)
    requires WellFormedBody(field, b)
    ensures ParseBody(EncodeBody(b) + t, field) == Ok(b)
  {
    var s := EncodeBody(b) + t;
    if field == 0x0D {
      assert s[0] == b.lvar.value && s[1..1 + |b.payload|] == b.payload;
    } else {
      assert s[..|b.payload|] == b.payload;
    }
  }

  /** The parser decides the grammar: it accepts s with w exactly when w is well formed and s starts with it.
      So no record is a prefix of another, and what follows a record cannot change how it is read. */
  lemma ParseExact(s: seq<byte>, w: Wire)
    requires s != [] && s[0] !in {0x0F, 0x1F, 0x2F}
    ensures Parse(s) == Ok(w) <==> WellFormed(w) && Encode(w) <= s
  {
    if WellFormed(w) && Encode(w) <= s {
      var t := s[|Encode(w)|..];
      assert s == EncodeHead(w.head) + (EncodeBody(w.body) + t);
      HeadComplete(w.head, EncodeBody(w.body) + t);
      assert s[|EncodeHead(w.head)|..] == EncodeBody(w.body) + t;
      BodyComplete(w.body, t, w.Field());
    }
  }
}
