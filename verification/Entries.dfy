/** An encoder from readings to data records, the inverse the record walker is measured against. */
module Entries {
  import opened Bytes
  import opened Numbers
  import opened DifFields
  import opened Records
  import opened Floats
  import Dates
  import Walker

  /** What one record says, one constructor per data-field code and LVAR range. Dates are written in the width that
      selects their type. */
  datatype Content = Nothing | Selection | Special
    | Binary(width: nat, v: int) | Date(width: nat, m: Dates.Moment, summer: bool)
    | Decimal(width: nat, v: int) | Float(bits: seq<byte>)
    | LvarText(chars: seq<byte>) | LvarDecimal(negative: bool, size: nat, magnitude: nat)
    | LvarBinary(size: nat, v: int) | LvarFloat(bits: seq<byte>)

  datatype Entry = Entry(kind: Function, storage: nat, tariff: nat, device: nat, difes: nat,
                         vif: byte, text: Option<seq<byte>>, vife: seq<byte>, content: Content)

  function UnitOfEntry(e: Entry): Unit {
    match e.text
    case None => VifUnit(e.vif, e.vife)
    case Some(t) => TextUnit(e.vif, e.vife, t)
  }

  function FieldCode(c: Content): nat {
    match c
    case Nothing => 0x00
    case Selection => 0x08
    case Special => 0x0F
    case Binary(w, _) => if w == 8 then 0x07 else w
    case Date(w, _, _) => w
    case Decimal(w, _) => if w == 6 then 0x0E else w + 8
    case Float(_) => 0x05
    case _ => 0x0D
  }

  predicate FitsBinary(v: int, n: nat, raw: bool) {
    if raw then n > 0 && 0 <= v < Pow(256, n) else FitsTwosComplement(v, n)
  }

  predicate ValidContent(c: Content, unit: Unit) {
    match c
    case Nothing => true
    case Selection => true
    case Special => true
    case Binary(w, v) => w in {1, 2, 3, 4, 6, 8} && FitsBinary(v, w, IsRaw(unit))
    case Date(w, m, summer) => Dates.Says(DateFormat(unit), w, m, summer)
    case Decimal(w, v) => w in {1, 2, 3, 4, 6} && FitsSignedBcd(v, w)
    case Float(bits) => |bits| == 4
    case LvarText(t) => |t| <= 0xBF
    case LvarDecimal(_, n, v) => 1 <= n <= 15 && v < Pow(100, n) && v <= MAX_UINT64
    case LvarBinary(n, v) => 1 <= n <= 8 && FitsBinary(v, n, IsRaw(unit))
    case LvarFloat(bits) => |bits| == 4
  }

  function KindCode(k: Function): (c: nat)
    ensures c < 4
  {
    match k
    case Instantaneous => 0
    case Maximum => 1
    case Minimum => 2
    case _ => 3
  }

  function EntryDif(e: Entry): int {
    FieldCode(e.content)
    + 16 * KindCode(e.kind)
    + 64 * (e.storage % 2) + if e.difes > 0 then 128 else 0
  }

  /** The four ordinary functions, numbers within their DIFE chain, at most ten DIFEs and ten VIFEs, values
      within their field. The bytes 0Fh, 1Fh and 2Fh are not records. */
  predicate Valid(e: Entry) {
    && e.kind in {Instantaneous, Maximum, Minimum, DuringError}
    && e.difes <= MAX_EXTENSIONS
    && e.storage < 2 * Pow(16, e.difes) && e.tariff < Pow(4, e.difes) && e.device < Pow(2, e.difes)
    && (if e.vif >= 128 then IsChain(e.vife) && |e.vife| <= MAX_EXTENSIONS else e.vife == [])
    && (e.text.Some? <==> e.vif % 128 == 0x7C) && (e.text.Some? ==> |e.text.value| < 256)
    && ValidContent(e.content, UnitOfEntry(e))
    && EntryDif(e) !in {0x0F, 0x1F, 0x2F}
  }

  function EncodeBinary(v: int, n: nat, raw: bool): seq<byte>
    requires FitsBinary(v, n, raw)
  {
    if raw then LeBytes(v, n) else ToTwosComplement(v, n)
  }

  function EncodeContent(c: Content, unit: Unit): Body
    requires ValidContent(c, unit)
  {
    match c
    case Nothing => Body(None, [])
    case Selection => Body(None, [])
    case Special => Body(None, [])
    case Binary(w, v) => Body(None, EncodeBinary(v, w, IsRaw(unit)))
    case Date(w, m, summer) => Body(None, Dates.EncodeStamp(w, m, summer))
    case Decimal(w, v) => Body(None, ToSignedBcd(v, w))
    case Float(bits) => Body(None, bits)
    case LvarText(t) => Body(Some(|t|), Reverse(t))
    case LvarDecimal(neg, n, v) => Body(Some(if neg then 0xD0 + n else 0xC0 + n), ToBcd(v, n))
    case LvarBinary(n, v) => Body(Some(0xE0 + n), EncodeBinary(v, n, IsRaw(unit)))
    case LvarFloat(bits) => Body(Some(0xF4), bits)
  }

  /** Integers come back as the nearest float64; a plain number under a date unit is read as a timestamp too. */
  function ContentValue(c: Content, unit: Unit): Value
    requires ValidContent(c, unit)
  {
    match c
    case Nothing => NoValue
    case Selection => NoValue
    case Special => NoValue
    case Binary(w, v) =>
      if DateFormat(unit) == Dates.NoDate then Integer(Float64(v))
      else
        var stamp := Dates.ReadStamp(DateFormat(unit), EncodeBinary(v, w, IsRaw(unit)));
        Dated(Float64(v), stamp.0, stamp.1)
    case Date(w, m, summer) =>
      Dated(Float64(LeValue(Dates.EncodeStamp(w, m, summer))), Dates.Time(m), summer)
    case Decimal(_, v) => Integer(Float64(v))
    case Float(bits) => Real(bits)
    case LvarText(t) => Text(t)
    case LvarDecimal(neg, _, v) => Integer(WithSign(Float64(v), neg))
    case LvarBinary(_, v) => Integer(Float64(v))
    case LvarFloat(bits) => Real(bits)
  }

  lemma FieldCodeBound(c: Content, unit: Unit)
    requires ValidContent(c, unit)
    ensures FieldCode(c) < 16
  {
    hide FitsBinary, FitsSignedBcd, Dates.IsReal;
  }

  function ToWire(e: Entry): Wire
    requires Valid(e)
  {
    FieldCodeBound(e.content, UnitOfEntry(e));
    var text := if e.text.Some? then Some(Reverse(e.text.value)) else None;
    Wire(Head(EntryDif(e), EncodeChain(e.storage / 2, e.tariff, e.device, e.difes), e.vif, text, e.vife),
         EncodeContent(e.content, UnitOfEntry(e)))
  }

  function RecordOf(e: Entry): Record
    requires Valid(e)
  {
    Record(if e.content.Special? then SpecialFunction else e.kind, e.storage, e.tariff, e.device,
           UnitOfEntry(e), ContentValue(e.content, UnitOfEntry(e)), false)
  }

  lemma BinaryRoundTrip(v: int, n: nat, raw: bool)
    requires FitsBinary(v, n, raw) && n <= MAX_LE_BYTES
    ensures |EncodeBinary(v, n, raw)| == n && RawNumber(EncodeBinary(v, n, raw), raw) == Float64(v)
  {
    hide Float64;
    if raw { LeValueOfBytes(v, n); } else { TwosComplementRoundTrip(v, n); }
  }

  /** Date units are never sign-extended. */
  lemma DatesAreRaw(unit: Unit)
    ensures DateFormat(unit) != Dates.NoDate ==> IsRaw(unit)
  {
  }

  lemma DateRoundTrip(w: nat, m: Dates.Moment, summer: bool, unit: Unit)
    requires Dates.Says(DateFormat(unit), w, m, summer)
    ensures BinaryValue(Dates.EncodeStamp(w, m, summer), unit)
            == Dated(Float64(LeValue(Dates.EncodeStamp(w, m, summer))), Dates.Time(m), summer)
  {
    hide Float64, DateFormat, IsRaw, Dates.ReadStamp, Dates.EncodeStamp, Dates.IsReal, LeValue;
    Dates.StampRoundTrip(DateFormat(unit), w, m, summer);
    DatesAreRaw(unit);
  }

  lemma ContentRoundTrip(c: Content, unit: Unit)
    requires ValidContent(c, unit)
    ensures WellFormedBody(FieldCode(c), EncodeContent(c, unit))
    ensures ValueOf(FieldCode(c), unit, EncodeContent(c, unit)) == ContentValue(c, unit)
  {
    hide FitsBinary, EncodeBinary, RawNumber, FitsSignedBcd, ToSignedBcd, Signed, IsRaw, Float64, DateFormat,
      LeValue, Dates.ReadStamp, Dates.EncodeStamp, Dates.IsReal, LvarValue;
    match c
    case Binary(w, v) => BinaryRoundTrip(v, w, IsRaw(unit));
    case Date(w, m, summer) => DateRoundTrip(w, m, summer, unit);
    case Decimal(w, v) => SignedRoundTrip(v, w);
    case LvarText(_) => LvarRoundTrip(c, unit);
    case LvarDecimal(_, _, _) => LvarRoundTrip(c, unit);
    case LvarBinary(_, _) => LvarRoundTrip(c, unit);
    case LvarFloat(_) => LvarRoundTrip(c, unit);
    case _ =>
  }

  lemma TextSize(n: byte)
    requires n <= 0xBF
    ensures LvarSize(n) == Ok(n)
  {
  }

  lemma DecimalSize(n: byte)
    requires n < 16
    ensures LvarSize(0xC0 + n) == Ok(n) && LvarSize(0xD0 + n) == Ok(n)
  {
  }

  lemma BinarySize(n: byte)
    requires 1 <= n <= 8
    ensures LvarSize(0xE0 + n) == Ok(n) && LvarSize(0xF4) == Ok(4)
  {
  }

  lemma LvarRoundTrip(c: Content, unit: Unit)
    requires ValidContent(c, unit) && (c.LvarText? || c.LvarDecimal? || c.LvarBinary? || c.LvarFloat?)
    ensures WellFormedBody(0x0D, EncodeContent(c, unit))
    ensures ValueOf(0x0D, unit, EncodeContent(c, unit)) == ContentValue(c, unit)
  {
    hide FitsBinary, EncodeBinary, RawNumber, ToBcd, Magnitude, IsRaw, Reverse, Float64, Dates.Says, LvarSize;
    hide IntegerWidth, BcdWidth, BinaryValue;
    NotFixed();
    match c
    case LvarText(t) =>
      TextSize(|t|);
      ReverseTwice(t);
    case LvarDecimal(_, n, v) =>
      DecimalSize(n);
      MagnitudeInverse(v, ToBcd(v, n));
    case LvarBinary(n, v) =>
      BinarySize(n);
      BinaryRoundTrip(v, n, IsRaw(unit));
    case LvarFloat(_) => BinarySize(4);
  }

  lemma NotFixed()
    ensures IntegerWidth(0x0D) == None && BcdWidth(0x0D) == None
  {
  }

  lemma DifParts(field: nat, kind: nat, storageBit: nat, extension: nat)
    requires field < 16 && kind < 4 && storageBit < 2 && extension < 2
    ensures var d: byte := field + 16 * kind + 64 * storageBit + 128 * extension;
      d % 16 == field && d / 16 % 4 == kind && StorageBit(d) == storageBit && (d >= 128 <==> extension == 1)
  {
  }

  lemma DifOfEntry(e: Entry)
    requires Valid(e)
    ensures var d := EntryDif(e);
      && 0 <= d < 256 && d % 16 == FieldCode(e.content) && StorageBit(d) == e.storage % 2 && (d >= 128 <==> e.difes > 0)
      && (!e.content.Special? ==> RecordFunction(d) == e.kind)
  {
    hide ValidContent, FieldCode, IsChain;
    FieldCodeBound(e.content, UnitOfEntry(e));
    DifParts(FieldCode(e.content), KindCode(e.kind), e.storage % 2, if e.difes > 0 then 1 else 0);
    SpecialCode(e);
  }

  /** Everything but the value: numbers, unit, and the function unless it is special. */
  lemma HeadRoundTrip(e: Entry)
    requires Valid(e)
    ensures var h := ToWire(e).head;
      && WellFormedHead(h) && h.dif == EntryDif(e)
      && HeadRecord(h) == Record(RecordFunction(h.dif), e.storage, e.tariff, e.device, UnitOfEntry(e), NoValue, false)
  {
    hide ValidContent, EncodeContent, FieldCode, IsChain, Field, EntryDif, RecordFunction, Reverse;
    DifOfEntry(e);
    if e.difes > 0 { EncodeChainIsChain(e.storage / 2, e.tariff, e.device, e.difes); }
    ChainHolds(e.storage / 2, e.tariff, e.device, e.difes);
    if e.text.Some? { ReverseTwice(e.text.value); }
  }

  /** One reading survives encoding: function, numbers, unit and value all come back. */
  lemma EntryRoundTrip(e: Entry)
    requires Valid(e)
    ensures WellFormed(ToWire(e)) && Meaning(ToWire(e)) == RecordOf(e)
  {
    hide ValidContent, WellFormedHead, WellFormedBody, EncodeContent, ValueOf, ContentValue, FieldCode, HeadRecord,
      UnitOfEntry, EncodeChain, IsChain, EntryDif, RecordFunction;
    DifOfEntry(e);
    HeadRoundTrip(e);
    ContentRoundTrip(e.content, UnitOfEntry(e));
    SpecialCode(e);
  }

  lemma SpecialCode(e: Entry)
    requires Valid(e)
    ensures FieldCode(e.content) == 0x0F <==> e.content.Special?
  {
  }

  function ToItem(x: Option<Entry>): Walker.Item
    requires x.Some? ==> Valid(x.value)
  {
    match x
    case None => Walker.Filler
    case Some(e) => Walker.Rec(ToWire(e))
  }

  predicate AllValid(xs: seq<Option<Entry>>) {
    forall x :: x in xs && x.Some? ==> Valid(x.value)
  }

  /** Readings with idle fillers (None) anywhere between them. */
  function Items(xs: seq<Option<Entry>>): seq<Walker.Item>
    requires AllValid(xs)
  {
    if xs == [] then [] else [ToItem(xs[0])] + Items(xs[1..])
  }

  function RecordsOf(xs: seq<Option<Entry>>): seq<Record>
    requires AllValid(xs)
  {
    if xs == [] then []
    else (match xs[0] case None => [] case Some(e) => [RecordOf(e)]) + RecordsOf(xs[1..])
  }

  lemma {:induction false} ItemsMean(xs: seq<Option<Entry>>)
    requires AllValid(xs)
    ensures Walker.WellFormedItems(Items(xs)) && Walker.Meanings(Items(xs)) == RecordsOf(xs)
  {
    hide Valid, RecordOf, ToWire, WellFormed, Meaning;
    if xs != [] {
      if xs[0].Some? { EntryRoundTrip(xs[0].value); }
      ItemsMean(xs[1..]);
      assert Items(xs)[1..] == Items(xs[1..]);
    }
  }

  /** The walker returns exactly the readings that were encoded, in order. */
  lemma EntriesRoundTrip(xs: seq<Option<Entry>>, tail: seq<byte>)
    requires AllValid(xs) && Walker.IsTail(tail)
    ensures Walker.WellFormedItems(Items(xs))
    ensures Walker.Decode(Walker.Serialize(Items(xs)) + tail) == Ok(RecordsOf(xs) + Walker.TailRecords(tail))
  {
    hide Valid, Walker.Decode;
    ItemsMean(xs);
    Walker.RoundTrip(Items(xs), tail);
  }
}
