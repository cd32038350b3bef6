/** The index-driven record walk of decode.go: its loops, and what they keep in step. */
module Walker {
  import opened Bytes
  import opened Numbers
  import opened DifFields
  import opened Floats
  import Dates
  import opened Records

  // ---------------------------------------------------------------- specification

  /** All records of the user-data area. */
  function Decode(data: seq<byte>): Result<seq<Record>, Error> {
    if data == [] then Ok([])
    else if data[0] == 0x0F || data[0] == 0x1F then Ok([Sentinel(data[0])])
    else if data[0] == 0x2F then Decode(data[1..])
    else
      var w :- Parse(data);
      Prepend([Meaning(w)], Decode(data[|Records.Encode(w)|..]))
  }

  /** What the data is made of: idle fillers and records. */
  datatype Item = Filler | Rec(w: Wire)

  predicate WellFormedItems(items: seq<Item>) {
    forall x :: x in items && x.Rec? ==> WellFormed(x.w)
  }

  function EncodeItem(x: Item): (s: seq<byte>)
    requires x.Rec? ==> WellFormed(x.w)
    ensures s != []
  {
    match x
    case Filler => [0x2F]
    case Rec(w) => Records.Encode(w)
  }

  function Serialize(items: seq<Item>): seq<byte>
    requires WellFormedItems(items)
  {
    if items == [] then [] else EncodeItem(items[0]) + Serialize(items[1..])
  }

  function Meanings(items: seq<Item>): seq<Record> {
    if items == [] then []
    else (match items[0] case Filler => [] case Rec(w) => [Meaning(w)]) + Meanings(items[1..])
  }

  /** The opaque manufacturer block a walk may end with. */
  predicate IsTail(tail: seq<byte>) {
    tail == [] || tail[0] == 0x0F || tail[0] == 0x1F
  }

  function TailRecords(tail: seq<byte>): seq<Record>
    requires IsTail(tail)
  {
    if tail == [] then [] else [Sentinel(tail[0])]
  }

  // ---------------------------------------------------------------- theorems

  lemma DecodeItem(x: Item, rest: seq<byte>)
    requires x.Rec? ==> WellFormed(x.w)
    ensures Decode(EncodeItem(x) + rest) == Prepend(Meanings([x]), Decode(rest))
  {
    hide Parse, Records.Encode, WellFormed, Meaning;
    var data := EncodeItem(x) + rest;
    MeaningOfOne(x);
    assert data[|EncodeItem(x)|..] == rest;
    match x
    case Filler =>
      PrependNothing(Decode(rest));
    case Rec(w) =>
      FirstByte(w);
      ParseExact(data, w);
  }

  lemma FirstByte(w: Wire)
    requires WellFormed(w)
    ensures Records.Encode(w)[0] !in {0x0F, 0x1F, 0x2F}
  {
  }

  lemma MeaningOfOne(x: Item)
    ensures Meanings([x]) == match x case Filler => [] case Rec(w) => [Meaning(w)]
  {
    assert [x][1..] == [];
  }

  /** Walking serialised items and then anything: the items' records, then whatever the rest decodes to. */
  lemma {:induction false} DecodePrefix(items: seq<Item>, rest: seq<byte>)
    requires WellFormedItems(items)
    ensures Decode(Serialize(items) + rest) == Prepend(Meanings(items), Decode(rest))
  {
    hide Parse, EncodeItem, WellFormed, Meaning, Decode;
    if items == [] {
      assert [] + rest == rest;
      PrependNothing(Decode(rest));
    } else {
      var tail := Serialize(items[1..]) + rest;
      assert Serialize(items) + rest == EncodeItem(items[0]) + tail;
      DecodeItem(items[0], tail);
      DecodePrefix(items[1..], rest);
      MeaningOfOne(items[0]);
      PrependTwice(Meanings([items[0]]), Meanings(items[1..]), Decode(rest));
    }
  }

  /** Round trip: any well-formed records, any fillers between them, and an optional opaque tail. */
  lemma RoundTrip(items: seq<Item>, tail: seq<byte>)
    requires WellFormedItems(items) && IsTail(tail)
    ensures Decode(Serialize(items) + tail) == Ok(Meanings(items) + TailRecords(tail))
  {
    DecodePrefix(items, tail);
  }

  /** Tiling: whatever decodes is exactly fillers, well-formed records and an optional opaque tail. */
  lemma {:induction false} Tiling(data: seq<byte>) returns (items: seq<Item>, tail: seq<byte>)
    ensures Decode(data).Ok? ==>
      && WellFormedItems(items) && IsTail(tail) && data == Serialize(items) + tail
      && Decode(data).value == Meanings(items) + TailRecords(tail)
    decreases |data|
  {
    hide Decode, EncodeItem, WellFormedItems, WellFormed, Serialize, Meanings, TailRecords;
    items, tail := [], data;
    if IsTail(data) {
      TailOnly(data);
    } else if Decode(data).Ok? {
      var x := FirstItem(data);
      var rest := data[|EncodeItem(x)|..];
      var items', tail' := Tiling(rest);
      items, tail := [x] + items', tail';
      Cons(x, items');
      assert data == EncodeItem(x) + (Serialize(items') + tail);
    }
  }

  lemma Cons(x: Item, items: seq<Item>)
    requires WellFormedItems(items) && (x.Rec? ==> WellFormed(x.w))
    ensures WellFormedItems([x] + items) && Serialize([x] + items) == EncodeItem(x) + Serialize(items)
    ensures Meanings([x] + items) == Meanings([x]) + Meanings(items)
  {
    MeaningOfOne(x);
    assert ([x] + items)[1..] == items;
  }

  lemma TailOnly(data: seq<byte>)
    requires IsTail(data)
    ensures Decode(data) == Ok(Meanings([]) + TailRecords(data)) && WellFormedItems([]) && Serialize([]) + data == data
  {
    assert Meanings([]) + TailRecords(data) == TailRecords(data);
  }

  lemma FirstItem(data: seq<byte>) returns (x: Item)
    requires !IsTail(data)
    ensures x.Rec? ==> WellFormed(x.w)
    ensures Decode(data).Ok? ==>
      EncodeItem(x) <= data && Decode(data) == Prepend(Meanings([x]), Decode(data[|EncodeItem(x)|..]))
  {
    hide Parse, Records.Encode, WellFormed, Meaning;
    x := Filler;
    if Decode(data).Ok? {
      if data[0] != 0x2F { x := Rec(Parse(data).value); }
      assert data == EncodeItem(x) + data[|EncodeItem(x)|..];
      DecodeItem(x, data[|EncodeItem(x)|..]);
    }
  }

  lemma {:induction false} MeaningsAreNotSentinels(items: seq<Item>)
    requires WellFormedItems(items)
    ensures forall r :: r in Meanings(items) ==> !IsSentinel(r)
  {
    if items != [] { MeaningsAreNotSentinels(items[1..]); }
  }

  /** The records of a walk that met no sentinel. */
  predicate Clean(rs: seq<Record>) {
    forall r :: r in rs ==> !IsSentinel(r)
  }

  /** Locality: after data that decodes without meeting a sentinel the walk starts afresh; after a
      sentinel it never looks at what follows. */
  lemma Locality(a: seq<byte>, b: seq<byte>)
    ensures Decode(a).Ok? ==>
      Decode(a + b) == if Clean(Decode(a).value) then Prepend(Decode(a).value, Decode(b)) else Decode(a)
  {
    hide Parse, WellFormed, Meaning, EncodeItem, Records.Encode, Decode;
    if Decode(a).Ok? {
      var items, tail := Tiling(a);
      MeaningsAreNotSentinels(items);
      assert a + b == Serialize(items) + (tail + b);
      DecodePrefix(items, tail + b);
      if tail == [] {
        assert tail + b == b && Meanings(items) + [] == Meanings(items);
      } else {
        SentinelEnds(tail, b);
        assert Decode(a).value[|Meanings(items)|] == Sentinel(tail[0]);
        assert Decode(a).value[|Meanings(items)|] in Decode(a).value;
      }
    }
  }

  lemma SentinelEnds(tail: seq<byte>, more: seq<byte>)
    requires IsTail(tail) && tail != []
    ensures Decode(tail + more) == Ok(TailRecords(tail))
  {
  }

  /** Fields 00h, 08h and 0Fh carry nothing, so a record is at least its DIF and VIF: the walk advances
      by at least two bytes a record and at least one a filler. */
  lemma {:induction false} SerializedLength(items: seq<Item>)
    requires WellFormedItems(items)
    ensures |Serialize(items)| >= |items| + |Meanings(items)|
  {
    if items != [] { SerializedLength(items[1..]); }
  }

  /** The record with its value bytes replaced; the LVAR byte stays. */
  function WithPayload(w: Wire, payload: seq<byte>): Wire { w.(body := w.body.(payload := payload)) }

  /** Bad values never lose sync: overwrite the value bytes of any record with any bytes of that width
      and everything before it, after it, and around the value in the record itself decodes as before. */
  lemma BadValueKeepsSync(before: seq<Item>, w: Wire, payload: seq<byte>, rest: seq<byte>)
    requires WellFormedItems(before) && WellFormed(w) && |payload| == |w.body.payload|
    ensures var w' := WithPayload(w, payload);
      && WellFormed(w')
      && Records.Encode(w') == Records.Encode(w)[..|Records.Encode(w)| - |payload|] + payload
      && Meaning(w') == Meaning(w).(value := Meaning(w').value)
      && Decode(Serialize(before) + (Records.Encode(w) + rest))
         == Prepend(Meanings(before) + [Meaning(w)], Decode(rest))
      && Decode(Serialize(before) + (Records.Encode(w') + rest))
         == Prepend(Meanings(before) + [Meaning(w')], Decode(rest))
  {
    hide Decode;
    var w' := WithPayload(w, payload);
    PayloadIsLast(w, payload);
    DecodeAround(before, w, rest);
    DecodeAround(before, w', rest);
  }

  lemma PayloadIsLast(w: Wire, payload: seq<byte>)
    requires WellFormed(w) && |payload| == |w.body.payload|
    ensures var w' := WithPayload(w, payload);
      && WellFormed(w') && Meaning(w') == Meaning(w).(value := Meaning(w').value)
      && Records.Encode(w') == Records.Encode(w)[..|Records.Encode(w)| - |payload|] + payload
  {
    hide EncodeHead, HeadRecord, ValueOf;
    var w' := WithPayload(w, payload);
    var front := EncodeHead(w.head) + if w.body.lvar.Some? then [w.body.lvar.value] else [];
    assert Records.Encode(w) == front + w.body.payload;
    assert Records.Encode(w') == front + payload;
  }

  lemma DecodeAround(before: seq<Item>, w: Wire, rest: seq<byte>)
    requires WellFormedItems(before) && WellFormed(w)
    ensures Decode(Serialize(before) + (Records.Encode(w) + rest))
        == Prepend(Meanings(before) + [Meaning(w)], Decode(rest))
  {
    hide Parse, WellFormed, Records.Encode, Meaning, Decode;
    DecodePrefix(before, EncodeItem(Rec(w)) + rest);
    DecodeItem(Rec(w), rest);
    MeaningOfOne(Rec(w));
    PrependTwice(Meanings(before), [Meaning(w)], Decode(rest));
  }

  // ---------------------------------------------------------------- the loops

  method ReadExtensions(data: seq<byte>, start: nat) returns (r: Result<seq<byte>, Error>)
    requires start <= |data|
    ensures r == Extensions(data[start..], 0)
  {
    hide Extensions;
    var i := start;
    var ext: seq<byte> := [];
    PrependNothing(Extensions(data[start..], 0));
    while true
      invariant start <= i <= |data| && |ext| == i - start <= MAX_EXTENSIONS
      invariant Extensions(data[start..], 0) == Prepend(ext, Extensions(data[i..], |ext|))
      decreases |data| - i
    {
      ExtensionStep(data, i, |ext|);
      if |ext| >= MAX_EXTENSIONS {
        return Err(TooManyExtensions);
      }
      if i + 1 > |data| {
        return Err(Truncated);
      }
      PrependTwice(ext, [data[i]], Extensions(data[i + 1..], |ext| + 1));
      ext := ext + [data[i]];
      if data[i] / 128 % 2 == 0 {
        return Ok(ext);
      }
      i := i + 1;
    }
  }

  lemma ExtensionStep(data: seq<byte>, i: nat, count: nat)
    requires i <= |data|
    ensures Extensions(data[i..], count)
            == if count >= MAX_EXTENSIONS then Err(TooManyExtensions)
               else if i == |data| then Err(Truncated)
               else if data[i] < 128 then Ok([data[i]])
               else Prepend([data[i]], Extensions(data[i + 1..], count + 1))
  {
    if i < |data| { assert data[i..][1..] == data[i + 1..]; }
  }

  method DecodeLvar(data: seq<byte>, i: nat, record: Record) returns (r: Result<(Record, nat), Error>)
    requires i <= |data| && record.unit != NoUnit
    ensures r == match ParseBody(data[i..], 0x0D)
                 case Ok(b) => Ok((record.(value := LvarValue(b.lvar.value, b.payload, IsRaw(record.unit))),
                     |b.payload|))
                 case Err(e) => Err(e)
  {
    if i + 1 > |data| {
      return Err(Truncated);
    }
    var lvar := data[i];
    var payload := i + 1;
    var size: nat;
    if lvar <= 0xBF {
      size := lvar;
    } else if lvar <= 0xDF {
      size := lvar % 16;
    } else if lvar <= 0xEF {
      size := lvar - 0xE0;
      if size < 1 || size > MAX_LE_BYTES {
        return Err(UnsupportedBinarySize);
      }
    } else if lvar <= 0xFA {
      size := lvar - 0xF0;
      if size != 4 {
        return Err(UnsupportedFloatSize);
      }
    } else {
      return Err(ReservedLvar);
    }
    if payload + size > |data| {
      return Err(Truncated);
    }
    var field := data[payload..payload + size];
    assert data[i..][1..1 + size] == field;
    var value: Value;
    if lvar <= 0xBF {
      value := Text(Reverse(field));
    } else if lvar <= 0xDF {
      var v := BcdMagnitude(field);
      if v.None? {
        value := BadValue;
      } else {
        value := Integer(WithSign(Float64(v.value), lvar > 0xCF));
      }
    } else if lvar <= 0xEF {
      var v := IntegerRawValue(field, IsRaw(record.unit));
      value := Integer(v);
    } else {
      value := Real(field);
    }
    return Ok((record.(value := value), size));
  }

  method IntegerRawValue(b: seq<byte>, raw: bool) returns (v: int)
    ensures v == RawNumber(b, raw)
  {
    if raw {
      var u := UintLE(b);
      return Float64(u);
    }
    var s := IntLE(b);
    return Float64(s);
  }

  method DecodeRecordValue(data: seq<byte>, i: nat, dif: byte, record: Record) returns (r: Result<(Record, nat), Error>)
    requires i <= |data| && record.unit != NoUnit && record.value == NoValue
    ensures r == match ParseBody(data[i..], dif % 16)
                 case Ok(b) => Ok((Fill(record, dif % 16, b), |EncodeBody(b)|))
                 case Err(e) => Err(e)
  {
    hide Dates.ReadStamp, Float64, RawNumber, Signed, LvarValue, DateFormat, IsRaw, LvarSize;
    var field := dif % 16;
    var width := IntegerWidth(field);
    if width.Some? {
      if i + width.value > |data| {
        return Err(Truncated);
      }
      assert data[i..][..width.value] == data[i..i + width.value];
      var v := IntegerRawValue(data[i..i + width.value], IsRaw(record.unit));
      var format := DateFormat(record.unit);
      if format != Dates.NoDate {
        var stamp := Dates.ReadStamp(format, data[i..i + width.value]);
        return Ok((record.(value := Dated(v, stamp.0, stamp.1)), width.value));
      }
      return Ok((record.(value := Integer(v)), width.value));
    }
    width := BcdWidth(field);
    if width.Some? {
      if i + width.value > |data| {
        return Err(Truncated);
      }
      assert data[i..][..width.value] == data[i..i + width.value];
      var v := BcdSigned(data[i..i + width.value]);
      if v.None? {
        return Ok((record.(value := BadValue), width.value));
      }
      return Ok((record.(value := Integer(Float64(v.value))), width.value));
    }
    match field
    case 0x00 => return Ok((record, 0));
    case 0x08 => return Ok((record, 0));
    case 0x05 =>
      if i + 4 > |data| {
        return Err(Truncated);
      }
      assert data[i..][..4] == data[i..i + 4];
      return Ok((record.(value := Real(data[i..i + 4])), 4));
    case 0x0D =>
      var n :- DecodeLvar(data, i, record);
      return Ok((n.0, 1 + n.1));
    case _ =>
      assert field == 0x0F;
      return Ok((record.(kind := SpecialFunction), 0));
  }

  /** The length byte and the characters after a plain-text VIF. */
  method DecodePlainText(data: seq<byte>, start: nat) returns (r: Result<seq<byte>, Error>)
    requires start <= |data|
    ensures match ParseText(data[start..], true)
            case Ok(t) => t.Some? && r == Ok(t.value)
            case Err(e) => r == Err(e)
  {
    if start + 1 > |data| {
      return Err(Truncated);
    }
    var length := data[start];
    var i := start + 1;
    if i + length > |data| {
      return Err(Truncated);
    }
    assert data[start..][1..1 + length] == data[i..i + length];
    return Ok(data[i..i + length]);
  }

  /** The VIF part of decodeRecord: VIF, plain-text unit, VIFEs. */
  method DecodeVib(data: seq<byte>, start: nat, dif: byte, dife: seq<byte>) returns (r: Result<(Head, nat), Error>)
    requires start <= |data|
    ensures r == match ParseVib(dif, dife, data[start..])
                 case Ok(h) => Ok((h, 1 + |EncodeText(h.text)| + |h.vife|))
                 case Err(e) => Err(e)
  {
    hide Extensions, IsChain;
    ghost var s := data[start..];
    var i := start;
    if i + 1 > |data| {
      return Err(Truncated);
    }
    var vif := data[i];
    i := i + 1;
    assert s[1..] == data[i..];
    var text: Option<seq<byte>> := None;
    if vif % 128 == 0x7C {
      var t :- DecodePlainText(data, i);
      text := Some(t);
      i := i + 1 + |t|;
    }
    assert s[1 + |EncodeText(text)|..] == data[i..];
    var vife: seq<byte> := [];
    if vif / 128 % 2 == 1 {
      vife :- ReadExtensions(data, i);
      i := i + |vife|;
    }
    return Ok((Head(dif, dife, vif, text, vife), i - start));
  }

  method DecodeRecord(data: seq<byte>, start: nat) returns (r: Result<(Record, nat), Error>)
    requires start < |data| && data[start] !in {0x0F, 0x1F, 0x2F}
    ensures r == match Parse(data[start..])
                 case Ok(w) => Ok((Meaning(w), |Records.Encode(w)|))
                 case Err(e) => Err(e)
  {
    hide Fill, ValueOf, WellFormedBody, EncodeBody, StorageNumber, RecordFunction, ParseVib, ParseBody, Extensions,
      IsChain, EncodeHead, ParseHead, Parse, Meaning;
    ghost var s := data[start..];
    HeadSound(s);
    HeadSteps(s);
    ParseSteps(s);
    var i := start;
    var dif := data[i];
    i := i + 1;
    var dife: seq<byte> := [];
    assert s[1..] == data[i..];
    ExtensionsSound(s[1..], 0);
    if dif / 128 % 2 == 1 {
      dife :- ReadExtensions(data, i);
      i := i + |dife|;
    }
    assert s[1 + |dife|..] == data[i..];
    var vib :- DecodeVib(data, i, dif, dife);
    var head := vib.0;
    i := i + vib.1;
    HeadLength(head);
    VibSound(dif, dife, s[1 + |dife|..]);
    assert s[|EncodeHead(head)|..] == data[i..];

    var unit := if head.text.Some? then TextUnit(head.vif, head.vife, Reverse(head.text.value))
                else VifUnit(head.vif, head.vife);
    var storage := DecodeStorageNumber(dif, dife);
    var device := DecodeDevice(dife);
    var tariff := DecodeTariff(dife);
    var record := Record(RecordFunction(dif), storage, tariff, device, unit, NoValue, false);
    assert record == HeadRecord(head);
    var value :- DecodeRecordValue(data, i, dif, record);
    MeaningOfParts(head, data[i..], HeadRecord(head));
    i := i + value.1;
    return Ok((value.0, i - start));
  }

  lemma HeadSteps(s: seq<byte>)
    requires s != []
    ensures ParseHead(s) == match OptionalExtensions(s[1..], s[0] >= 128)
                            case Ok(dife) => ParseVib(s[0], dife, s[1 + |dife|..])
                            case Err(e) => Err(e)
  {
  }

  lemma ParseSteps(s: seq<byte>)
    requires s != [] && s[0] !in {0x0F, 0x1F, 0x2F}
    ensures match ParseHead(s)
            case Err(e) => Parse(s) == Err(e)
            case Ok(h) =>
              WellFormedHead(h)
              && match ParseBody(s[|EncodeHead(h)|..], h.dif % 16)
                 case Err(e) => Parse(s) == Err(e)
                 case Ok(b) => Parse(s) == Ok(Wire(h, b))
  {
    hide ParseHead, ParseBody, WellFormedHead, EncodeHead;
    HeadSound(s);
  }

  lemma HeadLength(h: Head)
    requires WellFormedHead(h)
    ensures |EncodeHead(h)| == 2 + |h.dife| + |EncodeText(h.text)| + |h.vife|
  {
  }

  lemma MeaningOfParts(h: Head, rest: seq<byte>, r: Record)
    requires WellFormedHead(h) && r == HeadRecord(h) && h.dif !in {0x0F, 0x1F, 0x2F}
    ensures match ParseBody(rest, h.dif % 16)
            case Err(_) => true
            case Ok(b) =>
              var w := Wire(h, b);
              WellFormed(w) && Meaning(w) == Fill(r, h.dif % 16, b)
              && |Records.Encode(w)| == |EncodeHead(h)| + |EncodeBody(b)|
  {
    hide WellFormedHead, EncodeHead, HeadRecord, Fill, ParseBody, EncodeBody, WellFormedBody;
    BodySound(rest, h.dif % 16);
  }

  /** The walk: it always terminates, stays in bounds, and is exactly Decode. */
  method DecodeData(data: seq<byte>) returns (r: Result<seq<Record>, Error>)
    ensures r == Decode(data)
  {
    hide Parse, Records.Encode, WellFormed, Meaning;
    var records: seq<Record> := [];
    var i := 0;
    assert data[0..] == data;
    PrependNothing(Decode(data));
    while i < |data|
      invariant 0 <= i <= |data|
      invariant Decode(data) == Prepend(records, Decode(data[i..]))
    {
      var dif := data[i];
      if dif == 0x0F || dif == 0x1F {
        return Ok(records + [Record(RecordFunction(dif), dif / 64 % 2 * 64, 0, 0, NoUnit, NoValue, dif == 0x1F)]);
      }
      if dif == 0x2F {
        assert data[i..][1..] == data[i + 1..];
        i := i + 1;
        continue;
      }
      var record :- DecodeRecord(data, i);
      assert data[i..][record.1..] == data[i + record.1..];
      PrependTwice(records, [record.0], Decode(data[i + record.1..]));
      records := records + [record.0];
      i := i + record.1;
    }
    assert data[i..] == [] && records + [] == records;
    return Ok(records);
  }
}
