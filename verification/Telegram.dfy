/** From a received wireless frame to its readings (wmbus/telegram.go). */
module Telegram {
  import opened Bytes
  import opened Numbers
  import opened Cipher
  import opened Transport
  import Crypto
  import Cmac
  import Link
  import Frames
  import LongFrames
  import Records
  import Walker
  import Entries

  datatype Telegram = Telegram(manufacturer: string, serial: nat, version: byte, device: byte, ci: byte,
                               access: byte, status: byte, mode: nat, records: seq<Records.Record>)

  const IDENT_OFFSET: nat := 7
  const RECORD_OFFSET: nat := 19
  const TRAILER: nat := 2

  // ---------------------------------------------------------------- specification

  /** A number that is not BCD reads as zero: it must not cost the readings. */
  function SerialOf(ident: seq<byte>): nat {
    match Magnitude(ident)
    case None => 0
    case Some(serial) => serial
  }

  /** The application layer: the records of the payload under the meter's wireless address. */
  function Application(t: Layers, payload: seq<byte>): Result<LongFrames.DecodedFrame, Error>
    requires |t.address| == 8
  {
    match Walker.Decode(payload)
    case Err(_) => Err(InvalidFrame)
    case Ok(records) =>
      Ok(LongFrames.DecodedFrame(SerialOf(t.address[2..6]), LongFrames.Manufacturer(t.address[0], t.address[1]),
                                 t.address[6], t.address[7], t.access, t.status, 0, records))
  }

  function Report(t: Layers, d: LongFrames.DecodedFrame): Telegram
    requires |t.address| == 8
  {
    Telegram(d.manufacturer, d.serial, t.address[6], d.medium, t.ci, t.access, t.status, t.mode, d.records)
  }

  function Decode(c: Permutation, f: Link.Frame, key: seq<byte>): Result<Telegram, Error>
    requires Link.WellFormed(f)
  {
    ParseIsSound(f);
    var t :- Parse(f);
    var payload :- Crypto.Decrypt(c, t, key);
    var d :- Application(t, payload);
    Ok(Report(t, d))
  }

  /** The key of a meter, or none. */
  function KeyFor(keys: map<nat, seq<byte>>, serial: Option<nat>): seq<byte> {
    if serial.Some? && serial.value in keys then keys[serial.value] else []
  }

  // ---------------------------------------------------------------- theorems

  /** The user data of the wired frame. */
  function User(t: Layers, payload: seq<byte>): (s: seq<byte>)
    requires |t.address| == 8
    ensures |s| == RECORD_OFFSET - 4 + |payload|
  {
    [0x08, 0x00, LongFrames.CI_VARIABLE] + Identity(t) + payload
  }

  /** The wired frame the payload is wrapped in. */
  function Wired(t: Layers, payload: seq<byte>): (w: seq<byte>)
    requires |t.address| == 8
    ensures |w| == RECORD_OFFSET + |payload| + TRAILER
  {
    var length := (RECORD_OFFSET + |payload| + TRAILER - 6) % 256;
    var user := User(t, payload);
    [0x68, length, length, 0x68] + user + [CheckSum(user), 0x16]
  }

  function WiredIdent(ident: seq<byte>): (s: seq<byte>)
    requires |ident| == 4
    ensures |s| == 4
  {
    if Magnitude(ident).Some? then ident else [0, 0, 0, 0]
  }

  function VersionToSignature(t: Layers): (s: seq<byte>)
    requires |t.address| == 8
    ensures |s| == 6
  {
    [t.address[6], t.address[7], t.access, t.status, 0, 0]
  }

  /** The wired header's identity and status, from the wireless address. */
  function Identity(t: Layers): (s: seq<byte>)
    requires |t.address| == 8
    ensures |s| == RECORD_OFFSET - IDENT_OFFSET
  {
    WiredIdent(t.address[2..6]) + t.address[0..2] + VersionToSignature(t)
  }

  lemma WiredSerial(ident: seq<byte>)
    requires |ident| == 4
    ensures Magnitude(WiredIdent(ident)) == Some(SerialOf(ident))
  {
    var zero: seq<byte> := [0, 0, 0, 0];
    assert zero[1..] == [0, 0, 0] && zero[2..] == [0, 0] && zero[3..] == [0] && zero[4..] == [];
    assert zero[1..][1..] == zero[2..] && zero[2..][1..] == zero[3..] && zero[3..][1..] == zero[4..];
  }

  /** The synthetic wired frame refines the record walk: decoding it succeeds exactly when walking the payload
      does, with exactly those records, and reports the wireless address. */
  lemma WiredRefinesWalk(t: Layers, payload: seq<byte>)
    requires |t.address| == 8
    ensures match LongFrames.DecodeFrame(Wired(t, payload))
            case Ok(d) => Application(t, payload) == Ok(d)
            case Err(e) => Application(t, payload) == Err(InvalidFrame) && e.BadRecord?
  {
    hide Magnitude, Walker.Decode, LongFrames.Manufacturer, CheckSum, WiredIdent, SerialOf;
    var w := Wired(t, payload);
    WiredSerial(t.address[2..6]);
    assert w[7..11] == WiredIdent(t.address[2..6]);
    assert w[11] == t.address[0] && w[12] == t.address[1];
    assert w[RECORD_OFFSET..|w| - 2] == payload;
  }

  /** What an unprotected telegram needs is no key, and what a protected one needs is a key: with none it fails
      with KeyRequired and nothing else, once its layers are sound. */
  lemma WithoutKey(c: Permutation, f: Link.Frame)
    requires Link.WellFormed(f)
    ensures Decode(c, f, []).Ok?
      <==> Parse(f).Ok? && !Crypto.IsEncrypted(Parse(f).value) && Walker.Decode(Parse(f).value.data).Ok?
    ensures Parse(f).Ok? ==> (Decode(c, f, []) == Err(KeyRequired) <==> Crypto.IsEncrypted(Parse(f).value))
    ensures Parse(f).Ok? && !Crypto.IsEncrypted(Parse(f).value) ==> forall key :: Decode(c, f, key) == Decode(c, f, [])
  {
    hide Walker.Decode, LongFrames.Manufacturer, SerialOf, Parse;
    ParseIsSound(f);
  }

  /** What is transmitted for an application payload: its leading blocks chained, the rest as it is. */
  function Protect(c: Permutation, t: Layers, key: seq<byte>, payload: seq<byte>): seq<byte>
    requires Crypto.Shaped(t) && |payload| == |t.data|
  {
    match Crypto.MessageKey(c, t, key)
    case Err(_) => payload
    case Ok(k) =>
      if Crypto.IsEncrypted(t) then CbcEncrypt(c, k, Crypto.Iv(t), payload[..t.encrypted]) + payload[t.encrypted..]
      else payload
  }

  lemma {:induction false} LayersKeepTheRest(t: Layers, ls: seq<Layer>)
    requires WellFormedLayers(ls)
    ensures AfterLayers(t, ls) == t.(counter := AfterLayers(t, ls).counter, hasCounter := AfterLayers(t, ls).hasCounter)
    ensures |t.counter| == 4 ==> |AfterLayers(t, ls).counter| == 4
    decreases |ls|
  {
    if ls != [] { LayersKeepTheRest(AfterLayer(t, ls[0]), ls[1..]); }
  }

  /** The transport layer as the receiver will see it. */
  function Expected(f: Link.Frame, ls: seq<Layer>, h: Header, data: seq<byte>): (t: Layers)
    requires Link.WellFormed(f) && WellFormedLayers(ls) && WellFormedHeader(h, data)
    ensures Sound(t) && t.data == data
  {
    LayersKeepTheRest(Initial(f), ls);
    AfterHeader(AfterLayers(Initial(f), ls), h, data)
  }

  /** The data does not enter key or initialisation vector. */
  lemma KeyIgnoresData(c: Permutation, t: Layers, key: seq<byte>, data: seq<byte>)
    requires Sound(t) && |data| == |t.data|
    ensures var sent := t.(data := data);
      Crypto.Iv(sent) == Crypto.Iv(t) && Crypto.MessageKey(c, sent, key) == Crypto.MessageKey(c, t, key)
  {
    hide Cmac.Mac;
    assert Crypto.DerivationInput(t.(data := data)) == Crypto.DerivationInput(t);
    assert Crypto.ModeFiveIv(t.(data := data)) == Crypto.ModeFiveIv(t);
  }

  lemma ProtectedDecrypts(c: Permutation, t: Layers, key: seq<byte>, payload: seq<byte>)
    requires IsCipher(c) && Sound(t) && t.data == payload && Unlocks(t, key, payload)
    ensures |Protect(c, t, key, payload)| == |payload|
    ensures Crypto.Decrypt(c, t.(data := Protect(c, t, key, payload)), key) == Ok(payload)
  {
    hide IsCipher, CbcEncrypt, CbcDecrypt, Cmac.Mac, Crypto.ModeFiveIv, Crypto.DerivationInput;
    if Crypto.IsEncrypted(t) {
      var k := Crypto.MessageKey(c, t, key).value;
      var plain, tail := payload[..t.encrypted], payload[t.encrypted..];
      Crypto.MessageKeyIsBlock(c, t, key);
      CbcRoundTrip(c, k, Crypto.Iv(t), plain);
      var sent := t.(data := Protect(c, t, key, payload));
      KeyIgnoresData(c, t, key, sent.data);
      assert plain[..2] == payload[..2];
      Crypto.DecryptRoundTrip(c, sent, key, plain, tail);
      assert plain + tail == payload;
    }
  }

  /** A protected payload opens with two fillers and has a key; mode 7 also needs a message counter. */
  predicate Unlocks(t: Layers, key: seq<byte>, payload: seq<byte>) {
    Crypto.IsEncrypted(t) ==>
      |key| == BLOCK && [Crypto.FILLER, Crypto.FILLER] <= payload && (t.mode == MODE_CBC_DERIVED ==> t.hasCounter)
  }

  predicate CanSend(f: Link.Frame, ls: seq<Layer>, h: Header, key: seq<byte>, payload: seq<byte>) {
    && Link.WellFormed(f) && WellFormedLayers(ls) && WellFormedHeader(h, payload)
    && Unlocks(Expected(f, ls, h, payload), key, payload)
  }

  /** What a meter transmits for an application payload: layers, header, protected data. */
  ghost function Transmit(c: Permutation, f: Link.Frame, ls: seq<Layer>, h: Header, key: seq<byte>,
    payload: seq<byte>): seq<byte>
    requires IsCipher(c) && CanSend(f, ls, h, key, payload)
  {
    var t := Expected(f, ls, h, payload);
    ProtectedDecrypts(c, t, key, payload);
    Transport.Serialize(ls, h, Protect(c, t, key, payload))
  }

  /** Whatever the layers, the header and the security mode, decoding what was transmitted is walking the payload
      that was meant. */
  lemma TransmitDecodes(c: Permutation, f: Link.Frame, ls: seq<Layer>, h: Header, key: seq<byte>, payload: seq<byte>)
    requires IsCipher(c) && CanSend(f, ls, h, key, payload)
    ensures var t := Expected(f, ls, h, payload);
      Decode(c, f.(payload := Transmit(c, f, ls, h, key, payload)), key)
      == match Application(t, payload)
         case Ok(d) => Ok(Report(t, d))
         case Err(e) => Err(e)
  {
    hide IsCipher, Protect, Crypto.Decrypt, Walk, Transport.Serialize, WellFormedLayer, Walker.Decode, AfterLayers,
      Unlocks;
    var t := Expected(f, ls, h, payload);
    ProtectedDecrypts(c, t, key, payload);
    var data := Protect(c, t, key, payload);
    WalkRoundTrip(Initial(f), ls, h, data);
    assert Expected(f, ls, h, data) == t.(data := data);
  }

  /** Readings and fillers (None) as the meter writes them, with an optional opaque tail. */
  function Plain(readings: seq<Option<Entries.Entry>>, tail: seq<byte>): seq<byte>
    requires Entries.AllValid(readings)
  {
    Entries.ItemsMean(readings);
    Walker.Serialize(Entries.Items(readings)) + tail
  }

  /** The report a receiver should get: the readings under the address of the long header, or else of the link layer. */
  function Reported(f: Link.Frame, ls: seq<Layer>, h: Header, readings: seq<Option<Entries.Entry>>,
    tail: seq<byte>): Telegram
    requires Entries.AllValid(readings) && Walker.IsTail(tail)
    requires Link.WellFormed(f) && WellFormedLayers(ls) && WellFormedHeader(h, Plain(readings, tail))
  {
    var t := Expected(f, ls, h, Plain(readings, tail));
    Telegram(LongFrames.Manufacturer(t.address[0], t.address[1]), SerialOf(t.address[2..6]), t.address[6], t.address[7],
             t.ci, t.access, t.status, t.mode, Entries.RecordsOf(readings) + Walker.TailRecords(tail))
  }

  /** The readings a meter sends are the readings that are decoded, in order, under its number and address. */
  lemma ReadingsRoundTrip(c: Permutation, f: Link.Frame, ls: seq<Layer>, h: Header, key: seq<byte>,
                          readings: seq<Option<Entries.Entry>>, tail: seq<byte>)
    requires Entries.AllValid(readings) && Walker.IsTail(tail)
    requires IsCipher(c) && CanSend(f, ls, h, key, Plain(readings, tail))
    ensures Decode(c, f.(payload := Transmit(c, f, ls, h, key, Plain(readings, tail))), key)
            == Ok(Reported(f, ls, h, readings, tail))
  {
    hide IsCipher, Transmit, Decode, WellFormedHeader, WellFormedLayers, Entries.AllValid, Walker.Decode,
      LongFrames.Manufacturer, SerialOf;
    Entries.EntriesRoundTrip(readings, tail);
    TransmitDecodes(c, f, ls, h, key, Plain(readings, tail));
  }

  /** From readings to air and back: in either frame format, whatever bytes the receiver picked up behind the
      telegram, it parses, and decodes to exactly what was sent. */
  lemma AirRoundTrip(c: Permutation, f: Link.Frame, ls: seq<Layer>, h: Header, key: seq<byte>,
                     readings: seq<Option<Entries.Entry>>, tail: seq<byte>, noise: seq<byte>)
    requires Entries.AllValid(readings) && Walker.IsTail(tail)
    requires IsCipher(c) && CanSend(f, ls, h, key, Plain(readings, tail))
    ensures var sent := f.(payload := Transmit(c, f, ls, h, key, Plain(readings, tail)));
      && Decode(c, sent, key) == Ok(Reported(f, ls, h, readings, tail))
      && (f.format == Link.FormatA && |sent.payload| <= 246 ==> Link.ParseA(Link.EncodeA(sent) + noise) == Ok(sent))
      && (f.format == Link.FormatB && |sent.payload| <= 242 ==> Link.ParseB(Link.EncodeB(sent) + noise) == Ok(sent))
  {
    hide Link.ParseA, Link.ParseB, Link.EncodeA, Link.EncodeB, Transmit, IsCipher, Decode, Reported;
    var sent := f.(payload := Transmit(c, f, ls, h, key, Plain(readings, tail)));
    ReadingsRoundTrip(c, f, ls, h, key, readings, tail);
    if f.format == Link.FormatA && |sent.payload| <= 246 { Link.FormatAExact(Link.EncodeA(sent) + noise, sent); }
    if f.format == Link.FormatB && |sent.payload| <= 242 { Link.FormatBExact(Link.EncodeB(sent) + noise, sent); }
  }

  // ---------------------------------------------------------------- the source's own steps

  /** Copies a string into a buffer at an offset. */
  method CopyAt(dst: array<byte>, at: nat, src: seq<byte>)
    requires at + |src| <= dst.Length
    modifies dst
    ensures dst[..] == old(dst[..at]) + src + old(dst[at + |src|..])
  {
    for i := 0 to |src|
      invariant dst[..at] == old(dst[..at]) && dst[at + i..] == old(dst[at + i..])
      invariant forall k :: 0 <= k < i ==> dst[at + k] == src[k]
    {
      ghost var before := dst[at + i..];
      assert old(dst[at + i + 1..]) == before[1..];
      dst[at + i] := src[i];
      assert dst[at + i + 1..] == before[1..];
    }
    assert dst[at..at + |src|] == src;
    assert dst[..] == dst[..at] + dst[at..at + |src|] + dst[at + |src|..];
  }

  /** The identification number, or four zero bytes where it is not BCD. */
  method FillIdent(w: array<byte>, ident: seq<byte>)
    requires |ident| == 4 && w.Length >= RECORD_OFFSET
    modifies w
    ensures w[..] == old(w[..IDENT_OFFSET]) + WiredIdent(ident) + old(w[11..])
  {
    hide Magnitude;
    CopyAt(w, IDENT_OFFSET, ident);
    var serial := Link.IdentSerial(ident);
    if serial.None? {
      CopyAt(w, IDENT_OFFSET, [0, 0, 0, 0]);
    }
  }

  method FillIdentity(w: array<byte>, t: Layers)
    requires |t.address| == 8 && w.Length >= RECORD_OFFSET
    modifies w
    ensures w[..] == old(w[..IDENT_OFFSET]) + Identity(t) + old(w[RECORD_OFFSET..])
  {
    hide WiredIdent;
    ghost var front, rest := w[..IDENT_OFFSET], w[11..];
    FillIdent(w, t.address[2..6]);
    ghost var ident := front + WiredIdent(t.address[2..6]);
    CopyAt(w, 11, t.address[0..2]);
    ghost var named := ident + t.address[0..2];
    assert w[..] == named + rest[2..];
    FillStatus(w, t);
    assert w[..] == named + VersionToSignature(t) + rest[8..];
  }

  method FillStatus(w: array<byte>, t: Layers)
    requires |t.address| == 8 && w.Length >= RECORD_OFFSET
    modifies w
    ensures w[..] == old(w[..13]) + VersionToSignature(t) + old(w[RECORD_OFFSET..])
  {
    w[13] := t.address[6];
    w[14] := t.address[7];
    w[15] := t.access;
    w[16] := t.status;
    w[17] := 0;
    w[18] := 0;
  }

  /** The frame without length and checksum. */
  method FillBody(t: Layers, payload: seq<byte>) returns (w: array<byte>)
    requires |t.address| == 8
    ensures fresh(w) && w[..] == [0x68, 0, 0, 0x68] + User(t, payload) + [0, 0x16]
  {
    hide Identity;
    w := new byte[RECORD_OFFSET + |payload| + TRAILER](_ => 0);
    w[0], w[3], w[4], w[5], w[6] := 0x68, 0x68, 0x08, 0x00, LongFrames.CI_VARIABLE;
    ghost var start := w[..];
    FillIdentity(w, t);
    CopyAt(w, RECORD_OFFSET, payload);
    Laid(start, Identity(t), payload);
    w[w.Length - 1] := 0x16;
  }

  lemma Laid(start: seq<byte>, identity: seq<byte>, payload: seq<byte>)
    requires |identity| == RECORD_OFFSET - IDENT_OFFSET && |start| == RECORD_OFFSET + |payload| + TRAILER
    requires start[..IDENT_OFFSET] == [0x68, 0, 0, 0x68, 0x08, 0x00, LongFrames.CI_VARIABLE]
    requires start[|start| - 2] == 0
    ensures var s := start[..IDENT_OFFSET] + identity + start[RECORD_OFFSET..];
      var u := s[..RECORD_OFFSET] + payload + s[RECORD_OFFSET + |payload|..];
      |u| == |start| && u[|u| - 1 := 0x16]
      == [0x68, 0, 0, 0x68] + ([0x08, 0x00, LongFrames.CI_VARIABLE] + identity + payload) + [0, 0x16]
  {
    var s := start[..IDENT_OFFSET] + identity + start[RECORD_OFFSET..];
    assert s[..RECORD_OFFSET] == start[..IDENT_OFFSET] + identity;
    assert s[RECORD_OFFSET + |payload|..] == [start[|start| - 2], start[|start| - 1]];
  }

  lemma Finished(body: seq<byte>, user: seq<byte>, length: byte, sum: byte)
    requires body == [0x68, 0, 0, 0x68] + user + [0, 0x16]
    ensures var w := body[1 := length][2 := length];
      && w[4..|w| - 2] == user
      && w[|w| - 2 := sum] == [0x68, length, length, 0x68] + user + [sum, 0x16]
  {
  }

  /** The synthetic wired frame, filled in place. */
  method FillWired(t: Layers, payload: seq<byte>) returns (w: array<byte>)
    requires |t.address| == 8
    ensures fresh(w) && w[..] == Wired(t, payload)
  {
    hide CheckSum, User;
    w := FillBody(t, payload);
    ghost var user := User(t, payload);
    Finished(w[..], user, (w.Length - 6) % 256, CheckSum(user));
    Frames.SetLength(w);
    assert w[4..w.Length - 2] == w[..][4..w.Length - 2] == user;
    Frames.SetChecksum(w);
  }

  /** Decodes through the wired frame, to what the record walk itself returns. */
  method DecodeApplication(t: Layers, payload: seq<byte>) returns (r: Result<LongFrames.DecodedFrame, Error>)
    requires |t.address| == 8
    ensures r == Application(t, payload)
  {
    hide LongFrames.DecodeFrame, Wired, Application;
    var w := FillWired(t, payload);
    var decoded := LongFrames.DecodeLongFrame(w[..]);
    WiredRefinesWalk(t, payload);
    if decoded.Err? {
      return Err(InvalidFrame);
    }
    return Ok(decoded.value);
  }

  method DecodeTelegram(c: Permutation, f: Link.Frame, key: seq<byte>) returns (r: Result<Telegram, Error>)
    requires IsCipher(c) && Link.WellFormed(f)
    ensures r == Decode(c, f, key)
  {
    hide IsCipher, Crypto.Decrypt, Application, Parse;
    ParseIsSound(f);
    var t :- ParseTransport(f);
    var payload :- Crypto.DecryptPayload(c, t, key);
    var decoded :- DecodeApplication(t, payload);
    return Ok(Telegram(decoded.manufacturer, decoded.serial, t.address[6], decoded.medium, t.ci, t.access, t.status,
                       t.mode, decoded.records));
  }

  /** The key is looked up under the link layer's number, also where a long header names another meter. */
  method DecodeWithKeyRing(c: Permutation, f: Link.Frame, keys: map<nat, seq<byte>>)
    returns (r: Result<Telegram, Error>)
    requires IsCipher(c) && Link.WellFormed(f)
    ensures r == Decode(c, f, KeyFor(keys, Magnitude(f.ident)))
    ensures KeyFor(keys, Magnitude(f.ident)) == [] ==>
      (r.Ok? <==> Parse(f).Ok? && !Crypto.IsEncrypted(Parse(f).value) && Walker.Decode(Parse(f).value.data).Ok?)
  {
    hide IsCipher, Decode, Magnitude, Parse, Walker.Decode, Crypto.IsEncrypted;
    WithoutKey(c, f);
    var key: seq<byte> := [];
    var serial := Link.IdentSerial(f.ident);
    if serial.Some? && serial.value in keys {
      key := keys[serial.value];
    }
    r := DecodeTelegram(c, f, key);
  }
}
