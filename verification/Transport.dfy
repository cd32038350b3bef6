/** The layers between the wireless link layer and the application data (wmbus/tpl.go). */
module Transport {
  import opened Bytes
  import Link

  const CI_LONG: byte := 0x72
  const CI_SHORT: byte := 0x7A
  const CI_NONE: byte := 0x78
  const CI_LINK_I: byte := 0x8C
  const CI_LINK_II: byte := 0x8D
  const CI_AUTH: byte := 0x90

  const MODE_NONE: nat := 0
  const MODE_CBC_IV: nat := 5
  const MODE_CBC_DERIVED: nat := 7
  const CIPHER_BLOCK: nat := 16

  datatype Error = InvalidFrame | UnsupportedCi | UnsupportedMode | KeyRequired | InvalidKey | DecryptFailed

  /** The parsed transport layer. The address is in wireless order: manufacturer, number, version, device. */
  datatype Layers = Layers(ci: byte, access: byte, status: byte, mode: nat, encrypted: nat, address: seq<byte>,
                           counter: seq<byte>, hasCounter: bool, data: seq<byte>)

  // ---------------------------------------------------------------- specification

  function Initial(frame: Link.Frame): Layers
    requires Link.WellFormed(frame)
  {
    Layers(0, 0, 0, 0, 0,
           [frame.manufacturer % 256, frame.manufacturer / 256] + frame.ident + [frame.version, frame.device],
           [0, 0, 0, 0], false, [])
  }

  predicate Bit(control: nat, mask: nat)
    requires mask > 0
  {
    control / mask % 2 == 1
  }

  /** Length of the optional fields before the message counter, when they fit. */
  function CounterOffset(control: nat): (n: nat)
    ensures n <= 3
  {
    (if Bit(control, 0x2000) then 1 else 0) + (if Bit(control, 0x0100) then 2 else 0)
  }

  function ReadAuth(t: Layers, rest: seq<byte>): Result<(Layers, seq<byte>), Error> {
    if |rest| < 2 then Err(InvalidFrame)
    else
      var length: nat := rest[1];
      if |rest| < 2 + length || length < 2 then Err(InvalidFrame)
      else
        var control := Le16(rest[2], rest[3]);
        var fields := rest[4..2 + length];
        var k := CounterOffset(control);
        if |fields| < k then Err(InvalidFrame)
        else if Bit(control, 0x1000) then
          if |fields| < k + 4 then Err(InvalidFrame)
          else Ok((t.(counter := fields[k..k + 4], hasCounter := true), rest[2 + length..]))
        else Ok((t, rest[2 + length..]))
  }

  /** The part every header but the empty one has: access number, status, configuration word. */
  function ReadShort(t: Layers, rest: seq<byte>): Result<Layers, Error> {
    if |rest| < 4 then Err(InvalidFrame)
    else
      var config := Le16(rest[2], rest[3]);
      var mode := config / 256 % 32;
      var encrypted := config / 16 % 16 * CIPHER_BLOCK;
      if mode != MODE_NONE && mode != MODE_CBC_IV && mode != MODE_CBC_DERIVED then Err(UnsupportedMode)
      else if mode == MODE_CBC_DERIVED && |rest| < 5 then Err(InvalidFrame)
      else
        var data := rest[if mode == MODE_CBC_DERIVED then 5 else 4..];
        if encrypted > |data| then Err(InvalidFrame)
        else Ok(t.(access := rest[0], status := rest[1], mode := mode, encrypted := encrypted, data := data))
  }

  function ReadHeader(t: Layers, ci: byte, rest: seq<byte>): Result<Layers, Error> {
    if ci == CI_NONE then Ok(t.(ci := ci, data := rest))
    else if ci == CI_LONG then
      if |rest| < 8 then Err(InvalidFrame)
      else ReadShort(t.(ci := ci, address := rest[4..6] + rest[0..4] + [rest[6], rest[7]]), rest[8..])
    else ReadShort(t.(ci := ci), rest)
  }

  function Walk(t: Layers, rest: seq<byte>): Result<Layers, Error>
    decreases |rest|
  {
    if rest == [] then Err(InvalidFrame)
    else if rest[0] == CI_LINK_I then
      if |rest| < 3 then Err(InvalidFrame) else Walk(t, rest[3..])
    else if rest[0] == CI_LINK_II then Err(UnsupportedMode)
    else if rest[0] == CI_AUTH then
      var next :- ReadAuth(t, rest);
      if |next.1| < |rest| then Walk(next.0, next.1) else Err(InvalidFrame)
    else if rest[0] in {CI_LONG, CI_SHORT, CI_NONE} then ReadHeader(t, rest[0], rest[1..])
    else Err(UnsupportedCi)
  }

  function Parse(frame: Link.Frame): Result<Layers, Error>
    requires Link.WellFormed(frame)
  {
    Walk(Initial(frame), frame.payload)
  }

  // ---------------------------------------------------------------- what a meter sends

  /** A layer to be stepped over: the extended link layer, or authentication and fragmentation with its
      optional fields. `extra` is whatever follows the counter (MAC, message length). */
  datatype Layer = LinkLayer(cc: byte, access: byte)
    | AuthLayer(control: nat, mcl: byte, keyInfo: seq<byte>, counter: seq<byte>, extra: seq<byte>)

  function AuthFields(l: Layer): seq<byte>
    requires l.AuthLayer? && l.control < 0x1_0000
  {
    [l.control % 256, l.control / 256]
    + (if Bit(l.control, 0x2000) then [l.mcl] else [])
    + (if Bit(l.control, 0x0100) then l.keyInfo else [])
    + (if Bit(l.control, 0x1000) then l.counter else [])
    + l.extra
  }

  predicate WellFormedLayer(l: Layer) {
    l.AuthLayer? ==> l.control < 0x1_0000 && |l.keyInfo| == 2 && |l.counter| == 4 && |AuthFields(l)| < 256
  }

  function EncodeLayer(l: Layer): (s: seq<byte>)
    requires WellFormedLayer(l)
    ensures |s| >= 3
  {
    match l
    case LinkLayer(cc, access) => [CI_LINK_I, cc, access]
    case AuthLayer(_, _, _, _, _) => [CI_AUTH, |AuthFields(l)|] + AuthFields(l)
  }

  /** Long headers name the meter; `other` holds the configuration bits outside mode and block count. */
  datatype Header = NoHeader
    | ShortHeader(access: byte, status: byte, mode: nat, blocks: nat, other: nat, extension: byte)
    | LongHeader(ident: seq<byte>, maker: seq<byte>, version: byte, device: byte,
                 access: byte, status: byte, mode: nat, blocks: nat, other: nat, extension: byte)

  predicate WellFormedHeader(h: Header, data: seq<byte>) {
    && (!h.NoHeader? ==> h.mode in {MODE_NONE, MODE_CBC_IV, MODE_CBC_DERIVED} && h.blocks < 16 && h.other < 128
                         && h.blocks * CIPHER_BLOCK <= |data|)
    && (h.LongHeader? ==> |h.ident| == 4 && |h.maker| == 2)
  }

  /** Three bits of `other` above the mode, four below the block count. */
  function Config(h: Header): (c: nat)
    requires !h.NoHeader? && h.mode < 32 && h.blocks < 16 && h.other < 128
    ensures c < 0x1_0000
  {
    h.other / 16 * 8192 + h.mode * 256 + h.blocks * 16 + h.other % 16
  }

  function EncodeShort(h: Header, data: seq<byte>): seq<byte>
    requires !h.NoHeader? && WellFormedHeader(h, data)
  {
    [h.access, h.status, Config(h) % 256, Config(h) / 256]
    + ((if h.mode == MODE_CBC_DERIVED then [h.extension] else []) + data)
  }

  function EncodeHeader(h: Header, data: seq<byte>): seq<byte>
    requires WellFormedHeader(h, data)
  {
    match h
    case NoHeader => [CI_NONE] + data
    case ShortHeader(_, _, _, _, _, _) => [CI_SHORT] + EncodeShort(h, data)
    case LongHeader(_, _, _, _, _, _, _, _, _, _) =>
      [CI_LONG] + (h.ident + h.maker + [h.version, h.device] + EncodeShort(h, data))
  }

  predicate WellFormedLayers(ls: seq<Layer>) {
    forall i :: 0 <= i < |ls| ==> WellFormedLayer(ls[i])
  }

  function Serialize(ls: seq<Layer>, h: Header, data: seq<byte>): seq<byte>
    requires WellFormedLayers(ls) && WellFormedHeader(h, data)
  {
    if ls == [] then EncodeHeader(h, data) else EncodeLayer(ls[0]) + Serialize(ls[1..], h, data)
  }

  /** A layer leaves its message counter behind, when it has one. */
  function AfterLayer(t: Layers, l: Layer): Layers {
    if l.AuthLayer? && Bit(l.control, 0x1000) then t.(counter := l.counter, hasCounter := true) else t
  }

  function AfterLayers(t: Layers, ls: seq<Layer>): Layers
    decreases |ls|
  {
    if ls == [] then t else AfterLayers(AfterLayer(t, ls[0]), ls[1..])
  }

  function AfterHeader(t: Layers, h: Header, data: seq<byte>): Layers {
    match h
    case NoHeader => t.(ci := CI_NONE, data := data)
    case ShortHeader(a, s, m, n, _, _) => t.(ci := CI_SHORT, access := a, status := s, mode := m,
        encrypted := n * CIPHER_BLOCK, data := data)
    case LongHeader(id, maker, v, d, a, s, m, n, _, _) =>
      t.(ci := CI_LONG, address := maker + id + [v, d], access := a, status := s, mode := m,
         encrypted := n * CIPHER_BLOCK, data := data)
  }

  // ---------------------------------------------------------------- theorems

  lemma ConfigParts(h: Header)
    requires !h.NoHeader? && h.mode < 32 && h.blocks < 16 && h.other < 128
    ensures Config(h) / 256 % 32 == h.mode && Config(h) / 16 % 16 == h.blocks
    ensures Le16(Config(h) % 256, Config(h) / 256) == Config(h)
  {
    ConfigWord(h.other / 16, h.mode, h.blocks, h.other % 16);
  }

  lemma ConfigWord(high: nat, mode: nat, blocks: nat, low: nat)
    requires high < 8 && mode < 32 && blocks < 16 && low < 16
    ensures var c := high * 8192 + mode * 256 + blocks * 16 + low;
      c / 256 == high * 32 + mode && c / 16 == high * 512 + mode * 16 + blocks
      && (high * 32 + mode) % 32 == mode && (high * 512 + mode * 16 + blocks) % 16 == blocks
  {
    var c := high * 8192 + mode * 256 + blocks * 16 + low;
    assert c == 256 * (high * 32 + mode) + (blocks * 16 + low);
    assert c == 16 * (high * 512 + mode * 16 + blocks) + low;
    assert high * 512 + mode * 16 + blocks == 16 * (high * 32 + mode) + blocks;
  }

  lemma ShortRoundTrip(t: Layers, h: Header, data: seq<byte>)
    requires !h.NoHeader? && WellFormedHeader(h, data)
    ensures ReadShort(t, EncodeShort(h, data))
            == Ok(t.(access := h.access, status := h.status, mode := h.mode, encrypted := h.blocks * CIPHER_BLOCK,
                data := data))
  {
    hide Config, Le16;
    ConfigParts(h);
    var s := EncodeShort(h, data);
    assert s[..4] == [h.access, h.status, Config(h) % 256, Config(h) / 256];
    assert s[if h.mode == MODE_CBC_DERIVED then 5 else 4..] == data;
  }

  lemma HeaderRoundTrip(t: Layers, h: Header, data: seq<byte>)
    requires WellFormedHeader(h, data)
    ensures Walk(t, EncodeHeader(h, data)) == Ok(AfterHeader(t, h, data))
  {
    hide ReadShort, EncodeShort;
    var s := EncodeHeader(h, data);
    match h
    case NoHeader => assert s[1..] == data;
    case ShortHeader(_, _, _, _, _, _) =>
      assert s[1..] == EncodeShort(h, data);
      ShortRoundTrip(t.(ci := CI_SHORT), h, data);
    case LongHeader(id, maker, v, d, _, _, _, _, _, _) =>
      var rest := s[1..];
      assert rest == id + maker + [v, d] + EncodeShort(h, data);
      assert rest[0..4] == id && rest[4..6] == maker && rest[6] == v && rest[7] == d
          && rest[8..] == EncodeShort(h, data);
      ShortRoundTrip(t.(ci := CI_LONG, address := maker + id + [v, d]), h, data);
  }

  lemma AuthRoundTrip(t: Layers, l: Layer, rest: seq<byte>)
    requires l.AuthLayer? && WellFormedLayer(l)
    ensures ReadAuth(t, EncodeLayer(l) + rest) == Ok((AfterLayer(t, l), rest))
  {
    hide Bit, AuthFields, Le16;
    var s := EncodeLayer(l) + rest;
    var f := AuthFields(l);
    FieldsInPlace(l);
    assert s == [CI_AUTH, |f|] + f + rest;
    assert s[2] == f[0] && s[3] == f[1] && s[4..2 + |f|] == f[2..] && s[2 + |f|..] == rest;
  }

  lemma FieldsInPlace(l: Layer)
    requires l.AuthLayer? && WellFormedLayer(l)
    ensures var f, k := AuthFields(l), CounterOffset(l.control);
      && |f| >= 2 + k && Le16(f[0], f[1]) == l.control
      && (Bit(l.control, 0x1000) ==> |f| >= k + 6 && f[2..][k..k + 4] == l.counter)
  {
    hide Bit;
    var p := if Bit(l.control, 0x2000) then [l.mcl] else [];
    var q := if Bit(l.control, 0x0100) then l.keyInfo else [];
    var r := if Bit(l.control, 0x1000) then l.counter else [];
    var optional := p + q;
    assert |optional| == CounterOffset(l.control);
    AfterTwo(l.control % 256, l.control / 256, p, q, r, l.extra);
  }

  lemma AfterTwo(lo: byte, hi: byte, p: seq<byte>, q: seq<byte>, r: seq<byte>, extra: seq<byte>)
    ensures var f := [lo, hi] + p + q + r + extra;
      f[0] == lo && f[1] == hi && |f| >= 2 + |p| + |q| + |r| && f[2..][|p| + |q|..|p| + |q| + |r|] == r
  {
    var f := [lo, hi] + p + q + r + extra;
    assert f[2..] == p + q + r + extra;
  }

  lemma LayerRoundTrip(t: Layers, l: Layer, rest: seq<byte>)
    requires WellFormedLayer(l)
    ensures Walk(t, EncodeLayer(l) + rest) == Walk(AfterLayer(t, l), rest)
  {
    hide ReadHeader, ReadAuth;
    var s := EncodeLayer(l) + rest;
    match l
    case LinkLayer(_, _) => assert s[3..] == rest;
    case AuthLayer(_, _, _, _, _) => AuthRoundTrip(t, l, rest);
  }

  /** Any stack of extended-link and authentication layers over any header parses back to the last message
      counter present, the header's fields, and the data. */
  lemma {:induction false} WalkRoundTrip(t: Layers, ls: seq<Layer>, h: Header, data: seq<byte>)
    requires WellFormedLayers(ls) && WellFormedHeader(h, data)
    ensures Walk(t, Serialize(ls, h, data)) == Ok(AfterHeader(AfterLayers(t, ls), h, data))
    decreases |ls|
  {
    hide Walk, EncodeHeader, EncodeLayer, AfterHeader, AfterLayer, WellFormedLayer, WellFormedHeader;
    if ls == [] {
      HeaderRoundTrip(t, h, data);
    } else {
      LayerRoundTrip(t, ls[0], Serialize(ls[1..], h, data));
      WalkRoundTrip(AfterLayer(t, ls[0]), ls[1..], h, data);
    }
  }

  /** A configuration word is its four parts. */
  lemma ConfigSplit(c: nat)
    requires c < 0x1_0000
    ensures c == c / 8192 * 8192 + c / 256 % 32 * 256 + c / 16 % 16 * 16 + c % 16 && c / 8192 < 8
  {
    var a := c / 16;
    var b := a / 16;
    assert c == 16 * a + c % 16 && a == 16 * b + a % 16 && b == 32 * (b / 32) + b % 32;
    assert 256 * b <= c < 256 * b + 256;
    assert c / 256 == b;
    assert 8192 * (b / 32) <= c < 8192 * (b / 32) + 8192;
    assert c / 8192 == b / 32;
  }

  lemma OtherBits(high: nat, low: nat)
    requires high < 8 && low < 16
    ensures (high * 16 + low) / 16 == high && (high * 16 + low) % 16 == low && high * 16 + low < 128
  {
  }

  lemma ConfigOf(h: Header, c: nat)
    requires c < 0x1_0000 && !h.NoHeader?
    requires h.mode == c / 256 % 32 && h.blocks == c / 16 % 16 && h.other == c / 8192 * 16 + c % 16
    ensures h.mode < 32 && h.blocks < 16 && h.other < 128 && Config(h) == c
  {
    ConfigSplit(c);
    OtherBits(c / 8192, c % 16);
  }

  /** A layer that is read is a layer that was written. */
  lemma AuthIsEncoded(t: Layers, rest: seq<byte>) returns (l: Layer)
    requires rest != [] && rest[0] == CI_AUTH && ReadAuth(t, rest).Ok?
    ensures WellFormedLayer(l) && rest == EncodeLayer(l) + ReadAuth(t, rest).value.1
  {
    hide Bit, Le16;
    var body := rest[2..2 + rest[1]];
    assert body[0] == rest[2] && body[1] == rest[3] && body[2..] == rest[4..2 + rest[1]];
    l := FieldsAreEncoded(body);
    assert rest == [CI_AUTH, |body|] + body + rest[2 + rest[1]..];
  }

  lemma FieldsAreEncoded(body: seq<byte>) returns (l: Layer)
    requires 2 <= |body| < 256
    requires var control := Le16(body[0], body[1]);
      |body| >= 2 + CounterOffset(control) + if Bit(control, 0x1000) then 4 else 0
    ensures WellFormedLayer(l) && l.AuthLayer? && AuthFields(l) == body
  {
    hide Bit;
    var control := Le16(body[0], body[1]);
    assert control % 256 == body[0] && control / 256 == body[1];
    hide Le16;
    var a := if Bit(control, 0x2000) then 1 else 0;
    var b := if Bit(control, 0x0100) then 2 else 0;
    var n := if Bit(control, 0x1000) then 4 else 0;
    var p, q, r, extra := Cut(body, a, b, n);
    l := AuthLayer(control, if a == 1 then p[0] else 0, if b == 2 then q else [0, 0],
        if n == 4 then r else [0, 0, 0, 0], extra);
  }

  lemma Cut(s: seq<byte>, a: nat, b: nat, n: nat) returns (p: seq<byte>, q: seq<byte>, r: seq<byte>, extra: seq<byte>)
    requires |s| >= 2 + a + b + n
    ensures |p| == a && |q| == b && |r| == n && s == [s[0], s[1]] + p + q + r + extra
  {
    p, q, r, extra := s[2..2 + a], s[2 + a..2 + a + b], s[2 + a + b..2 + a + b + n], s[2 + a + b + n..];
  }

  lemma ShortIsEncoded(t: Layers, rest: seq<byte>, ci: byte, ident: seq<byte>, maker: seq<byte>, version: byte,
    device: byte)
    returns (h: Header)
    requires ReadShort(t, rest).Ok? && |ident| == 4 && |maker| == 2 && ci in {CI_LONG, CI_SHORT}
    ensures if ci == CI_LONG then h.LongHeader? && h.ident == ident && h.maker == maker && h.version == version
        && h.device == device
            else h.ShortHeader?
    ensures WellFormedHeader(h, ReadShort(t, rest).value.data) && rest == EncodeShort(h, ReadShort(t, rest).value.data)
  {
    var config := Le16(rest[2], rest[3]);
    var mode, blocks, other := config / 256 % 32, config / 16 % 16, config / 8192 * 16 + config % 16;
    var extension := if mode == MODE_CBC_DERIVED then rest[4] else 0;
    h := if ci == CI_LONG
        then LongHeader(ident, maker, version, device, rest[0], rest[1], mode, blocks, other, extension)
         else ShortHeader(rest[0], rest[1], mode, blocks, other, extension);
    ConfigOf(h, config);
    assert config % 256 == rest[2] && config / 256 == rest[3];
    hide Config, Le16;
    assert rest == rest[..4] + rest[4..];
    if mode == MODE_CBC_DERIVED { assert rest[4..] == [rest[4]] + rest[5..]; }
  }

  lemma HeaderIsEncoded(t: Layers, s: seq<byte>) returns (h: Header)
    requires s != [] && s[0] in {CI_LONG, CI_SHORT, CI_NONE} && ReadHeader(t, s[0], s[1..]).Ok?
    ensures WellFormedHeader(h, ReadHeader(t, s[0], s[1..]).value.data)
    ensures s == EncodeHeader(h, ReadHeader(t, s[0], s[1..]).value.data)
  {
    hide ReadShort, EncodeShort;
    var rest := s[1..];
    assert s == [s[0]] + rest;
    if s[0] == CI_NONE {
      h := NoHeader;
    } else if s[0] == CI_LONG {
      var address := rest[4..6] + rest[0..4] + [rest[6], rest[7]];
      h := ShortIsEncoded(t.(ci := s[0], address := address), rest[8..], s[0], rest[0..4], rest[4..6], rest[6],
          rest[7]);
      assert rest == rest[0..4] + rest[4..6] + [rest[6], rest[7]] + rest[8..];
    } else {
      h := ShortIsEncoded(t.(ci := s[0]), rest, s[0], [0, 0, 0, 0], [0, 0], 0, 0);
    }
  }

  /** The converse of the round trip: whatever the walk accepts is a stack of layers over a header, so what it
      returns is determined by them as WalkRoundTrip says. */
  lemma {:induction false} AcceptedIsSerialized(t: Layers, rest: seq<byte>) returns (ls: seq<Layer>, h: Header)
    requires Walk(t, rest).Ok?
    ensures WellFormedLayers(ls) && WellFormedHeader(h, Walk(t, rest).value.data)
    ensures rest == Serialize(ls, h, Walk(t, rest).value.data)
    ensures Walk(t, rest).value == AfterHeader(AfterLayers(t, ls), h, Walk(t, rest).value.data)
    decreases |rest|
  {
    hide ReadHeader, ReadAuth, EncodeHeader, EncodeLayer, AfterHeader, AfterLayers, WellFormedHeader, WellFormedLayer;
    if rest[0] == CI_LINK_I || rest[0] == CI_AUTH {
      var l := LayerIsEncoded(t, rest);
      var next := rest[|EncodeLayer(l)|..];
      assert rest == EncodeLayer(l) + next;
      LayerRoundTrip(t, l, next);
      var ls', h' := AcceptedIsSerialized(AfterLayer(t, l), next);
      ls, h := [l] + ls', h';
      assert ls[1..] == ls';
    } else {
      ls := [];
      h := HeaderIsEncoded(t, rest);
    }
    WalkRoundTrip(t, ls, h, Walk(t, rest).value.data);
  }

  lemma LayerIsEncoded(t: Layers, rest: seq<byte>) returns (l: Layer)
    requires Walk(t, rest).Ok? && rest[0] in {CI_LINK_I, CI_AUTH}
    ensures WellFormedLayer(l) && EncodeLayer(l) <= rest
  {
    hide ReadHeader, ReadAuth, Serialize;
    if rest[0] == CI_LINK_I {
      l := LinkLayer(rest[1], rest[2]);
    } else {
      l := AuthIsEncoded(t, rest);
    }
  }

  /** What an accepted telegram's transport layer guarantees to the decryption that follows. */
  predicate Sound(t: Layers) {
    && t.mode in {MODE_NONE, MODE_CBC_IV, MODE_CBC_DERIVED}
    && t.encrypted % CIPHER_BLOCK == 0 && t.encrypted <= |t.data| && t.encrypted <= 240
    && |t.address| == 8 && |t.counter| == 4
  }

  lemma {:induction false} WalkIsSound(t: Layers, rest: seq<byte>)
    requires |t.address| == 8 && |t.counter| == 4 && t.mode == MODE_NONE && t.encrypted == 0
    ensures Walk(t, rest).Ok? ==> Sound(Walk(t, rest).value)
    decreases |rest|
  {
    hide Le16;
    if rest != [] {
      if rest[0] == CI_LINK_I && |rest| >= 3 {
        WalkIsSound(t, rest[3..]);
      } else if rest[0] == CI_AUTH && ReadAuth(t, rest).Ok? {
        AuthShrinks(t, rest);
        var next := ReadAuth(t, rest).value;
        WalkIsSound(next.0, next.1);
      }
    }
  }

  /** The length field advances the walk past the whole layer, whatever its fields hold. */
  lemma AuthShrinks(t: Layers, rest: seq<byte>)
    ensures ReadAuth(t, rest).Ok? ==>
      var next := ReadAuth(t, rest).value;
      |next.1| + 4 <= |rest| && next.1 == rest[|rest| - |next.1|..]
      && next.0 == t.(counter := next.0.counter, hasCounter := next.0.hasCounter)
         && (|t.counter| == 4 ==> |next.0.counter| == 4)
  {
    hide Le16, Bit;
  }

  lemma ParseIsSound(frame: Link.Frame)
    requires Link.WellFormed(frame)
    ensures Parse(frame).Ok? ==> Sound(Parse(frame).value)
  {
    WalkIsSound(Initial(frame), frame.payload);
  }

  // ---------------------------------------------------------------- the parser's own steps

  class Parser {
    var ci: byte
    var access: byte
    var status: byte
    var mode: nat
    var encrypted: nat
    var address: seq<byte>
    var counter: seq<byte>
    var hasCounter: bool
    var data: seq<byte>

    function State(): Layers
      reads this
    {
      Layers(ci, access, status, mode, encrypted, address, counter, hasCounter, data)
    }

    constructor (frame: Link.Frame)
      requires Link.WellFormed(frame)
      ensures State() == Initial(frame)
    {
      ci, access, status, mode, encrypted, data := 0, 0, 0, 0, 0, [];
      address := [frame.manufacturer % 256, frame.manufacturer / 256] + frame.ident + [frame.version, frame.device];
      counter, hasCounter := [0, 0, 0, 0], false;
    }

    method ParseAuthLayer(rest: seq<byte>) returns (r: Result<seq<byte>, Error>)
      modifies this
      ensures match ReadAuth(old(State()), rest)
              case Ok(next) => State() == next.0 && r == Ok(next.1)
              case Err(e) => r == Err(e)
    {
      hide Le16, Bit;
      if |rest| < 2 {
        return Err(InvalidFrame);
      }
      var length: nat := rest[1];
      var end := 2 + length;
      if |rest| < end {
        return Err(InvalidFrame);
      }
      var fields := rest[2..end];
      if |fields| < 2 {
        return Err(InvalidFrame);
      }
      var control := Le16(fields[0], fields[1]);
      fields := fields[2..];
      ghost var all := rest[4..end];
      assert fields == all;
      if Bit(control, 0x2000) {
        if |fields| < 1 {
          return Err(InvalidFrame);
        }
        fields := fields[1..];
      }
      if Bit(control, 0x0100) {
        if |fields| < 2 {
          return Err(InvalidFrame);
        }
        fields := fields[2..];
      }
      assert fields == all[CounterOffset(control)..];
      if Bit(control, 0x1000) {
        if |fields| < 4 {
          return Err(InvalidFrame);
        }
        counter := fields[0..4];
        hasCounter := true;
      }
      return Ok(rest[end..]);
    }

    method ParseHeader(headerCi: byte, start: seq<byte>) returns (e: Option<Error>)
      modifies this
      ensures match ReadHeader(old(State()), headerCi, start)
              case Ok(t) => State() == t && e == None
              case Err(error) => e == Some(error)
    {
      hide Le16;
      ci := headerCi;
      if ci == CI_NONE {
        data := start;
        return None;
      }
      var rest := start;
      if ci == CI_LONG {
        if |rest| < 8 {
          return Some(InvalidFrame);
        }
        address := rest[4..6] + rest[0..4] + [rest[6], rest[7]];
        rest := rest[8..];
      }
      if |rest| < 4 {
        return Some(InvalidFrame);
      }
      access := rest[0];
      status := rest[1];
      var config := Le16(rest[2], rest[3]);
      ghost var short := rest;
      rest := rest[4..];
      mode := config / 256 % 32;
      encrypted := config / 16 % 16 * CIPHER_BLOCK;
      if mode == MODE_CBC_DERIVED {
        if |rest| < 1 {
          return Some(InvalidFrame);
        }
        rest := rest[1..];
        assert rest == short[5..];
      } else if mode != MODE_NONE && mode != MODE_CBC_IV {
        return Some(UnsupportedMode);
      }
      if encrypted > |rest| {
        return Some(InvalidFrame);
      }
      data := rest;
      return None;
    }
  }

  /** The walk over the layers: each one strictly shortens what is left. */
  method ParseTransport(frame: Link.Frame) returns (r: Result<Layers, Error>)
    requires Link.WellFormed(frame)
    ensures r == Parse(frame)
  {
    hide ReadHeader, ReadAuth;
    var p := new Parser(frame);
    var rest := frame.payload;
    while true
      invariant fresh(p)
      invariant Walk(p.State(), rest) == Parse(frame)
      decreases |rest|
    {
      if |rest| < 1 {
        return Err(InvalidFrame);
      }
      if rest[0] == CI_LINK_I {
        if |rest| < 3 {
          return Err(InvalidFrame);
        }
        rest := rest[3..];
      } else if rest[0] == CI_LINK_II {
        return Err(UnsupportedMode);
      } else if rest[0] == CI_AUTH {
        AuthShrinks(p.State(), rest);
        rest :- p.ParseAuthLayer(rest);
      } else if rest[0] in {CI_LONG, CI_SHORT, CI_NONE} {
        var e := p.ParseHeader(rest[0], rest[1..]);
        if e.Some? {
          return Err(e.value);
        }
        return Ok(p.State());
      } else {
        return Err(UnsupportedCi);
      }
    }
  }
}
