/** Wireless link-layer frames (wmbus/link.go): formats A and B, each against the encoding it inverts. */
module Link {
  import opened Bytes
  import opened Numbers
  import Crc

  datatype Format = FormatA | FormatB | FormatStripped

  datatype Frame = Frame(format: Format, c: byte, manufacturer: nat, ident: seq<byte>, version: byte, device: byte,
                         payload: seq<byte>)

  datatype LinkError = InvalidFrame | CrcMismatch

  const HEADER: nat := 10
  const BLOCK: nat := 16
  const FIRST_CRC_END: nat := 128

  function NewFrame(format: Format, raw: seq<byte>, payload: seq<byte>): (f: Frame)
    requires |raw| >= HEADER
    ensures f.format == format && f.payload == payload && WellFormed(f)
  {
    Frame(format, raw[1], Le16(raw[2], raw[3]), raw[4..8], raw[8], raw[9], payload)
  }

  // ---------------------------------------------------------------- what a sender transmits

  predicate WellFormed(f: Frame) {
    |f.ident| == 4 && f.manufacturer < 0x1_0000
  }

  function Header(f: Frame, l: byte): (h: seq<byte>)
    requires WellFormed(f)
    ensures |h| == HEADER
  {
    [l, f.c, f.manufacturer % 256, f.manufacturer / 256] + f.ident + [f.version, f.device]
  }

  function Checked(block: seq<byte>): (s: seq<byte>)
    ensures |s| == |block| + 2
  {
    block + Crc.CrcBytes(block)
  }

  /** Data in blocks of sixteen bytes, the last one shorter, each followed by its CRC. */
  function Blocks(data: seq<byte>): seq<byte> {
    if data == [] then []
    else if |data| <= BLOCK then Checked(data)
    else Checked(data[..BLOCK]) + Blocks(data[BLOCK..])
  }

  /** Format A: the length counts neither itself nor any CRC byte. */
  function EncodeA(f: Frame): seq<byte>
    requires WellFormed(f) && |f.payload| <= 246
  {
    Checked(Header(f, 9 + |f.payload|)) + Blocks(f.payload)
  }

  /** Format B: the length counts the CRCs; one of them covers up to 126 bytes, a second one the rest. */
  function EncodeB(f: Frame): (s: seq<byte>)
    requires WellFormed(f) && |f.payload| <= 242
    ensures |s| == |f.payload| + if |f.payload| <= 116 then 12 else 14
  {
    if |f.payload| <= 116 then Checked(Header(f, 11 + |f.payload|) + f.payload)
    else Checked(Header(f, 13 + |f.payload|) + f.payload[..116]) + Checked(f.payload[116..])
  }

  // ---------------------------------------------------------------- parsing, as a specification

  /** The data block at the head of s, n bytes long and followed by its CRC. */
  function TakeBlock(s: seq<byte>, n: nat): Result<seq<byte>, LinkError> {
    if |s| < n + 2 then Err(InvalidFrame)
    else if !Crc.CheckCrc(s[..n], s[n..n + 2]) then Err(CrcMismatch)
    else Ok(s[..n])
  }

  function StripBlocks(s: seq<byte>, remaining: nat): Result<seq<byte>, LinkError> {
    if remaining == 0 then Ok([])
    else
      var n := if remaining < BLOCK then remaining else BLOCK;
      var block :- TakeBlock(s, n);
      Prepend(block, StripBlocks(s[n + 2..], remaining - n))
  }

  function ParseA(raw: seq<byte>): Result<Frame, LinkError> {
    if |raw| < HEADER + 2 || raw[0] < 9 then Err(InvalidFrame)
    else
      var header :- TakeBlock(raw, HEADER);
      var payload :- StripBlocks(raw[HEADER + 2..], raw[0] - 9);
      Ok(NewFrame(FormatA, raw, payload))
  }

  function ParseB(raw: seq<byte>): Result<Frame, LinkError> {
    if |raw| < HEADER + 2 then Err(InvalidFrame)
    else
      var l: nat := raw[0];
      var total := l + 1;
      if total < HEADER + 2 || |raw| < total then Err(InvalidFrame)
      else if total <= FIRST_CRC_END then
        var block :- TakeBlock(raw, total - 2);
        Ok(NewFrame(FormatB, raw, block[HEADER..]))
      else if total < FIRST_CRC_END + 3 then Err(InvalidFrame)
      else
        var first :- TakeBlock(raw, FIRST_CRC_END - 2);
        var second :- TakeBlock(raw[FIRST_CRC_END..], total - 2 - FIRST_CRC_END);
        Ok(NewFrame(FormatB, raw, first[HEADER..] + second))
  }

  function ParseStripped(raw: seq<byte>): Result<Frame, LinkError> {
    if |raw| < HEADER then Err(InvalidFrame)
    else
      var l: nat := raw[0];
      if l + 1 < HEADER || |raw| < l + 1 then Err(InvalidFrame)
      else Ok(NewFrame(FormatStripped, raw, raw[HEADER..l + 1]))
  }

  // ---------------------------------------------------------------- exact inverses

  lemma TakeBlockExact(s: seq<byte>, n: nat, block: seq<byte>)
    ensures TakeBlock(s, n) == Ok(block) <==> |block| == n && Checked(block) <= s
  {
    hide Crc.CheckCrc, Crc.CrcBytes;
    if |s| >= n + 2 {
      Crc.CheckExact(s[..n], s[n..n + 2]);
      assert s[..n + 2] == s[..n] + s[n..n + 2];
      if |block| == n && Checked(block) <= s {
        assert s[..n] == Checked(block)[..n] == block;
        assert s[n..n + 2] == Checked(block)[n..];
      }
    }
  }

  lemma {:induction false} StripBlocksExact(s: seq<byte>, n: nat, data: seq<byte>)
    ensures StripBlocks(s, n) == Ok(data) <==> |data| == n && Blocks(data) <= s
    decreases n
  {
    hide TakeBlock, Checked;
    if n > 0 {
      var k := if n < BLOCK then n else BLOCK;
      if StripBlocks(s, n) == Ok(data) {
        var block := TakeBlock(s, k).value;
        TakeBlockExact(s, k, block);
        var rest := StripBlocks(s[k + 2..], n - k).value;
        StripBlocksExact(s[k + 2..], n - k, rest);
        SplitBlocks(block, rest, n);
        PrefixConcat(s, Checked(block), Blocks(rest));
      }
      if |data| == n && Blocks(data) <= s {
        var block, rest := data[..k], data[k..];
        assert data == block + rest;
        SplitBlocks(block, rest, n);
        TakeBlockExact(s, k, block);
        assert Blocks(rest) <= s[k + 2..];
        StripBlocksExact(s[k + 2..], n - k, rest);
      }
    }
  }

  /** The first block of the data, however much follows it. */
  lemma SplitBlocks(block: seq<byte>, rest: seq<byte>, n: nat)
    requires n > 0 && |block| == (if n < BLOCK then n else BLOCK) && |block + rest| == n
    ensures Blocks(block + rest) == Checked(block) + Blocks(rest)
  {
    hide Checked;
    var data := block + rest;
    if rest == [] {
      assert data == block;
    } else {
      assert data[..BLOCK] == block && data[BLOCK..] == rest;
    }
  }

  lemma HeaderExact(raw: seq<byte>, f: Frame)
    requires |raw| >= HEADER && WellFormed(f)
    ensures NewFrame(f.format, raw, f.payload) == f <==> raw[..HEADER] == Header(f, raw[0])
  {
    if raw[..HEADER] == Header(f, raw[0]) {
      var h := raw[..HEADER];
      assert h[1] == f.c && h[2] == f.manufacturer % 256 && h[3] == f.manufacturer / 256 && h[8] == f.version
          && h[9] == f.device;
      assert raw[4..8] == h[4..8] == f.ident;
    }
    if NewFrame(f.format, raw, f.payload) == f {
      assert raw[..HEADER] == [raw[0], raw[1], raw[2], raw[3]] + raw[4..8] + [raw[8], raw[9]];
    }
  }

  /** Format A is an exact inverse: the parser accepts exactly the inputs that start with the encoding of the
      frame it returns, whatever follows. */
  lemma FormatAExact(raw: seq<byte>, f: Frame)
    ensures ParseA(raw) == Ok(f)
      <==> f.format == FormatA && WellFormed(f) && |f.payload| <= 246 && EncodeA(f) <= raw
  {
    hide TakeBlock, StripBlocks, Blocks, Checked, Header, NewFrame;
    if ParseA(raw) == Ok(f) {
      var h := TakeBlock(raw, HEADER).value;
      TakeBlockExact(raw, HEADER, h);
      FromChecked(raw, h);
      StripBlocksExact(raw[HEADER + 2..], raw[0] - 9, f.payload);
      HeaderExact(raw, f);
      assert h == Header(f, 9 + |f.payload|);
      PrefixConcat(raw, Checked(h), Blocks(f.payload));
    }
    if f.format == FormatA && WellFormed(f) && |f.payload| <= 246 && EncodeA(f) <= raw {
      var h := Header(f, 9 + |f.payload|);
      FirstByte(f, 9 + |f.payload|);
      FromChecked(raw, h);
      TakeBlockExact(raw, HEADER, h);
      assert Blocks(f.payload) <= raw[HEADER + 2..];
      StripBlocksExact(raw[HEADER + 2..], raw[0] - 9, f.payload);
      HeaderExact(raw, f);
    }
  }

  lemma FromChecked(raw: seq<byte>, block: seq<byte>)
    requires |block| > 0
    ensures Checked(block) <= raw ==> block == raw[..|block|] && block[0] == raw[0]
  {
    if Checked(block) <= raw {
      assert raw[..|block|] == Checked(block)[..|block|];
    }
  }

  lemma FirstByte(f: Frame, l: byte)
    requires WellFormed(f)
    ensures Header(f, l)[0] == l
  {
  }

  /** Format B is an exact inverse across the 128-byte boundary: one framing for each payload length of 0 to 242. */
  lemma FormatBExact(raw: seq<byte>, f: Frame)
    ensures ParseB(raw) == Ok(f)
      <==> f.format == FormatB && WellFormed(f) && |f.payload| <= 242 && EncodeB(f) <= raw
  {
    if ParseB(raw) == Ok(f) { FormatBSound(raw, f); }
    if f.format == FormatB && WellFormed(f) && |f.payload| <= 242 && EncodeB(f) <= raw { FormatBComplete(raw, f); }
  }

  lemma FormatBSound(raw: seq<byte>, f: Frame)
    requires ParseB(raw) == Ok(f)
    ensures f.format == FormatB && WellFormed(f) && |f.payload| <= 242 && EncodeB(f) <= raw
  {
    hide TakeBlock, Checked, Header, NewFrame;
    var l: nat := raw[0];
    var total := l + 1;
    HeaderExact(raw, f);
    if total <= FIRST_CRC_END {
      var block := TakeBlock(raw, total - 2).value;
      TakeBlockExact(raw, total - 2, block);
      FromChecked(raw, block);
      assert block == Header(f, l) + f.payload;
    } else {
      var first := TakeBlock(raw, 126).value;
      var second := TakeBlock(raw[FIRST_CRC_END..], total - 130).value;
      TakeBlockExact(raw, 126, first);
      TakeBlockExact(raw[FIRST_CRC_END..], total - 130, second);
      FromChecked(raw, first);
      assert f.payload[..116] == first[HEADER..] && f.payload[116..] == second;
      assert first == Header(f, l) + f.payload[..116];
      PrefixConcat(raw, Checked(first), Checked(second));
    }
  }

  lemma FormatBComplete(raw: seq<byte>, f: Frame)
    requires f.format == FormatB && WellFormed(f) && |f.payload| <= 242 && EncodeB(f) <= raw
    ensures ParseB(raw) == Ok(f)
  {
    hide TakeBlock, Checked, Header, NewFrame;
    HeaderExact(raw, f);
    if |f.payload| <= 116 {
      var l := 11 + |f.payload|;
      var block := Header(f, l) + f.payload;
      FirstByte(f, l);
      FromChecked(raw, block);
      TakeBlockExact(raw, |block|, block);
      assert raw[..HEADER] == Header(f, l) && block[HEADER..] == f.payload;
    } else {
      var l := 13 + |f.payload|;
      var first, second := Header(f, l) + f.payload[..116], f.payload[116..];
      FirstByte(f, l);
      FromChecked(raw, first);
      TakeBlockExact(raw, 126, first);
      assert Checked(second) <= raw[FIRST_CRC_END..];
      TakeBlockExact(raw[FIRST_CRC_END..], |second|, second);
      assert raw[..HEADER] == Header(f, l) && first[HEADER..] + second == f.payload;
    }
  }

  /** No telegram of 129 or 130 bytes exists in format B: a second block holds at least one data byte. */
  lemma NoEmptySecondBlock(raw: seq<byte>)
    requires raw != [] && raw[0] in {128, 129}
    ensures ParseB(raw) == Err(InvalidFrame)
  {
  }

  /** The format a receiver hands over after removing the CRCs: format A's length, the bare payload. */
  lemma StrippedExact(raw: seq<byte>, f: Frame)
    ensures ParseStripped(raw) == Ok(f)
      <==> && f.format == FormatStripped && WellFormed(f) && |f.payload| <= 246
           && Header(f, 9 + |f.payload|) + f.payload <= raw
  {
    hide Header, NewFrame;
    if ParseStripped(raw) == Ok(f) {
      HeaderExact(raw, f);
      assert f.payload == raw[HEADER..][..|f.payload|];
      PrefixConcat(raw, Header(f, 9 + |f.payload|), f.payload);
    }
    if f.format == FormatStripped && WellFormed(f) && |f.payload| <= 246
        && Header(f, 9 + |f.payload|) + f.payload <= raw {
      var s := Header(f, 9 + |f.payload|) + f.payload;
      FirstByte(f, 9 + |f.payload|);
      assert raw[..HEADER] == s[..HEADER] == Header(f, 9 + |f.payload|);
      assert raw[0] == s[0] == Header(f, 9 + |f.payload|)[0];
      assert raw[HEADER..|s|] == s[HEADER..] == f.payload;
      HeaderExact(raw, f);
    }
  }

  // ---------------------------------------------------------------- the source's own steps

  method ParseWithoutCrc(raw: seq<byte>) returns (r: Result<Frame, LinkError>)
    ensures r == ParseStripped(raw)
  {
    if |raw| < HEADER {
      return Err(InvalidFrame);
    }
    var l: nat := raw[0];
    var total := l + 1;
    if total < HEADER {
      return Err(InvalidFrame);
    }
    if |raw| < total {
      return Err(InvalidFrame);
    }
    return Ok(NewFrame(FormatStripped, raw, raw[HEADER..total]));
  }

  method StripFormatABlocks(raw: seq<byte>, payloadLen: nat) returns (r: Result<seq<byte>, LinkError>)
    requires |raw| >= HEADER + 2
    ensures r == StripBlocks(raw[HEADER + 2..], payloadLen)
  {
    hide Crc.CheckCrc;
    var payload: seq<byte> := [];
    var offset := HEADER + 2;
    var remaining := payloadLen;
    PrependNothing(StripBlocks(raw[offset..], remaining));
    while remaining > 0
      invariant 0 <= remaining && HEADER + 2 <= offset <= |raw|
      invariant StripBlocks(raw[HEADER + 2..], payloadLen) == Prepend(payload, StripBlocks(raw[offset..], remaining))
    {
      var n := if remaining < BLOCK then remaining else BLOCK;
      ghost var s := raw[offset..];
      if |raw| < offset + n + 2 {
        return Err(InvalidFrame);
      }
      assert s[..n] == raw[offset..offset + n] && s[n..n + 2] == raw[offset + n..offset + n + 2];
      var ok := Crc.Check(raw[offset..offset + n], raw[offset + n..offset + n + 2]);
      if !ok {
        return Err(CrcMismatch);
      }
      assert s[n + 2..] == raw[offset + n + 2..];
      PrependTwice(payload, s[..n], StripBlocks(s[n + 2..], remaining - n));
      payload := payload + raw[offset..offset + n];
      offset := offset + n + 2;
      remaining := remaining - n;
    }
    assert payload + [] == payload;
    return Ok(payload);
  }

  method ParseFormatA(raw: seq<byte>) returns (r: Result<Frame, LinkError>)
    ensures r == ParseA(raw)
  {
    hide Crc.CheckCrc;
    if |raw| < HEADER + 2 {
      return Err(InvalidFrame);
    }
    if raw[0] < 9 {
      return Err(InvalidFrame);
    }
    var ok := Crc.Check(raw[..HEADER], raw[HEADER..HEADER + 2]);
    if !ok {
      return Err(CrcMismatch);
    }
    var payload :- StripFormatABlocks(raw, raw[0] - 9);
    return Ok(NewFrame(FormatA, raw, payload));
  }

  method ParseFormatB(raw: seq<byte>) returns (r: Result<Frame, LinkError>)
    ensures r == ParseB(raw)
  {
    hide Crc.CheckCrc;
    if |raw| < HEADER + 2 {
      return Err(InvalidFrame);
    }
    var l: nat := raw[0];
    var total := l + 1;
    if total < HEADER + 2 || |raw| < total {
      return Err(InvalidFrame);
    }
    if total <= FIRST_CRC_END {
      var ok := Crc.Check(raw[..total - 2], raw[total - 2..total]);
      if !ok {
        return Err(CrcMismatch);
      }
      assert raw[..total - 2][HEADER..] == raw[HEADER..total - 2];
      return Ok(NewFrame(FormatB, raw, raw[HEADER..total - 2]));
    }
    if total < FIRST_CRC_END + 3 {
      return Err(InvalidFrame);
    }
    var first := Crc.Check(raw[..FIRST_CRC_END - 2], raw[FIRST_CRC_END - 2..FIRST_CRC_END]);
    if !first {
      return Err(CrcMismatch);
    }
    ghost var s := raw[FIRST_CRC_END..];
    ghost var n := total - 2 - FIRST_CRC_END;
    assert s[..n] == raw[FIRST_CRC_END..total - 2] && s[n..n + 2] == raw[total - 2..total];
    var second := Crc.Check(raw[FIRST_CRC_END..total - 2], raw[total - 2..total]);
    if !second {
      return Err(CrcMismatch);
    }
    assert raw[..FIRST_CRC_END - 2][HEADER..] == raw[HEADER..FIRST_CRC_END - 2];
    return Ok(NewFrame(FormatB, raw, raw[HEADER..FIRST_CRC_END - 2] + raw[FIRST_CRC_END..total - 2]));
  }

  /** The identification number as a serial; it reads the same fields to the same values as the wired decoder. */
  method IdentSerial(ident: seq<byte>) returns (r: Option<nat>)
    requires |ident| == 4
    ensures r == Magnitude(ident)
  {
    var serial: nat := 0;
    var i := |ident|;
    while i > 0
      invariant 0 <= i <= 4 && IsBcd(ident[i..]) && serial == Decimal(ident[i..])
    {
      var hi: nat, lo: nat := ident[i - 1] / 16, ident[i - 1] % 16;
      assert ident[i - 1..][1..] == ident[i..];
      if hi > 9 || lo > 9 {
        return None;
      }
      i := i - 1;
      serial := serial * 100 + hi * 10 + lo;
    }
    assert ident[0..] == ident;
    FourBytesFit(ident);
    return Some(serial);
  }
}
