/** Link-layer frames: the setters of frame.go, the request builders of commands.go, and parseLongFrame of read.go. */
module Frames {
  import opened Bytes

  const ACK: byte := 0xE5
  const FCB_MASK := 0x20
  const FCV_MASK := 0x10
  const MIN_FRAME_LENGTH := 3

  datatype FrameError = NeedMore | NoLongFrameFound | InvalidFrame | ChecksumMismatch

  // ---------------------------------------------------------------- parsing a long frame

  function ParseLongFrame(buf: seq<byte>): Result<(seq<byte>, nat), FrameError> {
    if |buf| < 4 then Err(NeedMore)
    else if buf[0] != 0x68 || buf[3] != 0x68 || buf[1] != buf[2] then Err(NoLongFrameFound)
    else if buf[1] < MIN_FRAME_LENGTH then Err(InvalidFrame)
    else
      var length: nat := buf[1];
      var total := length + 6;
      if |buf| < total then Err(NeedMore)
      else if buf[total - 1] != 0x16 then Err(InvalidFrame)
      else if buf[total - 2] != CheckSum(buf[4..total - 2]) then Err(ChecksumMismatch)
      else Ok((buf[..total], total))
  }

  /** The frame carrying the given user data (C, A, CI and what follows). */
  function BuildLongFrame(user: seq<byte>): seq<byte>
    requires MIN_FRAME_LENGTH <= |user| < 256
  {
    [0x68, |user|, |user|, 0x68] + user + [CheckSum(user), 0x16]
  }

  predicate IsLongFrame(f: seq<byte>) {
    MIN_FRAME_LENGTH + 6 <= |f| < 256 + 6 && f == BuildLongFrame(f[4..|f| - 2])
  }

  /** The parser accepts exactly the buffers that start with a well-formed frame, and consumes exactly it. */
  lemma ParseLongFrameExact(buf: seq<byte>, f: seq<byte>, n: nat)
    ensures ParseLongFrame(buf) == Ok((f, n)) <==> IsLongFrame(f) && f <= buf && n == |f|
  {
    if ParseLongFrame(buf) == Ok((f, n)) {
      assert f[4..n - 2] == buf[4..n - 2];
    }
    if IsLongFrame(f) && f <= buf {
      assert f[1] == |f| - 6 && f[3] == 0x68 && f[|f| - 1] == 0x16;
      assert buf[4..|f| - 2] == f[4..|f| - 2] && buf[..|f|] == f;
    }
  }

  lemma BuildIsLongFrame(user: seq<byte>)
    requires MIN_FRAME_LENGTH <= |user| < 256
    ensures IsLongFrame(BuildLongFrame(user))
  {
    var f := BuildLongFrame(user);
    assert f[4..|f| - 2] == user;
  }

  /** A verdict other than "need more" never changes when more bytes arrive. */
  lemma VerdictIsStable(buf: seq<byte>, more: seq<byte>)
    requires ParseLongFrame(buf) != Err(NeedMore)
    ensures ParseLongFrame(buf + more) == ParseLongFrame(buf)
  {
    var all := buf + more;
    if buf[0] == 0x68 && buf[3] == 0x68 && buf[1] == buf[2] && buf[1] >= MIN_FRAME_LENGTH {
      var length: nat := buf[1];
      var total := length + 6;
      assert all[4..total - 2] == buf[4..total - 2] && all[..total] == buf[..total];
    }
  }

  // ---------------------------------------------------------------- control field bits

  /** Bit FCB set, every other bit as it was. */
  function WithFcb(c: byte): (r: byte)
    ensures r / 32 % 2 == 1 && r % 32 == c % 32 && r / 64 == c / 64
  {
    if c / 32 % 2 == 1 then c else c + 32
  }

  /** Bit FCB clear, every other bit as it was. */
  function WithoutFcb(c: byte): (r: byte)
    ensures r / 32 % 2 == 0 && r % 32 == c % 32 && r / 64 == c / 64
  {
    if c / 32 % 2 == 1 then c - 32 else c
  }

  /** Bit FCV set, every other bit as it was. */
  function WithFcv(c: byte): (r: byte)
    ensures r / 16 % 2 == 1 && r % 16 == c % 16 && r / 32 == c / 32
  {
    if c / 16 % 2 == 1 then c else c + 16
  }

  /** Bit FCV clear, every other bit as it was. */
  function WithoutFcv(c: byte): (r: byte)
    ensures r / 16 % 2 == 0 && r % 16 == c % 16 && r / 32 == c / 32
  {
    if c / 16 % 2 == 1 then c - 16 else c
  }

  lemma {:induction false} OrBit(c: nat, k: nat)
    ensures BitOr(c, Pow(2, k)) == if c / Pow(2, k) % 2 == 1 then c else c + Pow(2, k)
  {
    if k == 0 {
      assert BitOr(c / 2, 0) == c / 2 by { BitOrRightZero(c / 2); }
    } else {
      OrBit(c / 2, k - 1);
      assert Pow(2, k) / 2 == Pow(2, k - 1) && Pow(2, k) % 2 == 0;
      HalfQuotient(c, Pow(2, k - 1));
    }
  }

  lemma {:induction false} BitOrRightZero(a: nat)
    ensures BitOr(a, 0) == a
  {
    if a != 0 { BitOrRightZero(a / 2); }
  }

  lemma HalfQuotient(c: nat, d: nat)
    requires d > 0
    ensures c / (2 * d) == c / 2 / d
  {
    var q := c / (2 * d);
    var r := c % (2 * d);
    assert c == 2 * (d * q) + r;
    assert c / 2 == d * q + r / 2;
    var q' := c / 2 / d;
    assert c / 2 == d * q' + c / 2 % d;
    var e := q' - q;
    assert d * e == r / 2 - c / 2 % d;
    assert e >= 1 ==> d * e >= d;
    assert e <= -1 ==> d * e <= -1 * d;
  }

  /** Both frame kinds keep their C field at a fixed index: 1 in a short frame, 4 in a long one. */
  method SetFcb(f: array<byte>, c: nat)
    requires c < f.Length
    modifies f
    ensures f[..] == old(f[..])[c := WithFcb(old(f[c]))]
  {
    assert Pow(2, 5) == FCB_MASK;
    OrBit(f[c], 5);
    f[c] := BitOr(f[c], FCB_MASK);
  }

  method SetFcv(f: array<byte>, c: nat)
    requires c < f.Length
    modifies f
    ensures f[..] == old(f[..])[c := WithFcv(old(f[c]))]
  {
    assert Pow(2, 4) == FCV_MASK;
    OrBit(f[c], 4);
    f[c] := BitOr(f[c], FCV_MASK);
  }

  method ClearFcb(f: array<byte>, c: nat)
    requires c < f.Length
    modifies f
    ensures f[..] == old(f[..])[c := WithoutFcb(old(f[c]))]
  {
    f[c] := f[c] - f[c] / 32 % 2 * 32;
  }

  method ClearFcv(f: array<byte>, c: nat)
    requires c < f.Length
    modifies f
    ensures f[..] == old(f[..])[c := WithoutFcv(old(f[c]))]
  {
    f[c] := f[c] - f[c] / 16 % 2 * 16;
  }

  predicate Fcb(c: byte) { c / FCB_MASK % 2 == 1 }

  // ---------------------------------------------------------------- in-place length and checksum

  /** The length is one byte, so it is the frame length less 6 modulo 256. */
  method SetLength(lf: array<byte>)
    requires lf.Length >= 6
    modifies lf
    ensures lf[..] == old(lf[..])[1 := (lf.Length - 6) % 256][2 := (lf.Length - 6) % 256]
  {
    var l := (lf.Length - 6) % 256;
    lf[1] := l;
    lf[2] := l;
  }

  method SetChecksum(lf: array<byte>)
    requires lf.Length >= 6
    modifies lf
    ensures lf[..] == old(lf[..])[lf.Length - 2 := CheckSum(old(lf[4..lf.Length - 2]))]
  {
    var sum := CalcCheckSum(lf[4..lf.Length - 2]);
    lf[lf.Length - 2] := sum;
  }

  /** Whatever the body holds, SetLength then SetChecksum finish a valid frame. */
  method Finish(lf: array<byte>)
    requires MIN_FRAME_LENGTH + 6 <= lf.Length < 256 + 6
    requires lf[0] == 0x68 && lf[3] == 0x68 && lf[lf.Length - 1] == 0x16
    modifies lf
    ensures lf[..] == BuildLongFrame(old(lf[4..lf.Length - 2])) && IsLongFrame(lf[..])
  {
    ghost var user := lf[4..lf.Length - 2];
    SetLength(lf);
    assert lf[4..lf.Length - 2] == user;
    SetChecksum(lf);
    BuildIsLongFrame(user);
  }

  // ---------------------------------------------------------------- short frames

  /** A short frame: start, C, A, checksum, stop. */
  function ShortFrame(c: byte, a: byte): seq<byte> {
    [0x10, c, a, CheckSum([c, a]), 0x16]
  }

  method SetShortChecksum(sf: array<byte>)
    requires sf.Length == 5
    modifies sf
    ensures sf[..] == old(sf[..])[3 := CheckSum(old(sf[1..3]))]
  {
    var sum := CalcCheckSum(sf[1..3]);
    sf[3] := sum;
  }

  method NewShortFrame(c: byte, a: byte) returns (sf: array<byte>)
    ensures fresh(sf) && sf[..] == ShortFrame(c, a)
  {
    sf := new byte[5] [0x10, 0x7B, 0x00, 0x00, 0x16];
    sf[1] := c;
    sf[2] := a;
    assert sf[1..3] == [c, a];
    SetShortChecksum(sf);
  }

  function SndNke(addr: byte): seq<byte> { ShortFrame(0x40, addr) }

  /** REQ_UD2 with the frame count bit clear or set. */
  function RequestUd2(addr: byte, fcb: bool): seq<byte> {
    ShortFrame(if fcb then 0x7B else 0x5B, addr)
  }

  const MIN_PRIMARY: byte := 1
  const MAX_PRIMARY: byte := 250
  const ADDR_SECONDARY: byte := 253
  const ADDR_BROADCAST_REPLY: byte := 254

  /** Where a frame may be sent: any address a slave may hold, plus 253 and 254; never 255. */
  predicate ValidDestination(addr: byte) {
    MIN_PRIMARY <= addr <= MAX_PRIMARY || addr == ADDR_SECONDARY || addr == ADDR_BROADCAST_REPLY
  }
}
