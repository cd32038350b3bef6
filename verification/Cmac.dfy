/** AES-CMAC over an arbitrary block permutation (wmbus/cmac.go), against the algorithm of RFC 4493. */
module Cmac {
  import opened Bytes
  import opened Cipher

  const RB: byte := 0x87

  // ---------------------------------------------------------------- RFC 4493, as a specification

  /** Big-endian value of a block. */
  function BeValue(b: seq<byte>): nat {
    if b == [] then 0 else b[0] * Pow(256, |b| - 1) + BeValue(b[1..])
  }

  function Carry(b: seq<byte>): nat { if b == [] then 0 else b[0] / 128 }

  /** The block shifted left by one bit. */
  function ShiftedLeft(b: seq<byte>): (r: seq<byte>)
    ensures |r| == |b|
  {
    if b == [] then [] else [b[0] * 2 % 256 + Carry(b[1..])] + ShiftedLeft(b[1..])
  }

  /** The doubling of section 2.3: shift, and add R_b when a bit falls out at the top. */
  function Double(b: seq<byte>): (r: seq<byte>)
    requires |b| == BLOCK
    ensures |r| == BLOCK
  {
    var s := ShiftedLeft(b);
    if b[0] < 128 then s else s[BLOCK - 1 := XorByte(s[BLOCK - 1], RB)]
  }

  function Zero(): (b: seq<byte>)
    ensures |b| == BLOCK
  {
    seq(BLOCK, _ => 0)
  }

  /** Number of blocks, at least one. */
  function BlockCount(msg: seq<byte>): (n: nat)
    ensures n >= 1 && BLOCK * (n - 1) <= |msg| <= BLOCK * n
  {
    if msg == [] then 1 else (|msg| + BLOCK - 1) / BLOCK
  }

  /** M_i of section 2.4, counting from zero; only the last may be short. */
  function BlockAt(msg: seq<byte>, i: nat): seq<byte>
    requires i < BlockCount(msg)
  {
    if BLOCK * (i + 1) <= |msg| then msg[BLOCK * i..BLOCK * (i + 1)] else msg[BLOCK * i..]
  }

  /** padding(x): a one bit, then zeros up to the block size. */
  function Padded(b: seq<byte>): (r: seq<byte>)
    requires |b| < BLOCK
    ensures |r| == BLOCK
  {
    b + [0x80] + seq(BLOCK - 1 - |b|, _ => 0)
  }

  function LastBlock(e: seq<byte> -> seq<byte>, msg: seq<byte>): (r: seq<byte>)
    requires |e(Zero())| == BLOCK
    ensures |r| == BLOCK
  {
    var k1 := Double(e(Zero()));
    var last := BlockAt(msg, BlockCount(msg) - 1);
    if |last| == BLOCK then XorBytes(last, k1) else XorBytes(Padded(last), Double(k1))
  }

  ghost predicate IsBlockMap(e: seq<byte> -> seq<byte>) {
    forall b :: |b| == BLOCK ==> |e(b)| == BLOCK
  }

  /** X after the first k blocks. */
  function Chain(e: seq<byte> -> seq<byte>, msg: seq<byte>, k: nat): seq<byte>
    requires k < BlockCount(msg)
  {
    if k == 0 then Zero()
    else
      var x := Chain(e, msg, k - 1);
      if |x| == BLOCK then e(XorBytes(x, BlockAt(msg, k - 1))) else x
  }

  function Mac(e: seq<byte> -> seq<byte>, msg: seq<byte>): seq<byte> {
    var x := Chain(e, msg, BlockCount(msg) - 1);
    if |x| == BLOCK == |e(Zero())| then e(XorBytes(x, LastBlock(e, msg))) else x
  }

  lemma {:induction false} ChainIsBlock(e: seq<byte> -> seq<byte>, msg: seq<byte>, k: nat)
    requires IsBlockMap(e) && k < BlockCount(msg)
    ensures |Chain(e, msg, k)| == BLOCK
  {
    if k > 0 { ChainIsBlock(e, msg, k - 1); }
  }

  // ---------------------------------------------------------------- shifting is doubling

  lemma {:induction false} BeBound(b: seq<byte>)
    ensures BeValue(b) < Pow(256, |b|)
  {
    if b != [] {
      BeBound(b[1..]);
      Scale(b[0], 255, Pow(256, |b| - 1));
    }
  }

  lemma Scale(a: nat, b: nat, n: nat)
    requires a <= b
    ensures a * n <= b * n
  {
  }

  /** The bit that falls out at the top has the weight of the whole block. */
  lemma {:induction false} ShiftDoubles(b: seq<byte>)
    ensures 2 * BeValue(b) == Carry(b) * Pow(256, |b|) + BeValue(ShiftedLeft(b))
  {
    if b != [] {
      ShiftDoubles(b[1..]);
      assert ShiftedLeft(b)[1..] == ShiftedLeft(b[1..]);
      Regroup(b[0], Carry(b[1..]), Pow(256, |b| - 1), BeValue(b[1..]), BeValue(ShiftedLeft(b[1..])));
    }
  }

  lemma Regroup(x: byte, c: nat, p: nat, rest: nat, shifted: nat)
    requires 2 * rest == c * p + shifted
    ensures 2 * (x * p + rest) == x / 128 * (256 * p) + ((x * 2 % 256 + c) * p + shifted)
  {
    assert x * 2 == x / 128 * 256 + x * 2 % 256;
    Spread(x / 128, x * 2 % 256, c, p);
    assert (x * 2) * p == x * p * 2;
  }

  lemma Spread(h: int, l: int, c: int, p: int)
    ensures (h * 256 + l) * p + c * p == h * (256 * p) + (l + c) * p
  {
  }

  /** Shifting a block is doubling its big-endian value modulo 2^128, and a bit is lost exactly when the value
      does not fit. */
  lemma ShiftIsDoubling(b: seq<byte>)
    requires |b| == BLOCK
    ensures BeValue(ShiftedLeft(b)) == 2 * BeValue(b) % Pow(256, BLOCK)
    ensures b[0] >= 128 <==> 2 * BeValue(b) >= Pow(256, BLOCK)
  {
    hide BeValue, ShiftedLeft, Pow;
    ShiftDoubles(b);
    BeBound(ShiftedLeft(b));
    Remainder(2 * BeValue(b), Pow(256, BLOCK), BeValue(ShiftedLeft(b)), Carry(b));
  }

  lemma Remainder(v: nat, p: nat, r: nat, c: nat)
    requires v == c * p + r && r < p && c <= 1
    ensures v % p == r && (c == 1 <==> v >= p)
  {
  }

  // ---------------------------------------------------------------- the loops

  lemma {:induction false} BitOrCommutes(a: nat, b: nat)
    ensures BitOr(a, b) == BitOr(b, a)
    decreases a + b
  {
    if a != 0 || b != 0 { BitOrCommutes(a / 2, b / 2); }
  }

  lemma OrCarry(x: nat, c: nat)
    requires x % 2 == 0 && c < 2
    ensures BitOr(x, c) == x + c
  {
    BitOrCommutes(x, c);
    assert Pow(2, 1) == 2;
    BitOrDisjoint(c, x / 2, 1);
  }

  lemma {:induction false} ShiftedAt(b: seq<byte>, i: nat)
    requires i < |b|
    ensures ShiftedLeft(b)[i] == b[i] * 2 % 256 + Carry(b[i + 1..])
  {
    if i > 0 {
      assert b[1..][i..] == b[i + 1..];
      ShiftedAt(b[1..], i - 1);
    }
  }

  method ShiftLeftOne(input: seq<byte>) returns (out: array<byte>)
    requires |input| == BLOCK
    ensures fresh(out) && out[..] == Double(input)
  {
    hide XorByte, ShiftedLeft;
    out := new byte[|input|](_ => 0);
    var overflow := input[0] / 128 % 2 == 1;
    for i := 0 to |input|
      invariant forall k :: 0 <= k < i ==> out[k] == ShiftedLeft(input)[k]
    {
      ShiftedAt(input, i);
      var x: nat := input[i];
      out[i] := x * 2 % 256;
      if i + 1 < |input| {
        OrCarry(out[i], input[i + 1] / 128);
        out[i] := BitOr(out[i], input[i + 1] / 128);
      }
    }
    assert out[..] == ShiftedLeft(input);
    if overflow {
      out[out.Length - 1] := XorByte(out[out.Length - 1], RB);
    }
  }

  method CmacSubkeys(e: seq<byte> -> seq<byte>) returns (k1: array<byte>, k2: array<byte>)
    requires IsBlockMap(e)
    ensures fresh(k1) && fresh(k2) && k1[..] == Double(e(Zero())) && k2[..] == Double(Double(e(Zero())))
  {
    var l := e(Zero());
    k1 := ShiftLeftOne(l);
    k2 := ShiftLeftOne(k1[..]);
  }

  lemma CountBlocks(msg: seq<byte>)
    ensures var n := BlockCount(msg);
      var last := BlockAt(msg, n - 1);
      if msg != [] && |msg| % BLOCK == 0 then
        n == |msg| / BLOCK && last == msg[|msg| - BLOCK..] && |msg| == BLOCK * n
      else
        n - 1 == |msg| / BLOCK && last == msg[|msg| - |msg| % BLOCK..] && |last| < BLOCK
            && |msg| - |msg| % BLOCK == BLOCK * (n - 1)
  {
  }

  /** The last block, masked with the subkey it calls for. */
  method MaskLast(e: seq<byte> -> seq<byte>, msg: seq<byte>) returns (last: array<byte>, headLen: nat)
    requires IsBlockMap(e)
    ensures fresh(last) && last[..] == LastBlock(e, msg)
    ensures headLen == BLOCK * (BlockCount(msg) - 1)
  {
    hide Double, XorBytes;
    var k1, k2 := CmacSubkeys(e);
    CountBlocks(msg);
    last := new byte[BLOCK](_ => 0);
    var complete := |msg| > 0 && |msg| % BLOCK == 0;
    if complete {
      headLen := |msg| - BLOCK;
      XorInto(last, msg[headLen..], k1[..]);
    } else {
      headLen := |msg| - |msg| % BLOCK;
      var padded := PadBlock(msg[headLen..]);
      XorInto(last, padded[..], k2[..]);
    }
  }

  method PadBlock(b: seq<byte>) returns (padded: array<byte>)
    requires |b| < BLOCK
    ensures fresh(padded) && padded[..] == Padded(b)
  {
    padded := new byte[BLOCK](_ => 0);
    CopyPrefix(padded, b);
    padded[|b|] := 0x80;
    assert padded[..|b|] == b;
  }

  /** Copies src over the head of dst and leaves the rest. */
  method CopyPrefix(dst: array<byte>, src: seq<byte>)
    requires |src| <= dst.Length
    modifies dst
    ensures dst[..] == src + old(dst[..])[|src|..]
  {
    for i := 0 to |src|
      invariant forall k :: 0 <= k < i ==> dst[k] == src[k]
      invariant forall k :: i <= k < dst.Length ==> dst[k] == old(dst[k])
    {
      dst[i] := src[i];
    }
  }

  lemma ChainFacts(e: seq<byte> -> seq<byte>, msg: seq<byte>)
    requires IsBlockMap(e)
    ensures Chain(e, msg, 0) == Zero()
    ensures var x := Chain(e, msg, BlockCount(msg) - 1);
      |x| == BLOCK && |e(Zero())| == BLOCK && Mac(e, msg) == e(XorBytes(x, LastBlock(e, msg)))
  {
    hide XorBytes, LastBlock;
    ChainIsBlock(e, msg, BlockCount(msg) - 1);
  }

  lemma ChainNext(e: seq<byte> -> seq<byte>, msg: seq<byte>, k: nat)
    requires IsBlockMap(e) && k + 1 < BlockCount(msg)
    ensures BLOCK * (k + 1) <= |msg| && |Chain(e, msg, k)| == BLOCK
    ensures Chain(e, msg, k + 1) == e(XorBytes(Chain(e, msg, k), msg[BLOCK * k..BLOCK * (k + 1)]))
  {
    hide XorBytes;
    ChainIsBlock(e, msg, k);
  }

  method ComputeMac(e: seq<byte> -> seq<byte>, msg: seq<byte>) returns (mac: array<byte>)
    requires IsBlockMap(e)
    ensures fresh(mac) && mac[..] == Mac(e, msg)
  {
    hide LastBlock, XorBytes, Double, Chain, BlockCount, BlockAt, Mac;
    var last, headLen := MaskLast(e, msg);
    ghost var n := BlockCount(msg);
    ChainFacts(e, msg);
    mac := new byte[BLOCK](_ => 0);
    var buf := new byte[BLOCK](_ => 0);
    assert mac[..] == Zero();
    var i := 0;
    ghost var k := 0;
    while i < headLen
      invariant 0 <= k <= n - 1 && i == BLOCK * k && headLen == BLOCK * (n - 1)
      invariant mac.Length == BLOCK && buf.Length == BLOCK && last.Length == BLOCK && mac != buf && last != mac
          && last != buf
      invariant mac[..] == Chain(e, msg, k) && last[..] == LastBlock(e, msg)
      decreases headLen - i
    {
      ChainNext(e, msg, k);
      XorInto(buf, mac[..], msg[i..i + BLOCK]);
      CopyPrefix(mac, e(buf[..]));
      i := i + BLOCK;
      k := k + 1;
    }
    XorInto(buf, mac[..], last[..]);
    CopyPrefix(mac, e(buf[..]));
  }

  /** The block map of a cipher under one key. */
  function Keyed(c: Permutation, key: seq<byte>): seq<byte> -> seq<byte> {
    b => c.encrypt(key, b)
  }

  /** cmacAES: for every key of one block and every message it is the CMAC of the permutation under that key. */
  method CmacAes(c: Permutation, key: seq<byte>, msg: seq<byte>) returns (r: Option<seq<byte>>)
    requires IsCipher(c)
    ensures r == if |key| == BLOCK then Some(Mac(Keyed(c, key), msg)) else None
  {
    if |key| != BLOCK {
      return None;
    }
    var mac := ComputeMac(Keyed(c, key), msg);
    return Some(mac[..]);
  }
}
