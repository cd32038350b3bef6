/** A 128-bit block cipher as an arbitrary keyed permutation, and cipher block chaining over it. */
module Cipher {
  import opened Bytes
  import Crc

  const BLOCK: nat := 16

  /** Exclusive or of two bytes, bit by bit. */
  function XorByte(a: byte, b: byte): (r: byte)
    ensures Crc.Bits(r) == Crc.Xor(Crc.Bits(a), Crc.Bits(b))
  {
    var bits := Crc.Xor(Crc.Bits(a), Crc.Bits(b));
    Crc.ByteValue(bits);
    Crc.Value(bits)
  }

  lemma XorByteTwice(a: byte, b: byte)
    ensures XorByte(XorByte(a, b), b) == a
  {
    hide Crc.Bits;
    var x, y := Crc.Bits(a), Crc.Bits(b);
    assert Crc.Xor(Crc.Xor(x, y), y) == x;
    var r := XorByte(XorByte(a, b), b);
    assert [r][1..] == [] && [a][1..] == [];
    assert Crc.BitsOf([r]) == x && Crc.BitsOf([a]) == x;
    Crc.BitsDetermineBytes([r], [a]);
    assert [r][0] == [a][0];
  }

  function XorBytes(a: seq<byte>, b: seq<byte>): (r: seq<byte>)
    requires |a| == |b|
    ensures |r| == |a| && forall i :: 0 <= i < |a| ==> r[i] == XorByte(a[i], b[i])
  {
    seq(|a|, i requires 0 <= i < |a| => XorByte(a[i], b[i]))
  }

  lemma XorBytesTwice(a: seq<byte>, b: seq<byte>)
    requires |a| == |b|
    ensures XorBytes(XorBytes(a, b), b) == a
  {
    hide XorByte;
    forall i | 0 <= i < |a| ensures XorByte(XorByte(a[i], b[i]), b[i]) == a[i] { XorByteTwice(a[i], b[i]); }
  }

  /** XORs two equally long byte strings into a buffer. */
  method XorInto(dst: array<byte>, x: seq<byte>, y: seq<byte>)
    requires dst.Length == |x| == |y|
    modifies dst
    ensures dst[..] == XorBytes(x, y)
  {
    hide XorByte;
    for i := 0 to dst.Length
      invariant forall k :: 0 <= k < i ==> dst[k] == XorByte(x[k], y[k])
    {
      dst[i] := XorByte(x[i], y[i]);
    }
  }

  datatype Permutation = Permutation(encrypt: (seq<byte>, seq<byte>) -> seq<byte>,
                                     decrypt: (seq<byte>, seq<byte>) -> seq<byte>)

  /** Under every 16-byte key, encrypt and decrypt are inverse maps on 16-byte blocks. */
  ghost predicate IsCipher(c: Permutation) {
    forall key: seq<byte>, b: seq<byte> {:trigger c.encrypt(key, b)} {:trigger c.decrypt(key, b)} ::
        |key| == BLOCK && |b| == BLOCK ==>
      && |c.encrypt(key, b)| == BLOCK && |c.decrypt(key, b)| == BLOCK
      && c.decrypt(key, c.encrypt(key, b)) == b
  }

  function CbcEncrypt(c: Permutation, key: seq<byte>, iv: seq<byte>, plain: seq<byte>): seq<byte>
    decreases |plain|
  {
    if |plain| < BLOCK || |iv| != BLOCK then []
    else
      var y := c.encrypt(key, XorBytes(plain[..BLOCK], iv));
      y + CbcEncrypt(c, key, y, plain[BLOCK..])
  }

  function CbcDecrypt(c: Permutation, key: seq<byte>, iv: seq<byte>, data: seq<byte>): seq<byte>
    decreases |data|
  {
    if |data| < BLOCK || |iv| != BLOCK || |c.decrypt(key, data[..BLOCK])| != BLOCK then []
    else XorBytes(c.decrypt(key, data[..BLOCK]), iv) + CbcDecrypt(c, key, data[..BLOCK], data[BLOCK..])
  }

  lemma {:induction false} CbcDecryptLength(c: Permutation, key: seq<byte>, iv: seq<byte>, data: seq<byte>)
    requires IsCipher(c) && |key| == BLOCK && |iv| == BLOCK && |data| % BLOCK == 0
    ensures |CbcDecrypt(c, key, iv, data)| == |data|
    decreases |data|
  {
    if |data| >= BLOCK { CbcDecryptLength(c, key, data[..BLOCK], data[BLOCK..]); }
  }

  /** Chaining is undone block by block. */
  lemma {:induction false} CbcRoundTrip(c: Permutation, key: seq<byte>, iv: seq<byte>, plain: seq<byte>)
    requires IsCipher(c) && |key| == BLOCK && |iv| == BLOCK && |plain| % BLOCK == 0
    ensures |CbcEncrypt(c, key, iv, plain)| == |plain|
    ensures CbcDecrypt(c, key, iv, CbcEncrypt(c, key, iv, plain)) == plain
    decreases |plain|
  {
    hide XorBytes;
    if |plain| >= BLOCK {
      var p := plain[..BLOCK];
      var y := c.encrypt(key, XorBytes(p, iv));
      CbcRoundTrip(c, key, y, plain[BLOCK..]);
      XorBytesTwice(p, iv);
      var data := CbcEncrypt(c, key, iv, plain);
      assert data[..BLOCK] == y && data[BLOCK..] == CbcEncrypt(c, key, y, plain[BLOCK..]);
      assert plain == p + plain[BLOCK..];
    }
  }
}
