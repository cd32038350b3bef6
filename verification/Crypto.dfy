/** Decrypting the transport layer's data (wmbus/crypto.go). */
module Crypto {
  import opened Bytes
  import opened Cipher
  import opened Transport
  import Cmac

  const FILLER: byte := 0x2F

  // ---------------------------------------------------------------- specification

  /** Security mode 5: the address, then the access number eight times. */
  function ModeFiveIv(t: Layers): (iv: seq<byte>)
    requires |t.address| == 8
    ensures |iv| == BLOCK
  {
    t.address + seq(8, _ => t.access)
  }

  /** Security mode 7 key derivation input: constant 00h, message counter, identification number, 07h padding. */
  function DerivationInput(t: Layers): (s: seq<byte>)
    requires |t.address| == 8 && |t.counter| == 4
    ensures |s| == BLOCK
  {
    [0x00] + t.counter + t.address[2..6] + seq(7, _ => 0x07)
  }

  /** Field widths, and encrypted bytes that exist: what decryption can be asked about at all. */
  predicate Shaped(t: Layers) {
    |t.address| == 8 && |t.counter| == 4 && t.encrypted <= |t.data|
  }

  function MessageKey(c: Permutation, t: Layers, key: seq<byte>): Result<seq<byte>, Error>
    requires Shaped(t)
  {
    if t.mode == MODE_CBC_IV then Ok(key)
    else if t.mode != MODE_CBC_DERIVED then Err(UnsupportedMode)
    else if !t.hasCounter then Err(InvalidFrame)
    else Ok(Cmac.Mac(Cmac.Keyed(c, key), DerivationInput(t)))
  }

  function Iv(t: Layers): (iv: seq<byte>)
    requires Shaped(t)
    ensures |iv| == BLOCK
  {
    if t.mode == MODE_CBC_IV then ModeFiveIv(t) else Cmac.Zero()
  }

  predicate IsEncrypted(t: Layers) { t.mode != MODE_NONE && t.encrypted != 0 }

  function Decrypt(c: Permutation, t: Layers, key: seq<byte>): Result<seq<byte>, Error>
    requires Shaped(t)
  {
    if !IsEncrypted(t) then Ok(t.data)
    else if key == [] then Err(KeyRequired)
    else if |key| != BLOCK then Err(InvalidKey)
    else if t.encrypted % BLOCK != 0 then Err(InvalidFrame)
    else
      var blockKey :- MessageKey(c, t, key);
      var plain := CbcDecrypt(c, blockKey, Iv(t), t.data[..t.encrypted]);
      if |plain| < 2 || plain[0] != FILLER || plain[1] != FILLER then Err(DecryptFailed)
      else Ok(plain + t.data[t.encrypted..])
  }

  // ---------------------------------------------------------------- theorems

  lemma KeyedIsBlockMap(c: Permutation, key: seq<byte>)
    requires IsCipher(c) && |key| == BLOCK
    ensures Cmac.IsBlockMap(Cmac.Keyed(c, key))
  {
    forall b: seq<byte> | |b| == BLOCK ensures |Cmac.Keyed(c, key)(b)| == BLOCK {
      assert |c.encrypt(key, b)| == BLOCK;
    }
  }

  lemma MessageKeyIsBlock(c: Permutation, t: Layers, key: seq<byte>)
    requires IsCipher(c) && Shaped(t) && |key| == BLOCK
    ensures MessageKey(c, t, key).Ok? ==> |MessageKey(c, t, key).value| == BLOCK
  {
    hide IsCipher;
    KeyedIsBlockMap(c, key);
    Cmac.ChainFacts(Cmac.Keyed(c, key), DerivationInput(t));
  }

  /** On every transport layer the parser accepts, decryption meets no misalignment: with a usable key it can only
      fail for a missing message counter or a wrong marker. What it returns has the length of the data, and the
      plaintext tail is untouched. */
  lemma DecryptIsTotal(c: Permutation, t: Layers, key: seq<byte>)
    requires IsCipher(c) && Sound(t)
    ensures match Decrypt(c, t, key)
            case Ok(out) => |out| == |t.data| && out[t.encrypted..] == t.data[t.encrypted..]
                            && (IsEncrypted(t) ==> out[..2] == [FILLER, FILLER])
            case Err(e) => IsEncrypted(t)
                           && (e == KeyRequired <==> key == [])
                           && (e == InvalidKey <==> key != [] && |key| != BLOCK)
                           && (e == InvalidFrame <==> |key| == BLOCK && t.mode == MODE_CBC_DERIVED && !t.hasCounter)
                           && e in {KeyRequired, InvalidKey, InvalidFrame, DecryptFailed}
  {
    hide Cmac.Mac, CbcDecrypt, IsCipher, ModeFiveIv, DerivationInput;
    if |key| == BLOCK && IsEncrypted(t) && MessageKey(c, t, key).Ok? {
      MessageKeyIsBlock(c, t, key);
      CbcDecryptLength(c, MessageKey(c, t, key).value, Iv(t), t.data[..t.encrypted]);
    }
  }

  /** A payload that starts with two fillers, is a whole number of blocks and is encrypted the way the meter
      does it comes back, plaintext tail and all. */
  lemma DecryptRoundTrip(c: Permutation, t: Layers, key: seq<byte>, plain: seq<byte>, tail: seq<byte>)
    requires IsCipher(c) && Sound(t) && IsEncrypted(t) && |key| == BLOCK
    requires |plain| == t.encrypted && plain[..2] == [FILLER, FILLER]
    requires MessageKey(c, t, key).Ok? && t.data == CbcEncrypt(c, MessageKey(c, t, key).value, Iv(t), plain) + tail
    ensures Decrypt(c, t, key) == Ok(plain + tail)
  {
    hide Cmac.Mac, CbcDecrypt, CbcEncrypt, IsCipher, ModeFiveIv, DerivationInput;
    MessageKeyIsBlock(c, t, key);
    var k := MessageKey(c, t, key).value;
    CbcRoundTrip(c, k, Iv(t), plain);
    assert t.data[..t.encrypted] == CbcEncrypt(c, k, Iv(t), plain) && t.data[t.encrypted..] == tail;
    assert plain[0] == plain[..2][0] && plain[1] == plain[..2][1];
  }

  // ---------------------------------------------------------------- the source's own steps

  method BuildModeFiveIv(t: Layers) returns (iv: array<byte>)
    requires |t.address| == 8
    ensures fresh(iv) && iv[..] == ModeFiveIv(t)
  {
    iv := new byte[BLOCK](_ => 0);
    Cmac.CopyPrefix(iv, t.address);
    for i := 8 to BLOCK
      invariant iv[..8] == t.address && forall k :: 8 <= k < i ==> iv[k] == t.access
    {
      iv[i] := t.access;
    }
  }

  method DeriveKey(c: Permutation, masterKey: seq<byte>, t: Layers) returns (r: Result<seq<byte>, Error>)
    requires IsCipher(c) && Shaped(t) && |masterKey| == BLOCK && t.mode == MODE_CBC_DERIVED
    ensures r == MessageKey(c, t, masterKey)
  {
    hide IsCipher, Cmac.Mac;
    if !t.hasCounter {
      return Err(InvalidFrame);
    }
    var input := [0x00] + t.counter + t.address[2..6];
    while |input| < BLOCK
      invariant 9 <= |input| <= BLOCK && input == [0x00] + t.counter + t.address[2..6] + seq(|input| - 9, _ => 0x07)
    {
      input := input + [0x07];
    }
    var mac := Cmac.CmacAes(c, masterKey, input);
    return Ok(mac.value);
  }

  method DecryptPayload(c: Permutation, t: Layers, key: seq<byte>) returns (r: Result<seq<byte>, Error>)
    requires IsCipher(c) && Shaped(t)
    ensures r == Decrypt(c, t, key)
  {
    hide IsCipher, Cmac.Mac, CbcDecrypt, ModeFiveIv, DerivationInput;
    if t.mode == MODE_NONE || t.encrypted == 0 {
      return Ok(t.data);
    }
    if |key| == 0 {
      return Err(KeyRequired);
    }
    if |key| != BLOCK {
      return Err(InvalidKey);
    }
    if t.encrypted % BLOCK != 0 {
      return Err(InvalidFrame);
    }
    var blockKey, iv := key, Cmac.Zero();
    if t.mode == MODE_CBC_IV {
      var built := BuildModeFiveIv(t);
      iv := built[..];
    } else if t.mode == MODE_CBC_DERIVED {
      blockKey :- DeriveKey(c, key, t);
    } else {
      return Err(UnsupportedMode);
    }
    var plain := CbcDecrypt(c, blockKey, iv, t.data[..t.encrypted]);
    if |plain| < 2 || plain[0] != FILLER || plain[1] != FILLER {
      return Err(DecryptFailed);
    }
    var out: seq<byte> := [];
    out := out + plain;
    out := out + t.data[t.encrypted..];
    assert out == plain + t.data[t.encrypted..];
    return Ok(out);
  }
}
