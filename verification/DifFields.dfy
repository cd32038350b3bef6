/** The storage, tariff and device numbers spread over a DIF and its DIFE chain (field.go). */
module DifFields {
  import opened Bytes

  /** A DIFE carries four storage bits, two tariff bits and one device bit under its extension bit. */
  datatype Part = Storage | Tariff | Device {
    function Width(): nat {
      match this
      case Storage => 4
      case Tariff => 2
      case Device => 1
    }

    function Digit(d: byte): (r: nat)
      ensures r < Pow(2, Width())
    {
      assert Pow(2, 4) == 16 && Pow(2, 2) == 4 && Pow(2, 1) == 2;
      match this
      case Storage => d % 16
      case Tariff => d / 16 % 4
      case Device => d / 64 % 2
    }
  }

  /** Positional value of one part of a chain: the first DIFE is the least significant digit. */
  function Field(p: Part, dife: seq<byte>): nat {
    if dife == [] then 0 else p.Digit(dife[0]) + Pow(2, p.Width()) * Field(p, dife[1..])
  }

  function StorageBit(dif: byte): nat { dif / 64 % 2 }

  function StorageNumber(dif: byte, dife: seq<byte>): nat {
    StorageBit(dif) + 2 * Field(Storage, dife)
  }

  lemma {:induction false} FieldBound(p: Part, dife: seq<byte>)
    ensures Field(p, dife) < Pow(2, p.Width() * |dife|)
  {
    if dife != [] {
      FieldBound(p, dife[1..]);
      PowAdd(2, p.Width(), p.Width() * (|dife| - 1));
      assert p.Width() + p.Width() * (|dife| - 1) == p.Width() * |dife|;
      ScaledBound(p.Digit(dife[0]), Field(p, dife[1..]), Pow(2, p.Width()), Pow(2, p.Width() * (|dife| - 1)));
    }
  }

  lemma ScaledBound(lo: nat, hi: nat, b: nat, n: nat)
    requires lo < b && hi < n
    ensures lo + b * hi < b * n
  {
    assert b * hi <= b * (n - 1);
  }

  lemma {:induction false} FieldAppend(p: Part, dife: seq<byte>, d: byte)
    ensures Field(p, dife + [d]) == Field(p, dife) + p.Digit(d) * Pow(2, p.Width() * |dife|)
  {
    if dife == [] {
      assert dife + [d] == [d];
      assert [d][1..] == [];
    } else {
      assert (dife + [d])[1..] == dife[1..] + [d];
      FieldAppend(p, dife[1..], d);
      var w, n := p.Width(), |dife| - 1;
      PowAdd(2, w, w * n);
      assert w + w * n == w * |dife|;
      Regroup(p.Digit(dife[0]), Field(p, dife[1..]), p.Digit(d), Pow(2, w), Pow(2, w * n));
    }
  }

  lemma Regroup(a: int, f: int, x: int, b: int, n: int)
    ensures a + b * (f + x * n) == a + b * f + x * (b * n)
  {
  }

  /** Or-ing a DIFE's digits above `used` bits extends the number without touching what is already there. */
  lemma OrDigit(p: Part, low: nat, lowBits: nat, dife: seq<byte>, d: byte)
    requires low < Pow(2, lowBits)
    ensures var bits := lowBits + p.Width() * |dife|;
      var sofar := low + Pow(2, lowBits) * Field(p, dife);
      BitOr(sofar, p.Digit(d) * Pow(2, bits)) == low + Pow(2, lowBits) * Field(p, dife + [d])
  {
    hide BitOr, Pow, Field;
    var b, n := Pow(2, lowBits), Pow(2, p.Width() * |dife|);
    PowAdd(2, lowBits, p.Width() * |dife|);
    FieldBound(p, dife);
    ScaledBound(low, Field(p, dife), b, n);
    BitOrDisjoint(low + b * Field(p, dife), p.Digit(d), lowBits + p.Width() * |dife|);
    FieldAppend(p, dife, d);
    Regroup(low, Field(p, dife), p.Digit(d), b, n);
  }

  method DecodeStorageNumber(dif: byte, dife: seq<byte>) returns (result: nat)
    ensures result == StorageNumber(dif, dife)
  {
    result := dif / 64 % 2;
    var bitIndex := 1;
    for i := 0 to |dife|
      invariant bitIndex == 1 + 4 * i
      invariant result == StorageBit(dif) + Pow(2, 1) * Field(Storage, dife[..i])
    {
      OrDigit(Storage, StorageBit(dif), 1, dife[..i], dife[i]);
      assert dife[..i + 1] == dife[..i] + [dife[i]];
      result := BitOr(result, dife[i] % 16 * Pow(2, bitIndex));
      bitIndex := bitIndex + 4;
    }
    assert dife[..|dife|] == dife;
  }

  method DecodeTariff(dife: seq<byte>) returns (result: nat)
    ensures result == Field(Tariff, dife)
  {
    result := 0;
    var bitIndex := 0;
    for i := 0 to |dife|
      invariant bitIndex == 2 * i
      invariant result == Field(Tariff, dife[..i])
    {
      OrDigit(Tariff, 0, 0, dife[..i], dife[i]);
      assert dife[..i + 1] == dife[..i] + [dife[i]];
      result := BitOr(result, dife[i] / 16 % 4 * Pow(2, bitIndex));
      bitIndex := bitIndex + 2;
    }
    assert dife[..|dife|] == dife;
  }

  method DecodeDevice(dife: seq<byte>) returns (result: nat)
    ensures result == Field(Device, dife)
  {
    result := 0;
    var bitIndex := 0;
    for i := 0 to |dife|
      invariant bitIndex == i
      invariant result == Field(Device, dife[..i])
    {
      OrDigit(Device, 0, 0, dife[..i], dife[i]);
      assert dife[..i + 1] == dife[..i] + [dife[i]];
      result := BitOr(result, dife[i] / 64 % 2 * Pow(2, bitIndex));
      bitIndex := bitIndex + 1;
    }
    assert dife[..|dife|] == dife;
  }

  // ---------------------------------------------------------------- the inverse

  /** Every byte but the last has the extension bit, which is what readExtensions stops on. */
  predicate IsChain(c: seq<byte>) {
    c != [] && c[|c| - 1] < 128 && forall i :: 0 <= i < |c| - 1 ==> c[i] >= 128
  }

  /** The k-byte DIFE chain carrying a storage number (above its DIF bit), a tariff and a device. */
  function EncodeChain(storage: nat, tariff: nat, device: nat, k: nat): (c: seq<byte>)
    ensures |c| == k
  {
    if k == 0 then []
    else [storage % 16 + tariff % 4 * 16 + device % 2 * 64 + if k > 1 then 128 else 0]
         + EncodeChain(storage / 16, tariff / 4, device / 2, k - 1)
  }

  lemma {:induction false} EncodeChainIsChain(storage: nat, tariff: nat, device: nat, k: nat)
    requires k > 0
    ensures IsChain(EncodeChain(storage, tariff, device, k))
  {
    if k > 1 {
      EncodeChainIsChain(storage / 16, tariff / 4, device / 2, k - 1);
      var c := EncodeChain(storage, tariff, device, k);
      var t := EncodeChain(storage / 16, tariff / 4, device / 2, k - 1);
      assert c == [c[0]] + t;
      forall i | 0 <= i < k - 1 ensures c[i] >= 128 {
        if i > 0 { assert c[i] == t[i - 1]; }
      }
    }
  }

  predicate FitsChain(dif: byte, storage: nat, tariff: nat, device: nat, k: nat) {
    storage < 2 * Pow(16, k) && tariff < Pow(4, k) && device < Pow(2, k) && storage % 2 == StorageBit(dif)
  }

  lemma PackedDigits(s: nat, t: nat, d: nat, ext: nat)
    requires s < 16 && t < 4 && d < 2 && ext < 2
    ensures var c: byte := s + t * 16 + d * 64 + ext * 128;
      c % 16 == s && c / 16 % 4 == t && c / 64 % 2 == d
  {
  }

  lemma {:induction false} ChainHolds(storage: nat, tariff: nat, device: nat, k: nat)
    requires storage < Pow(16, k) && tariff < Pow(4, k) && device < Pow(2, k)
    ensures var c := EncodeChain(storage, tariff, device, k);
      Field(Storage, c) == storage && Field(Tariff, c) == tariff && Field(Device, c) == device
  {
    if k > 0 {
      ChainHolds(storage / 16, tariff / 4, device / 2, k - 1);
      PackedDigits(storage % 16, tariff % 4, device % 2, if k > 1 then 1 else 0);
      var c := EncodeChain(storage, tariff, device, k);
      assert c[1..] == EncodeChain(storage / 16, tariff / 4, device / 2, k - 1);
      assert Storage.Digit(c[0]) == storage % 16;
      assert Tariff.Digit(c[0]) == tariff % 4;
      assert Device.Digit(c[0]) == device % 2;
      FieldStep(Storage, c);
      FieldStep(Tariff, c);
      FieldStep(Device, c);
    }
  }

  lemma FieldStep(p: Part, c: seq<byte>)
    requires c != []
    ensures p == Storage ==> Field(p, c) == c[0] % 16 + 16 * Field(p, c[1..])
    ensures p == Tariff ==> Field(p, c) == c[0] / 16 % 4 + 4 * Field(p, c[1..])
    ensures p == Device ==> Field(p, c) == c[0] / 64 % 2 + 2 * Field(p, c[1..])
  {
    assert Pow(2, 4) == 16 && Pow(2, 2) == 4 && Pow(2, 1) == 2;
  }

  /** A chain's number determines its digits, position by position. */
  lemma {:induction false} FieldUnique(p: Part, a: seq<byte>, b: seq<byte>)
    requires |a| == |b|
    ensures Field(p, a) == Field(p, b) <==> forall i :: 0 <= i < |a| ==> p.Digit(a[i]) == p.Digit(b[i])
  {
    if a != [] {
      FieldUnique(p, a[1..], b[1..]);
      FieldStep(p, a);
      FieldStep(p, b);
      assert Field(p, a) == Field(p, b) <==> p.Digit(a[0]) == p.Digit(b[0]) && Field(p, a[1..]) == Field(p, b[1..]);
      assert forall i :: 1 <= i < |a| ==> a[i] == a[1..][i - 1] && b[i] == b[1..][i - 1];
      assert forall i :: 0 <= i < |a| - 1 ==> a[1..][i] == a[i + 1] && b[1..][i] == b[i + 1];
    }
  }

  lemma Decompose(x: byte)
    ensures x % 128 == x % 16 + 16 * (x / 16 % 4) + 64 * (x / 64 % 2)
  {
  }

  lemma SameDigits(x: byte, y: byte)
    ensures x % 128 == y % 128 <==> forall p: Part :: p.Digit(x) == p.Digit(y)
  {
    Decompose(x);
    Decompose(y);
    if forall p: Part :: p.Digit(x) == p.Digit(y) {
      assert Storage.Digit(x) == Storage.Digit(y);
      assert Tariff.Digit(x) == Tariff.Digit(y);
      assert Device.Digit(x) == Device.Digit(y);
    }
    if x % 128 == y % 128 {
      LowBits(x, y);
      forall p: Part ensures p.Digit(x) == p.Digit(y) {
        match p
        case Storage =>
        case Tariff =>
        case Device =>
      }
    }
  }

  lemma LowBits(x: byte, y: byte)
    requires x % 128 == y % 128
    ensures x % 16 == y % 16 && x / 16 % 4 == y / 16 % 4 && x / 64 % 2 == y / 64 % 2
  {
    BelowExtension(x);
    BelowExtension(y);
  }

  lemma BelowExtension(x: byte)
    ensures x % 16 == x % 128 % 16 && x / 16 % 4 == x % 128 / 16 % 4 && x / 64 % 2 == x % 128 / 64 % 2
  {
    var low: nat := if x < 128 then x else x - 128;
    assert x % 128 == low;
  }

  ghost predicate SameNumbers(a: seq<byte>, b: seq<byte>) {
    forall p: Part :: Field(p, a) == Field(p, b)
  }

  predicate SameBelowExtension(a: seq<byte>, b: seq<byte>)
    requires |a| == |b|
  {
    forall i :: 0 <= i < |a| ==> a[i] % 128 == b[i] % 128
  }

  /** Two chains of one length carry equal numbers iff they agree on every bit but the extension bits. */
  lemma ChainUnique(a: seq<byte>, b: seq<byte>)
    requires |a| == |b|
    ensures SameNumbers(a, b) <==> SameBelowExtension(a, b)
  {
    if SameNumbers(a, b) {
      forall i | 0 <= i < |a| ensures a[i] % 128 == b[i] % 128 {
        forall p: Part ensures p.Digit(a[i]) == p.Digit(b[i]) {
          FieldUnique(p, a, b);
        }
        SameDigits(a[i], b[i]);
      }
    }
    if SameBelowExtension(a, b) {
      forall p: Part ensures Field(p, a) == Field(p, b) {
        forall i | 0 <= i < |a| ensures p.Digit(a[i]) == p.Digit(b[i]) {
          SameDigits(a[i], b[i]);
        }
        FieldUnique(p, a, b);
      }
    }
  }

  /** With k DIFEs, every storage number of 1 + 4k bits, tariff of 2k bits and device of k bits has
      exactly one encoding up to the extension bits and the DIF bits that are not the storage bit. */
  lemma DifeBijection(dif: byte, storage: nat, tariff: nat, device: nat, k: nat, other: seq<byte>, otherDif: byte)
    requires FitsChain(dif, storage, tariff, device, k) && |other| == k
    ensures var c := EncodeChain(storage / 2, tariff, device, k);
      && StorageNumber(dif, c) == storage && Field(Tariff, c) == tariff && Field(Device, c) == device
      && (StorageNumber(otherDif, other) == storage && Field(Tariff, other) == tariff && Field(Device, other) == device
          <==> StorageBit(otherDif) == StorageBit(dif) && SameBelowExtension(other, c))
  {
    ChainHolds(storage / 2, tariff, device, k);
    var c := EncodeChain(storage / 2, tariff, device, k);
    ChainUnique(other, c);
    if Field(Storage, other) == Field(Storage, c) && Field(Tariff, other) == Field(Tariff, c)
       && Field(Device, other) == Field(Device, c) {
      forall p: Part ensures Field(p, other) == Field(p, c) {
        match p
        case Storage =>
        case Tariff =>
        case Device =>
      }
      assert SameNumbers(other, c);
    }
  }
}
