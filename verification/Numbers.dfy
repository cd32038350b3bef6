/** The BCD and binary integer fields of encoding.go. */
module Numbers {
  import opened Bytes

  const MAX_UINT64: nat := 0xFFFF_FFFF_FFFF_FFFF
  const MAX_INT64: nat := 0x7FFF_FFFF_FFFF_FFFF
  const MAX_LE_BYTES: nat := 8
  const BCD_SIGN_NIBBLE := 15

  // ---------------------------------------------------------------- BCD, as a specification

  predicate IsBcd(b: seq<byte>) {
    forall i :: 0 <= i < |b| ==> b[i] / 16 <= 9 && b[i] % 16 <= 9
  }

  /** Exact decimal value of a little-endian BCD field, two digits a byte. */
  function Decimal(b: seq<byte>): nat {
    if b == [] then 0 else b[0] / 16 * 10 + b[0] % 16 + 100 * Decimal(b[1..])
  }

  function Magnitude(b: seq<byte>): Option<nat> {
    if b != [] && IsBcd(b) && Decimal(b) <= MAX_UINT64 then Some(Decimal(b)) else None
  }

  /** The field with its most significant nibble cleared. */
  function WithoutSign(b: seq<byte>): (r: seq<byte>)
    requires b != []
    ensures |r| == |b|
  {
    b[..|b| - 1] + [b[|b| - 1] % 16]
  }

  predicate HasSignNibble(b: seq<byte>) {
    b != [] && b[|b| - 1] / 16 == BCD_SIGN_NIBBLE
  }

  function Signed(b: seq<byte>): Option<int> {
    if b == [] then None
    else
      var digits := if HasSignNibble(b) then WithoutSign(b) else b;
      match Magnitude(digits)
      case None => None
      case Some(v) =>
        if v > MAX_INT64 then None
        else if HasSignNibble(b) then Some(0 - v) else Some(v)
  }

  /** Two decimal digits packed into a byte. */
  function Pair(d: nat): (b: byte)
    requires d < 100
    ensures b / 16 == d / 10 && b % 16 == d % 10
  {
    d / 10 * 16 + d % 10
  }

  /** The size-byte BCD field holding v modulo 100^size. */
  function ToBcd(v: nat, size: nat): (b: seq<byte>)
    ensures |b| == size
  {
    if size == 0 then [] else [Pair(v % 100)] + ToBcd(v / 100, size - 1)
  }

  lemma {:induction false} DecimalBound(b: seq<byte>)
    requires IsBcd(b)
    ensures Decimal(b) < Pow(100, |b|)
  {
    if b != [] { DecimalBound(b[1..]); }
  }

  lemma {:induction false} DecimalSuffix(b: seq<byte>, j: nat)
    requires j <= |b|
    ensures Decimal(b[j..]) <= Decimal(b)
  {
    if j > 0 {
      assert b[1..][j - 1..] == b[j..];
      DecimalSuffix(b[1..], j - 1);
    } else {
      assert b[0..] == b;
    }
  }

  /** Encoding then decoding: every value that fits comes back, from a field of valid digits. */
  lemma {:induction false} DecimalOfBcd(v: nat, size: nat)
    requires v < Pow(100, size)
    ensures IsBcd(ToBcd(v, size)) && Decimal(ToBcd(v, size)) == v
  {
    if size > 0 {
      DecimalOfBcd(v / 100, size - 1);
      var b := ToBcd(v, size);
      assert b[1..] == ToBcd(v / 100, size - 1);
      assert b[0] == Pair(v % 100);
    }
  }

  lemma DivMod(q: nat, r: nat, d: nat)
    requires d in {10, 100} && r < d
    ensures (q * d + r) / d == q && (q * d + r) % d == r
  {
    if d == 10 {
    } else {
    }
  }

  /** Decoding then encoding: a valid field is the only field of its width with its value. */
  lemma {:induction false} BcdOfDecimal(b: seq<byte>)
    requires IsBcd(b)
    ensures ToBcd(Decimal(b), |b|) == b
  {
    if b != [] {
      BcdOfDecimal(b[1..]);
      DivMod(Decimal(b[1..]), b[0] / 16 * 10 + b[0] % 16, 100);
      DivMod(b[0] / 16, b[0] % 16, 10);
      assert b == [b[0]] + b[1..];
    }
  }

  /** Identification numbers always fit. */
  lemma FourBytesFit(b: seq<byte>)
    requires |b| == 4 && IsBcd(b)
    ensures Decimal(b) < 100_000_000
  {
    DecimalBound(b);
    PowAdd(100, 2, 2);
    assert Pow(100, 2) == 10_000;
  }

  // ---------------------------------------------------------------- BCD, as the loops of the source

  /** None when the value needs more digits than the field holds: it is never truncated. */
  method UintToBcd(value: nat, size: int) returns (r: Option<seq<byte>>)
    requires value <= MAX_UINT64
    ensures r == if size > 0 && value < Pow(100, size) then Some(ToBcd(value, size)) else None
  {
    if size <= 0 {
      return None;
    }
    hide ToBcd, Pow, Rest, Pair;
    assert Rest(value, size) == Rest(value, size - 0);
    var buf: seq<byte> := [];
    var remainder := value;
    assert buf + ToBcd(value, size) == ToBcd(value, size);
    for i := 0 to size
      invariant Rest(value, size) == Rest(remainder, size - i)
      invariant ToBcd(value, size) == buf + ToBcd(remainder, size - i)
    {
      var tail := remainder % 100;
      StepOfLoop(remainder, size - i);
      buf, remainder := buf + [Pair(tail)], remainder / 100;
    }
    RestIsZero(value, size);
    NothingLeft(remainder);
    assert buf + [] == buf;
    if remainder != 0 {
      return None;
    }
    return Some(buf);
  }

  lemma StepOfLoop(v: nat, n: nat)
    requires n > 0
    ensures ToBcd(v, n) == [Pair(v % 100)] + ToBcd(v / 100, n - 1) && Rest(v, n) == Rest(v / 100, n - 1)
  {
  }

  lemma NothingLeft(v: nat)
    ensures ToBcd(v, 0) == [] && Rest(v, 0) == v
  {
  }

  /** What is left of v after n pairs of digits have been split off. */
  ghost function Rest(v: nat, n: nat): nat {
    if n == 0 then v else Rest(v / 100, n - 1)
  }

  lemma {:induction false} RestIsZero(v: nat, n: nat)
    ensures Rest(v, n) == 0 <==> v < Pow(100, n)
  {
    if n > 0 { RestIsZero(v / 100, n - 1); }
  }

  lemma GuardIsExact(value: nat, digit: nat)
    requires digit <= 99
    ensures value > (MAX_UINT64 - digit) / 100 <==> value * 100 + digit > MAX_UINT64
  {
  }

  lemma EmptyField(b: seq<byte>)
    requires b == []
    ensures IsBcd(b) && Decimal(b) == 0
  {
  }

  /** One byte further towards the low end of a field. */
  lemma NextByte(f: seq<byte>, j: nat)
    requires j < |f|
    ensures Decimal(f[j..]) == f[j] / 16 * 10 + f[j] % 16 + 100 * Decimal(f[j + 1..])
    ensures IsBcd(f[j..]) <==> IsBcd(f[j + 1..]) && f[j] / 16 <= 9 && f[j] % 16 <= 9
    ensures IsBcd(f) ==> IsBcd(f[j..])
    ensures Decimal(f[j..]) <= Decimal(f)
  {
    assert f[j..][1..] == f[j + 1..] && f[j..][0] == f[j];
    DecimalSuffix(f, j);
    BcdConcat([f[j]], f[j + 1..]);
    BcdConcat(f[..j], f[j..]);
    assert f[j..] == [f[j]] + f[j + 1..] && f == f[..j] + f[j..];
  }

  lemma BcdConcat(a: seq<byte>, b: seq<byte>)
    ensures IsBcd(a + b) <==> IsBcd(a) && IsBcd(b)
  {
    var s := a + b;
    if IsBcd(s) {
      forall i | 0 <= i < |b| ensures b[i] / 16 <= 9 && b[i] % 16 <= 9 { assert s[|a| + i] == b[i]; }
      forall i | 0 <= i < |a| ensures a[i] / 16 <= 9 && a[i] % 16 <= 9 { assert s[i] == a[i]; }
    }
  }

  /** The decoder loop: it meets the overflow guard exactly when the exact value exceeds 64 bits. */
  method BcdDigits(b: seq<byte>, skipSignNibble: bool) returns (r: Option<nat>)
    ensures b == [] ==> r == None
    ensures b != [] ==> r == Magnitude(if skipSignNibble then WithoutSign(b) else b)
  {
    var size := |b|;
    if size == 0 {
      return None;
    }
    hide IsBcd, Decimal;
    ghost var f := if skipSignNibble then WithoutSign(b) else b;
    assert IsBcd(f[size..]) && Decimal(f[size..]) == 0 by { EmptyField(f[size..]); }
    var value := 0;
    for k := 0 to size
      invariant IsBcd(f[size - k..])
      invariant value == Decimal(f[size - k..]) <= MAX_UINT64
    {
      var octet := b[size - 1 - k];
      var hi, lo := octet / 16, octet % 16;
      if k == 0 && skipSignNibble {
        hi := 0;
      }
      ghost var j := size - 1 - k;
      assert f[j] / 16 == hi && f[j] % 16 == lo;
      NextByte(f, j);
      if hi > 9 || lo > 9 {
        return None;
      }
      var digit := hi * 10 + lo;
      GuardIsExact(value, digit);
      if value > (MAX_UINT64 - digit) / 100 {
        return None;
      }
      value := value * 100 + digit;
    }
    assert f[0..] == f;
    return Some(value);
  }

  method BcdMagnitude(b: seq<byte>) returns (r: Option<nat>)
    ensures r == Magnitude(b)
  {
    r := BcdDigits(b, false);
  }

  /** Negative exactly when the top nibble is Fh and everything below it is valid BCD. */
  method BcdSigned(b: seq<byte>) returns (r: Option<int>)
    ensures r == Signed(b)
  {
    if |b| == 0 {
      return None;
    }
    var negative := b[|b| - 1] / 16 == BCD_SIGN_NIBBLE;
    var value := BcdDigits(b, negative);
    if value == None {
      return None;
    }
    if value.value > MAX_INT64 {
      return None;
    }
    if negative {
      var v: int := value.value;
      return Some(-v);
    }
    return Some(value.value);
  }

  /** Every encodable value round-trips, and every field Magnitude accepts is the encoding of its value. */
  lemma MagnitudeInverse(v: nat, b: seq<byte>)
    requires b != [] && v <= MAX_UINT64
    ensures Magnitude(b) == Some(v) <==> v < Pow(100, |b|) && b == ToBcd(v, |b|)
  {
    if v < Pow(100, |b|) { DecimalOfBcd(v, |b|); }
    if IsBcd(b) {
      DecimalBound(b);
      BcdOfDecimal(b);
    }
  }

  /** Signed BCD: the sign nibble costs one digit, and zero has no negative encoding of its own value. */
  function ToSignedBcd(v: int, size: nat): (b: seq<byte>)
    requires size > 0
    ensures |b| == size
  {
    if v >= 0 then ToBcd(v, size)
    else
      var m := ToBcd(-v, size);
      m[..size - 1] + [0xF0 + m[size - 1] % 16]
  }

  /** A negative value has room for one digit less, because the sign takes the top nibble. */
  predicate FitsSignedBcd(v: int, size: nat) {
    size > 0 && -(MAX_INT64 as int) <= v <= MAX_INT64
    && (if v >= 0 then v < Pow(100, size) else -v < 10 * Pow(100, size - 1))
  }

  lemma {:induction false} TopNibble(v: nat, size: nat)
    requires size > 0 && v < 10 * Pow(100, size - 1)
    ensures ToBcd(v, size)[size - 1] < 10
  {
    if size > 1 {
      assert v / 100 < 10 * Pow(100, size - 2);
      TopNibble(v / 100, size - 1);
    }
  }

  lemma SignedRoundTrip(v: int, size: nat)
    requires FitsSignedBcd(v, size)
    ensures Signed(ToSignedBcd(v, size)) == Some(v)
  {
    if v >= 0 {
      DecimalOfBcd(v, size);
      assert ToBcd(v, size)[size - 1] / 16 <= 9;
    } else {
      NegativeField(-v, size);
    }
  }

  lemma NegativeField(m: int, size: nat)
    requires size > 0 && 0 < m < 10 * Pow(100, size - 1)
    ensures var b := ToSignedBcd(-m, size);
      HasSignNibble(b) && IsBcd(WithoutSign(b)) && Decimal(WithoutSign(b)) == m
  {
    var b, digits := ToSignedBcd(-m, size), ToBcd(m, size);
    assert b == digits[..size - 1] + [0xF0 + digits[size - 1] % 16];
    assert m < Pow(100, size);
    DecimalOfBcd(m, size);
    TopNibble(m, size);
    assert WithoutSign(b) == digits;
  }

  // ---------------------------------------------------------------- binary integers

  /** At most eight bytes count; the rest are ignored. */
  function Clip(b: seq<byte>): seq<byte> {
    if |b| > MAX_LE_BYTES then b[..MAX_LE_BYTES] else b
  }

  /** Two's complement reading of a field at its own width (EN 13757-3 data type B). */
  function TwosComplement(b: seq<byte>): int {
    var v := LeValue(b);
    if b != [] && b[|b| - 1] >= 128 then v - Pow(256, |b|) else v
  }

  method UintLE(b: seq<byte>) returns (v: nat)
    ensures v == LeValue(Clip(b))
  {
    hide BitOr, Pow, Clip;
    var c := Clip(b);
    v := 0;
    for i := 0 to |c|
      invariant v == LeValue(c[..i])
    {
      LeBound(c[..i]);
      Pow256(i);
      BitOrDisjoint(v, c[i], 8 * i);
      LeValueAppend(c[..i], c[i]);
      assert c[..i + 1] == c[..i] + [c[i]];
      v := BitOr(v, c[i] * Pow(2, 8 * i));
    }
    assert c[..|c|] == c;
  }

  lemma {:induction false} Pow256(i: nat)
    ensures Pow(256, i) == Pow(2, 8 * i)
  {
    if i > 0 {
      Pow256(i - 1);
      PowAdd(2, 8, 8 * (i - 1));
      assert Pow(2, 8) == 256;
    }
  }

  /** The 64-bit register read as a signed integer. */
  function ToInt64(v: nat): int
    requires v <= MAX_UINT64
  {
    if v > MAX_INT64 then v - 0x1_0000_0000_0000_0000 else v
  }

  /** Shifting up to the register's sign bit and back down sign-extends from the field's own top bit. */
  method IntLE(b: seq<byte>) returns (r: int)
    ensures r == TwosComplement(Clip(b))
  {
    var c := Clip(b);
    var v := UintLE(c);
    LeBound(c);
    SignBit(c);
    PowTable();
    if |c| == 0 || |c| == MAX_LE_BYTES {
      return ToInt64(v);
    }
    var shift := 64 - 8 * |c|;
    ShiftBack(v, |c|);
    r := ToInt64(v * Pow(2, shift) % 0x1_0000_0000_0000_0000) / Pow(2, shift);
  }

  lemma PowTable()
    ensures Pow(256, 0) == 1 && Pow(256, 1) == 0x100 && Pow(256, 2) == 0x1_0000 && Pow(256, 3) == 0x100_0000
    ensures Pow(256, 4) == 0x1_0000_0000 && Pow(256, 5) == 0x100_0000_0000 && Pow(256, 6) == 0x1_0000_0000_0000
    ensures Pow(256, 7) == 0x100_0000_0000_0000 && Pow(256, 8) == 0x1_0000_0000_0000_0000
  {
    assert Pow(256, 4) == 256 * Pow(256, 3);
    assert Pow(256, 6) == 256 * Pow(256, 5) == 0x1_0000_0000_0000;
  }

  lemma ShiftBack(v: nat, n: nat)
    requires 1 <= n <= 7 && v < Pow(256, n)
    ensures v * Pow(2, 64 - 8 * n) <= MAX_UINT64
    ensures ToInt64(v * Pow(2, 64 - 8 * n)) / Pow(2, 64 - 8 * n)
            == if 2 * v >= Pow(256, n) then v - Pow(256, n) else v
  {
    var m := 8 - n;
    assert 64 - 8 * n == 8 * m;
    Pow256(m);
    PowTable();
    PowAdd(256, n, m);
    ShiftBackBy(v, Pow(256, n), Pow(256, m));
  }

  lemma ShiftBackBy(v: nat, p: nat, q: nat)
    requires v < p && q > 0 && p * q == 0x1_0000_0000_0000_0000
    ensures v * q <= MAX_UINT64
    ensures ToInt64(v * q) / q == if 2 * v >= p then v - p else v
  {
    HalfRange(v, p, q, v * q, p * q);
    if 2 * v >= p {
      Distribute(v, p, q);
      ExactQuotient(v - p, q);
    } else {
      ExactQuotient(v, q);
    }
  }

  lemma Distribute(v: int, p: int, q: int)
    ensures v * q - p * q == (v - p) * q
  {
  }

  lemma HalfRange(v: nat, p: nat, q: nat, vq: nat, pq: nat)
    requires v < p && q > 0 && vq == v * q && pq == p * q
    ensures vq < pq
    ensures 2 * v >= p <==> 2 * vq >= pq
  {
    Distribute(p, v, q);
    assert (p - v) * q > 0;
    var d := 2 * v - p;
    assert d * q == 2 * vq - pq;
    assert d >= 0 ==> d * q >= 0;
    assert d < 0 ==> d * q < 0;
  }

  lemma ExactQuotient(x: int, q: int)
    requires q > 0
    ensures x * q / q == x
  {
    var e := x * q / q - x;
    assert x * q == q * (x * q / q) + x * q % q;
    assert q * e == 0 - x * q % q;
    assert e >= 1 ==> q * e >= q;
    assert e <= -1 ==> q * e <= 0 - q;
  }

  /** The top byte's high bit is the sign bit of the field. */
  lemma {:induction false} SignBit(b: seq<byte>)
    ensures b != [] ==> (b[|b| - 1] >= 128 <==> 2 * LeValue(b) >= Pow(256, |b|))
  {
    if |b| == 1 {
      assert b[1..] == [];
    } else if |b| > 1 {
      SignBit(b[1..]);
      var p := Pow(256, |b| - 1);
      Even(|b| - 1);
      LeBound(b[1..]);
    }
  }

  lemma Even(n: nat)
    requires n > 0
    ensures Pow(256, n) % 256 == 0
  {
    assert Pow(256, n) == 256 * Pow(256, n - 1);
  }

  predicate FitsTwosComplement(v: int, n: nat) {
    n > 0 && -(Pow(256, n) as int) <= 2 * v < Pow(256, n)
  }

  function ToTwosComplement(v: int, n: nat): (b: seq<byte>)
    requires FitsTwosComplement(v, n)
    ensures |b| == n
  {
    LeBytes(if v < 0 then v + Pow(256, n) else v, n)
  }

  /** The signed encoding is exact at every width. */
  lemma TwosComplementRoundTrip(v: int, n: nat)
    requires FitsTwosComplement(v, n)
    ensures TwosComplement(ToTwosComplement(v, n)) == v
  {
    var u := if v < 0 then v + Pow(256, n) else v;
    LeValueOfBytes(u, n);
    SignBit(ToTwosComplement(v, n));
  }
}
