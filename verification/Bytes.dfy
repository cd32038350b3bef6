/** Bytes, small result types, and the arithmetic of bit operations that every codec here shares. */
module Bytes {
  type byte = b: int | 0 <= b < 256

  datatype Option<+T> = None | Some(value: T)

  datatype Result<+T, +E> = Ok(value: T) | Err(error: E) {
    predicate IsFailure() { Err? }

    function PropagateFailure<U>(): Result<U, E>
      requires Err?
    {
      Err(error)
    }

    function Extract(): T
      requires Ok?
    {
      value
    }
  }

  /** What is already there, in front of what the rest yields. */
  function Prepend<T, E>(front: seq<T>, r: Result<seq<T>, E>): Result<seq<T>, E> {
    match r
    case Ok(v) => Ok(front + v)
    case Err(e) => Err(e)
  }

  lemma PrependNothing<T, E>(r: Result<seq<T>, E>)
    ensures Prepend([], r) == r
  {
    if r.Ok? { assert [] + r.value == r.value; }
  }

  lemma PrependTwice<T, E>(a: seq<T>, b: seq<T>, r: Result<seq<T>, E>)
    ensures Prepend(a, Prepend(b, r)) == Prepend(a + b, r)
  {
    if r.Ok? { assert a + (b + r.value) == a + b + r.value; }
  }

  /** The same where the rest also yields a final state. */
  function PrependFirst<T, E, S>(front: seq<T>, o: (Result<seq<T>, E>, S)): (Result<seq<T>, E>, S) {
    (Prepend(front, o.0), o.1)
  }

  function Pow(base: nat, e: nat): (r: nat)
    ensures base > 0 ==> r > 0
  {
    if e == 0 then 1 else base * Pow(base, e - 1)
  }

  /** Bitwise or of two unsigned integers. */
  function BitOr(a: nat, b: nat): nat
    decreases a + b
  {
    if a == 0 && b == 0 then 0
    else (if a % 2 == 1 || b % 2 == 1 then 1 else 0) + 2 * BitOr(a / 2, b / 2)
  }

  lemma {:induction false} BitOrZero(b: nat)
    ensures BitOr(0, b) == b
  {
    if b != 0 { BitOrZero(b / 2); }
  }

  /** Or-ing in a value shifted past every set bit is addition: no field overlaps the ones before it. */
  lemma {:induction false} BitOrDisjoint(a: nat, c: nat, k: nat)
    requires a < Pow(2, k)
    ensures BitOr(a, c * Pow(2, k)) == a + c * Pow(2, k)
  {
    if k == 0 {
      BitOrZero(c);
    } else {
      var t := c * Pow(2, k - 1);
      assert c * Pow(2, k) == 2 * t by { MulAssociative(c, 2, Pow(2, k - 1)); }
      BitOrDisjoint(a / 2, c, k - 1);
      BitOrDouble(a, t);
    }
  }

  lemma BitOrDouble(a: nat, t: nat)
    ensures BitOr(a, 2 * t) == a % 2 + 2 * BitOr(a / 2, t)
  {
    assert 2 * t / 2 == t && 2 * t % 2 == 0;
  }

  lemma {:induction false} PowAdd(base: nat, m: nat, n: nat)
    ensures Pow(base, m + n) == Pow(base, m) * Pow(base, n)
  {
    if m > 0 {
      PowAdd(base, m - 1, n);
      MulAssociative(base, Pow(base, m - 1), Pow(base, n));
    }
  }

  lemma MulAssociative(a: int, b: int, c: int)
    ensures a * (b * c) == (a * b) * c
  {
  }

  /** Unsigned value of a little-endian field. */
  function LeValue(b: seq<byte>): nat {
    if b == [] then 0 else b[0] + 256 * LeValue(b[1..])
  }

  /** The n-byte little-endian field holding v modulo 256^n. */
  function LeBytes(v: nat, n: nat): (b: seq<byte>)
    ensures |b| == n
  {
    if n == 0 then [] else [v % 256] + LeBytes(v / 256, n - 1)
  }

  lemma {:induction false} LeBound(b: seq<byte>)
    ensures LeValue(b) < Pow(256, |b|)
  {
    if b != [] { LeBound(b[1..]); }
  }

  lemma {:induction false} LeValueOfBytes(v: nat, n: nat)
    requires v < Pow(256, n)
    ensures LeValue(LeBytes(v, n)) == v
  {
    if n > 0 {
      LeValueOfBytes(v / 256, n - 1);
      assert LeBytes(v, n)[1..] == LeBytes(v / 256, n - 1);
    }
  }

  lemma {:induction false} LeBytesOfValue(b: seq<byte>)
    ensures LeBytes(LeValue(b), |b|) == b
  {
    if b != [] {
      LeBytesOfValue(b[1..]);
      var v := LeValue(b);
      assert v % 256 == b[0] && v / 256 == LeValue(b[1..]);
      assert b == [b[0]] + b[1..];
    }
  }

  lemma {:induction false} LeValueAppend(a: seq<byte>, x: byte)
    ensures LeValue(a + [x]) == LeValue(a) + x * Pow(256, |a|)
  {
    if a == [] {
      assert a + [x] == [x];
    } else {
      assert (a + [x])[1..] == a[1..] + [x];
      LeValueAppend(a[1..], x);
      assert 256 * (x * Pow(256, |a| - 1)) == x * (256 * Pow(256, |a| - 1));
    }
  }

  function Le16(lo: byte, hi: byte): (r: nat)
    ensures r < 0x1_0000
  {
    lo + 256 * hi
  }

  function Sum(data: seq<byte>): nat {
    if data == [] then 0 else Sum(data[..|data| - 1]) + data[|data| - 1]
  }

  function CheckSum(data: seq<byte>): byte { Sum(data) % 256 }

  function Reverse(s: seq<byte>): (r: seq<byte>)
    ensures |r| == |s|
  {
    seq(|s|, i requires 0 <= i < |s| => s[|s| - 1 - i])
  }

  lemma ReverseTwice(s: seq<byte>)
    ensures Reverse(Reverse(s)) == s
  {
  }

  lemma PrefixConcat<T>(s: seq<T>, a: seq<T>, b: seq<T>)
    requires a <= s && b <= s[|a|..]
    ensures a + b <= s
  {
    assert s == a + s[|a|..];
    assert s[|a|..] == b + s[|a|..][|b|..];
  }

  /** Concatenation of a list of byte strings. */
  function Concat(parts: seq<seq<byte>>): seq<byte> {
    if parts == [] then [] else parts[0] + Concat(parts[1..])
  }

  lemma {:induction false} ConcatAppend(a: seq<seq<byte>>, b: seq<seq<byte>>)
    ensures Concat(a + b) == Concat(a) + Concat(b)
  {
    if a == [] {
      assert a + b == b;
    } else {
      assert (a + b)[1..] == a[1..] + b;
      ConcatAppend(a[1..], b);
    }
  }

  /** The arithmetic checksum, with the wrap-around of a byte accumulator. */
  method CalcCheckSum(data: seq<byte>) returns (sum: byte)
    ensures sum == CheckSum(data)
  {
    sum := 0;
    for i := 0 to |data|
      invariant sum == CheckSum(data[..i])
    {
      assert data[..i + 1][..i] == data[..i];
      sum := (sum + data[i]) % 256;
    }
    assert data[..|data|] == data;
  }
}
