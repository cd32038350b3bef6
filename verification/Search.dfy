/** The digit-by-digit search over identification numbers, on the set of slaves alone: what it finds and what it
    costs. */
module Search {
  import opened Bytes
  import opened Numbers
  import opened Frames
  import opened LongFrames

  const DIGITS: nat := 8
  const HEADER_END := 15

  datatype Address = Address(id: nat, manufacturer: string, version: byte, medium: byte)

  /** A slave is its own data response: a long frame whose header holds an 8-digit identification number. */
  predicate IsSlave(f: seq<byte>) {
    IsLongFrame(f) && |f| >= HEADER_END && IsBcd(f[7..11])
  }

  predicate AllSlaves(slaves: seq<seq<byte>>) {
    forall i :: 0 <= i < |slaves| ==> IsSlave(slaves[i])
  }

  /** The identification number as printed, most significant digit first. */
  function IdOf(f: seq<byte>): (id: seq<nat>)
    requires IsSlave(f)
    ensures |id| == DIGITS
  {
    FourFields(f[7..11]);
    FieldDigits(f[7..11])
  }

  lemma FourFields(b: seq<byte>)
    requires |b| == 4
    ensures FieldDigits(b) == [b[3] / 16, b[3] % 16, b[2] / 16, b[2] % 16, b[1] / 16, b[1] % 16, b[0] / 16, b[0] % 16]
  {
    assert b[1..][1..] == b[2..] && b[2..][1..] == b[3..] && b[3..][1..] == [];
    assert FieldDigits(b[3..]) == [b[3] / 16, b[3] % 16];
    assert FieldDigits(b[2..]) == [b[3] / 16, b[3] % 16, b[2] / 16, b[2] % 16];
  }

  function AddressOf(f: seq<byte>): Address
    requires IsSlave(f)
  {
    Address(Decimal(f[7..11]), Manufacturer(f[11], f[12]), f[13], f[14])
  }

  /** The slaves whose number starts with p, in bus order. */
  function Under(slaves: seq<seq<byte>>, p: seq<nat>): (u: seq<seq<byte>>)
    requires AllSlaves(slaves)
    ensures AllSlaves(u)
    ensures |u| <= |slaves| && forall f :: f in u <==> f in slaves && p <= IdOf(f)
  {
    if slaves == [] then []
    else (if p <= IdOf(slaves[0]) then [slaves[0]] else []) + Under(slaves[1..], p)
  }

  /** No other slave on the bus has f's number. */
  predicate Solo(slaves: seq<seq<byte>>, f: seq<byte>)
    requires AllSlaves(slaves) && IsSlave(f)
  {
    f in slaves && |Under(slaves, IdOf(f))| == 1
  }

  /** The entries found below prefix, trying digits from `digit` on. */
  function Found(slaves: seq<seq<byte>>, prefix: seq<nat>, digit: nat): seq<Address>
    requires AllSlaves(slaves) && |prefix| < DIGITS && digit <= 10
    decreases DIGITS - |prefix|, 11 - digit
  {
    if digit == 10 then []
    else FoundAt(slaves, prefix + [digit]) + Found(slaves, prefix, digit + 1)
  }

  function FoundAt(slaves: seq<seq<byte>>, p: seq<nat>): seq<Address>
    requires AllSlaves(slaves) && 1 <= |p| <= DIGITS
    decreases DIGITS + 1 - |p|, 0
  {
    var u := Under(slaves, p);
    if |u| == 0 then []
    else if |u| == 1 then [AddressOf(u[0])]
    else if |p| < DIGITS then Found(slaves, p, 0)
    else []
  }

  /** Selections sent below prefix, trying digits from `digit` on. */
  function Selections(slaves: seq<seq<byte>>, prefix: seq<nat>, digit: nat): nat
    requires AllSlaves(slaves) && |prefix| < DIGITS && digit <= 10
    decreases DIGITS - |prefix|, 11 - digit
  {
    if digit == 10 then 0
    else SelectionsAt(slaves, prefix + [digit]) + Selections(slaves, prefix, digit + 1)
  }

  function SelectionsAt(slaves: seq<seq<byte>>, p: seq<nat>): nat
    requires AllSlaves(slaves) && 1 <= |p| <= DIGITS
    decreases DIGITS + 1 - |p|, 0
  {
    1 + if |Under(slaves, p)| >= 2 && |p| < DIGITS then Selections(slaves, p, 0) else 0
  }

  // ---------------------------------------------------------------- sharing

  lemma {:induction false} UnderShrinks(slaves: seq<seq<byte>>, p: seq<nat>, q: seq<nat>)
    requires AllSlaves(slaves) && p <= q
    ensures |Under(slaves, q)| <= |Under(slaves, p)|
    ensures |Under(slaves, q)| == |Under(slaves, p)| ==> Under(slaves, q) == Under(slaves, p)
  {
    if slaves != [] { UnderShrinks(slaves[1..], p, q); }
  }

  // ---------------------------------------------------------------- what is found

  /** f's number continues prefix with a digit no smaller than `digit`. */
  predicate Reaches(f: seq<byte>, prefix: seq<nat>, digit: nat)
    requires IsSlave(f) && |prefix| < DIGITS
  {
    prefix <= IdOf(f) && IdOf(f)[|prefix|] >= digit
  }

  lemma {:induction false} FoundSound(slaves: seq<seq<byte>>, prefix: seq<nat>, digit: nat, a: Address)
    returns (f: seq<byte>)
    requires AllSlaves(slaves) && |prefix| < DIGITS && digit <= 10 && a in Found(slaves, prefix, digit)
    ensures IsSlave(f) && Solo(slaves, f) && Reaches(f, prefix, digit) && a == AddressOf(f)
    decreases DIGITS - |prefix|, 11 - digit
  {
    hide IsSlave, IdOf, AddressOf;
    var p := prefix + [digit];
    if a in FoundAt(slaves, p) {
      f := FoundAtSound(slaves, p, a);
    } else {
      f := FoundSound(slaves, prefix, digit + 1, a);
    }
  }

  lemma {:induction false} FoundAtSound(slaves: seq<seq<byte>>, p: seq<nat>, a: Address) returns (f: seq<byte>)
    requires AllSlaves(slaves) && 1 <= |p| <= DIGITS && a in FoundAt(slaves, p)
    ensures IsSlave(f) && Solo(slaves, f) && p <= IdOf(f) && a == AddressOf(f)
    decreases DIGITS + 1 - |p|, 0
  {
    hide AddressOf;
    var u := Under(slaves, p);
    if |u| == 1 {
      f := u[0];
      assert f in u;
      UnderShrinks(slaves, p, IdOf(f));
      assert f in Under(slaves, IdOf(f));
    } else {
      f := FoundSound(slaves, p, 0, a);
    }
  }

  lemma {:induction false} FoundComplete(slaves: seq<seq<byte>>, prefix: seq<nat>, digit: nat, f: seq<byte>)
    requires AllSlaves(slaves) && |prefix| < DIGITS && digit <= 10
    requires IsSlave(f) && Solo(slaves, f) && Reaches(f, prefix, digit)
    ensures AddressOf(f) in Found(slaves, prefix, digit)
    decreases DIGITS - |prefix|, 11 - digit
  {
    hide IsSlave, IdOf, AddressOf, Under, Solo, FoundAt, AllSlaves;
    DigitBound(f, |prefix|);
    if IdOf(f)[|prefix|] == digit {
      var p := prefix + [digit];
      assert p <= IdOf(f);
      FoundAtComplete(slaves, p, f);
    } else {
      FoundComplete(slaves, prefix, digit + 1, f);
    }
  }

  lemma {:induction false} FoundAtComplete(slaves: seq<seq<byte>>, p: seq<nat>, f: seq<byte>)
    requires AllSlaves(slaves) && 1 <= |p| <= DIGITS && IsSlave(f) && Solo(slaves, f) && p <= IdOf(f)
    ensures AddressOf(f) in FoundAt(slaves, p)
    decreases DIGITS + 1 - |p|, 0
  {
    hide IsSlave, IdOf, AddressOf;
    var u := Under(slaves, p);
    assert f in u;
    if |p| == DIGITS { assert p == IdOf(f); }
    if |u| == 1 {
      assert u[0] == f;
    } else {
      FoundComplete(slaves, p, 0, f);
    }
  }

  lemma DigitBound(f: seq<byte>, k: nat)
    requires IsSlave(f) && k < DIGITS
    ensures IdOf(f)[k] <= 9
  {
    FourFields(f[7..11]);
  }

  // ---------------------------------------------------------------- in which order

  predicate Ascending(xs: seq<Address>) {
    forall i, j :: 0 <= i < j < |xs| ==> xs[i].id < xs[j].id
  }

  function Number(digits: seq<nat>): nat {
    if digits == [] then 0 else 10 * Number(digits[..|digits| - 1]) + digits[|digits| - 1]
  }

  predicate AreDigits(ds: seq<nat>) {
    forall i :: 0 <= i < |ds| ==> ds[i] <= 9
  }

  /** Among numbers of one length the first digit that differs decides. */
  lemma {:induction false} NumberOrder(x: seq<nat>, y: seq<nat>, k: nat)
    requires |x| == |y| && k < |x| && x[..k] == y[..k] && x[k] < y[k] && AreDigits(x) && AreDigits(y)
    ensures Number(x) < Number(y)
  {
    var n := |x| - 1;
    if k < n {
      assert x[..n][..k] == x[..k] && y[..n][..k] == y[..k];
      NumberOrder(x[..n], y[..n], k);
    }
  }

  /** The decimal value of the header field is the number its digits spell. */
  lemma IdIsNumber(f: seq<byte>)
    requires IsSlave(f)
    ensures AddressOf(f).id == Number(IdOf(f)) && AreDigits(IdOf(f))
  {
    FieldNumber(f[7..11]);
    forall k | 0 <= k < DIGITS ensures IdOf(f)[k] <= 9 { DigitBound(f, k); }
  }

  /** The digits of a little-endian BCD field, most significant first. */
  function FieldDigits(b: seq<byte>): seq<nat> {
    if b == [] then [] else FieldDigits(b[1..]) + [b[0] / 16, b[0] % 16]
  }

  lemma {:induction false} FieldNumber(b: seq<byte>)
    ensures Decimal(b) == Number(FieldDigits(b))
  {
    if b != [] {
      FieldNumber(b[1..]);
      var ds := FieldDigits(b);
      var n := |ds| - 1;
      assert ds[..n][..n - 1] == FieldDigits(b[1..]);
      assert Number(ds[..n]) == 10 * Number(FieldDigits(b[1..])) + b[0] / 16;
    }
  }

  lemma {:induction false} FoundAscending(slaves: seq<seq<byte>>, prefix: seq<nat>, digit: nat)
    requires AllSlaves(slaves) && |prefix| < DIGITS && digit <= 10
    ensures Ascending(Found(slaves, prefix, digit))
    decreases DIGITS - |prefix|, 11 - digit
  {
    hide IsSlave, IdOf, AddressOf, Under;
    if digit < 10 {
      var p := prefix + [digit];
      if |Under(slaves, p)| >= 2 && |p| < DIGITS { FoundAscending(slaves, p, 0); }
      FoundAscending(slaves, prefix, digit + 1);
      BranchesInOrder(slaves, prefix, digit);
    }
  }

  lemma BranchesInOrder(slaves: seq<seq<byte>>, prefix: seq<nat>, digit: nat)
    requires AllSlaves(slaves) && |prefix| < DIGITS && digit < 10
    ensures forall x, y ::
      x in FoundAt(slaves, prefix + [digit]) && y in Found(slaves, prefix, digit + 1) ==> x.id < y.id
  {
    hide IsSlave, IdOf, AddressOf, Found, FoundAt, Number;
    var p := prefix + [digit];
    forall x, y | x in FoundAt(slaves, p) && y in Found(slaves, prefix, digit + 1) ensures x.id < y.id {
      var f := FoundAtSound(slaves, p, x);
      var g := FoundSound(slaves, prefix, digit + 1, y);
      IdIsNumber(f);
      IdIsNumber(g);
      assert IdOf(f)[..|prefix|] == p[..|prefix|] == prefix == IdOf(g)[..|prefix|] && IdOf(f)[|prefix|] == p[|prefix|];
      NumberOrder(IdOf(f), IdOf(g), |prefix|);
    }
  }

  /** Searched from a first digit on: in strictly ascending order of number, the header address of every slave from
      that digit on whose number no other slave has, and nothing else: shared numbers are skipped. */
  lemma FoundExactly(slaves: seq<seq<byte>>, digit: nat)
    requires AllSlaves(slaves) && digit <= 10
    ensures Ascending(Found(slaves, [], digit))
    ensures forall f :: f in slaves && Solo(slaves, f) ==>
      (AddressOf(f) in Found(slaves, [], digit) <==> IdOf(f)[0] >= digit)
    ensures forall a :: a in Found(slaves, [], digit) ==>
      exists f :: f in slaves && Solo(slaves, f) && a == AddressOf(f)
  {
    hide IdOf, AddressOf, Found;
    FoundAscending(slaves, [], digit);
    forall f | f in slaves && Solo(slaves, f)
      ensures AddressOf(f) in Found(slaves, [], digit) <==> IdOf(f)[0] >= digit
    {
      if IdOf(f)[0] >= digit { FoundComplete(slaves, [], digit, f); }
      if AddressOf(f) in Found(slaves, [], digit) {
        var g := FoundSound(slaves, [], digit, AddressOf(f));
        SameAddress(f, g);
      }
    }
    forall a | a in Found(slaves, [], digit) ensures exists f :: f in slaves && Solo(slaves, f) && a == AddressOf(f) {
      var f := FoundSound(slaves, [], digit, a);
    }
  }

  /** An address determines the number's digits. */
  lemma SameAddress(f: seq<byte>, g: seq<byte>)
    requires IsSlave(f) && IsSlave(g) && AddressOf(f) == AddressOf(g)
    ensures IdOf(f) == IdOf(g)
  {
    BcdOfDecimal(f[7..11]);
    BcdOfDecimal(g[7..11]);
  }

  // ---------------------------------------------------------------- at what cost

  /** The proper prefixes, one to seven digits long, that at least two slaves have in common. */
  ghost function SharedPrefixes(slaves: seq<seq<byte>>): set<seq<nat>>
    requires AllSlaves(slaves)
  {
    set i, k | 0 <= i < |slaves| && 1 <= k < DIGITS
        && |Under(slaves, IdOf(slaves[i])[..k])| >= 2 :: IdOf(slaves[i])[..k]
  }

  lemma SharedMeans(slaves: seq<seq<byte>>, p: seq<nat>)
    requires AllSlaves(slaves)
    ensures p in SharedPrefixes(slaves) <==> 1 <= |p| < DIGITS && |Under(slaves, p)| >= 2
  {
    if 1 <= |p| < DIGITS && |Under(slaves, p)| >= 2 {
      var f := Under(slaves, p)[0];
      assert f in Under(slaves, p);
      var i :| 0 <= i < |slaves| && slaves[i] == f;
      assert IdOf(slaves[i])[..|p|] == p;
    }
  }

  ghost function SharedFrom(slaves: seq<seq<byte>>, prefix: seq<nat>, digit: nat): set<seq<nat>>
    requires AllSlaves(slaves) && |prefix| < DIGITS
  {
    set p | p in SharedPrefixes(slaves) && |p| > |prefix| && prefix <= p && p[|prefix|] >= digit
  }

  ghost function SharedAt(slaves: seq<seq<byte>>, q: seq<nat>): set<seq<nat>>
    requires AllSlaves(slaves)
  {
    set p | p in SharedPrefixes(slaves) && q <= p
  }

  lemma SharedSplit(slaves: seq<seq<byte>>, prefix: seq<nat>, digit: nat)
    requires AllSlaves(slaves) && |prefix| < DIGITS && digit < 10
    ensures |SharedFrom(slaves, prefix, digit)|
            == |SharedAt(slaves, prefix + [digit])| + |SharedFrom(slaves, prefix, digit + 1)|
  {
    hide IsSlave, IdOf, SharedPrefixes;
    var q := prefix + [digit];
    var a, b := SharedAt(slaves, q), SharedFrom(slaves, prefix, digit + 1);
    assert SharedFrom(slaves, prefix, digit) == a + b by {
      forall p | p in SharedPrefixes(slaves)
        ensures p in SharedFrom(slaves, prefix, digit) <==> p in a || p in b
      {
        if q <= p { assert p[|prefix|] == q[|prefix|] && p[..|prefix|] == q[..|prefix|] == prefix; }
        if prefix <= p && |p| > |prefix| && p[|prefix|] == digit { assert p[..|q|] == q; }
      }
    }
    assert a !! b by {
      forall p | p in a ensures p !in b { assert p[|prefix|] == q[|prefix|]; }
    }
  }

  lemma SharedBelow(slaves: seq<seq<byte>>, q: seq<nat>)
    requires AllSlaves(slaves) && 1 <= |q| <= DIGITS
    ensures |SharedAt(slaves, q)|
            == if |Under(slaves, q)| >= 2 && |q| < DIGITS then 1 + |SharedFrom(slaves, q, 0)| else 0
  {
    hide IsSlave, IdOf, SharedPrefixes;
    forall p | p in SharedAt(slaves, q) ensures |Under(slaves, q)| >= 2 && |q| <= |p| < DIGITS {
      SharedMeans(slaves, p);
      UnderShrinks(slaves, q, p);
    }
    if |Under(slaves, q)| >= 2 && |q| < DIGITS {
      SharedMeans(slaves, q);
      var rest := SharedFrom(slaves, q, 0);
      assert SharedAt(slaves, q) == {q} + rest by {
        forall p | p in SharedAt(slaves, q) ensures p == q || p in rest {
          if |p| == |q| { assert p == q; }
        }
      }
      assert q !in rest;
    } else {
      assert SharedAt(slaves, q) == {};
    }
  }

  lemma {:induction false} SelectionsCount(slaves: seq<seq<byte>>, prefix: seq<nat>, digit: nat)
    requires AllSlaves(slaves) && |prefix| < DIGITS && digit <= 10
    ensures Selections(slaves, prefix, digit) == 10 - digit + 10 * |SharedFrom(slaves, prefix, digit)|
    decreases DIGITS - |prefix|, 11 - digit
  {
    hide IsSlave, IdOf, SharedPrefixes;
    if digit == 10 {
      NothingAboveNine(slaves, prefix);
    } else {
      var q := prefix + [digit];
      SharedSplit(slaves, prefix, digit);
      SharedBelow(slaves, q);
      SelectionsCount(slaves, prefix, digit + 1);
      if |Under(slaves, q)| >= 2 && |q| < DIGITS { SelectionsCount(slaves, q, 0); }
    }
  }

  lemma NothingAboveNine(slaves: seq<seq<byte>>, prefix: seq<nat>)
    requires AllSlaves(slaves) && |prefix| < DIGITS
    ensures SharedFrom(slaves, prefix, 10) == {}
  {
    forall p | p in SharedPrefixes(slaves) && |p| > |prefix| ensures p[|prefix|] < 10 {
      SharedMeans(slaves, p);
      var f := Under(slaves, p)[0];
      assert f in Under(slaves, p);
      DigitBound(f, |prefix|);
      assert IdOf(f)[|prefix|] == p[|prefix|];
    }
  }

  /** Ten selections, and ten more for every proper prefix that collides. */
  lemma SelectionsExactly(slaves: seq<seq<byte>>)
    requires AllSlaves(slaves)
    ensures Selections(slaves, [], 0) == 10 * (1 + |SharedPrefixes(slaves)|)
  {
    SelectionsCount(slaves, [], 0);
    assert SharedFrom(slaves, [], 0) == SharedPrefixes(slaves) by {
      forall p | p in SharedPrefixes(slaves) ensures p in SharedFrom(slaves, [], 0) { SharedMeans(slaves, p); }
    }
  }

  // ---------------------------------------------------------------- narrowing

  lemma EmptyOrNot<T>(u: seq<T>)
    ensures u == [] || exists x :: x in u
  {
    if |u| > 0 { assert u[0] in u; }
  }

  /** Narrowing a prefix that did not collide finds the same slaves: none, or the one. */
  lemma NarrowedIsFound(slaves: seq<seq<byte>>, p: seq<nat>)
    requires AllSlaves(slaves) && 1 <= |p| < DIGITS
    ensures Found(slaves, p, 0) == FoundAt(slaves, p)
  {
    hide AllSlaves, Under, AddressOf, Found;
    var u, found := Under(slaves, p), Found(slaves, p, 0);
    if |u| <= 1 {
      OnlyUnder(slaves, p);
      FoundAscending(slaves, p, 0);
      AtMostOne(found);
      EmptyOrNot(found);
    }
    if |u| == 1 { LoneIsFound(slaves, p); }
  }

  lemma OnlyUnder(slaves: seq<seq<byte>>, p: seq<nat>)
    requires AllSlaves(slaves) && 1 <= |p| < DIGITS && |Under(slaves, p)| <= 1
    ensures forall a :: a in Found(slaves, p, 0) ==> Under(slaves, p) != [] && a == AddressOf(Under(slaves, p)[0])
  {
    hide IsSlave, IdOf, AddressOf, Found;
    forall a | a in Found(slaves, p, 0) ensures Under(slaves, p) != [] && a == AddressOf(Under(slaves, p)[0]) {
      var f := FoundSound(slaves, p, 0, a);
      assert f in Under(slaves, p);
    }
  }

  lemma LoneIsFound(slaves: seq<seq<byte>>, p: seq<nat>)
    requires AllSlaves(slaves) && 1 <= |p| < DIGITS && |Under(slaves, p)| == 1
    ensures AddressOf(Under(slaves, p)[0]) in Found(slaves, p, 0)
  {
    hide IsSlave, IdOf, AddressOf, Found;
    var f := Under(slaves, p)[0];
    assert f in Under(slaves, p);
    UnderShrinks(slaves, p, IdOf(f));
    assert f in Under(slaves, IdOf(f));
    FoundComplete(slaves, p, 0, f);
  }

  lemma AtMostOne(xs: seq<Address>)
    requires Ascending(xs)
    ensures |xs| <= 1 || exists x, y :: x in xs && y in xs && x != y
  {
    if |xs| >= 2 { assert xs[0] in xs && xs[1] in xs && xs[0] != xs[1]; }
  }

  // ---------------------------------------------------------------- how many acknowledge

  /** Acknowledgements to the selections below prefix, one a digit, from `digit` on. */
  function AcksFrom(slaves: seq<seq<byte>>, prefix: seq<nat>, digit: nat): nat
    requires AllSlaves(slaves) && digit <= 10
    decreases 10 - digit
  {
    if digit == 10 then 0 else |Under(slaves, prefix + [digit])| + AcksFrom(slaves, prefix, digit + 1)
  }

  lemma UnderCons(f: seq<byte>, rest: seq<seq<byte>>, p: seq<nat>)
    requires IsSlave(f) && AllSlaves(rest)
    ensures AllSlaves([f] + rest) && |Under([f] + rest, p)| == |Under(rest, p)| + if p <= IdOf(f) then 1 else 0
  {
    hide IsSlave, IdOf;
    assert ([f] + rest)[1..] == rest;
  }

  /** Each slave acknowledges at most once a level, and only on its own digit. */
  lemma {:induction false} AcksOfOne(f: seq<byte>, rest: seq<seq<byte>>, prefix: seq<nat>, digit: nat)
    requires IsSlave(f) && AllSlaves(rest) && |prefix| < DIGITS && digit <= 10
    ensures AllSlaves([f] + rest)
    ensures AcksFrom([f] + rest, prefix, digit)
            == AcksFrom(rest, prefix, digit) + if prefix <= IdOf(f) && IdOf(f)[|prefix|] >= digit then 1 else 0
    decreases 10 - digit
  {
    hide IsSlave, IdOf, AllSlaves, Under;
    UnderCons(f, rest, prefix + [digit]);
    DigitBound(f, |prefix|);
    if digit < 10 {
      AcksOfOne(f, rest, prefix, digit + 1);
      Extends(prefix, digit, IdOf(f));
    }
  }

  lemma Extends(prefix: seq<nat>, digit: nat, id: seq<nat>)
    requires |prefix| < |id|
    ensures prefix + [digit] <= id <==> prefix <= id && id[|prefix|] == digit
  {
    if prefix <= id && id[|prefix|] == digit { assert id == prefix + [digit] + id[|prefix| + 1..]; }
  }

  lemma {:induction false} NoneAcknowledge(prefix: seq<nat>, digit: nat)
    requires digit <= 10
    ensures AcksFrom([], prefix, digit) == 0
    decreases 10 - digit
  {
    if digit < 10 { NoneAcknowledge(prefix, digit + 1); }
  }

  // ---------------------------------------------------------------- four meters that share eight prefixes

  /** A slave numbered by the digits of first, four zeros, and the digits of last. */
  function Meter(first: byte, last: byte): (f: seq<byte>)
    ensures |f| == 21 && f[7..11] == [last, 0, 0, first]
  {
    BuildLongFrame([0x08, 0x00, 0x72, last, 0, 0, first, 0, 0, 0, 0, 0, 0, 0, 0])
  }

  lemma MeterIsSlave(first: byte, last: byte)
    requires first in {0x00, 0x10} && last in {0x00, 0x01}
    ensures IsSlave(Meter(first, last)) && IdOf(Meter(first, last)) == [first / 16, 0, 0, 0, 0, 0, 0, last]
  {
    hide BuildLongFrame;
    var f := Meter(first, last);
    assert [last, 0, 0, first] == f[7..11];
    assert IsLongFrame(f) by {
      BuildIsLongFrame([0x08, 0x00, 0x72, last, 0, 0, first, 0, 0, 0, 0, 0, 0, 0, 0]);
    }
    FourFields(f[7..11]);
  }

  function ZeroDigits(n: nat): (z: seq<nat>)
    ensures |z| == n && forall i :: 0 <= i < n ==> z[i] == 0
  {
    seq(n, _ => 0)
  }

  ghost function ZeroPrefixes(n: nat): set<seq<nat>> {
    if n == 0 then {} else ZeroPrefixes(n - 1) + {ZeroDigits(n)}
  }

  lemma {:induction false} CountZeroPrefixes(n: nat)
    ensures |ZeroPrefixes(n)| == n
    ensures forall p :: p in ZeroPrefixes(n) ==> 1 <= |p| <= n && p == ZeroDigits(|p|)
  {
    if n > 0 { CountZeroPrefixes(n - 1); }
  }

  lemma TwoShare(slaves: seq<seq<byte>>, f: seq<byte>, g: seq<byte>, p: seq<nat>)
    requires AllSlaves(slaves) && f in slaves && g in slaves && f != g
    requires p <= IdOf(f) && p <= IdOf(g) && 1 <= |p| < DIGITS
    ensures p in SharedPrefixes(slaves)
  {
    hide IdOf, IsSlave;
    var u := Under(slaves, p);
    assert f in u && g in u;
    SharedMeans(slaves, p);
  }

  lemma SubsetSize<T>(a: set<T>, b: set<T>)
    requires a <= b
    ensures |a| <= |b|
  {
    assert b == a + (b - a);
  }

  lemma WholeNumber(id: seq<nat>, f: seq<byte>)
    requires IsSlave(f) && |id| == DIGITS
    ensures id <= IdOf(f) <==> id == IdOf(f)
  {
  }

  /** With all numbers different every slave can be found. */
  lemma {:induction false} DistinctAreSolo(slaves: seq<seq<byte>>, f: seq<byte>)
    requires AllSlaves(slaves) && f in slaves
    requires forall i, j :: 0 <= i < j < |slaves| ==> IdOf(slaves[i]) != IdOf(slaves[j])
    ensures Solo(slaves, f)
  {
    hide IsSlave, IdOf;
    var id, rest := IdOf(f), slaves[1..];
    var u := Under(rest, id);
    if id == IdOf(slaves[0]) {
      forall g | g in rest ensures g !in u { WholeNumber(id, g); }
      EmptyOrNot(u);
    } else {
      assert f in rest;
      DistinctAreSolo(rest, f);
      assert |Under(slaves, id)| == |u|;
    }
  }

  /** Two pairs of neighbours, all four distinguishable. */
  lemma FourMeters() returns (slaves: seq<seq<byte>>)
    ensures AllSlaves(slaves) && |slaves| == 4 && (forall f :: f in slaves ==> Solo(slaves, f))
    ensures |SharedPrefixes(slaves)| >= 8
  {
    hide IsSlave, IdOf, Meter, SharedPrefixes, Solo;
    slaves := [Meter(0x00, 0x00), Meter(0x00, 0x01), Meter(0x10, 0x00), Meter(0x10, 0x01)];
    MeterIsSlave(0x00, 0x00);
    MeterIsSlave(0x00, 0x01);
    MeterIsSlave(0x10, 0x00);
    MeterIsSlave(0x10, 0x01);
    forall f | f in slaves ensures Solo(slaves, f) { DistinctAreSolo(slaves, f); }
    EightShared(slaves);
  }

  lemma EightShared(slaves: seq<seq<byte>>)
    requires AllSlaves(slaves) && |slaves| == 4
    requires IdOf(slaves[0]) == [0, 0, 0, 0, 0, 0, 0, 0] && IdOf(slaves[1]) == [0, 0, 0, 0, 0, 0, 0, 1]
    requires IdOf(slaves[2]) == [1, 0, 0, 0, 0, 0, 0, 0] && IdOf(slaves[3]) == [1, 0, 0, 0, 0, 0, 0, 1]
    ensures |SharedPrefixes(slaves)| >= 8
  {
    hide IsSlave, IdOf, SharedPrefixes;
    hide ZeroPrefixes, ZeroDigits;
    CountZeroPrefixes(7);
    forall p | p in ZeroPrefixes(7) ensures p in SharedPrefixes(slaves) { ZerosShared(slaves, |p|); }
    TwoShare(slaves, slaves[2], slaves[3], [1]);
    SubsetSize(ZeroPrefixes(7) + {[1]}, SharedPrefixes(slaves));
    assert [1] !in ZeroPrefixes(7) by { assert ZeroDigits(1)[0] == 0; }
  }

  lemma ZerosShared(slaves: seq<seq<byte>>, n: nat)
    requires AllSlaves(slaves) && |slaves| >= 2 && 1 <= n <= 7
    requires IdOf(slaves[0]) == [0, 0, 0, 0, 0, 0, 0, 0] && IdOf(slaves[1]) == [0, 0, 0, 0, 0, 0, 0, 1]
    ensures ZeroDigits(n) in SharedPrefixes(slaves)
  {
    hide IsSlave, IdOf, SharedPrefixes;
    TwoShare(slaves, slaves[0], slaves[1], ZeroDigits(n));
  }
}
