/** The EN 13757-4 block CRC (wmbus/crc.go): the register loop, polynomial division, and burst detection.
    The 16-bit register is its sixteen bits, most significant first. */
module Crc {
  import opened Bytes

  // ---------------------------------------------------------------- bits of bytes

  /** The low n bits of v, most significant first. */
  function LowBits(v: nat, n: nat): (s: seq<bool>)
    ensures |s| == n
  {
    if n == 0 then [] else LowBits(v / 2, n - 1) + [v % 2 == 1]
  }

  function Bits(b: byte): (s: seq<bool>)
    ensures |s| == 8
  {
    LowBits(b, 8)
  }

  function Value(bits: seq<bool>): nat {
    if bits == [] then 0 else 2 * Value(bits[..|bits| - 1]) + if bits[|bits| - 1] then 1 else 0
  }

  lemma {:induction false} ValueOfLowBits(v: nat, n: nat)
    requires v < Pow(2, n)
    ensures Value(LowBits(v, n)) == v
  {
    if n > 0 {
      ValueOfLowBits(v / 2, n - 1);
      assert LowBits(v, n)[..n - 1] == LowBits(v / 2, n - 1);
    }
  }

  lemma {:induction false} LowBitsOfValue(bits: seq<bool>)
    ensures Value(bits) < Pow(2, |bits|) && LowBits(Value(bits), |bits|) == bits
  {
    if bits != [] {
      var front := bits[..|bits| - 1];
      LowBitsOfValue(front);
      assert Value(bits) / 2 == Value(front);
      assert bits == front + [bits[|bits| - 1]];
    }
  }

  function BitsOf(data: seq<byte>): (s: seq<bool>)
    ensures |s| == 8 * |data|
  {
    if data == [] then [] else Bits(data[0]) + BitsOf(data[1..])
  }

  lemma {:induction false} BitsOfAppend(a: seq<byte>, b: seq<byte>)
    ensures BitsOf(a + b) == BitsOf(a) + BitsOf(b)
  {
    hide Bits;
    if a == [] {
      assert a + b == b;
    } else {
      assert (a + b)[1..] == a[1..] + b;
      BitsOfAppend(a[1..], b);
    }
  }

  lemma {:induction false} BitsDetermineBytes(a: seq<byte>, b: seq<byte>)
    requires |a| == |b| && BitsOf(a) == BitsOf(b)
    ensures a == b
  {
    hide LowBits, Value;
    if a != [] {
      assert Bits(a[0]) == BitsOf(a)[..8] == BitsOf(b)[..8] == Bits(b[0]);
      assert BitsOf(a[1..]) == BitsOf(a)[8..] && BitsOf(b[1..]) == BitsOf(b)[8..];
      assert Pow(2, 8) == 256;
      ValueOfLowBits(a[0], 8);
      ValueOfLowBits(b[0], 8);
      BitsDetermineBytes(a[1..], b[1..]);
      assert a == [a[0]] + a[1..] && b == [b[0]] + b[1..];
    }
  }

  // ---------------------------------------------------------------- bitwise operations

  function Zeros(n: nat): (s: seq<bool>)
    ensures |s| == n
  {
    seq(n, _ => false)
  }

  function Xor(a: seq<bool>, b: seq<bool>): (s: seq<bool>)
    requires |a| == |b|
    ensures |s| == |a|
  {
    seq(|a|, i requires 0 <= i < |a| => a[i] != b[i])
  }

  function Not(a: seq<bool>): (s: seq<bool>)
    ensures |s| == |a|
  {
    seq(|a|, i requires 0 <= i < |a| => !a[i])
  }

  function ShiftLeft(a: seq<bool>): (s: seq<bool>)
    requires a != []
    ensures |s| == |a|
  {
    a[1..] + [false]
  }

  lemma XorLaws(a: seq<bool>, b: seq<bool>, c: seq<bool>)
    requires |a| == |b| == |c|
    ensures Xor(Xor(a, b), c) == Xor(a, Xor(b, c)) && Xor(a, b) == Xor(b, a)
    ensures Xor(Xor(a, c), Xor(b, c)) == Xor(a, b)
    ensures Xor(a, c) == Xor(b, c) ==> a == b
  {
    assert forall i :: 0 <= i < |a| ==> Xor(a, c)[i] == (a[i] != c[i]) && Xor(b, c)[i] == (b[i] != c[i]);
    if Xor(a, c) == Xor(b, c) {
      forall i | 0 <= i < |a| ensures a[i] == b[i] {
        assert Xor(a, c)[i] == Xor(b, c)[i];
      }
    }
  }

  lemma XorCancel(a: seq<bool>, b: seq<bool>, c: seq<bool>)
    requires |a| == |b| == |c|
    requires Xor(a, c) == Xor(b, c) || Xor(c, a) == Xor(c, b)
    ensures a == b
  {
    hide Xor;
    XorLaws(a, b, c);
    XorLaws(a, c, b);
    XorLaws(b, c, a);
  }

  lemma XorZero(a: seq<bool>, n: nat)
    requires |a| == n
    ensures Xor(a, Zeros(n)) == a && Xor(Zeros(n), a) == a && Xor(a, a) == Zeros(n)
  {
  }

  // ---------------------------------------------------------------- the register

  const WIDTH: nat := 16

  /** x^13 + x^12 + x^11 + x^10 + x^8 + x^6 + x^5 + x^2 + 1, that is 3D65h; the x^16 term is implied. */
  const POLYNOMIAL: seq<bool> := [false, false, true, true, true, true, false, true,
                                  false, true, true, false, false, true, false, true]

  predicate IsRegister(r: seq<bool>) { |r| == WIDTH }

  /** One clock of the register with no input. */
  function Step(r: seq<bool>): (s: seq<bool>)
    requires IsRegister(r)
    ensures IsRegister(s)
  {
    if r[0] then Xor(ShiftLeft(r), POLYNOMIAL) else ShiftLeft(r)
  }

  function Steps(n: nat, r: seq<bool>): (s: seq<bool>)
    requires IsRegister(r)
    ensures IsRegister(s)
  {
    if n == 0 then r else Steps(n - 1, Step(r))
  }

  /** A bit in the top place. */
  function Top(bit: bool): (s: seq<bool>)
    ensures IsRegister(s)
  {
    [bit] + Zeros(15)
  }

  /** A bit in the bottom place. */
  function Bottom(bit: bool): (s: seq<bool>)
    ensures IsRegister(s)
  {
    Zeros(15) + [bit]
  }

  /** Clocking message bits in at the top of the register. */
  function Feed(r: seq<bool>, bits: seq<bool>): (s: seq<bool>)
    requires IsRegister(r)
    ensures IsRegister(s)
    decreases |bits|
  {
    if bits == [] then r else Feed(Step(Xor(r, Top(bits[0]))), bits[1..])
  }

  function Crc(data: seq<byte>): (s: seq<bool>)
    ensures IsRegister(s)
  {
    Not(Feed(Zeros(WIDTH), BitsOf(data)))
  }

  /** A data block against its two CRC bytes, most significant first. */
  predicate CheckCrc(data: seq<byte>, crc: seq<byte>)
    requires |crc| == 2
  {
    Crc(data) == BitsOf(crc)
  }

  lemma StepLinear(x: seq<bool>, y: seq<bool>)
    requires IsRegister(x) && IsRegister(y)
    ensures Step(Xor(x, y)) == Xor(Step(x), Step(y))
  {
    assert ShiftLeft(Xor(x, y)) == Xor(ShiftLeft(x), ShiftLeft(y));
    XorLaws(ShiftLeft(x), ShiftLeft(y), POLYNOMIAL);
    XorLaws(ShiftLeft(x), POLYNOMIAL, ShiftLeft(y));
  }

  /** The polynomial has a constant term, so a clock forgets nothing. */
  lemma StepInjective(x: seq<bool>, y: seq<bool>)
    requires IsRegister(x) && IsRegister(y) && Step(x) == Step(y)
    ensures x == y
  {
    assert Step(x)[15] == x[0] && Step(y)[15] == y[0];
    XorLaws(ShiftLeft(x), ShiftLeft(y), POLYNOMIAL);
    assert ShiftLeft(x) == ShiftLeft(y);
    assert x == [x[0]] + ShiftLeft(x)[..15] && y == [y[0]] + ShiftLeft(y)[..15];
  }

  lemma {:induction false} StepsLinear(n: nat, x: seq<bool>, y: seq<bool>)
    requires IsRegister(x) && IsRegister(y)
    ensures Steps(n, Xor(x, y)) == Xor(Steps(n, x), Steps(n, y))
  {
    hide Step, Xor;
    if n > 0 {
      StepLinear(x, y);
      StepsLinear(n - 1, Step(x), Step(y));
    }
  }

  lemma {:induction false} StepsAdd(m: nat, n: nat, x: seq<bool>)
    requires IsRegister(x)
    ensures Steps(m + n, x) == Steps(n, Steps(m, x))
  {
    hide Step;
    if m > 0 { StepsAdd(m - 1, n, Step(x)); }
  }

  lemma OneStep(x: seq<bool>)
    requires IsRegister(x)
    ensures Steps(0, x) == x && Steps(1, x) == Step(x)
  {
    hide Step;
    assert Steps(0, Step(x)) == Step(x);
  }

  lemma {:induction false} StepsInjective(n: nat, x: seq<bool>, y: seq<bool>)
    requires IsRegister(x) && IsRegister(y) && Steps(n, x) == Steps(n, y)
    ensures x == y
  {
    hide Step;
    if n > 0 {
      StepsInjective(n - 1, Step(x), Step(y));
      StepInjective(x, y);
    }
  }

  lemma {:induction false} StepsOfZero(n: nat)
    ensures Steps(n, Zeros(WIDTH)) == Zeros(WIDTH)
  {
    if n > 0 {
      assert Step(Zeros(WIDTH)) == Zeros(WIDTH);
      StepsOfZero(n - 1);
    }
  }

  lemma {:induction false} FeedAppend(r: seq<bool>, a: seq<bool>, b: seq<bool>)
    requires IsRegister(r)
    ensures Feed(r, a + b) == Feed(Feed(r, a), b)
    decreases |a|
  {
    hide Step, Top, Xor;
    if a == [] {
      assert a + b == b;
    } else {
      assert (a + b)[1..] == a[1..] + b;
      FeedAppend(Step(Xor(r, Top(a[0]))), a[1..], b);
    }
  }

  /** The register is affine in its start value: it runs on its own beside the message. */
  lemma {:induction false} FeedSplits(r: seq<bool>, bits: seq<bool>)
    requires IsRegister(r)
    ensures Feed(r, bits) == Xor(Steps(|bits|, r), Feed(Zeros(WIDTH), bits))
    decreases |bits|
  {
    hide Step, Top, Xor, Zeros;
    if bits == [] {
      XorZero(r, WIDTH);
    } else {
      var e := Top(bits[0]);
      var rest := bits[1..];
      var n := |rest|;
      StepLinear(r, e);
      XorZero(e, WIDTH);
      FeedSplits(Step(Xor(r, e)), rest);
      FeedSplits(Step(e), rest);
      StepsLinear(n, Step(r), Step(e));
      XorLaws(Steps(n, Step(r)), Steps(n, Step(e)), Feed(Zeros(WIDTH), rest));
    }
  }

  // ---------------------------------------------------------------- long division

  /** The generator with its x^16 term: seventeen bits, 13D65h. */
  const GENERATOR: seq<bool> := [true] + POLYNOMIAL

  /** Schoolbook division: shift the next bit in at the bottom, subtract the generator when the x^16 bit is set,
      and keep the sixteen bits below it. */
  function Remainder(bits: seq<bool>): (r: seq<bool>)
    ensures IsRegister(r)
  {
    if bits == [] then Zeros(WIDTH)
    else
      var wide := Remainder(bits[..|bits| - 1]) + [bits[|bits| - 1]];
      (if wide[0] then Xor(wide, GENERATOR) else wide)[1..]
  }

  lemma RemainderStep(bits: seq<bool>, bit: bool)
    ensures Remainder(bits + [bit]) == Xor(Step(Remainder(bits)), Bottom(bit))
  {
    hide Xor, ShiftLeft, Bottom, Step;
    assert (bits + [bit])[..|bits|] == bits;
    SubtractStep(Remainder(bits), bit);
  }

  lemma SubtractStep(r: seq<bool>, bit: bool)
    requires IsRegister(r)
    ensures var wide := r + [bit];
      (if r[0] then Xor(wide, GENERATOR) else wide)[1..] == Xor(Step(r), Bottom(bit))
  {
    var wide := r + [bit];
    assert wide[1..] == Xor(ShiftLeft(r), Bottom(bit));
    if r[0] {
      XorTail(wide, GENERATOR);
      assert GENERATOR[1..] == POLYNOMIAL;
      hide Xor, ShiftLeft, Bottom;
      XorLaws(ShiftLeft(r), Bottom(bit), POLYNOMIAL);
      XorLaws(ShiftLeft(r), POLYNOMIAL, Bottom(bit));
      XorLaws(POLYNOMIAL, Bottom(bit), POLYNOMIAL);
    }
  }

  lemma XorTail(a: seq<bool>, b: seq<bool>)
    requires |a| == |b| && a != []
    ensures Xor(a, b)[1..] == Xor(a[1..], b[1..])
  {
  }

  /** A one with k zeros below it. */
  function Unit(k: nat): (r: seq<bool>)
    requires k < WIDTH
    ensures IsRegister(r)
  {
    Zeros(15 - k) + [true] + Zeros(k)
  }

  /** A one that enters at the bottom reaches the top fifteen clocks later. */
  lemma {:induction false} Climb(k: nat, n: nat)
    requires k + n < WIDTH
    ensures Steps(n, Unit(k)) == Unit(k + n)
    decreases n
  {
    if n > 0 {
      assert Step(Unit(k)) == Unit(k + 1);
      Climb(k + 1, n - 1);
    }
  }

  lemma BottomReachesTop(bit: bool)
    ensures Steps(15, Bottom(bit)) == Top(bit)
  {
    if bit {
      Climb(0, 15);
      assert Bottom(bit) == Unit(0) && Top(bit) == Unit(15);
    } else {
      StepsOfZero(15);
      assert Bottom(bit) == Zeros(WIDTH) && Top(bit) == Zeros(WIDTH);
    }
  }

  /** Feeding at the top is dividing, sixteen places ahead. */
  lemma {:induction false} FeedIsRemainder(bits: seq<bool>)
    ensures Feed(Zeros(WIDTH), bits) == Steps(16, Remainder(bits))
    decreases |bits|
  {
    hide Step, Steps, Remainder, Xor, Top, Bottom, Zeros;
    if bits == [] {
      StepsOfZero(16);
      assert Remainder(bits) == Zeros(WIDTH) by { NothingDivided(); }
    } else {
      var n := |bits| - 1;
      var front, bit := bits[..n], bits[n];
      assert bits == front + [bit];
      FeedIsRemainder(front);
      FeedAppend(Zeros(WIDTH), front, [bit]);
      FeedOne(Feed(Zeros(WIDTH), front), bit);
      RemainderStep(front, bit);
      ClockIn(Remainder(front), bit);
    }
  }

  lemma NothingDivided()
    ensures Remainder([]) == Zeros(WIDTH)
  {
  }

  lemma FeedOne(r: seq<bool>, bit: bool)
    requires IsRegister(r)
    ensures Feed(r, [bit]) == Step(Xor(r, Top(bit)))
  {
    hide Step, Xor, Top;
    assert [bit][1..] == [];
  }

  lemma ClockIn(r: seq<bool>, bit: bool)
    requires IsRegister(r)
    ensures Step(Xor(Steps(16, r), Top(bit))) == Steps(16, Xor(Step(r), Bottom(bit)))
  {
    hide Step, Steps, Xor, Top, Bottom;
    StepLinear(Steps(16, r), Top(bit));
    StepsLinear(16, Step(r), Bottom(bit));
    StepsAdd(16, 1, r);
    StepsAdd(1, 16, r);
    OneStep(r);
    OneStep(Steps(16, r));
    BottomReachesTop(bit);
    StepsAdd(15, 1, Bottom(bit));
    OneStep(Top(bit));
  }

  lemma {:induction false} RemainderOfZeros(bits: seq<bool>, n: nat)
    ensures Remainder(bits + Zeros(n)) == Steps(n, Remainder(bits))
  {
    hide Step, Steps, Remainder, Xor;
    if n == 0 {
      assert bits + Zeros(n) == bits;
      OneStep(Remainder(bits));
    } else {
      RemainderOfZeros(bits, n - 1);
      assert bits + Zeros(n) == bits + Zeros(n - 1) + [false];
      RemainderStep(bits + Zeros(n - 1), false);
      StepsAdd(n - 1, 1, Remainder(bits));
      OneStep(Steps(n - 1, Remainder(bits)));
      assert Bottom(false) == Zeros(WIDTH);
      XorZero(Step(Remainder(bits + Zeros(n - 1))), WIDTH);
    }
  }

  /** The block CRC is the complement of the remainder of the message followed by sixteen zero bits. */
  lemma CrcIsLongDivision(data: seq<byte>)
    ensures Crc(data) == Not(Remainder(BitsOf(data) + Zeros(16)))
  {
    hide Remainder, Feed, Steps, BitsOf;
    FeedIsRemainder(BitsOf(data));
    RemainderOfZeros(BitsOf(data), 16);
  }

  // ---------------------------------------------------------------- what a remainder is

  /** The polynomial q times the generator, by shift and add, most significant coefficient first. */
  function TimesGenerator(q: seq<bool>): (p: seq<bool>)
    ensures |p| == |q| + WIDTH
  {
    if q == [] then Zeros(WIDTH)
    else
      var shifted := TimesGenerator(q[..|q| - 1]) + [false];
      if q[|q| - 1] then Xor(shifted, Zeros(|q| - 1) + GENERATOR) else shifted
  }

  /** The quotient digits the division produces on its way. */
  function Quotient(bits: seq<bool>): (q: seq<bool>)
    ensures |q| == |bits|
  {
    if bits == [] then []
    else Quotient(bits[..|bits| - 1]) + [Remainder(bits[..|bits| - 1])[0]]
  }

  /** Division really divides: every message is quotient times generator plus a remainder of degree below sixteen. */
  lemma {:induction false} DivisionIdentity(bits: seq<bool>)
    ensures Zeros(WIDTH) + bits == Xor(TimesGenerator(Quotient(bits)), Zeros(|bits|) + Remainder(bits))
  {
    if bits == [] {
      assert Zeros(WIDTH) + bits == Zeros(WIDTH);
      assert Zeros(|bits|) + Remainder(bits) == Zeros(WIDTH);
      XorZero(Zeros(WIDTH), WIDTH);
    } else {
      var n := |bits| - 1;
      var front, bit := bits[..n], bits[n];
      DivisionIdentity(front);
      DivisionStep(front, bit);
      assert bits == front + [bit];
    }
  }

  /** p is t, one place up, plus the generator when c. */
  predicate ProductExtends(p: seq<bool>, t: seq<bool>, c: bool)
    requires |t| >= WIDTH && |p| == |t| + 1
  {
    var n := |t| - WIDTH;
    forall i :: 0 <= i < |p| ==> p[i] == ((i < |t| && t[i]) != (c && i >= n && GENERATOR[i - n]))
  }

  /** s is r, one place up with bit below, less the generator when r has its top bit. */
  predicate RemainderExtends(s: seq<bool>, r: seq<bool>, bit: bool)
    requires IsRegister(s) && IsRegister(r)
  {
    forall i :: 0 <= i < WIDTH ==> s[i] == ((if i < 15 then r[i + 1] else bit) != (r[0] && GENERATOR[i + 1]))
  }

  lemma DivisionStep(front: seq<bool>, bit: bool)
    requires Zeros(WIDTH) + front == Xor(TimesGenerator(Quotient(front)), Zeros(|front|) + Remainder(front))
    ensures var bits := front + [bit];
      Zeros(WIDTH) + bits == Xor(TimesGenerator(Quotient(bits)), Zeros(|bits|) + Remainder(bits))
  {
    hide TimesGenerator, Remainder, Quotient, Xor, ProductExtends, RemainderExtends;
    var bits := front + [bit];
    NextQuotient(front, bit);
    ProductStep(Quotient(front), Remainder(front)[0]);
    NextRemainder(front, bit);
    Recombine(front, bit, TimesGenerator(Quotient(front)), Remainder(front), TimesGenerator(Quotient(bits)),
        Remainder(bits));
  }

  lemma Recombine(front: seq<bool>, bit: bool, t: seq<bool>, r: seq<bool>, p: seq<bool>, s: seq<bool>)
    requires IsRegister(r) && IsRegister(s) && |t| == |front| + WIDTH && |p| == |t| + 1
    requires Zeros(WIDTH) + front == Xor(t, Zeros(|front|) + r)
    requires ProductExtends(p, t, r[0]) && RemainderExtends(s, r, bit)
    ensures Zeros(WIDTH) + (front + [bit]) == Xor(p, Zeros(|front| + 1) + s)
  {
    hide ProductExtends, RemainderExtends;
    var before, after, z := Zeros(WIDTH) + front, Zeros(WIDTH) + (front + [bit]), Zeros(|front| + 1) + s;
    forall i | 0 <= i < |p| ensures after[i] == (p[i] != z[i]) {
      if i < |t| { assert before[i] == Xor(t, Zeros(|front|) + r)[i]; }
      DivisionBit(front, bit, t, r, p, s, i);
    }
  }

  /** One coefficient of the division identity, after one more message bit. */
  lemma DivisionBit(front: seq<bool>, bit: bool, t: seq<bool>, r: seq<bool>, p: seq<bool>, s: seq<bool>, i: nat)
    requires IsRegister(r) && IsRegister(s) && |t| == |front| + WIDTH && |p| == |t| + 1 && i < |p|
    requires i < |t| ==> (Zeros(WIDTH) + front)[i] == (t[i] != (Zeros(|front|) + r)[i])
    requires ProductExtends(p, t, r[0]) && RemainderExtends(s, r, bit)
    ensures (Zeros(WIDTH) + (front + [bit]))[i] == (p[i] != (Zeros(|front| + 1) + s)[i])
  {
    var n := |front|;
    var z := Zeros(n + 1) + s;
    if i < n {
      assert z[i] == false && (Zeros(n) + r)[i] == false;
    } else if i == n {
      assert z[i] == false && (Zeros(n) + r)[i] == r[0] && GENERATOR[0];
    } else if i < n + WIDTH {
      var j := i - n - 1;
      assert z[i] == s[j] && (Zeros(n) + r)[i] == r[j + 1];
    } else {
      assert z[i] == s[15] && (Zeros(WIDTH) + (front + [bit]))[i] == bit;
    }
    assert i < n + WIDTH ==> (Zeros(WIDTH) + (front + [bit]))[i] == (Zeros(WIDTH) + front)[i];
  }

  lemma NextQuotient(front: seq<bool>, bit: bool)
    ensures Quotient(front + [bit]) == Quotient(front) + [Remainder(front)[0]]
  {
    hide Remainder;
    assert (front + [bit])[..|front|] == front;
  }

  lemma ProductStep(q: seq<bool>, c: bool)
    ensures ProductExtends(TimesGenerator(q + [c]), TimesGenerator(q), c)
  {
    var n, t := |q|, TimesGenerator(q);
    assert (q + [c])[..n] == q;
    var shifted := t + [false];
    assert forall i :: 0 <= i < n + 1 + WIDTH ==> shifted[i] == (i < n + WIDTH && t[i]);
    assert c ==> forall i :: 0 <= i < n + 1 + WIDTH ==> (Zeros(n) + GENERATOR)[i] == (i >= n && GENERATOR[i - n]);
  }

  lemma NextRemainder(front: seq<bool>, bit: bool)
    ensures RemainderExtends(Remainder(front + [bit]), Remainder(front), bit)
  {
    assert (front + [bit])[..|front|] == front;
  }

  // ---------------------------------------------------------------- burst detection

  /** Up to sixteen bits fit in the register, so nothing has been reduced yet. */
  lemma {:induction false} ShortRemainder(bits: seq<bool>)
    requires |bits| <= 16
    ensures Remainder(bits) == Zeros(16 - |bits|) + bits
  {
    if bits != [] {
      var n := |bits| - 1;
      ShortRemainder(bits[..n]);
      assert Remainder(bits[..n])[0] == false;
    }
  }

  /** Two messages that differ, but only within sixteen consecutive bits, leave different registers. */
  lemma BurstChangesRegister(x: seq<bool>, y: seq<bool>, i: nat)
    requires |x| == |y| && i + 16 <= |x| && x != y
    requires x[..i] == y[..i] && x[i + 16..] == y[i + 16..]
    ensures Feed(Zeros(WIDTH), x) != Feed(Zeros(WIDTH), y)
  {
    hide Feed, Steps, Remainder, Xor;
    var s := Feed(Zeros(WIDTH), x[..i]);
    var a, b, rest := x[i..i + 16], y[i..i + 16], x[i + 16..];
    assert x == x[..i] + (a + rest) && y == y[..i] + (b + rest);
    FeedAround(x[..i], a, rest);
    FeedAround(x[..i], b, rest);
    if Feed(Zeros(WIDTH), x) == Feed(Zeros(WIDTH), y) {
      XorCancel(Steps(|rest|, Feed(s, a)), Steps(|rest|, Feed(s, b)), Feed(Zeros(WIDTH), rest));
      StepsInjective(|rest|, Feed(s, a), Feed(s, b));
      WordDetermined(s, a, b);
    }
  }

  /** Sixteen bits can be told from the register they leave. */
  lemma WordDetermined(s: seq<bool>, a: seq<bool>, b: seq<bool>)
    requires IsRegister(s) && |a| == |b| == 16
    requires Xor(Steps(16, s), Steps(16, Remainder(a))) == Xor(Steps(16, s), Steps(16, Remainder(b)))
    ensures a == b
  {
    hide Steps, Remainder, Xor;
    XorCancel(Steps(16, Remainder(a)), Steps(16, Remainder(b)), Steps(16, s));
    StepsInjective(16, Remainder(a), Remainder(b));
    ShortRemainder(a);
    ShortRemainder(b);
    assert Zeros(0) + a == a && Zeros(0) + b == b;
  }

  lemma FeedAround(front: seq<bool>, a: seq<bool>, rest: seq<bool>)
    requires |a| == 16
    ensures var s := Feed(Zeros(WIDTH), front);
      && Feed(s, a) == Xor(Steps(16, s), Steps(16, Remainder(a)))
      && Feed(Zeros(WIDTH), front + (a + rest)) == Xor(Steps(|rest|, Feed(s, a)), Feed(Zeros(WIDTH), rest))
  {
    hide Feed, Steps, Remainder, Xor;
    var s := Feed(Zeros(WIDTH), front);
    FeedAppend(Zeros(WIDTH), front, a + rest);
    FeedAppend(s, a, rest);
    FeedSplits(s, a);
    FeedIsRemainder(a);
    FeedSplits(Feed(s, a), rest);
  }

  function Ones(): seq<bool> { seq(WIDTH, _ => true) }

  lemma ComplementMeans(r: seq<bool>, w: seq<bool>)
    requires IsRegister(r) && IsRegister(w)
    ensures Not(r) == w <==> Xor(r, w) == Ones()
  {
    if Xor(r, w) == Ones() {
      forall i | 0 <= i < WIDTH ensures Not(r)[i] == w[i] { assert Xor(r, w)[i] == Ones()[i]; }
    }
    if Not(r) == w {
      forall i | 0 <= i < WIDTH ensures Xor(r, w)[i] == Ones()[i] { assert Not(r)[i] == w[i]; }
    }
  }

  /** A block is accepted iff data and CRC together leave the fixed residue in the register. */
  lemma AcceptsIsResidue(data: seq<byte>, crc: seq<byte>)
    requires |crc| == 2
    ensures CheckCrc(data, crc) <==> Feed(Zeros(WIDTH), BitsOf(data + crc)) == Steps(16, Ones())
  {
    hide Feed, Steps, Remainder, BitsOf, Xor, Not, Ones;
    var r, w := Feed(Zeros(WIDTH), BitsOf(data)), BitsOf(crc);
    BitsOfAppend(data, crc);
    FeedAppend(Zeros(WIDTH), BitsOf(data), w);
    FeedSplits(r, w);
    FeedIsRemainder(w);
    ShortRemainder(w);
    assert Zeros(0) + w == w;
    StepsLinear(16, r, w);
    ComplementMeans(r, w);
    assert IsRegister(Ones()) by { OnesWide(); }
    if Feed(Zeros(WIDTH), BitsOf(data + crc)) == Steps(16, Ones()) { StepsInjective(16, Xor(r, w), Ones()); }
  }

  lemma OnesWide()
    ensures IsRegister(Ones())
  {
  }

  /** Burst detection: when a block is accepted, every change confined to sixteen consecutive bits of data and
      CRC together is rejected, for every data length. */
  lemma BurstDetected(data: seq<byte>, crc: seq<byte>, data': seq<byte>, crc': seq<byte>, i: nat)
    requires |crc| == 2 && |crc'| == 2 && |data| == |data'| && data + crc != data' + crc'
    requires forall k :: 0 <= k < 8 * |data + crc| && !(i <= k < i + 16) ==>
               BitsOf(data + crc)[k] == BitsOf(data' + crc')[k]
    requires CheckCrc(data, crc)
    ensures !CheckCrc(data', crc')
  {
    hide Feed, Steps, BitsOf, CheckCrc, Ones;
    var x, y := BitsOf(data + crc), BitsOf(data' + crc');
    if x == y { BitsDetermineBytes(data + crc, data' + crc'); }
    var j := if i + 16 <= |x| then i else |x| - 16;
    assert x[..j] == y[..j] && x[j + 16..] == y[j + 16..];
    BurstChangesRegister(x, y, j);
    AcceptsIsResidue(data, crc);
    AcceptsIsResidue(data', crc');
  }

  // ---------------------------------------------------------------- the loops

  /** Mixing a whole byte in at the top and clocking eight times is feeding its bits one by one. */
  lemma ByteAtOnce(r: seq<bool>, b: byte)
    requires IsRegister(r)
    ensures Steps(8, Xor(r, Bits(b) + Zeros(8))) == Feed(r, Bits(b))
  {
    hide Feed, Steps, Remainder, Step, Xor, Bits;
    var bits := Bits(b);
    var high := bits + Zeros(8);
    StepsLinear(8, r, high);
    FeedSplits(r, bits);
    FeedIsRemainder(bits);
    StepsAdd(8, 8, Remainder(bits));
    RemainderOfZeros(bits, 8);
    ShortRemainder(high);
    assert Zeros(0) + high == high;
  }

  method Crc16(data: seq<byte>) returns (crc: seq<bool>)
    ensures crc == Crc(data)
  {
    hide Feed, Steps, Bits;
    crc := Zeros(WIDTH);
    NothingFed();
    for i := 0 to |data|
      invariant IsRegister(crc) && crc == Feed(Zeros(WIDTH), BitsOf(data[..i]))
    {
      ghost var before := crc;
      crc := Xor(crc, Bits(data[i]) + Zeros(8));
      crc := ClockByte(crc);
      ByteAtOnce(before, data[i]);
      FeedAppend(Zeros(WIDTH), BitsOf(data[..i]), Bits(data[i]));
      BitsOfAppend(data[..i], [data[i]]);
      assert [data[i]][1..] == [] && BitsOf([data[i]]) == Bits(data[i]);
      assert data[..i + 1] == data[..i] + [data[i]];
    }
    assert data[..|data|] == data;
    crc := Not(crc);
  }

  lemma NothingFed()
    ensures Feed(Zeros(WIDTH), BitsOf([])) == Zeros(WIDTH)
  {
  }

  method ClockByte(start: seq<bool>) returns (crc: seq<bool>)
    requires IsRegister(start)
    ensures crc == Steps(8, start)
  {
    hide Steps;
    crc := start;
    OneStep(start);
    for k := 0 to 8
      invariant IsRegister(crc) && crc == Steps(k, start)
    {
      StepsAdd(k, 1, start);
      OneStep(crc);
      if crc[0] {
        crc := Xor(ShiftLeft(crc), POLYNOMIAL);
      } else {
        crc := ShiftLeft(crc);
      }
    }
  }

  method Check(data: seq<byte>, crcBytes: seq<byte>) returns (ok: bool)
    requires |crcBytes| == 2
    ensures ok == CheckCrc(data, crcBytes)
  {
    var want := BitsOf(crcBytes);
    var got := Crc16(data);
    ok := got == want;
  }

  // ---------------------------------------------------------------- the sender's side

  /** The CRC bytes a sender appends to a block. */
  function CrcBytes(data: seq<byte>): (c: seq<byte>)
    ensures |c| == 2
  {
    var bits := Crc(data);
    ByteValue(bits[..8]);
    ByteValue(bits[8..]);
    [Value(bits[..8]), Value(bits[8..])]
  }

  lemma ByteValue(bits: seq<bool>)
    requires |bits| == 8
    ensures Value(bits) < 256 && LowBits(Value(bits), 8) == bits
  {
    LowBitsOfValue(bits);
    assert Pow(2, 8) == 256;
  }

  /** A block has exactly one CRC: the check accepts the appended bytes and nothing else. */
  lemma CheckExact(data: seq<byte>, c: seq<byte>)
    requires |c| == 2
    ensures CheckCrc(data, c) <==> c == CrcBytes(data)
  {
    hide Crc, LowBits, Value;
    var bits := Crc(data);
    var e := CrcBytes(data);
    ByteValue(bits[..8]);
    ByteValue(bits[8..]);
    assert e[1..] == [e[1]] && [e[1]][1..] == [];
    assert BitsOf(e) == bits[..8] + bits[8..] == bits;
    if CheckCrc(data, c) { BitsDetermineBytes(c, e); }
  }
}
