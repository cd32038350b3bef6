/** Timestamps of the date and date-and-time units (datetime.go). */
module Dates {
  import opened Bytes

  /** A calendar moment, in whatever zone the meter keeps. */
  datatype Moment = Moment(year: nat, month: nat, day: nat, hour: nat, minute: nat, second: nat)

  /** Unusable stamps cost the record its time, not its raw bits. */
  datatype Stamp = Time(m: Moment) | InvalidTime | UnsupportedTime

  /** VIF 6Ch is always type G; under 6Dh the width picks type F or type I. */
  datatype Format = NoDate | TypeG | DateAndTime

  const EPOCH: nat := 2000

  // ---------------------------------------------------------------- the calendar

  predicate IsLeap(year: nat) { year % 4 == 0 && (year % 100 != 0 || year % 400 == 0) }

  function DaysIn(year: nat, month: nat): nat {
    if month == 2 then (if IsLeap(year) then 29 else 28)
    else if month in {4, 6, 9, 11} then 30
    else 31
  }

  /** The moments a meter can mean: real ones of the 128 years a field spans. */
  predicate IsReal(m: Moment) {
    && EPOCH <= m.year < EPOCH + 128
    && 1 <= m.month <= 12 && 1 <= m.day <= DaysIn(m.year, m.month)
    && m.hour <= 23 && m.minute <= 59 && m.second <= 59
  }

  /** The library rolls a day past the end of its month into the next one. */
  function Normalised(year: nat, month: nat, day: nat): (nat, nat) {
    if day <= DaysIn(year, month) then (month, day)
    else (if month == 12 then 1 else month + 1, day - DaysIn(year, month))
  }

  // ---------------------------------------------------------------- the decoders

  function Assemble(year: nat, month: nat, day: nat, hour: nat, minute: nat, second: nat): Stamp {
    if month < 1 || month > 12 then InvalidTime
    else if day < 1 then InvalidTime
    else if hour > 23 then InvalidTime
    else if minute > 59 then InvalidTime
    else if second > 59 then InvalidTime
    else if Normalised(EPOCH + year, month, day) != (month, day) then InvalidTime
    else Time(Moment(EPOCH + year, month, day, hour, minute, second))
  }

  /** The year is split over the top bits of two bytes. */
  function Year(lo: byte, hi: byte): (y: nat)
    ensures y == lo / 32 + 8 * (hi / 16) && y < 128
  {
    var low: nat, high: nat := lo / 32, hi / 16;
    assert Pow(2, 3) == 8;
    BitOrDisjoint(low, high, 3);
    BitOr(low, high * 8)
  }

  function DecodeTypeG(b: seq<byte>): Stamp
    requires |b| == 2
  {
    Assemble(Year(b[0], b[1]), b[1] % 16, b[0] % 32, 0, 0, 0)
  }

  function DecodeTypeF(b: seq<byte>): (Stamp, bool)
    requires |b| == 4
  {
    var summer := b[1] >= 128;
    if b[0] >= 128 then (InvalidTime, summer)
    else (Assemble(Year(b[2], b[3]), b[3] % 16, b[2] % 32, b[1] % 32, b[0] % 64, 0), summer)
  }

  function DecodeTypeI(b: seq<byte>): (Stamp, bool)
    requires |b| == 6
  {
    (Assemble(Year(b[3], b[4]), b[4] % 16, b[3] % 32, b[2] % 32, b[1] % 64, b[0] % 64), b[1] / 64 % 2 == 1)
  }

  function ReadStamp(f: Format, b: seq<byte>): (Stamp, bool) {
    if f == TypeG && |b| == 2 then (DecodeTypeG(b), false)
    else if f == DateAndTime && |b| == 4 then DecodeTypeF(b)
    else if f == DateAndTime && |b| == 6 then DecodeTypeI(b)
    else (UnsupportedTime, false)
  }

  // ---------------------------------------------------------------- the encoders they invert

  function EncodeDate(m: Moment): (b: seq<byte>)
    requires IsReal(m)
    ensures |b| == 2
  {
    var y := m.year - EPOCH;
    [m.day + y % 8 * 32, m.month + y / 8 * 16]
  }

  /** What a meter sends for a moment; the width picks the type. */
  function EncodeStamp(width: nat, m: Moment, summer: bool): (b: seq<byte>)
    requires IsReal(m) && width in {2, 4, 6}
    ensures |b| == width
  {
    if width == 2 then EncodeDate(m)
    else if width == 4 then [m.minute, m.hour + if summer then 128 else 0] + EncodeDate(m)
    else [m.second, m.minute + if summer then 64 else 0, m.hour] + EncodeDate(m) + [0]
  }

  /** Which moments a width can say. */
  predicate Says(f: Format, width: nat, m: Moment, summer: bool) {
    && IsReal(m)
    && match width
       case 2 => f == TypeG && m.hour == 0 && m.minute == 0 && m.second == 0 && !summer
       case 4 => f == DateAndTime && m.second == 0
       case 6 => f == DateAndTime
       case _ => false
  }

  // ---------------------------------------------------------------- theorems

  /** Comparing against the normalised date rejects exactly the days a month does not have. */
  lemma AssembleExact(year: nat, month: nat, day: nat, hour: nat, minute: nat, second: nat, m: Moment)
    requires year < 128 && day < 32
    ensures Assemble(year, month, day, hour, minute, second) == Time(m)
      <==> m == Moment(EPOCH + year, month, day, hour, minute, second) && IsReal(m)
  {
  }

  /** The two date bytes hold every bit of a date: they are the date exactly when they are its encoding. */
  lemma DateExact(lo: byte, hi: byte, m: Moment)
    requires IsReal(m)
    ensures [lo, hi] == EncodeDate(m)
      <==> EPOCH + Year(lo, hi) == m.year && hi % 16 == m.month && lo % 32 == m.day
  {
    hide IsReal, Year, EncodeDate;
    DateParts(m);
    var e := EncodeDate(m);
    assert [e[0], e[1]] == e;
    assert lo == 32 * (lo / 32) + lo % 32 && hi == 16 * (hi / 16) + hi % 16;
    if EPOCH + Year(lo, hi) == m.year { SplitYear(lo / 32, hi / 16, e[0] / 32, e[1] / 16); }
  }

  lemma DateParts(m: Moment)
    requires IsReal(m)
    ensures var e := EncodeDate(m);
      && e[0] % 32 == m.day && e[1] % 16 == m.month && EPOCH + e[0] / 32 + 8 * (e[1] / 16) == m.year
      && e[0] == 32 * (e[0] / 32) + m.day && e[1] == 16 * (e[1] / 16) + m.month
  {
    var y := m.year - EPOCH;
    assert y == 8 * (y / 8) + y % 8;
  }

  lemma SplitYear(a: nat, b: nat, c: nat, d: nat)
    requires a < 8 && c < 8 && a + 8 * b == c + 8 * d
    ensures a == c && b == d
  {
  }

  lemma TypeGExact(b: seq<byte>, m: Moment)
    requires |b| == 2
    ensures DecodeTypeG(b) == Time(m) <==> Says(TypeG, 2, m, false) && b == EncodeDate(m)
  {
    hide Assemble, Year, EncodeDate, IsReal;
    AssembleExact(Year(b[0], b[1]), b[1] % 16, b[0] % 32, 0, 0, 0, m);
    if IsReal(m) { DateExact(b[0], b[1], m); }
    assert b == [b[0], b[1]];
  }

  /** Bit 6 of the minutes and bits 5 and 6 of the hours are ignored; bit 7 of the minutes invalidates. */
  lemma TypeFExact(b: seq<byte>, m: Moment, summer: bool)
    requires |b| == 4
    ensures DecodeTypeF(b) == (Time(m), summer)
      <==> Says(DateAndTime, 4, m, summer) && b[2..] == EncodeDate(m)
           && b[0] < 128 && b[0] % 64 == m.minute && b[1] % 32 == m.hour && (b[1] >= 128 <==> summer)
  {
    hide Assemble, Year, EncodeDate, IsReal;
    AssembleExact(Year(b[2], b[3]), b[3] % 16, b[2] % 32, b[1] % 32, b[0] % 64, 0, m);
    if IsReal(m) { DateExact(b[2], b[3], m); }
    assert b[2..] == [b[2], b[3]];
  }

  /** The last byte, week and weekday, is ignored. */
  lemma TypeIExact(b: seq<byte>, m: Moment, summer: bool)
    requires |b| == 6
    ensures DecodeTypeI(b) == (Time(m), summer)
      <==> Says(DateAndTime, 6, m, summer) && b[3..5] == EncodeDate(m)
           && b[0] % 64 == m.second && b[1] % 64 == m.minute && b[2] % 32 == m.hour && (b[1] / 64 % 2 == 1 <==> summer)
  {
    hide Assemble, Year, EncodeDate, IsReal;
    AssembleExact(Year(b[3], b[4]), b[4] % 16, b[3] % 32, b[2] % 32, b[1] % 64, b[0] % 64, m);
    if IsReal(m) { DateExact(b[3], b[4], m); }
    assert b[3..5] == [b[3], b[4]];
  }

  /** Every moment a width can say is read back from its encoding, with the summer-time flag. */
  lemma StampRoundTrip(f: Format, width: nat, m: Moment, summer: bool)
    requires Says(f, width, m, summer)
    ensures ReadStamp(f, EncodeStamp(width, m, summer)) == (Time(m), summer)
  {
    hide EncodeDate, DecodeTypeG, DecodeTypeF, DecodeTypeI;
    var b := EncodeStamp(width, m, summer);
    if width == 2 {
      TypeGExact(b, m);
    } else if width == 4 {
      assert b[2..] == EncodeDate(m);
      TypeFExact(b, m, summer);
    } else {
      assert b[3..5] == EncodeDate(m);
      TypeIExact(b, m, summer);
    }
  }
}
