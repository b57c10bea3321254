/** The second and millisecond timestamp codecs. An instant is its Unix second and the milliseconds
    within it; 1000 to 1999 milliseconds denote a leap second, as chrono has it. */
module Timestamps {
  import opened Common
  import opened Float64
  import opened Decimals

  function Pow10(n: nat): (p: nat)
    ensures p >= 1
  {
    if n == 0 then 1 else 10 * Pow10(n - 1)
  }

  function Value(d: Dec): real {
    (if d.neg then -(d.k as real) else d.k as real) / Pow10(d.scale) as real
  }

  /** What `f64::to_string` prints for the double `v`: a decimal that parses to `v`, with as few
      fraction digits as any. */
  ghost predicate Prints(rnd: real -> real, v: real, p: Dec) {
    && p.neg == (v < 0.0)
    && rnd(Value(p)) == v
    && forall q: Dec :: q.neg == p.neg && rnd(Value(q)) == v ==> p.scale <= q.scale
  }

  /** Every double that some decimal parses to has a printed form. */
  lemma {:induction false} SomethingIsPrinted(rnd: real -> real, d: Dec) returns (p: Dec)
    requires d.neg == (rnd(Value(d)) < 0.0)
    ensures Prints(rnd, rnd(Value(d)), p)
    decreases d.scale
  {
    if q: Dec :| q.neg == d.neg && rnd(Value(q)) == rnd(Value(d)) && q.scale < d.scale {
      p := SomethingIsPrinted(rnd, q);
    } else {
      p := d;
    }
  }

  /* ---------- seconds ---------- */

  /** The number `serialize_seconds` writes: whole seconds with the leap carried over, and three
      fraction digits unless the milliseconds are zero. */
  function EncodeSeconds(second: int, millis: nat): Dec {
    Written(second + millis / 1000, millis % 1000, millis > 0)
  }

  function Written(whole: int, sub: nat, fraction: bool): Dec {
    var size: nat := if whole < 0 then -whole else whole;
    if fraction then Dec(whole < 0, size * 1000 + sub, 3) else Dec(whole < 0, size, 0)
  }

  /** The text is the format string's: `{whole_seconds}.{subsec_millis:03}`. */
  lemma EncodedText(whole: int, sub: nat, fraction: bool)
    requires sub < 1000
    ensures Text(Written(whole, sub, fraction))
            == (if whole < 0 then "-" else "") + Digits(if whole < 0 then -whole else whole)
               + (if fraction then "." + Padded(sub, 3) else "")
  {
    var size: nat := if whole < 0 then -whole else whole;
    if fraction {
      TextOfThousandths(whole < 0, size, sub);
    } else {
      TextOfWhole(whole < 0, size);
    }
  }

  /** What is written for an instant: a leap second's seconds carried over, three fraction digits unless
      its milliseconds are zero, and of an instant before the epoch the digits of its whole seconds
      behind a minus sign. */
  lemma WrittenText(second: int, millis: nat, whole: int, sub: nat)
    requires || (millis < 1000 && whole == second && sub == millis)
             || (1000 <= millis < 2000 && whole == second + 1 && sub == millis - 1000)
    ensures Text(EncodeSeconds(second, millis)) ==
      (if whole < 0 then "-" else "") + Digits(if whole < 0 then -whole else whole)
      + (if millis == 0 then "" else "." + Padded(sub, 3))
  {
    assert EncodeSeconds(second, millis) == Written(whole, sub, millis > 0);
    EncodedText(whole, sub, millis > 0);
  }

  lemma TextOfThousandths(neg: bool, size: nat, sub: nat)
    requires sub < 1000
    ensures Text(Dec(neg, size * 1000 + sub, 3)) == (if neg then "-" else "") + Digits(size) + ("." + Padded(sub, 3))
  {
    var d := Dec(neg, size * 1000 + sub, 3);
    HighDigits(d.k);
    DivThousand(size, sub);
    PaddedDropsWhole(size, sub);
    TextOfFraction(d, size, Padded(sub, 3));
  }

  lemma TextOfFraction(d: Dec, size: nat, digits: string)
    requires d.scale > 0 && High(d.k, d.scale) == size && Padded(d.k, d.scale) == digits
    ensures Text(d) == (if d.neg then "-" else "") + Digits(size) + ("." + digits)
  {
  }

  lemma TextOfWhole(neg: bool, size: nat)
    ensures Text(Dec(neg, size, 0)) == (if neg then "-" else "") + Digits(size) + ""
  {
  }

  lemma DivThousand(whole: nat, sub: nat)
    requires sub < 1000
    ensures (whole * 1000 + sub) / 1000 == whole && (whole * 1000 + sub) % 1000 == sub
  {
  }

  lemma DivHundred(whole: nat, t: nat)
    requires t < 100
    ensures (100 * whole + t) / 100 == whole && (100 * whole + t) % 100 == t
  {
  }

  lemma UpDigits(k: nat)
    ensures Up(k, 0) == k && Up(k, 1) == 10 * k && Up(k, 2) == 100 * k && Up(k, 3) == 1000 * k
  {
    assert Up(k, 2) == 10 * Up(k, 1);
    assert Up(k, 3) == 10 * Up(k, 2);
  }

  lemma HighDigits(k: nat)
    ensures High(k, 1) == k / 10 && High(k, 2) == k / 100 && High(k, 3) == k / 1000
    ensures Low(k, 1) == k % 10 && Low(k, 2) == k % 100 && Low(k, 3) == k % 1000
  {
    TensAndHundreds(k);
    OneDigit(k);
    OneDigit(k / 10);
    OneDigit(k / 100);
    assert High(k, 2) == High(k / 10, 1) && High(k, 3) == High(k / 10, 2) && High(k / 10, 2) == High(k / 10 / 10, 1);
    assert Low(k / 10, 2) == 10 * Low(k / 10 / 10, 1) + k / 10 % 10;
    assert Low(k, 2) == 10 * Low(k / 10, 1) + k % 10;
    assert Low(k, 3) == 10 * Low(k / 10, 2) + k % 10;
  }

  lemma OneDigit(k: nat)
    ensures High(k, 1) == k / 10 && Low(k, 1) == k % 10
  {
    assert High(k, 1) == High(k / 10, 0) && Low(k, 1) == 10 * Low(k / 10, 0) + k % 10;
  }

  lemma TensAndHundreds(k: nat)
    ensures k / 10 / 10 == k / 100 && k / 100 / 10 == k / 1000
    ensures 10 * (k / 10 % 10) + k % 10 == k % 100
    ensures 100 * (k / 100 % 10) + k % 100 == k % 1000
  {
  }

  lemma Thousand()
    ensures Pow10(1) == 10 && Pow10(2) == 100 && Pow10(3) == 1000
  {
    assert Pow10(1) == 10 * Pow10(0);
    assert Pow10(2) == 10 * Pow10(1);
    assert Pow10(3) == 10 * Pow10(2);
  }

  lemma PaddedDropsWhole(whole: nat, m: nat)
    requires m < 1000
    ensures Padded(whole * 1000 + m, 3) == Padded(m, 3)
  {
    LastDigits(whole, m);
    ThreeDigits(whole * 1000 + m);
    ThreeDigits(m);
  }

  lemma LastDigits(whole: nat, m: nat)
    requires m < 1000
    ensures var k := whole * 1000 + m;
      k % 10 == m % 10 && k / 10 % 10 == m / 10 % 10 && k / 100 % 10 == m / 100 % 10
  {
    var k := whole * 1000 + m;
    ModTen(100 * whole, m);
    assert k / 10 == 10 * (10 * whole) + m / 10;
    ModTen(10 * whole, m / 10);
    assert k / 100 == 10 * whole + m / 100;
    ModTen(whole, m / 100);
  }

  lemma ModTen(a: nat, b: nat)
    ensures (10 * a + b) % 10 == b % 10
  {
  }

  lemma ThreeDigits(k: nat)
    ensures Padded(k, 3) == [Digit(k / 100 % 10), Digit(k / 10 % 10), Digit(k % 10)]
  {
    assert k / 10 / 10 == k / 100;
    assert Padded(k / 100, 1) == Padded(k / 100 / 10, 0) + [Digit(k / 100 % 10)];
    assert Padded(k / 10, 2) == Padded(k / 100, 1) + [Digit(k / 10 % 10)];
    assert Padded(k, 3) == Padded(k / 10, 2) + [Digit(k % 10)];
  }

  /** The first second after every instant that chrono can hold. */
  const SECONDS_END: int := 8_210_266_876_800

  /** `Utc.timestamp_opt(second, nanos).latest()` */
  function TimestampOpt(second: int, nanos: nat): Option<(int, nat)> {
    if -8_334_601_228_800 <= second < SECONDS_END
       && (nanos < 1_000_000_000 || (nanos < 2_000_000_000 && second % 60 == 59))
    then Some((second, nanos)) else None
  }

  /** `deserialize_seconds`, on the number printed for the parsed double. */
  function DecodeSeconds(printed: Dec): Option<(int, nat)> {
    match Normalize(Text(printed))
    case None => None
    case Some((whole, frac)) => TimestampOpt(whole, frac * 1_000_000 % 0x1_0000_0000)
  }

  /** What is read from any printed number: nothing from a negative one or one whose parts do not fit 64
      bits; otherwise the whole part as the second and the fraction digits, as milliseconds cut to 32
      bits of nanoseconds, if chrono has such an instant. */
  lemma DecodeSecondsIs(p: Dec)
    ensures var (whole, nanos) := (High(p.k, p.scale), Low(p.k, p.scale) * 1_000_000 % 0x1_0000_0000);
      DecodeSeconds(p) ==
        if p.neg || whole > 0xFFFF_FFFF_FFFF_FFFF || Low(p.k, p.scale) > 0xFFFF_FFFF_FFFF_FFFF then None
        else if whole < 8_210_266_876_800
                && (nanos < 1_000_000_000 || (nanos < 2_000_000_000 && whole % 60 == 59)) then Some((whole, nanos))
        else None
  {
    if p.neg { NegativeIsRefused(p); } else { NormalizeText(p); }
  }

  /** The milliseconds without their trailing zero digits. */
  function Strip(m: nat): nat {
    if m == 0 || m % 10 != 0 then m else Strip(m / 10)
  }

  /** Two decimals with at most three fraction digits that parse to one double are equal, as far as
      instants go: the doubles there are less than a thousandth apart. */
  lemma SameDouble(rnd: real -> real, x: real, y: real)
    requires CorrectlyRounded(rnd) && 0.0 <= x < (SECONDS_END + 1) as real && 0.0 <= y && rnd(x) == rnd(y)
    ensures -1.0 < 1000.0 * (x - y) < 1.0
  {
    IntIsDouble(SECONDS_END + 1);
    IntIsDouble(SECONDS_END + 2);
    RoundingKeepsSide(rnd, x, (SECONDS_END + 1) as real);
    RoundingKeepsSide(rnd, y, (SECONDS_END + 2) as real);
    ScaleValues(Abs(x));
    ScaleValues(Abs(y));
    RoundingError(rnd, x, 10);
    RoundingError(rnd, y, 10);
    ScaleValues(Abs(x - rnd(x)));
    ScaleValues(Abs(y - rnd(y)));
  }

  /** A number of thousandths is printed as itself, without trailing fraction zeros. */
  lemma ThousandthsPrint(rnd: real -> real, d: Dec, k: nat, p: Dec)
    requires CorrectlyRounded(rnd) && !d.neg && d.scale <= 3 && Value(d) == k as real / 1000.0
    requires k < (SECONDS_END + 1) * 1000 && Prints(rnd, rnd(Value(d)), p)
    ensures !p.neg && p.scale <= 3 && Up(p.k, 3 - p.scale) == k
    ensures p.scale > 0 ==> p.k % 10 != 0
  {
    IntIsDouble(0);
    RoundingKeepsSide(rnd, Value(d), 0.0);
    Thousand();
    assert d.neg == p.neg;
    assert Value(p) == (Up(p.k, 3 - p.scale)) as real / 1000.0 by { Rescale(p); }
    SameDouble(rnd, Value(d), Value(p));
    if p.scale > 0 && p.k % 10 == 0 {
      var q := Dec(false, p.k / 10, p.scale - 1);
      DropZero(p);
      var v := rnd(Value(q));
      assert false;
    }
  }

  lemma Rescale(p: Dec)
    requires !p.neg && p.scale <= 3
    ensures Value(p) == (Up(p.k, 3 - p.scale)) as real / 1000.0
  {
    Thousand();
    UpDigits(p.k);
    match p.scale
    case 0 =>
    case 1 =>
    case 2 =>
    case 3 =>
  }

  lemma DropZero(p: Dec)
    requires !p.neg && 0 < p.scale <= 3 && p.k % 10 == 0
    ensures Value(Dec(false, p.k / 10, p.scale - 1)) == Value(p)
  {
    Rescale(p);
    Rescale(Dec(false, p.k / 10, p.scale - 1));
    UpDigits(p.k);
    UpDigits(p.k / 10);
  }

  /** Encoding an instant and decoding what is written keeps the second (a leap second counts as the
      next one) and reads the millisecond digits without their trailing zeros. Only a leap second in the
      last second that chrono can hold is carried out of range and refused. */
  lemma SecondsRoundTrip(rnd: real -> real, second: int, millis: nat, p: Dec)
    requires CorrectlyRounded(rnd) && millis < 2000 && second < SECONDS_END && 0 <= second + millis / 1000
    requires Prints(rnd, rnd(Value(EncodeSeconds(second, millis))), p)
    ensures DecodeSeconds(p) == if second + millis / 1000 == SECONDS_END then None
                                else Some((second + millis / 1000, Strip(millis % 1000) * 1_000_000))
  {
    var whole, sub := second + millis / 1000, millis % 1000;
    EncodedValue(whole, sub, EncodeSeconds(second, millis));
    ThousandthsPrint(rnd, EncodeSeconds(second, millis), whole * 1000 + sub, p);
    PrintedFits(p, whole, sub);
    NormalizeText(p);
    FractionRead(p, whole, sub);
    StripShrinks(sub);
    DecodeFrom(p, whole, Strip(sub));
  }

  lemma DecodeFrom(p: Dec, whole: nat, frac: nat)
    requires Normalize(Text(p)) == Some((whole, frac)) && whole <= SECONDS_END && frac < 1000
    ensures DecodeSeconds(p) == if whole == SECONDS_END then None else Some((whole, frac * 1_000_000))
  {
  }

  lemma EncodedValue(whole: nat, sub: nat, d: Dec)
    requires d == Dec(false, whole * 1000 + sub, 3) || (d == Dec(false, whole, 0) && sub == 0)
    ensures Value(d) == (whole * 1000 + sub) as real / 1000.0
  {
    Thousand();
    assert Pow10(0) == 1;
  }

  lemma PrintedFits(p: Dec, whole: nat, sub: nat)
    requires p.scale <= 3 && Up(p.k, 3 - p.scale) == whole * 1000 + sub && whole <= SECONDS_END && sub < 1000
    ensures p.k <= U64_MAX
  {
    UpDigits(p.k);
  }

  lemma FractionRead(p: Dec, whole: nat, sub: nat)
    requires sub < 1000 && p.scale <= 3 && Up(p.k, 3 - p.scale) == whole * 1000 + sub
    requires p.scale > 0 ==> p.k % 10 != 0
    ensures High(p.k, p.scale) == whole && Low(p.k, p.scale) == Strip(sub)
  {
    HighDigits(p.k);
    UpDigits(p.k);
    match p.scale
    case 0 => Parts1000(p.k, whole, sub);
    case 1 => StripHundreds(p.k, whole, sub);
    case 2 => StripTens(p.k, whole, sub);
    case 3 => DivThousand(whole, sub);
  }

  lemma Parts1000(k: nat, whole: nat, sub: nat)
    requires 1000 * k == whole * 1000 + sub && sub < 1000
    ensures k == whole && sub == 0
  {
  }

  lemma StripHundreds(k: nat, whole: nat, sub: nat)
    requires 100 * k == whole * 1000 + sub && sub < 1000 && k % 10 != 0
    ensures k / 10 == whole && k % 10 == Strip(sub)
  {
    var t := k - 10 * whole;
    assert sub == 100 * t;
    assert Strip(sub) == Strip(10 * t) == Strip(t);
  }

  lemma StripTens(k: nat, whole: nat, sub: nat)
    requires 10 * k == whole * 1000 + sub && sub < 1000 && k % 10 != 0
    ensures k / 100 == whole && k % 100 == Strip(sub)
  {
    var t := k - 100 * whole;
    assert sub == 10 * t;
    assert Strip(sub) == Strip(t);
    DivHundred(whole, t);
  }

  /** Stripping takes off all trailing zero digits and nothing else. */
  lemma {:induction false} StripIs(m: nat) returns (zeros: nat)
    ensures m == Strip(m) * Pow10(zeros) && (m > 0 ==> Strip(m) % 10 != 0)
  {
    if m == 0 || m % 10 != 0 {
      zeros := 0;
      assert Pow10(0) == 1;
    } else {
      var z := StripIs(m / 10);
      zeros := z + 1;
      TimesTen(Strip(m / 10), Pow10(z));
    }
  }

  lemma TimesTen(a: nat, b: nat)
    ensures a * (10 * b) == 10 * (a * b)
  {
  }

  lemma StripFixed(m: nat)
    ensures Strip(m) == m <==> m == 0 || m % 10 != 0
  {
    if m > 0 && m % 10 == 0 { StripShrinks(m / 10); }
  }

  lemma {:induction false} StripShrinks(m: nat)
    ensures Strip(m) <= m
  {
    if m > 0 && m % 10 == 0 { StripShrinks(m / 10); }
  }

  /** The millisecond survives the round trip exactly when it is 0 or does not end in the digit 0. */
  lemma SecondsRoundTripIff(rnd: real -> real, second: nat, millis: nat, p: Dec)
    requires CorrectlyRounded(rnd) && millis < 1000 && second < SECONDS_END
    requires Prints(rnd, rnd(Value(EncodeSeconds(second, millis))), p)
    ensures DecodeSeconds(p) == Some((second, millis * 1_000_000)) <==> millis == 0 || millis % 10 != 0
  {
    SecondsRoundTrip(rnd, second, millis, p);
    StripFixed(millis);
  }

  /** Whatever is written has a printed form, so the round trips are about every instant. */
  lemma EncodedIsPrinted(rnd: real -> real, second: int, millis: nat) returns (p: Dec)
    requires CorrectlyRounded(rnd)
    ensures Prints(rnd, rnd(Value(EncodeSeconds(second, millis))), p)
  {
    var d := EncodeSeconds(second, millis);
    if second + millis / 1000 < 0 { EncodedBelowZero(second, millis); }
    SignKept(rnd, d, second + millis / 1000);
    p := SomethingIsPrinted(rnd, d);
  }

  /** Rounding a decimal keeps its sign, when a negative one is at most -1. */
  lemma SignKept(rnd: real -> real, d: Dec, whole: int)
    requires CorrectlyRounded(rnd) && (d.neg <==> whole < 0)
    requires whole < 0 ==> Value(d) <= -1.0
    ensures d.neg == (rnd(Value(d)) < 0.0)
  {
    IntIsDouble(0);
    IntIsDouble(-1);
    RoundingKeepsSide(rnd, Value(d), 0.0);
    RoundingKeepsSide(rnd, Value(d), -1.0);
  }

  lemma EncodedBelowZero(second: int, millis: nat)
    requires second + millis / 1000 < 0
    ensures Value(EncodeSeconds(second, millis)) <= -1.0
  {
    var d := EncodeSeconds(second, millis);
    Thousand();
    assert Pow10(0) == 1;
    if millis > 0 {
      assert Value(d) == -(d.k as real) / 1000.0;
    }
  }

  /** An instant before the epoch is written but cannot be read. */
  lemma NegativeSecondsFail(rnd: real -> real, second: int, millis: nat, p: Dec)
    requires CorrectlyRounded(rnd) && second + millis / 1000 < 0
    requires Prints(rnd, rnd(Value(EncodeSeconds(second, millis))), p)
    ensures DecodeSeconds(p).None?
  {
    var d := EncodeSeconds(second, millis);
    EncodedBelowZero(second, millis);
    IntIsDouble(-1);
    RoundingKeepsSide(rnd, Value(d), -1.0);
    NegativeIsRefused(p);
  }

  /* ---------- milliseconds ---------- */

  function EncodeMillis(instant: int): Dec {
    Dec(instant < 0, if instant < 0 then -instant else instant, 0)
  }

  /** `deserialize_milliseconds` after the text: the second and the milliseconds within it. */
  function DecodeWhole(rnd: real -> real, whole: nat): (int, int) {
    var seconds := rnd(rnd(whole as real) / 1000.0);
    var fract := seconds - seconds.Floor as real;
    (seconds.Floor, rnd(fract * 1000.0).Floor)
  }

  datatype Decoded = Instant(second: int, nanos: nat) | Rejected | Panicked

  /** `deserialize_milliseconds`, on the number printed for the parsed double: a fraction part other
      than zero trips the assertion in it. */
  function DecodeMillis(rnd: real -> real, printed: Dec): Decoded {
    match Normalize(Text(printed))
    case None => Rejected
    case Some((whole, frac)) =>
      if frac != 0 then Panicked
      else
        var (second, millis) := DecodeWhole(rnd, whole);
        if millis < 0 then Rejected
        else match TimestampOpt(second, millis * 1_000_000)
             case None => Rejected
             case Some((s, n)) => Instant(s, n)
  }

  /** What is written is the plain decimal number. */
  lemma MillisText(instant: int)
    ensures Text(EncodeMillis(instant)) == if instant < 0 then "-" + Digits(-instant) else Digits(instant)
  {
    TextOfWhole(instant < 0, if instant < 0 then -instant else instant);
  }

  /** The first millisecond after every instant that chrono can hold; all below are doubles. */
  const MILLIS_END: int := 1000 * SECONDS_END

  lemma MillisArePrinted(rnd: real -> real, instant: int) returns (p: Dec)
    requires CorrectlyRounded(rnd)
    ensures Prints(rnd, rnd(Value(EncodeMillis(instant))), p)
  {
    assert Pow10(0) == 1;
    SignKept(rnd, EncodeMillis(instant), instant);
    p := SomethingIsPrinted(rnd, EncodeMillis(instant));
  }

  /** An integer below 2^53 is printed as itself, so the decoder sees the number that was written. */
  lemma IntegersPrint(rnd: real -> real, whole: nat, p: Dec)
    requires CorrectlyRounded(rnd) && whole < TWO_53 && Prints(rnd, rnd(Value(EncodeMillis(whole))), p)
    ensures p == Dec(false, whole, 0)
    ensures Normalize(Text(p)) == Some((whole, 0))
  {
    assert Pow10(0) == 1;
    var d := EncodeMillis(whole);
    assert Value(d) == whole as real;
    WholeIsExact(rnd, whole);
    assert p.scale == 0;
    assert Value(p) == p.k as real;
    IntIsDouble(TWO_53);
    RoundingKeepsSide(rnd, p.k as real, TWO_53 as real);
    if p.k < TWO_53 {
      WholeIsExact(rnd, p.k);
    }
    NormalizeText(p);
  }

  lemma WholeIsExact(rnd: real -> real, whole: nat)
    requires CorrectlyRounded(rnd) && whole <= TWO_53
    ensures rnd(whole as real) == whole as real
  {
    IntIsDouble(whole);
    DoubleStays(rnd, whole as real);
  }

  /** The assertion in the decoder trips exactly on a printed non-negative number whose fraction digits
      are not all zero, and whose parts fit 64 bits, without which it is refused. */
  lemma DecoderPanicsIff(rnd: real -> real, p: Dec)
    ensures DecodeMillis(rnd, p) == Panicked <==>
      && !p.neg && Low(p.k, p.scale) != 0
      && High(p.k, p.scale) <= 0xFFFF_FFFF_FFFF_FFFF && Low(p.k, p.scale) <= 0xFFFF_FFFF_FFFF_FFFF
  {
    if p.neg {
      NegativeIsRefused(p);
    } else {
      NormalizeText(p);
    }
  }

  /** The two roundings of the decoder, bounded. */
  lemma DecodeErrors(rnd: real -> real, whole: nat) returns (s: real, g: real)
    requires CorrectlyRounded(rnd) && whole < MILLIS_END
    ensures s == rnd(whole as real / 1000.0)
    ensures g == (s - (whole / 1000) as real) * 1000.0 && 0.0 <= g < 1000.0
    ensures whole as real - 1000.0 * s == (whole % 1000) as real - g
    ensures -0.49 <= g - (whole % 1000) as real <= 0.49
    ensures DecodeWhole(rnd, whole) == (whole / 1000, rnd(g).Floor)
    ensures 0.0 <= rnd(g) && 17_592_186_044_416.0 * Abs(g - rnd(g)) <= 1.0
  {
    var q, r := whole / 1000, whole % 1000;
    s := QuotientError(rnd, whole, q, r);
    g := (s - q as real) * 1000.0;
    Remainder(s, whole, q, r, g);
    ProductError(rnd, g);
    WholeIsExact(rnd, whole);
    DecodeOf(rnd, whole, s, q);
  }

  lemma Remainder(s: real, whole: nat, q: nat, r: nat, g: real)
    requires whole == 1000 * q + r && r < 1000 && g == (s - q as real) * 1000.0 && s >= q as real
    requires -0.49 <= 1000.0 * s - whole as real <= 0.49
    ensures 0.0 <= g < 1000.0 && whole as real - 1000.0 * s == r as real - g
  {
  }

  lemma DecodeOf(rnd: real -> real, whole: nat, s: real, q: int)
    requires rnd(whole as real) == whole as real && s == rnd(whole as real / 1000.0) && s.Floor == q
    ensures DecodeWhole(rnd, whole) == (q, rnd((s - q as real) * 1000.0).Floor)
  {
  }

  lemma QuotientError(rnd: real -> real, whole: nat, q: nat, r: nat) returns (s: real)
    requires CorrectlyRounded(rnd) && whole < MILLIS_END && whole == 1000 * q + r && r < 1000
    ensures s == rnd(whole as real / 1000.0) && IsDouble(s) && s.Floor == q
    ensures q as real <= s && -0.49 <= 1000.0 * s - whole as real <= 0.49
  {
    var x := whole as real / 1000.0;
    s := rnd(x);
    assert Rounds(x, s);
    ScaleValues(Abs(x));
    RoundingError(rnd, x, 10);
    ScaleValues(Abs(x - s));
    IntIsDouble(q);
    RoundingKeepsSide(rnd, x, q as real);
    assert x == q as real + r as real / 1000.0;
  }

  lemma ProductError(rnd: real -> real, g: real)
    requires CorrectlyRounded(rnd) && 0.0 <= g < 1000.0
    ensures 0.0 <= rnd(g) && 17_592_186_044_416.0 * Abs(g - rnd(g)) <= 1.0
  {
    IntIsDouble(0);
    RoundingKeepsSide(rnd, g, 0.0);
    ScaleValues(Abs(g));
    RoundingError(rnd, g, 43);
    ScaleValues(Abs(g - rnd(g)));
  }

  /** Decoding keeps the second and the millisecond, or the millisecond one less; never more. */
  lemma MillisAtMostOneEarly(rnd: real -> real, whole: nat)
    requires CorrectlyRounded(rnd) && whole < MILLIS_END
    ensures var (second, millis) := DecodeWhole(rnd, whole);
      && second == whole / 1000
      && millis >= 0
      && (millis == whole % 1000 || millis == whole % 1000 - 1)
  {
    var s, g := DecodeErrors(rnd, whole);
  }

  /* ---------- exactly when the millisecond survives ---------- */

  /** The binary places that a double keeps of `whole / 1000`. */
  function QuotientPlaces(whole: nat): nat
    requires whole > 0
  {
    Doublings(whole, 1000 * TWO_52)
  }

  /** What the first rounding has to decide about: thousandths of the last place of `whole / 1000`. */
  function CutOff(whole: nat): nat
    requires whole > 0
  {
    ScaleInt(whole, QuotientPlaces(whole)) % 1000
  }

  /** The binary places of a double just below `r`. */
  function ProductPlaces(r: nat): nat
    requires r > 0
  {
    Doublings(r, TWO_52 + 1)
  }

  /** The second rounding meets the middle between `whole % 1000` and the double below it. */
  predicate Tie(whole: nat) {
    && whole % 1000 != 0
    && ScaleInt(CutOff(whole), ProductPlaces(whole % 1000) + 1) == ScaleInt(1, QuotientPlaces(whole))
  }

  /** The quotient is not rounded down, or by so little that the product is rounded back up. */
  predicate SurvivesMillis(whole: nat) {
    || whole % 1000 == 0
    || CutOff(whole) == 0
    || CutOff(whole) > 500
    || ScaleInt(CutOff(whole), ProductPlaces(whole % 1000) + 1) <= ScaleInt(1, QuotientPlaces(whole))
  }

  lemma PlacesBounded(whole: nat)
    requires 0 < whole < MILLIS_END
    ensures var n := QuotientPlaces(whole);
      && 3 <= n < 64
      && 1000 * TWO_52 <= ScaleInt(whole, n) < 2000 * TWO_52
      && CutOff(whole) != 500
  {
    var n := QuotientPlaces(whole);
    DoublingsFit(whole, 1000 * TWO_52);
    FewDoublings(whole, 1000 * TWO_52);
    assert ScaleInt(whole, 2) == 2 * ScaleInt(whole, 1) == 4 * whole;
    if n < 3 {
      ScaleIntMono(whole, whole, n, 2);
      assert false;
    }
    assert ScaleInt(whole, n) == 2 * ScaleInt(whole, n - 1);
    assert ScaleInt(whole, n - 1) == 2 * ScaleInt(whole, n - 2);
    assert ScaleInt(whole, n - 2) == 2 * ScaleInt(whole, n - 3);
    NoMidpoint(ScaleInt(whole, n - 3));
  }

  lemma NoMidpoint(y: int)
    ensures 8 * y % 1000 != 500
  {
  }

  /** The first rounding, in integers: up or exact when what is cut off is zero or above the middle,
      down by just that otherwise. */
  lemma QuotientRounds(rnd: real -> real, whole: nat, s: real)
    requires CorrectlyRounded(rnd) && 0 < whole < MILLIS_END && s == rnd(whole as real / 1000.0)
    ensures CutOff(whole) == 0 || CutOff(whole) > 500 ==> whole as real <= 1000.0 * s
    ensures 0 < CutOff(whole) <= 500 ==>
              Scale(whole as real - 1000.0 * s, QuotientPlaces(whole)) == CutOff(whole) as real
  {
    var x, n := whole as real / 1000.0, QuotientPlaces(whole);
    PlacesBounded(whole);
    var scaled := ScaleInt(whole, n);
    assert 1000.0 * x == whole as real;
    ScaleTimes(1000.0, x, n);
    assert 1000.0 * Scale(x, n) == scaled as real;
    RoundsOnGrid(rnd, x, scaled / 1000, n);
    ScaleTimes(1000.0, s, n);
    ScaleDiff(whole as real, 1000.0 * s, n);
    ScaleMono(whole as real, 1000.0 * s, n);
  }

  /** The second rounding, for a product `g` short of `r`: up to `r` when `g` lies above the middle
      between `r` and the double below it, under `r` when below the middle. */
  lemma ProductRounds(rnd: real -> real, g: real, r: nat)
    requires CorrectlyRounded(rnd) && 0 < r < 1000 && g < r as real
    ensures var gap := Scale(r as real - g, ProductPlaces(r) + 1);
      && (gap < 1.0 ==> rnd(g) == r as real)
      && (gap == 1.0 && TiesToEven(rnd) ==> rnd(g) == r as real)
      && (gap > 1.0 ==> rnd(g) < r as real)
  {
    var m := ProductPlaces(r);
    DoublingsFit(r, TWO_52 + 1);
    FewDoublings(r, TWO_52 + 1);
    var k := ScaleInt(r, m) - 1;
    ScaleDiff(r as real, g, m);
    ScaleMono(r as real, g, m);
    ScaleMono(r as real, rnd(g), m);
    ScaleMono(rnd(g), r as real, m);
    if Scale(g, m) >= k as real {
      RoundsOnGrid(rnd, g, k, m);
      if Scale(g, m) == k as real + 0.5 { assert Halfway(g, k, m); }
    } else {
      var below := GridPoint(g, rnd, k, m);
      ScaleMono(below, g, m);
      RoundingKeepsSide(rnd, g, below);
      ScaleMono(rnd(g), below, m);
    }
  }

  /** A shortfall of `cut` in the n-th binary place against one in the m-th. */
  lemma CompareScaled(d: real, cut: nat, n: nat, m: nat)
    requires Scale(d, n) == cut as real
    ensures Scale(d, m) <= 1.0 <==> ScaleInt(cut, m) <= ScaleInt(1, n)
    ensures Scale(d, m) < 1.0 <==> ScaleInt(cut, m) < ScaleInt(1, n)
  {
    ScaleSum(d, m, n);
    ScaleSum(d, n, m);
    ScaleMono(Scale(d, m), 1.0, n);
    ScaleMono(1.0, Scale(d, m), n);
    assert Scale(Scale(d, m), n) == ScaleInt(cut, m) as real;
    assert Scale(1.0, n) == ScaleInt(1, n) as real;
  }

  lemma NotBelowStays(rnd: real -> real, g: real, r: nat)
    requires CorrectlyRounded(rnd) && r < 1000 && r as real <= g
    ensures r as real <= rnd(g)
  {
    IntIsDouble(r);
    RoundingKeepsSide(rnd, g, r as real);
  }

  /** The millisecond survives exactly when an integer condition on the instant says so: on every
      correctly rounding arithmetic unless the second rounding meets a tie, and on those too when ties
      go to the even neighbour. */
  lemma MillisExactIff(rnd: real -> real, whole: nat)
    requires CorrectlyRounded(rnd) && whole < MILLIS_END && (whole > 0 && Tie(whole) ==> TiesToEven(rnd))
    ensures DecodeWhole(rnd, whole) == (whole / 1000, whole % 1000) <==> whole == 0 || SurvivesMillis(whole)
  {
    MillisAtMostOneEarly(rnd, whole);
    var g := ProductDecides(rnd, whole);
    FloorDecides(rnd(g), whole % 1000);
  }

  /** What is rounded last reaches the millisecond exactly under the integer condition. */
  lemma ProductDecides(rnd: real -> real, whole: nat) returns (g: real)
    requires CorrectlyRounded(rnd) && whole < MILLIS_END && (whole > 0 && Tie(whole) ==> TiesToEven(rnd))
    ensures DecodeWhole(rnd, whole).1 == rnd(g).Floor
    ensures rnd(g) >= (whole % 1000) as real <==> whole == 0 || SurvivesMillis(whole)
  {
    var s;
    s, g := DecodeErrors(rnd, whole);
    ShortOrNot(rnd, whole, whole % 1000, s, g);
  }

  lemma ShortOrNot(rnd: real -> real, whole: nat, r: nat, s: real, g: real)
    requires CorrectlyRounded(rnd) && whole < MILLIS_END && (whole > 0 && Tie(whole) ==> TiesToEven(rnd))
    requires r == whole % 1000 && s == rnd(whole as real / 1000.0)
    requires whole as real - 1000.0 * s == r as real - g && g >= 0.0
    ensures rnd(g) >= r as real <==> whole == 0 || SurvivesMillis(whole)
  {
    if r as real <= g {
      NotBelowStays(rnd, g, r);
      if r > 0 { NothingCutOff(rnd, whole, s); }
    } else {
      ShortProduct(rnd, whole, s, g);
    }
  }

  lemma FloorDecides(v: real, r: nat)
    ensures v.Floor >= r <==> v >= r as real
  {
  }

  lemma ShortProduct(rnd: real -> real, whole: nat, s: real, g: real)
    requires CorrectlyRounded(rnd) && 0 < whole < MILLIS_END && (Tie(whole) ==> TiesToEven(rnd))
    requires s == rnd(whole as real / 1000.0) && g >= 0.0
    requires whole as real - 1000.0 * s == (whole % 1000) as real - g > 0.0
    ensures rnd(g) <= (whole % 1000) as real
    ensures SurvivesMillis(whole) <==> rnd(g) == (whole % 1000) as real
  {
    var r := whole % 1000;
    PlacesBounded(whole);
    QuotientRounds(rnd, whole, s);
    CompareScaled(r as real - g, CutOff(whole), QuotientPlaces(whole), ProductPlaces(r) + 1);
    ProductRounds(rnd, g, r);
  }

  lemma NothingCutOff(rnd: real -> real, whole: nat, s: real)
    requires CorrectlyRounded(rnd) && 0 < whole < MILLIS_END && s == rnd(whole as real / 1000.0)
    requires whole as real <= 1000.0 * s
    ensures SurvivesMillis(whole)
  {
    QuotientRounds(rnd, whole, s);
    ScaleZero(QuotientPlaces(whole));
    ScaleMono(whole as real - 1000.0 * s, 0.0, QuotientPlaces(whole));
  }

  /** From an instant through its text back to an instant: the same second, and the same millisecond or
      the one before; the same exactly when the integer condition holds. */
  lemma MillisRoundTrip(rnd: real -> real, instant: nat, p: Dec)
    requires CorrectlyRounded(rnd) && TiesToEven(rnd) && instant < MILLIS_END
    requires Prints(rnd, rnd(Value(EncodeMillis(instant))), p)
    ensures DecodeMillis(rnd, p) ==
      Instant(instant / 1000,
              (if instant == 0 || SurvivesMillis(instant) then instant % 1000 else instant % 1000 - 1) * 1_000_000)
  {
    IntegersPrint(rnd, instant, p);
    MillisAtMostOneEarly(rnd, instant);
    MillisExactIff(rnd, instant);
    InstantOf(rnd, instant, DecodeWhole(rnd, instant).1, p);
  }

  lemma InstantOf(rnd: real -> real, whole: nat, millis: nat, p: Dec)
    requires Normalize(Text(p)) == Some((whole, 0)) && whole < MILLIS_END && millis < 1000
    requires DecodeWhole(rnd, whole) == (whole / 1000, millis)
    ensures DecodeMillis(rnd, p) == Instant(whole / 1000, millis * 1_000_000)
  {
  }

  /** An instant before the epoch is written but cannot be read. */
  lemma NegativeMillisFail(rnd: real -> real, instant: int, p: Dec)
    requires CorrectlyRounded(rnd) && instant < 0
    requires Prints(rnd, rnd(Value(EncodeMillis(instant))), p)
    ensures DecodeMillis(rnd, p) == Rejected
  {
    assert Pow10(0) == 1;
    assert Value(EncodeMillis(instant)) <= -1.0;
    IntIsDouble(-1);
    RoundingKeepsSide(rnd, Value(EncodeMillis(instant)), -1.0);
    NegativeIsRefused(p);
  }

  /** Multiples of 125 milliseconds are always exact. */
  lemma EighthsAreExact(rnd: real -> real, whole: nat)
    requires CorrectlyRounded(rnd) && whole < MILLIS_END && whole % 125 == 0
    ensures DecodeWhole(rnd, whole) == (whole / 1000, whole % 1000)
  {
    EighthIsDouble(whole);
    DoubleStays(rnd, whole as real / 1000.0);
    var s, g := DecodeErrors(rnd, whole);
    NotBelowStays(rnd, g, whole % 1000);
    FloorDecides(rnd(g), whole % 1000);
    MillisAtMostOneEarly(rnd, whole);
  }

  lemma EighthIsDouble(whole: nat)
    requires whole < MILLIS_END && whole % 125 == 0
    ensures IsDouble(whole as real / 1000.0)
  {
    var x := whole as real / 1000.0;
    By16(x);
    assert Scale(x, 3) == (whole / 125) as real;
    assert Dyadic(x, whole / 125, 3);
  }

  /** The loss is real: one second and one millisecond decodes to one second, on any correctly rounding
      arithmetic. */
  lemma MillisLosesOne(rnd: real -> real)
    requires CorrectlyRounded(rnd)
    ensures DecodeWhole(rnd, 1001) == (1, 0)
  {
    var s, g := DecodeErrors(rnd, 1001);
    assert s == rnd(1.001);
    NearestTo1001(s, rnd);
    JustUnderOne(rnd, g);
    FloorDecides(rnd(g), 1);
  }

  lemma JustUnderOne(rnd: real -> real, g: real)
    requires CorrectlyRounded(rnd) && g <= 4_503_599_627_370_000.0 / 4_503_599_627_370_496.0
    ensures rnd(g) < 1.0
  {
    var d := 4_503_599_627_370_000.0 / 4_503_599_627_370_496.0;
    ScaleValues(d);
    assert Dyadic(d, 4_503_599_627_370_000, 52);
    RoundingKeepsSide(rnd, g, d);
  }

  /** The double nearest to 1.001 is below it. */
  lemma NearestTo1001(s: real, rnd: real -> real)
    requires CorrectlyRounded(rnd) && s == rnd(1.001)
    ensures s <= 4_508_103_226_997_866.0 / 4_503_599_627_370_496.0
  {
    var w := 4_508_103_226_997_866.0 / 4_503_599_627_370_496.0;
    ScaleValues(w);
    assert Dyadic(w, 4_508_103_226_997_866, 52);
    assert IsDouble(w) && Rounds(1.001, s);
    if s > w {
      assert Abs(1.001 - s) <= Abs(1.001 - w);
      ScaleValues(s);
      assert Scale(s, 53) == 2.0 * Scale(s, 52);
      LargeDoublesAreCoarse(s, 52);
      assert false;
    }
  }
}
