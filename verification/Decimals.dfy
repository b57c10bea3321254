/** Decimal text: what the encoders write, what `f64::to_string` prints and how
    `normalize_timestamp` takes it apart. */
module Decimals {
  import opened Common

  function Digit(n: nat): char
    requires n < 10
  {
    "0123456789"[n]
  }

  predicate IsDigit(c: char) { '0' <= c <= '9' }

  /** `{n}` */
  function Digits(n: nat): string {
    if n < 10 then [Digit(n)] else Digits(n / 10) + [Digit(n % 10)]
  }

  /** The last `width` digits of `n`, zero-padded. */
  function Padded(n: nat, width: nat): string {
    if width == 0 then "" else Padded(n / 10, width - 1) + [Digit(n % 10)]
  }

  /** `k` without its last `n` digits. */
  function High(k: nat, n: nat): nat {
    if n == 0 then k else High(k / 10, n - 1)
  }

  /** `k` with `n` zeros appended. */
  function Up(k: nat, n: nat): nat {
    if n == 0 then k else 10 * Up(k, n - 1)
  }

  /** The last `n` digits of `k` as a number. */
  function Low(k: nat, n: nat): nat {
    if n == 0 then 0 else 10 * Low(k / 10, n - 1) + k % 10
  }

  /** The number (-1)^neg * k / 10^scale. */
  datatype Dec = Dec(neg: bool, k: nat, scale: nat)

  function Text(d: Dec): string {
    (if d.neg then "-" else "") + Digits(High(d.k, d.scale))
    + (if d.scale == 0 then "" else "." + Padded(d.k, d.scale))
  }

  /** `str::parse::<u64>`, on text that does not start with `+`. */
  function ParseU64(s: string): Option<nat> {
    if s == "" then None
    else
      match ParseDigits(s)
      case None => None
      case Some(n) => if n <= U64_MAX then Some(n) else None
  }

  function ParseDigits(s: string): Option<nat> {
    if s == "" then Some(0)
    else if !IsDigit(s[|s| - 1]) then None
    else
      match ParseDigits(s[..|s| - 1])
      case None => None
      case Some(n) => Some(10 * n + (s[|s| - 1] as int - '0' as int))
  }

  /** `str::split('.')` */
  function SplitDot(s: string): (r: seq<string>)
    ensures r != []
  {
    if s == "" then [""]
    else
      var rest := SplitDot(s[1..]);
      if s[0] == '.' then [""] + rest else [[s[0]] + rest[0]] + rest[1..]
  }

  /** The end of `normalize_timestamp`: the printed number's parts, each read as an integer. Every
      part must parse; only the first two are used. */
  function Normalize(printed: string): Option<(nat, nat)> {
    var parts := SplitDot(printed);
    if exists i :: 0 <= i < |parts| && ParseU64(parts[i]).None? then None
    else if |parts| > 1 then Some((ParseU64(parts[0]).value, ParseU64(parts[1]).value))
    else Some((ParseU64(parts[0]).value, 0))
  }

  /* ---------- reading back what was printed ---------- */

  lemma {:induction false} DigitsParse(n: nat)
    ensures Digits(n) != "" && ParseDigits(Digits(n)) == Some(n)
    ensures forall i :: 0 <= i < |Digits(n)| ==> IsDigit(Digits(n)[i])
  {
    if n < 10 {
      ParseAppended("", 0, n);
      assert Digits(n) == "" + [Digit(n)];
    } else {
      DigitsParse(n / 10);
      ParseAppended(Digits(n / 10), n / 10, n % 10);
    }
  }

  lemma ParseAppended(s: string, n: nat, d: nat)
    requires d < 10 && ParseDigits(s) == Some(n)
    ensures ParseDigits(s + [Digit(d)]) == Some(10 * n + d) && IsDigit(Digit(d))
  {
    var t := s + [Digit(d)];
    assert t[..|t| - 1] == s && t[|t| - 1] == Digit(d);
    DigitValue(d);
  }

  lemma DigitValue(d: nat)
    requires d < 10
    ensures IsDigit(Digit(d)) && Digit(d) as int - '0' as int == d
  {
  }

  lemma {:induction false} PaddedParse(n: nat, width: nat)
    ensures |Padded(n, width)| == width
    ensures ParseDigits(Padded(n, width)) == Some(Low(n, width))
    ensures forall i :: 0 <= i < width ==> IsDigit(Padded(n, width)[i])
  {
    if width > 0 {
      PaddedParse(n / 10, width - 1);
      ParseAppended(Padded(n / 10, width - 1), Low(n / 10, width - 1), n % 10);
    }
  }

  /** Reading digits fails exactly on a character that is none. */
  lemma {:induction false} ParsesIff(s: string)
    ensures ParseDigits(s).Some? <==> forall i :: 0 <= i < |s| ==> '0' <= s[i] <= '9'
  {
    if s != "" {
      var n := |s| - 1;
      ParsesIff(s[..n]);
      assert forall i :: 0 <= i < n ==> s[..n][i] == s[i];
    }
  }

  lemma {:induction false} SplitWithoutDot(s: string)
    requires forall i :: 0 <= i < |s| ==> s[i] != '.'
    ensures SplitDot(s) == [s]
  {
    if s != "" {
      SplitWithoutDot(s[1..]);
      assert [s[0]] + s[1..] == s;
    }
  }

  lemma {:induction false} SplitAtDot(a: string, b: string)
    requires forall i :: 0 <= i < |a| ==> a[i] != '.'
    ensures SplitDot(a + "." + b) == [a] + SplitDot(b)
  {
    var s := a + "." + b;
    if a == "" {
      assert s[1..] == b;
    } else {
      assert s[1..] == a[1..] + "." + b;
      SplitAtDot(a[1..], b);
      assert [a[0]] + a[1..] == a;
    }
  }

  const U64_MAX: nat := 0xFFFF_FFFF_FFFF_FFFF

  /** Taking a printed non-negative number apart gives its whole part and its fraction digits read as
      an integer: the position of those digits is lost. It is refused exactly when one of the two does
      not fit 64 bits. */
  lemma NormalizeText(d: Dec)
    requires !d.neg
    ensures Normalize(Text(d)) ==
      if High(d.k, d.scale) <= 0xFFFF_FFFF_FFFF_FFFF && Low(d.k, d.scale) <= 0xFFFF_FFFF_FFFF_FFFF
      then Some((High(d.k, d.scale), Low(d.k, d.scale))) else None
    ensures d.k <= U64_MAX ==> Normalize(Text(d)) == Some((High(d.k, d.scale), Low(d.k, d.scale)))
  {
    var whole, frac := Digits(High(d.k, d.scale)), Padded(d.k, d.scale);
    DigitsParse(High(d.k, d.scale));
    PaddedParse(d.k, d.scale);
    DigitsBounded(d.k, d.scale);
    NormalizeParts(whole, frac, d.scale == 0, High(d.k, d.scale), Low(d.k, d.scale));
  }

  /** The two parts make up the number again. */
  lemma {:induction false} PartsMakeUp(k: nat, n: nat)
    ensures Up(High(k, n), n) + Low(k, n) == k
    ensures Low(k, n) < Up(1, n)
  {
    if n > 0 {
      PartsMakeUp(k / 10, n - 1);
    }
  }

  lemma {:induction false} DigitsBounded(k: nat, n: nat)
    ensures High(k, n) <= k && Low(k, n) <= k
  {
    if n > 0 { DigitsBounded(k / 10, n - 1); }
  }

  lemma NormalizeParts(whole: string, frac: string, integral: bool, a: nat, b: nat)
    requires forall i :: 0 <= i < |whole| ==> IsDigit(whole[i])
    requires forall i :: 0 <= i < |frac| ==> IsDigit(frac[i])
    requires whole != "" && (integral <==> frac == "")
    requires ParseDigits(whole) == Some(a) && ParseDigits(frac) == Some(b)
    ensures Normalize("" + whole + (if integral then "" else "." + frac))
            == if a <= U64_MAX && b <= U64_MAX then Some((a, b)) else None
  {
    SplitText(whole, frac, integral);
    NormalizeSplit("" + whole + (if integral then "" else "." + frac), whole, frac, integral, a, b);
  }

  lemma NormalizeSplit(text: string, whole: string, frac: string, integral: bool, a: nat, b: nat)
    requires SplitDot(text) == if integral then [whole] else [whole, frac]
    requires whole != "" && (integral <==> frac == "")
    requires ParseDigits(whole) == Some(a) && ParseDigits(frac) == Some(b)
    ensures Normalize(text) == if a <= U64_MAX && b <= U64_MAX then Some((a, b)) else None
  {
    var parts := SplitDot(text);
    assert ParseU64(parts[0]) == if a <= U64_MAX then Some(a) else None;
    assert !integral ==> ParseU64(parts[1]) == if b <= U64_MAX then Some(b) else None;
  }

  lemma SplitText(whole: string, frac: string, integral: bool)
    requires forall i :: 0 <= i < |whole| ==> IsDigit(whole[i])
    requires forall i :: 0 <= i < |frac| ==> IsDigit(frac[i])
    ensures SplitDot("" + whole + (if integral then "" else "." + frac)) == if integral then [whole] else [whole, frac]
  {
    if integral {
      assert "" + whole + "" == whole;
      SplitWithoutDot(whole);
    } else {
      assert "" + whole + ("." + frac) == whole + "." + frac;
      SplitAtDot(whole, frac);
      SplitWithoutDot(frac);
    }
  }

  /** A printed negative number is refused. */
  lemma NegativeIsRefused(d: Dec)
    requires d.neg
    ensures Normalize(Text(d)).None?
  {
    var digits := Digits(High(d.k, d.scale));
    DigitsParse(High(d.k, d.scale));
    MinusIsNoDigit(digits);
    FirstPart("-" + digits, Padded(d.k, d.scale), d.scale == 0);
    BadFirstPart(Text(d));
  }

  lemma FirstPart(whole: string, frac: string, integral: bool)
    requires forall i :: 0 <= i < |whole| ==> whole[i] != '.'
    ensures SplitDot(whole + (if integral then "" else "." + frac))[0] == whole
  {
    if integral {
      SplitWithoutDot(whole);
      assert whole + "" == whole;
    } else {
      DotBetween(whole, frac);
      SplitAtDot(whole, frac);
      HeadOf(whole, SplitDot(frac));
    }
  }

  lemma DotBetween(a: string, b: string)
    ensures a + ("." + b) == a + "." + b
  {
  }

  lemma HeadOf(a: string, rest: seq<string>)
    ensures ([a] + rest)[0] == a
  {
  }

  lemma BadFirstPart(printed: string)
    requires ParseU64(SplitDot(printed)[0]).None?
    ensures Normalize(printed).None?
  {
  }

  lemma {:induction false} MinusIsNoDigit(s: string)
    ensures ParseDigits("-" + s).None?
  {
    if s != "" {
      assert ("-" + s)[..|s|] == "-" + s[..|s| - 1];
      MinusIsNoDigit(s[..|s| - 1]);
    }
  }
}
