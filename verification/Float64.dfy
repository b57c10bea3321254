/** Double-precision numbers as far as the timestamp codecs need them: which reals are doubles, and
    that parsing, division and multiplication round to a nearest one. No tie rule is assumed. */
module Float64 {
  const TWO_52: int := 4_503_599_627_370_496
  const TWO_53: int := 2 * TWO_52

  /** x * 2^n */
  function Scale(x: real, n: nat): real {
    if n == 0 then x else 2.0 * Scale(x, n - 1)
  }

  ghost predicate Dyadic(v: real, m: int, n: nat) {
    -TWO_53 <= m <= TWO_53 && n <= 1074 && Scale(v, n) == m as real
  }

  ghost predicate Whole(v: real, m: int, n: nat) {
    -TWO_53 <= m <= TWO_53 && n <= 971 && v == Scale(m as real, n)
  }

  /** A 53-bit integer times or over a power of two. */
  ghost predicate IsDouble(v: real) {
    (exists m, n :: Dyadic(v, m, n)) || (exists m, n :: Whole(v, m, n))
  }

  function Abs(x: real): real { if x < 0.0 then -x else x }

  ghost predicate Rounds(x: real, v: real) {
    IsDouble(v) && forall w :: IsDouble(w) ==> Abs(x - v) <= Abs(x - w)
  }

  /** `rnd` rounds every real to a nearest double. */
  ghost predicate CorrectlyRounded(rnd: real -> real) {
    forall x :: Rounds(x, rnd(x))
  }

  /** `x` lies in the middle between `k` and `k + 1` of the grid of step 2^-n. */
  ghost predicate Halfway(x: real, k: int, n: nat) {
    n <= 1074 && TWO_52 <= k < TWO_53 && Scale(x, n) == k as real + 0.5
  }

  /** Of two neighbouring doubles equally near, `rnd` takes the one with the even significand. */
  ghost predicate TiesToEven(rnd: real -> real) {
    forall x, k, n :: Halfway(x, k, n) ==> Scale(rnd(x), n) == (if k % 2 == 0 then k else k + 1) as real
  }

  /* ---------- scaling is linear ---------- */

  lemma {:induction false} ScaleDiff(x: real, y: real, n: nat)
    ensures Scale(x - y, n) == Scale(x, n) - Scale(y, n)
  {
    if n > 0 { ScaleDiff(x, y, n - 1); }
  }

  lemma {:induction false} ScaleTimes(c: real, x: real, n: nat)
    ensures Scale(c * x, n) == c * Scale(x, n)
  {
    if n > 0 {
      ScaleTimes(c, x, n - 1);
      assert 2.0 * (c * Scale(x, n - 1)) == c * (2.0 * Scale(x, n - 1));
    }
  }

  lemma {:induction false} ScaleMono(x: real, y: real, n: nat)
    ensures x <= y <==> Scale(x, n) <= Scale(y, n)
  {
    if n > 0 { ScaleMono(x, y, n - 1); }
  }

  lemma {:induction false} ScaleAbs(x: real, n: nat)
    ensures Scale(Abs(x), n) == Abs(Scale(x, n))
  {
    if n > 0 { ScaleAbs(x, n - 1); }
  }

  lemma {:induction false} ScaleGrows(x: real, n: nat)
    requires x >= 0.0
    ensures Scale(x, n) >= x
  {
    if n > 0 { ScaleGrows(x, n - 1); }
  }

  lemma {:induction false} ScaleSum(x: real, m: nat, n: nat)
    ensures Scale(x, m + n) == Scale(Scale(x, m), n)
  {
    if n > 0 { ScaleSum(x, m, n - 1); }
  }

  function ScaleInt(i: int, n: nat): (r: int)
    ensures r as real == Scale(i as real, n)
  {
    if n == 0 then i else 2 * ScaleInt(i, n - 1)
  }

  lemma {:induction false} Unscale(y: real, n: nat) returns (x: real)
    ensures Scale(x, n) == y
    decreases n
  {
    if n == 0 { x := y; } else { x := Unscale(y / 2.0, n - 1); }
  }

  /** The powers used below. */
  lemma ScaleValues(x: real)
    ensures Scale(x, 10) == 1024.0 * x
    ensures Scale(x, 43) == 8_796_093_022_208.0 * x
    ensures Scale(x, 46) == 70_368_744_177_664.0 * x
    ensures Scale(x, 47) == 140_737_488_355_328.0 * x
    ensures Scale(x, 52) == 4_503_599_627_370_496.0 * x
  {
    By4096(x);
    ScaleSum(x, 8, 2);
    By256(x);
    By16(Scale(x, 8));
    ScaleSum(x, 12, 12);
    By4096(Scale(x, 12));
    ScaleSum(x, 24, 12);
    By4096(Scale(x, 24));
    ScaleSum(x, 36, 4);
    By16(Scale(x, 36));
    ScaleSum(x, 40, 4);
    By16(Scale(x, 40));
    ScaleSum(x, 44, 4);
    By16(Scale(x, 44));
    ScaleSum(x, 48, 4);
    By16(Scale(x, 48));
  }

  lemma By16(x: real)
    ensures Scale(x, 4) == 16.0 * x && Scale(x, 3) == 8.0 * x && Scale(x, 2) == 4.0 * x
  {
    assert Scale(x, 1) == 2.0 * x;
    assert Scale(x, 2) == 2.0 * Scale(x, 1);
    assert Scale(x, 3) == 2.0 * Scale(x, 2);
  }

  lemma By256(x: real)
    ensures Scale(x, 8) == 256.0 * x
  {
    By16(x);
    ScaleSum(x, 4, 4);
    By16(Scale(x, 4));
  }

  lemma By4096(x: real)
    ensures Scale(x, 12) == 4096.0 * x
  {
    By256(x);
    ScaleSum(x, 8, 4);
    By16(Scale(x, 8));
  }

  /* ---------- rounding ---------- */

  lemma IntIsDouble(i: int)
    requires -TWO_53 <= i <= TWO_53
    ensures IsDouble(i as real)
  {
    assert Dyadic(i as real, i, 0);
  }

  lemma DoubleStays(rnd: real -> real, x: real)
    requires CorrectlyRounded(rnd) && IsDouble(x)
    ensures rnd(x) == x
  {
    assert Rounds(x, rnd(x));
  }

  /** Rounding never crosses a double. */
  lemma RoundingKeepsSide(rnd: real -> real, x: real, d: real)
    requires CorrectlyRounded(rnd) && IsDouble(d)
    ensures x <= d ==> rnd(x) <= d
    ensures d <= x ==> d <= rnd(x)
  {
    assert Rounds(x, rnd(x));
  }

  /** The rounding error is at most half the step of any binary grid the number fits. */
  lemma RoundingError(rnd: real -> real, x: real, n: nat)
    requires CorrectlyRounded(rnd) && n <= 1074
    requires Scale(Abs(x), n) <= (TWO_53 - 1) as real
    ensures Scale(Abs(x - rnd(x)), n) <= 0.5
  {
    var k := (Scale(x, n) + 0.5).Floor;
    var w := Unscale(k as real, n);
    ScaleAbs(x, n);
    assert Dyadic(w, k, n);
    assert Rounds(x, rnd(x)) && IsDouble(w);
    ScaleMono(Abs(x - rnd(x)), Abs(x - w), n);
    ScaleAbs(x - w, n);
    ScaleDiff(x, w, n);
  }

  ghost predicate IsInt(x: real) { x.Floor as real == x }

  /** A double above 2^53 / 2^(n+1) lies on the grid of step 2^-n. */
  lemma LargeDoublesAreCoarse(v: real, n: nat)
    requires IsDouble(v) && v > 0.0 && Scale(v, n + 1) > TWO_53 as real
    ensures IsInt(Scale(v, n))
  {
    if m: int, k: nat :| Dyadic(v, m, k) {
      if k <= n {
        ScaleSum(v, k, n - k);
        assert Scale(v, n) == ScaleInt(m, n - k) as real;
      } else {
        ScaleSum(v, n + 1, k - n - 1);
        ScaleGrows(Scale(v, n + 1), k - n - 1);
        assert false;
      }
    } else {
      var m: int, k: nat :| Whole(v, m, k);
      ScaleSum(m as real, k, n);
      assert Scale(v, n) == ScaleInt(m, k + n) as real;
    }
  }

  /** Between two neighbours of a binary grid as fine as doubles are there, rounding goes to the
      nearer one. */
  lemma RoundsOnGrid(rnd: real -> real, x: real, k: int, n: nat)
    requires CorrectlyRounded(rnd) && n <= 1074 && TWO_52 <= k < TWO_53
    requires k as real <= Scale(x, n) <= (k + 1) as real
    ensures Scale(rnd(x), n) == k as real || Scale(rnd(x), n) == (k + 1) as real
    ensures Scale(x, n) < k as real + 0.5 ==> Scale(rnd(x), n) == k as real
    ensures Scale(x, n) > k as real + 0.5 ==> Scale(rnd(x), n) == (k + 1) as real
  {
    StaysBetween(rnd, x, k, n);
    var lo := GridPoint(x, rnd, k, n);
    var hi := GridPoint(x, rnd, k + 1, n);
    OnGrid(rnd(x), n);
    NearerNeighbour(Scale(x, n), Scale(rnd(x), n).Floor, k);
  }

  lemma StaysBetween(rnd: real -> real, x: real, k: int, n: nat)
    requires CorrectlyRounded(rnd) && n <= 1074 && TWO_52 <= k < TWO_53
    requires k as real <= Scale(x, n) <= (k + 1) as real
    ensures k as real <= Scale(rnd(x), n) <= (k + 1) as real
    ensures IsDouble(rnd(x))
  {
    var lo := GridPoint(x, rnd, k, n);
    var hi := GridPoint(x, rnd, k + 1, n);
    ScaleMono(lo, x, n);
    ScaleMono(x, hi, n);
    RoundingKeepsSide(rnd, x, lo);
    RoundingKeepsSide(rnd, x, hi);
    ScaleMono(lo, rnd(x), n);
    ScaleMono(rnd(x), hi, n);
    assert Rounds(x, rnd(x));
  }

  lemma NearerNeighbour(y: real, v: int, k: int)
    requires k <= v <= k + 1 && k as real <= y <= (k + 1) as real
    requires Abs(y - v as real) <= Abs(y - k as real) && Abs(y - v as real) <= Abs(y - (k + 1) as real)
    ensures v == k || v == k + 1
    ensures y < k as real + 0.5 ==> v == k
    ensures y > k as real + 0.5 ==> v == k + 1
  {
    if v == k {
      assert y - k as real <= (k + 1) as real - y;
    } else {
      assert v == k + 1;
      assert (k + 1) as real - y <= y - k as real;
    }
  }

  /** The rounded value is at least as near as any point of the grid. */
  lemma GridPoint(x: real, rnd: real -> real, k: int, n: nat) returns (w: real)
    requires CorrectlyRounded(rnd) && n <= 1074 && -TWO_53 <= k <= TWO_53
    ensures IsDouble(w) && Scale(w, n) == k as real
    ensures Abs(Scale(x, n) - Scale(rnd(x), n)) <= Abs(Scale(x, n) - k as real)
  {
    w := Unscale(k as real, n);
    assert Dyadic(w, k, n) && IsDouble(w);
    assert Rounds(x, rnd(x));
    assert Abs(x - rnd(x)) <= Abs(x - w);
    ScaleMono(Abs(x - rnd(x)), Abs(x - w), n);
    ScaleAbs(x - rnd(x), n);
    ScaleAbs(x - w, n);
    ScaleDiff(x, rnd(x), n);
    ScaleDiff(x, w, n);
  }

  lemma OnGrid(v: real, n: nat)
    requires IsDouble(v) && Scale(v, n) >= TWO_52 as real
    ensures IsInt(Scale(v, n))
  {
    ScaleZero(n);
    ScaleMono(v, 0.0, n);
    if Scale(v, n) > TWO_52 as real {
      LargeDoublesAreCoarse(v, n);
    }
  }

  lemma {:induction false} ScaleZero(n: nat)
    ensures Scale(0.0, n) == 0.0
  {
    if n > 0 { ScaleZero(n - 1); }
  }

  /* ---------- binary places ---------- */

  /** How often `a` doubles until it reaches `limit`. */
  function Doublings(a: nat, limit: nat): nat
    requires a > 0
    decreases limit - a
  {
    if a >= limit then 0 else 1 + Doublings(2 * a, limit)
  }

  lemma {:induction false} DoublingsFit(a: nat, limit: nat)
    requires 0 < a < 2 * limit
    ensures limit <= ScaleInt(a, Doublings(a, limit)) < 2 * limit
    ensures Doublings(a, limit) > 0 ==> ScaleInt(a, Doublings(a, limit)) % 2 == 0
    decreases limit - a
  {
    if a < limit {
      DoublingsFit(2 * a, limit);
      ScaleIntDouble(a, Doublings(2 * a, limit));
    }
  }

  lemma {:induction false} ScaleIntDouble(i: int, n: nat)
    ensures ScaleInt(2 * i, n) == 2 * ScaleInt(i, n) == ScaleInt(i, n + 1)
  {
    if n > 0 { ScaleIntDouble(i, n - 1); }
  }

  lemma {:induction false} ScaleIntMono(i: int, k: nat, m: nat, n: nat)
    requires 0 < i <= k && m <= n
    ensures 0 < ScaleInt(i, m) <= ScaleInt(k, n)
    decreases n
  {
    if m > 0 {
      ScaleIntMono(i, k, m - 1, n - 1);
    } else if n > 0 {
      ScaleIntMono(i, k, 0, n - 1);
    }
  }

  /** Every number below 2^63 is reached from every positive one in at most 63 doublings. */
  lemma FewDoublings(a: nat, limit: nat)
    requires 0 < a < 2 * limit && limit < 0x4000_0000_0000_0000
    ensures Doublings(a, limit) < 64
  {
    DoublingsFit(a, limit);
    TwoTo63();
    if Doublings(a, limit) >= 64 {
      ScaleIntMono(1, a, 63, Doublings(a, limit));
      assert false;
    }
  }

  lemma TwoTo63()
    ensures ScaleInt(1, 63) == 0x8000_0000_0000_0000
  {
    ScaleValues(1.0);
    ScaleSum(1.0, 52, 10);
    ScaleValues(Scale(1.0, 52));
    assert Scale(1.0, 63) == 2.0 * Scale(1.0, 62);
    assert ScaleInt(1, 63) as real == Scale(1 as real, 63);
  }
}
