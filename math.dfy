/**
 * Integer facts shared by the filters and the codec: the integer square root
 * that the edge operators compute through `sqrt` followed by a truncating
 * cast, and the small non-linear steps the flat-index arithmetic needs.
 */
module Math {

  function Min(a: int, b: int): int { if a <= b then a else b }

  function Max(a: int, b: int): int { if a <= b then b else a }

  /** Floor of the square root of `n`. */
  function ISqrt(n: nat): (r: nat)
    ensures r * r <= n < (r + 1) * (r + 1)
    decreases n
  {
    if n < 4 then
      (if n == 0 then 0 else 1)
    else
      var q := ISqrt(n / 4);
      HalvedRoot(n, q);
      var s := 2 * q;
      if (s + 1) * (s + 1) <= n then s + 1 else s
  }

  /** Doubling the root of `n / 4` brackets the root of `n` within one. */
  lemma HalvedRoot(n: nat, q: nat)
    requires q * q <= n / 4 < (q + 1) * (q + 1)
    ensures (2 * q) * (2 * q) <= n < (2 * q + 2) * (2 * q + 2)
  {
    var m := n / 4;
    var a := q * q;
    var b := (q + 1) * (q + 1);
    assert (2 * q) * (2 * q) == 4 * a;
    assert (2 * q + 2) * (2 * q + 2) == 4 * b;
    assert a + 1 <= b;
  }

  lemma SquareMonotone(a: nat, b: nat)
    requires a <= b
    ensures a * a <= b * b
  {
    MulMonotone(a, b, a);
    MulMonotone(a, b, b);
  }

  /** The square root is unique: any `r` bracketing `n` is `ISqrt(n)`. */
  lemma ISqrtUnique(n: nat, r: nat)
    requires r * r <= n < (r + 1) * (r + 1)
    ensures ISqrt(n) == r
  {
    var s := ISqrt(n);
    if s < r {
      SquareMonotone(s + 1, r);
    } else if r < s {
      SquareMonotone(r + 1, s);
    }
  }

  /** A square is never negative, and is 0 only for 0. */
  lemma SquareSign(d: int)
    ensures d * d >= 0
    ensures d * d == 0 <==> d == 0
  {
    if d < 0 {
      MulMonotone(1, -d, -d);
    } else if d > 0 {
      MulMonotone(1, d, d);
    }
  }

  /** A length between `q` and `q + 1` multiples of `n` divides by `n` to `q`. */
  lemma DivBetween(len: nat, n: nat, q: nat)
    requires n > 0 && q * n <= len < q * n + n
    ensures len / n == q
  {
    var d := len / n;
    assert len == d * n + len % n;
    if d < q {
      MulStrict(d, q, n);
    } else if q < d {
      MulStrict(q, d, n);
    }
  }

  lemma MulMonotone(a: nat, b: nat, c: nat)
    requires a <= b
    ensures a * c <= b * c
    ensures c * a <= c * b
  {
  }

  /** `a < b` rows of width `w` end before `b` rows do. */
  lemma MulStrict(a: nat, b: nat, w: nat)
    requires a < b && w > 0
    ensures a * w + w <= b * w
  {
    assert b * w == a * w + (b - a) * w;
    MulMonotone(1, b - a, w);
  }
}
