/** Facts about multiplication, division and remainder by a variable that
    the solver does not find unaided. */
module Arith {

  /** Multiplying by a natural number keeps the order. */
  lemma {:induction false} MulMono(a: nat, b: int, c: int)
    requires b <= c
    ensures a * b <= a * c
  {
    if a > 0 {
      MulMono(a - 1, b, c);
    }
  }

  /** Products of natural numbers grow with both factors. */
  lemma MulLe(a: nat, b: nat, c: nat, d: nat)
    requires a <= c && b <= d
    ensures a * b <= c * d
  {
    MulMono(a, b, d);
    MulMono(d, a, c);
  }

  /** Taking one factor off a product: `a n == a + a (n - 1)`. */
  lemma MulPred(a: int, n: int)
    ensures a * n == a + a * (n - 1)
  {
  }

  /** Multiplication distributes over a sum of two counts. */
  lemma MulAdd(a: int, n: int, m: int)
    ensures a * (n + m) == a * n + a * m
  {
  }

  /** A quotient lies between the bounds its dividend is between, scaled. */
  lemma DivBounds(s: int, n: nat, lo: int, hi: int)
    requires n > 0 && n * lo <= s <= n * hi
    ensures lo <= s / n <= hi
  {
    var q := s / n;
    assert n * q <= s < n * q + n;
    if q < lo {
      MulMono(n, q + 1, lo);
    }
    if q > hi {
      MulMono(n, hi + 1, q);
    }
  }

  /** Division by a positive number keeps the order. */
  lemma DivMono(s: int, t: int, n: nat)
    requires n > 0 && s <= t
    ensures s / n <= t / n
  {
    var q, r := s / n, t / n;
    assert n * q <= s < n * q + n;
    assert n * r <= t < n * r + n;
    if q > r {
      MulMono(n, r + 1, q);
    }
  }

  /** A number that is multiplied by `n > 0` and stays strictly between
      `-n` and `n` is 0. */
  lemma MulSmall(n: int, d: int)
    requires n > 0 && -n < n * d < n
    ensures d == 0
  {
    if d >= 1 {
      MulMono(n, 1, d);
    } else if d <= -1 {
      MulMono(n, d, -1);
    }
  }

  /** Quotient and remainder are unique: `q * n + r` with `0 <= r < n`
      divides into `q` and leaves `r`. */
  lemma DivUnique(a: int, n: nat, q: int, r: int)
    requires n > 0 && 0 <= r < n && a == q * n + r
    ensures a / n == q && a % n == r
  {
    var q0, r0 := a / n, a % n;
    assert a == q0 * n + r0 && 0 <= r0 < n;
    assert n * (q - q0) == r0 - r;
    MulSmall(n, q - q0);
  }

  /** Pixel `y * w + x` of a row-major image is column `x` of row `y`. */
  lemma RowMajor(w: nat, y: nat, x: nat)
    requires x < w
    ensures (y * w + x) / w == y && (y * w + x) % w == x
  {
    DivUnique(y * w + x, w, y, x);
  }

  /** An index below `w * h` is in one of the `h` rows. */
  lemma RowOfIndex(k: nat, w: nat, h: nat)
    requires 0 < w && 0 < h && k < w * h
    ensures k / w < h && k % w < w
  {
    DivMono(k, w * h - 1, w);
    assert w * h - 1 == (h - 1) * w + (w - 1);
    DivUnique(w * h - 1, w, h - 1, w - 1);
  }

  /** A row that starts before the last one ends within the image. */
  lemma RowFits(y: nat, w: nat, h: nat)
    requires y < h
    ensures y * w + w <= h * w
  {
    var d := h - (y + 1);
    assert h * w == (y + 1) * w + d * w;
  }
}
