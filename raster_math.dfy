/** Exact-arithmetic facts about tile counts, intervals and `floor` used by the tile resolver. */
module RasterMath {

  /** `(int) Math.pow(2, d)`: the number of tiles along each axis at depth `d`. */
  function Pow2(d: nat): (r: nat)
    ensures r >= 1
  {
    if d == 0 then 1 else 2 * Pow2(d - 1)
  }

  lemma {:induction false} Pow2Monotone(d: nat, e: nat)
    requires d <= e
    ensures Pow2(d) <= Pow2(e)
  {
    if d < e {
      Pow2Monotone(d, e - 1);
    }
  }

  /** For positive reals, `a / c <= b` exactly when `a / b <= c`. */
  lemma DivSwap(a: real, b: real, c: real)
    requires a > 0.0 && b > 0.0 && c > 0.0
    ensures a / c <= b <==> a / b <= c
  {
    assert a / c <= b <==> a <= b * c;
    assert a / b <= c <==> a <= b * c;
  }

  /** Dividing by a positive number keeps the order. */
  lemma DivMonotone(a: real, b: real, c: real)
    requires c > 0.0 && a <= b
    ensures a / c <= b / c
  {
  }

  /** Dividing by a larger positive number gives a smaller quotient. */
  lemma DivAntitone(a: real, b: real, c: real)
    requires a > 0.0 && 0.0 < b <= c
    ensures a / c <= a / b
  {
    assert a / c * c == a && a / b * b == a;
    if a / b < a / c {
      MulStrict(a / b, a / c, b);
      MulLe(b, c, a / c);
    }
  }

  /** A positive number divided by one no larger than it is at least 1. */
  lemma RatioAtLeastOne(a: real, b: real)
    requires 0.0 < b <= a
    ensures 1.0 <= a / b
  {
    var r := a / b;
    assert r * b == a;
    if r < 1.0 {
      MulStrict(r, 1.0, b);
    }
  }

  /** Multiplying by a positive number keeps a strict order. */
  lemma MulStrict(a: real, b: real, c: real)
    requires c > 0.0 && a < b
    ensures a * c < b * c
  {
  }

  /** `floor(v / iv)` names the interval of width `iv` that holds `v`. */
  lemma FloorIndex(v: real, iv: real) returns (f: int)
    requires iv > 0.0
    ensures f == (v / iv).Floor
    ensures f as real * iv <= v < (f + 1) as real * iv
  {
    var q := v / iv;
    f := q.Floor;
    var g := (f + 1) as real;
    assert q * iv == v;
    MulLe(f as real, q, iv);
    assert q < g;
    MulStrict(q, g, iv);
    assert v < g * iv;
  }

  /** Multiplying by a positive number keeps the order. */
  lemma MulLe(a: real, b: real, c: real)
    requires c > 0.0 && a <= b
    ensures a * c <= b * c
  {
  }

  /** Dividing by the width of one of `p` equal parts of `span` multiplies the fraction of `span` by `p`. */
  lemma DivByPart(off: real, span: real, p: real)
    requires span > 0.0 && p > 0.0
    ensures off / (span / p) == (off / span) * p
  {
    var iv := span / p;
    assert iv * p == span;
    var ratio := off / span;
    assert ratio * span == off;
    assert (ratio * p) * iv == ratio * (p * iv);
    assert (ratio * p) * iv == off;
  }

  /** An offset within a span of `2^d` equal intervals lands in interval `0 .. 2^d`; strictly inside, in `0 .. 2^d - 1`. */
  lemma IndexRange(off: real, span: real, d: nat)
    requires span > 0.0 && 0.0 <= off <= span
    ensures 0 <= (off / (span / Pow2(d) as real)).Floor <= Pow2(d)
    ensures off < span ==> (off / (span / Pow2(d) as real)).Floor < Pow2(d)
  {
    PartIndex(off, span, Pow2(d));
  }

  /** The same for a span of `n` equal intervals. */
  lemma PartIndex(off: real, span: real, n: nat)
    requires span > 0.0 && 0.0 <= off <= span && n > 0
    ensures 0 <= (off / (span / n as real)).Floor <= n
    ensures off < span ==> (off / (span / n as real)).Floor < n
  {
    var p := n as real;
    var ratio := off / span;
    DivByPart(off, span, p);
    UnitRatio(off, span);
    ScaledRatio(ratio, p);
    var x := off / (span / p);
    assert x == ratio * p;
    FloorBounds(x, n);
  }

  /** A part of a positive whole is a fraction between 0 and 1, below 1 when it is a proper part. */
  lemma UnitRatio(off: real, span: real)
    requires span > 0.0 && 0.0 <= off <= span
    ensures 0.0 <= off / span <= 1.0
    ensures off < span ==> off / span < 1.0
  {
    DivMonotone(off, span, span);
    assert span / span == 1.0;
    if off < span {
      var r := off / span;
      assert r * span == off;
      if r >= 1.0 {
        MulLe(1.0, r, span);
      }
    }
  }

  /** A fraction between 0 and 1 of a positive `p` lies between 0 and `p`; below 1, below `p`. */
  lemma ScaledRatio(ratio: real, p: real)
    requires p > 0.0 && 0.0 <= ratio <= 1.0
    ensures 0.0 <= ratio * p <= p
    ensures ratio < 1.0 ==> ratio * p < p
  {
    MulLe(0.0, ratio, p);
    MulLe(ratio, 1.0, p);
    if ratio < 1.0 {
      MulStrict(ratio, 1.0, p);
    }
  }

  /** The floor of a number between 0 and an integer `n` lies between 0 and `n`, and below `n` when the number does. */
  lemma FloorBounds(x: real, n: int)
    requires 0.0 <= x <= n as real
    ensures 0 <= x.Floor <= n
    ensures x < n as real ==> x.Floor < n
  {
  }

  /** A whole span holds exactly `2^d` intervals of width `span / 2^d`. */
  lemma WholeSpan(span: real, d: nat)
    requires span > 0.0
    ensures (span / (span / Pow2(d) as real)).Floor == Pow2(d)
    ensures Pow2(d) as real * (span / Pow2(d) as real) == span
  {
    var p := Pow2(d) as real;
    assert span / (span / p) == p;
  }
}
