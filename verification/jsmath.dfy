/** The parts of JavaScript number arithmetic the nutrition displays rely on:
    division that may yield positive infinity, and `Math.round`. */
module JsMath {

  /** A non-NaN JavaScript number as the displays see it: a finite value or `Infinity`. */
  datatype Extended = Finite(value: real) | PosInfinity

  /** `Math.round` on a finite value: the nearest integer, halves rounded up. */
  function RoundHalfUp(x: real): (r: int)
    ensures r as real - 0.5 <= x < r as real + 0.5
  {
    (x + 0.5).Floor
  }

  /** `Math.round`: finite values round to the nearest integer; `Infinity` stays `Infinity`. */
  function MathRound(x: Extended): (r: Extended)
    ensures r.PosInfinity? <==> x.PosInfinity?
    ensures r.Finite? ==> r.value.Floor as real == r.value && r.value - 0.5 <= x.value < r.value + 0.5
  {
    match x
    case Finite(v) => Finite(RoundHalfUp(v) as real)
    case PosInfinity => PosInfinity
  }

  /** An integer within half a unit below and less than half above `x` is `Math.round(x)`. */
  lemma RoundHalfUpUnique(x: real, q: int)
    requires q as real - 0.5 <= x < q as real + 0.5
    ensures RoundHalfUp(x) == q
  {
  }

  lemma MulAsReal(a: int, b: int)
    ensures (a * b) as real == a as real * b as real
  {
  }

  /** Bounds on `c` scaled by a positive `p` are bounds on the quotient `c / p`. */
  lemma QuotientBounds(c: real, p: real, lo: real, hi: real)
    requires p > 0.0 && lo * p <= c < hi * p
    ensures lo <= c / p < hi
  {
  }

  /** For whole numbers `c` and `p > 0`, `Math.round(c / p)` is `(2c + p) div (2p)`. */
  lemma RoundedQuotient(c: nat, p: nat)
    requires p > 0
    ensures RoundHalfUp(c as real / p as real) == (2 * c + p) / (2 * p)
  {
    var q := (2 * c + p) / (2 * p);
    var m := (2 * c + p) % (2 * p);
    var qp := q * p;
    assert 2 * c + p == 2 * qp + m && 0 <= m < 2 * p;
    MulAsReal(q, p);
    var lo := q as real - 0.5;
    var hi := q as real + 0.5;
    assert lo * p as real == qp as real - 0.5 * p as real;
    assert hi * p as real == qp as real + 0.5 * p as real;
    QuotientBounds(c as real, p as real, lo, hi);
    RoundHalfUpUnique(c as real / p as real, q);
  }
}
