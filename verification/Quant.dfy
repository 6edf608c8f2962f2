/** Choosing scale, zero-point and codes of a group of weights, over the reals. */
module Quant {
  import opened Rounding

  /** DS4Q_GROUP_MAX_EPS. */
  const EPS: real := 0.000000000000001

  /** Weights that are not positive count for nothing. */
  function Weight(w: real): (r: real)
    ensures r >= 0.0
  {
    if w > 0.0 then w else 0.0
  }

  /** What a code decodes to. */
  function Deq(q: int, zp: int, s: real): real {
    (q - zp) as real * s
  }

  function Square(d: real): (r: real)
    ensures r >= 0.0
  {
    d * d
  }

  function Term(x: real, w: real, q: int, zp: int, s: real): real {
    Weight(w) * Square(x - Deq(q, zp, s))
  }

  predicate Sized(x: seq<real>, w: seq<real>, q: seq<int>, n: nat) {
    n <= |x| && n <= |w| && n <= |q|
  }

  /** The weighted squared error of the first n values. */
  function Err(x: seq<real>, w: seq<real>, q: seq<int>, zp: int, s: real, n: nat): real
    requires Sized(x, w, q, n)
  {
    if n == 0 then 0.0 else Err(x, w, q, zp, s, n - 1) + Term(x[n - 1], w[n - 1], q[n - 1], zp, s)
  }

  /** The sums of the refit: of w x a and of w a a, where a is the code less the zero-point. */
  function Numer(x: seq<real>, w: seq<real>, q: seq<int>, zp: int, n: nat): real
    requires Sized(x, w, q, n)
  {
    if n == 0 then 0.0 else Numer(x, w, q, zp, n - 1) + Weight(w[n - 1]) * x[n - 1] * (q[n - 1] - zp) as real
  }

  function Denom(w: seq<real>, q: seq<int>, zp: int, n: nat): real
    requires n <= |w| && n <= |q|
  {
    if n == 0 then 0.0
    else Denom(w, q, zp, n - 1) + Weight(w[n - 1]) * (q[n - 1] - zp) as real * (q[n - 1] - zp) as real
  }

  function Own(x: seq<real>, w: seq<real>, n: nat): real
    requires n <= |x| && n <= |w|
  {
    if n == 0 then 0.0 else Own(x, w, n - 1) + Weight(w[n - 1]) * x[n - 1] * x[n - 1]
  }

  function Parabola(c: real, a: real, b: real, s: real): real {
    c - 2.0 * s * a + s * s * b
  }

  function OwnTerm(x: real, w: real): real {
    Weight(w) * x * x
  }

  function CrossTerm(x: real, w: real, a: real): real {
    Weight(w) * x * a
  }

  function CodeTerm(w: real, a: real): real {
    Weight(w) * a * a
  }

  lemma TermExpands(x: real, w: real, a: real, s: real)
    ensures w * Square(x - a * s) == w * x * x - 2.0 * s * (w * x * a) + s * s * (w * a * a)
  {
    var p := a * s;
    assert Square(x - p) == x * x - 2.0 * (x * p) + p * p;
    assert w * (x * p) == s * (w * x * a);
    assert w * (p * p) == s * s * (w * a * a);
    assert w * Square(x - p) == w * (x * x) - 2.0 * (w * (x * p)) + w * (p * p);
  }

  /** The error of one value as a parabola. */
  lemma TermParabola(x: real, w: real, q: int, zp: int, s: real)
    ensures var a := (q - zp) as real;
      Term(x, w, q, zp, s) == Parabola(OwnTerm(x, w), CrossTerm(x, w, a), CodeTerm(w, a), s)
  {
    TermExpands(x, Weight(w), (q - zp) as real, s);
    hide Square, Weight;
  }

  lemma ParabolaMore(c: real, a: real, b: real, s: real, c': real, a': real, b': real)
    ensures Parabola(c + c', a + a', b + b', s) == Parabola(c, a, b, s) + Parabola(c', a', b', s)
  {
    assert 2.0 * s * (a + a') == 2.0 * s * a + 2.0 * s * a';
    assert s * s * (b + b') == s * s * b + s * s * b';
  }

  lemma SumsStep(x: seq<real>, w: seq<real>, q: seq<int>, zp: int, s: real, n: nat)
    requires Sized(x, w, q, n) && n > 0
    ensures var x', w', a := x[n - 1], w[n - 1], (q[n - 1] - zp) as real;
      && Err(x, w, q, zp, s, n) == Err(x, w, q, zp, s, n - 1) + Term(x', w', q[n - 1], zp, s)
      && Own(x, w, n) == Own(x, w, n - 1) + OwnTerm(x', w')
      && Numer(x, w, q, zp, n) == Numer(x, w, q, zp, n - 1) + CrossTerm(x', w', a)
      && Denom(w, q, zp, n) == Denom(w, q, zp, n - 1) + CodeTerm(w', a)
  {
    hide Term, Weight;
  }

  lemma SumsNone(x: seq<real>, w: seq<real>, q: seq<int>, zp: int, s: real)
    ensures Err(x, w, q, zp, s, 0) == Parabola(Own(x, w, 0), Numer(x, w, q, zp, 0), Denom(w, q, zp, 0), s)
  {
    assert s * s * 0.0 == 0.0;
  }

  /** For fixed codes the error is a parabola in the scale. */
  lemma {:induction false} ErrIsParabola(x: seq<real>, w: seq<real>, q: seq<int>, zp: int, s: real, n: nat)
    requires Sized(x, w, q, n)
    ensures Err(x, w, q, zp, s, n) == Parabola(Own(x, w, n), Numer(x, w, q, zp, n), Denom(w, q, zp, n), s)
  {
    hide Err, Own, Numer, Denom, Parabola, Term, OwnTerm, CrossTerm, CodeTerm;
    if n > 0 {
      ErrIsParabola(x, w, q, zp, s, n - 1);
      var x', w', a := x[n - 1], w[n - 1], (q[n - 1] - zp) as real;
      SumsStep(x, w, q, zp, s, n);
      TermParabola(x', w', q[n - 1], zp, s);
      ParabolaMore(Own(x, w, n - 1), Numer(x, w, q, zp, n - 1), Denom(w, q, zp, n - 1), s, OwnTerm(x', w'),
                   CrossTerm(x', w', a), CodeTerm(w', a));
    } else {
      SumsNone(x, w, q, zp, s);
    }
  }

  lemma Lowest(c: real, a: real, b: real, s: real)
    requires b > 0.0
    ensures Parabola(c, a, b, a / b) <= Parabola(c, a, b, s)
  {
    var r := a / b;
    assert a == r * b;
    var d := s - r;
    assert b * (d * d) >= 0.0;
    assert b * (d * d) == s * s * b - 2.0 * s * (r * b) + r * (r * b);
    assert r * r * b == r * (r * b);
  }

  /** Refitting the scale to the codes never makes the error larger, whatever the scale was. */
  lemma RefitBetter(x: seq<real>, w: seq<real>, q: seq<int>, zp: int, s: real, n: nat)
    requires Sized(x, w, q, n) && Denom(w, q, zp, n) > 0.0
    ensures Err(x, w, q, zp, Numer(x, w, q, zp, n) / Denom(w, q, zp, n), n) <= Err(x, w, q, zp, s, n)
  {
    var a, b := Numer(x, w, q, zp, n), Denom(w, q, zp, n);
    ErrIsParabola(x, w, q, zp, s, n);
    ErrIsParabola(x, w, q, zp, a / b, n);
    Lowest(Own(x, w, n), a, b, s);
  }

  function Clamp(k: int, qmax: int): int {
    if k < 0 then 0 else if k > qmax then qmax else k
  }

  function Inverse(s: real): real
    requires s != 0.0
  {
    1.0 / s
  }

  /** The value in units of the scale, with the zero-point added. */
  function Shifted(x: real, inv: real, zp: int): real {
    x * inv + zp as real
  }

  function Units(x: real, s: real, zp: int): real
    requires s != 0.0
  {
    Shifted(x, Inverse(s), zp)
  }

  function CodeOf(x: real, s: real, zp: int, qmax: int): (q: int)
    requires s != 0.0
    ensures qmax >= 0 ==> 0 <= q <= qmax
  {
    Clamp(Nearest(Units(x, s, zp)), qmax)
  }

  predicate InRange(q: seq<int>, qmax: int) {
    forall i :: 0 <= i < |q| ==> 0 <= q[i] <= qmax
  }

  /** No code in range is nearer to a number than the clamped rounding of it. */
  lemma ClampNearest(t: real, j: int, qmax: int)
    requires 0 <= j <= qmax
    ensures Abs(t - Clamp(Nearest(t), qmax) as real) <= Abs(t - j as real)
  {
    var k := Nearest(t);
    NearestClose(t);
    hide Nearest;
    if j < k {
      assert j as real + 1.0 <= k as real;
    } else if j > k {
      assert j as real >= k as real + 1.0;
    }
  }

  lemma AbsSquare(a: real)
    ensures Square(a) == Prod(Abs(a), Abs(a)) && Abs(a) >= 0.0
  {
  }

  lemma ProdOrder(x: real, y: real, k: real)
    requires x <= y && k >= 0.0
    ensures Prod(x, k) <= Prod(y, k) && Prod(k, x) == Prod(x, k) && Prod(k, y) == Prod(y, k)
  {
    Scaled(x, y, k);
  }

  lemma AbsSquares(a: real, b: real)
    requires Abs(a) <= Abs(b)
    ensures Square(a) <= Square(b)
  {
    hide *;
    AbsSquare(a);
    AbsSquare(b);
    ProdOrder(Abs(a), Abs(b), Abs(a));
    ProdOrder(Abs(a), Abs(b), Abs(b));
  }

  lemma SquareOfProd(a: real, s: real)
    ensures Square(Prod(a, s)) == Square(s) * Square(a)
  {
    assert (a * s) * (a * s) == (s * s) * (a * a);
  }

  lemma SquareMonotone(a: real, b: real, s: real)
    requires Abs(a) <= Abs(b)
    ensures Square(Prod(a, s)) <= Square(Prod(b, s))
  {
    AbsSquares(a, b);
    SquareOfProd(a, s);
    SquareOfProd(b, s);
    hide *;
    Scaled(Square(a), Square(b), Square(s));
  }

  lemma Scaled(a: real, b: real, k: real)
    requires a <= b && k >= 0.0
    ensures k * a <= k * b
  {
  }

  /** Of all codes in range the rounded one has the smallest error. */
  lemma CodeBest(x: real, s: real, zp: int, qmax: int, j: int)
    requires s > 0.0 && 0 <= j <= qmax
    ensures Square(x - Deq(CodeOf(x, s, zp, qmax), zp, s)) <= Square(x - Deq(j, zp, s))
  {
    var t := Units(x, s, zp);
    var k := CodeOf(x, s, zp, qmax);
    assert k == Clamp(Nearest(t), qmax);
    hide *;
    ClampNearest(t, j, qmax);
    InUnits(x, s, zp, k);
    InUnits(x, s, zp, j);
    SquareMonotone(t - k as real, t - j as real, s);
  }

  lemma InUnits(x: real, s: real, zp: int, k: int)
    requires s > 0.0
    ensures x - Deq(k, zp, s) == Prod(Units(x, s, zp) - k as real, s)
  {
    var u := x * (1.0 / s);
    assert u * s == x by {
      assert (1.0 / s) * s == 1.0;
      assert u * s == x * ((1.0 / s) * s);
    }
    var d := (k - zp) as real;
    assert (u - d) * s == u * s - d * s;
  }

  ghost predicate Rounded(x: seq<real>, q: seq<int>, zp: int, s: real, qmax: int, n: nat) {
    s != 0.0 && n <= |x| && n <= |q| && forall i :: 0 <= i < n ==> q[i] == CodeOf(x[i], s, zp, qmax)
  }

  /** Assigning codes by rounding never makes the error larger, whatever the codes were. */
  lemma {:induction false} AssignBetter(x: seq<real>, w: seq<real>, q: seq<int>, c: seq<int>, zp: int, s: real,
                                        qmax: int, n: nat)
    requires Sized(x, w, q, n) && Sized(x, w, c, n) && s > 0.0
    requires Rounded(x, q, zp, s, qmax, n) && InRange(c, qmax)
    ensures Err(x, w, q, zp, s, n) <= Err(x, w, c, zp, s, n)
  {
    if n > 0 {
      AssignBetter(x, w, q, c, zp, s, qmax, n - 1);
      hide Term, CodeOf;
      TermBest(x[n - 1], w[n - 1], s, zp, qmax, c[n - 1]);
    }
  }

  lemma TermBest(x: real, w: real, s: real, zp: int, qmax: int, j: int)
    requires s > 0.0 && 0 <= j <= qmax
    ensures Term(x, w, CodeOf(x, s, zp, qmax), zp, s) <= Term(x, w, j, zp, s)
  {
    CodeBest(x, s, zp, qmax, j);
    var q := CodeOf(x, s, zp, qmax);
    Scaled(Square(x - Deq(q, zp, s)), Square(x - Deq(j, zp, s)), Weight(w));
  }
}
