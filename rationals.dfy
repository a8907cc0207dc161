/** Exact rationals, the least common multiple of their denominators, and
    null vectors of an integer matrix: what the balancer takes from sympy
    after it has built its table (Code.py.PY:138-143). Only the contract of
    `Matrix.nullspace` is modelled: every vector it returns is a null vector
    of the matrix it was given. */
module Rationals {

  type Positive = n: int | n > 0 witness 1

  /** A sympy Rational `p/q`; `den` is its `q`, always positive. */
  datatype Rat = Rat(num: int, den: Positive)

  function Value(q: Rat): real
  {
    q.num as real / q.den as real
  }

  /** Euclid's greatest common divisor. */
  function Gcd(a: nat, b: nat): nat
    decreases b
  {
    if b == 0 then a else Gcd(b, a % b)
  }

  /** sympy keeps every Rational in lowest terms: `gcd(|p|, q) == 1`, and
      zero is `0/1`. */
  predicate Reduced(q: Rat)
  {
    Gcd(if q.num < 0 then -q.num else q.num, q.den) == 1
  }

  predicate AllReduced(v: seq<Rat>)
  {
    forall k :: 0 <= k < |v| ==> Reduced(v[k])
  }

  /** Some entry is not zero. Each vector of sympy's null-space basis has a 1
      at its own free variable. */
  predicate NonZero(v: seq<Rat>)
  {
    exists j :: 0 <= j < |v| && v[j].num != 0
  }

  /** `d` divides `n`. */
  predicate Divides(d: Positive, n: int)
  {
    n % d == 0
  }

  lemma MultipleDivides(d: Positive, k: int)
    ensures Divides(d, d * k) && Divides(d, k * d)
  {
    var q, r := (d * k) / d, (d * k) % d;
    assert d * k == d * q + r && 0 <= r < d;
    var t := k - q;
    assert r == d * t;
    if t >= 1 {
      AtLeastOnce(d, t);
    } else if t <= -1 {
      AtLeastOnce(d, -t);
    }
    assert d * k == k * d;
  }

  lemma {:induction false} AtLeastOnce(d: int, t: int)
    requires d > 0 && t >= 1
    ensures d * t >= d && d * -t <= -d
    decreases t
  {
    if t > 1 {
      AtLeastOnce(d, t - 1);
      assert d * t == d * (t - 1) + d;
      assert d * -t == d * -(t - 1) - d;
    }
  }

  /** The first multiple `k * a`, from `k` upwards, that `b` divides; it is
      reached by `k == b` at the latest. */
  function LcmFrom(a: Positive, b: Positive, k: Positive): (m: Positive)
    requires k <= b
    decreases b - k
  {
    if (k * a) % b == 0 then k * a
    else
      MultipleDivides(b, a);
      assert k != b;
      LcmFrom(a, b, k + 1)
  }

  /** The least common multiple of two positive integers. */
  function Lcm(a: Positive, b: Positive): (m: Positive)
  {
    LcmFrom(a, b, 1)
  }

  lemma {:induction false} LcmFromFacts(a: Positive, b: Positive, k: Positive)
    requires k <= b
    ensures Divides(a, LcmFrom(a, b, k)) && Divides(b, LcmFrom(a, b, k))
    ensures forall j: int {:trigger j * a} :: k <= j && j * a < LcmFrom(a, b, k) ==> !Divides(b, j * a)
    decreases b - k
  {
    if (k * a) % b == 0 {
      MultipleDivides(a, k);
    } else {
      MultipleDivides(b, a);
      LcmFromFacts(a, b, k + 1);
    }
  }

  /** Differences and multiples of common multiples are common multiples. */
  lemma CombineMultiples(d: Positive, x: int, y: int, q: int)
    requires Divides(d, x) && Divides(d, y)
    ensures Divides(d, x - q * y)
  {
    var i, j := x / d, y / d;
    assert x == d * i && y == d * j;
    assert x - q * y == d * (i - q * j);
    MultipleDivides(d, i - q * j);
  }

  /** Lcm is a common multiple, and it divides every common multiple: it is
      the least one. */
  lemma LcmIsLeast(a: Positive, b: Positive, n: int)
    ensures Divides(a, Lcm(a, b)) && Divides(b, Lcm(a, b))
    ensures Divides(a, n) && Divides(b, n) ==> Divides(Lcm(a, b), n)
  {
    var l := Lcm(a, b);
    LcmFromFacts(a, b, 1);
    if Divides(a, n) && Divides(b, n) {
      var q, r := n / l, n % l;
      assert n == q * l + r && 0 <= r < l;
      CombineMultiples(a, n, l, q);
      CombineMultiples(b, n, l, q);
      if r > 0 {
        LcmMinimal(a, b, r);
      }
    }
  }

  /** No common multiple lies strictly between 0 and Lcm. */
  lemma LcmMinimal(a: Positive, b: Positive, r: int)
    requires 0 < r < Lcm(a, b) && Divides(a, r)
    ensures !Divides(b, r)
  {
    LcmFromFacts(a, b, 1);
    var j := r / a;
    assert r == j * a;
  }

  /** sympy's `lcm` of a list: 1 for the empty list. */
  function ListLcm(ds: seq<Positive>): (m: Positive)
  {
    if ds == [] then 1 else Lcm(ds[0], ListLcm(ds[1..]))
  }

  lemma DividesTrans(a: Positive, b: Positive, n: int)
    requires Divides(a, b) && Divides(b, n)
    ensures Divides(a, n)
  {
    var i, j := b / a, n / b;
    assert b == a * i && n == b * j;
    assert n == a * (i * j);
    MultipleDivides(a, i * j);
  }

  /** Every entry divides the list's lcm, and the lcm divides every common
      multiple of the entries. */
  lemma {:induction false} ListLcmIsLeast(ds: seq<Positive>, n: int)
    ensures forall k :: 0 <= k < |ds| ==> Divides(ds[k], ListLcm(ds))
    ensures (forall k :: 0 <= k < |ds| ==> Divides(ds[k], n)) ==> Divides(ListLcm(ds), n)
  {
    if ds != [] {
      var rest := ListLcm(ds[1..]);
      ListLcmIsLeast(ds[1..], n);
      LcmIsLeast(ds[0], rest, n);
      forall k | 0 <= k < |ds| ensures Divides(ds[k], ListLcm(ds)) {
        if k > 0 {
          assert ds[k] == ds[1..][k - 1];
          DividesTrans(ds[k], rest, ListLcm(ds));
        }
      }
      if forall k :: 0 <= k < |ds| ==> Divides(ds[k], n) {
        forall k | 0 <= k < |ds| - 1 ensures Divides(ds[1..][k], n) {
          assert ds[1..][k] == ds[k + 1];
        }
      }
    }
  }

  /** The denominators `[val.q for val in solution]`. */
  function Denominators(v: seq<Rat>): (ds: seq<Positive>)
    ensures |ds| == |v|
    ensures forall k :: 0 <= k < |v| ==> ds[k] == v[k].den
  {
    seq(|v|, k requires 0 <= k < |v| => v[k].den)
  }

  /** `l * solution` for an `l` that every denominator divides. */
  function ScaleBy(v: seq<Rat>, l: int): (c: seq<int>)
    ensures |c| == |v|
  {
    seq(|v|, k requires 0 <= k < |v| => v[k].num * (l / v[k].den))
  }

  lemma ScaleByValue(v: seq<Rat>, l: int, k: nat)
    requires k < |v| && Divides(v[k].den, l)
    ensures ScaleBy(v, l)[k] as real == l as real * Value(v[k])
  {
    var d := v[k].den;
    var f := l / d;
    assert l == d * f;
    assert ScaleBy(v, l)[k] == v[k].num * f;
    RealScale(v[k].num, d, f);
  }

  /** `lcm(denominators) * solution`, as integers (Code.py.PY:141-143). */
  function ScaleByLcm(v: seq<Rat>): (c: seq<int>)
    ensures |c| == |v|
  {
    ScaleBy(v, ListLcm(Denominators(v)))
  }

  /** Each integer coefficient is exactly the lcm times its rational: the
      scaling loses nothing, keeps every sign and every zero. */
  lemma ScaledValue(v: seq<Rat>, k: nat)
    requires k < |v|
    ensures ScaleByLcm(v)[k] as real == ListLcm(Denominators(v)) as real * Value(v[k])
  {
    var ds := Denominators(v);
    ListLcmIsLeast(ds, 0);
    assert Divides(ds[k], ListLcm(ds));
    ScaleByValue(v, ListLcm(ds), k);
  }

  lemma RealScale(n: int, d: Positive, f: int)
    ensures (n * f) as real == (d * f) as real * (n as real / d as real)
  {
    var nr, dr, fr := n as real, d as real, f as real;
    assert (n * f) as real == nr * fr;
    assert (d * f) as real == dr * fr;
    assert dr * (nr / dr) == nr;
    assert (dr * fr) * (nr / dr) == fr * (dr * (nr / dr));
  }

  /** `sum(row[k] * v[k])` over the rationals. */
  function RatDot(row: seq<int>, v: seq<Rat>): real
    requires |row| == |v|
  {
    if row == [] then 0.0 else row[0] as real * Value(v[0]) + RatDot(row[1..], v[1..])
  }

  /** `sum(row[k] * c[k])` over the integers. */
  function IntDot(row: seq<int>, c: seq<int>): int
    requires |row| == |c|
  {
    if row == [] then 0 else row[0] * c[0] + IntDot(row[1..], c[1..])
  }

  /** A matrix with its shape: sympy's `Matrix` knows its column count even
      when it has no rows. */
  datatype IntMatrix = IntMatrix(rows: seq<seq<int>>, width: nat)
  {
    predicate WellShaped()
    {
      forall e :: 0 <= e < |rows| ==> |rows[e]| == width
    }
  }

  /** `m * v == 0`. */
  predicate IsNullVector(m: IntMatrix, v: seq<Rat>)
    requires m.WellShaped()
  {
    |v| == m.width && forall e :: 0 <= e < |m.rows| ==> RatDot(m.rows[e], v) == 0.0
  }

  /** `m * c == 0` for an integer vector. */
  predicate IsIntNullVector(m: IntMatrix, c: seq<int>)
    requires m.WellShaped()
  {
    |c| == m.width && forall e :: 0 <= e < |m.rows| ==> IntDot(m.rows[e], c) == 0
  }

  /** The contract of `Matrix.nullspace` that the balancer relies on: every
      vector it returns is a null vector, not the zero vector, with its
      entries in lowest terms. */
  ghost predicate NullSpaceSound(nullspace: IntMatrix -> seq<seq<Rat>>)
  {
    forall m: IntMatrix, k: nat :: m.WellShaped() && k < |nullspace(m)| ==>
      IsNullVector(m, nullspace(m)[k]) && AllReduced(nullspace(m)[k]) && NonZero(nullspace(m)[k])
  }

  /** Only reduced fractions reach the lcm: `2/4` is never returned, and
      `[1/2, 1/2]` scales by 2 to `[1, 1]`. */
  lemma HalvesScale()
    ensures !Reduced(Rat(2, 4)) && AllReduced([Rat(1, 2), Rat(1, 2)])
    ensures ScaleByLcm([Rat(1, 2), Rat(1, 2)]) == [1, 1]
  {
    var v := [Rat(1, 2), Rat(1, 2)];
    assert Denominators(v) == [2, 2];
    assert ListLcm([2]) == 2 by { assert Lcm(2, 1) == 2; }
    assert Lcm(2, 2) == 2;
    assert ListLcm([2, 2]) == 2 by { assert [2, 2][1..] == [2]; }
  }

  /** `Matrix(rows).transpose()` for a table of `width` columns: row e of the
      result is column e of `rows`. */
  function Transpose(rows: seq<seq<int>>, width: nat): (m: IntMatrix)
    requires forall r :: 0 <= r < |rows| ==> |rows[r]| == width
    ensures m.WellShaped() && |m.rows| == width && m.width == |rows|
    ensures forall e, r :: 0 <= e < width && 0 <= r < |rows| ==> m.rows[e][r] == rows[r][e]
  {
    IntMatrix(seq(width, e requires 0 <= e < width =>
      seq(|rows|, r requires 0 <= r < |rows| => rows[r][e])), |rows|)
  }

  /** Transposing twice gives the table back. */
  lemma TransposeTwice(rows: seq<seq<int>>, width: nat)
    requires forall r :: 0 <= r < |rows| ==> |rows[r]| == width
    ensures Transpose(Transpose(rows, width).rows, |rows|) == IntMatrix(rows, width)
  {
    var m := Transpose(rows, width);
    var back := Transpose(m.rows, |rows|);
    assert |back.rows| == |rows|;
    forall r | 0 <= r < |rows| ensures back.rows[r] == rows[r] {
      assert |back.rows[r]| == width;
      forall e | 0 <= e < width ensures back.rows[r][e] == rows[r][e] {
        assert back.rows[r][e] == m.rows[e][r];
      }
    }
  }

  /** Scaling every entry by `l` scales the dot product by `l`. */
  lemma {:induction false} DotScales(row: seq<int>, v: seq<Rat>, c: seq<int>, l: int)
    requires |row| == |v| == |c|
    requires forall k :: 0 <= k < |c| ==> c[k] as real == l as real * Value(v[k])
    ensures IntDot(row, c) as real == l as real * RatDot(row, v)
    decreases |row|
  {
    if row != [] {
      ScaledTail(v, c, l);
      DotScales(row[1..], v[1..], c[1..], l);
      DotStep(row[0], c[0], Value(v[0]), l as real, IntDot(row[1..], c[1..]), RatDot(row[1..], v[1..]));
    }
  }

  /** The scaling holds of the tails too. */
  lemma ScaledTail(v: seq<Rat>, c: seq<int>, l: int)
    requires |v| == |c| > 0
    requires forall k :: 0 <= k < |c| ==> c[k] as real == l as real * Value(v[k])
    ensures forall k :: 0 <= k < |c| - 1 ==> c[1..][k] as real == l as real * Value(v[1..][k])
  {
    forall k | 0 <= k < |c| - 1 ensures c[1..][k] as real == l as real * Value(v[1..][k]) {
      assert c[1..][k] == c[k + 1] && v[1..][k] == v[k + 1];
    }
  }

  /** One term of DotScales: `a * c == a * (l * b)`, added to a scaled rest. */
  lemma DotStep(a: int, c: int, b: real, l: real, restInt: int, restRat: real)
    requires c as real == l * b && restInt as real == l * restRat
    ensures (a * c + restInt) as real == l * (a as real * b + restRat)
  {
    assert (a * c) as real == a as real * c as real;
    assert a as real * (l * b) == l * (a as real * b);
  }

  /** The lcm-scaled null vector has integer entries and is still a null
      vector (Code.py.PY:140-143). */
  /** The scaling turns no non-zero entry into zero. */
  lemma ScaledNonZero(v: seq<Rat>)
    requires NonZero(v)
    ensures exists j :: 0 <= j < |v| && ScaleByLcm(v)[j] != 0
  {
    var j :| 0 <= j < |v| && v[j].num != 0;
    ScaledValue(v, j);
    var l := ListLcm(Denominators(v));
    assert Value(v[j]) != 0.0;
    assert l as real * Value(v[j]) != 0.0;
  }

  lemma ScaledNullVector(m: IntMatrix, v: seq<Rat>)
    requires m.WellShaped() && IsNullVector(m, v)
    ensures IsIntNullVector(m, ScaleByLcm(v))
  {
    var c := ScaleByLcm(v);
    var l := ListLcm(Denominators(v));
    forall k | 0 <= k < |c| ensures c[k] as real == l as real * Value(v[k]) {
      ScaledValue(v, k);
    }
    forall e | 0 <= e < |m.rows| ensures IntDot(m.rows[e], c) == 0 {
      DotScales(m.rows[e], v, c, l);
    }
  }
}
