/** The meaning of the vector and matrix operations on plain sequences of
    elements, with the element type T fixed to int. Both classes state their
    methods against these functions, and the algebraic laws live here. */
module SeqMath {

  /** The `Zeros` container: n zero elements. */
  function Zeros(n: nat): (r: seq<int>)
    ensures |r| == n && forall k :: 0 <= k < n ==> r[k] == 0
  {
    seq(n, _ => 0)
  }

  /** Sum of the elements, accumulated left to right from 0. */
  function Sum(s: seq<int>): int
  {
    if |s| == 0 then 0 else Sum(s[..|s| - 1]) + s[|s| - 1]
  }

  /** Dot product as the textbook sum of pairwise products. */
  function Dot(a: seq<int>, b: seq<int>): int
    requires |a| == |b|
  {
    if |a| == 0 then 0
    else Dot(a[..|a| - 1], b[..|b| - 1]) + a[|a| - 1] * b[|b| - 1]
  }

  function Add(a: seq<int>, b: seq<int>): (r: seq<int>)
    requires |a| == |b|
    ensures |r| == |a|
  {
    seq(|a|, k requires 0 <= k < |a| => a[k] + b[k])
  }

  function Sub(a: seq<int>, b: seq<int>): (r: seq<int>)
    requires |a| == |b|
    ensures |r| == |a|
  {
    seq(|a|, k requires 0 <= k < |a| => a[k] - b[k])
  }

  /** Elementwise product: what `dot` leaves in its local copy before summing. */
  function Hadamard(a: seq<int>, b: seq<int>): (r: seq<int>)
    requires |a| == |b|
    ensures |r| == |a|
  {
    seq(|a|, k requires 0 <= k < |a| => a[k] * b[k])
  }

  function Scale(a: seq<int>, c: int): (r: seq<int>)
    ensures |r| == |a|
  {
    seq(|a|, k requires 0 <= k < |a| => a[k] * c)
  }

  /** Every element applied to f, in index order. */
  function Apply(f: int -> int, a: seq<int>): (r: seq<int>)
    ensures |r| == |a|
  {
    seq(|a|, k requires 0 <= k < |a| => f(a[k]))
  }

  function Abs(x: int): nat
  {
    if x < 0 then -x else x
  }

  /** Integer division as C++ defines it: the quotient is truncated toward
      zero, so the remainder x - q*d is smaller than d in magnitude and has
      the sign of x (or is zero). */
  function TruncDiv(x: int, d: int): (q: int)
    requires d != 0
    ensures Abs(x - q * d) < Abs(d)
    ensures x - q * d == 0 || (x - q * d < 0 <==> x < 0)
  {
    var m := Abs(x) / Abs(d);
    var q := if (x < 0) != (d < 0) then -m else m;
    TruncRemainder(x, d, q);
    q
  }

  /** The remainder of the truncated quotient is the remainder of the
      magnitudes, carrying the sign of x. */
  lemma TruncRemainder(x: int, d: int, q: int)
    requires d != 0
    requires q == if (x < 0) != (d < 0) then -(Abs(x) / Abs(d)) else Abs(x) / Abs(d)
    ensures 0 <= Abs(x) - (Abs(x) / Abs(d)) * Abs(d) < Abs(d)
    ensures x - q * d == if x < 0 then -(Abs(x) - (Abs(x) / Abs(d)) * Abs(d))
                         else Abs(x) - (Abs(x) / Abs(d)) * Abs(d)
  {
    var a, b := Abs(x), Abs(d);
    var m := a / b;
    EuclidRemainder(a, b);
    if d < 0 {
      NegMul(q, b);
    }
    if (x < 0) != (d < 0) {
      NegMul(m, b);
    }
  }

  lemma EuclidRemainder(a: nat, b: nat)
    requires b > 0
    ensures 0 <= a - (a / b) * b < b
  {
    assert a == (a / b) * b + a % b;
  }

  lemma NegMul(u: int, v: int)
    ensures u * (-v) == -(u * v) && (-u) * v == -(u * v)
  {
  }

  function Quot(a: seq<int>, d: int): (r: seq<int>)
    requires d != 0
    ensures |r| == |a|
  {
    seq(|a|, k requires 0 <= k < |a| => TruncDiv(a[k], d))
  }

  // ---------------------------------------------------------------------
  // Laws

  /** A zero container sums to 0. */
  lemma {:induction false} SumZeros(n: nat)
    ensures Sum(Zeros(n)) == 0
  {
    if n > 0 {
      assert Zeros(n)[..n - 1] == Zeros(n - 1);
      SumZeros(n - 1);
    }
  }

  /** Summing a concatenation sums the parts. */
  lemma {:induction false} SumAppend(a: seq<int>, b: seq<int>)
    ensures Sum(a + b) == Sum(a) + Sum(b)
  {
    if |b| > 0 {
      assert (a + b)[..|a + b| - 1] == a + b[..|b| - 1];
      SumAppend(a, b[..|b| - 1]);
    } else {
      assert a + b == a;
    }
  }

  /** Sum is additive over elementwise addition. */
  lemma {:induction false} SumAdd(a: seq<int>, b: seq<int>)
    requires |a| == |b|
    ensures Sum(Add(a, b)) == Sum(a) + Sum(b)
  {
    if |a| > 0 {
      var n := |a| - 1;
      assert Add(a, b)[..n] == Add(a[..n], b[..n]);
      SumAdd(a[..n], b[..n]);
    }
  }

  /** Sum is homogeneous under scaling. */
  lemma {:induction false} SumScale(a: seq<int>, c: int)
    ensures Sum(Scale(a, c)) == Sum(a) * c
  {
    if |a| > 0 {
      var n := |a| - 1;
      assert Scale(a, c)[..n] == Scale(a[..n], c);
      SumScale(a[..n], c);
    }
  }

  /** `dot` computes the product in place and then sums: that is the dot product. */
  lemma {:induction false} DotIsSumOfProducts(a: seq<int>, b: seq<int>)
    requires |a| == |b|
    ensures Sum(Hadamard(a, b)) == Dot(a, b)
  {
    if |a| > 0 {
      var n := |a| - 1;
      assert Hadamard(a, b)[..n] == Hadamard(a[..n], b[..n]);
      DotIsSumOfProducts(a[..n], b[..n]);
    }
  }

  lemma {:induction false} DotCommutes(a: seq<int>, b: seq<int>)
    requires |a| == |b|
    ensures Dot(a, b) == Dot(b, a)
  {
    if |a| > 0 {
      DotCommutes(a[..|a| - 1], b[..|b| - 1]);
    }
  }

  /** Subtracting what was added gives the original back. */
  lemma AddSubRoundTrip(a: seq<int>, b: seq<int>)
    requires |a| == |b|
    ensures Sub(Add(a, b), b) == a
  {
  }

  lemma AbsMul(u: int, v: int)
    ensures Abs(u * v) == Abs(u) * Abs(v)
  {
    if u < 0 && v < 0 {
      assert u * v == (-u) * (-v);
    } else if u < 0 {
      assert u * v == -((-u) * v);
    } else if v < 0 {
      assert u * v == -(u * (-v));
    }
  }

  lemma MulAtLeastFactor(e: nat, f: nat)
    ensures e == 0 || e * f >= f
  {
    if e != 0 {
      assert e * f == (e - 1) * f + f;
    }
  }

  /** One more multiple: a * (n + 1) == a * n + a. */
  lemma MulSucc(a: int, n: int)
    ensures a * (n + 1) == a * n + a
  {
  }

  /** Multiplying by a positive factor keeps a strict order. */
  lemma MulStrictMono(a: nat, b: nat, c: nat)
    requires a > 0 && b < c
    ensures a * b < a * c
  {
    assert a * c == a * b + a * (c - b);
    MulAtLeastFactor(c - b, a);
    assert (c - b) * a == a * (c - b);
  }

  /** A non-zero multiple of d is at least as large as d in magnitude. */
  lemma MultipleAtLeast(e: int, d: int)
    ensures e == 0 || Abs(e * d) >= Abs(d)
  {
    AbsMul(e, d);
    MulAtLeastFactor(Abs(e), Abs(d));
  }

  /** Truncating division undoes multiplication by a non-zero factor. */
  lemma MulTruncDivCancel(x: int, d: int)
    requires d != 0
    ensures TruncDiv(x * d, d) == x
  {
    var q := TruncDiv(x * d, d);
    assert x * d - q * d == (x - q) * d;
    MultipleAtLeast(x - q, d);
  }

  /** Scaling by a non-zero factor and then dividing by it gives the original back. */
  lemma ScaleQuotRoundTrip(a: seq<int>, d: int)
    requires d != 0
    ensures Quot(Scale(a, d), d) == a
  {
    forall k | 0 <= k < |a|
      ensures Quot(Scale(a, d), d)[k] == a[k]
    {
      MulTruncDivCancel(a[k], d);
    }
  }
}
