/** `Vec<T, N>` with T = int: a fixed-length array of N elements updated in
    place by the compound assignments; the binary operators work on a copy of
    their left operand. */
module Vector {
  import opened SeqMath
  import Text

  class Vec {
    /** The template parameter N. */
    const N: nat
    const values: array<int>

    ghost predicate Valid()
    {
      values.Length == N
    }

    /** The elements, in order. */
    ghost function Contents(): seq<int>
      reads values
    {
      values[..]
    }

    /** `Vec()`: the member initialiser zero-fills the container. */
    constructor Default(n: nat)
      ensures Valid() && N == n && fresh(values)
      ensures Contents() == Zeros(n)
    {
      N := n;
      values := new int[n](_ => 0);
    }

    /** `Vec(Container values)`: a copy of a full container. */
    constructor (init: seq<int>)
      ensures Valid() && N == |init| && fresh(values)
      ensures Contents() == init
    {
      N := |init|;
      values := new int[|init|](k requires 0 <= k < |init| => init[k]);
    }

    /** Passing a Vec by value: an independent copy. */
    method Copy() returns (c: Vec)
      requires Valid()
      ensures c.Valid() && fresh(c) && fresh(c.values) && c.N == N
      ensures c.Contents() == Contents()
    {
      c := new Vec(values[..]);
    }

    /** `sum()`: the accumulator starts at 0 and adds every element in order. */
    method Sum() returns (r: int)
      requires Valid()
      ensures r == SeqMath.Sum(Contents())
    {
      r := 0;
      var i := 0;
      while i < N
        invariant 0 <= i <= N
        invariant r == SeqMath.Sum(values[..i])
      {
        assert values[..i + 1][..i] == values[..i];
        r := r + values[i];
        i := i + 1;
      }
      assert values[..N] == values[..];
    }

    /** `get(i)` and the read-only `operator[]`: no bounds check, so i < N is the caller's duty. */
    function Get(i: nat): (r: int)
      reads values
      requires Valid() && i < N
      ensures r == Contents()[i]
    {
      values[i]
    }

    /** Assigning through the reference the mutable `operator[]` returns. */
    method SetAt(i: nat, x: int)
      requires Valid() && i < N
      modifies values
      ensures Contents() == old(Contents())[i := x]
    {
      values[i] := x;
    }

    /** `dot(lhs, rhs)`: multiplies a by-value copy of lhs in place, then sums it. */
    static method Dot(lhs: Vec, rhs: Vec) returns (r: int)
      requires lhs.Valid() && rhs.Valid() && lhs.N == rhs.N
      ensures r == SeqMath.Dot(lhs.Contents(), rhs.Contents())
    {
      var work := lhs.Copy();
      var i := 0;
      while i < work.N
        invariant 0 <= i <= work.N
        invariant forall k :: 0 <= k < i ==> work.values[k] == lhs.values[k] * rhs.values[k]
        invariant forall k :: i <= k < work.N ==> work.values[k] == lhs.values[k]
      {
        work.values[i] := work.values[i] * rhs.values[i];
        i := i + 1;
      }
      assert work.Contents() == Hadamard(lhs.Contents(), rhs.Contents());
      r := work.Sum();
      DotIsSumOfProducts(lhs.Contents(), rhs.Contents());
    }

    /** `operator+=`: values[i] += rhs[i] for every i; returns the receiver. */
    method AddAssign(rhs: Vec) returns (self: Vec)
      requires Valid() && rhs.Valid() && rhs.N == N
      modifies values
      ensures self == this
      ensures Contents() == Add(old(Contents()), old(rhs.Contents()))
    {
      var i := 0;
      while i < N
        invariant 0 <= i <= N
        invariant forall k :: 0 <= k < i ==> values[k] == old(values[k]) + old(rhs.values[k])
        invariant forall k :: i <= k < N ==> values[k] == old(values[k]) && rhs.values[k] == old(rhs.values[k])
      {
        values[i] := values[i] + rhs.values[i];
        i := i + 1;
      }
      self := this;
    }

    /** `operator-=`: values[i] -= rhs[i] for every i; returns the receiver. */
    method SubAssign(rhs: Vec) returns (self: Vec)
      requires Valid() && rhs.Valid() && rhs.N == N
      modifies values
      ensures self == this
      ensures Contents() == Sub(old(Contents()), old(rhs.Contents()))
    {
      var i := 0;
      while i < N
        invariant 0 <= i <= N
        invariant forall k :: 0 <= k < i ==> values[k] == old(values[k]) - old(rhs.values[k])
        invariant forall k :: i <= k < N ==> values[k] == old(values[k]) && rhs.values[k] == old(rhs.values[k])
      {
        values[i] := values[i] - rhs.values[i];
        i := i + 1;
      }
      self := this;
    }

    /** Scalar `operator*=`: every element multiplied by c; returns the receiver. */
    method ScaleAssign(c: int) returns (self: Vec)
      requires Valid()
      modifies values
      ensures self == this
      ensures Contents() == Scale(old(Contents()), c)
    {
      var i := 0;
      while i < N
        invariant 0 <= i <= N
        invariant forall k :: 0 <= k < i ==> values[k] == old(values[k]) * c
        invariant forall k :: i <= k < N ==> values[k] == old(values[k])
      {
        values[i] := values[i] * c;
        i := i + 1;
      }
      self := this;
    }

    /** Scalar `operator/=`: every element divided by d with C++ truncation;
        d == 0 is undefined behaviour in the source, so it is excluded. */
    method DivAssign(d: int) returns (self: Vec)
      requires Valid() && d != 0
      modifies values
      ensures self == this
      ensures Contents() == Quot(old(Contents()), d)
    {
      var i := 0;
      while i < N
        invariant 0 <= i <= N
        invariant forall k :: 0 <= k < i ==> values[k] == TruncDiv(old(values[k]), d)
        invariant forall k :: i <= k < N ==> values[k] == old(values[k])
      {
        values[i] := TruncDiv(values[i], d);
        i := i + 1;
      }
      self := this;
    }

    /** `for_each(func)`: applies f to every element in index order, then
        returns the vector moved out of the receiver. */
    method ForEach(f: int -> int) returns (moved: Vec)
      requires Valid()
      modifies values
      ensures Contents() == Apply(f, old(Contents()))
      ensures moved.Valid() && fresh(moved) && fresh(moved.values) && moved.N == N
      ensures moved.Contents() == Contents()
    {
      var i := 0;
      while i < N
        invariant 0 <= i <= N
        invariant forall k :: 0 <= k < i ==> values[k] == f(old(values[k]))
        invariant forall k :: i <= k < N ==> values[k] == old(values[k])
      {
        values[i] := f(values[i]);
        i := i + 1;
      }
      moved := Copy();
    }

    /** `operator<<`: "[ ", each element and a space, then "]". */
    method Render() returns (s: string)
      requires Valid()
      ensures s == Text.Render(Contents())
    {
      s := "[ ";
      var i := 0;
      while i < N
        invariant 0 <= i <= N
        invariant s == "[ " + Text.Body(values[..i])
      {
        var token := Text.Token(values[i]);
        Text.RenderStep(s, values[..i], values[i]);
        assert values[..i + 1] == values[..i] + [values[i]];
        s := s + token;
        i := i + 1;
      }
      assert values[..N] == values[..];
      s := s + "]";
    }
  }

  // -----------------------------------------------------------------------
  // The friend operators: each takes its left operand by value, so it
  // works on a copy and leaves both operands as they were.

  /** `operator+(lhs, rhs)`. */
  method Plus(lhs: Vec, rhs: Vec) returns (r: Vec)
    requires lhs.Valid() && rhs.Valid() && lhs.N == rhs.N
    ensures r.Valid() && fresh(r) && fresh(r.values) && r.N == lhs.N
    ensures r.Contents() == Add(lhs.Contents(), rhs.Contents())
    ensures unchanged(lhs.values) && unchanged(rhs.values)
  {
    r := lhs.Copy();
    var _ := r.AddAssign(rhs);
  }

  /** `operator-(lhs, rhs)`. */
  method Minus(lhs: Vec, rhs: Vec) returns (r: Vec)
    requires lhs.Valid() && rhs.Valid() && lhs.N == rhs.N
    ensures r.Valid() && fresh(r) && fresh(r.values) && r.N == lhs.N
    ensures r.Contents() == Sub(lhs.Contents(), rhs.Contents())
    ensures unchanged(lhs.values) && unchanged(rhs.values)
  {
    r := lhs.Copy();
    var _ := r.SubAssign(rhs);
  }

  /** `operator*(Vec, Vec)`: a vector times a vector is their dot product, a scalar. */
  method Times(lhs: Vec, rhs: Vec) returns (r: int)
    requires lhs.Valid() && rhs.Valid() && lhs.N == rhs.N
    ensures r == SeqMath.Dot(lhs.Contents(), rhs.Contents())
    ensures r == SeqMath.Dot(rhs.Contents(), lhs.Contents())
  {
    r := Vec.Dot(lhs, rhs);
    DotCommutes(lhs.Contents(), rhs.Contents());
  }

  /** `operator*(Vec, T)`: the copy scaled by c. */
  method Scaled(lhs: Vec, c: int) returns (r: Vec)
    requires lhs.Valid()
    ensures r.Valid() && fresh(r) && fresh(r.values) && r.N == lhs.N
    ensures r.Contents() == Scale(lhs.Contents(), c)
    ensures unchanged(lhs.values)
  {
    r := lhs.Copy();
    var _ := r.ScaleAssign(c);
  }

  /** `operator/(Vec, T)`: the copy divided by d, truncating toward zero. */
  method Divided(lhs: Vec, d: int) returns (r: Vec)
    requires lhs.Valid() && d != 0
    ensures r.Valid() && fresh(r) && fresh(r.values) && r.N == lhs.N
    ensures r.Contents() == Quot(lhs.Contents(), d)
    ensures unchanged(lhs.values)
  {
    r := lhs.Copy();
    var _ := r.DivAssign(d);
  }

  /** (a + b) - b == a, through the operators themselves. */
  method PlusMinusRoundTrip(a: Vec, b: Vec) returns (r: Vec)
    requires a.Valid() && b.Valid() && a.N == b.N
    ensures r.Valid() && r.N == a.N && r.Contents() == a.Contents()
  {
    var s := Plus(a, b);
    r := Minus(s, b);
    AddSubRoundTrip(a.Contents(), b.Contents());
  }

  /** (a * c) / c == a for every non-zero c, through the operators themselves. */
  method ScaledDividedRoundTrip(a: Vec, c: int) returns (r: Vec)
    requires a.Valid() && c != 0
    ensures r.Valid() && r.N == a.N && r.Contents() == a.Contents()
  {
    var s := Scaled(a, c);
    r := Divided(s, c);
    ScaleQuotRoundTrip(a.Contents(), c);
  }

  /** Example scenarios for vectors. */
  method Scenarios()
  {
    var z := new Vec.Default(4);
    var zs := z.Sum();
    SumZeros(4);
    assert zs == 0;

    var a := new Vec([1, 2, 3]);
    var b := new Vec([4, 5, 6]);
    var total := a.Sum();
    assert [1, 2, 3][..2] == [1, 2] && [1, 2][..1] == [1] && [1][..0] == [];
    assert SeqMath.Sum([1, 2]) == 3;
    assert total == 6;
    var ab := Plus(a, b);
    assert ab.Contents() == [5, 7, 9];

    var e0 := new Vec([1, 0]);
    var e1 := new Vec([0, 1]);
    var d := Times(e0, e1);
    assert e0.Contents()[..1] == [1] && e1.Contents()[..1] == [0];
    assert d == 0;

    var text := a.Render();
    Text.RenderExample();
    assert text == "[ 1 2 3 ]";
  }
}
