/** `Mat<T, X, Y>` with T = int: a flat buffer of X*Y elements. Its two
    accessors copy a contiguous slice of the buffer into a fresh `Vec`,
    `operator[]` with stride X and `operator()` with stride Y. */
module Matrix {
  import opened SeqMath
  import Vector

  /** The elements a copy of [stride*i, stride*(i+1)) takes out of a flat buffer. */
  function Slice(m: seq<int>, stride: nat, i: nat): (r: seq<int>)
    requires stride * (i + 1) <= |m|
    ensures |r| == stride
    ensures forall k :: 0 <= k < stride ==> r[k] == m[stride * i + k]
  {
    m[stride * i .. stride * (i + 1)]
  }

  /** Sum of the sums of the first n slices of the given stride. */
  function SliceSums(m: seq<int>, stride: nat, n: nat): int
    requires stride * n <= |m|
  {
    if n == 0 then 0
    else
      MulSucc(stride, n - 1);
      SliceSums(m, stride, n - 1) + Sum(Slice(m, stride, n - 1))
  }

  class Mat {
    /** The template parameters X and Y. */
    const X: nat
    const Y: nat
    const values: array<int>

    ghost predicate Valid()
    {
      values.Length == X * Y
    }

    /** The flat buffer, in storage order. */
    ghost function Contents(): seq<int>
      reads values
    {
      values[..]
    }

    /** Aggregate initialisation `Mat<int, X, Y>{v0, v1, ...}`: the listed
        values first and zeros after them, so `{}` is the zero matrix. */
    constructor (x: nat, y: nat, init: seq<int>)
      requires |init| <= x * y
      ensures Valid() && X == x && Y == y && fresh(values)
      ensures Contents() == init + Zeros(x * y - |init|)
    {
      var buffer := new int[x * y](k requires 0 <= k < x * y => if k < |init| then init[k] else 0);
      assert buffer[..] == init + Zeros(x * y - |init|);
      X, Y, values := x, y, buffer;
    }

    /** Passing a Mat by value: an independent copy. */
    method Copy() returns (c: Mat)
      requires Valid()
      ensures c.Valid() && fresh(c) && fresh(c.values) && c.X == X && c.Y == Y
      ensures c.Contents() == Contents()
    {
      c := new Mat(X, Y, values[..]);
      assert c.Contents() == Contents() + [];
    }

    /** `sum()`: the accumulator starts at 0 and adds all X*Y entries in order. */
    method Sum() returns (r: int)
      requires Valid()
      ensures r == SeqMath.Sum(Contents())
    {
      r := 0;
      var i := 0;
      while i < X * Y
        invariant 0 <= i <= X * Y
        invariant r == SeqMath.Sum(values[..i])
      {
        assert values[..i + 1][..i] == values[..i];
        r := r + values[i];
        i := i + 1;
      }
      assert values[..X * Y] == values[..];
    }

    /** Both accessors: `Vec<T, stride>::Zeros` filled by copying the
        buffer range [stride*i, stride*(i+1)). The source does not check
        that range; the requires says it lies inside the buffer. */
    method CopySlice(stride: nat, i: nat) returns (v: Vector.Vec)
      requires Valid() && stride * (i + 1) <= X * Y
      ensures v.Valid() && fresh(v) && fresh(v.values) && v.N == stride
      ensures v.Contents() == Slice(Contents(), stride, i)
    {
      v := new Vector.Vec.Default(stride);
      MulSucc(stride, i);
      var k := 0;
      while k < stride
        invariant 0 <= k <= stride
        invariant forall j :: 0 <= j < k ==> v.values[j] == values[stride * i + j]
      {
        v.values[k] := values[stride * i + k];
        k := k + 1;
      }
    }

    /** `operator[](i)`: the length-X slice at stride X. */
    method Row(i: nat) returns (v: Vector.Vec)
      requires Valid() && X * (i + 1) <= X * Y
      ensures v.Valid() && fresh(v) && fresh(v.values) && v.N == X
      ensures v.Contents() == Slice(Contents(), X, i)
    {
      v := CopySlice(X, i);
    }

    /** `operator()(i)`: the length-Y slice at stride Y. */
    method Column(i: nat) returns (v: Vector.Vec)
      requires Valid() && Y * (i + 1) <= X * Y
      ensures v.Valid() && fresh(v) && fresh(v.values) && v.N == Y
      ensures v.Contents() == Slice(Contents(), Y, i)
    {
      v := CopySlice(Y, i);
    }

    /** `operator+=`: every entry gains the matching entry of m; returns the receiver. */
    method AddAssign(m: Mat) returns (self: Mat)
      requires Valid() && m.Valid() && m.X == X && m.Y == Y
      modifies values
      ensures self == this
      ensures Contents() == Add(old(Contents()), old(m.Contents()))
    {
      var i := 0;
      while i < X * Y
        invariant 0 <= i <= X * Y
        invariant forall k :: 0 <= k < i ==> values[k] == old(values[k]) + old(m.values[k])
        invariant forall k :: i <= k < X * Y ==> values[k] == old(values[k]) && m.values[k] == old(m.values[k])
      {
        values[i] := values[i] + m.values[i];
        i := i + 1;
      }
      self := this;
    }

    /** Scalar `operator*=`: every entry multiplied by c. The source falls off
        the end without returning, so no result is modelled. */
    method ScaleAssign(c: int)
      requires Valid()
      modifies values
      ensures Contents() == Scale(old(Contents()), c)
    {
      var i := 0;
      while i < X * Y
        invariant 0 <= i <= X * Y
        invariant forall k :: 0 <= k < i ==> values[k] == old(values[k]) * c
        invariant forall k :: i <= k < X * Y ==> values[k] == old(values[k])
      {
        values[i] := values[i] * c;
        i := i + 1;
      }
    }

    /** True division of every entry by d, truncating toward zero: what
        `operator/` evidently means, which the source has no member for. */
    method DivAssign(d: int)
      requires Valid() && d != 0
      modifies values
      ensures Contents() == Quot(old(Contents()), d)
    {
      var i := 0;
      while i < X * Y
        invariant 0 <= i <= X * Y
        invariant forall k :: 0 <= k < i ==> values[k] == TruncDiv(old(values[k]), d)
        invariant forall k :: i <= k < X * Y ==> values[k] == old(values[k])
      {
        values[i] := TruncDiv(values[i], d);
        i := i + 1;
      }
    }
  }

  // -----------------------------------------------------------------------
  // The friend operators work on a copy of their left operand.

  /** `operator+(lhs, rhs)`. */
  method Plus(lhs: Mat, rhs: Mat) returns (r: Mat)
    requires lhs.Valid() && rhs.Valid() && lhs.X == rhs.X && lhs.Y == rhs.Y
    ensures r.Valid() && fresh(r) && fresh(r.values) && r.X == lhs.X && r.Y == lhs.Y
    ensures r.Contents() == Add(lhs.Contents(), rhs.Contents())
    ensures unchanged(lhs.values) && unchanged(rhs.values)
  {
    r := lhs.Copy();
    var _ := r.AddAssign(rhs);
  }

  /** `operator/(lhs, d)` as written: it calls `*=`, so the copy is
      MULTIPLIED by d, and d == 0 is accepted. Because `*=` has no return
      statement the call is undefined behaviour in C++; the model takes the
      effect of the loop `*=` runs. */
  method Divide(lhs: Mat, d: int) returns (r: Mat)
    requires lhs.Valid()
    ensures r.Valid() && fresh(r) && fresh(r.values) && r.X == lhs.X && r.Y == lhs.Y
    ensures r.Contents() == Scale(lhs.Contents(), d)
    ensures unchanged(lhs.values)
  {
    r := lhs.Copy();
    r.ScaleAssign(d);
  }

  /** `operator/(lhs, d)` as evidently intended: the copy divided by d. */
  method Quotient(lhs: Mat, d: int) returns (r: Mat)
    requires lhs.Valid() && d != 0
    ensures r.Valid() && fresh(r) && fresh(r.values) && r.X == lhs.X && r.Y == lhs.Y
    ensures r.Contents() == Quot(lhs.Contents(), d)
    ensures unchanged(lhs.values)
  {
    r := lhs.Copy();
    r.DivAssign(d);
  }

  // -----------------------------------------------------------------------
  // Laws

  /** For X > 0, the bound `operator[]` needs, X*(i+1) <= X*Y, is exactly i < Y
      (and for `operator()` with the roles of X and Y swapped). */
  lemma SliceInBounds(stride: nat, count: nat, i: nat)
    requires stride > 0
    ensures stride * (i + 1) <= stride * count <==> i < count
  {
    if i < count {
      if i + 1 < count {
        MulStrictMono(stride, i + 1, count);
      }
    } else {
      MulStrictMono(stride, count, i + 1);
    }
  }

  /** The buffer sum is the sum of the sums of consecutive slices. */
  lemma {:induction false} SumBySlices(m: seq<int>, stride: nat, n: nat)
    requires stride * n <= |m|
    ensures Sum(m[..stride * n]) == SliceSums(m, stride, n)
  {
    if n > 0 {
      var lo := stride * (n - 1);
      MulSucc(stride, n - 1);
      assert m[..stride * n] == m[..lo] + Slice(m, stride, n - 1);
      SumAppend(m[..lo], Slice(m, stride, n - 1));
      SumBySlices(m, stride, n - 1);
    }
  }

  /** `sum()` of a matrix equals the sum of its Y `operator[]` slices. */
  lemma SumByRows(m: seq<int>, x: nat, y: nat)
    requires |m| == x * y
    ensures Sum(m) == SliceSums(m, x, y)
  {
    SumBySlices(m, x, y);
    assert m[..x * y] == m;
  }

  /** Extracting a slice commutes with matrix addition and with scaling. */
  lemma SliceLinear(m: seq<int>, n: seq<int>, c: int, stride: nat, i: nat)
    requires |m| == |n| && stride * (i + 1) <= |m|
    ensures Slice(Add(m, n), stride, i) == Add(Slice(m, stride, i), Slice(n, stride, i))
    ensures Slice(Scale(m, c), stride, i) == Scale(Slice(m, stride, i), c)
  {
  }

  /** Dividing the scaled matrix gives it back, which the as-written `operator/`
      does not: for the 1x1 matrix {2} and d = 2 it yields {4}, not {1}. */
  lemma DivideIsNotDivision()
    ensures Quot(Scale([2], 2), 2) == [2]
    ensures Scale([2], 2) == [4] && Quot([2], 2) == [1]
  {
    ScaleQuotRoundTrip([2], 2);
    assert Scale([2], 2)[0] == 4;
    assert TruncDiv(2, 2) == 1;
  }

  /** For a square matrix the two accessors copy the same slice. */
  method SquareAccessorsAgree(m: Mat, i: nat) returns (row: Vector.Vec, column: Vector.Vec)
    requires m.Valid() && m.X == m.Y && m.X * (i + 1) <= m.X * m.Y
    ensures row.Valid() && column.Valid() && row.N == column.N == m.X
    ensures row.Contents() == column.Contents()
  {
    row := m.Row(i);
    column := m.Column(i);
  }

  /** The as-written and the corrected `operator/` on the 1x1 matrix {2}
      with d = 2: the first gives {4}, the second {1}. */
  method DivideExample()
  {
    var m := new Mat(1, 1, [2]);
    assert m.Contents() == [2];
    var written := Divide(m, 2);
    var intended := Quotient(m, 2);
    DivideIsNotDivision();
    assert written.Contents() == [4];
    assert intended.Contents() == [1];
  }

  /** Example scenarios for matrices. */
  method Scenarios()
  {
    var z := new Mat(3, 2, []);
    var zs := z.Sum();
    assert z.Contents() == Zeros(6);
    SumZeros(6);
    assert zs == 0;

    var m := new Mat(2, 2, [1, 2, 3, 4]);
    assert m.Contents() == [1, 2, 3, 4];
    var r0 := m.Row(0);
    var r1 := m.Row(1);
    var c1 := m.Column(1);
    assert r0.Contents() == [1, 2];
    assert r1.Contents() == [3, 4];
    assert c1.Contents() == r1.Contents();
  }
}
