# lacpp: fixed-size vectors and matrices, modelled in Dafny

lacpp is a header-only C++ library with two value types. `Vec<T, N>` is a
fixed-length numeric array with elementwise arithmetic, a sum and a dot
product. `Mat<T, X, Y>` is a flat buffer of `X*Y` numbers. Its accessors copy
a contiguous slice out of that buffer into a `Vec`. This project models both
types with the element type fixed to `int`.

- `seqmath.dfy` (module `SeqMath`) holds the meaning of every operation as a
  function on sequences: `Sum`, `Dot`, `Add`, `Sub`, `Scale`, `Quot`, `Apply`,
  `Zeros`. It also holds C++ integer division (`TruncDiv`, which truncates
  toward zero, unlike Dafny's `/`) and the algebraic laws: round trips,
  linearity of the sum, and dot-product commutativity.
- `text.dfy` (module `Text`) holds the text `operator<<` writes, `[ 1 2 3 ]`.
  It also holds a reader for that text and a proof that reading the rendering
  gives back the elements.
- `vec.dfy` (module `Vector`) holds class `Vec`. It has `const N` (the template
  parameter) and `const values: array<int>` of length N. The compound
  assignments are loops that update `values` in place (`modifies values`).
  Each is proved against the sequence function of the old contents. The
  friend operators copy their left operand (`Copy`, a fresh array) and run the
  compound assignment on the copy. Their frames and `unchanged` clauses show
  that both operands stay as they were. `Dot` multiplies a copy in place and
  then sums it, as the source does.
- `mat.dfy` (module `Matrix`) holds class `Mat`. It has `const X`, `const Y` and
  a buffer of length `X*Y`. `operator[]` copies the slice `[X*i, X*(i+1))` into
  a fresh `Vec` of length X. `operator()` copies `[Y*i, Y*(i+1))` into a fresh
  `Vec` of length Y. The source does not check either range, so each accessor
  requires the range to lie inside the buffer. The model keeps the two
  different strides as written.

Both `Sum` methods start their accumulator at 0. The source declares
`U result;` without an initialiser (vec.hpp:27, mat.hpp:20). For `int` that
value is indeterminate, so the model follows the evident intent.

In two places a conventional reading of the library differs from its code.
The model follows the code in both:
- A conventional reading of a row accessor is `0 <= i < X`. The
  code's copy stays inside the buffer, for indices whose products do not
  wrap (see "Index width" below), exactly when `X*(i+1) <= X*Y`, so the
  model requires `X*(i+1) <= X*Y`. For `X > 0` that is `i < Y`
  (`Matrix.SliceInBounds`); for `X == 0` it admits every i.
- The name of the `Mat` `/` operator promises a division. The code
  multiplies. `Matrix.Divide` keeps the multiplication; see Findings.

## Model

| member | source | states |
|---|---|---|
| SeqMath.Zeros | vec.hpp:18 | the `Zeros` container: n elements, every one 0 |
| SeqMath.TruncDiv | vec.hpp:96-102 | the quotient `/=` computes for int: the remainder is smaller than the divisor in magnitude and is zero or has the dividend's sign (truncation toward zero) |
| SeqMath.MulTruncDivCancel | vec.hpp:96-102 | dividing x*d by a non-zero d with truncation gives x back |
| SeqMath.SumZeros | vec.hpp:14-18 | the zero container (`Zeros`, the default member initialiser) sums to 0 |
| SeqMath.SumAppend | mat.hpp:18-25 | the sum of a concatenation is the sum of the parts |
| SeqMath.SumAdd | vec.hpp:52-57 | the sum of `a + b` is sum(a) + sum(b) |
| SeqMath.SumScale | vec.hpp:82-88 | the sum of `a * c` is sum(a) * c |
| SeqMath.DotIsSumOfProducts | vec.hpp:34-40 | summing the elementwise products, which `dot` leaves in its local copy, gives the dot product sum of a[i]*b[i] |
| SeqMath.DotCommutes | vec.hpp:34-40 | dot(a, b) == dot(b, a) |
| SeqMath.AddSubRoundTrip | vec.hpp:52-76 | (a + b) - b == a elementwise |
| SeqMath.ScaleQuotRoundTrip | vec.hpp:82-108 | (a * c) / c == a elementwise for every non-zero c, with truncating division |
| Text.NatToString | vec.hpp:132 | the decimal text of a magnitude is non-empty and all digits |
| Text.IntToString | vec.hpp:132 | the text of an element is non-empty and holds no space, so spaces only separate elements |
| Text.Token | vec.hpp:132 | what one `os << vec[i] << ' '` writes: at least two characters: the element's text, with no space in it, and the single space that ends it |
| Text.Body | vec.hpp:131-133 | what the loop writes: every element contributes at least a digit and a space, and a non-empty vector's text ends in a space |
| Text.Render | vec.hpp:129-136 | the rendering starts with "[ " and ends with "]" |
| Text.IntRoundTrip | vec.hpp:132 | reading an element's decimal text back gives the element |
| Text.BodySnoc | vec.hpp:131-133 | one more loop step appends the element's text and one space |
| Text.RenderRoundTrip | vec.hpp:129-136 | reading the rendering back gives exactly the elements, in order: the text loses nothing |
| Text.RenderExample | vec.hpp:129-136 | {1, 2, 3} renders as "[ 1 2 3 ]" |
| Vector.Vec.Default | vec.hpp:14-16 | a default-constructed vector has N zero elements |
| Vector.Vec.constructor | vec.hpp:15 | constructing from a container copies it into a fresh array |
| Vector.Vec.Copy | vec.hpp:59 | a by-value operand is an independent copy: fresh array, same contents |
| Vector.Vec.Sum | vec.hpp:25-32 | the loop's result is the recursive sum of values[0..N), starting from 0 |
| Vector.Vec.Get | vec.hpp:114-120 | `get(i)` and the read-only `operator[]` return element i and require i < N |
| Vector.Vec.SetAt | vec.hpp:110-112 | writing through the mutable `operator[]` replaces element i and nothing else |
| Vector.Vec.Dot | vec.hpp:34-40 | multiplying a copy of lhs in place and summing gives dot(lhs, rhs); lhs is untouched |
| Vector.Vec.AddAssign | vec.hpp:52-57 | every values[i] becomes old values[i] + old rhs[i] (also when rhs is the receiver); N is unchanged; returns the receiver |
| Vector.Vec.SubAssign | vec.hpp:65-70 | every values[i] becomes old values[i] - old rhs[i]; returns the receiver |
| Vector.Vec.ScaleAssign | vec.hpp:82-88 | every values[i] becomes old values[i] * c and nothing else changes; returns the receiver |
| Vector.Vec.DivAssign | vec.hpp:96-102 | every values[i] becomes old values[i] divided by d, truncated toward zero; requires d != 0 |
| Vector.Vec.ForEach | vec.hpp:122-127 | every element is replaced by f of its old value; the returned vector holds the new contents |
| Vector.Vec.Render | vec.hpp:129-136 | the rendering loop produces "[ ", each element and a space, then "]" |
| Vector.Plus | vec.hpp:59-63 | returns a fresh vector holding a + b elementwise; both operands unchanged |
| Vector.Minus | vec.hpp:72-76 | returns a fresh vector holding a - b elementwise; both operands unchanged |
| Vector.Times | vec.hpp:78-80 | vector times vector is the scalar dot(lhs, rhs), which also equals dot(rhs, lhs) |
| Vector.Scaled | vec.hpp:90-94 | returns the copy scaled by c; the operand is unchanged |
| Vector.Divided | vec.hpp:104-108 | returns the copy divided by d with truncation; requires d != 0; the operand is unchanged |
| Vector.PlusMinusRoundTrip | vec.hpp:59-76 | (a + b) - b, computed by the operators, has the contents of a |
| Vector.ScaledDividedRoundTrip | vec.hpp:90-108 | (a * c) / c, computed by the operators, has the contents of a for every non-zero c |
| Matrix.Slice | mat.hpp:29 | the slice of stride s at index i has s elements, element k being buffer[s*i + k] |
| Matrix.Mat.constructor | mat.hpp:11 | a matrix is its listed values followed by zeros; the default one is all zeros |
| Matrix.Mat.Copy | mat.hpp:52 | a by-value operand is an independent copy |
| Matrix.Mat.Sum | mat.hpp:18-25 | the loop's result is the recursive sum of all X*Y entries, starting from 0 |
| Matrix.Mat.CopySlice | mat.hpp:27-43 | a fresh zero vector filled by copying buffer[s*i .. s*(i+1)), which must lie inside the buffer |
| Matrix.Mat.Row | mat.hpp:27-31 | `operator[](i)` is a fresh length-X vector equal to buffer[X*i .. X*(i+1)); requires X*(i+1) <= X*Y; the matrix is unchanged |
| Matrix.Mat.Column | mat.hpp:39-43 | `operator()(i)` is a fresh length-Y vector equal to buffer[Y*i .. Y*(i+1)); requires Y*(i+1) <= X*Y; the matrix is unchanged |
| Matrix.Mat.AddAssign | mat.hpp:45-50 | every one of the X*Y entries becomes old entry + old m entry; returns the receiver |
| Matrix.Mat.ScaleAssign | mat.hpp:57-61 | every one of the X*Y entries is multiplied by c and nothing else changes |
| Matrix.Plus | mat.hpp:52-55 | returns a fresh matrix holding the entrywise sum; both operands unchanged |
| Matrix.Divide | mat.hpp:63-66 | as written, the result is the copy MULTIPLIED by d (identical to m * d); the operand is unchanged |
| Matrix.Mat.DivAssign | mat.hpp:63-66 | corrected scaling step: every entry divided by d, truncated toward zero |
| Matrix.Quotient | mat.hpp:63-66 | corrected `operator/`: the copy divided by d entrywise; requires d != 0 |
| Matrix.DivideIsNotDivision | mat.hpp:63-66 | scaling {2} by 2, which the as-written operator does, gives {4}; dividing gives {1} and undoes the scaling |
| Matrix.SliceInBounds | mat.hpp:27-43 | for a non-zero stride s, s*(i+1) <= s*count holds exactly when i < count: `operator[]` needs i < Y, `operator()` needs i < X |
| Matrix.SumBySlices | mat.hpp:18-31 | the sum of the first n*s entries is the sum of the sums of the first n slices |
| Matrix.SumByRows | mat.hpp:18-31 | a matrix's sum is the sum of the sums of its Y `operator[]` slices |
| Matrix.SquareAccessorsAgree | mat.hpp:27-43 | when X == Y, `operator[](i)` and `operator()(i)` give vectors with equal contents |
| Matrix.SliceLinear | mat.hpp:27-61 | slicing commutes with entrywise addition and with scaling |

## Left out

- `norm` (vec.hpp:43-50): it is floating-point (`std::pow`, `long double`), and the exponent is hard-coded to 3 whatever p is.
- `average` (vec.hpp:20-23, mat.hpp:13-16): it divides in floating point (default `U = float`).
- `Mat::at` (mat.hpp:33-37): `vec` is a local `std::array` (the type of `Zeros`, vec.hpp:18). The return type is `Vec<T, X>&`, so `return vec;` must bind a non-const reference to a temporary made by `Vec(Container)` (vec.hpp:15). That is ill-formed, so any call to `at` fails to compile, and nothing in the library calls it. It would otherwise copy the same slice as `operator[]`.
- `begin`/`end` (vec.hpp:138-139, mat.hpp:68-69): raw-pointer iteration over the buffer. `Contents()` is the sequence they would traverse.
- The `Scalar`, `Vec2`, `Vec3`, `Vec4` and `Mat2x2` aliases: they are the classes with N, or X and Y, fixed.
- The element type T and the accumulator type U are fixed to `int`, so there is no conversion.
- Integer width: elements are unbounded integers. Overflow of C++ `int` is undefined behaviour, so the model covers the runs that stay in range. That includes `INT_MIN / -1` in `/=`.
- Index width: indices are unbounded `nat`. The source computes `X*index` and `Y*index` (mat.hpp:29, mat.hpp:41) in `size_t`, which wraps modulo 2^64. An index whose products wrap back inside the buffer (X = Y = 2, index = 2^63 copies row 0) is excluded by the requires of `Matrix.Mat.Row` and `Matrix.Mat.Column`, which ask the caller for an in-range index.
- Stream output: `Vec.Render` returns the string that `operator<<` writes. The stream and its formatting flags are not modelled.
- The indeterminate starting value of `result` in `sum` (vec.hpp:27, mat.hpp:20): both `Sum` methods start at 0.
- `Matrix.Mat.ScaleAssign`: the source's `operator*=` has no `return *this`. In C++, flowing off the end of a non-void function is undefined behaviour on every call, whether or not the result is used, so `operator/` (mat.hpp:64), which calls it, is undefined as well. The method models only the in-place loop and returns nothing.
- `Vector.Vec.ForEach`: `func` is a `std::function<void(T&)>` that may do anything. The model takes a pure `int -> int` applied to each element in index order.
- Row/column layout: the source uses stride X for `operator[]` and stride Y for `operator()`. The model keeps both strides and does not decide which one conventional row-major order would need. For X == Y the two agree: this follows from the ensures of `Matrix.Mat.Row` and `Matrix.Mat.Column` and is stated by `Matrix.SquareAccessorsAgree`.

## Findings

| source | as written | input that shows it | evidently intended | confidence | as-written member | corrected member |
|---|---|---|---|---|---|---|
| mat.hpp:63-66 | `operator/` runs `lhs *= rhs`, so every entry is multiplied by the divisor; that call is also undefined behaviour in C++, because `*=` has no return statement, and the model takes the effect of the loop `*=` runs | the 1x1 matrix {2} divided by 2 gives {4} (`Matrix.DivideIsNotDivision`, `Matrix.DivideExample`) | every entry divided by the divisor, giving {1}, so that (m * d) / d == m | not executed | Matrix.Divide | Matrix.Quotient |
