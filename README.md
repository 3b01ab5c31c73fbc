# geo: fixed-size vector and matrix values

This project models the value-type layer of the `geo` math library
(`base.h`): `geo::vec<M, T>`, an M-component tuple kept in a fixed-size
array, and `geo::mat<M, N, T>`, an M x N grid kept as M rows of N-arrays.
Both live in module `Geo` of `base.dfy`.

- `Vec<T>` is a class over a constant `array<T>` of length M (the inline
  `std::array`); its mutable index operator becomes the method `Set`, its
  const index operator the function `At`, its conversion to `std::array`
  the function `ToArray` (a value copy), and `==`/`!=` the functions
  `Equals`/`NotEquals`.
- `Mat<T>` is a class over a constant `array<seq<T>>` of M rows, each row a
  value sequence of N scalars. The two constructors become the named
  constructors `FromArray` and `FromRows`; the mutable row reference becomes
  `SetRow` (whole-row assignment) and `SetAt` (one scalar through the row);
  the const row access is `Row`; `==` is the method `Equals`, written as the
  source's loop over rows with an early exit, and `!=` is `NotEquals`.
- The scalar type `T` is abstract and its equality is Dafny's value
  equality, so it is reflexive; `Equals` on both types is reflexive as a
  consequence of its if-and-only-if contract.
- The vector constructor is aggregate initialisation: with fewer than M
  arguments the remaining components are value-initialised. The model takes
  that value-initialised `T` as the parameter `zero`. More than M arguments
  do not compile, hence `requires |args| <= m`.
- The variadic matrix constructor writes argument k into row k with a
  running counter. Rows after the last argument are default-initialised,
  which for scalar `T` leaves them indeterminate; the model fills them with
  arbitrary values and its contract promises nothing about them. More
  arguments than M rows would write out of bounds, hence
  `requires |args| <= m`.
- Unchecked indexing (`operator[]` with `i >= M`) is undefined behaviour in
  the source; every index operation requires an index in range.

## Model

| member | source | states |
|---|---|---|
| `Geo.Vec.constructor` | base.h:18-22 | component i is the i-th argument for i below the argument count, the value-initialised `zero` after it; the size is M |
| `Geo.Vec.ToArray` | base.h:25-28 | the conversion has exactly M entries, entry i being stored component i |
| `Geo.Vec.At` | base.h:36-39 | reading component i gives entry i of the converted array |
| `Geo.Vec.Set` | base.h:31-34 | a write through the index reference replaces component i with x; every other component is unchanged |
| `Geo.Vec.Equals` | base.h:42-45 | true iff all M components are pairwise equal; true when a vector is compared with itself |
| `Geo.Vec.NotEquals` | base.h:47-50 | true iff some component differs, i.e. exactly the negation of `Equals` |
| `Geo.Mat.FromArray` | base.h:61-64 | the matrix holds exactly the given nested array, row for row |
| `Geo.Mat.FromRows` | base.h:66-77 | the counter loop puts the k-th argument in row k for every argument, and keeps every row N wide |
| `Geo.Mat.Row` | base.h:85-88 | row i of the stored rows, N entries long |
| `Geo.Mat.SetRow` | base.h:80-83 | assigning through the row reference replaces row i; the other rows are unchanged |
| `Geo.Mat.SetAt` | base.h:80-83 | writing entry (i, j) through the row reference changes that entry only |
| `Geo.Mismatch` | base.h:93-101 | the loop's exit point: all rows before it are equal, and the row at it differs unless it is M |
| `Geo.MismatchFullIffEqual` | base.h:93-101 | no differing row exists iff the two row sequences are equal |
| `Geo.Mat.Equals` | base.h:91-102 | true iff every row equals the other matrix's row; on false it has compared exactly up to the first differing row and no row after it; a matrix equals itself |
| `Geo.Mat.NotEquals` | base.h:104-107 | true iff some row differs, i.e. exactly the negation of `Equals` |

## Left out

- The `static_cast<T>` in the vector constructor: arguments are taken as
  `T` already; conversions between scalar types are not modelled.
- Floating-point equality of `platform_type` (from `float.h`, which is not
  part of this model): NaN makes float `==` non-reflexive; the model's `T`
  has plain value equality.
- `Geo.Mat.FromRows`: the indeterminate contents of rows that receive no
  argument are modelled as arbitrary values of `T`, all rows alike; the
  contract says nothing about them, as the source guarantees nothing.
- Comparing a `mat` with an arbitrary indexable `other` (the parameter is
  `const auto&`): the model compares two matrices of the same dimensions.
- The vector and matrix operations declared in `vector.h` and `matrix.h`
  (`broadcast`, multiply, determinant and the rest): vector.h and matrix.h
  are not part of this model.
- The renderer (`main.cpp`, `shader.h`), the voxel `Block` record
  (`geometry.h`) and the test harness (`test.cpp`, `test.h`): window,
  OpenGL and message-box calls plus floating-point numerics, outside the
  value layer modelled here.
