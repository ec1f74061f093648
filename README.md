# Fixed-size vectors of the vector-algebra library, in Dafny

This project models the vector types of a small C++ header library for computer graphics and
simulation. The main type is the generic `Vector<N, T>`: an immutable value with N numeric
components, 1 <= N <= 4. It has:

- a variadic constructor that zero-fills the components it is not given;
- the accessors `x`, `y`, `z`, `w` and `values()`;
- the factories `zero`, `unit_x`, `unit_y`, `unit_z`, `unit_w` and `ones`;
- exact `==`/`!=`, scalar `*`, unary and binary `-`, `+`;
- `is_zero`, `scale`, `length`/`magnitude`.

Beside it the library has hand-written `Vector2<T>` and `Vector3<T>` classes with `const` fields,
exact `==`/`!=` and scalar `*`.

The scalar type T is `int` throughout. Equality is therefore exact, with no floating-point effects.

Modules:

- `GofVector` (gof_vector.dfy): the generic vector of `include/gof/vector/Vector.hpp`.
  - A vector is a `VectorValue(data: seq<int>)` with 1 to 4 components.
  - The dimension N is the length of `data`, of type `Dim`.
  - The compile-time guards (`enable_if`, the initialiser count of `std::array`) become `requires` clauses.
  - Each operator's body spells out the N = 1, 2, 3, 4 cases as the source does. Its contract states the component-wise meaning for every N.
- `GofMathVector` (gof_math_vector.dfy): what the newer class body in
  `include/gof/math/vector/Vector.hpp` adds: `unit_w`, the copy constructor, `scale`, its own
  `is_zero`, `length` as a loop, and `magnitude`, which calls `length` and has no loop of its own.
- `FixedVectors` (fixed_vectors.dfy): the hand-written `Vector2` and `Vector3`. Each is a datatype.
  - The datatype's constructor is the two- or three-argument constructor.
  - Its destructors `x`, `y`, `z` are the accessors.
  - `Broadcast2` is the one-argument constructor of `include/vector/Vector2.hpp:25`, which copies its value into both fields.
  - Each operator is tied to the generic one through `AsVector2`/`AsVector3`.
- `Optional` (optional.dfy): `Option`, for code paths that end without a result.

The library has three drafts of `Vector<N, T>`, and one definition serves all three:

- `include/vector/Vector.hpp` is the oldest. Its constructor (40-41), accessors (48-73), scalar `*` (80-95), unary `-` (100-103), `+` (108-122), binary `-` (127-130) and `plus` (132-134) are the same code as in `include/gof/vector/Vector.hpp`. `GofVector.Make`, `X`…`W`, `ScalarMul`, `Neg`, `Add`, `Sub` and `Plus` model both.
- `include/gof/math/vector/Vector.hpp` has the same constructor (61-62), accessors (79-104), `values()` (106-108), `zero`/`unit_x`/`unit_y`/`unit_z` (203-232) and `ones` (246-256) as `include/gof/vector/Vector.hpp`.

The hand-written classes are also repeated:

- `Vector2` appears in `vector/include/vector/vector.hpp`, `include/vector/Vector2.hpp` and `vector/include/vector/Vector2.hpp`.
- `Vector3` appears in `vector/include/vector/vector.hpp` and `include/vector/Vector3.hpp`.
- Their operators are the same code in every file, so one datatype each models them all.

Where the design text and the code differ, the model follows the code:

- The doc comment of the constructor at `include/gof/math/vector/Vector.hpp:57-59` speaks of "all components set to a single value". The code zero-fills, and so does the model.
- `Vector() = default` at `include/gof/vector/Vector.hpp:40` and `include/vector/Vector.hpp:35` is still a deleted constructor. The class's only data member is a `const std::array` without an initialiser, so a defaulted constructor cannot initialise it. The newer draft deletes it outright (`include/gof/math/vector/Vector.hpp:50`). So `Make` asks for at least one value in every draft.
- "No more than four elements" is only a comment in the C++. The operators define a result for N = 1 to 4 only, and the model fixes N to that range.
- The test at `vector/tests/vector_test.cpp:77-81` expects the one-argument constructor to broadcast. Which directory its `<vector/Vector2.hpp>` include resolves to is a build setting outside the headers modelled here. Its expectation matches the broadcasting constructor at `include/vector/Vector2.hpp:25`; `vector/include/vector/Vector2.hpp` has no one-argument constructor.

## Model

| member | source | states |
|---|---|---|
| GofVector.Make | include/gof/vector/Vector.hpp:42-46 | constructing from 1 <= k <= N values gives a vector of size N whose first k components are the values in order and whose remaining components are 0 |
| GofVector.Size | include/gof/vector/Vector.hpp:35 | `size` is N, the number of components `values()` holds; as a value of `Dim` it lies between 1 and 4 |
| GofVector.X | include/gof/vector/Vector.hpp:53-54 | `x()` is component 0 of `values()`, available for every N >= 1 |
| GofVector.Y | include/gof/vector/Vector.hpp:61-62 | `y()` is component 1 of `values()`; it requires N >= 2 |
| GofVector.Z | include/gof/vector/Vector.hpp:69-70 | `z()` is component 2 of `values()`; it requires N >= 3 |
| GofVector.W | include/gof/vector/Vector.hpp:77-78 | `w()` is component 3 of `values()`; it requires N == 4 |
| GofVector.MakeAccessors | include/gof/vector/Vector.hpp:53-78 | on a constructed vector, `x`/`y`/`z`/`w` return the given values in order and 0 past them; each requires N >= 1, N >= 2, N >= 3, N == 4 |
| GofVector.AccessorsReadValues | include/gof/math/vector/Vector.hpp:79-108 | `x`, `y`, `z`, `w` are `values()[0]` to `values()[3]` under their dimension bounds |
| GofVector.Values | include/gof/vector/Vector.hpp:80-82 | `values()` holds exactly the N components, in order |
| GofVector.IsZero | include/gof/vector/Vector.hpp:87-95 | the loop with early `return false` answers true iff every component is 0 |
| GofVector.AllZeroIffZero | include/gof/vector/Vector.hpp:105-110 | a vector is all zeros iff it equals `zero()` of its dimension |
| GofVector.Zero | include/gof/vector/Vector.hpp:108-110 | `zero()` has N components, all 0 |
| GofVector.UnitX | include/gof/vector/Vector.hpp:117-119 | `unit_x()` has N components, 1 at index 0 and 0 elsewhere |
| GofVector.UnitY | include/gof/vector/Vector.hpp:126-128 | `unit_y()` needs N >= 2 and has 1 at index 1 and 0 elsewhere |
| GofVector.UnitZ | include/gof/vector/Vector.hpp:135-137 | `unit_z()` needs N >= 3 and has 1 at index 2 and 0 elsewhere |
| GofVector.OnesAsWritten | include/gof/math/vector/Vector.hpp:246-256 | `ones()` as written returns an all-ones vector of size N for N = 1, 2, 3 and no vector exactly when N == 4 |
| GofVector.Ones | include/gof/vector/Vector.hpp:139-143 | `ones()` with the N == 4 branch supplied: N components, all 1 |
| GofVector.OnesAsWrittenMissesDimFour | include/gof/vector/Vector.hpp:139-143 | the written and the corrected `ones()` agree for N <= 3; for N == 4 only the corrected one has a result |
| GofVector.Equal | include/gof/vector/Vector.hpp:176-190 | `==` holds iff all N components are pairwise equal, that is iff the two vectors are the same value |
| GofVector.NotEqual | include/gof/vector/Vector.hpp:195-198 | `!=` holds iff some component differs, that is iff the vectors are different values |
| GofVector.EqualityIsExact | tests/vector_test.cpp:102-143 | `==` is reflexive and symmetric, and vectors differing in any one component are not equal |
| GofVector.ScalarMul | include/gof/vector/Vector.hpp:155-170 | `s * v` keeps N and multiplies every component by s |
| GofVector.ScalarMulIdentities | tests/vector_test.cpp:211-213 | `1 * v == v` and `0 * v == zero()` |
| GofVector.ScalarMulDistributes | include/vector/Vector.hpp:80-95 | `s * (a + b) == s * a + s * b` |
| GofVector.Neg | include/gof/vector/Vector.hpp:204-207 | `-v`, defined as `(-1) * v`, keeps N and negates every component |
| GofVector.NegNeg | include/vector/Vector.hpp:100-103 | negating twice gives back the vector |
| GofVector.Add | include/gof/vector/Vector.hpp:213-227 | `a + b` keeps N and adds the components pairwise |
| GofVector.AddLaws | include/vector/Vector.hpp:108-122 | `+` is commutative, `zero()` is its identity and `v + (-v) == zero()` |
| GofVector.Sub | include/gof/vector/Vector.hpp:233-236 | `a - b`, defined as `a + (-1) * b`, keeps N and subtracts the components pairwise |
| GofVector.SubLaws | include/vector/Vector.hpp:127-130 | `v - v == zero()`, `(a - b) + b == a` and `a - b == a + (-b)` |
| GofVector.Scenarios | tests/vector_test.cpp:150-219 | the test examples: `(1)` in two dimensions is `(1, 0)`, `(1,2) + (2,1) == (3,3)`, `-(1,2) == (-1,-2)`, `(1,2) - (1,2) == zero()`, `unit_z() == (0,0,1)`, `(1,0,0) != (2,1,0)`, `(1,2) != (3,2)`, `size == 2` |
| GofVector.Plus | include/gof/vector/Vector.hpp:263-265 | `plus(a, b)` on C++ `int`, defined only when the sum does not overflow, is the `x()` of the sum of the one-component vectors `(a)` and `(b)` |
| GofVector.PlusIsOneDimensionalAdd | include/vector/Vector.hpp:132-134 | `plus(a, b)` on C++ `int` (no overflow) is the component of `(a) + (b)` for one-component vectors, and is commutative |
| GofMathVector.UnitW | include/gof/math/vector/Vector.hpp:239-241 | `unit_w()` needs N == 4 and has 1 at index 3 and 0 elsewhere |
| GofMathVector.CopyOf | include/gof/math/vector/Vector.hpp:67 | the copy has the same size and the same `values()` as the original |
| GofMathVector.Scale | include/gof/math/vector/Vector.hpp:194-196 | `scale(s)` keeps N and multiplies every component by s, as `s * v` does |
| GofMathVector.ScaleLaws | include/gof/math/vector/Vector.hpp:189-196 | `scale(1)` is the identity and `scale(s).scale(t) == scale(t * s)` |
| GofMathVector.IsZeroAsWritten | include/gof/math/vector/Vector.hpp:113-120 | the loop answers false iff some component is nonzero; on an all-zero vector it has no answer |
| GofMathVector.SumOfSquares | include/gof/math/vector/Vector.hpp:130-133 | the sum of squares, accumulated from `T{0}`, is never negative |
| GofMathVector.SumOfSquaresAppend | include/gof/math/vector/Vector.hpp:131-133 | one more component adds its square to the sum: the `result += (e * e)` step |
| GofMathVector.SumOfSquaresZeroIff | include/gof/math/vector/Vector.hpp:130-133 | the sum of squares is 0 iff every component is 0 |
| GofMathVector.SumOfSquaresOfUnit | include/gof/math/vector/Vector.hpp:130-133 | a single 1 among zeros has sum of squares 1 |
| GofMathVector.ISqrt | include/gof/math/vector/Vector.hpp:134 | `std::sqrt` truncated back to `int`: the largest r with r * r <= n |
| GofMathVector.ISqrtZeroAndOne | include/gof/math/vector/Vector.hpp:134 | the truncated square root is 0 only at 0, and is 1 at 1 |
| GofMathVector.EuclideanLength | include/gof/math/vector/Vector.hpp:129-135 | for T = int, `std::sqrt` of the sum of squares converted back to `int` is the integral square root: r * r <= the sum of squares < (r + 1) * (r + 1) |
| GofMathVector.Length | include/gof/math/vector/Vector.hpp:122-135 | the loop summing squares followed by the square root gives the largest r with r * r <= the sum of squares of the components |
| GofMathVector.Magnitude | include/gof/math/vector/Vector.hpp:137-142 | `magnitude()` calls `length()` and satisfies the same specification, so the two always agree |
| GofMathVector.LengthZeroIffAllZero | include/gof/math/vector/Vector.hpp:110-135 | the length is 0 iff every component is 0 |
| GofMathVector.UnitVectorsHaveLengthOne | include/gof/math/vector/Vector.hpp:207-241 | `unit_x`, `unit_y`, `unit_z` and `unit_w` have length 1 wherever they are defined |
| FixedVectors.Broadcast2 | include/vector/Vector2.hpp:25 | the one-argument constructor gives `a * ones()` in two dimensions: both fields equal a |
| FixedVectors.BroadcastIsNotZeroFill | include/vector/Vector2.hpp:25 | the broadcast `Vector2(a)` equals the generic zero-filled `Vector<2>(a)` iff a == 0 |
| FixedVectors.Equal2 | vector/include/vector/vector.hpp:35-38 | `Vector2` `==` holds iff both components are equal, and agrees with the generic `==` |
| FixedVectors.NotEqual2 | include/vector/Vector2.hpp:46-49 | `Vector2` `!=` holds iff the values differ, and agrees with the generic `!=` |
| FixedVectors.Scale2 | vector/include/vector/Vector2.hpp:54-57 | `Vector2` `s * v` is the generic `s * v` on the same components |
| FixedVectors.Vector2Laws | vector/tests/vector_test.cpp:60-75 | `Vector2` `==` is reflexive, `!=` is false on equal values, and `1 * v == v` |
| FixedVectors.Vector2Scenarios | Math/tests/vector_test.cpp:98-119 | `(3,2) == (3,2)`, `(1,2) != (3,2)` and the broadcast `Vector2(1)` is `(1,1)` |
| FixedVectors.Equal3 | include/vector/Vector3.hpp:34-37 | `Vector3` `==` holds iff all three components are equal, and agrees with the generic `==` |
| FixedVectors.NotEqual3 | vector/include/vector/vector.hpp:89-92 | `Vector3` `!=` holds iff the values differ, and agrees with the generic `!=` |
| FixedVectors.Scale3 | vector/include/vector/vector.hpp:95-98 | `Vector3` `s * v` is the generic `s * v` on the same components |
| FixedVectors.Vector3Laws | include/vector/Vector3.hpp:46-49 | `Vector3` `==` is reflexive, `!=` is false on equal values, and `1 * v == v` |
| FixedVectors.Vector3Scenarios | vector/tests/vector_test.cpp:41-57 | `(3,2,1) == (3,2,1)` and `(1,2,3) != (3,2,1)` |

## Left out

- Floating-point T and complex T: the model fixes T to mathematical `int`. Rounding, tolerance-based comparison and `float` literals are not modelled.
- Overflow of a fixed-width T in the vector operators: components are unbounded integers. Only `plus(int, int)` is modelled on the 32-bit range, with the overflowing sums excluded.
- GofMathVector.Length: for T = int the model takes `std::sqrt` followed by truncation as the exact integral square root. How `double` rounds for very large sums is not modelled.
- The `*this->values()` spelling in `is_zero` and `length` takes the evident meaning "iterate over the components". The `template <typename Vector>` parameter of `is_zero`, which cannot be deduced, is a C++ mechanism and is left out too.
- `scalar_product` and `vector_product`: both return `nullptr` and have no numeric meaning to model.
- The operators of the newer class body are in `Vector.inl`, which is not part of this model. `Scale` is stated against the scalar `*` of `include/gof/vector/Vector.hpp`.
- `is_unit`, `is_opposite`, `is_parallel`, `is_perpendicular`, `is_uniform`, the rotations and `max_value`/`min_value`: these are comments in the source, not code.
- Vector-minus-scalar subtraction: it does not appear in any of the headers modelled here.
- The `Number` concept and the `is_complex` trait: these are compile-time constraints, met by choosing `int`.
- The virtual destructor, `explicit`, `noexcept`, `constexpr` and the SFINAE mechanics: the dimension guards appear as `requires` clauses instead.
- The matrix types, the non-compiling `include/gof/math/vector/simple/Vector.hpp`, the console example and the type aliases are outside the vector core.

## Findings

| source | as written | input that shows it | evidently intended | confidence | as-written member | corrected member |
|---|---|---|---|---|---|---|
| include/gof/vector/Vector.hpp:139-143 | `ones()` has branches for N = 1, 2, 3 only; for N == 4 control reaches the end of the function without a return | `Vector<4, T>::ones()` | the vector with all four components 1, as the doc comment at include/gof/math/vector/Vector.hpp:243-245 says | medium, not executed | GofVector.OnesAsWritten | GofVector.Ones |
| include/gof/math/vector/Vector.hpp:113-120 | `is_zero()` returns false on a nonzero component but has no `return true` after the loop | `zero().is_zero()` for any N | true on the all-zero vector, as the other draft returns at include/gof/vector/Vector.hpp:94 | high, not executed | GofMathVector.IsZeroAsWritten | GofVector.IsZero |
