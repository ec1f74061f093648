/**
 * The generic fixed-size vector `Vector<N, T>` of include/gof/vector/Vector.hpp, with the scalar
 * type T taken as `int`. The vector is an immutable value holding N components, 1 <= N <= 4;
 * every operation returns a new vector. The operators, like the source, dispatch on N and spell
 * out each dimension; their contracts state the component-wise meaning once for all N.
 */
module GofVector {
  import opened Optional

  /** The dimension N of a vector type: the library handles one to four components. */
  type Dim = n: int | 1 <= n <= 4 witness 1

  /** The storage `_v` of a vector: its components in order. */
  datatype VectorValue = VectorValue(data: seq<int>)

  /** A vector of one of the handled dimensions. */
  type Vector = v: VectorValue | 1 <= |v.data| <= 4 witness VectorValue([0])

  /** `size`: the number of components N, the same for the type and for each of its values. */
  function Size(v: Vector): (r: Dim)
    ensures r == |Values(v)|
  {
    |v.data|
  }

  /** `k` zero-valued components. */
  function Zeros(k: nat): (s: seq<int>)
    ensures |s| == k
    ensures forall i :: 0 <= i < k ==> s[i] == 0
  {
    seq(k, _ => 0)
  }

  /**
   * The variadic constructor `Vector(xs...)` for a vector type of dimension `n`. Brace-initialising
   * the component array from fewer than `n` values sets the remaining ones to zero; more than `n`
   * values, or none at all, do not compile.
   */
  function Make(n: Dim, xs: seq<int>): (v: Vector)
    requires 1 <= |xs| <= n
    ensures Size(v) == n
    ensures forall i :: 0 <= i < |xs| ==> v.data[i] == xs[i]
    ensures forall i :: |xs| <= i < n ==> v.data[i] == 0
  {
    VectorValue(xs + Zeros(n - |xs|))
  }

  /** Component #1, available for every N >= 1. */
  function X(v: Vector): (r: int)
    ensures r == Values(v)[0]
  {
    v.data[0]
  }

  /** Component #2, available only for N >= 2. */
  function Y(v: Vector): (r: int)
    requires Size(v) >= 2
    ensures r == Values(v)[1]
  {
    v.data[1]
  }

  /** Component #3, available only for N >= 3. */
  function Z(v: Vector): (r: int)
    requires Size(v) >= 3
    ensures r == Values(v)[2]
  {
    v.data[2]
  }

  /** Component #4, available only for N == 4. */
  function W(v: Vector): (r: int)
    requires Size(v) == 4
    ensures r == Values(v)[3]
  {
    v.data[3]
  }

  /** `values()`: a copy of all N components, in order. */
  function Values(v: Vector): (s: seq<int>)
    ensures |s| == |v.data|
    ensures forall i :: 0 <= i < |s| ==> s[i] == v.data[i]
  {
    v.data
  }

  /** The named accessors read the components 0 to 3 of `values()`, under their dimension bounds. */
  lemma AccessorsReadValues(v: Vector)
    ensures X(v) == Values(v)[0]
    ensures Size(v) >= 2 ==> Y(v) == Values(v)[1]
    ensures Size(v) >= 3 ==> Z(v) == Values(v)[2]
    ensures Size(v) == 4 ==> W(v) == Values(v)[3]
  {
  }

  /**
   * Constructing from k values of a dimension-n type: the accessors give back the values in order
   * and every accessor past them gives zero.
   */
  lemma MakeAccessors(n: Dim, xs: seq<int>)
    requires 1 <= |xs| <= n
    ensures X(Make(n, xs)) == xs[0]
    ensures n >= 2 ==> Y(Make(n, xs)) == (if |xs| >= 2 then xs[1] else 0)
    ensures n >= 3 ==> Z(Make(n, xs)) == (if |xs| >= 3 then xs[2] else 0)
    ensures n == 4 ==> W(Make(n, xs)) == (if |xs| == 4 then xs[3] else 0)
  {
  }

  /** Every component of `v` is exactly zero. */
  predicate AllZero(v: Vector)
  {
    forall i :: 0 <= i < Size(v) ==> v.data[i] == 0
  }

  /** Every component of `v` is exactly one. */
  predicate AllOnes(v: Vector)
  {
    forall i :: 0 <= i < Size(v) ==> v.data[i] == 1
  }

  /** `v` has a one at index `k` and zeros everywhere else. */
  predicate IsUnitAlong(v: Vector, k: nat)
  {
    k < Size(v) && forall i :: 0 <= i < Size(v) ==> v.data[i] == (if i == k then 1 else 0)
  }

  /** `is_zero()`: walks the components and answers false at the first one that is not zero. */
  method IsZero(v: Vector) returns (b: bool)
    ensures b <==> AllZero(v)
  {
    var values := Values(v);
    for i := 0 to |values|
      invariant forall j :: 0 <= j < i ==> v.data[j] == 0
    {
      if values[i] != 0 {
        return false;
      }
    }
    return true;
  }

  /** `zero()`: the vector whose components are all zero. */
  function Zero(n: Dim): (v: Vector)
    ensures Size(v) == n && AllZero(v)
  {
    Make(n, [0])
  }

  /** `unit_x()`: the unit vector in direction x. */
  function UnitX(n: Dim): (v: Vector)
    ensures Size(v) == n && IsUnitAlong(v, 0)
  {
    Make(n, [1])
  }

  /** `unit_y()`: the unit vector in direction y; it has two initialisers, so it needs N >= 2. */
  function UnitY(n: Dim): (v: Vector)
    requires n >= 2
    ensures Size(v) == n && IsUnitAlong(v, 1)
  {
    Make(n, [0, 1])
  }

  /** `unit_z()`: the unit vector in direction z; it has three initialisers, so it needs N >= 3. */
  function UnitZ(n: Dim): (v: Vector)
    requires n >= 3
    ensures Size(v) == n && IsUnitAlong(v, 2)
  {
    Make(n, [0, 0, 1])
  }

  /**
   * `ones()` as written: a branch for N == 1, 2 and 3 and none for N == 4, where control reaches
   * the end of the function without returning a vector (`None`).
   */
  function OnesAsWritten(n: Dim): (r: Option<Vector>)
    ensures r.None? <==> n == 4
    ensures r.Some? ==> Size(r.value) == n && AllOnes(r.value)
  {
    if n == 1 then Some(Make(1, [1]))
    else if n == 2 then Some(Make(2, [1, 1]))
    else if n == 3 then Some(Make(3, [1, 1, 1]))
    else None
  }

  /** `ones()` with the missing N == 4 branch supplied: all components one, for every N. */
  function Ones(n: Dim): (v: Vector)
    ensures Size(v) == n && AllOnes(v)
  {
    if n == 1 then Make(1, [1])
    else if n == 2 then Make(2, [1, 1])
    else if n == 3 then Make(3, [1, 1, 1])
    else Make(4, [1, 1, 1, 1])
  }

  /** The written `ones()` agrees with the corrected one wherever it returns, and returns nothing for N == 4. */
  lemma OnesAsWrittenMissesDimFour(n: Dim)
    ensures n <= 3 ==> OnesAsWritten(n) == Some(Ones(n))
    ensures OnesAsWritten(4) == None && AllOnes(Ones(4))
  {
    if n <= 3 {
      VectorExtensionality(OnesAsWritten(n).value, Ones(n));
    }
  }

  /** Two vectors of one dimension are the same value exactly when their components agree. */
  lemma VectorExtensionality(a: Vector, b: Vector)
    requires Size(a) == Size(b)
    requires forall i :: 0 <= i < Size(a) ==> a.data[i] == b.data[i]
    ensures a == b
  {
    assert a.data == b.data;
  }

  /** `operator ==`: compares the N components one by one. */
  function Equal(a: Vector, b: Vector): (r: bool)
    requires Size(a) == Size(b)
    ensures r <==> forall i :: 0 <= i < Size(a) ==> a.data[i] == b.data[i]
    ensures r <==> a == b
  {
    var n := Size(a);
    if n == 1 then X(a) == X(b)
    else if n == 2 then X(a) == X(b) && Y(a) == Y(b)
    else if n == 3 then X(a) == X(b) && Y(a) == Y(b) && Z(a) == Z(b)
    else X(a) == X(b) && Y(a) == Y(b) && Z(a) == Z(b) && W(a) == W(b)
  }

  /** `operator !=`: the negation of `==`. */
  function NotEqual(a: Vector, b: Vector): (r: bool)
    requires Size(a) == Size(b)
    ensures r <==> exists i :: 0 <= i < Size(a) && a.data[i] != b.data[i]
    ensures r <==> a != b
  {
    !Equal(a, b)
  }

  /** Equality is reflexive and symmetric, and a difference in any one component makes two vectors unequal. */
  lemma EqualityIsExact(a: Vector, b: Vector, k: nat)
    requires Size(a) == Size(b)
    ensures Equal(a, a)
    ensures Equal(a, b) == Equal(b, a)
    ensures k < Size(a) && a.data[k] != b.data[k] ==> NotEqual(a, b) && !Equal(a, b)
  {
  }

  /** `operator *(factor, v)`: scalar multiplication, spelled out per dimension. */
  function ScalarMul(factor: int, v: Vector): (r: Vector)
    ensures Size(r) == Size(v)
    ensures forall i :: 0 <= i < Size(v) ==> r.data[i] == factor * v.data[i]
  {
    var n := Size(v);
    if n == 1 then Make(1, [factor * X(v)])
    else if n == 2 then Make(2, [factor * X(v), factor * Y(v)])
    else if n == 3 then Make(3, [factor * X(v), factor * Y(v), factor * Z(v)])
    else Make(4, [factor * X(v), factor * Y(v), factor * Z(v), factor * W(v)])
  }

  /** `1 * v == v` and `0 * v == zero()`. */
  lemma ScalarMulIdentities(v: Vector)
    ensures ScalarMul(1, v) == v
    ensures ScalarMul(0, v) == Zero(Size(v))
  {
    VectorExtensionality(ScalarMul(1, v), v);
    VectorExtensionality(ScalarMul(0, v), Zero(Size(v)));
  }

  /** Unary `operator -`: multiplication by -1. */
  function Neg(v: Vector): (r: Vector)
    ensures Size(r) == Size(v)
    ensures forall i :: 0 <= i < Size(v) ==> r.data[i] == -v.data[i]
  {
    ScalarMul(-1, v)
  }

  /** Negation undoes itself. */
  lemma NegNeg(v: Vector)
    ensures Neg(Neg(v)) == v
  {
    VectorExtensionality(Neg(Neg(v)), v);
  }

  /** Binary `operator +`: addition of two vectors of one dimension, spelled out per dimension. */
  function Add(a: Vector, b: Vector): (r: Vector)
    requires Size(a) == Size(b)
    ensures Size(r) == Size(a)
    ensures forall i :: 0 <= i < Size(a) ==> r.data[i] == a.data[i] + b.data[i]
  {
    var n := Size(a);
    if n == 1 then Make(1, [X(a) + X(b)])
    else if n == 2 then Make(2, [X(a) + X(b), Y(a) + Y(b)])
    else if n == 3 then Make(3, [X(a) + X(b), Y(a) + Y(b), Z(a) + Z(b)])
    else Make(4, [X(a) + X(b), Y(a) + Y(b), Z(a) + Z(b), W(a) + W(b)])
  }

  /** Addition is commutative, has `zero()` as identity and `-v` as inverse of `v`. */
  lemma AddLaws(a: Vector, b: Vector)
    requires Size(a) == Size(b)
    ensures Add(a, b) == Add(b, a)
    ensures Add(a, Zero(Size(a))) == a
    ensures Add(a, Neg(a)) == Zero(Size(a))
  {
    VectorExtensionality(Add(a, b), Add(b, a));
    VectorExtensionality(Add(a, Zero(Size(a))), a);
    VectorExtensionality(Add(a, Neg(a)), Zero(Size(a)));
  }

  /** Scalar multiplication distributes over addition. */
  lemma ScalarMulDistributes(s: int, a: Vector, b: Vector)
    requires Size(a) == Size(b)
    ensures ScalarMul(s, Add(a, b)) == Add(ScalarMul(s, a), ScalarMul(s, b))
  {
    var l, r := ScalarMul(s, Add(a, b)), Add(ScalarMul(s, a), ScalarMul(s, b));
    forall i | 0 <= i < Size(a)
      ensures l.data[i] == r.data[i]
    {
      calc {
        l.data[i];
        s * (a.data[i] + b.data[i]);
        s * a.data[i] + s * b.data[i];
        r.data[i];
      }
    }
    VectorExtensionality(l, r);
  }

  /** Binary `operator -`: `a + (-1) * b`. */
  function Sub(a: Vector, b: Vector): (r: Vector)
    requires Size(a) == Size(b)
    ensures Size(r) == Size(a)
    ensures forall i :: 0 <= i < Size(a) ==> r.data[i] == a.data[i] - b.data[i]
  {
    Add(a, ScalarMul(-1, b))
  }

  /** `v - v == zero()`, and subtracting then adding `b` gives back `a`. */
  lemma SubLaws(a: Vector, b: Vector)
    requires Size(a) == Size(b)
    ensures Sub(a, a) == Zero(Size(a))
    ensures Add(Sub(a, b), b) == a
    ensures Sub(a, b) == Add(a, Neg(b))
  {
    VectorExtensionality(Sub(a, a), Zero(Size(a)));
    VectorExtensionality(Add(Sub(a, b), b), a);
  }

  /** A vector is all zeros exactly when it is the `zero()` of its dimension. */
  lemma AllZeroIffZero(v: Vector)
    ensures AllZero(v) <==> v == Zero(Size(v))
  {
    if AllZero(v) {
      VectorExtensionality(v, Zero(Size(v)));
    }
  }

  /** The library's own examples, stated on `int` components. */
  lemma Scenarios()
    ensures X(Make(2, [1])) == 1 && Y(Make(2, [1])) == 0
    ensures Add(Make(2, [1, 2]), Make(2, [2, 1])) == Make(2, [3, 3])
    ensures Neg(Make(2, [1, 2])) == Make(2, [-1, -2])
    ensures Sub(Make(2, [1, 2]), Make(2, [1, 2])) == Zero(2)
    ensures UnitZ(3) == Make(3, [0, 0, 1])
    ensures NotEqual(Make(3, [1, 0]), Make(3, [2, 1]))
    ensures NotEqual(Make(2, [1, 2]), Make(2, [3, 2]))
    ensures Size(Make(2, [1])) == 2
  {
    var u, v := Make(2, [1, 2]), Make(2, [2, 1]);
    VectorExtensionality(Add(u, v), Make(2, [3, 3]));
    VectorExtensionality(Neg(u), Make(2, [-1, -2]));
    SubLaws(u, u);
    VectorExtensionality(UnitZ(3), Make(3, [0, 0, 1]));
  }

  const IntMin: int := -0x8000_0000
  const IntMax: int := 0x7FFF_FFFF

  /** The C++ `int` type. */
  type Int = x: int | IntMin <= x <= IntMax

  /** `plus(int, int)`: the scalar sum; an overflowing sum is undefined behaviour, so callers must avoid it. */
  function Plus(a: Int, b: Int): (r: Int)
    requires IntMin <= a + b <= IntMax
    ensures r == X(Add(Make(1, [a]), Make(1, [b])))
  {
    a + b
  }

  /** `plus(a, b)` is the only component of the sum of the one-component vectors `(a)` and `(b)`. */
  lemma PlusIsOneDimensionalAdd(a: Int, b: Int)
    requires IntMin <= a + b <= IntMax
    ensures Add(Make(1, [a]), Make(1, [b])) == Make(1, [Plus(a, b)])
    ensures Plus(a, b) == Plus(b, a)
  {
    VectorExtensionality(Add(Make(1, [a]), Make(1, [b])), Make(1, [Plus(a, b)]));
  }
}
