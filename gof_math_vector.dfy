/**
 * The newer class body of `Vector<N, T>` in include/gof/math/vector/Vector.hpp, with T taken as
 * `int`. Its constructor, accessors, `values()`, `zero`, `unit_x`, `unit_y`, `unit_z` and `ones`
 * are those of GofVector; this module adds what the newer body introduces: `unit_w`, the copy
 * constructor, `scale`, the loop-based `is_zero` as written here, and `length`/`magnitude`.
 */
module GofMathVector {
  import opened Optional
  import opened GofVector

  /** `unit_w()`: the unit vector in direction w; it has four initialisers, so it needs N == 4. */
  function UnitW(n: Dim): (v: Vector)
    requires n == 4
    ensures Size(v) == 4 && IsUnitAlong(v, 3)
  {
    Make(n, [0, 0, 0, 1])
  }

  /** The copy constructor: a new vector initialised from `that.values()`. */
  function CopyOf(that: Vector): (v: Vector)
    ensures Size(v) == Size(that)
    ensures Values(v) == Values(that)
  {
    VectorValue(Values(that))
  }

  /** `scale(scalar)`: the same as `scalar * v`. */
  function Scale(v: Vector, scalar: int): (r: Vector)
    ensures Size(r) == Size(v)
    ensures forall i :: 0 <= i < Size(v) ==> r.data[i] == scalar * v.data[i]
  {
    ScalarMul(scalar, v)
  }

  /** Scaling by one is the identity, and scaling twice is scaling by the product. */
  lemma ScaleLaws(v: Vector, s: int, t: int)
    ensures Scale(v, 1) == v
    ensures Scale(Scale(v, s), t) == Scale(v, t * s)
  {
    ScalarMulIdentities(v);
    var l, r := Scale(Scale(v, s), t), Scale(v, t * s);
    VectorExtensionality(l, r);
  }

  /**
   * `is_zero()` as written in this file: it answers false at the first nonzero component, but has
   * no return statement after the loop, so on an all-zero vector it produces no answer (`None`).
   */
  method IsZeroAsWritten(v: Vector) returns (r: Option<bool>)
    ensures r == None <==> AllZero(v)
    ensures r != None ==> r == Some(false)
  {
    var values := Values(v);
    for i := 0 to |values|
      invariant forall j :: 0 <= j < i ==> v.data[j] == 0
    {
      if values[i] != 0 {
        return Some(false);
      }
    }
    return None;
  }

  /** The sum of the squares of the components of `s`, accumulated from the first to the last. */
  function SumOfSquares(s: seq<int>): (r: int)
    ensures r >= 0
  {
    if s == [] then 0 else SumOfSquares(s[..|s| - 1]) + s[|s| - 1] * s[|s| - 1]
  }

  /** Appending a component adds its square: the step of the accumulating loop of `length()`. */
  lemma SumOfSquaresAppend(s: seq<int>, x: int)
    ensures SumOfSquares(s + [x]) == SumOfSquares(s) + x * x
  {
    assert (s + [x])[..|s|] == s;
  }

  /** The sum of squares is zero exactly when every component is zero. */
  lemma {:induction false} SumOfSquaresZeroIff(s: seq<int>)
    ensures SumOfSquares(s) == 0 <==> forall i :: 0 <= i < |s| ==> s[i] == 0
  {
    if s != [] {
      var init, last := s[..|s| - 1], s[|s| - 1];
      SumOfSquaresZeroIff(init);
      assert last * last == 0 <==> last == 0;
      assert (forall i :: 0 <= i < |s| ==> s[i] == 0) <==>
             (forall i :: 0 <= i < |init| ==> init[i] == 0) && last == 0;
    }
  }

  /** A sequence with a single one and zeros elsewhere has sum of squares one. */
  lemma {:induction false} SumOfSquaresOfUnit(s: seq<int>, k: nat)
    requires k < |s|
    requires forall i :: 0 <= i < |s| ==> s[i] == (if i == k then 1 else 0)
    ensures SumOfSquares(s) == 1
  {
    var init := s[..|s| - 1];
    if k == |s| - 1 {
      SumOfSquaresZeroIff(init);
    } else {
      SumOfSquaresOfUnit(init, k);
    }
  }

  /** The integral square root: the largest `r` whose square does not exceed `n`. */
  function ISqrt(n: nat): (r: nat)
    ensures r * r <= n < (r + 1) * (r + 1)
  {
    if n == 0 then 0
    else
      var r := ISqrt(n - 1);
      if (r + 1) * (r + 1) <= n then r + 1 else r
  }

  /** The integral square root is zero only at zero and maps one to one. */
  lemma ISqrtZeroAndOne(n: nat)
    ensures ISqrt(n) == 0 <==> n == 0
    ensures ISqrt(1) == 1
  {
  }

  /**
   * The Euclidean norm of `v` for T = int: the square root of the sum of the squares of its
   * components, truncated to an integer when it is converted back to T.
   */
  function EuclideanLength(v: Vector): (r: nat)
    ensures r * r <= SumOfSquares(Values(v)) < (r + 1) * (r + 1)
  {
    ISqrt(SumOfSquares(Values(v)))
  }

  /** `length()`: accumulates the squares of the components in a loop and takes the square root. */
  method Length(v: Vector) returns (r: nat)
    ensures r == EuclideanLength(v)
    ensures r * r <= SumOfSquares(Values(v)) < (r + 1) * (r + 1)
  {
    var values := Values(v);
    var result := 0;
    for i := 0 to |values|
      invariant result == SumOfSquares(values[..i])
    {
      assert values[..i + 1] == values[..i] + [values[i]];
      SumOfSquaresAppend(values[..i], values[i]);
      result := result + values[i] * values[i];
    }
    assert values[..|values|] == values;
    r := ISqrt(result);
  }

  /** `magnitude()`: an alias for `length()`. */
  method Magnitude(v: Vector) returns (r: nat)
    ensures r == EuclideanLength(v)
    ensures r * r <= SumOfSquares(Values(v)) < (r + 1) * (r + 1)
  {
    r := Length(v);
  }

  /** A vector has length zero exactly when all its components are zero. */
  lemma LengthZeroIffAllZero(v: Vector)
    ensures EuclideanLength(v) == 0 <==> AllZero(v)
  {
    SumOfSquaresZeroIff(Values(v));
    ISqrtZeroAndOne(SumOfSquares(Values(v)));
  }

  /** Every unit vector factory gives a vector of length one. */
  lemma UnitVectorsHaveLengthOne(n: Dim)
    ensures EuclideanLength(UnitX(n)) == 1
    ensures n >= 2 ==> EuclideanLength(UnitY(n)) == 1
    ensures n >= 3 ==> EuclideanLength(UnitZ(n)) == 1
    ensures n == 4 ==> EuclideanLength(UnitW(n)) == 1
  {
    ISqrtZeroAndOne(1);
    SumOfSquaresOfUnit(Values(UnitX(n)), 0);
    if n >= 2 {
      SumOfSquaresOfUnit(Values(UnitY(n)), 1);
    }
    if n >= 3 {
      SumOfSquaresOfUnit(Values(UnitZ(n)), 2);
    }
    if n == 4 {
      SumOfSquaresOfUnit(Values(UnitW(n)), 3);
    }
  }
}
