/**
 * The hand-written `Vector2<T>` and `Vector3<T>` classes, with T taken as `int`. Their two or
 * three `const` fields become the fields of a datatype, whose destructors `x`, `y`, `z` are the
 * accessors and whose constructor is the two- or three-argument constructor. The operators are
 * related to those of the generic vector of GofVector through the embeddings AsVector2 and
 * AsVector3.
 */
module FixedVectors {
  import opened GofVector

  /** `Vector2<T>`: the fields `_x`, `_y`. */
  datatype Vector2 = Vector2(x: int, y: int)

  /** `Vector3<T>`: the fields `_x`, `_y`, `_z`. */
  datatype Vector3 = Vector3(x: int, y: int, z: int)

  /** The generic two-component vector with the same components. */
  function AsVector2(v: Vector2): (r: Vector)
    ensures Size(r) == 2 && X(r) == v.x && Y(r) == v.y
  {
    Make(2, [v.x, v.y])
  }

  /** The generic three-component vector with the same components. */
  function AsVector3(v: Vector3): (r: Vector)
    ensures Size(r) == 3 && X(r) == v.x && Y(r) == v.y && Z(r) == v.z
  {
    Make(3, [v.x, v.y, v.z])
  }

  /** The embeddings lose nothing: distinct values stay distinct. */
  lemma EmbeddingsAreInjective(a: Vector2, b: Vector2, c: Vector3, d: Vector3)
    ensures AsVector2(a) == AsVector2(b) ==> a == b
    ensures AsVector3(c) == AsVector3(d) ==> c == d
  {
  }

  /**
   * The one-argument constructor of the constexpr `Vector2`: it copies its argument into both
   * fields, which is `a * ones()` and not the zero fill of the generic one-argument constructor.
   */
  function Broadcast2(a: int): (v: Vector2)
    ensures AsVector2(v) == ScalarMul(a, Ones(2))
  {
    Vector2(a, a)
  }

  /** Broadcasting and zero filling give the same vector only for the value zero. */
  lemma BroadcastIsNotZeroFill(a: int)
    ensures AsVector2(Broadcast2(a)) == Make(2, [a]) <==> a == 0
  {
    if a == 0 {
      VectorExtensionality(AsVector2(Broadcast2(a)), Make(2, [a]));
    } else {
      assert Y(AsVector2(Broadcast2(a))) != Y(Make(2, [a]));
    }
  }

  /** `operator ==` on `Vector2`: both components equal. */
  function Equal2(a: Vector2, b: Vector2): (r: bool)
    ensures r <==> a == b
    ensures r <==> Equal(AsVector2(a), AsVector2(b))
  {
    a.x == b.x && a.y == b.y
  }

  /** `operator !=` on `Vector2`: the negation of `==`. */
  function NotEqual2(a: Vector2, b: Vector2): (r: bool)
    ensures r <==> a != b
    ensures r <==> NotEqual(AsVector2(a), AsVector2(b))
  {
    !Equal2(a, b)
  }

  /** `operator *(scalar, v)` on `Vector2`: it agrees with the generic scalar multiplication. */
  function Scale2(scalar: int, v: Vector2): (r: Vector2)
    ensures AsVector2(r) == ScalarMul(scalar, AsVector2(v))
  {
    Vector2(scalar * v.x, scalar * v.y)
  }

  /** Equality on `Vector2` is reflexive, and `1 * v == v`. */
  lemma Vector2Laws(v: Vector2)
    ensures Equal2(v, v) && !NotEqual2(v, v)
    ensures Equal2(Scale2(1, v), v)
  {
    ScalarMulIdentities(AsVector2(v));
  }

  /** The examples of the `Vector2` tests: `(3,2) == (3,2)`, `(1,2) != (3,2)`, the broadcast `(1)`. */
  lemma Vector2Scenarios()
    ensures Equal2(Vector2(3, 2), Vector2(3, 2))
    ensures NotEqual2(Vector2(1, 2), Vector2(3, 2))
    ensures Broadcast2(1).x == 1 && Broadcast2(1).y == 1
  {
    BroadcastIsNotZeroFill(1);
    assert Y(AsVector2(Broadcast2(1))) == 1;
  }

  /** `operator ==` on `Vector3`: all three components equal. */
  function Equal3(a: Vector3, b: Vector3): (r: bool)
    ensures r <==> a == b
    ensures r <==> Equal(AsVector3(a), AsVector3(b))
  {
    a.x == b.x && a.y == b.y && a.z == b.z
  }

  /** `operator !=` on `Vector3`: the negation of `==`. */
  function NotEqual3(a: Vector3, b: Vector3): (r: bool)
    ensures r <==> a != b
    ensures r <==> NotEqual(AsVector3(a), AsVector3(b))
  {
    !Equal3(a, b)
  }

  /** `operator *(scalar, v)` on `Vector3`: it agrees with the generic scalar multiplication. */
  function Scale3(scalar: int, v: Vector3): (r: Vector3)
    ensures AsVector3(r) == ScalarMul(scalar, AsVector3(v))
  {
    Vector3(scalar * v.x, scalar * v.y, scalar * v.z)
  }

  /** Equality on `Vector3` is reflexive, and `1 * v == v`. */
  lemma Vector3Laws(v: Vector3)
    ensures Equal3(v, v) && !NotEqual3(v, v)
    ensures Equal3(Scale3(1, v), v)
  {
    ScalarMulIdentities(AsVector3(v));
  }

  /** The examples of the `Vector3` tests: `(3,2,1) == (3,2,1)` and `(1,2,3) != (3,2,1)`. */
  lemma Vector3Scenarios()
    ensures Equal3(Vector3(3, 2, 1), Vector3(3, 2, 1))
    ensures NotEqual3(Vector3(1, 2, 3), Vector3(3, 2, 1))
  {
  }
}
