/** 2D vectors (src/Vector2.cs), with reals in place of doubles. */
module Vectors {
  import opened Wrappers

  datatype Vector2 = Vector2(x: real, y: real)

  const Zero: Vector2 := Vector2(0.0, 0.0)
  const One: Vector2 := Vector2(1.0, 1.0)
  const Up: Vector2 := Vector2(0.0, 1.0)
  const Down: Vector2 := Vector2(0.0, -1.0)
  const Left: Vector2 := Vector2(-1.0, 0.0)
  const Right: Vector2 := Vector2(1.0, 0.0)

  /** The indexer's getter: component 0 is x, 1 is y, anything else throws. */
  function Get(v: Vector2, i: int): (r: Result<real, Exception>)
    ensures r.Failure? <==> i != 0 && i != 1
    ensures r.Failure? ==> r.error == IndexOutOfRangeException
    ensures i == 0 ==> r == Success(v.x)
    ensures i == 1 ==> r == Success(v.y)
  {
    if i == 0 then Success(v.x)
    else if i == 1 then Success(v.y)
    else Failure(IndexOutOfRangeException)
  }

  /** The indexer's setter: the indexed component takes the value and the
      other one keeps its value; any other index throws. */
  function Set(v: Vector2, i: int, value: real): (r: Result<Vector2, Exception>)
    ensures r.Failure? <==> Get(v, i).Failure?
    ensures r.Failure? ==> r.error == IndexOutOfRangeException
    ensures r.Success? ==> Get(r.value, i) == Success(value)
    ensures r.Success? ==> Get(r.value, 1 - i) == Get(v, 1 - i)
  {
    if i == 0 then Success(Vector2(value, v.y))
    else if i == 1 then Success(Vector2(v.x, value))
    else Failure(IndexOutOfRangeException)
  }

  /** Unary plus is the identity. */
  function Plus(v: Vector2): (r: Vector2)
    ensures r == v
  {
    v
  }

  /** Negation is the additive inverse. */
  function Neg(v: Vector2): (r: Vector2)
    ensures Add(v, r) == Zero
  {
    Vector2(-v.x, -v.y)
  }

  /** Addition is commutative and has Zero as its identity. */
  function Add(v: Vector2, u: Vector2): (r: Vector2)
    ensures r == Vector2(u.x + v.x, u.y + v.y)
    ensures u == Zero ==> r == v
  {
    Vector2(v.x + u.x, v.y + u.y)
  }

  /** Subtraction is defined, as in the source, as adding the negation; it is
      componentwise subtraction. */
  function Sub(v: Vector2, u: Vector2): (r: Vector2)
    ensures r == Vector2(v.x - u.x, v.y - u.y)
  {
    Add(v, Neg(u))
  }

  /** `v * a`: scaling by one is the identity, by zero gives Zero; the
      squared length is in ScaleSquaredLength. */
  function Scale(v: Vector2, a: real): (r: Vector2)
    ensures a == 1.0 ==> r == v
    ensures a == 0.0 ==> r == Zero
  {
    Vector2(v.x * a, v.y * a)
  }

  /** Scaling by a multiplies the squared length by a². */
  lemma ScaleSquaredLength(v: Vector2, a: real)
    ensures Dot(Scale(v, a), Scale(v, a)) == a * a * Dot(v, v)
  {
    calc {
      Dot(Scale(v, a), Scale(v, a));
      (v.x * a) * (v.x * a) + (v.y * a) * (v.y * a);
      a * a * (v.x * v.x) + a * a * (v.y * v.y);
      a * a * (v.x * v.x + v.y * v.y);
    }
  }

  /** Division is defined, as in the source, as scaling by the reciprocal; it
      divides each component. Division by zero yields IEEE infinities in the
      source and is not modelled. */
  function Div(v: Vector2, a: real): (r: Vector2)
    requires a != 0.0
    ensures r == Vector2(v.x / a, v.y / a)
  {
    Scale(v, 1.0 / a)
  }

  /** The dot product operator: zero against Zero, and a vector's dot
      product with itself is never negative. */
  function Dot(v: Vector2, u: Vector2): (r: real)
    ensures v == Zero || u == Zero ==> r == 0.0
    ensures v == u ==> r >= 0.0
  {
    v.x * u.x + v.y * u.y
  }

  /** The squared length (the source calls it SqrtMagnitude). */
  function SqrtMagnitude(v: Vector2): (r: real)
    ensures r >= 0.0
    ensures r == Dot(v, v)
  {
    v.x * v.x + v.y * v.y
  }

  lemma DotSymmetric(v: Vector2, u: Vector2)
    ensures Dot(v, u) == Dot(u, v)
  {
  }

  /** The dot product distributes over addition. */
  lemma DotAdd(v: Vector2, u: Vector2, w: Vector2)
    ensures Dot(v, Add(u, w)) == Dot(v, u) + Dot(v, w)
  {
  }

  /** Subtracting a vector undoes adding it. */
  lemma SubAddCancel(v: Vector2, u: Vector2)
    ensures Sub(Add(v, u), u) == v
  {
  }
}
