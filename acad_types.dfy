/** The host-application values that the checker and the error list pass
    around without looking inside them: object handles, points, extents,
    icons and 3D transforms.

    A Matrix3d is kept symbolic: it is the product of the elementary
    placements it was composed from, in order. The identity is the empty
    product and multiplication concatenates the factors, so the two laws the
    traversal relies on (associativity and the unit law) hold by
    construction; a numeric 4x4 matrix is one image of this product under
    the map that multiplies the factors out. */
module AcadTypes {

  /** An ObjectId is identified by its numeric handle. */
  type ObjectId = nat

  datatype Point3d = Point3d(x: real, y: real, z: real)

  datatype Extents3d = Extents3d(minPoint: Point3d, maxPoint: Point3d)

  /** The icons the errors can carry (only their identity matters here). */
  datatype Icon = ErrorIcon | WarningIcon | InformationIcon

  /** One elementary placement: what a block reference's own transform is
      built from (insertion point, scale factors, rotation, normal). */
  datatype Placement = Placement(position: Point3d, scale: Point3d, rotation: real, normal: Point3d)

  /** A transform, as the product of its elementary placements. */
  datatype Matrix3d = Product(factors: seq<Placement>)

  function Identity(): (m: Matrix3d)
    ensures m.factors == []
  {
    Product([])
  }

  /** `a * b`: apply b first, then a. */
  function Mul(a: Matrix3d, b: Matrix3d): (m: Matrix3d)
    ensures |m.factors| == |a.factors| + |b.factors|
    ensures m.factors[..|a.factors|] == a.factors && m.factors[|a.factors|..] == b.factors
  {
    Product(a.factors + b.factors)
  }

  lemma MulAssociative(a: Matrix3d, b: Matrix3d, c: Matrix3d)
    ensures Mul(a, Mul(b, c)) == Mul(Mul(a, b), c)
  {
    assert a.factors + (b.factors + c.factors) == (a.factors + b.factors) + c.factors;
  }

  lemma IdentityIsUnit(a: Matrix3d)
    ensures Mul(Identity(), a) == a && Mul(a, Identity()) == a
  {
    assert [] + a.factors == a.factors;
    assert a.factors + [] == a.factors;
  }
}
