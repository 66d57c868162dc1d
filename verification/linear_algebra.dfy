/** The "tiniest linear algebra library" of the UVC camera driver: 3-vectors,
    column-major 3x3 matrices and rigid poses (orientation plus position).
    Scalars are modelled as `real`; the driver uses `float`, whose rounding is
    not modelled. */
module LinearAlgebra {

  /** A 3-vector; `Get(i)` is the driver's `operator []`. */
  datatype Float3 = Float3(x: real, y: real, z: real) {
    function Get(i: int): real
      requires 0 <= i < 3
    {
      if i == 0 then x else if i == 1 then y else z
    }
  }

  /** A 3x3 matrix stored as its three COLUMNS `x`, `y`, `z`. */
  datatype Float3x3 = Float3x3(x: Float3, y: Float3, z: Float3) {
    function Column(j: int): Float3
      requires 0 <= j < 3
    {
      if j == 0 then x else if j == 1 then y else z
    }

    /** The driver's `operator ()(i, j)`: component `i` of column `j`,
        that is row `i`, column `j`. */
    function At(i: int, j: int): real
      requires 0 <= i < 3 && 0 <= j < 3
    {
      Column(j).Get(i)
    }

    function Row(i: int): Float3
      requires 0 <= i < 3
    {
      Float3(x.Get(i), y.Get(i), z.Get(i))
    }
  }

  /** A rigid transform: rotate by `orientation`, then translate by `position`. */
  datatype Pose = Pose(orientation: Float3x3, position: Float3)

  const Zero := Float3(0.0, 0.0, 0.0)
  const Identity := Float3x3(Float3(1.0, 0.0, 0.0), Float3(0.0, 1.0, 0.0), Float3(0.0, 0.0, 1.0))
  const IdentityPose := Pose(Identity, Zero)

  /** The product of two scalars.  Kept as a function of its own so that the
      proofs below can apply the ring laws to it one step at a time. */
  function Mul(a: real, b: real): real
  {
    a * b
  }

  /** `float3 + float3` */
  function Add(a: Float3, b: Float3): Float3
  {
    Float3(a.x + b.x, a.y + b.y, a.z + b.z)
  }

  /** `float3 * float` */
  function Scale(a: Float3, b: real): Float3
  {
    Float3(Mul(a.x, b), Mul(a.y, b), Mul(a.z, b))
  }

  function Dot(u: Float3, v: Float3): real
  {
    Mul(u.x, v.x) + Mul(u.y, v.y) + Mul(u.z, v.z)
  }

  /** `float3x3 * float3`, computed as a combination of the columns. */
  function MulVec(a: Float3x3, b: Float3): (r: Float3)
    ensures r == Float3(Dot(a.Row(0), b), Dot(a.Row(1), b), Dot(a.Row(2), b))
  {
    Add(Add(Scale(a.x, b.x), Scale(a.y, b.y)), Scale(a.z, b.z))
  }

  /** `float3x3 * float3x3`, computed column by column. */
  function MatMul(a: Float3x3, b: Float3x3): (r: Float3x3)
    ensures forall i, j :: 0 <= i < 3 && 0 <= j < 3 ==> r.At(i, j) == Dot(a.Row(i), b.Column(j))
  {
    Float3x3(MulVec(a, b.x), MulVec(a, b.y), MulVec(a, b.z))
  }

  /** `transpose(float3x3)` */
  function Transpose(a: Float3x3): (r: Float3x3)
    ensures forall i, j :: 0 <= i < 3 && 0 <= j < 3 ==> r.At(i, j) == a.At(j, i)
  {
    Float3x3(Float3(a.x.x, a.y.x, a.z.x), Float3(a.x.y, a.y.y, a.z.y), Float3(a.x.z, a.y.z, a.z.z))
  }

  /** `pose * float3`: rotate, then translate. */
  function Apply(a: Pose, b: Float3): Float3
  {
    Add(MulVec(a.orientation, b), a.position)
  }

  /** `pose * pose` as the driver writes it: the position term
      `a.position + a * b.position` counts `a.position` twice, because
      `a * b.position` already translates by it. */
  function ComposeAsWritten(a: Pose, b: Pose): Pose
  {
    Pose(MatMul(a.orientation, b.orientation), Add(a.position, Apply(a, b.position)))
  }

  /** `pose * pose` as intended: the pose that applies `b`, then `a`. */
  function Compose(a: Pose, b: Pose): Pose
  {
    Pose(MatMul(a.orientation, b.orientation), Apply(a, b.position))
  }

  /** `inverse(pose)`: transpose the orientation and rotate the negated position. */
  function Inverse(a: Pose): Pose
  {
    var inv := Transpose(a.orientation);
    Pose(inv, Scale(MulVec(inv, a.position), -1.0))
  }

  /** The orientation is orthonormal: its transpose is its left inverse. */
  predicate Orthonormal(m: Float3x3)
  {
    MatMul(Transpose(m), m) == Identity
  }

  // ---------------------------------------------------------------------------
  // Matrices

  lemma TransposeInvolution(m: Float3x3)
    ensures Transpose(Transpose(m)) == m
  {
  }

  lemma MulAssociative(a: real, b: real, c: real)
    ensures Mul(Mul(a, b), c) == Mul(a, Mul(b, c))
  {
  }

  lemma MulDistributes(a: real, b: real, c: real)
    ensures Mul(a + b, c) == Mul(a, c) + Mul(b, c)
    ensures Mul(c, a + b) == Mul(c, a) + Mul(c, b)
  {
  }

  /** One component of the linearity of the matrix-vector product. */
  lemma CombinationLinear(a: real, b: real, c: real, x: Float3, y: Float3, k: real)
    ensures Mul(a, x.x + y.x) + Mul(b, x.y + y.y) + Mul(c, x.z + y.z)
         == (Mul(a, x.x) + Mul(b, x.y) + Mul(c, x.z)) + (Mul(a, y.x) + Mul(b, y.y) + Mul(c, y.z))
    ensures Mul(a, Mul(x.x, k)) + Mul(b, Mul(x.y, k)) + Mul(c, Mul(x.z, k))
         == Mul(Mul(a, x.x) + Mul(b, x.y) + Mul(c, x.z), k)
  {
    MulDistributes(x.x, y.x, a);
    MulDistributes(x.y, y.y, b);
    MulDistributes(x.z, y.z, c);
    MulDistributes(Mul(a, x.x) + Mul(b, x.y), Mul(c, x.z), k);
    MulDistributes(Mul(a, x.x), Mul(b, x.y), k);
    MulAssociative(a, x.x, k);
    MulAssociative(b, x.y, k);
    MulAssociative(c, x.z, k);
  }

  /** Matrix-vector multiplication is linear in the vector. */
  lemma MulVecAdditive(m: Float3x3, u: Float3, v: Float3)
    ensures MulVec(m, Add(u, v)) == Add(MulVec(m, u), MulVec(m, v))
  {
    CombinationLinear(m.x.x, m.y.x, m.z.x, u, v, 1.0);
    CombinationLinear(m.x.y, m.y.y, m.z.y, u, v, 1.0);
    CombinationLinear(m.x.z, m.y.z, m.z.z, u, v, 1.0);
  }

  lemma MulVecHomogeneous(m: Float3x3, v: Float3, k: real)
    ensures MulVec(m, Scale(v, k)) == Scale(MulVec(m, v), k)
  {
    CombinationLinear(m.x.x, m.y.x, m.z.x, v, v, k);
    CombinationLinear(m.x.y, m.y.y, m.z.y, v, v, k);
    CombinationLinear(m.x.z, m.y.z, m.z.z, v, v, k);
  }

  lemma IdentityMulVec(v: Float3)
    ensures MulVec(Identity, v) == v
  {
  }

  /** Multiplying by a matrix product is multiplying by each factor in turn. */
  lemma MatMulApply(a: Float3x3, b: Float3x3, v: Float3)
    ensures MulVec(MatMul(a, b), v) == MulVec(a, MulVec(b, v))
  {
    var bv := Add(Add(Scale(b.x, v.x), Scale(b.y, v.y)), Scale(b.z, v.z));
    calc {
      MulVec(a, MulVec(b, v));
      MulVec(a, bv);
      { MulVecAdditive(a, Add(Scale(b.x, v.x), Scale(b.y, v.y)), Scale(b.z, v.z));
        MulVecAdditive(a, Scale(b.x, v.x), Scale(b.y, v.y)); }
      Add(Add(MulVec(a, Scale(b.x, v.x)), MulVec(a, Scale(b.y, v.y))), MulVec(a, Scale(b.z, v.z)));
      { MulVecHomogeneous(a, b.x, v.x); MulVecHomogeneous(a, b.y, v.y); MulVecHomogeneous(a, b.z, v.z); }
      Add(Add(Scale(MulVec(a, b.x), v.x), Scale(MulVec(a, b.y), v.y)), Scale(MulVec(a, b.z), v.z));
      MulVec(MatMul(a, b), v);
    }
  }

  lemma MatMulAssociative(a: Float3x3, b: Float3x3, c: Float3x3)
    ensures MatMul(MatMul(a, b), c) == MatMul(a, MatMul(b, c))
  {
    MatMulApply(a, b, c.x);
    MatMulApply(a, b, c.y);
    MatMulApply(a, b, c.z);
  }

  // ---------------------------------------------------------------------------
  // Poses

  /** Applying a composed pose applies `b`, then `a`. */
  lemma ComposeApply(a: Pose, b: Pose, v: Float3)
    ensures Apply(Compose(a, b), v) == Apply(a, Apply(b, v))
  {
    MatMulApply(a.orientation, b.orientation, v);
    MulVecAdditive(a.orientation, MulVec(b.orientation, v), b.position);
  }

  lemma ComposeAssociative(a: Pose, b: Pose, c: Pose)
    ensures Compose(Compose(a, b), c) == Compose(a, Compose(b, c))
  {
    MatMulAssociative(a.orientation, b.orientation, c.orientation);
    ComposeApply(a, b, c.position);
  }

  lemma IdentityPoseNeutral(a: Pose)
    ensures Compose(IdentityPose, a) == a
    ensures Compose(a, IdentityPose) == a
  {
    IdentityMulVec(a.position);
    IdentityMulVec(a.orientation.x);
    IdentityMulVec(a.orientation.y);
    IdentityMulVec(a.orientation.z);
  }

  /** For an orthonormal orientation the inverse pose undoes the pose. */
  lemma InverseApply(a: Pose, v: Float3)
    requires Orthonormal(a.orientation)
    ensures Apply(Inverse(a), Apply(a, v)) == v
  {
    var r, p := a.orientation, a.position;
    var rt := Transpose(r);
    MulVecAdditive(rt, MulVec(r, v), p);
    MatMulApply(rt, r, v);
    IdentityMulVec(v);
  }

  /** For an orthonormal orientation, `inverse(a) * a` is the identity pose. */
  lemma InverseCompose(a: Pose)
    requires Orthonormal(a.orientation)
    ensures Compose(Inverse(a), a) == IdentityPose
  {
  }

  // ---------------------------------------------------------------------------
  // The composition as written

  /** The as-written composition differs from the intended one by exactly
      one extra `a.position`, so the two agree only for untranslated `a`. */
  lemma ComposeAsWrittenDoublesTranslation(a: Pose, b: Pose)
    ensures ComposeAsWritten(a, b) == Pose(Compose(a, b).orientation, Add(Compose(a, b).position, a.position))
    ensures ComposeAsWritten(a, b) == Compose(a, b) <==> a.position == Zero
  {
  }

  /** With an orthonormal orientation, the as-written `inverse(a) * a` keeps
      the translation of `inverse(a)` instead of cancelling it. */
  lemma InverseComposeAsWritten(a: Pose)
    requires Orthonormal(a.orientation)
    ensures ComposeAsWritten(Inverse(a), a) == Pose(Identity, Inverse(a).position)
  {
    ComposeAsWrittenDoublesTranslation(Inverse(a), a);
    InverseCompose(a);
  }

  lemma IdentityOrthonormal()
    ensures Orthonormal(Identity)
  {
    TransposeIdentity();
    MatMulIdentity();
  }

  lemma TransposeIdentity()
    ensures Transpose(Identity) == Identity
  {
  }

  lemma MatMulIdentity()
    ensures MatMul(Identity, Identity) == Identity
  {
    IdentityMulVec(Identity.x);
    IdentityMulVec(Identity.y);
    IdentityMulVec(Identity.z);
  }

  /** Applying the as-written `a * b` translates by `a.position` once more
      than applying `b`, then `a`; so `(a * b) * v == a * (b * v)` fails for
      every `v` as soon as `a` has a non-zero position. */
  lemma ComposeAsWrittenApply(a: Pose, b: Pose, v: Float3)
    ensures Apply(ComposeAsWritten(a, b), v) == Add(Apply(a, Apply(b, v)), a.position)
    ensures a.position != Zero ==> Apply(ComposeAsWritten(a, b), v) != Apply(a, Apply(b, v))
  {
    var c := Compose(a, b);
    ComposeAsWrittenDoublesTranslation(a, b);
    AddAssociative(MulVec(c.orientation, v), c.position, a.position);
    ComposeApply(a, b, v);
    if a.position != Zero {
      TranslatedDiffers(Apply(a, Apply(b, v)), a.position);
    }
  }

  /** The as-written composition is not associative either: for untranslated
      `b` and `c`, `a * (b * c)` translates by `2 * a.position` but
      `(a * b) * c` by `4 * a.position`. */
  lemma ComposeAsWrittenNotAssociative(a: Pose, b: Pose, c: Pose)
    requires b.position == Zero && c.position == Zero
    ensures ComposeAsWritten(a, ComposeAsWritten(b, c)).position == Add(a.position, a.position)
    ensures ComposeAsWritten(ComposeAsWritten(a, b), c).position
         == Add(Add(a.position, a.position), Add(a.position, a.position))
    ensures a.position != Zero ==>
      ComposeAsWritten(ComposeAsWritten(a, b), c) != ComposeAsWritten(a, ComposeAsWritten(b, c))
  {
    MulVecZero(a.orientation);
    MulVecZero(b.orientation);
    MulVecZero(MatMul(a.orientation, b.orientation));
    if a.position != Zero {
      TranslatedDiffers(Add(a.position, a.position), Add(a.position, a.position));
    }
  }

  lemma MulVecZero(m: Float3x3)
    ensures MulVec(m, Zero) == Zero
  {
  }

  lemma AddAssociative(u: Float3, v: Float3, w: Float3)
    ensures Add(u, Add(v, w)) == Add(Add(u, v), w)
  {
  }

  lemma TranslatedDiffers(u: Float3, p: Float3)
    requires p != Zero
    ensures Add(u, p) != u
  {
  }

  lemma TranslationInverse(a: Pose)
    requires a.orientation == Identity
    ensures Inverse(a) == Pose(Identity, Scale(a.position, -1.0))
  {
    assert Transpose(Identity) == Identity;
    IdentityMulVec(a.position);
  }

  /** For a pure translation `a` (orthonormal, since its orientation is the
      identity), the as-written `inverse(a) * a` translates by `-a.position`
      instead of being the identity pose. */
  lemma InverseComposeAsWrittenCounterexample(a: Pose)
    requires a.orientation == Identity && a.position != Zero
    ensures Orthonormal(a.orientation)
    ensures ComposeAsWritten(Inverse(a), a) == Pose(Identity, Scale(a.position, -1.0))
    ensures ComposeAsWritten(Inverse(a), a) != IdentityPose
  {
    IdentityOrthonormal();
    InverseComposeAsWritten(a);
    TranslationInverse(a);
    NegatedNonZero(a.position);
  }

  lemma NegatedNonZero(p: Float3)
    requires p != Zero
    ensures Scale(p, -1.0) != Zero
  {
  }
}
