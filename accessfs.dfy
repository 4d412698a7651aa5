/**
 * The set of Landlock file system access rights (`landlock/accessfs.go`).
 *
 * An `AccessFSSet` is a `uint64` whose bit `i` stands for the right named
 * `FlagNames[i]`. The set operations are single bitwise expressions; their
 * contracts say what they mean as sets of bit positions, and the lemmas
 * below show that subset, intersection and union form a lattice and that
 * validity is a bound on the bits that may be set.
 */
module AccessFS {
  import opened Bits

  /** The rights in bit order: the name of bit `i` is `FlagNames[i]`. */
  const FlagNames: seq<string> := [
    "execute",
    "write_file",
    "read_file",
    "read_dir",
    "remove_dir",
    "remove_file",
    "make_char",
    "make_dir",
    "make_reg",
    "make_sock",
    "make_fifo",
    "make_block",
    "make_sym",
    "refer"
  ]

  /** A set of file system access rights, one per bit of a `uint64`. */
  type AccessFSSet = Uint64

  /** `(1 << len(flagNames)) - 1`: every right this version knows. */
  const SupportedAccessFS: AccessFSSet := assert Pow2(14) == 0x4000; LowMask(|FlagNames|)

  /** Every right of `a` is a right of `b`. */
  ghost predicate RightsWithin(a: nat, b: nat)
  {
    forall i: nat :: Has(a, i) ==> Has(b, i)
  }

  /** `a` holds no right at all. */
  ghost predicate NoRights(a: nat)
  {
    forall i: nat :: !Has(a, i)
  }

  /** Every right of `a` has a name in `FlagNames`. */
  ghost predicate OnlyKnownRights(a: nat)
  {
    forall i: nat :: Has(a, i) ==> i < |FlagNames|
  }

  /** `a.isSubset(b)`, that is `a & b == a`: every right of `a` is in `b`. */
  function IsSubset(a: AccessFSSet, b: AccessFSSet): (r: bool)
    ensures r <==> RightsWithin(a, b)
  {
    AndIsLeftExactlyWhenSubset(a, b);
    And(a, b) == a
  }

  /** `a.intersect(b)`, that is `a & b`: the rights in both. */
  function Intersect(a: AccessFSSet, b: AccessFSSet): (r: AccessFSSet)
    ensures forall i: nat :: Has(r, i) <==> Has(a, i) && Has(b, i)
  {
    And(a, b)
  }

  /** `a.union(b)`, that is `a | b`: the rights in either. */
  function Union(a: AccessFSSet, b: AccessFSSet): (r: AccessFSSet)
    ensures forall i: nat :: Has(r, i) <==> Has(a, i) || Has(b, i)
  {
    OrUint64(a, b);
    Or(a, b)
  }

  /** `a.isEmpty()`, that is `a == 0`: no right at all. */
  function IsEmpty(a: AccessFSSet): (r: bool)
    ensures r <==> NoRights(a)
  {
    ZeroExactlyWhenNoRights(a);
    a == 0
  }

  /** `a.valid()`, that is `a.isSubset(supportedAccessFS)`: only known rights. */
  function Valid(a: AccessFSSet): (r: bool)
    ensures r <==> OnlyKnownRights(a)
  {
    SubsetOfSupportedExactlyWhenKnown(a);
    IsSubset(a, SupportedAccessFS)
  }

  lemma SubsetOfSupportedExactlyWhenKnown(a: AccessFSSet)
    ensures IsSubset(a, SupportedAccessFS) <==> OnlyKnownRights(a)
  {
    SupportedAccessFSBits();
    if IsSubset(a, SupportedAccessFS) {
      forall i: nat | Has(a, i) ensures i < |FlagNames| {
        assert Has(SupportedAccessFS, i);
      }
    } else {
      var i: nat :| Has(a, i) && !Has(SupportedAccessFS, i);
      assert !(i < |FlagNames|);
    }
  }

  lemma ZeroExactlyWhenNoRights(a: nat)
    ensures a == 0 <==> NoRights(a)
  {
    NoBitsInZero();
    if a != 0 {
      NonZeroHasBit(a);
    }
  }

  lemma AndIsLeftExactlyWhenSubset(a: nat, b: nat)
    ensures And(a, b) == a <==> RightsWithin(a, b)
  {
    if And(a, b) != a {
      DifferingBit(And(a, b), a);
      var i: nat :| Has(And(a, b), i) != Has(a, i);
      assert Has(a, i) && !Has(b, i);
    }
  }

  // The lattice laws.

  lemma SubsetReflexive(a: AccessFSSet)
    ensures IsSubset(a, a)
  {
  }

  lemma SubsetAntisymmetric(a: AccessFSSet, b: AccessFSSet)
    requires IsSubset(a, b) && IsSubset(b, a)
    ensures a == b
  {
    SameBits(a, b);
  }

  lemma SubsetTransitive(a: AccessFSSet, b: AccessFSSet, c: AccessFSSet)
    requires IsSubset(a, b) && IsSubset(b, c)
    ensures IsSubset(a, c)
  {
  }

  /** The intersection is below both operands, and it is the greatest such set. */
  lemma IntersectIsGreatestLowerBound(a: AccessFSSet, b: AccessFSSet, c: AccessFSSet)
    ensures IsSubset(Intersect(a, b), a) && IsSubset(Intersect(a, b), b)
    ensures IsSubset(c, a) && IsSubset(c, b) ==> IsSubset(c, Intersect(a, b))
  {
  }

  /** The union is above both operands, and it is the least such set. */
  lemma UnionIsLeastUpperBound(a: AccessFSSet, b: AccessFSSet, c: AccessFSSet)
    ensures IsSubset(a, Union(a, b)) && IsSubset(b, Union(a, b))
    ensures IsSubset(a, c) && IsSubset(b, c) ==> IsSubset(Union(a, b), c)
  {
  }

  lemma IntersectIdempotent(a: AccessFSSet)
    ensures Intersect(a, a) == a
  {
    SameBits(Intersect(a, a), a);
  }

  lemma UnionIdempotent(a: AccessFSSet)
    ensures Union(a, a) == a
  {
    SameBits(Union(a, a), a);
  }

  lemma IntersectCommutative(a: AccessFSSet, b: AccessFSSet)
    ensures Intersect(a, b) == Intersect(b, a)
  {
    SameBits(Intersect(a, b), Intersect(b, a));
  }

  lemma UnionCommutative(a: AccessFSSet, b: AccessFSSet)
    ensures Union(a, b) == Union(b, a)
  {
    SameBits(Union(a, b), Union(b, a));
  }

  /**
   * Subset agrees with both lattice operations. For intersection this follows
   * from the definitions alone: `isSubset` is `a & b == a` and `intersect` is
   * `a & b`.
   */
  lemma SubsetIffIntersectIsLeft(a: AccessFSSet, b: AccessFSSet)
    ensures IsSubset(a, b) <==> Intersect(a, b) == a
  {
  }

  lemma SubsetIffUnionIsRight(a: AccessFSSet, b: AccessFSSet)
    ensures IsSubset(a, b) <==> Union(a, b) == b
  {
    if IsSubset(a, b) {
      SameBits(Union(a, b), b);
    }
  }

  /** The empty set is below every set and is the only empty set. */
  lemma EmptyIsBottom(a: AccessFSSet)
    ensures IsSubset(0, a)
    ensures IsEmpty(a) <==> IsSubset(a, 0)
  {
    NoBitsInZero();
  }

  // Validity.

  /** `supportedAccessFS` holds exactly the bits of the named rights. */
  lemma SupportedAccessFSBits()
    ensures |FlagNames| == 14
    ensures forall i: nat :: Has(SupportedAccessFS, i) <==> i < |FlagNames|
  {
    LowMaskBits(|FlagNames|);
  }

  /** A set is valid exactly when it is below `1 << len(flagNames)`. */
  lemma ValidIffBelowFirstUnknownBit(a: AccessFSSet)
    ensures Valid(a) <==> a < Pow2(|FlagNames|)
  {
    if Valid(a) {
      NoHighBitsBelowPow2(a, |FlagNames|);
    } else if a < Pow2(|FlagNames|) {
      BelowPow2HasNoHighBits(a, |FlagNames|);
    }
  }

  /** The empty set is valid; a set holding any bit from 14 up is not. */
  lemma ValidBounds(a: AccessFSSet, i: nat)
    ensures Valid(0)
    ensures |FlagNames| <= i && Has(a, i) ==> !Valid(a)
  {
    NoBitsInZero();
  }

  /** Validity is kept by taking subsets, intersections and unions of valid sets. */
  lemma ValidClosed(a: AccessFSSet, b: AccessFSSet)
    ensures Valid(b) && IsSubset(a, b) ==> Valid(a)
    ensures Valid(a) || Valid(b) ==> Valid(Intersect(a, b))
    ensures Valid(a) && Valid(b) ==> Valid(Union(a, b))
  {
  }
}
