/** Properties of EEType::Validate: which descriptors it rejects outright, the
    minimum-size rule, and a characterisation of the accepted descriptors of
    each kind. */
module EETypeProperties {
  import opened Alignment
  import opened EETypes

  /** A NULL descriptor is rejected, and it is the first failure reported. */
  lemma NullNeverValid(t: EEType, p: PtrSize, assertOnFail: bool)
    requires t.address == 0
    ensures !Validate(t, p, assertOnFail).valid
    ensures FirstFailure(t, p) == Some(NullType)
  {
  }

  /** A descriptor that is not pointer aligned is rejected, and a non-NULL one
      is reported as misaligned. */
  lemma MisalignedNeverValid(t: EEType, p: PtrSize, assertOnFail: bool)
    requires t.address % p != 0
    ensures !Validate(t, p, assertOnFail).valid
    ensures FirstFailure(t, p) == Some(Misaligned)
  {
    PointerMaskIsRemainder(t.address, p);
  }

  /** For a type with components, the minimum size is the base size rounded up
      to the pointer size: a multiple of it, not below the base size and less
      than one pointer above it, and the least such value. */
  lemma MinObjSizeWithComponents(t: EEType, p: PtrSize, m: nat)
    requires t.componentSize != 0 && t.baseSize + p <= WordModulus(p)
    ensures MinObjSize(t, p) == AlignUp(t.baseSize, p)
    ensures MinObjSize(t, p) % p == 0
    ensures t.baseSize <= MinObjSize(t, p) < t.baseSize + p
    ensures m % p == 0 && t.baseSize <= m ==> MinObjSize(t, p) <= m
  {
    AlignUpInSizeT(t.baseSize, p);
    if m % p == 0 && t.baseSize <= m {
      AlignUpIsLeast(t.baseSize, p, m);
    }
  }

  /** For a type without components, the minimum size is the base size itself. */
  lemma MinObjSizeWithoutComponents(t: EEType, p: PtrSize)
    requires t.componentSize == 0 && t.baseSize < WordModulus(p)
    ensures MinObjSize(t, p) == t.baseSize
  {
  }

  /** A descriptor whose minimum size is below three pointers is rejected, and a
      non-NULL aligned one is reported as too small. */
  lemma TooSmallNeverValid(t: EEType, p: PtrSize, assertOnFail: bool)
    requires MinObjSize(t, p) < 3 * p
    ensures !Validate(t, p, assertOnFail).valid
    ensures t.address != 0 && t.address % p == 0 ==> FirstFailure(t, p) == Some(TooSmall)
  {
    PointerMaskIsRemainder(t.address, p);
  }

  /** For a base size that fits a size_t, when rounding up overflows size_t
      (an unaligned base size within one pointer of the top of the word) the
      minimum size wraps to zero, so the descriptor is rejected rather than
      accepted with a bogus size. */
  lemma SizeOverflowRejected(t: EEType, p: PtrSize, assertOnFail: bool)
    requires t.componentSize != 0 && t.baseSize < WordModulus(p)
    requires t.baseSize % p != 0 && t.baseSize > WordModulus(p) - p
    ensures MinObjSize(t, p) == 0
    ensures !Validate(t, p, assertOnFail).valid
  {
    AlignUpInSizeT(t.baseSize, p);
  }

  /** An accepted type with components whose base size fits a size_t has a
      pointer-aligned minimum size between its base size and one pointer more. */
  lemma ValidSizeWithComponents(t: EEType, p: PtrSize, assertOnFail: bool)
    requires Validate(t, p, assertOnFail).valid
    requires t.componentSize != 0 && t.baseSize < WordModulus(p)
    ensures MinObjSize(t, p) % p == 0
    ensures t.baseSize <= MinObjSize(t, p) < t.baseSize + p
  {
    AlignUpInSizeT(t.baseSize, p);
  }

  /** A canonical type with a base type passes the kind checks; one without a
      base type passes exactly when none of the six flags is set. */
  lemma CanonicalCharacterisation(t: EEType, p: PtrSize, assertOnFail: bool)
    requires t.kind == Canonical && PassesCommonChecks(t, p)
    ensures Validate(t, p, assertOnFail).valid <==>
              t.related != 0
              || (!t.relatedViaIAT && !t.isValueType && !t.hasFinalizer
                  && !t.hasReferenceFields && !t.isRuntimeAllocated && !t.hasGenericVariance)
  {
  }

  /** Past the common checks, a cloned type is accepted exactly when it has a
      canonical type reached through the import address table, is not runtime
      allocated, and is either a cloned generic type (component size 0) or a
      cloned string (component size 2) with none of the other flags. */
  lemma ClonedCharacterisation(t: EEType, p: PtrSize, assertOnFail: bool)
    requires t.kind == Cloned && PassesCommonChecks(t, p)
    ensures t.related == 0 ==> !Validate(t, p, assertOnFail).valid
    ensures t.componentSize == 0 ==>
              (Validate(t, p, assertOnFail).valid <==>
                 t.related != 0 && t.relatedViaIAT && !t.isRuntimeAllocated)
    ensures t.componentSize == 2 ==>
              (Validate(t, p, assertOnFail).valid <==>
                 t.related != 0 && t.relatedViaIAT && !t.isValueType && !t.hasFinalizer
                 && !t.hasReferenceFields && !t.isRuntimeAllocated && !t.hasGenericVariance)
    ensures t.componentSize != 0 && t.componentSize != 2 ==> !Validate(t, p, assertOnFail).valid
  {
  }

  /** An array type is accepted exactly when it has an element type and a
      nonzero component size and is not a value type, finalizable, runtime
      allocated or variant. */
  lemma ParameterizedCharacterisation(t: EEType, p: PtrSize, assertOnFail: bool)
    requires t.kind == Parameterized && PassesCommonChecks(t, p)
    ensures Validate(t, p, assertOnFail).valid <==>
              t.related != 0 && t.componentSize != 0 && !t.isValueType
              && !t.hasFinalizer && !t.isRuntimeAllocated && !t.hasGenericVariance
  {
  }

  /** Reference fields are allowed in arrays: the flag does not affect whether
      an array type is accepted. */
  lemma ArrayReferenceFieldsIrrelevant(t: EEType, p: PtrSize, assertOnFail: bool)
    requires t.kind == Parameterized
    ensures Validate(t.(hasReferenceFields := true), p, assertOnFail).valid
            == Validate(t.(hasReferenceFields := false), p, assertOnFail).valid
  {
  }

  /** Generic type definitions and unknown kinds are always rejected. */
  lemma OtherKindsNeverValid(t: EEType, p: PtrSize, assertOnFail: bool)
    requires t.kind == GenericTypeDef || t.kind == Other
    ensures !Validate(t, p, assertOnFail).valid
    ensures PassesCommonChecks(t, p) ==>
              FirstFailure(t, p) == Some(if t.kind == GenericTypeDef then GenericTypeDefinition else UnknownKind)
  {
    PointerMaskIsRemainder(t.address, p);
  }

  /** Validate returns true only when every check applying to the descriptor
      passes, and then no assertion fires. */
  lemma ValidMeansAllChecksPass(t: EEType, p: PtrSize, assertOnFail: bool)
    requires Validate(t, p, assertOnFail).valid
    ensures PassesCommonChecks(t, p)
    ensures FirstFailure(t, p) == None
    ensures !Validate(t, p, assertOnFail).asserted
  {
    FirstFailureMatchesWellFormed(t, p);
  }

  /** assertOnFail decides only whether the assertion fires: the result is the
      same either way, and the assertion fires exactly on a requested failure. */
  lemma AssertOnFailIrrelevant(t: EEType, p: PtrSize)
    ensures Validate(t, p, true).valid == Validate(t, p, false).valid
    ensures Validate(t, p, true).asserted <==> !Validate(t, p, true).valid
    ensures !Validate(t, p, false).asserted
  {
  }

  /** Every accepted descriptor is non-NULL, pointer aligned, of one of the three
      instantiable kinds, and either has a related type or is an Object-like root;
      none but a canonical type may be runtime allocated. */
  lemma ValidShape(t: EEType, p: PtrSize, assertOnFail: bool)
    requires Validate(t, p, assertOnFail).valid
    ensures t.address != 0 && t.address % p == 0
    ensures t.kind == Canonical || t.kind == Cloned || t.kind == Parameterized
    ensures t.related != 0 || (t.kind == Canonical && NoInstanceFlags(t) && !t.relatedViaIAT)
    ensures t.isRuntimeAllocated ==> t.kind == Canonical && t.related != 0
  {
  }

  /** The pointer size enters the per-kind verdict only through the size check:
      for an address aligned for both targets, the two targets disagree only
      when exactly one of them finds the minimum size large enough. */
  lemma PtrSizeMattersOnlyThroughSize(t: EEType, assertOnFail: bool)
    requires t.address % 8 == 0
    ensures Validate(t, 4, assertOnFail).valid != Validate(t, 8, assertOnFail).valid ==>
              (MinObjSize(t, 4) >= 12) != (MinObjSize(t, 8) >= 24)
  {
  }

  /** A descriptor at a non-NULL, 8-byte-aligned address, without components
      and with a base size in [12, 24), is accepted with 4-byte pointers when its
      kind checks pass, but rejected as too small with 8-byte pointers. */
  lemma SmallBaseSizeAcceptedOnlyWith32BitPointers(t: EEType, assertOnFail: bool)
    requires t.address != 0 && t.address % 8 == 0
    requires t.componentSize == 0 && 12 <= t.baseSize < 24
    requires KindFailure(t) == None
    ensures Validate(t, 4, assertOnFail).valid
    ensures !Validate(t, 8, assertOnFail).valid
    ensures FirstFailure(t, 8) == Some(TooSmall)
  {
    PointerMaskIsRemainder(t.address, 4);
    PointerMaskIsRemainder(t.address, 8);
    FirstFailureMatchesWellFormed(t, 4);
  }
}
