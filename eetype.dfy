/** The runtime type descriptor (EEType) found in an object header, and the
    validator that decides whether such a descriptor is well formed. */
module EETypes {
  import opened Alignment

  /** get_Kind(): the four kinds the validator distinguishes, and any other value. */
  datatype Kind = Canonical | Cloned | Parameterized | GenericTypeDef | Other

  /** The parts of an EEType that the validator reads. Pointers are addresses,
      with 0 standing for NULL. `related` is the m_RelatedType union, read as the
      base type (canonical types), the canonical type reached through the import
      address table (cloned types) or the element type (parameterized types). */
  datatype EEType = EEType(
    address: nat,
    baseSize: nat,
    componentSize: nat,
    kind: Kind,
    related: nat,
    relatedViaIAT: bool,
    isValueType: bool,
    hasFinalizer: bool,
    hasReferenceFields: bool,
    isRuntimeAllocated: bool,
    hasGenericVariance: bool)

  /** Each place where the validator reports a failure, in source order. */
  datatype Failure =
    | NullType                 // the descriptor pointer is NULL
    | Misaligned               // not pointer aligned
    | TooSmall                 // minimum object size below three pointers
    | RootNotObjectLike        // canonical type without a base type that does not look like Object
    | CloneWithoutRelated      // cloned type without a canonical type
    | ClonedGenericBadFlags    // cloned generic type (component size 0) with wrong flags
    | ClonedStringBadFlags     // cloned string (component size 2) with wrong flags
    | CloneWithComponents      // cloned type with any other component size
    | ArrayWithoutRelated      // array type without an element type
    | ArrayWithoutComponents   // array type with component size 0
    | ArrayBadFlags            // array type with flags no array can have
    | GenericTypeDefinition    // uninstantiated generic type definition
    | UnknownKind              // any other kind

  datatype Option<T> = None | Some(value: T)

  /** The result of a validation: whether the descriptor is accepted, and whether
      the failure assertion fired on the way. */
  datatype Verdict = Verdict(valid: bool, asserted: bool)

  /** None of the Object-like flags: no value type, finalizer, reference fields,
      runtime allocation or generic variance. */
  predicate NoInstanceFlags(t: EEType) {
    !t.isValueType && !t.hasFinalizer && !t.hasReferenceFields
      && !t.isRuntimeAllocated && !t.hasGenericVariance
  }

  /** The size the validator compares with three pointers: the base size as a
      size_t, rounded up to the pointer size (in size_t arithmetic) when the type
      has components. */
  function MinObjSize(t: EEType, p: PtrSize): (s: nat)
    ensures s < WordModulus(p)
    ensures t.componentSize == 0 && t.baseSize < WordModulus(p) ==> s == t.baseSize
    ensures t.componentSize != 0 ==> s % p == 0
    ensures t.componentSize != 0 && t.baseSize + p <= WordModulus(p) ==>
              t.baseSize <= s < t.baseSize + p
    ensures t.componentSize != 0 && t.baseSize < WordModulus(p) ==>
              s == BitAnd(ToSizeT(t.baseSize + p - 1, p), WordModulus(p) - p)
  {
    var base := ToSizeT(t.baseSize, p);
    if t.componentSize != 0 then
      AlignUpInSizeT(base, p);
      AlignUpIsMaskedSum(base, p);
      ToSizeT(AlignUp(base, p), p)
    else
      base
  }

  /** The checks made before the switch on the kind: the descriptor is not NULL,
      is pointer aligned and its minimum size is at least three pointers. */
  predicate PassesCommonChecks(t: EEType, p: PtrSize) {
    t.address != 0 && t.address % p == 0 && MinObjSize(t, p) >= 3 * p
  }

  /** The per-kind checks of the validator's switch on get_Kind(). */
  function KindFailure(t: EEType): (f: Option<Failure>)
    ensures f == None ==> t.kind == Canonical || t.kind == Cloned || t.kind == Parameterized
  {
    match t.kind
    case Canonical =>
      if t.related == 0 && (t.relatedViaIAT || !NoInstanceFlags(t)) then Some(RootNotObjectLike)
      else None
    case Cloned =>
      if t.related == 0 then Some(CloneWithoutRelated)
      else if t.componentSize == 0 then
        if !t.relatedViaIAT || t.isRuntimeAllocated then Some(ClonedGenericBadFlags) else None
      else if t.componentSize == 2 then
        if !t.relatedViaIAT || !NoInstanceFlags(t) then Some(ClonedStringBadFlags) else None
      else Some(CloneWithComponents)
    case Parameterized =>
      if t.related == 0 then Some(ArrayWithoutRelated)
      else if t.componentSize == 0 then Some(ArrayWithoutComponents)
      else if t.isValueType || t.hasFinalizer || t.isRuntimeAllocated || t.hasGenericVariance then
        Some(ArrayBadFlags)
      else None
    case GenericTypeDef => Some(GenericTypeDefinition)
    case Other => Some(UnknownKind)
  }

  /** The checks of EEType::Validate in the order the source makes them; the
      result is the first failure reported, or None when every check passes. */
  function FirstFailure(t: EEType, p: PtrSize): (f: Option<Failure>)
    ensures t.address == 0 ==> f == Some(NullType)
    ensures f == None ==>
              PassesCommonChecks(t, p) && t.kind != GenericTypeDef && t.kind != Other
  {
    PointerMaskIsRemainder(t.address, p);
    if t.address == 0 then Some(NullType)
    else if BitAnd(t.address, p - 1) != 0 then Some(Misaligned)
    else if MinObjSize(t, p) < 3 * p then Some(TooSmall)
    else KindFailure(t)
  }

  /** What a well-formed descriptor looks like, stated kind by kind as the
      properties it has rather than as the sequence of checks. */
  predicate WellFormed(t: EEType, p: PtrSize) {
    && PassesCommonChecks(t, p)
    && match t.kind
       case Canonical =>
         // a root of the hierarchy must look like System.Object
         t.related != 0 || (!t.relatedViaIAT && NoInstanceFlags(t))
       case Cloned =>
         && t.related != 0
         && t.relatedViaIAT
         && !t.isRuntimeAllocated
         && (t.componentSize == 0 || (t.componentSize == 2 && NoInstanceFlags(t)))
       case Parameterized =>
         && t.related != 0
         && t.componentSize != 0
         && !t.isValueType && !t.hasFinalizer && !t.isRuntimeAllocated && !t.hasGenericVariance
       case GenericTypeDef => false
       case Other => false
  }

  /** The sequence of checks accepts exactly the well-formed descriptors. Where a
      rejected descriptor is reported is stated by the lemmas NullNeverValid,
      MisalignedNeverValid, TooSmallNeverValid and OtherKindsNeverValid. */
  lemma FirstFailureMatchesWellFormed(t: EEType, p: PtrSize)
    ensures FirstFailure(t, p) == None <==> WellFormed(t, p)
  {
    PointerMaskIsRemainder(t.address, p);
  }

  /** EEType::Validate(assertOnFail): every failure both returns false and, when
      assertOnFail is set, fires the failure assertion first. */
  function Validate(t: EEType, p: PtrSize, assertOnFail: bool): (r: Verdict)
    ensures r.valid <==> WellFormed(t, p)
    ensures r.asserted <==> assertOnFail && !r.valid
  {
    FirstFailureMatchesWellFormed(t, p);
    var f := FirstFailure(t, p);
    Verdict(f == None, assertOnFail && f != None)
  }
}
