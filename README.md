# EEType validation model

This project models `EEType::Validate`, the check the runtime applies to a type
descriptor (an EEType) taken from an object header before trusting it. The
validator rejects a NULL or misaligned descriptor. It rejects one whose minimum
object size is below three pointers. It then applies per-kind flag rules to
canonical types, cloned types (cloned generic instantiations and cloned
strings) and parameterized (array) types. Generic type definitions and unknown
kinds are always rejected.

Files:

- `alignment.dfy` (module `Alignment`): the pointer size (`sizeof(TADDR)`, 4 or 8),
  size_t wrap-around, the bitwise mask used for the alignment test, and `AlignUp`
  with its lemmas.
- `eetype.dfy` (module `EETypes`): the descriptor as a datatype, one `Failure`
  constructor per place the validator reports a failure, `FirstFailure` (the
  checks in source order), the declarative reference definition `WellFormed`,
  and `Validate`.
- `eetype_props.dfy` (module `EETypeProperties`): the characterisation lemmas.

The descriptor's address and the `m_RelatedType` union are natural numbers, with
0 as NULL. The union is one field, `related`. The validator reads it as the base
type (canonical), as the canonical type through the import address table
(cloned) or as the element type (arrays). The getters (`get_BaseSize`,
`get_Kind`, `HasFinalizer`, …) become plain datatype fields. `Validate` returns a
`Verdict`: whether the descriptor is accepted, and whether the failure assertion
fired (`assertOnFail` and a failure).

Arithmetic follows size_t. The base size is converted to size_t. When the type
has components, it is rounded up to the pointer size, and a result that
overflows the word wraps modulo 2^(8·pointer size). The alignment test is the
bitwise AND of the address with `sizeof(TADDR) - 1`. `PointerMaskIsRemainder`
proves that this AND equals the remainder modulo the pointer size.

## Model

| member | source | states |
|---|---|---|
| `Alignment.AlignUp` | src/Native/Runtime/eetype.cpp:42 | the rounded value is a multiple of the alignment, not below the input and less than one alignment above it |
| `Alignment.AlignUpIsLeast` | src/Native/Runtime/eetype.cpp:42 | the rounded value is the least multiple of the alignment that is not below the input |
| `Alignment.AlignUpFixedIffAligned` | src/Native/Runtime/eetype.cpp:42 | rounding leaves a value unchanged exactly when it is already aligned |
| `Alignment.AlignUpIdempotent` | src/Native/Runtime/eetype.cpp:42 | rounding an already rounded value changes nothing |
| `Alignment.AlignUpInSizeT` | src/Native/Runtime/eetype.cpp:37-42 | in size_t, rounding a size either stays in range or wraps to exactly 0; it wraps exactly for an unaligned value within one pointer of the top of the word |
| `Alignment.ToSizeT` | src/Native/Runtime/eetype.cpp:37 | converting to size_t keeps every value that fits a size_t and always gives a value below the word size |
| `Alignment.BitAnd` | src/Native/Runtime/eetype.cpp:33 | the bitwise AND of two values is at most either operand |
| `Alignment.HighMaskValue` | src/Native/Runtime/eetype.cpp:42 | the mask with ones in bits k to n-1 is 2^n - 2^k, so `~(sizeof(TADDR) - 1)` in a size_t is the word size minus the pointer size |
| `Alignment.ClearLowBits` | src/Native/Runtime/eetype.cpp:42 | for an n-bit value, the AND with ones in bits k to n-1 clears exactly its k low bits |
| `Alignment.AlignUpIsMaskedSum` | src/Native/Runtime/eetype.cpp:42 | for a size_t value, adding `sizeof(TADDR) - 1` with wrap-around and clearing the low bits gives the round-up wrapped into a size_t |
| `Alignment.PointerMaskIsRemainder` | src/Native/Runtime/eetype.cpp:33-34 | `addr & (sizeof(TADDR) - 1)` equals `addr % sizeof(TADDR)` for 4- and 8-byte pointers |
| `EETypes.MinObjSize` | src/Native/Runtime/eetype.cpp:37-43 | the minimum size fits a size_t; when the base size fits a size_t, it equals the base size for a type without components, and for a type with components it equals the C form of ALIGN_UP (add `sizeof(TADDR) - 1` in size_t, clear the low bits); for a type with components it is pointer aligned, and when rounding up does not overflow size_t it lies between the base size and one pointer more |
| `EETypes.KindFailure` | src/Native/Runtime/eetype.cpp:47-144 | the switch on the kind passes only canonical, cloned and parameterized types |
| `EETypes.FirstFailure` | src/Native/Runtime/eetype.cpp:24-149 | a NULL descriptor is reported as NULL; a descriptor with no failure is non-NULL, pointer aligned, at least three pointers large and of an instantiable kind |
| `EETypes.FirstFailureMatchesWellFormed` | src/Native/Runtime/eetype.cpp:24-149 | the checks in source order find no failure exactly when the descriptor meets the kind-by-kind reference definition `WellFormed` |
| `EETypes.Validate` | src/Native/Runtime/eetype.cpp:24-149 | the result is true exactly for well-formed descriptors; the failure assertion fires exactly when `assertOnFail` is set and the result is false |
| `EETypeProperties.NullNeverValid` | src/Native/Runtime/eetype.cpp:29-30 | a NULL descriptor is rejected, and NULL is the failure reported |
| `EETypeProperties.MisalignedNeverValid` | src/Native/Runtime/eetype.cpp:33-34 | an address that is not a multiple of the pointer size is rejected, reported as misaligned |
| `EETypeProperties.MinObjSizeWithComponents` | src/Native/Runtime/eetype.cpp:38-43 | with components, when rounding up does not overflow size_t, the minimum size is the base size rounded up: aligned, at least the base size, below base size plus a pointer, and the least such value |
| `EETypeProperties.MinObjSizeWithoutComponents` | src/Native/Runtime/eetype.cpp:37 | without components, when the base size fits a size_t, the minimum size is the base size |
| `EETypeProperties.TooSmallNeverValid` | src/Native/Runtime/eetype.cpp:44-45 | a minimum size below three pointers is rejected, reported as too small once the address checks pass |
| `EETypeProperties.SizeOverflowRejected` | src/Native/Runtime/eetype.cpp:42-45 | for a base size that fits a size_t, when rounding up overflows size_t, the minimum size wraps to 0 and the descriptor is rejected |
| `EETypeProperties.ValidSizeWithComponents` | src/Native/Runtime/eetype.cpp:37-45 | when the base size fits a size_t, an accepted type with components has a pointer-aligned minimum size between its base size and one pointer more |
| `EETypeProperties.CanonicalCharacterisation` | src/Native/Runtime/eetype.cpp:49-64 | past the common checks, a canonical type is accepted exactly when it has a base type or none of the six flags (via-IAT, value type, finalizer, reference fields, runtime allocated, variance) is set |
| `EETypeProperties.ClonedCharacterisation` | src/Native/Runtime/eetype.cpp:67-108 | past the common checks, a cloned type without a related type is rejected; with component size 0 it is accepted exactly when it is via-IAT and not runtime allocated; with size 2 exactly when via-IAT and none of the five other flags is set; any other size is rejected |
| `EETypeProperties.ParameterizedCharacterisation` | src/Native/Runtime/eetype.cpp:111-131 | past the common checks, an array type is accepted exactly when it has an element type and nonzero component size and is not a value type, finalizable, runtime allocated or variant |
| `EETypeProperties.ArrayReferenceFieldsIrrelevant` | src/Native/Runtime/eetype.cpp:123-129 | the reference-fields flag never changes whether an array type is accepted |
| `EETypeProperties.OtherKindsNeverValid` | src/Native/Runtime/eetype.cpp:134-143 | generic type definitions and unknown kinds are always rejected, each reported at its own site once the common checks pass |
| `EETypeProperties.ValidMeansAllChecksPass` | src/Native/Runtime/eetype.cpp:146-148 | true is returned only when the common checks pass and no check reports a failure, and then no assertion fires |
| `EETypeProperties.AssertOnFailIrrelevant` | src/Native/Runtime/eetype.cpp:26 | the result does not depend on `assertOnFail`; the assertion fires exactly on a failure when it is requested, never otherwise |
| `EETypeProperties.ValidShape` | src/Native/Runtime/eetype.cpp:47-144 | an accepted descriptor is non-NULL, aligned, of an instantiable kind, has a related type unless it is an Object-like canonical root, and is runtime allocated only if it is canonical with a base type |
| `EETypeProperties.PtrSizeMattersOnlyThroughSize` | src/Native/Runtime/eetype.cpp:33-45 | for an address aligned on both targets, 4- and 8-byte pointers give different verdicts only when exactly one of them finds the minimum size large enough |
| `EETypeProperties.SmallBaseSizeAcceptedOnlyWith32BitPointers` | src/Native/Runtime/eetype.cpp:37-45 | a descriptor at a non-NULL, 8-byte-aligned address, without components, with a base size in [12, 24) and passing kind checks, is accepted with 4-byte pointers and rejected as too small with 8-byte pointers |

## Left out

- The effect of `ASSERT_UNCONDITIONALLY` in `REPORT_FAILURE` (a debug break or abort) is not modelled. Only whether it fires is recorded, in `Verdict.asserted`.
- `dac_cast<TADDR>` and the `DACCESS_COMPILE` build split are debugger-access pointer plumbing. The address is a plain natural number.
- `eetype.h` is not part of this model. That covers the memory layout of EEType, the bodies of the getters and the widths of the base-size and component-size fields. These values are unbounded naturals here. The base size is converted to size_t as C does.
- The header that defines `ALIGN_UP` is not part of this model. `AlignUp` is the usual round-up to a multiple, and the size_t wrap-around is applied to its result. `AlignUpIsMaskedSum` proves this equals the C form: add `alignment - 1` in size_t, then clear the low bits.
- The default argument of `assertOnFail` (`true`, at src/Native/Runtime/eetype.cpp:24) is not modelled; callers of `Validate` always pass the flag. `AssertOnFailIrrelevant` shows the verdict is the same for either value.
- The ahead-of-time compiler driver is not part of this model. This covers root selection, the scan and compile phases, the metadata-manager transition and the scan-versus-compile consistency check. None of its source is among the files modelled.
