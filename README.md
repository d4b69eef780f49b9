# SEAL `Ciphertext`: a verified model

This project models the ciphertext container of Microsoft SEAL
(`src/seal/ciphertext.cpp`). A ciphertext is a tuple of `size` polynomials.
Each polynomial is stored in RNS form: one residue slot per coefficient
modulus, `poly_modulus_degree` coefficients per slot, all in one flat
buffer of 64-bit words. The object also carries the `parms_id` of the
parameter set it belongs to, an NTT-form flag, a scale and a size capacity.

The model has six modules:

- `Common`: bytes, 64-bit words, the container's exceptions as an `Error`
  datatype, and the overflow-checked product `mul_safe`.
- `Context`: a `SEALContext` reduced to what the container asks of it.
  That is whether parameters are set, and a map from `parms_id` to the
  registered degree and coefficient moduli.
- `Codec`: fixed-width little-endian words, and the self-delimited
  serialization of the coefficient buffer (`IntArray`).
- `CiphertextSpec`: every operation as a function on a value
  `CiphertextState`. It returns the new state and whether the operation
  threw. The file also defines the byte format (`Serialize`, `Load`).
- `CiphertextProperties`: lemmas that relate several operations or hold
  for all inputs. These cover the save/load round trip and byte layout,
  the shape invariant, metadata binding, copy assignment and what the deep
  validity check means.
- `Ciphertexts`: the class `Ciphertext`, whose fields the methods update
  in place. `ReserveInternal`, `Reserve`, `ResizeInternal` and `Resize`
  ensure `Step(State(), status) == CiphertextSpec.F(old(State()), ...)`.
  `Assign` ensures the same of `CiphertextSpec.Assign` between distinct
  objects, and that self-assignment changes nothing. `UnsafeLoad` is
  stated through `CiphertextSpec.Load`: an error leaves the fields as they
  were, and success installs the loaded image.
  `IsValidFor` is the source's triple loop, proved equal to
  `CiphertextSpec.ValidFor`.
  `Save` appends field by field and is proved equal to `Serialize`.

A thrown exception is a `Fail(error)` status. The state reached until the
throw is kept. For example, `reserve` stores the new `parms_id` before
`reserve_internal` can throw, and the model keeps it.

Behaviour of the code that the model makes explicit:

- `resize_internal` never writes `size_capacity_`. So the size can exceed
  the capacity (`ResizeCanExceedCapacity`). The class's informal invariant
  "capacity ≥ size" therefore does not hold in general. The model follows
  the code.
- `reserve_internal` keeps `min(capacity product, old length)`
  coefficients, under whatever degree and moduli count it is given. When
  `degree × count` changes, the buffer can fall out of step with
  `size × degree × count` (`ReserveWithNewDimensionsBreaksShape`). On such
  a state `is_valid_for` would read beyond `data_.size()`, into reserved
  storage that holds no coefficients of the ciphertext. The model's
  `IsValidFor` therefore requires the buffer to be long enough for the
  walk (`WalkInBounds`).
- The three-operand `mul_safe` is a left fold. It throws when
  `size × degree` overflows even if the moduli count is 0
  (`MulSafe3ZeroFactor`).
- `operator=` copies the id, the NTT flag and the scale before
  `resize_internal`. These three fields are overwritten even when it throws.
- `unsafe_load` reads everything into locals and commits only after the
  length check. A failure therefore leaves the object unchanged. It checks
  no size bounds: any shape whose product matches the buffer is accepted.

## Model

| member | source | states |
|---|---|---|
| Common.MulSafe | src/seal/ciphertext.cpp:71-72 | the product when it fits in 64 bits; `Overflow` exactly when it does not |
| Common.MulSafe3 | src/seal/ciphertext.cpp:123-124 | the three-factor product as a left fold; succeeds iff `a*b` and `a*b*c` both fit; the value is `a*b*c` |
| Common.MulSafe3NonzeroFactors | src/seal/ciphertext.cpp:71-72 | with a nonzero last factor, success is exactly "the whole product fits" |
| Context.Lookup | src/seal/ciphertext.cpp:38-52 | null context, parameters not set and unknown id fail with their own errors, in that order; otherwise the registered context data |
| CiphertextSpec.ResizeBuffer | src/seal/ciphertext.cpp:125 | the new buffer has exactly `n` elements, keeps the old prefix, and zero-fills the rest |
| CiphertextSpec.ReserveInternal | src/seal/ciphertext.cpp:62-84 | passes iff the capacity is in [SIZE_MIN, SIZE_MAX] and the capacity product fits; `InvalidSizeCapacity` iff out of bounds (zero included); an in-bounds capacity whose product overflows fails with `Overflow`; a failure changes nothing; on success the data is the old data cut to `min(product, old length)`, capacity/degree/count are the arguments, the size is clamped, and the id, NTT flag and scale are kept |
| CiphertextSpec.ResizeInternal | src/seal/ciphertext.cpp:113-131 | passes iff the size is 0 or in bounds and the shape product fits; `InvalidSize` iff the size is not admissible; an admissible size whose product overflows fails with `Overflow`; a failure changes nothing; on success the length is `size*degree*count`, the old prefix is kept, new elements are zero, and the capacity is untouched |
| CiphertextSpec.Reserve | src/seal/ciphertext.cpp:35-60 | a failed lookup throws its error and changes nothing; after a successful lookup the id is rebound even if `reserve_internal` then throws, and the status is `reserve_internal`'s for the registered degree and moduli count; on success the buffer is cut to `min(product, old length)`, the size is clamped to the capacity, capacity, degree and count come from the arguments and the parameter set, and the NTT flag and scale are kept |
| CiphertextSpec.Resize | src/seal/ciphertext.cpp:86-111 | a failed lookup throws and changes nothing; after a successful lookup the id is rebound even on failure, and the status is `resize_internal`'s for the registered degree and moduli count; on success the shape comes from the argument and the parameter set, the buffer matches it with the old prefix kept and a zero tail, and the capacity, NTT flag and scale are kept |
| CiphertextSpec.Assign | src/seal/ciphertext.cpp:12-33 | id, NTT flag and scale are copied even when the resize throws; the status is that of `resize_internal` to the source's shape (`InvalidSize` or `Overflow` on failure); on failure nothing else changes; on success the shape is the source's, the capacity is kept, and the buffer starts with the source's coefficients |
| CiphertextSpec.IsMetadataValidFor | src/seal/ciphertext.cpp:174-197 | true iff the context is set, the id is registered, and its moduli count and degree equal the stored ones |
| CiphertextSpec.ValidFor | src/seal/ciphertext.cpp:133-172 | the deep check implies the metadata check |
| CiphertextSpec.EncodeHeader | src/seal/ciphertext.cpp:207-216 | the fixed-width part `save` writes is HEADER_SIZE = 32+1+8+8+8+8 bytes |
| CiphertextSpec.ReadHeader | src/seal/ciphertext.cpp:238-249 | the six header reads succeed iff at least HEADER_SIZE bytes remain; otherwise a stream failure |
| CiphertextSpec.ReadHeaderTail | src/seal/ciphertext.cpp:242-249 | the four reads after the NTT byte succeed iff 32 bytes remain, and keep the id and NTT byte given |
| CiphertextSpec.Load | src/seal/ciphertext.cpp:230-269 | a stream shorter than header plus length prefix fails; a successful load's shape product equals the buffer's length |
| Codec.DecodeEncodeLE | src/seal/ciphertext.cpp:211 | decoding the little-endian digits of a number that fits gives the number back |
| Codec.EncodeDecodeLE | src/seal/ciphertext.cpp:243 | re-encoding decoded bytes gives the bytes back |
| Codec.ReadU64 | src/seal/ciphertext.cpp:242-247 | a word read succeeds iff 8 bytes remain; the bytes consumed are the word's encoding |
| Codec.ReadEncodeU64 | src/seal/ciphertext.cpp:210-215 | a written word reads back, leaving the rest of the stream |
| Codec.ReadBytes | src/seal/ciphertext.cpp:240-241 | a raw read of `n` bytes succeeds iff `n` remain and splits the stream |
| Codec.ReadWords | src/seal/ciphertext.cpp:238-239 | reading `n` words succeeds iff `8n` bytes remain; what it consumed is their encoding |
| Codec.ReadEncodeWords | src/seal/ciphertext.cpp:207 | written words read back, leaving the rest |
| Codec.EncodeBuffer | src/seal/ciphertext.cpp:219 | the buffer's serialization is 8 + 8 per element bytes |
| Codec.ReadBuffer | src/seal/ciphertext.cpp:252-253 | a successful buffer load consumed exactly the encoding of what it returns; a failure is a stream failure |
| Codec.ReadEncodeBuffer | src/seal/ciphertext.cpp:219 | a saved buffer loads back, leaving the rest |
| CiphertextProperties.HeaderLayout | src/seal/ciphertext.cpp:207-219 | the saved bytes hold id, NTT byte, size, degree, count and scale at offsets 0, 32, 33, 41, 49, 57, then the buffer at 65 |
| CiphertextProperties.ReadEncodeHeader | src/seal/ciphertext.cpp:238-249 | the header reads invert the header writes |
| CiphertextProperties.ReadEncodeHeaderTail | src/seal/ciphertext.cpp:242-249 | the last four reads invert the last four writes |
| CiphertextProperties.ReadHeaderInverse | src/seal/ciphertext.cpp:238-249 | a successful header read consumed exactly the encoding of the header it returns |
| CiphertextProperties.ReadHeaderTailInverse | src/seal/ciphertext.cpp:242-249 | the same for the last four reads |
| CiphertextProperties.LoadSerialize | src/seal/ciphertext.cpp:199-269 | loading saved bytes yields the `mul_safe` error, `InvalidData` on a length mismatch, or the saved image and the rest |
| CiphertextProperties.SaveLoadRoundTrip | src/seal/ciphertext.cpp:199-269 | a ciphertext's own bytes load back iff it is shape-consistent, and then give back every saved field; a representable but inconsistent one is refused with `InvalidData` |
| CiphertextProperties.LoadInvertsSerialize | src/seal/ciphertext.cpp:230-269 | the bytes a load accepted are the save of what it loaded, with the NTT byte normalised to 0 or 1 |
| CiphertextProperties.ReserveKeepsRepresentable | src/seal/ciphertext.cpp:71-81 | after a successful reserve the shape product fits in 64 bits and the size is at most the capacity |
| CiphertextProperties.ReserveKeepsShapeWhenDimensionsUnchanged | src/seal/ciphertext.cpp:71-83 | reserving under the stored degree and count keeps the buffer length equal to `size*degree*count` |
| CiphertextProperties.ReserveWithNewDimensionsBreaksShape | src/seal/ciphertext.cpp:71-83 | a concrete reserve under new dimensions that leaves the buffer shorter than the shape |
| CiphertextProperties.ResizeCanExceedCapacity | src/seal/ciphertext.cpp:113-131 | a concrete resize that leaves the size above the capacity |
| CiphertextProperties.ResizeBindsMetadata | src/seal/ciphertext.cpp:105-110 | a successful resize leaves metadata valid for the context, bound to the requested id |
| CiphertextProperties.ReserveBindsMetadata | src/seal/ciphertext.cpp:54-59 | the same for reserve |
| CiphertextProperties.AssignReproducesSource | src/seal/ciphertext.cpp:12-33 | assigning from a shape-consistent source of admissible size succeeds and reproduces every saved field and all coefficients |
| CiphertextProperties.ResiduesBelowModuliIff | src/seal/ciphertext.cpp:155-169 | when the buffer covers the walk, the residue check is "every `data[(i*count+j)*degree+k]` is below modulus `j`" |
| CiphertextProperties.ValidForIff | src/seal/ciphertext.cpp:133-172 | `is_valid_for` iff the metadata conditions hold and every coefficient is below its slot's modulus |
| Ciphertexts.Ciphertext.ReserveInternal | src/seal/ciphertext.cpp:62-84 | the new fields and status are those of `CiphertextSpec.ReserveInternal` |
| Ciphertexts.Ciphertext.Reserve | src/seal/ciphertext.cpp:35-60 | the new fields and status are those of `CiphertextSpec.Reserve` |
| Ciphertexts.Ciphertext.ResizeInternal | src/seal/ciphertext.cpp:113-131 | the new fields and status are those of `CiphertextSpec.ResizeInternal` |
| Ciphertexts.Ciphertext.Resize | src/seal/ciphertext.cpp:86-111 | the new fields and status are those of `CiphertextSpec.Resize` |
| Ciphertexts.Ciphertext.Assign | src/seal/ciphertext.cpp:12-33 | self-assignment changes nothing; otherwise the new fields and status are those of `CiphertextSpec.Assign` |
| Ciphertexts.Ciphertext.IsValidFor | src/seal/ciphertext.cpp:133-172 | the loop's answer is `ValidFor`, characterised by `ValidForIff` |
| Ciphertexts.Ciphertext.Save | src/seal/ciphertext.cpp:199-228 | appends exactly `Serialize` of the current fields, HEADER_SIZE + 8 + 8·length bytes, ending in the buffer's encoding |
| Ciphertexts.Ciphertext.UnsafeLoad | src/seal/ciphertext.cpp:230-278 | all or nothing: on any error the fields are unchanged and the error is `Load`'s; on success the fields are `Load`'s image, the capacity is untouched, and the rest of the stream is returned |

## Left out

- The stream exception mask and its restoration (ciphertext.cpp:201-205, 221-227, 232-236, 271-277). A failed read is the `StreamFailure` error; a write never fails, because the output is a sequence.
- Stream write faults in `save`: not modelled, so `Ciphertexts.Ciphertext.Save` always succeeds.
- Stream position after a failed `unsafe_load`: `Ciphertexts.Ciphertext.UnsafeLoad` says nothing about the returned rest on failure.
- The memory pool, `IntArray::reserve` and the buffer's backing capacity: only the buffer's logical contents are modelled. Allocation failure is not modelled.
- `IntArray::save`/`load` and `IntArray::resize` are not part of this model. They are modelled as a 64-bit element count followed by the elements, and resize as keep-prefix/zero-fill.
- `mul_safe`, `safe_cast` and `unsigned_neq` (`seal/util/common.h`) are not part of this model. `mul_safe` is modelled from its guard `a != 0 && b > max / a`, folded left over three operands. `safe_cast` between 64-bit types is the identity.
- The bounds `SEAL_CIPHERTEXT_SIZE_MIN = 2` and `SEAL_CIPHERTEXT_SIZE_MAX = 16` come from `seal/util/defines.h`, which is not part of this model. The same goes for the 4-word `parms_id_type`.
- The default constructor and its field values come from `seal/ciphertext.h`, which is not part of this model. `Ciphertexts.Ciphertext.constructor` states the zero/empty defaults with scale 1.0.
- `SEALContext` internals: the context is a map from id to degree and moduli. `Modulus` is its 64-bit value.
- The scale is kept as its 8 raw bytes. It is written and read unchanged, never interpreted as a floating-point number.
- Multi-byte fields are little-endian, i.e. the memory image on a little-endian host. Big-endian hosts are not modelled.
- Concurrency and `noexcept` semantics: not modelled.
- Ciphertexts.Ciphertext.IsValidFor: requires `WalkInBounds`, i.e. that the buffer holds at least `size*count*degree` words when the metadata matches. Otherwise the source's walk reads beyond `data_.size()`, words that are not coefficients of the ciphertext.
- Ciphertexts.Ciphertext.Assign: between distinct objects, requires `CopyFits`, i.e. that the source's buffer is no longer than its shape product; self-assignment has no requirement. Otherwise `std::copy` writes past the end of the resized target, which is undefined behaviour. `CiphertextSpec.Assign` has the same requirement.
