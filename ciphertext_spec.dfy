/**
 * The ciphertext container as a value: its fields, and each operation of
 * ciphertext.cpp as a function from the old fields (and the operation's
 * arguments) to the new fields and whether it threw. The class in
 * ciphertext.dfy is proved against these functions.
 */
module CiphertextSpec {
  import opened Common
  import opened Context
  import opened Codec

  /** `SEAL_CIPHERTEXT_SIZE_MIN`: the smallest non-empty ciphertext has two polynomials. */
  const SIZE_MIN: U64 := 2
  /** `SEAL_CIPHERTEXT_SIZE_MAX` */
  const SIZE_MAX: U64 := 16

  /** The `double scale_`, carried as the eight bytes of its in-memory image. */
  type Scale = s: seq<byte> | |s| == 8 witness [0, 0, 0, 0, 0, 0, 0, 0]

  /** Everything `save` writes and `unsafe_load` restores (all but `size_capacity_`). */
  datatype Image = Image(
    parmsId: ParmsId,
    isNttForm: bool,
    size: U64,
    polyModulusDegree: U64,
    coeffModCount: U64,
    scale: Scale,
    data: Buffer)

  /** The fields of a `Ciphertext`; `data` is the logical contents of `data_`. */
  datatype CiphertextState = CiphertextState(
    parmsId: ParmsId,
    isNttForm: bool,
    scale: Scale,
    size: U64,
    sizeCapacity: U64,
    polyModulusDegree: U64,
    coeffModCount: U64,
    data: Buffer)
  {
    function ToImage(): Image {
      Image(parmsId, isNttForm, size, polyModulusDegree, coeffModCount, scale, data)
    }

    /** These fields overwritten by a loaded image; the capacity stays. */
    function WithImage(img: Image): CiphertextState {
      this.(parmsId := img.parmsId, isNttForm := img.isNttForm, size := img.size,
            polyModulusDegree := img.polyModulusDegree, coeffModCount := img.coeffModCount,
            scale := img.scale, data := img.data)
    }

    /** The shape product can be formed without `mul_safe` throwing. */
    predicate Representable() {
      MulSafe3(size, polyModulusDegree, coeffModCount).Ok?
    }

    /** The buffer holds exactly `size * degree * count` coefficients. */
    predicate ShapeConsistent() {
      MulSafe3(size, polyModulusDegree, coeffModCount) == Ok(|data|)
    }
  }

  /** The result of an operation: the fields afterwards, and whether it threw. */
  datatype Step = Step(next: CiphertextState, status: Status)

  /**
   * `IntArray::resize`: the first `min(n, |data|)` elements survive and the
   * new ones are zero.
   */
  function ResizeBuffer(data: Buffer, n: U64): (r: Buffer)
    ensures |r| == n
    ensures forall p :: 0 <= p < n && p < |data| ==> r[p] == data[p]
    ensures forall p :: |data| <= p < n ==> r[p] == 0
  {
    if n <= |data| then data[..n] else data + seq(n - |data|, _ => 0)
  }

  /** The sizes `resize_internal` admits: zero, or a size within the bounds. */
  predicate SizeAllowed(size: U64) {
    size == 0 || SIZE_MIN <= size <= SIZE_MAX
  }

  // ---------------------------------------------------------------------
  // Shape manager
  // ---------------------------------------------------------------------

  /**
   * `reserve_internal`: a capacity outside the bounds (zero included) or a
   * capacity product that overflows throws and changes nothing; otherwise
   * the buffer is cut to at most the new capacity, the size is clamped to it,
   * and the new dimensions are stored.
   */
  function ReserveInternal(st: CiphertextState, sizeCapacity: U64, degree: U64, count: U64): (r: Step)
    ensures r.status.Pass? <==>
            SIZE_MIN <= sizeCapacity <= SIZE_MAX
            && sizeCapacity * degree < WORD_BOUND && sizeCapacity * degree * count < WORD_BOUND
    ensures r.status == Fail(InvalidSizeCapacity) <==> !(SIZE_MIN <= sizeCapacity <= SIZE_MAX)
    ensures SIZE_MIN <= sizeCapacity <= SIZE_MAX && r.status.Fail? ==> r.status == Fail(Overflow)
    ensures r.status.Fail? ==> r.next == st
    ensures r.status.Pass? ==>
              && |r.next.data| == Min(sizeCapacity * degree * count, |st.data|)
              && r.next.data == st.data[..|r.next.data|]
              && r.next.sizeCapacity == sizeCapacity
              && r.next.size == Min(sizeCapacity, st.size)
              && r.next.polyModulusDegree == degree
              && r.next.coeffModCount == count
              && r.next.parmsId == st.parmsId
              && r.next.isNttForm == st.isNttForm
              && r.next.scale == st.scale
  {
    if sizeCapacity < SIZE_MIN || sizeCapacity > SIZE_MAX then
      Step(st, Fail(InvalidSizeCapacity))
    else match MulSafe3(sizeCapacity, degree, count)
      case Err(e) => Step(st, Fail(e))
      case Ok(newDataCapacity) =>
        var newDataSize := Min(newDataCapacity, |st.data|);
        Step(st.(data := st.data[..newDataSize], sizeCapacity := sizeCapacity,
                 size := Min(sizeCapacity, st.size), polyModulusDegree := degree,
                 coeffModCount := count),
             Pass)
  }

  /**
   * `resize_internal`: a size that is neither zero nor within the bounds, or
   * a shape product that overflows, throws and changes nothing; otherwise
   * the buffer holds exactly `size * degree * count` coefficients (old ones
   * kept as a prefix, new ones zero) and the three shape fields hold the
   * arguments. The capacity field is not touched.
   */
  function ResizeInternal(st: CiphertextState, size: U64, degree: U64, count: U64): (r: Step)
    ensures r.status.Pass? <==>
            SizeAllowed(size) && size * degree < WORD_BOUND && size * degree * count < WORD_BOUND
    ensures r.status == Fail(InvalidSize) <==> !SizeAllowed(size)
    ensures SizeAllowed(size) && r.status.Fail? ==> r.status == Fail(Overflow)
    ensures r.status.Fail? ==> r.next == st
    ensures r.status.Pass? ==>
              && |r.next.data| == size * degree * count
              && r.next.ShapeConsistent()
              && r.next.size == size
              && r.next.polyModulusDegree == degree
              && r.next.coeffModCount == count
              && r.next.sizeCapacity == st.sizeCapacity
              && r.next.parmsId == st.parmsId
              && r.next.isNttForm == st.isNttForm
              && r.next.scale == st.scale
              && (forall p :: 0 <= p < |r.next.data| && p < |st.data| ==> r.next.data[p] == st.data[p])
              && (forall p :: |st.data| <= p < |r.next.data| ==> r.next.data[p] == 0)
  {
    if (size < SIZE_MIN && size != 0) || size > SIZE_MAX then
      Step(st, Fail(InvalidSize))
    else match MulSafe3(size, degree, count)
      case Err(e) => Step(st, Fail(e))
      case Ok(newDataSize) =>
        Step(st.(data := ResizeBuffer(st.data, newDataSize), size := size,
                 polyModulusDegree := degree, coeffModCount := count),
             Pass)
  }

  /**
   * `reserve`: a failed lookup throws and changes nothing; a successful one
   * stores the parameter set's id first, so it stays even when
   * `reserve_internal` then throws.
   */
  function Reserve(st: CiphertextState, context: Option<SealContext>, parmsId: ParmsId, sizeCapacity: U64): (r: Step)
    ensures Lookup(context, parmsId).Err? ==> r == Step(st, Fail(Lookup(context, parmsId).error))
    ensures Lookup(context, parmsId).Ok? ==>
              var cd := Lookup(context, parmsId).value;
              && r.next.parmsId == cd.parmsId
              && (r.status.Fail? ==> r.next == st.(parmsId := cd.parmsId))
              && r.status == ReserveInternal(st, sizeCapacity, cd.polyModulusDegree, |cd.coeffModulus|).status
              && (r.status.Pass? ==>
                    && |r.next.data| == Min(sizeCapacity * cd.polyModulusDegree * |cd.coeffModulus|, |st.data|)
                    && r.next.data == st.data[..|r.next.data|]
                    && r.next.sizeCapacity == sizeCapacity
                    && r.next.size == Min(sizeCapacity, st.size)
                    && r.next.polyModulusDegree == cd.polyModulusDegree
                    && r.next.coeffModCount == |cd.coeffModulus|
                    && r.next.isNttForm == st.isNttForm
                    && r.next.scale == st.scale)
  {
    match Lookup(context, parmsId)
    case Err(e) => Step(st, Fail(e))
    case Ok(cd) =>
      ReserveInternal(st.(parmsId := cd.parmsId), sizeCapacity, cd.polyModulusDegree, |cd.coeffModulus|)
  }

  /**
   * `resize`: a failed lookup throws and changes nothing; a successful one
   * stores the parameter set's id first, so it stays even when
   * `resize_internal` then throws.
   */
  function Resize(st: CiphertextState, context: Option<SealContext>, parmsId: ParmsId, size: U64): (r: Step)
    ensures Lookup(context, parmsId).Err? ==> r == Step(st, Fail(Lookup(context, parmsId).error))
    ensures Lookup(context, parmsId).Ok? ==>
              var cd := Lookup(context, parmsId).value;
              && r.next.parmsId == cd.parmsId
              && (r.status.Fail? ==> r.next == st.(parmsId := cd.parmsId))
              && r.status == ResizeInternal(st, size, cd.polyModulusDegree, |cd.coeffModulus|).status
              && (r.status.Pass? ==>
                    && |r.next.data| == size * cd.polyModulusDegree * |cd.coeffModulus|
                    && r.next.ShapeConsistent()
                    && r.next.size == size
                    && r.next.polyModulusDegree == cd.polyModulusDegree
                    && r.next.coeffModCount == |cd.coeffModulus|
                    && r.next.sizeCapacity == st.sizeCapacity
                    && r.next.isNttForm == st.isNttForm
                    && r.next.scale == st.scale
                    && (forall p :: 0 <= p < |r.next.data| && p < |st.data| ==> r.next.data[p] == st.data[p])
                    && (forall p :: |st.data| <= p < |r.next.data| ==> r.next.data[p] == 0))
  {
    match Lookup(context, parmsId)
    case Err(e) => Step(st, Fail(e))
    case Ok(cd) =>
      ResizeInternal(st.(parmsId := cd.parmsId), size, cd.polyModulusDegree, |cd.coeffModulus|)
  }

  // ---------------------------------------------------------------------
  // Copy assignment
  // ---------------------------------------------------------------------

  /**
   * What `std::copy` of the source's buffer into the resized target needs:
   * the source holds no more coefficients than its shape.
   */
  predicate CopyFits(source: CiphertextState) {
    |source.data| <= source.size * source.polyModulusDegree * source.coeffModCount
  }

  /**
   * `operator=` between distinct objects: the id, the NTT flag and the scale
   * are copied first and survive a throwing `resize_internal`; on success the
   * target has the source's shape and starts with the source's coefficients.
   */
  function Assign(target: CiphertextState, source: CiphertextState): (r: Step)
    requires CopyFits(source)
    ensures r.next.parmsId == source.parmsId && r.next.isNttForm == source.isNttForm
            && r.next.scale == source.scale
    ensures r.status == ResizeInternal(target, source.size, source.polyModulusDegree, source.coeffModCount).status
    ensures r.status.Fail? ==>
              r.next == target.(parmsId := source.parmsId, isNttForm := source.isNttForm, scale := source.scale)
    ensures r.status.Pass? ==>
              && r.next.size == source.size
              && r.next.polyModulusDegree == source.polyModulusDegree
              && r.next.coeffModCount == source.coeffModCount
              && r.next.sizeCapacity == target.sizeCapacity
              && r.next.ShapeConsistent()
              && r.next.data[..|source.data|] == source.data
  {
    var copied := target.(parmsId := source.parmsId, isNttForm := source.isNttForm, scale := source.scale);
    var resized := ResizeInternal(copied, source.size, source.polyModulusDegree, source.coeffModCount);
    if resized.status.Fail? then resized
    else
      var n := resized.next;
      Step(n.(data := source.data + n.data[|source.data|..]), Pass)
  }

  // ---------------------------------------------------------------------
  // Validity checkers
  // ---------------------------------------------------------------------

  /**
   * `is_metadata_valid_for`: the context is set, the ciphertext's id is
   * registered, and the registered moduli count and degree are the stored ones.
   */
  function IsMetadataValidFor(st: CiphertextState, context: Option<SealContext>): (r: bool)
    ensures r <==> && context.Some? && context.value.parametersSet
                   && st.parmsId in context.value.contextData
                   && |context.value.contextData[st.parmsId].coeffModulus| == st.coeffModCount
                   && context.value.contextData[st.parmsId].polyModulusDegree == st.polyModulusDegree
  {
    match Lookup(context, st.parmsId)
    case Err(_) => false
    case Ok(cd) => |cd.coeffModulus| == st.coeffModCount && cd.polyModulusDegree == st.polyModulusDegree
  }

  /** Offset of coefficient `k` of residue slot `j` of polynomial `i` in the flat buffer. */
  function Flat(i: nat, j: nat, k: nat, count: nat, degree: nat): nat {
    (i * count + j) * degree + k
  }

  lemma FlatInBounds(i: nat, j: nat, k: nat, size: nat, count: nat, degree: nat)
    requires i < size && j < count && k < degree
    ensures Flat(i, j, k, count, degree) < size * count * degree
  {
    MulMonotone(count, i + 1, size);
    assert count * (i + 1) == i * count + count;
    MulMonotone(degree, i * count + j + 1, size * count);
    assert degree * (i * count + j + 1) == (i * count + j) * degree + degree;
  }

  lemma FlatNextSlot(i: nat, j: nat, count: nat, degree: nat)
    ensures Flat(i, j, degree, count, degree) == Flat(i, j + 1, 0, count, degree)
  {
    assert (i * count + j + 1) * degree == (i * count + j) * degree + degree;
  }

  lemma FlatNextPoly(i: nat, count: nat, degree: nat)
    ensures Flat(i, count, 0, count, degree) == Flat(i + 1, 0, 0, count, degree)
  {
    assert (i + 1) * count == i * count + count;
  }

  /** The coefficient at `(i, j, k)` is in the buffer and below modulus `j`. */
  predicate ResidueBelow(data: seq<U64>, moduli: seq<U64>, count: nat, degree: nat, i: nat, j: nat, k: nat) {
    j < |moduli| && Flat(i, j, k, count, degree) < |data| && data[Flat(i, j, k, count, degree)] < moduli[j]
  }

  /** Every stored residue is below the modulus of its slot. */
  ghost predicate ResiduesBelowModuli(st: CiphertextState, moduli: seq<U64>) {
    forall i: nat, j: nat, k: nat | i < st.size && j < st.coeffModCount && k < st.polyModulusDegree ::
      ResidueBelow(st.data, moduli, st.coeffModCount, st.polyModulusDegree, i, j, k)
  }

  /** `is_valid_for`: the metadata check, then every residue below its modulus. */
  ghost predicate ValidFor(st: CiphertextState, context: Option<SealContext>): (r: bool)
    ensures r ==> IsMetadataValidFor(st, context)
  {
    && IsMetadataValidFor(st, context)
    && ResiduesBelowModuli(st, context.value.contextData[st.parmsId].coeffModulus)
  }

  /** A buffer short of its shape would be read past its end by `is_valid_for`'s walk. */
  predicate WalkInBounds(st: CiphertextState, context: Option<SealContext>) {
    IsMetadataValidFor(st, context) ==> st.size * st.coeffModCount * st.polyModulusDegree <= |st.data|
  }

  // ---------------------------------------------------------------------
  // Binary codec
  // ---------------------------------------------------------------------

  const PARMS_ID_BYTES: nat := 8 * PARMS_ID_WORDS

  /** Bytes before the buffer's own serialization: id, NTT byte, three words, scale. */
  const HEADER_SIZE: nat := PARMS_ID_BYTES + 1 + 8 + 8 + 8 + 8

  /** `static_cast<SEAL_BYTE>(is_ntt_form_)` */
  function NttByte(isNttForm: bool): byte {
    if isNttForm then 1 else 0
  }

  /** The fixed-width fields as they stand in the stream. */
  datatype Header = Header(
    parmsId: ParmsId,
    nttByte: byte,
    size: U64,
    polyModulusDegree: U64,
    coeffModCount: U64,
    scale: Scale)

  function EncodeHeader(h: Header): (r: seq<byte>)
    ensures |r| == HEADER_SIZE
  {
    EncodeWords(h.parmsId) + [h.nttByte] + EncodeHeaderTail(h)
  }

  /** The header after the NTT byte: size, degree, moduli count and scale. */
  function EncodeHeaderTail(h: Header): (r: seq<byte>)
    ensures |r| == 8 + 8 + 8 + 8
  {
    EncodeU64(h.size) + EncodeU64(h.polyModulusDegree) + EncodeU64(h.coeffModCount) + h.scale
  }

  /** The six header reads of `unsafe_load`, in order; a short stream fails. */
  function ReadHeader(s: seq<byte>): (r: Result<(Header, seq<byte>)>)
    ensures r.Ok? <==> |s| >= HEADER_SIZE
    ensures r.Err? ==> r.error == StreamFailure
  {
    var id :- ReadWords(s, PARMS_ID_WORDS);
    var ntt :- ReadBytes(id.1, 1);
    ReadHeaderTail(ntt.1, id.0, ntt.0[0])
  }

  /** The last four header reads, size, degree, moduli count and scale, completing the header. */
  function ReadHeaderTail(s: seq<byte>, parmsId: ParmsId, nttByte: byte): (r: Result<(Header, seq<byte>)>)
    ensures r.Ok? <==> |s| >= 8 + 8 + 8 + 8
    ensures r.Err? ==> r.error == StreamFailure
    ensures r.Ok? ==> r.value.0.parmsId == parmsId && r.value.0.nttByte == nttByte
  {
    var size :- ReadU64(s);
    var degree :- ReadU64(size.1);
    var count :- ReadU64(degree.1);
    var scale :- ReadBytes(count.1, 8);
    Ok((Header(parmsId, nttByte, size.0, degree.0, count.0, scale.0), scale.1))
  }

  function HeaderOf(img: Image): Header {
    Header(img.parmsId, NttByte(img.isNttForm), img.size, img.polyModulusDegree, img.coeffModCount, img.scale)
  }

  /** The bytes `save` appends to the stream: the header, then the buffer's own serialization. */
  function Serialize(img: Image): (r: seq<byte>)
    ensures |r| == HEADER_SIZE + 8 + 8 * |img.data|
  {
    EncodeHeader(HeaderOf(img)) + EncodeBuffer(img.data)
  }

  /**
   * `unsafe_load` as a parse: read the header fields and the buffer (a short
   * stream fails), form the shape product with `mul_safe` (which may throw),
   * and throw `InvalidData` unless the buffer's length equals it. Any nonzero
   * NTT byte means NTT form. Returns the image and the unread rest.
   */
  function Load(s: seq<byte>): (r: Result<(Image, seq<byte>)>)
    ensures |s| < HEADER_SIZE + 8 ==> r == Err(StreamFailure)
    ensures r.Ok? ==> MulSafe3(r.value.0.size, r.value.0.polyModulusDegree, r.value.0.coeffModCount)
                      == Ok(|r.value.0.data|)
  {
    var header :- ReadHeader(s);
    var h := header.0;
    var data :- ReadBuffer(header.1);
    var expected :- MulSafe3(h.size, h.polyModulusDegree, h.coeffModCount);
    if |data.0| != expected then Err(InvalidData)
    else Ok((Image(h.parmsId, h.nttByte != 0, h.size, h.polyModulusDegree, h.coeffModCount, h.scale, data.0),
             data.1))
  }
}
