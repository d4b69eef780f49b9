/**
 * The `Ciphertext` object of ciphertext.cpp: its fields are updated in
 * place by the shape manager, copy assignment and `unsafe_load`, and read by
 * the validity check and `save`. Each method is proved against the
 * value-level function of the same operation in CiphertextSpec.
 */
module Ciphertexts {
  import opened Common
  import opened Context
  import opened Codec
  import opened CiphertextSpec

  /** The in-memory image of the `double` 1.0, the default scale. */
  const SCALE_ONE: Scale := [0, 0, 0, 0, 0, 0, 0xF0, 0x3F]

  class Ciphertext {
    var parmsId: ParmsId
    var isNttForm: bool
    var scale: Scale
    var size: U64
    var sizeCapacity: U64
    var polyModulusDegree: U64
    var coeffModCount: U64
    /** The logical contents of `data_`, a flat array of `size * degree * count` residues. */
    var data: Buffer

    function State(): CiphertextState
      reads this
    {
      CiphertextState(parmsId, isNttForm, scale, size, sizeCapacity, polyModulusDegree, coeffModCount, data)
    }

    /** The default-constructed ciphertext: empty, bound to the zero id, scale 1.0. */
    constructor ()
      ensures State() == CiphertextState([0, 0, 0, 0], false, SCALE_ONE, 0, 0, 0, 0, [])
      ensures State().ShapeConsistent()
    {
      parmsId := [0, 0, 0, 0];
      isNttForm := false;
      scale := SCALE_ONE;
      size, sizeCapacity, polyModulusDegree, coeffModCount := 0, 0, 0, 0;
      data := [];
    }

    /** `reserve_internal`: check the capacity, form the capacity product, cut the buffer, store the shape. */
    method ReserveInternal(newCapacity: U64, degree: U64, count: U64) returns (status: Status)
      modifies this
      ensures Step(State(), status) == CiphertextSpec.ReserveInternal(old(State()), newCapacity, degree, count)
    {
      if newCapacity < SIZE_MIN || newCapacity > SIZE_MAX {
        return Fail(InvalidSizeCapacity);
      }
      var product := MulSafe3(newCapacity, degree, count);
      if product.Err? {
        return Fail(product.error);
      }
      var newDataCapacity := product.value;
      var newDataSize := Min(newDataCapacity, |data|);
      data := data[..newDataSize];
      sizeCapacity := newCapacity;
      size := Min(newCapacity, size);
      polyModulusDegree := degree;
      coeffModCount := count;
      status := Pass;
    }

    /** `reserve`: look the id up, store it, then `reserve_internal` with the parameter set's shape. */
    method Reserve(context: Option<SealContext>, newParmsId: ParmsId, newCapacity: U64) returns (status: Status)
      modifies this
      ensures Step(State(), status) == CiphertextSpec.Reserve(old(State()), context, newParmsId, newCapacity)
    {
      var found := Lookup(context, newParmsId);
      if found.Err? {
        return Fail(found.error);
      }
      var parms := found.value;
      parmsId := parms.parmsId;
      status := ReserveInternal(newCapacity, parms.polyModulusDegree, |parms.coeffModulus|);
    }

    /** `resize_internal`: check the size, form the shape product, resize the buffer, store the shape. */
    method ResizeInternal(newSize: U64, degree: U64, count: U64) returns (status: Status)
      modifies this
      ensures Step(State(), status) == CiphertextSpec.ResizeInternal(old(State()), newSize, degree, count)
    {
      if (newSize < SIZE_MIN && newSize != 0) || newSize > SIZE_MAX {
        return Fail(InvalidSize);
      }
      var product := MulSafe3(newSize, degree, count);
      if product.Err? {
        return Fail(product.error);
      }
      data := ResizeBuffer(data, product.value);
      size := newSize;
      polyModulusDegree := degree;
      coeffModCount := count;
      status := Pass;
    }

    /** `resize`: look the id up, store it, then `resize_internal` with the parameter set's shape. */
    method Resize(context: Option<SealContext>, newParmsId: ParmsId, newSize: U64) returns (status: Status)
      modifies this
      ensures Step(State(), status) == CiphertextSpec.Resize(old(State()), context, newParmsId, newSize)
    {
      var found := Lookup(context, newParmsId);
      if found.Err? {
        return Fail(found.error);
      }
      var parms := found.value;
      parmsId := parms.parmsId;
      status := ResizeInternal(newSize, parms.polyModulusDegree, |parms.coeffModulus|);
    }

    /**
     * `operator=`: nothing happens on self-assignment; otherwise the id, the
     * NTT flag and the scale are copied, the target is resized to the
     * source's shape, and the source's coefficients are copied to its front.
     */
    method Assign(source: Ciphertext) returns (status: Status)
      requires source != this ==> CopyFits(source.State())
      modifies this
      ensures source == this ==> State() == old(State()) && status == Pass
      ensures source != this ==>
                Step(State(), status) == CiphertextSpec.Assign(old(State()), old(source.State()))
    {
      if source == this {
        return Pass;
      }
      parmsId := source.parmsId;
      isNttForm := source.isNttForm;
      scale := source.scale;
      status := ResizeInternal(source.size, source.polyModulusDegree, source.coeffModCount);
      if status.Fail? {
        return;
      }
      data := source.data + data[|source.data|..];
    }

    /**
     * `is_valid_for`: false unless the metadata matches the context; then a
     * walk over the buffer, polynomial by polynomial, slot by slot,
     * coefficient by coefficient, that stops at the first residue not below
     * its slot's modulus.
     */
    method IsValidFor(context: Option<SealContext>) returns (r: bool)
      requires WalkInBounds(State(), context)
      ensures r == ValidFor(State(), context)
    {
      if context.None? || !context.value.parametersSet {
        return false;
      }
      if parmsId !in context.value.contextData {
        return false;
      }
      var parms := context.value.contextData[parmsId];
      var coeffModulus := parms.coeffModulus;
      if |coeffModulus| != coeffModCount || parms.polyModulusDegree != polyModulusDegree {
        return false;
      }
      assert IsMetadataValidFor(State(), context);

      var ptr := 0;
      var i := 0;
      while i < size
        invariant i <= size
        invariant ptr == Flat(i, 0, 0, coeffModCount, polyModulusDegree)
        invariant forall i': nat, j': nat, k': nat | i' < i && j' < coeffModCount && k' < polyModulusDegree ::
                    ResidueBelow(data, coeffModulus, coeffModCount, polyModulusDegree, i', j', k')
      {
        var j := 0;
        while j < coeffModCount
          invariant j <= coeffModCount
          invariant ptr == Flat(i, j, 0, coeffModCount, polyModulusDegree)
          invariant forall i': nat, j': nat, k': nat | i' < i && j' < coeffModCount && k' < polyModulusDegree ::
                      ResidueBelow(data, coeffModulus, coeffModCount, polyModulusDegree, i', j', k')
          invariant forall j': nat, k': nat | j' < j && k' < polyModulusDegree ::
                      ResidueBelow(data, coeffModulus, coeffModCount, polyModulusDegree, i, j', k')
        {
          var modulus := coeffModulus[j];
          var k := 0;
          while k < polyModulusDegree
            invariant k <= polyModulusDegree
            invariant ptr == Flat(i, j, k, coeffModCount, polyModulusDegree)
            invariant forall i': nat, j': nat, k': nat | i' < i && j' < coeffModCount && k' < polyModulusDegree ::
                        ResidueBelow(data, coeffModulus, coeffModCount, polyModulusDegree, i', j', k')
            invariant forall j': nat, k': nat | j' < j && k' < polyModulusDegree ::
                        ResidueBelow(data, coeffModulus, coeffModCount, polyModulusDegree, i, j', k')
            invariant forall k': nat | k' < k ::
                        ResidueBelow(data, coeffModulus, coeffModCount, polyModulusDegree, i, j, k')
          {
            FlatInBounds(i, j, k, size, coeffModCount, polyModulusDegree);
            if data[ptr] >= modulus {
              assert !ResidueBelow(data, coeffModulus, coeffModCount, polyModulusDegree, i, j, k);
              return false;
            }
            k := k + 1;
            ptr := ptr + 1;
          }
          FlatNextSlot(i, j, coeffModCount, polyModulusDegree);
          j := j + 1;
        }
        FlatNextPoly(i, coeffModCount, polyModulusDegree);
        i := i + 1;
      }
      return true;
    }

    /**
     * `save`: appends the id, the NTT byte, size, degree and moduli count as
     * 64-bit words, the scale, and the buffer's own serialization, field
     * after field, to what the stream already holds.
     */
    method Save(stream: seq<byte>) returns (out: seq<byte>)
      ensures out == stream + Serialize(State().ToImage())
      ensures |out| == |stream| + HEADER_SIZE + 8 + 8 * |data|
      ensures out[|stream| + HEADER_SIZE..] == EncodeBuffer(data)
    {
      out := stream;
      out := out + EncodeWords(parmsId);
      out := out + [NttByte(isNttForm)];
      out := out + EncodeU64(size);
      out := out + EncodeU64(polyModulusDegree);
      out := out + EncodeU64(coeffModCount);
      out := out + scale;
      assert out == stream + EncodeHeader(HeaderOf(State().ToImage()));
      out := out + EncodeBuffer(data);
    }

    /**
     * `unsafe_load`: reads every field and the buffer into locals, checks the
     * buffer's length against the shape product, and only then overwrites
     * the fields; any failure leaves the object as it was. The capacity
     * field is not touched. Returns the unread rest of the stream.
     */
    method UnsafeLoad(stream: seq<byte>) returns (status: Status, rest: seq<byte>)
      modifies this
      ensures Load(stream).Err? ==> status == Fail(Load(stream).error) && State() == old(State())
      ensures Load(stream).Ok? ==>
                && status == Pass
                && State() == old(State()).WithImage(Load(stream).value.0)
                && rest == Load(stream).value.1
    {
      rest := stream;
      var newParmsId := ReadWords(rest, PARMS_ID_WORDS);
      if newParmsId.Err? {
        return Fail(newParmsId.error), rest;
      }
      rest := newParmsId.value.1;
      var nttByte := ReadBytes(rest, 1);
      if nttByte.Err? {
        return Fail(nttByte.error), rest;
      }
      rest := nttByte.value.1;
      var size64 := ReadU64(rest);
      if size64.Err? {
        return Fail(size64.error), rest;
      }
      rest := size64.value.1;
      var degree64 := ReadU64(rest);
      if degree64.Err? {
        return Fail(degree64.error), rest;
      }
      rest := degree64.value.1;
      var count64 := ReadU64(rest);
      if count64.Err? {
        return Fail(count64.error), rest;
      }
      rest := count64.value.1;
      var newScale := ReadBytes(rest, 8);
      if newScale.Err? {
        return Fail(newScale.error), rest;
      }
      rest := newScale.value.1;
      var header := Header(newParmsId.value.0, nttByte.value.0[0], size64.value.0, degree64.value.0,
                           count64.value.0, newScale.value.0);
      assert ReadHeader(stream) == Ok((header, rest));

      // Load the data into a fresh buffer
      var newData := ReadBuffer(rest);
      if newData.Err? {
        return Fail(newData.error), rest;
      }
      var expected := MulSafe3(size64.value.0, degree64.value.0, count64.value.0);
      if expected.Err? {
        return Fail(expected.error), rest;
      }
      if |newData.value.0| != expected.value {
        return Fail(InvalidData), rest;
      }

      // Set values
      parmsId := header.parmsId;
      isNttForm := header.nttByte != 0;
      size := header.size;
      polyModulusDegree := header.polyModulusDegree;
      coeffModCount := header.coeffModCount;
      scale := header.scale;
      data := newData.value.0;
      rest := newData.value.1;
      status := Pass;
    }
  }
}
