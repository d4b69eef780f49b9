/**
 * Properties of the ciphertext operations that relate several calls or
 * hold for all inputs: the save/load round trip and the byte layout, the
 * shape invariant under reserve and resize, the binding of metadata to a
 * context, copy assignment, and the meaning of the deep validity check.
 */
module CiphertextProperties {
  import opened Common
  import opened Context
  import opened Codec
  import opened CiphertextSpec

  // ---------------------------------------------------------------------
  // Binary codec
  // ---------------------------------------------------------------------

  /** Where each field sits in the bytes `save` writes. */
  lemma HeaderLayout(img: Image)
    ensures var r := Serialize(img);
            && r[..PARMS_ID_BYTES] == EncodeWords(img.parmsId)
            && r[PARMS_ID_BYTES] == NttByte(img.isNttForm)
            && r[33..41] == EncodeU64(img.size)
            && r[41..49] == EncodeU64(img.polyModulusDegree)
            && r[49..57] == EncodeU64(img.coeffModCount)
            && r[57..HEADER_SIZE] == img.scale
            && r[HEADER_SIZE..] == EncodeBuffer(img.data)
            && HEADER_SIZE == PARMS_ID_BYTES + 1 + 8 + 8 + 8 + 8
  {
    var a := EncodeWords(img.parmsId);
    var b := [NttByte(img.isNttForm)];
    var c := EncodeU64(img.size);
    var d := EncodeU64(img.polyModulusDegree);
    var e := EncodeU64(img.coeffModCount);
    var f := img.scale;
    var g := EncodeBuffer(img.data);
    var r := Serialize(img);
    assert r == a + (b + (c + (d + (e + (f + g)))));
    assert |a| == 32;
    Piece(r, 0, a, b + (c + (d + (e + (f + g)))));
    Piece(r, 32, b, c + (d + (e + (f + g))));
    Piece(r, 33, c, d + (e + (f + g)));
    Piece(r, 41, d, e + (f + g));
    Piece(r, 49, e, f + g);
    Piece(r, 57, f, g);
  }

  /** If `r` continues with `p` then `q` from offset `at`, then `p` sits at `at` and `q` follows it. */
  lemma Piece(r: seq<byte>, at: nat, p: seq<byte>, q: seq<byte>)
    requires at <= |r| && r[at..] == p + q
    ensures r[at..at + |p|] == p && r[at + |p|..] == q
  {
    assert r[at..at + |p|] == (p + q)[..|p|];
    assert r[at + |p|..] == (p + q)[|p|..];
  }

  lemma ReadEncodeHeader(h: Header, rest: seq<byte>)
    ensures ReadHeader(EncodeHeader(h) + rest) == Ok((h, rest))
  {
    var b := [h.nttByte];
    var s2 := EncodeHeaderTail(h) + rest;
    var s1 := b + s2;
    assert EncodeHeader(h) + rest == EncodeWords(h.parmsId) + s1;
    ReadEncodeWords(h.parmsId, s1);
    assert ReadBytes(s1, 1) == Ok((b, s2)) by {
      assert s1[..1] == b && s1[1..] == s2;
    }
    ReadEncodeHeaderTail(h, rest);
  }

  lemma ReadEncodeHeaderTail(h: Header, rest: seq<byte>)
    ensures ReadHeaderTail(EncodeHeaderTail(h) + rest, h.parmsId, h.nttByte) == Ok((h, rest))
  {
    var s5 := h.scale + rest;
    var s4 := EncodeU64(h.coeffModCount) + s5;
    var s3 := EncodeU64(h.polyModulusDegree) + s4;
    assert EncodeHeaderTail(h) + rest == EncodeU64(h.size) + s3;
    ReadEncodeU64(h.size, s3);
    ReadEncodeU64(h.polyModulusDegree, s4);
    ReadEncodeU64(h.coeffModCount, s5);
    assert ReadBytes(s5, 8) == Ok((h.scale, rest)) by {
      assert s5[..8] == h.scale && s5[8..] == rest;
    }
  }

  lemma ReadHeaderInverse(s: seq<byte>)
    requires ReadHeader(s).Ok?
    ensures EncodeHeader(ReadHeader(s).value.0) + ReadHeader(s).value.1 == s
  {
    var id := ReadWords(s, PARMS_ID_WORDS).value;
    var ntt := ReadBytes(id.1, 1).value;
    assert ntt.0 == [ntt.0[0]];
    var h := ReadHeader(s).value.0;
    var rest := ReadHeader(s).value.1;
    ReadHeaderTailInverse(ntt.1, id.0, ntt.0[0]);
    HeaderRegroup(h, rest, s);
  }

  lemma ReadHeaderTailInverse(s: seq<byte>, parmsId: ParmsId, nttByte: byte)
    requires ReadHeaderTail(s, parmsId, nttByte).Ok?
    ensures EncodeHeaderTail(ReadHeaderTail(s, parmsId, nttByte).value.0)
            + ReadHeaderTail(s, parmsId, nttByte).value.1 == s
  {
    var size := ReadU64(s).value;
    var degree := ReadU64(size.1).value;
    var count := ReadU64(degree.1).value;
    var scale := ReadBytes(count.1, 8).value;
    var h := ReadHeaderTail(s, parmsId, nttByte).value.0;
    HeaderTailRegroup(h, scale.1, s);
  }

  lemma HeaderTailRegroup(h: Header, rest: seq<byte>, t: seq<byte>)
    requires t == EncodeU64(h.size) + (EncodeU64(h.polyModulusDegree) + (EncodeU64(h.coeffModCount) + (h.scale + rest)))
    ensures t == EncodeHeaderTail(h) + rest
  {
  }

  lemma HeaderRegroup(h: Header, rest: seq<byte>, s: seq<byte>)
    requires s == EncodeWords(h.parmsId) + ([h.nttByte] + (EncodeHeaderTail(h) + rest))
    ensures s == EncodeHeader(h) + rest
  {
  }

  /** Loading what `save` wrote: the shape check decides, and success returns the image and the rest. */
  lemma LoadSerialize(img: Image, rest: seq<byte>)
    ensures Load(Serialize(img) + rest) ==
            match MulSafe3(img.size, img.polyModulusDegree, img.coeffModCount)
            case Err(e) => Err(e)
            case Ok(n) => if n != |img.data| then Err(InvalidData) else Ok((img, rest))
  {
    assert Serialize(img) + rest == EncodeHeader(HeaderOf(img)) + (EncodeBuffer(img.data) + rest);
    ReadEncodeHeader(HeaderOf(img), EncodeBuffer(img.data) + rest);
    ReadEncodeBuffer(img.data, rest);
  }

  /**
   * Round trip: a shape-consistent ciphertext loads back from its own bytes
   * with every saved field intact, and one that is not is refused.
   */
  lemma SaveLoadRoundTrip(st: CiphertextState, rest: seq<byte>)
    ensures Load(Serialize(st.ToImage()) + rest).Ok? <==> st.ShapeConsistent()
    ensures st.ShapeConsistent() ==> Load(Serialize(st.ToImage()) + rest) == Ok((st.ToImage(), rest))
    ensures st.Representable() && !st.ShapeConsistent() ==>
              Load(Serialize(st.ToImage()) + rest) == Err(InvalidData)
  {
    LoadSerialize(st.ToImage(), rest);
  }

  /** Overwriting the byte that follows `a`. */
  lemma UpdateAfterPrefix(a: seq<byte>, b: byte, y: seq<byte>, v: byte)
    ensures (a + [b] + y)[|a| := v] == a + [v] + y
  {
    var l := (a + [b] + y)[|a| := v];
    var m := a + [v] + y;
    assert |l| == |m|;
    forall p | 0 <= p < |l| ensures l[p] == m[p] {
      if p < |a| {
      } else if p == |a| {
      } else {
        assert l[p] == y[p - |a| - 1];
      }
    }
  }

  /** What a successful load consists of: a header, a buffer, and the rest. */
  lemma LoadParts(s: seq<byte>)
    requires Load(s).Ok?
    ensures ReadHeader(s).Ok? && ReadBuffer(ReadHeader(s).value.1).Ok?
    ensures var h := ReadHeader(s).value.0;
            var data := ReadBuffer(ReadHeader(s).value.1).value;
            Load(s).value == (Image(h.parmsId, h.nttByte != 0, h.size, h.polyModulusDegree, h.coeffModCount, h.scale, data.0), data.1)
  {
  }

  /** Re-serializing a parsed header and buffer gives back the input, NTT byte normalised. */
  lemma SerializeParsed(h: Header, data: Buffer, rest: seq<byte>)
    ensures var img := Image(h.parmsId, h.nttByte != 0, h.size, h.polyModulusDegree, h.coeffModCount, h.scale, data);
            var s := EncodeHeader(h) + (EncodeBuffer(data) + rest);
            && s[PARMS_ID_BYTES] == h.nttByte
            && Serialize(img) + rest == s[PARMS_ID_BYTES := NttByte(h.nttByte != 0)]
  {
    var img := Image(h.parmsId, h.nttByte != 0, h.size, h.polyModulusDegree, h.coeffModCount, h.scale, data);
    var v := NttByte(h.nttByte != 0);
    var a := EncodeWords(h.parmsId);
    var y := EncodeHeaderTail(h) + (EncodeBuffer(data) + rest);
    assert HeaderOf(img) == h.(nttByte := v);
    assert EncodeHeaderTail(h.(nttByte := v)) == EncodeHeaderTail(h);
    assert EncodeHeader(h) + (EncodeBuffer(data) + rest) == a + [h.nttByte] + y;
    UpdateAfterPrefix(a, h.nttByte, y, v);
    assert Serialize(img) + rest == a + [v] + y;
  }

  /**
   * Conversely, whatever `unsafe_load` accepts is what `save` writes for the
   * loaded image, except that the NTT byte is normalised to 0 or 1.
   */
  lemma LoadInvertsSerialize(s: seq<byte>)
    requires Load(s).Ok?
    ensures var img := Load(s).value.0;
            && |s| > PARMS_ID_BYTES
            && img.isNttForm == (s[PARMS_ID_BYTES] != 0)
            && Serialize(img) + Load(s).value.1 == s[PARMS_ID_BYTES := NttByte(s[PARMS_ID_BYTES] != 0)]
  {
    LoadParts(s);
    var header := ReadHeader(s).value;
    ReadHeaderInverse(s);
    var data := ReadBuffer(header.1).value;
    assert s == EncodeHeader(header.0) + (EncodeBuffer(data.0) + data.1);
    SerializeParsed(header.0, data.0, data.1);
  }

  // ---------------------------------------------------------------------
  // Shape manager
  // ---------------------------------------------------------------------

  /** After a successful `reserve_internal` the shape product is again representable. */
  lemma ReserveKeepsRepresentable(st: CiphertextState, sizeCapacity: U64, degree: U64, count: U64)
    requires ReserveInternal(st, sizeCapacity, degree, count).status.Pass?
    ensures ReserveInternal(st, sizeCapacity, degree, count).next.Representable()
    ensures ReserveInternal(st, sizeCapacity, degree, count).next.size
            <= ReserveInternal(st, sizeCapacity, degree, count).next.sizeCapacity
  {
    var n := ReserveInternal(st, sizeCapacity, degree, count).next;
    MulMonotone(degree, n.size, sizeCapacity);
    MulMonotone(count, n.size * degree, sizeCapacity * degree);
  }

  /** Clamping the size and cutting the buffer at the capacity agree when the shape factors stay. */
  lemma ClampedShape(size: nat, capacity: nat, degree: nat, count: nat)
    ensures Min(capacity, size) * degree * count == Min(capacity * degree * count, size * degree * count)
  {
    var k := degree * count;
    assert size * degree * count == size * k;
    assert capacity * degree * count == capacity * k;
    if capacity <= size {
      MulMonotone(k, capacity, size);
    } else {
      MulMonotone(k, size, capacity);
    }
  }

  /**
   * Reserving under the stored degree and moduli count keeps the buffer's
   * length equal to `size * degree * count`.
   */
  lemma ReserveKeepsShapeWhenDimensionsUnchanged(st: CiphertextState, sizeCapacity: U64)
    requires st.ShapeConsistent()
    requires ReserveInternal(st, sizeCapacity, st.polyModulusDegree, st.coeffModCount).status.Pass?
    ensures ReserveInternal(st, sizeCapacity, st.polyModulusDegree, st.coeffModCount).next.ShapeConsistent()
  {
    var d, c := st.polyModulusDegree, st.coeffModCount;
    var n := ReserveInternal(st, sizeCapacity, d, c).next;
    ReserveKeepsRepresentable(st, sizeCapacity, d, c);
    ClampedShape(st.size, sizeCapacity, d, c);
    assert |n.data| == n.size * d * c;
  }

  /**
   * Reserving under a different degree or moduli count does not keep the
   * buffer in step with the shape: here two coefficients remain for a shape
   * of 2 x 8 x 3, so `is_valid_for` would walk past the end of the buffer.
   */
  lemma ReserveWithNewDimensionsBreaksShape()
    ensures var st := CiphertextState([0, 0, 0, 0], false, [0, 0, 0, 0, 0, 0, 0, 0], 2, 2, 1, 1, [0, 0]);
            var r := ReserveInternal(st, 2, 8, 3);
            && st.ShapeConsistent()
            && r.status.Pass?
            && r.next.size == 2 && |r.next.data| == 2
            && !r.next.ShapeConsistent()
            && r.next.size * r.next.coeffModCount * r.next.polyModulusDegree > |r.next.data|
  {
  }

  /**
   * `resize_internal` leaves the capacity field alone, so the size can end
   * up above it: an empty ciphertext resized to two polynomials keeps capacity 0.
   */
  lemma ResizeCanExceedCapacity()
    ensures var st := CiphertextState([0, 0, 0, 0], false, [0, 0, 0, 0, 0, 0, 0, 0], 0, 0, 1, 1, []);
            var r := ResizeInternal(st, 2, 1, 1);
            r.status.Pass? && r.next.size == 2 && r.next.sizeCapacity == 0
  {
  }

  /** A successful `resize` against a context leaves metadata that is valid for it. */
  lemma ResizeBindsMetadata(st: CiphertextState, context: Option<SealContext>, parmsId: ParmsId, size: U64)
    requires context.Some? && context.value.IdsConsistent()
    requires Resize(st, context, parmsId, size).status.Pass?
    ensures IsMetadataValidFor(Resize(st, context, parmsId, size).next, context)
    ensures Resize(st, context, parmsId, size).next.parmsId == parmsId
  {
  }

  /** A successful `reserve` against a context leaves metadata that is valid for it. */
  lemma ReserveBindsMetadata(st: CiphertextState, context: Option<SealContext>, parmsId: ParmsId, sizeCapacity: U64)
    requires context.Some? && context.value.IdsConsistent()
    requires Reserve(st, context, parmsId, sizeCapacity).status.Pass?
    ensures IsMetadataValidFor(Reserve(st, context, parmsId, sizeCapacity).next, context)
    ensures Reserve(st, context, parmsId, sizeCapacity).next.parmsId == parmsId
  {
  }

  // ---------------------------------------------------------------------
  // Copy assignment
  // ---------------------------------------------------------------------

  /**
   * Assigning from a shape-consistent source of admissible size succeeds and
   * reproduces every saved field and the coefficients.
   */
  lemma AssignReproducesSource(target: CiphertextState, source: CiphertextState)
    requires source.ShapeConsistent() && SizeAllowed(source.size)
    ensures CopyFits(source)
    ensures Assign(target, source).status.Pass?
    ensures Assign(target, source).next.ToImage() == source.ToImage()
    ensures Assign(target, source).next.sizeCapacity == target.sizeCapacity
  {
    var r := Assign(target, source);
    assert |r.next.data| == |source.data|;
    assert r.next.data == r.next.data[..|source.data|];
  }

  // ---------------------------------------------------------------------
  // Validity checkers
  // ---------------------------------------------------------------------

  /** With the buffer long enough for the walk, the residue check is a plain comparison. */
  lemma ResiduesBelowModuliIff(st: CiphertextState, moduli: seq<U64>)
    requires |moduli| == st.coeffModCount
    requires st.size * st.coeffModCount * st.polyModulusDegree <= |st.data|
    ensures ResiduesBelowModuli(st, moduli) <==>
            forall i: nat, j: nat, k: nat | i < st.size && j < st.coeffModCount && k < st.polyModulusDegree ::
              (FlatInBounds(i, j, k, st.size, st.coeffModCount, st.polyModulusDegree);
               st.data[Flat(i, j, k, st.coeffModCount, st.polyModulusDegree)] < moduli[j])
  {
    var count, degree := st.coeffModCount, st.polyModulusDegree;
    if ResiduesBelowModuli(st, moduli) {
      forall i: nat, j: nat, k: nat | i < st.size && j < count && k < degree
        ensures Flat(i, j, k, count, degree) < |st.data| && st.data[Flat(i, j, k, count, degree)] < moduli[j]
      {
        assert ResidueBelow(st.data, moduli, count, degree, i, j, k);
      }
    } else {
      var i: nat, j: nat, k: nat :| i < st.size && j < count && k < degree
                                    && !ResidueBelow(st.data, moduli, count, degree, i, j, k);
      FlatInBounds(i, j, k, st.size, count, degree);
      assert !(Flat(i, j, k, count, degree) < |st.data| ==> st.data[Flat(i, j, k, count, degree)] < moduli[j]);
    }
  }

  /**
   * `is_valid_for` holds exactly when the context is set, the id resolves,
   * the moduli count and degree match, and every coefficient
   * `data[(i * count + j) * degree + k]` is below `coeff_modulus[j]`.
   */
  lemma ValidForIff(st: CiphertextState, context: Option<SealContext>)
    requires WalkInBounds(st, context)
    ensures ValidFor(st, context) <==>
            && context.Some? && context.value.parametersSet
            && st.parmsId in context.value.contextData
            && |context.value.contextData[st.parmsId].coeffModulus| == st.coeffModCount
            && context.value.contextData[st.parmsId].polyModulusDegree == st.polyModulusDegree
            && forall i: nat, j: nat, k: nat | i < st.size && j < st.coeffModCount && k < st.polyModulusDegree ::
                 (FlatInBounds(i, j, k, st.size, st.coeffModCount, st.polyModulusDegree);
                  st.data[Flat(i, j, k, st.coeffModCount, st.polyModulusDegree)]
                  < context.value.contextData[st.parmsId].coeffModulus[j])
  {
    if IsMetadataValidFor(st, context) {
      ResiduesBelowModuliIff(st, context.value.contextData[st.parmsId].coeffModulus);
    }
  }
}
