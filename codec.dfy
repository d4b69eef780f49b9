/**
 * Byte-level encodings used by the ciphertext's binary format: fixed-width
 * little-endian unsigned integers (the in-memory image `stream.write` copies
 * on a little-endian host), and the coefficient buffer's own self-delimited
 * form, a 64-bit element count followed by the elements.
 */
module Codec {
  import opened Common

  function Pow256(n: nat): (p: nat)
    ensures p >= 1
  {
    if n == 0 then 1 else 256 * Pow256(n - 1)
  }

  lemma Pow256Eight()
    ensures Pow256(8) == WORD_BOUND
  {
    assert Pow256(2) == 0x1_0000;
    assert Pow256(4) == 0x1_0000_0000;
    assert Pow256(6) == 0x1_0000_0000_0000;
  }

  /** The `n` least significant base-256 digits of `x`, least significant first. */
  function EncodeLE(x: nat, n: nat): (r: seq<byte>)
    ensures |r| == n
  {
    if n == 0 then [] else [x % 256] + EncodeLE(x / 256, n - 1)
  }

  /** The number whose little-endian digits are `s`; it always fits in `|s|` bytes. */
  function DecodeLE(s: seq<byte>): (r: nat)
    ensures r < Pow256(|s|)
  {
    if s == [] then 0 else s[0] + 256 * DecodeLE(s[1..])
  }

  lemma {:induction false} DecodeEncodeLE(x: nat, n: nat)
    requires x < Pow256(n)
    ensures DecodeLE(EncodeLE(x, n)) == x
  {
    if n > 0 {
      DecodeEncodeLE(x / 256, n - 1);
      assert EncodeLE(x, n)[1..] == EncodeLE(x / 256, n - 1);
    }
  }

  lemma {:induction false} EncodeDecodeLE(s: seq<byte>)
    ensures EncodeLE(DecodeLE(s), |s|) == s
  {
    if s != [] {
      EncodeDecodeLE(s[1..]);
      var d := DecodeLE(s);
      assert d % 256 == s[0] && d / 256 == DecodeLE(s[1..]);
    }
  }

  /** An 8-byte little-endian word. */
  function EncodeU64(x: U64): (r: seq<byte>)
    ensures |r| == 8
  {
    EncodeLE(x, 8)
  }

  /** Reads an 8-byte word; a stream with fewer than eight bytes left fails. */
  function ReadU64(s: seq<byte>): (r: Result<(U64, seq<byte>)>)
    ensures r.Ok? <==> |s| >= 8
    ensures r.Err? ==> r.error == StreamFailure
    ensures r.Ok? ==> EncodeU64(r.value.0) == s[..8] && r.value.1 == s[8..]
    ensures r.Ok? ==> EncodeU64(r.value.0) + r.value.1 == s
  {
    if |s| < 8 then Err(StreamFailure)
    else
      Pow256Eight();
      EncodeDecodeLE(s[..8]);
      assert s[..8] + s[8..] == s;
      Ok((DecodeLE(s[..8]), s[8..]))
  }

  lemma ReadEncodeU64(x: U64, rest: seq<byte>)
    ensures ReadU64(EncodeU64(x) + rest) == Ok((x, rest))
  {
    Pow256Eight();
    DecodeEncodeLE(x, 8);
    assert (EncodeU64(x) + rest)[..8] == EncodeU64(x);
    assert (EncodeU64(x) + rest)[8..] == rest;
  }

  /** Reads `n` raw bytes; a stream with fewer left fails. */
  function ReadBytes(s: seq<byte>, n: nat): (r: Result<(seq<byte>, seq<byte>)>)
    ensures r.Ok? <==> |s| >= n
    ensures r.Err? ==> r.error == StreamFailure
    ensures r.Ok? ==> r.value.0 + r.value.1 == s && |r.value.0| == n
  {
    if |s| < n then Err(StreamFailure) else Ok((s[..n], s[n..]))
  }

  /** The words of `ws`, 8 bytes each, back to back. */
  function EncodeWords(ws: seq<U64>): (r: seq<byte>)
    ensures |r| == 8 * |ws|
  {
    if ws == [] then [] else EncodeU64(ws[0]) + EncodeWords(ws[1..])
  }

  /** Reads `n` consecutive 8-byte words. */
  function ReadWords(s: seq<byte>, n: nat): (r: Result<(seq<U64>, seq<byte>)>)
    ensures r.Ok? <==> |s| >= 8 * n
    ensures r.Err? ==> r.error == StreamFailure
    ensures r.Ok? ==> |r.value.0| == n && EncodeWords(r.value.0) + r.value.1 == s
  {
    if n == 0 then Ok(([], s))
    else
      var first :- ReadU64(s);
      var tail :- ReadWords(first.1, n - 1);
      assert EncodeWords([first.0] + tail.0) == EncodeU64(first.0) + EncodeWords(tail.0) by {
        assert ([first.0] + tail.0)[1..] == tail.0;
      }
      Ok(([first.0] + tail.0, tail.1))
  }

  lemma {:induction false} ReadEncodeWords(ws: seq<U64>, rest: seq<byte>)
    ensures ReadWords(EncodeWords(ws) + rest, |ws|) == Ok((ws, rest))
  {
    if ws != [] {
      var s := EncodeWords(ws) + rest;
      assert s == EncodeU64(ws[0]) + (EncodeWords(ws[1..]) + rest);
      ReadEncodeU64(ws[0], EncodeWords(ws[1..]) + rest);
      ReadEncodeWords(ws[1..], rest);
      assert [ws[0]] + ws[1..] == ws;
    } else {
      assert EncodeWords(ws) + rest == rest;
    }
  }

  /**
   * A coefficient buffer, `IntArray<ct_coeff_type>`: its length is a
   * `size_type`.
   */
  type Buffer = s: seq<U64> | |s| < WORD_BOUND

  /** `IntArray::save`: the element count as a 64-bit word, then the elements. */
  function EncodeBuffer(data: Buffer): (r: seq<byte>)
    ensures |r| == 8 + 8 * |data|
  {
    EncodeU64(|data|) + EncodeWords(data)
  }

  /**
   * `IntArray::load`: reads the count, then that many elements; a stream that
   * ends first fails.
   */
  function ReadBuffer(s: seq<byte>): (r: Result<(Buffer, seq<byte>)>)
    ensures r.Ok? ==> EncodeBuffer(r.value.0) + r.value.1 == s
    ensures r.Err? ==> r.error == StreamFailure
  {
    var count :- ReadU64(s);
    var words :- ReadWords(count.1, count.0);
    Ok((words.0, words.1))
  }

  lemma ReadEncodeBuffer(data: Buffer, rest: seq<byte>)
    ensures ReadBuffer(EncodeBuffer(data) + rest) == Ok((data, rest))
  {
    assert EncodeBuffer(data) + rest == EncodeU64(|data|) + (EncodeWords(data) + rest);
    ReadEncodeU64(|data|, EncodeWords(data) + rest);
    ReadEncodeWords(data, rest);
  }
}
