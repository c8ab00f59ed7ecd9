/** Data shared by both codecs: bytes, the 16-bit element count and the
    abstract values that a C++ object stands for once it is serialized. */
module Values {

  /** One byte of a buffer (`std::byte`). */
  newtype byte = b: int | 0 <= b < 256

  datatype Option<+T> = None | Some(value: T)

  datatype Result<+T, +E> = Ok(value: T) | Err(error: E)

  datatype Outcome<+E> = Pass | Fail(error: E)

  /** Number of bytes of the serialized element count (`uint16_t`). */
  const CountWidth: nat := 2

  /** Largest count a `uint16_t` holds. */
  const MaxCount: nat := 65535

  /** The count as written on the wire. The source copies a `uint16_t` in
      native order; the model fixes little-endian order instead. A count
      that does not fit is truncated modulo 2^16, as `static_cast` does. */
  function EncodeCount(n: nat): (r: seq<byte>)
    ensures |r| == CountWidth
  {
    [(n % 256) as byte, ((n / 256) % 256) as byte]
  }

  /** The count read back from two bytes. */
  function DecodeCount(lo: byte, hi: byte): (r: nat)
    ensures r <= MaxCount
  {
    lo as nat + 256 * hi as nat
  }

  lemma CountRoundTrip(n: nat)
    ensures DecodeCount(EncodeCount(n)[0], EncodeCount(n)[1]) == n % 65536
  {
  }

  /** What a C++ object of a serializable type is, once its bytes are known:
      a fixed-width blob (a trivially copyable object), a container of
      elements, the ordered fields of a tuple or aggregate, an empty or a
      filled `std::optional`, or a `std::pair`. */
  datatype Value =
    | Blob(bytes: seq<byte>)
    | Items(elems: seq<Value>)
    | Fields(fields: seq<Value>)
    | Empty
    | Present(inner: Value)
    | Both(first: Value, second: Value)

  /** Concatenation of the byte strings of a sequence of blobs. */
  function Flatten(blobs: seq<Value>): (r: seq<byte>)
  {
    if blobs == [] then []
    else (if blobs[0].Blob? then blobs[0].bytes else []) + Flatten(blobs[1..])
  }

  /** Every element is a blob of `width` bytes. */
  predicate AllBlobs(elems: seq<Value>, width: nat)
  {
    forall i | 0 <= i < |elems| :: elems[i].Blob? && |elems[i].bytes| == width
  }

  lemma {:induction false} FlattenLength(blobs: seq<Value>, width: nat)
    requires AllBlobs(blobs, width)
    ensures |Flatten(blobs)| == |blobs| * width
  {
    if blobs != [] {
      FlattenLength(blobs[1..], width);
    }
  }

  /** Cuts `count` blobs of `width` bytes off the front of `bs`. */
  function Chunks(bs: seq<byte>, width: nat, count: nat): (r: seq<Value>)
    requires |bs| >= count * width
    ensures |r| == count && AllBlobs(r, width)
  {
    if count == 0 then []
    else [Blob(bs[..width])] + Chunks(bs[width..], width, count - 1)
  }

  /** Cutting a flattened sequence of blobs gives the blobs back. */
  lemma {:induction false} ChunksOfFlatten(blobs: seq<Value>, width: nat, rest: seq<byte>)
    requires AllBlobs(blobs, width)
    ensures |Flatten(blobs) + rest| >= |blobs| * width
    ensures Chunks(Flatten(blobs) + rest, width, |blobs|) == blobs
  {
    FlattenLength(blobs, width);
    if blobs != [] {
      var tail := Flatten(blobs[1..]) + rest;
      assert Flatten(blobs) + rest == blobs[0].bytes + tail;
      ChunksOfFlatten(blobs[1..], width, rest);
      FlattenLength(blobs[1..], width);
      assert (blobs[0].bytes + tail)[..width] == blobs[0].bytes;
      assert (blobs[0].bytes + tail)[width..] == tail;
      assert [Blob(blobs[0].bytes)] + blobs[1..] == blobs;
    }
  }

  /** `buf` with `bytes` written over it from index `at` on: what a
      `memcpy` of `bytes` to `at` leaves in a buffer. */
  function Splice(buf: seq<byte>, at: nat, bytes: seq<byte>): (r: seq<byte>)
    requires at + |bytes| <= |buf|
    ensures |r| == |buf|
    ensures r[..at] == buf[..at] && r[at..at + |bytes|] == bytes
    ensures r[at + |bytes|..] == buf[at + |bytes|..]
  {
    buf[..at] + bytes + buf[at + |bytes|..]
  }

  /** Two writes one after the other make one write of both. */
  lemma SpliceTwice(buf: seq<byte>, at: nat, x: seq<byte>, y: seq<byte>)
    requires at + |x| + |y| <= |buf|
    ensures Splice(Splice(buf, at, x), at + |x|, y) == Splice(buf, at, x + y)
  {
    var once := Splice(buf, at, x);
    assert once[..at + |x|] == buf[..at] + x;
    assert once[at + |x| + |y|..] == buf[at + |x| + |y|..];
  }

  /** `memcpy(dst + at, bytes, |bytes|)`. */
  method CopyInto(dst: array<byte>, at: nat, bytes: seq<byte>)
    requires at + |bytes| <= dst.Length
    modifies dst
    ensures dst[..] == Splice(old(dst[..]), at, bytes)
  {
    var i := 0;
    while i < |bytes|
      invariant 0 <= i <= |bytes|
      invariant dst[..] == Splice(old(dst[..]), at, bytes[..i])
    {
      dst[at + i] := bytes[i];
      assert bytes[..i + 1] == bytes[..i] + [bytes[i]];
      i := i + 1;
    }
    assert bytes[..i] == bytes;
  }

  /** Writing `y` after a gap and then `x` into the gap makes one write of
      both. */
  lemma SpliceIntoGap(buf: seq<byte>, at: nat, x: seq<byte>, y: seq<byte>)
    requires at + |x| + |y| <= |buf|
    ensures Splice(Splice(buf, at + |x|, y), at, x) == Splice(buf, at, x + y)
  {
    var once := Splice(buf, at + |x|, y);
    assert once[..at] == buf[..at];
    assert once[at + |x|..] == y + buf[at + |x| + |y|..];
  }

  /** A count that has wrapped around 16 bits is written as the full one. */
  lemma CountTruncation(n: nat)
    ensures EncodeCount(n % 65536) == EncodeCount(n)
  {
    assert (n % 65536) % 256 == n % 256;
    assert (n % 65536) / 256 == (n / 256) % 256;
  }
}
