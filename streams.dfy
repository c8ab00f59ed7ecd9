/** The span a codec works on and the three stream policies over it. A
    `Stream` is a `buffer_span` (the unconsumed bytes `buf[begin..end]`)
    with the policy of its `basic_stream`: raw streams leave overflow
    undefined, checked streams keep a sticky `error` flag and throwing
    streams raise an overflow exception, here returned as a value. */
module Streams {
  import opened Values
  import opened Codec
  import opened CodecProofs

  datatype Policy = Raw | Checked | Throwing

  /** `write_buffer_overflow` and `read_buffer_overflow`. */
  datatype Overflow = WriteOverflow | ReadOverflow

  /** The probe of an iterable as the source runs it: read the count from a
      copy of the span, then step over the elements one probe at a time. */
  method ProbeIterableLoop(s: Schema, bs: seq<byte>) returns (r: int)
    requires s.Iterable?
    ensures r == Probe(s, bs)
  {
    assert Probe(s, bs) == ProbeIterable(s, bs);
    if |bs| < CountWidth {
      return InvalidSize;
    }
    var count := DecodeCount(bs[0], bs[1]);
    var pos: nat := CountWidth;
    var i := 0;
    while i < count
      invariant 0 <= i <= count && CountWidth <= pos <= |bs|
      invariant ProbeMany(s, bs[CountWidth..], count)
                == (var m := ProbeMany(s, bs[pos..], count - i);
                    if m == InvalidSize then InvalidSize else pos - CountWidth + m)
    {
      var n := Probe(s.elem, bs[pos..]);
      if n == InvalidSize {
        return InvalidSize;
      }
      assert bs[pos..][n..] == bs[pos + n..];
      pos := pos + n;
      i := i + 1;
    }
    return pos;
  }

  /** Decodes `count` consecutive elements, one at a time, appending each
      to the container built so far. */
  method DecodeElements(s: Schema, bs: seq<byte>, count: nat) returns (r: Option<(seq<Value>, nat)>)
    requires s.Iterable?
    ensures r == DecodeMany(s, bs, count)
  {
    var elems: seq<Value> := [];
    var pos: nat := 0;
    var i := 0;
    var whole := DecodeMany(s, bs, count);
    assert whole.Some? ==> [] + whole.value.0 == whole.value.0;
    while i < count
      invariant 0 <= i <= count && pos <= |bs|
      invariant whole == Extend(elems, pos, DecodeMany(s, bs[pos..], count - i))
    {
      var x := Decode(s.elem, bs[pos..]);
      if x.None? {
        return None;
      }
      var (v, n) := x.value;
      ExtendStep(s, elems, pos, bs[pos..], count - i);
      assert bs[pos..][n..] == bs[pos + n..];
      elems := elems + [v];
      pos := pos + n;
      i := i + 1;
    }
    assert elems + [] == elems;
    return Some((elems, pos));
  }

  /** The decoding of an iterable as the source runs it: read the count,
      then the elements into a fresh container. `None` where the unchecked
      loop would read past the span. */
  method DecodeIterableLoop(s: Schema, bs: seq<byte>) returns (r: Option<(Value, nat)>)
    requires s.Iterable?
    ensures r == Decode(s, bs)
  {
    assert Decode(s, bs) == DecodeIterable(s, bs);
    if |bs| < CountWidth {
      return None;
    }
    var elems := DecodeElements(s, bs[CountWidth..], DecodeCount(bs[0], bs[1]));
    if elems.None? {
      return None;
    }
    return Some((Items(elems.value.0), CountWidth + elems.value.1));
  }

  class Stream {
    const policy: Policy
    const buf: array<byte>
    var begin: nat
    var end: nat
    /** Only meaningful for the checked policy. */
    var error: bool

    predicate Valid()
      reads this
    {
      begin <= end <= buf.Length
    }

    /** The unconsumed bytes of the span. */
    function Unconsumed(): seq<byte>
      reads this, buf
      requires Valid()
    {
      buf[begin..end]
    }

    /** `buffer_span::size()`. */
    function Remaining(): nat
      reads this
      requires Valid()
    {
      end - begin
    }

    /** The encoding of `v` was written at `at`, over `before`, and
        `begin` moved past it. */
    ghost predicate Written(at: nat, before: seq<byte>, s: Schema, v: Value)
      reads this, buf
      requires Conforms(s, v)
    {
      && at + Codec.Size(s, v) <= |before|
      && begin == at + Codec.Size(s, v)
      && buf[..] == Splice(before, at, Encode(s, v))
    }

    /** Neither `begin` nor the buffer moved. */
    ghost predicate Untouched(at: nat, before: seq<byte>)
      reads this, buf
    {
      begin == at && buf[..] == before
    }

    /** `v` is the decoded value and `begin` moved past its bytes. */
    ghost predicate Consumed(at: nat, decoded: Option<(Value, nat)>, v: Value)
      reads this
    {
      decoded.Some? && v == decoded.value.0 && begin == at + decoded.value.1
    }

    constructor (policy: Policy, buf: array<byte>)
      ensures this.policy == policy && this.buf == buf
      ensures begin == 0 && end == buf.Length && !error && Valid()
    {
      this.policy := policy;
      this.buf := buf;
      begin := 0;
      end := buf.Length;
      error := false;
    }

    /** `serialize(span, val)`: writes the encoding of `v` at `begin` and
        advances `begin` past it. Writing past `end` is undefined in the
        source, so it is excluded, and so is a count that does not fit in
        16 bits, which `NABU_ASSERT_SERIALIZED_COUNT` asserts away. */
    method Serialize(s: Schema, v: Value)
      requires Valid() && Conforms(s, v) && Fits(s, v) && Codec.Size(s, v) <= Remaining()
      modifies this, buf
      ensures Valid() && end == old(end) && error == old(error)
      ensures begin == old(begin) + Codec.Size(s, v)
      ensures buf[..] == Splice(old(buf[..]), old(begin), Encode(s, v))
    {
      CopyInto(buf, begin, Encode(s, v));
      begin := begin + Codec.Size(s, v);
    }

    /** `try_serialize(span, val)`: false, with nothing written, when the
        value size exceeds the span; otherwise `serialize`. */
    method TrySerialize(s: Schema, v: Value) returns (ok: bool)
      requires Valid() && Conforms(s, v) && Fits(s, v)
      modifies this, buf
      ensures Valid() && end == old(end) && error == old(error)
      ensures ok <==> Codec.Size(s, v) <= old(Remaining())
      ensures ok ==> begin == old(begin) + Codec.Size(s, v)
                     && buf[..] == Splice(old(buf[..]), old(begin), Encode(s, v))
      ensures !ok ==> begin == old(begin) && buf[..] == old(buf[..])
    {
      if Remaining() < Codec.Size(s, v) {
        return false;
      }
      Serialize(s, v);
      return true;
    }

    /** `throw_serialize(span, val)`: `try_serialize`, raising
        `write_buffer_overflow` on failure. */
    method ThrowSerialize(s: Schema, v: Value) returns (r: Outcome<Overflow>)
      requires Valid() && Conforms(s, v) && Fits(s, v)
      modifies this, buf
      ensures Valid() && end == old(end) && error == old(error)
      ensures r.Pass? <==> Codec.Size(s, v) <= old(Remaining())
      ensures r.Fail? ==> r.error == WriteOverflow && begin == old(begin) && buf[..] == old(buf[..])
      ensures r.Pass? ==> begin == old(begin) + Codec.Size(s, v)
                          && buf[..] == Splice(old(buf[..]), old(begin), Encode(s, v))
    {
      var ok := TrySerialize(s, v);
      r := if ok then Pass else Fail(WriteOverflow);
    }

    /** `deserialize(span, val)`: decodes the value at `begin` and advances
        past it. Reading past `end` is undefined in the source, so it is
        excluded. The result is built fresh. */
    method Deserialize(s: Schema) returns (v: Value)
      requires Valid() && Decode(s, Unconsumed()).Some?
      modifies this
      ensures Valid() && end == old(end) && error == old(error)
      ensures v == old(Decode(s, Unconsumed())).value.0
      ensures begin == old(begin) + old(Decode(s, Unconsumed())).value.1
    {
      var (x, n) := Decode(s, Unconsumed()).value;
      v := x;
      begin := begin + n;
    }

    /** `try_deserialize(span, val)`: probes first and, when the probe
        fails, returns false with `val` and `begin` untouched. */
    method TryDeserialize(s: Schema, prior: Value) returns (ok: bool, v: Value)
      requires Valid()
      modifies this
      ensures Valid() && end == old(end) && error == old(error)
      ensures ok <==> old(Probe(s, Unconsumed())) != InvalidSize
      ensures ok <==> old(Decode(s, Unconsumed())).Some?
      ensures ok ==> v == old(Decode(s, Unconsumed())).value.0
                     && begin == old(begin) + old(Probe(s, Unconsumed()))
                     && begin == old(begin) + old(Decode(s, Unconsumed())).value.1
      ensures !ok ==> v == prior && begin == old(begin)
    {
      ProbeAgreesWithDecode(s, Unconsumed());
      var size := Probe(s, Unconsumed());
      if size == InvalidSize {
        return false, prior;
      }
      v := Deserialize(s);
      ok := true;
    }

    /** `throw_deserialize(span, val)`: `try_deserialize`, raising
        `read_buffer_overflow` on failure. */
    method ThrowDeserialize(s: Schema) returns (r: Result<Value, Overflow>)
      requires Valid()
      modifies this
      ensures Valid() && end == old(end) && error == old(error)
      ensures r.Ok? <==> old(Decode(s, Unconsumed())).Some?
      ensures r.Ok? ==> r.value == old(Decode(s, Unconsumed())).value.0
                        && begin == old(begin) + old(Decode(s, Unconsumed())).value.1
      ensures r.Err? ==> r.error == ReadOverflow && begin == old(begin)
    {
      var ok, v := TryDeserialize(s, Empty);
      r := if ok then Ok(v) else Err(ReadOverflow);
    }

    /** `stream << val` under the stream's policy: raw serializes
        unchecked, checked does nothing once `error` is set and otherwise
        records a failed `try_serialize` in `error`, throwing raises. */
    method Write(s: Schema, v: Value) returns (r: Outcome<Overflow>)
      requires Valid() && Conforms(s, v) && Fits(s, v)
      requires policy == Raw ==> Codec.Size(s, v) <= Remaining()
      modifies this, buf
      ensures Valid() && end == old(end)
      ensures policy != Throwing ==> r == Pass
      ensures policy != Checked ==> error == old(error)
      ensures policy == Raw ==> Written(old(begin), old(buf[..]), s, v)
      ensures policy == Checked && old(error) ==> error && Untouched(old(begin), old(buf[..]))
      ensures policy == Checked && !old(error) ==>
                && (error <==> Codec.Size(s, v) > old(Remaining()))
                && (error ==> Untouched(old(begin), old(buf[..])))
                && (!error ==> Written(old(begin), old(buf[..]), s, v))
      ensures policy == Throwing ==>
                && (r.Pass? <==> Codec.Size(s, v) <= old(Remaining()))
                && (r.Pass? ==> Written(old(begin), old(buf[..]), s, v))
                && (r.Fail? ==> r.error == WriteOverflow && Untouched(old(begin), old(buf[..])))
    {
      match policy
      case Raw =>
        Serialize(s, v);
        r := Pass;
      case Checked =>
        r := Pass;
        if !error {
          var ok := TrySerialize(s, v);
          error := !ok;
        }
      case Throwing =>
        r := ThrowSerialize(s, v);
    }

    /** `stream >> val` under the stream's policy. `v` is the destination
        after the operator; `prior` its value before. */
    method Read(s: Schema, prior: Value) returns (v: Value, r: Outcome<Overflow>)
      requires Valid()
      requires policy == Raw ==> Decode(s, Unconsumed()).Some?
      modifies this
      ensures Valid() && end == old(end)
      ensures policy != Throwing ==> r == Pass
      ensures policy != Checked ==> error == old(error)
      ensures policy == Raw ==> Consumed(old(begin), old(Decode(s, Unconsumed())), v)
      ensures policy == Checked && old(error) ==> error && begin == old(begin) && v == prior
      ensures policy == Checked && !old(error) ==>
                && (error <==> old(Decode(s, Unconsumed())).None?)
                && (error ==> begin == old(begin) && v == prior)
                && (!error ==> Consumed(old(begin), old(Decode(s, Unconsumed())), v))
      ensures policy == Throwing ==>
                && (r.Pass? <==> old(Decode(s, Unconsumed())).Some?)
                && (r.Pass? ==> Consumed(old(begin), old(Decode(s, Unconsumed())), v))
                && (r.Fail? ==> r.error == ReadOverflow && begin == old(begin) && v == prior)
    {
      match policy
      case Raw =>
        v := Deserialize(s);
        r := Pass;
      case Checked =>
        r := Pass;
        v := prior;
        if !error {
          var ok;
          ok, v := TryDeserialize(s, prior);
          error := !ok;
        }
      case Throwing =>
        var res := ThrowDeserialize(s);
        if res.Ok? {
          v, r := res.value, Pass;
        } else {
          v, r := prior, Fail(ReadOverflow);
        }
    }
  }
}
