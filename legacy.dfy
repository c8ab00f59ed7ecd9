/** The earlier pointer-based codec: `serialize(val, dst)` and
    `deserialize(val, src)` walk a raw pointer and return the number of
    bytes they wrote or read. Its categories are trivial, continuous
    trivial (a contiguous container of trivially copyable elements),
    iterable and aggregate; they are `Codec.Schema`'s `Trivial`, `Array`,
    `Iterable` and `Tuple`, and the bytes are the same. */
module LegacyCodec {
  import opened Values
  import opened Codec
  import opened CodecProofs

  /** The shapes the legacy codec handles: no optional and no pair, which
      only the stream codec's custom hooks know. */
  predicate Legacy(s: Schema)
    decreases s
  {
    match s
    case Trivial(_) => true
    case Array(_) => true
    case Iterable(e) => Legacy(e)
    case Tuple(fs) => forall i | 0 <= i < |fs| :: Legacy(fs[i])
    case Optional(_) => false
    case Pair(_, _) => false
  }

  /** `serialize(val, dst)`: writes `v` at `dst + at` and returns the
      number of bytes written, which is `serialized_size(val)`. */
  method Serialize(s: Schema, v: Value, dst: array<byte>, at: nat) returns (n: nat)
    requires Legacy(s) && Conforms(s, v) && at + Size(s, v) <= dst.Length
    modifies dst
    ensures n == Size(s, v)
    ensures dst[..] == Splice(old(dst[..]), at, Encode(s, v))
    decreases s, 3
  {
    match s
    case Trivial(_) =>
      CopyInto(dst, at, v.bytes);
      n := |v.bytes|;
    case Array(w) =>
      n := SerializeContinuous(w, v, dst, at);
    case Iterable(_) =>
      n := SerializeIterable(s, v, dst, at);
    case Tuple(_) =>
      n := SerializeAggregate(s, v, dst, at);
  }

  /** Continuous trivial: the count, truncated to 16 bits, then one copy of
      all the elements. */
  method SerializeContinuous(w: nat, v: Value, dst: array<byte>, at: nat) returns (n: nat)
    requires Conforms(Array(w), v) && at + Size(Array(w), v) <= dst.Length
    modifies dst
    ensures n == Size(Array(w), v)
    ensures dst[..] == Splice(old(dst[..]), at, Encode(Array(w), v))
  {
    var nb := |v.elems| % 65536;
    CountTruncation(|v.elems|);
    FlattenLength(v.elems, w);
    CopyInto(dst, at, EncodeCount(nb));
    CopyInto(dst, at + CountWidth, Flatten(v.elems));
    SpliceTwice(old(dst[..]), at, EncodeCount(nb), Flatten(v.elems));
    n := Size(Array(w), v);
  }

  /** Iterable: skips the count slot, writes the elements while counting
      them, then writes the count into the slot. */
  method SerializeIterable(s: Schema, v: Value, dst: array<byte>, at: nat) returns (n: nat)
    requires s.Iterable? && Legacy(s) && Conforms(s, v) && at + Size(s, v) <= dst.Length
    modifies dst
    ensures n == Size(s, v)
    ensures dst[..] == Splice(old(dst[..]), at, Encode(s, v))
    decreases s, 2
  {
    var k, nb := SerializeElements(s, v.elems, dst, at + CountWidth);
    WrappedIsMod(|v.elems|);
    CountTruncation(|v.elems|);
    CopyInto(dst, at, EncodeCount(nb));
    SpliceIntoGap(old(dst[..]), at, EncodeCount(nb), EncodeAll(s, v.elems));
    n := CountWidth + k;
  }

  /** The element loop of the iterable case: each element is written after
      the previous one and counted in a 16-bit counter, which wraps. */
  method SerializeElements(s: Schema, elems: seq<Value>, dst: array<byte>, at: nat) returns (n: nat, nb: nat)
    requires s.Iterable? && Legacy(s.elem)
    requires forall j | 0 <= j < |elems| :: Conforms(s.elem, elems[j])
    requires at + SizeAll(s, elems) <= dst.Length
    modifies dst
    ensures n == SizeAll(s, elems) && nb == Wrapped(|elems|)
    ensures dst[..] == Splice(old(dst[..]), at, EncodeAll(s, elems))
    decreases s, 1
  {
    var pos := at;
    var rest := elems;
    nb := 0;
    ghost var written: seq<byte> := [];
    ghost var whole := EncodeAll(s, elems);
    assert Splice(old(dst[..]), at, []) == old(dst[..]);
    while rest != []
      invariant forall j | 0 <= j < |rest| :: Conforms(s.elem, rest[j])
      invariant pos == at + |written|
      invariant whole == written + EncodeAll(s, rest)
      invariant at + |whole| <= dst.Length
      invariant nb == Wrapped(|elems| - |rest|)
      invariant dst[..] == Splice(old(dst[..]), at, written)
      decreases |rest|
    {
      ghost var e := Encode(s.elem, rest[0]);
      ElementsStep(s, rest, written, whole);
      var k := SerializeAfter(s.elem, rest[0], dst, at, pos, written, old(dst[..]));
      written := written + e;
      pos := pos + k;
      nb := if nb == MaxCount then 0 else nb + 1;
      WrappedStep(|elems| - |rest|);
      rest := rest[1..];
    }
    n := pos - at;
  }

  /** One turn of the element or field loop: `v` is written where the bytes
      written so far end. */
  method SerializeAfter(s: Schema, v: Value, dst: array<byte>, at: nat, pos: nat,
                        ghost written: seq<byte>, ghost orig: seq<byte>)
    returns (k: nat)
    requires Legacy(s) && Conforms(s, v)
    requires pos == at + |written| && pos + Size(s, v) <= dst.Length == |orig|
    requires dst[..] == Splice(orig, at, written)
    modifies dst
    ensures k == Size(s, v)
    ensures dst[..] == Splice(orig, at, written + Encode(s, v))
    decreases s, 4
  {
    k := Serialize(s, v, dst, pos);
    SpliceTwice(orig, at, written, Encode(s, v));
  }

  /** One element of the iterable loop: its bytes come next, then those of
      the rest. */
  lemma ElementsStep(s: Schema, rest: seq<Value>, written: seq<byte>, whole: seq<byte>)
    requires s.Iterable? && rest != []
    requires forall j | 0 <= j < |rest| :: Conforms(s.elem, rest[j])
    requires whole == written + EncodeAll(s, rest)
    ensures forall j | 0 <= j < |rest| - 1 :: Conforms(s.elem, rest[1..][j])
    ensures whole == (written + Encode(s.elem, rest[0])) + EncodeAll(s, rest[1..])
    ensures |written| + Size(s.elem, rest[0]) <= |whole|
  {
  }

  /** One field of the aggregate loop: its bytes come next, then those of
      the fields after it. */
  lemma FieldsStep(s: Schema, vals: seq<Value>, i: nat, written: seq<byte>, whole: seq<byte>)
    requires i < |vals| && FieldsFrom(s, vals[i..], i)
    requires whole == written + EncodeFields(s, vals[i..], i)
    ensures Conforms(s.fields[i], vals[i]) && FieldsFrom(s, vals[i + 1..], i + 1)
    ensures whole == (written + Encode(s.fields[i], vals[i])) + EncodeFields(s, vals[i + 1..], i + 1)
    ensures |written| + Size(s.fields[i], vals[i]) <= |whole|
  {
    assert vals[i..][0] == vals[i];
    assert vals[i..][1..] == vals[i + 1..];
  }

  /** The value of a `uint16_t` counter incremented `c` times from zero. */
  function Wrapped(c: nat): (r: nat)
    ensures r <= MaxCount
  {
    if c == 0 then 0
    else if Wrapped(c - 1) == MaxCount then 0
    else Wrapped(c - 1) + 1
  }

  lemma WrappedStep(c: nat)
    ensures Wrapped(c + 1) == if Wrapped(c) == MaxCount then 0 else Wrapped(c) + 1
  {
  }

  /** The counter holds the count modulo 2^16. */
  lemma {:induction false} WrappedIsMod(c: nat)
    ensures Wrapped(c) == c % 65536
  {
    if c > 0 {
      WrappedIsMod(c - 1);
      var q := (c - 1) / 65536;
      assert c - 1 == q * 65536 + Wrapped(c - 1);
      if Wrapped(c - 1) == MaxCount {
        assert c == (q + 1) * 65536;
      } else {
        assert c == q * 65536 + Wrapped(c);
      }
    }
  }

  /** Aggregate: the fields one after the other. */
  method SerializeAggregate(s: Schema, v: Value, dst: array<byte>, at: nat) returns (n: nat)
    requires s.Tuple? && Legacy(s) && Conforms(s, v) && at + Size(s, v) <= dst.Length
    modifies dst
    ensures n == Size(s, v)
    ensures dst[..] == Splice(old(dst[..]), at, Encode(s, v))
    decreases s, 2
  {
    var vals := v.fields;
    var pos := at;
    ghost var written: seq<byte> := [];
    ghost var whole := EncodeFields(s, vals, 0);
    assert vals[0..] == vals;
    assert Splice(old(dst[..]), at, []) == old(dst[..]);
    for i := 0 to |vals|
      invariant pos == at + |written|
      invariant FieldsFrom(s, vals[i..], i)
      invariant whole == written + EncodeFields(s, vals[i..], i)
      invariant at + |whole| <= dst.Length
      invariant dst[..] == Splice(old(dst[..]), at, written)
    {
      FieldsStep(s, vals, i, written, whole);
      var k := SerializeAfter(s.fields[i], vals[i], dst, at, pos, written, old(dst[..]));
      written := written + Encode(s.fields[i], vals[i]);
      pos := pos + k;
    }
    assert vals[|vals|..] == [];
    n := pos - at;
  }

  /** `deserialize(val, src)`: reads a value of shape `s` from the bytes at
      `src` and returns the number of bytes read. Nothing is checked: the
      caller must supply a whole encoding. */
  method Deserialize(s: Schema, src: seq<byte>) returns (v: Value, n: nat)
    requires Legacy(s) && Decode(s, src).Some?
    ensures (v, n) == Decode(s, src).value
    decreases s, 3
  {
    match s
    case Trivial(w) =>
      v, n := Blob(src[..w]), w;
    case Array(w) =>
      v, n := DeserializeContinuous(w, src);
    case Iterable(_) =>
      assert Decode(s, src) == DecodeIterable(s, src);
      v, n := DeserializeIterable(s, src);
    case Tuple(_) =>
      assert Decode(s, src) == DecodeTuple(s, src);
      v, n := DeserializeAggregate(s, src);
  }

  /** Continuous trivial: the count, then the elements assigned in one go;
      the result is the serialized size of what was assigned. */
  method DeserializeContinuous(w: nat, src: seq<byte>) returns (v: Value, n: nat)
    requires DecodeArray(w, src).Some?
    ensures (v, n) == DecodeArray(w, src).value
  {
    var nb := DecodeCount(src[0], src[1]);
    v := Items(Chunks(src[CountWidth..], w, nb));
    n := CountWidth + |v.elems| * w;
  }

  /** Iterable: the count, then that many elements, each inserted at the
      end of the cleared container, modelled as a sequence container that
      keeps every element in wire order. */
  method DeserializeIterable(s: Schema, src: seq<byte>) returns (v: Value, n: nat)
    requires s.Iterable? && Legacy(s) && DecodeIterable(s, src).Some?
    ensures (v, n) == DecodeIterable(s, src).value
    decreases s, 2
  {
    var nb := DecodeCount(src[0], src[1]);
    var elems: seq<Value> := [];
    var pos: nat := CountWidth;
    ghost var whole := DecodeMany(s, src[CountWidth..], nb);
    assert [] + whole.value.0 == whole.value.0;
    for i := 0 to nb
      invariant CountWidth <= pos <= |src|
      invariant whole == Extend(elems, pos - CountWidth, DecodeMany(s, src[pos..], nb - i))
    {
      var x, k := DeserializeElement(s, src, pos, nb - i, elems, whole);
      elems := elems + [x];
      pos := pos + k;
    }
    assert elems + [] == elems;
    v, n := Items(elems), pos;
  }

  /** Aggregate: the fields in order, each read where the previous one
      ended. */
  method DeserializeAggregate(s: Schema, src: seq<byte>) returns (v: Value, n: nat)
    requires s.Tuple? && Legacy(s) && DecodeTuple(s, src).Some?
    ensures (v, n) == DecodeTuple(s, src).value
    decreases s, 2
  {
    var vals: seq<Value> := [];
    var pos: nat := 0;
    ghost var whole := DecodeFields(s, src, 0);
    assert [] + whole.value.0 == whole.value.0;
    for i := 0 to |s.fields|
      invariant pos <= |src|
      invariant whole == Extend(vals, pos, DecodeFields(s, src[pos..], i))
    {
      var x, k := DeserializeField(s, src, pos, i, vals, whole);
      vals := vals + [x];
      pos := pos + k;
    }
    assert vals + [] == vals;
    v, n := Fields(vals), pos;
  }

  /** While the remaining elements decode, so does the next one. */
  lemma NextDecodes(s: Schema, done: seq<Value>, used: nat, bs: seq<byte>, k: nat)
    requires s.Iterable? && k > 0 && Extend(done, used, DecodeMany(s, bs, k)).Some?
    ensures Decode(s.elem, bs).Some?
  {
  }

  /** While the remaining fields decode, so does the next one. */
  lemma NextFieldDecodes(s: Schema, done: seq<Value>, used: nat, bs: seq<byte>, i: nat)
    requires s.Tuple? && i < |s.fields| && Extend(done, used, DecodeFields(s, bs, i)).Some?
    ensures Decode(s.fields[i], bs).Some?
  {
  }

  /** After the next element is read at `pos`, the decoding still to do
      starts where it ended. */
  lemma ElementAdvance(s: Schema, whole: Option<(seq<Value>, nat)>, done: seq<Value>, pos: nat,
                       src: seq<byte>, k: nat)
    requires s.Iterable? && k > 0 && CountWidth <= pos <= |src|
    requires whole == Extend(done, pos - CountWidth, DecodeMany(s, src[pos..], k))
    requires Decode(s.elem, src[pos..]).Some?
    ensures var (x, n) := Decode(s.elem, src[pos..]).value;
      pos + n <= |src| && whole == Extend(done + [x], pos + n - CountWidth, DecodeMany(s, src[pos + n..], k - 1))
  {
    var (x, n) := Decode(s.elem, src[pos..]).value;
    ExtendStep(s, done, pos - CountWidth, src[pos..], k);
    assert src[pos..][n..] == src[pos + n..];
  }

  /** After the next field is read at `pos`, the decoding still to do starts
      where it ended. */
  lemma FieldAdvance(s: Schema, whole: Option<(seq<Value>, nat)>, done: seq<Value>, pos: nat,
                     src: seq<byte>, i: nat)
    requires s.Tuple? && i < |s.fields| && pos <= |src|
    requires whole == Extend(done, pos, DecodeFields(s, src[pos..], i))
    requires Decode(s.fields[i], src[pos..]).Some?
    ensures var (x, n) := Decode(s.fields[i], src[pos..]).value;
      pos + n <= |src| && whole == Extend(done + [x], pos + n, DecodeFields(s, src[pos + n..], i + 1))
  {
    var (x, n) := Decode(s.fields[i], src[pos..]).value;
    ExtendFieldsStep(s, done, pos, src[pos..], i);
    assert src[pos..][n..] == src[pos + n..];
  }

  /** One turn of the element loop: reads the next element at `pos`. */
  method DeserializeElement(s: Schema, src: seq<byte>, pos: nat, k: nat,
                            ghost done: seq<Value>, ghost whole: Option<(seq<Value>, nat)>)
    returns (x: Value, n: nat)
    requires s.Iterable? && Legacy(s) && k > 0 && CountWidth <= pos <= |src|
    requires whole.Some? && whole == Extend(done, pos - CountWidth, DecodeMany(s, src[pos..], k))
    ensures pos + n <= |src|
    ensures whole == Extend(done + [x], pos + n - CountWidth, DecodeMany(s, src[pos + n..], k - 1))
    decreases s, 1
  {
    NextDecodes(s, done, pos - CountWidth, src[pos..], k);
    x, n := Deserialize(s.elem, src[pos..]);
    ElementAdvance(s, whole, done, pos, src, k);
  }

  /** One turn of the field loop: reads field `i` at `pos`. */
  method DeserializeField(s: Schema, src: seq<byte>, pos: nat, i: nat,
                          ghost done: seq<Value>, ghost whole: Option<(seq<Value>, nat)>)
    returns (x: Value, n: nat)
    requires s.Tuple? && Legacy(s) && i < |s.fields| && pos <= |src|
    requires whole.Some? && whole == Extend(done, pos, DecodeFields(s, src[pos..], i))
    ensures pos + n <= |src|
    ensures whole == Extend(done + [x], pos + n, DecodeFields(s, src[pos + n..], i + 1))
    decreases s, 1
  {
    NextFieldDecodes(s, done, pos, src[pos..], i);
    x, n := Deserialize(s.fields[i], src[pos..]);
    FieldAdvance(s, whole, done, pos, src, i);
  }
}
