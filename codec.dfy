/** The stream codec: for every serializable C++ type (here a `Schema`),
    the value size, the probe that measures an encoded value from
    unconsumed bytes, the encoding and the decoding. The categories
    trivial, array, iterable and aggregate come from the generic
    implementation; tuple, optional and pair from the custom hooks. */
module Codec {
  import opened Values

  /** The serialization shape of a C++ type. `Tuple` also stands for an
      aggregate, which is serialized as the tuple of its fields. */
  datatype Schema =
    | Trivial(width: nat)
    | Array(elemWidth: nat)
    | Iterable(elem: Schema)
    | Tuple(fields: seq<Schema>)
    | Optional(inner: Schema)
    | Pair(first: Schema, second: Schema)

  /** The probe's answer when the span cannot hold the value. */
  const InvalidSize: int := -1

  /** `v` is a value of the type that `s` describes. */
  predicate Conforms(s: Schema, v: Value)
    decreases s
  {
    match s
    case Trivial(w) => v.Blob? && |v.bytes| == w
    case Array(w) => v.Items? && AllBlobs(v.elems, w)
    case Iterable(e) => v.Items? && forall i | 0 <= i < |v.elems| :: Conforms(e, v.elems[i])
    case Tuple(fs) =>
      v.Fields? && |v.fields| == |fs| && forall i | 0 <= i < |fs| :: Conforms(fs[i], v.fields[i])
    case Optional(e) => v.Empty? || (v.Present? && Conforms(e, v.inner))
    case Pair(a, b) => v.Both? && Conforms(a, v.first) && Conforms(b, v.second)
  }

  /** Every container count in `v` fits the 16-bit count, which the source
      only asserts in debug builds. */
  predicate Fits(s: Schema, v: Value)
    requires Conforms(s, v)
    decreases s
  {
    match s
    case Trivial(_) => true
    case Array(_) => |v.elems| <= MaxCount
    case Iterable(e) => |v.elems| <= MaxCount && forall i | 0 <= i < |v.elems| :: Fits(e, v.elems[i])
    case Tuple(fs) => forall i | 0 <= i < |fs| :: Fits(fs[i], v.fields[i])
    case Optional(e) => v.Present? ==> Fits(e, v.inner)
    case Pair(a, b) => Fits(a, v.first) && Fits(b, v.second)
  }

  /** `vals` are values of the fields of the tuple `s` from index `i` on. */
  predicate FieldsFrom(s: Schema, vals: seq<Value>, i: nat)
  {
    && s.Tuple? && i + |vals| == |s.fields|
    && forall j | 0 <= j < |vals| :: Conforms(s.fields[i + j], vals[j])
  }

  // ---------------------------------------------------------------------
  // Value size
  // ---------------------------------------------------------------------

  /** `serialized_size(val)`: the number of bytes the encoding of `v` takes.
      For an optional this is the corrected size, flag byte included. */
  function Size(s: Schema, v: Value): nat
    requires Conforms(s, v)
    decreases s, 1, 0
  {
    match s
    case Trivial(w) => w
    case Array(w) => CountWidth + |v.elems| * w
    case Iterable(_) => CountWidth + SizeAll(s, v.elems)
    case Tuple(_) => SizeFields(s, v.fields, 0)
    case Optional(e) => 1 + (if v.Present? then Size(e, v.inner) else 0)
    case Pair(a, b) => Size(a, v.first) + Size(b, v.second)
  }

  /** Sum of the sizes of the elements of an iterable. */
  function SizeAll(s: Schema, elems: seq<Value>): nat
    requires s.Iterable?
    requires forall j | 0 <= j < |elems| :: Conforms(s.elem, elems[j])
    decreases s, 0, |elems|
  {
    if elems == [] then 0 else Size(s.elem, elems[0]) + SizeAll(s, elems[1..])
  }

  /** Sum of the sizes of `vals`, the values of the fields of a tuple from
      index `i` on. */
  function SizeFields(s: Schema, vals: seq<Value>, i: nat): nat
    requires FieldsFrom(s, vals, i)
    decreases s, 0, |vals|
  {
    if vals == [] then 0 else Size(s.fields[i], vals[0]) + SizeFields(s, vals[1..], i + 1)
  }

  /** The optional value-size hook as written: `sizeof(bool) + opt ? ... : 0`
      groups as `(sizeof(bool) + opt) ? serialized_size(*opt) : 0`. Since an
      optional converts to `bool` only explicitly, that sum is ill-formed and
      the hook does not compile once instantiated; read with the grouping it
      has and the conversion it asks for, the condition is never zero and
      the flag byte is left out, which is what this function gives. Only the
      filled case is modelled: on an empty optional that reading
      dereferences it. */
  function OptionalSizeAsWritten(e: Schema, v: Value): nat
    requires Conforms(Optional(e), v) && v.Present?
  {
    Size(e, v.inner)
  }

  // ---------------------------------------------------------------------
  // Encoding
  // ---------------------------------------------------------------------

  /** `serialize(span, val)`: the bytes written for `v`, a count as its low
      16 bits. The stream writers only take values that `Fits`, where the
      count is exact; the legacy codec, which truncates the count but still
      writes every element, uses this encoding for any size. */
  function Encode(s: Schema, v: Value): (r: seq<byte>)
    requires Conforms(s, v)
    decreases s, 1, 0
    ensures |r| == Size(s, v)
  {
    match s
    case Trivial(_) => v.bytes
    case Array(w) =>
      FlattenLength(v.elems, w);
      EncodeCount(|v.elems|) + Flatten(v.elems)
    case Iterable(_) => EncodeCount(|v.elems|) + EncodeAll(s, v.elems)
    case Tuple(_) => EncodeFields(s, v.fields, 0)
    case Optional(e) => if v.Present? then [1 as byte] + Encode(e, v.inner) else [0 as byte]
    case Pair(a, b) => Encode(a, v.first) + Encode(b, v.second)
  }

  function EncodeAll(s: Schema, elems: seq<Value>): (r: seq<byte>)
    requires s.Iterable?
    requires forall j | 0 <= j < |elems| :: Conforms(s.elem, elems[j])
    decreases s, 0, |elems|
    ensures |r| == SizeAll(s, elems)
  {
    if elems == [] then [] else Encode(s.elem, elems[0]) + EncodeAll(s, elems[1..])
  }

  function EncodeFields(s: Schema, vals: seq<Value>, i: nat): (r: seq<byte>)
    requires FieldsFrom(s, vals, i)
    decreases s, 0, |vals|
    ensures |r| == SizeFields(s, vals, i)
  {
    if vals == [] then [] else Encode(s.fields[i], vals[0]) + EncodeFields(s, vals[1..], i + 1)
  }

  // ---------------------------------------------------------------------
  // Probe
  // ---------------------------------------------------------------------

  /** `serialized_size(span, type_tag<T>)`: the size of the value at the
      front of the unconsumed bytes `bs`, or `InvalidSize` when `bs` cannot
      hold it. It reads copies of the span only. */
  function Probe(s: Schema, bs: seq<byte>): (r: int)
    decreases s, 2, 0
    ensures r == InvalidSize || 0 <= r <= |bs|
  {
    match s
    case Trivial(w) => if |bs| >= w then w else InvalidSize
    case Array(w) => ProbeArray(w, bs)
    case Iterable(_) => ProbeIterable(s, bs)
    case Tuple(_) => ProbeFields(s, bs, 0)
    case Optional(_) => ProbeOptional(s, bs)
    case Pair(_, _) => ProbePair(s, bs)
  }

  /** An array probes valid when the span holds its count and `count`
      elements of the element width. */
  function ProbeArray(w: nat, bs: seq<byte>): (r: int)
    ensures r == InvalidSize || 0 <= r <= |bs|
  {
    if |bs| < CountWidth then InvalidSize
    else
      var size := CountWidth + DecodeCount(bs[0], bs[1]) * w;
      if |bs| >= size then size else InvalidSize
  }

  /** An iterable probes its count, then each of its elements in turn. */
  function ProbeIterable(s: Schema, bs: seq<byte>): (r: int)
    requires s.Iterable?
    decreases s, 1, 0
    ensures r == InvalidSize || 0 <= r <= |bs|
  {
    if |bs| < CountWidth then InvalidSize
    else
      var n := ProbeMany(s, bs[CountWidth..], DecodeCount(bs[0], bs[1]));
      if n == InvalidSize then InvalidSize else CountWidth + n
  }

  /** An optional probes its flag byte, then the contained value if the
      flag is set. */
  function ProbeOptional(s: Schema, bs: seq<byte>): (r: int)
    requires s.Optional?
    decreases s, 1, 0
    ensures r == InvalidSize || 0 <= r <= |bs|
  {
    if |bs| < 1 then InvalidSize
    else if bs[0] == 0 then 1
    else
      var n := Probe(s.inner, bs[1..]);
      if n == InvalidSize then InvalidSize else 1 + n
  }

  /** A pair probes its first member, then its second after it. */
  function ProbePair(s: Schema, bs: seq<byte>): (r: int)
    requires s.Pair?
    decreases s, 1, 0
    ensures r == InvalidSize || 0 <= r <= |bs|
  {
    var n1 := Probe(s.first, bs);
    if n1 == InvalidSize then InvalidSize
    else
      var n2 := Probe(s.second, bs[n1..]);
      if n2 == InvalidSize then InvalidSize else n1 + n2
  }

  /** Probes `k` consecutive elements of an iterable; `InvalidSize` as soon
      as one of them does not fit. */
  function ProbeMany(s: Schema, bs: seq<byte>, k: nat): (r: int)
    requires s.Iterable?
    decreases s, 0, k
    ensures r == InvalidSize || 0 <= r <= |bs|
  {
    if k == 0 then 0
    else
      var n := Probe(s.elem, bs);
      if n == InvalidSize then InvalidSize
      else
        var m := ProbeMany(s, bs[n..], k - 1);
        if m == InvalidSize then InvalidSize else n + m
  }

  /** Probes the fields of a tuple from index `i` on. */
  function ProbeFields(s: Schema, bs: seq<byte>, i: nat): (r: int)
    requires s.Tuple? && i <= |s.fields|
    decreases s, 0, |s.fields| - i
    ensures r == InvalidSize || 0 <= r <= |bs|
  {
    if i == |s.fields| then 0
    else
      var n := Probe(s.fields[i], bs);
      if n == InvalidSize then InvalidSize
      else
        var m := ProbeFields(s, bs[n..], i + 1);
        if m == InvalidSize then InvalidSize else n + m
  }

  // ---------------------------------------------------------------------
  // Decoding
  // ---------------------------------------------------------------------

  /** `deserialize(span, val)`: the value at the front of `bs` and the
      number of bytes it takes, or `None` where the unchecked decoder would
      read past the span. Containers are built fresh, so nothing of the
      destination's prior contents survives. */
  function Decode(s: Schema, bs: seq<byte>): (r: Option<(Value, nat)>)
    decreases s, 2, 0
    ensures r.Some? ==> r.value.1 <= |bs|
  {
    match s
    case Trivial(w) => if |bs| >= w then Some((Blob(bs[..w]), w)) else None
    case Array(w) => DecodeArray(w, bs)
    case Iterable(_) => DecodeIterable(s, bs)
    case Tuple(_) => DecodeTuple(s, bs)
    case Optional(_) => DecodeOptional(s, bs)
    case Pair(_, _) => DecodePair(s, bs)
  }

  /** An array: the count, then that many blobs of the element width. */
  function DecodeArray(w: nat, bs: seq<byte>): (r: Option<(Value, nat)>)
    ensures r.Some? ==> r.value.1 <= |bs|
  {
    if |bs| < CountWidth then None
    else
      var count := DecodeCount(bs[0], bs[1]);
      if |bs| >= CountWidth + count * w
      then Some((Items(Chunks(bs[CountWidth..], w, count)), CountWidth + count * w))
      else None
  }

  /** An iterable: the count, then that many elements, kept in wire order
      as a sequence container that appends each one would hold them. */
  function DecodeIterable(s: Schema, bs: seq<byte>): (r: Option<(Value, nat)>)
    requires s.Iterable?
    decreases s, 1, 0
    ensures r.Some? ==> r.value.1 <= |bs|
  {
    if |bs| < CountWidth then None
    else
      match DecodeMany(s, bs[CountWidth..], DecodeCount(bs[0], bs[1]))
      case None => None
      case Some((elems, n)) => Some((Items(elems), CountWidth + n))
  }

  /** A tuple or aggregate: its fields in order. */
  function DecodeTuple(s: Schema, bs: seq<byte>): (r: Option<(Value, nat)>)
    requires s.Tuple?
    decreases s, 1, 0
    ensures r.Some? ==> r.value.1 <= |bs|
  {
    match DecodeFields(s, bs, 0)
    case None => None
    case Some((vals, n)) => Some((Fields(vals), n))
  }

  /** An optional: the flag byte, then the contained value if it is set. */
  function DecodeOptional(s: Schema, bs: seq<byte>): (r: Option<(Value, nat)>)
    requires s.Optional?
    decreases s, 1, 0
    ensures r.Some? ==> r.value.1 <= |bs|
  {
    if |bs| < 1 then None
    else if bs[0] == 0 then Some((Empty, 1))
    else
      match Decode(s.inner, bs[1..])
      case None => None
      case Some((x, n)) => Some((Present(x), 1 + n))
  }

  /** A pair: the first member, then the second after it. */
  function DecodePair(s: Schema, bs: seq<byte>): (r: Option<(Value, nat)>)
    requires s.Pair?
    decreases s, 1, 0
    ensures r.Some? ==> r.value.1 <= |bs|
  {
    match Decode(s.first, bs)
    case None => None
    case Some((x, n1)) =>
      match Decode(s.second, bs[n1..])
      case None => None
      case Some((y, n2)) => Some((Both(x, y), n1 + n2))
  }

  /** Decodes `k` consecutive elements of an iterable. */
  function DecodeMany(s: Schema, bs: seq<byte>, k: nat): (r: Option<(seq<Value>, nat)>)
    requires s.Iterable?
    decreases s, 0, k
    ensures r.Some? ==> |r.value.0| == k && r.value.1 <= |bs|
  {
    if k == 0 then Some(([], 0))
    else
      match Decode(s.elem, bs)
      case None => None
      case Some((x, n)) =>
        (match DecodeMany(s, bs[n..], k - 1)
         case None => None
         case Some((xs, m)) => Some(([x] + xs, n + m)))
  }

  /** Decodes the fields of a tuple from index `i` on. */
  function DecodeFields(s: Schema, bs: seq<byte>, i: nat): (r: Option<(seq<Value>, nat)>)
    requires s.Tuple? && i <= |s.fields|
    decreases s, 0, |s.fields| - i
    ensures r.Some? ==> i + |r.value.0| == |s.fields| && r.value.1 <= |bs|
  {
    if i == |s.fields| then Some(([], 0))
    else
      match Decode(s.fields[i], bs)
      case None => None
      case Some((x, n)) =>
        (match DecodeFields(s, bs[n..], i + 1)
         case None => None
         case Some((xs, m)) => Some(([x] + xs, n + m)))
  }
}
