/** What the codec promises: decoding the bytes of an encoding gives the
    value back and consumes exactly its size, and the probe agrees with the
    decoder, so it reports the value size on an encoding. */
module CodecProofs {
  import opened Values
  import opened Codec

  /** Decoding the encoding of `v`, followed by anything, yields `v` and
      consumes `Size(s, v)` bytes. */
  lemma {:induction false} RoundTrip(s: Schema, v: Value, rest: seq<byte>)
    requires Conforms(s, v) && Fits(s, v)
    ensures Decode(s, Encode(s, v) + rest) == Some((v, Size(s, v)))
    decreases s, 1, 0
  {
    match s
    case Trivial(w) =>
      assert (Encode(s, v) + rest)[..w] == v.bytes;
    case Array(w) =>
      RoundTripArray(s, v, rest);
    case Iterable(e) =>
      RoundTripAll(s, v.elems, rest);
      RoundTripIterable(s, v, rest);
    case Tuple(fs) =>
      RoundTripFields(s, v.fields, 0, rest);
    case Optional(e) =>
      if v.Present? {
        RoundTrip(e, v.inner, rest);
      }
      RoundTripOptional(s, v, rest);
    case Pair(a, b) =>
      var tail := Encode(b, v.second) + rest;
      RoundTrip(a, v.first, tail);
      RoundTrip(b, v.second, rest);
      RoundTripPair(s, v, rest);
  }

  lemma RoundTripArray(s: Schema, v: Value, rest: seq<byte>)
    requires s.Array? && Conforms(s, v) && Fits(s, v)
    ensures Decode(s, Encode(s, v) + rest) == Some((v, Size(s, v)))
  {
    var bs := Encode(s, v) + rest;
    var c := |v.elems|;
    CountRoundTrip(c);
    assert bs[0] == EncodeCount(c)[0] && bs[1] == EncodeCount(c)[1];
    assert bs[CountWidth..] == Flatten(v.elems) + rest;
    ChunksOfFlatten(v.elems, s.elemWidth, rest);
    FlattenLength(v.elems, s.elemWidth);
    assert Decode(s, bs) == DecodeArray(s.elemWidth, bs);
  }

  lemma RoundTripIterable(s: Schema, v: Value, rest: seq<byte>)
    requires s.Iterable? && Conforms(s, v) && Fits(s, v)
    requires DecodeMany(s, EncodeAll(s, v.elems) + rest, |v.elems|) == Some((v.elems, SizeAll(s, v.elems)))
    ensures Decode(s, Encode(s, v) + rest) == Some((v, Size(s, v)))
  {
    var c, body := |v.elems|, EncodeAll(s, v.elems);
    assert Encode(s, v) + rest == EncodeCount(c) + (body + rest);
    CountedDecode(s, c, body + rest, v.elems, SizeAll(s, v.elems));
    assert Decode(s, Encode(s, v) + rest) == DecodeIterable(s, Encode(s, v) + rest);
  }

  /** A count that fits 16 bits, then elements that decode: the
      iterable decoder reads them all. */
  lemma CountedDecode(s: Schema, c: nat, tail: seq<byte>, elems: seq<Value>, m: nat)
    requires s.Iterable? && c <= MaxCount
    requires DecodeMany(s, tail, c) == Some((elems, m))
    ensures DecodeIterable(s, EncodeCount(c) + tail) == Some((Items(elems), CountWidth + m))
  {
    var bs := EncodeCount(c) + tail;
    CountRoundTrip(c);
    assert bs[0] == EncodeCount(c)[0] && bs[1] == EncodeCount(c)[1];
    assert bs[CountWidth..] == tail;
  }

  lemma RoundTripOptional(s: Schema, v: Value, rest: seq<byte>)
    requires s.Optional? && Conforms(s, v) && Fits(s, v)
    requires v.Present? ==> Decode(s.inner, Encode(s.inner, v.inner) + rest) == Some((v.inner, Size(s.inner, v.inner)))
    ensures Decode(s, Encode(s, v) + rest) == Some((v, Size(s, v)))
  {
    var bs := Encode(s, v) + rest;
    if v.Present? {
      assert bs == [1 as byte] + (Encode(s.inner, v.inner) + rest);
      assert bs[1..] == Encode(s.inner, v.inner) + rest;
    } else {
      assert bs == [0 as byte] + rest;
    }
    assert Decode(s, bs) == DecodeOptional(s, bs);
  }

  lemma RoundTripPair(s: Schema, v: Value, rest: seq<byte>)
    requires s.Pair? && Conforms(s, v) && Fits(s, v)
    requires Decode(s.first, Encode(s.first, v.first) + (Encode(s.second, v.second) + rest))
             == Some((v.first, Size(s.first, v.first)))
    requires Decode(s.second, Encode(s.second, v.second) + rest) == Some((v.second, Size(s.second, v.second)))
    ensures Decode(s, Encode(s, v) + rest) == Some((v, Size(s, v)))
  {
    var ea, eb := Encode(s.first, v.first), Encode(s.second, v.second);
    var tail := eb + rest;
    var bs := Encode(s, v) + rest;
    assert Encode(s, v) == ea + eb;
    assert bs == ea + tail;
    assert bs[|ea|..] == tail;
    assert v == Both(v.first, v.second);
    assert Decode(s, bs) == DecodePair(s, bs);
  }

  lemma {:induction false} RoundTripAll(s: Schema, elems: seq<Value>, rest: seq<byte>)
    requires s.Iterable?
    requires forall j | 0 <= j < |elems| :: Conforms(s.elem, elems[j]) && Fits(s.elem, elems[j])
    ensures DecodeMany(s, EncodeAll(s, elems) + rest, |elems|) == Some((elems, SizeAll(s, elems)))
    decreases s, 0, |elems|
  {
    if elems != [] {
      var tail := EncodeAll(s, elems[1..]) + rest;
      var bs := EncodeAll(s, elems) + rest;
      assert bs == Encode(s.elem, elems[0]) + tail;
      RoundTrip(s.elem, elems[0], tail);
      assert bs[Size(s.elem, elems[0])..] == tail;
      RoundTripAll(s, elems[1..], rest);
      assert [elems[0]] + elems[1..] == elems;
    }
  }

  lemma {:induction false} RoundTripFields(s: Schema, vals: seq<Value>, i: nat, rest: seq<byte>)
    requires FieldsFrom(s, vals, i)
    requires forall j | 0 <= j < |vals| :: Fits(s.fields[i + j], vals[j])
    ensures DecodeFields(s, EncodeFields(s, vals, i) + rest, i) == Some((vals, SizeFields(s, vals, i)))
    decreases s, 0, |vals|
  {
    if vals != [] {
      var head := Encode(s.fields[i], vals[0]);
      var tail := EncodeFields(s, vals[1..], i + 1) + rest;
      RoundTrip(s.fields[i], vals[0], tail);
      FieldsTail(s, vals, i);
      RoundTripFields(s, vals[1..], i + 1, rest);
      DecodeFieldsStep(s, vals, i, rest);
    }
  }

  /** One step of `RoundTripFields`: the first field, then the others. */
  lemma DecodeFieldsStep(s: Schema, vals: seq<Value>, i: nat, rest: seq<byte>)
    requires FieldsFrom(s, vals, i) && vals != []
    requires FieldsFrom(s, vals[1..], i + 1)
    requires Decode(s.fields[i], Encode(s.fields[i], vals[0]) + (EncodeFields(s, vals[1..], i + 1) + rest))
             == Some((vals[0], Size(s.fields[i], vals[0])))
    requires DecodeFields(s, EncodeFields(s, vals[1..], i + 1) + rest, i + 1)
             == Some((vals[1..], SizeFields(s, vals[1..], i + 1)))
    ensures DecodeFields(s, EncodeFields(s, vals, i) + rest, i) == Some((vals, SizeFields(s, vals, i)))
  {
    var head := Encode(s.fields[i], vals[0]);
    var tail := EncodeFields(s, vals[1..], i + 1) + rest;
    var bs := EncodeFields(s, vals, i) + rest;
    assert i < |s.fields|;
    assert bs == head + tail;
    assert bs[|head|..] == tail;
    assert Decode(s.fields[i], bs) == Some((vals[0], |head|));
    assert DecodeFields(s, bs[|head|..], i + 1) == Some((vals[1..], SizeFields(s, vals[1..], i + 1)));
    assert [vals[0]] + vals[1..] == vals;
    assert SizeFields(s, vals, i) == |head| + SizeFields(s, vals[1..], i + 1);
  }

  lemma FieldsTail(s: Schema, vals: seq<Value>, i: nat)
    requires FieldsFrom(s, vals, i) && vals != []
    requires forall j | 0 <= j < |vals| :: Fits(s.fields[i + j], vals[j])
    ensures FieldsFrom(s, vals[1..], i + 1)
    ensures forall j | 0 <= j < |vals| - 1 :: Fits(s.fields[i + 1 + j], vals[1..][j])
  {
    forall j | 0 <= j < |vals| - 1
      ensures Conforms(s.fields[i + 1 + j], vals[1..][j]) && Fits(s.fields[i + 1 + j], vals[1..][j])
    {
      assert vals[1..][j] == vals[j + 1];
    }
  }

  /** The probe reports exactly the bytes the decoder would consume, and
      `InvalidSize` exactly when the decoder would read past the span. */
  lemma {:induction false} ProbeAgreesWithDecode(s: Schema, bs: seq<byte>)
    ensures Probe(s, bs) == (if Decode(s, bs).Some? then Decode(s, bs).value.1 else InvalidSize)
    decreases s, 1, 0
  {
    match s
    case Trivial(_) =>
    case Array(_) =>
    case Iterable(_) =>
      if |bs| >= CountWidth {
        ProbeManyAgrees(s, bs[CountWidth..], DecodeCount(bs[0], bs[1]));
      }
    case Tuple(_) =>
      ProbeFieldsAgree(s, bs, 0);
    case Optional(e) =>
      if |bs| >= 1 && bs[0] != 0 {
        ProbeAgreesWithDecode(e, bs[1..]);
      }
    case Pair(a, b) =>
      ProbeAgreesWithDecode(a, bs);
      var n1 := Probe(a, bs);
      if n1 != InvalidSize {
        ProbeAgreesWithDecode(b, bs[n1..]);
      }
  }

  lemma {:induction false} ProbeManyAgrees(s: Schema, bs: seq<byte>, k: nat)
    requires s.Iterable?
    ensures ProbeMany(s, bs, k)
            == (if DecodeMany(s, bs, k).Some? then DecodeMany(s, bs, k).value.1 else InvalidSize)
    decreases s, 0, k
  {
    if k > 0 {
      ProbeAgreesWithDecode(s.elem, bs);
      var n := Probe(s.elem, bs);
      if n != InvalidSize {
        ProbeManyAgrees(s, bs[n..], k - 1);
      }
    }
  }

  lemma {:induction false} ProbeFieldsAgree(s: Schema, bs: seq<byte>, i: nat)
    requires s.Tuple? && i <= |s.fields|
    ensures ProbeFields(s, bs, i)
            == (if DecodeFields(s, bs, i).Some? then DecodeFields(s, bs, i).value.1 else InvalidSize)
    decreases s, 0, |s.fields| - i
  {
    if i < |s.fields| {
      ProbeAgreesWithDecode(s.fields[i], bs);
      var n := Probe(s.fields[i], bs);
      if n != InvalidSize {
        ProbeFieldsAgree(s, bs[n..], i + 1);
      }
    }
  }

  /** On a span that starts with the encoding of `v`, the probe returns the
      value size. */
  lemma ProbeOfEncoding(s: Schema, v: Value, rest: seq<byte>)
    requires Conforms(s, v) && Fits(s, v)
    ensures Probe(s, Encode(s, v) + rest) == Size(s, v)
  {
    RoundTrip(s, v, rest);
    ProbeAgreesWithDecode(s, Encode(s, v) + rest);
  }

  /** A probe that does not fail promises a successful decode of exactly
      that many bytes, so `try_deserialize` may trust it. */
  lemma ProbeValidMeansDecodes(s: Schema, bs: seq<byte>)
    requires Probe(s, bs) != InvalidSize
    ensures Decode(s, bs).Some? && Decode(s, bs).value.1 == Probe(s, bs)
  {
    ProbeAgreesWithDecode(s, bs);
  }

  /** The decoder looks at no byte beyond those it consumes: any span that
      agrees on them decodes the same. */
  lemma {:induction false} DecodeReadsOnlyConsumed(s: Schema, bs: seq<byte>, other: seq<byte>)
    requires Decode(s, bs).Some?
    requires Decode(s, bs).value.1 <= |other| && other[..Decode(s, bs).value.1] == bs[..Decode(s, bs).value.1]
    ensures Decode(s, other) == Decode(s, bs)
    decreases s, 2, 0
  {
    match s
    case Trivial(w) =>
      assert other[..w] == bs[..w];
    case Array(w) =>
      ArrayReadsOnlyConsumed(w, bs, other);
    case Iterable(_) =>
      IterableReadsOnlyConsumed(s, bs, other);
    case Tuple(_) =>
      DecodeFieldsReadOnlyConsumed(s, bs, other, 0);
    case Optional(e) =>
      OptionalReadsOnlyConsumed(s, bs, other);
    case Pair(a, b) =>
      PairReadsOnlyConsumed(s, bs, other);
  }

  lemma ArrayReadsOnlyConsumed(w: nat, bs: seq<byte>, other: seq<byte>)
    requires DecodeArray(w, bs).Some?
    requires DecodeArray(w, bs).value.1 <= |other|
    requires other[..DecodeArray(w, bs).value.1] == bs[..DecodeArray(w, bs).value.1]
    ensures DecodeArray(w, other) == DecodeArray(w, bs)
  {
    var n := DecodeArray(w, bs).value.1;
    var count := DecodeCount(bs[0], bs[1]);
    var c := count * w;
    assert n == CountWidth + c;
    assert other[0] == other[..n][0] && other[1] == other[..n][1];
    assert other[CountWidth..][..c] == other[..n][CountWidth..] == bs[..n][CountWidth..] == bs[CountWidth..][..c];
    ChunksReadOnlyPrefix(bs[CountWidth..], other[CountWidth..], w, count);
  }

  lemma {:induction false} IterableReadsOnlyConsumed(s: Schema, bs: seq<byte>, other: seq<byte>)
    requires s.Iterable? && DecodeIterable(s, bs).Some?
    requires DecodeIterable(s, bs).value.1 <= |other|
    requires other[..DecodeIterable(s, bs).value.1] == bs[..DecodeIterable(s, bs).value.1]
    ensures DecodeIterable(s, other) == DecodeIterable(s, bs)
    decreases s, 1, 0
  {
    var n := DecodeIterable(s, bs).value.1;
    assert other[0] == other[..n][0] && other[1] == other[..n][1];
    var k := DecodeCount(bs[0], bs[1]);
    var m := DecodeMany(s, bs[CountWidth..], k).value.1;
    AgreeOnPart(bs, other, n, CountWidth, m);
    DecodeManyReadsOnlyConsumed(s, bs[CountWidth..], other[CountWidth..], k);
  }

  lemma {:induction false} OptionalReadsOnlyConsumed(s: Schema, bs: seq<byte>, other: seq<byte>)
    requires s.Optional? && DecodeOptional(s, bs).Some?
    requires DecodeOptional(s, bs).value.1 <= |other|
    requires other[..DecodeOptional(s, bs).value.1] == bs[..DecodeOptional(s, bs).value.1]
    ensures DecodeOptional(s, other) == DecodeOptional(s, bs)
    decreases s, 1, 0
  {
    var n := DecodeOptional(s, bs).value.1;
    assert other[0] == other[..n][0];
    if bs[0] != 0 {
      AgreeOnPart(bs, other, n, 1, n - 1);
      DecodeReadsOnlyConsumed(s.inner, bs[1..], other[1..]);
    }
  }

  lemma {:induction false} PairReadsOnlyConsumed(s: Schema, bs: seq<byte>, other: seq<byte>)
    requires s.Pair? && DecodePair(s, bs).Some?
    requires DecodePair(s, bs).value.1 <= |other|
    requires other[..DecodePair(s, bs).value.1] == bs[..DecodePair(s, bs).value.1]
    ensures DecodePair(s, other) == DecodePair(s, bs)
    decreases s, 1, 0
  {
    var n := DecodePair(s, bs).value.1;
    var n1 := Decode(s.first, bs).value.1;
    AgreeOnPart(bs, other, n, 0, n1);
    DecodeReadsOnlyConsumed(s.first, bs, other);
    var n2 := Decode(s.second, bs[n1..]).value.1;
    assert n == n1 + n2;
    AgreeOnPart(bs, other, n, n1, n2);
    DecodeReadsOnlyConsumed(s.second, bs[n1..], other[n1..]);
  }

  /** Two spans that agree on their first `n` bytes agree on every part
      of them. */
  lemma AgreeOnPart(bs: seq<byte>, other: seq<byte>, n: nat, a: nat, len: nat)
    requires a + len <= n <= |bs| && n <= |other| && other[..n] == bs[..n]
    ensures other[a..][..len] == bs[a..][..len]
    ensures other[..a + len] == bs[..a + len]
  {
    assert other[a..][..len] == other[..n][a..a + len];
    assert bs[a..][..len] == bs[..n][a..a + len];
    assert other[..a + len] == other[..n][..a + len];
    assert bs[..a + len] == bs[..n][..a + len];
  }

  lemma {:induction false} ChunksReadOnlyPrefix(bs: seq<byte>, other: seq<byte>, w: nat, count: nat)
    requires |bs| >= count * w && |other| >= count * w
    requires other[..count * w] == bs[..count * w]
    ensures Chunks(other, w, count) == Chunks(bs, w, count)
  {
    if count > 0 {
      var c := count * w;
      assert c == w + (count - 1) * w;
      assert other[..w] == other[..c][..w] == bs[..c][..w] == bs[..w];
      assert other[w..][..c - w] == other[..c][w..] == bs[..c][w..] == bs[w..][..c - w];
      ChunksReadOnlyPrefix(bs[w..], other[w..], w, count - 1);
    }
  }

  lemma {:induction false} DecodeManyReadsOnlyConsumed(s: Schema, bs: seq<byte>, other: seq<byte>, k: nat)
    requires s.Iterable? && DecodeMany(s, bs, k).Some?
    requires DecodeMany(s, bs, k).value.1 <= |other|
    requires other[..DecodeMany(s, bs, k).value.1] == bs[..DecodeMany(s, bs, k).value.1]
    ensures DecodeMany(s, other, k) == DecodeMany(s, bs, k)
    decreases s, 0, k
  {
    if k > 0 {
      var n := DecodeMany(s, bs, k).value.1;
      var n1 := Decode(s.elem, bs).value.1;
      AgreeOnPart(bs, other, n, 0, n1);
      DecodeReadsOnlyConsumed(s.elem, bs, other);
      var m := DecodeMany(s, bs[n1..], k - 1).value.1;
      assert n == n1 + m;
      AgreeOnPart(bs, other, n, n1, m);
      DecodeManyReadsOnlyConsumed(s, bs[n1..], other[n1..], k - 1);
    }
  }

  lemma {:induction false} DecodeFieldsReadOnlyConsumed(s: Schema, bs: seq<byte>, other: seq<byte>, i: nat)
    requires s.Tuple? && i <= |s.fields| && DecodeFields(s, bs, i).Some?
    requires DecodeFields(s, bs, i).value.1 <= |other|
    requires other[..DecodeFields(s, bs, i).value.1] == bs[..DecodeFields(s, bs, i).value.1]
    ensures DecodeFields(s, other, i) == DecodeFields(s, bs, i)
    decreases s, 0, |s.fields| - i
  {
    if i < |s.fields| {
      var n := DecodeFields(s, bs, i).value.1;
      var n1 := Decode(s.fields[i], bs).value.1;
      AgreeOnPart(bs, other, n, 0, n1);
      DecodeReadsOnlyConsumed(s.fields[i], bs, other);
      var m := DecodeFields(s, bs[n1..], i + 1).value.1;
      AgreeOnPart(bs, other, n, n1, m);
      DecodeFieldsReadOnlyConsumed(s, bs[n1..], other[n1..], i + 1);
    }
  }

  /** A span holding only part of an encoding probes invalid: the probe
      answers -1 whenever the span is too short for the value it starts. */
  lemma ProbeOfTruncatedEncoding(s: Schema, v: Value, part: seq<byte>)
    requires Conforms(s, v) && Fits(s, v)
    requires |part| < Size(s, v) && part == Encode(s, v)[..|part|]
    ensures Probe(s, part) == InvalidSize
  {
    ProbeAgreesWithDecode(s, part);
    if Decode(s, part).Some? {
      var e := Encode(s, v);
      RoundTrip(s, v, []);
      assert e + [] == e;
      var n := Decode(s, part).value.1;
      assert e[..n] == part[..n];
      DecodeReadsOnlyConsumed(s, part, e);
      assert false;
    }
  }

  /** The optional value-size hook, read with the grouping it is written
      with, is one byte short of what the optional's encoding occupies, and
      of what its probe reports. */
  lemma OptionalSizeAsWrittenIsShort(e: Schema, v: Value)
    requires Conforms(Optional(e), v) && Fits(Optional(e), v) && v.Present?
    ensures OptionalSizeAsWritten(e, v) + 1 == |Encode(Optional(e), v)|
    ensures OptionalSizeAsWritten(e, v) + 1 == Probe(Optional(e), Encode(Optional(e), v))
  {
    ProbeOfEncoding(Optional(e), v, []);
    assert Encode(Optional(e), v) + [] == Encode(Optional(e), v);
  }

  /** What the decoder returns is a value of the decoded type, whose counts
      fit 16 bits and whose size is the number of bytes it consumed. */
  lemma {:induction false} DecodeWellFormed(s: Schema, bs: seq<byte>)
    requires Decode(s, bs).Some?
    ensures var (x, n) := Decode(s, bs).value;
      Conforms(s, x) && Fits(s, x) && Size(s, x) == n
    decreases s, 1, 0
  {
    match s
    case Trivial(_) =>
    case Array(_) =>
    case Iterable(_) =>
      var k := DecodeCount(bs[0], bs[1]);
      DecodeManyWellFormed(s, bs[CountWidth..], k);
    case Tuple(_) =>
      DecodeFieldsWellFormed(s, bs, 0);
      var vals := DecodeFields(s, bs, 0).value.0;
      assert forall j | 0 <= j < |vals| :: Conforms(s.fields[0 + j], vals[j]);
    case Optional(e) =>
      if bs[0] != 0 {
        DecodeWellFormed(e, bs[1..]);
      }
    case Pair(a, b) =>
      DecodeWellFormed(a, bs);
      var n1 := Decode(a, bs).value.1;
      DecodeWellFormed(b, bs[n1..]);
  }

  lemma {:induction false} DecodeManyWellFormed(s: Schema, bs: seq<byte>, k: nat)
    requires s.Iterable? && DecodeMany(s, bs, k).Some?
    ensures var (elems, n) := DecodeMany(s, bs, k).value;
      && (forall j | 0 <= j < |elems| :: Conforms(s.elem, elems[j]) && Fits(s.elem, elems[j]))
      && SizeAll(s, elems) == n
    decreases s, 0, k
  {
    if k > 0 {
      DecodeWellFormed(s.elem, bs);
      var (x, n1) := Decode(s.elem, bs).value;
      DecodeManyWellFormed(s, bs[n1..], k - 1);
      var (xs, m) := DecodeMany(s, bs[n1..], k - 1).value;
      assert ([x] + xs)[1..] == xs;
    }
  }

  lemma {:induction false} DecodeFieldsWellFormed(s: Schema, bs: seq<byte>, i: nat)
    requires s.Tuple? && i <= |s.fields| && DecodeFields(s, bs, i).Some?
    ensures var (vals, n) := DecodeFields(s, bs, i).value;
      && FieldsFrom(s, vals, i)
      && (forall j | 0 <= j < |vals| :: Fits(s.fields[i + j], vals[j]))
      && SizeFields(s, vals, i) == n
    decreases s, 0, |s.fields| - i
  {
    if i < |s.fields| {
      DecodeWellFormed(s.fields[i], bs);
      var (x, n1) := Decode(s.fields[i], bs).value;
      DecodeFieldsWellFormed(s, bs[n1..], i + 1);
      var (xs, m) := DecodeFields(s, bs[n1..], i + 1).value;
      assert ([x] + xs)[1..] == xs;
    }
  }

  /** The elements `done` already decoded from `used` bytes, followed by
      the outcome of decoding the remaining ones. */
  function Extend(done: seq<Value>, used: nat, rest: Option<(seq<Value>, nat)>): Option<(seq<Value>, nat)>
  {
    if rest.None? then None else Some((done + rest.value.0, used + rest.value.1))
  }

  /** Decoding one more element moves it from the remaining ones to `done`. */
  lemma ExtendStep(s: Schema, done: seq<Value>, used: nat, bs: seq<byte>, k: nat)
    requires s.Iterable? && k > 0 && Decode(s.elem, bs).Some?
    ensures var (v, n) := Decode(s.elem, bs).value;
      Extend(done, used, DecodeMany(s, bs, k)) == Extend(done + [v], used + n, DecodeMany(s, bs[n..], k - 1))
  {
    var (v, n) := Decode(s.elem, bs).value;
    var rest := DecodeMany(s, bs[n..], k - 1);
    if rest.Some? {
      assert done + ([v] + rest.value.0) == (done + [v]) + rest.value.0;
    }
  }

  /** Decoding one more field moves it from the remaining ones to `done`. */
  lemma ExtendFieldsStep(s: Schema, done: seq<Value>, used: nat, bs: seq<byte>, i: nat)
    requires s.Tuple? && i < |s.fields| && Decode(s.fields[i], bs).Some?
    ensures var (v, n) := Decode(s.fields[i], bs).value;
      Extend(done, used, DecodeFields(s, bs, i)) == Extend(done + [v], used + n, DecodeFields(s, bs[n..], i + 1))
  {
    var (v, n) := Decode(s.fields[i], bs).value;
    var rest := DecodeFields(s, bs[n..], i + 1);
    if rest.Some? {
      assert done + ([v] + rest.value.0) == (done + [v]) + rest.value.0;
    }
  }
}
