/** How a C++ type is classified for serialization, in both codecs. The
    compile-time type traits the source consults become the fields of a
    `TypeTraits` value; the classification is the first category whose
    traits match. */
module SerialTag {
  import opened Values

  /** The traits of a C++ type that the classification consults. `element`
      is the element type of a container, when it has one. */
  datatype TypeTraits = TypeTraits(
    isPointer: bool,
    customSerializable: bool,
    triviallyCopyable: bool,
    continuousIterable: bool,
    hasEmplace: bool,
    hasResize: bool,
    iterable: bool,
    aggregate: bool,
    element: Option<TypeTraits>)

  /** `serial_tag::*` of the stream codec. */
  datatype Tag = Custom | Trivial | Array | Iterable | Aggregate | Invalid

  /** `serial_tag_of<T>`, following the chain of `if constexpr` tests of
      `detail::serial_tag` and its two continuations. */
  function TagOf(t: TypeTraits): Tag
    decreases t, 2
  {
    if t.isPointer then Invalid
    else if t.customSerializable then Custom
    else if t.triviallyCopyable then Trivial
    else if t.continuousIterable && (t.hasEmplace || t.hasResize) then
      if ElementTag(t) == Trivial then Array else TagAfterArray(t)
    else TagAfterArray(t)
  }

  /** The tag of the element type; a type without one has none to give. */
  function ElementTag(t: TypeTraits): Tag
    decreases t, 0
  {
    match t.element
    case None => Invalid
    case Some(e) => TagOf(e)
  }

  /** `serial_tag_after_array`. */
  function TagAfterArray(t: TypeTraits): Tag
    decreases t, 1
  {
    if t.iterable && t.hasEmplace && ElementTag(t) != Invalid then Iterable
    else TagAfterIterable(t)
  }

  /** `serial_tag_after_iterable`. */
  function TagAfterIterable(t: TypeTraits): Tag
  {
    if t.aggregate then Aggregate else Invalid
  }

  /** `is_serializable<T>`. */
  predicate IsSerializable(t: TypeTraits)
  {
    TagOf(t) != Invalid
  }

  /** Whether `t` has the traits of category `c`, regardless of order. */
  predicate HasTraitsOf(t: TypeTraits, c: Tag)
  {
    match c
    case Custom => t.customSerializable
    case Trivial => t.triviallyCopyable
    case Array => t.continuousIterable && (t.hasEmplace || t.hasResize) && ElementTag(t) == Trivial
    case Iterable => t.iterable && t.hasEmplace && ElementTag(t) != Invalid
    case Aggregate => t.aggregate
    case Invalid => true
  }

  /** The order in which the categories are tried. */
  const Precedence: seq<Tag> := [Custom, Trivial, Array, Iterable, Aggregate, Invalid]

  /** The first category of `order` whose traits `t` has. */
  function FirstMatch(t: TypeTraits, order: seq<Tag>): (r: Tag)
    ensures r == Invalid || r in order
    ensures r != Invalid ==> HasTraitsOf(t, r)
  {
    if order == [] then Invalid
    else if HasTraitsOf(t, order[0]) then order[0]
    else FirstMatch(t, order[1..])
  }

  /** A pointer is never serializable; any other type gets the first
      category, in the documented precedence, whose traits it has. */
  lemma TagIsFirstMatch(t: TypeTraits)
    ensures TagOf(t) == (if t.isPointer then Invalid else FirstMatch(t, Precedence))
  {
    assert Precedence[1..] == [Trivial, Array, Iterable, Aggregate, Invalid];
    assert Precedence[2..] == [Array, Iterable, Aggregate, Invalid];
    assert Precedence[3..] == [Iterable, Aggregate, Invalid];
    assert Precedence[4..] == [Aggregate, Invalid];
    assert Precedence[5..] == [Invalid];
    assert FirstMatch(t, Precedence[4..]) == TagAfterIterable(t);
    assert FirstMatch(t, Precedence[3..]) == TagAfterArray(t);
    if t.continuousIterable && (t.hasEmplace || t.hasResize) && ElementTag(t) == Trivial {
      assert FirstMatch(t, Precedence[2..]) == Array;
    } else {
      assert FirstMatch(t, Precedence[2..]) == TagAfterArray(t);
    }
  }

  /** A category is chosen only when the type has its traits and none of an
      earlier category's. */
  lemma TagHasItsTraits(t: TypeTraits)
    ensures TagOf(t) != Invalid ==> !t.isPointer && HasTraitsOf(t, TagOf(t))
    ensures forall j | 0 <= j < |Precedence| && Precedence[j] != Invalid && HasTraitsOf(t, Precedence[j]) ::
              t.isPointer || TagOf(t) in Precedence[..j + 1]
  {
    TagIsFirstMatch(t);
    if !t.isPointer {
      forall j | 0 <= j < |Precedence| && Precedence[j] != Invalid && HasTraitsOf(t, Precedence[j])
        ensures TagOf(t) in Precedence[..j + 1]
      {
        FirstMatchIsEarliest(t, Precedence, j);
      }
    }
  }

  lemma {:induction false} FirstMatchIsEarliest(t: TypeTraits, order: seq<Tag>, j: nat)
    requires j < |order| && HasTraitsOf(t, order[j])
    ensures FirstMatch(t, order) in order[..j + 1]
  {
    if !HasTraitsOf(t, order[0]) {
      FirstMatchIsEarliest(t, order[1..], j - 1);
      assert order[1..][..j] == order[1..j + 1];
    }
  }

  // ---------------------------------------------------------------------
  // The pointer-based legacy codec
  // ---------------------------------------------------------------------

  /** The traits the legacy codec consults. */
  datatype LegacyTraits = LegacyTraits(
    customSerialization: bool,
    triviallyCopyable: bool,
    continuousTriviallyIterable: bool,
    iterable: bool,
    aggregate: bool)

  /** `serial::*` of the legacy codec. */
  datatype LegacyTag = LegacyCustom | LegacyTrivial | ContinuousTrivial | LegacyIterable
                     | LegacyAggregate | NoTag

  /** `get_serialization_tag<T>`. */
  function LegacyTagOf(t: LegacyTraits): (r: LegacyTag)
    ensures r == LegacyCustom <==> t.customSerialization
    ensures r == LegacyTrivial <==> !t.customSerialization && t.triviallyCopyable
    ensures r == ContinuousTrivial <==>
              !t.customSerialization && !t.triviallyCopyable && t.continuousTriviallyIterable
    ensures r == LegacyIterable <==>
              !t.customSerialization && !t.triviallyCopyable && !t.continuousTriviallyIterable
              && t.iterable
    ensures r == LegacyAggregate <==>
              !t.customSerialization && !t.triviallyCopyable && !t.continuousTriviallyIterable
              && !t.iterable && t.aggregate
  {
    if t.customSerialization then LegacyCustom
    else if t.triviallyCopyable then LegacyTrivial
    else if t.continuousTriviallyIterable then ContinuousTrivial
    else if t.iterable then LegacyIterable
    else if t.aggregate then LegacyAggregate
    else NoTag
  }

  /** Whether `t` has the trait the legacy codec tests for category `c`. */
  predicate LegacyHasTraits(t: LegacyTraits, c: LegacyTag)
  {
    match c
    case LegacyCustom => t.customSerialization
    case LegacyTrivial => t.triviallyCopyable
    case ContinuousTrivial => t.continuousTriviallyIterable
    case LegacyIterable => t.iterable
    case LegacyAggregate => t.aggregate
    case NoTag => true
  }

  /** The order in which the legacy categories are tried. */
  const LegacyPrecedence: seq<LegacyTag> :=
    [LegacyCustom, LegacyTrivial, ContinuousTrivial, LegacyIterable, LegacyAggregate]

  /** The first legacy category of `order` whose trait `t` has. */
  function LegacyFirstMatch(t: LegacyTraits, order: seq<LegacyTag>): (r: LegacyTag)
    ensures r == NoTag || r in order
    ensures LegacyHasTraits(t, r)
  {
    if order == [] then NoTag
    else if LegacyHasTraits(t, order[0]) then order[0]
    else LegacyFirstMatch(t, order[1..])
  }

  /** The legacy tag is the first category, in precedence order, whose
      trait the type has, and no tag when it has none of them. */
  lemma LegacyTagIsFirstMatch(t: LegacyTraits)
    ensures LegacyTagOf(t) == LegacyFirstMatch(t, LegacyPrecedence)
    ensures LegacyTagOf(t) == NoTag <==> forall c | c in LegacyPrecedence :: !LegacyHasTraits(t, c)
  {
    assert LegacyPrecedence[1..] == [LegacyTrivial, ContinuousTrivial, LegacyIterable, LegacyAggregate];
    assert LegacyPrecedence[2..] == [ContinuousTrivial, LegacyIterable, LegacyAggregate];
    assert LegacyPrecedence[3..] == [LegacyIterable, LegacyAggregate];
    assert LegacyPrecedence[4..] == [LegacyAggregate];
    assert LegacyPrecedence[5..] == [];
    assert LegacyFirstMatch(t, LegacyPrecedence[4..])
        == if t.aggregate then LegacyAggregate else NoTag;
    assert LegacyFirstMatch(t, LegacyPrecedence[3..])
        == if t.iterable then LegacyIterable else LegacyFirstMatch(t, LegacyPrecedence[4..]);
    assert LegacyFirstMatch(t, LegacyPrecedence[2..])
        == if t.continuousTriviallyIterable then ContinuousTrivial else LegacyFirstMatch(t, LegacyPrecedence[3..]);
    assert LegacyFirstMatch(t, LegacyPrecedence[1..])
        == if t.triviallyCopyable then LegacyTrivial else LegacyFirstMatch(t, LegacyPrecedence[2..]);
  }

  /** A legacy category is chosen only when the type has its trait, and a
      type with the trait of category `j` gets that one or an earlier one. */
  lemma LegacyTagHasItsTraits(t: LegacyTraits)
    ensures LegacyHasTraits(t, LegacyTagOf(t))
    ensures forall j | 0 <= j < |LegacyPrecedence| && LegacyHasTraits(t, LegacyPrecedence[j]) ::
              LegacyTagOf(t) in LegacyPrecedence[..j + 1]
  {
    LegacyTagIsFirstMatch(t);
    forall j | 0 <= j < |LegacyPrecedence| && LegacyHasTraits(t, LegacyPrecedence[j])
      ensures LegacyTagOf(t) in LegacyPrecedence[..j + 1]
    {
      LegacyFirstMatchIsEarliest(t, LegacyPrecedence, j);
    }
  }

  lemma {:induction false} LegacyFirstMatchIsEarliest(t: LegacyTraits, order: seq<LegacyTag>, j: nat)
    requires j < |order| && LegacyHasTraits(t, order[j])
    ensures LegacyFirstMatch(t, order) in order[..j + 1]
  {
    if !LegacyHasTraits(t, order[0]) {
      LegacyFirstMatchIsEarliest(t, order[1..], j - 1);
      assert order[1..][..j] == order[1..j + 1];
    }
  }

  /** The traits of the types the legacy codec's own tests classify. */
  const IntTraits := LegacyTraits(false, true, false, false, false)
  const StringTraits := LegacyTraits(false, false, true, true, false)
  const ListTraits := LegacyTraits(false, false, false, true, false)
  /** A struct holding a `std::string`: not trivially copyable. */
  const StructWithStringTraits := LegacyTraits(false, false, false, false, true)
  /** A struct of trivially copyable fields: trivially copyable itself. */
  const FlatStructTraits := LegacyTraits(false, true, false, false, true)

  /** `int` and a flat struct are trivial, `std::string` continuous
      trivial, `std::list<int>` iterable and a struct holding a string an
      aggregate. */
  lemma LegacyTestClassification()
    ensures LegacyTagOf(IntTraits) == LegacyTrivial
    ensures LegacyTagOf(FlatStructTraits) == LegacyTrivial
    ensures LegacyTagOf(StringTraits) == ContinuousTrivial
    ensures LegacyTagOf(ListTraits) == LegacyIterable
    ensures LegacyTagOf(StructWithStringTraits) == LegacyAggregate
  {
  }
}
