/** Message ids and type-name clean-up. */
module Reflection {
  import opened Values

  /** `id_min_value` and `id_max_value`; `id_type` is a signed 8-bit
      integer. */
  const IdMin: int := 0
  const IdMax: int := 50

  /** `is_valid_id`. */
  predicate IsValidId(id: int)
  {
    IdMin <= id <= IdMax
  }

  /** The `int8_t` value a byte holds (two's complement). */
  function IdOfByte(b: byte): (id: int)
    ensures -128 <= id < 128
  {
    if b < 128 then b as int else b as int - 256
  }

  /** The byte an `int8_t` value is stored as. */
  function ByteOfId(id: int): byte
    requires -128 <= id < 128
  {
    if id >= 0 then id as byte else (id + 256) as byte
  }

  /** Storing an id and reading it back is lossless, in both directions. */
  lemma IdByteRoundTrip(id: int, b: byte)
    ensures -128 <= id < 128 ==> IdOfByte(ByteOfId(id)) == id
    ensures ByteOfId(IdOfByte(b)) == b
  {
  }

  /** A byte read as an id is valid exactly when it is at most 50: every
      byte of 128 or more is a negative `int8_t`. */
  lemma ValidIdBytes(b: byte)
    ensures IsValidId(IdOfByte(b)) <==> b as int <= IdMax
    ensures b >= 128 ==> IdOfByte(b) < 0 && !IsValidId(IdOfByte(b))
  {
  }

  /** `remove_struct_class_qualifier` as written: the first six characters
      are compared with both prefixes, so the seven-character "struct "
      never matches. */
  function RemoveQualifierAsWritten(str: string): string
  {
    var view := if |str| < 6 then str else str[..6];
    if view == "struct " || view == "class " then str[6..] else str
  }

  /** Whether `str` begins with `prefix`. */
  predicate StartsWith(str: string, prefix: string)
  {
    |prefix| <= |str| && str[..|prefix|] == prefix
  }

  /** The function as written only ever removes "class ". */
  lemma RemoveQualifierAsWrittenIgnoresStruct(str: string)
    ensures RemoveQualifierAsWritten(str)
            == (if StartsWith(str, "class ") then str[6..] else str)
    ensures RemoveQualifierAsWritten("struct Foo") == "struct Foo"
  {
    var view := if |str| < 6 then str else str[..6];
    assert |view| <= 6 < |"struct "|;
    assert "struct Foo"[..6] == "struct";
  }

  /** `remove_struct_class_qualifier` as intended: removes a leading
      "struct " or "class ". */
  function RemoveQualifier(str: string): (r: string)
    ensures str == r || str == "struct " + r || str == "class " + r
    ensures |r| < |str| <==> StartsWith(str, "struct ") || StartsWith(str, "class ")
  {
    if StartsWith(str, "struct ") then
      assert str == str[..7] + str[7..];
      str[7..]
    else if StartsWith(str, "class ") then
      assert str == str[..6] + str[6..];
      str[6..]
    else str
  }

  /** Both versions return a suffix of their input, shorter by the
      qualifier they removed, if any; and they agree except on names
      beginning with "struct ". */
  lemma RemoveQualifierIsSuffix(str: string)
    ensures var r := RemoveQualifier(str);
      |r| <= |str| && str[|str| - |r|..] == r
      && |str| - |r| in {0, 6, 7}
    ensures var r := RemoveQualifierAsWritten(str);
      |r| <= |str| && str[|str| - |r|..] == r
      && |str| - |r| in {0, 6}
    ensures !StartsWith(str, "struct ") ==> RemoveQualifier(str) == RemoveQualifierAsWritten(str)
    ensures RemoveQualifier("struct Foo") == "Foo" && RemoveQualifier("class Foo") == "Foo"
  {
    RemoveQualifierAsWrittenIgnoresStruct(str);
    assert "struct Foo"[..7] == "struct ";
    assert "class Foo"[..7] != "struct ";
    assert "class Foo"[..6] == "class ";
    if StartsWith(str, "struct ") {
      assert str[..6] == "struct";
    }
  }
}
