/** Database and index names, and document identifiers. */
module Names {
  import opened Bytes

  const MAX_NAME: nat := 63
  const ID_LENGTH: nat := 36
  const HYPHEN: byte := 0x2d

  predicate NameChar(c: byte) {
    0x61 <= c <= 0x7a || 0x30 <= c <= 0x39 || c == 0x5f || c == HYPHEN
  }

  /** A lower-case letter, then letters, digits, underscores and hyphens. */
  predicate ValidName(name: bytes) {
    0 < |name| <= MAX_NAME && 0x61 <= name[0] <= 0x7a && forall i :: 0 < i < |name| ==> NameChar(name[i])
  }

  predicate LowerHex(c: byte) {
    0x30 <= c <= 0x39 || 0x61 <= c <= 0x66
  }

  predicate HyphenPlace(i: int) {
    i == 8 || i == 13 || i == 18 || i == 23
  }

  /** The text form of a UUID of version 7 and the variant of section 4.1 of RFC 9562, in lower case. */
  predicate ValidId(id: bytes) {
    && |id| == ID_LENGTH
    && (forall i :: 0 <= i < ID_LENGTH ==> if HyphenPlace(i) then id[i] == HYPHEN else LowerHex(id[i]))
    && id[14] == 0x37
    && id[19] in {0x38, 0x39, 0x61, 0x62}
  }

  method ValidateName(name: bytes) returns (ok: bool)
    ensures ok <==> ValidName(name)
  {
    if |name| == 0 || |name| > MAX_NAME || name[0] < 0x61 || name[0] > 0x7a {
      return false;
    }
    var i := 1;
    while i < |name|
      invariant 1 <= i <= |name|
      invariant forall j :: 0 < j < i ==> NameChar(name[j])
    {
      if !NameChar(name[i]) {
        return false;
      }
      i := i + 1;
    }
    return true;
  }

  method ValidateId(id: bytes) returns (ok: bool)
    ensures ok <==> ValidId(id)
  {
    if |id| != ID_LENGTH || id[8] != HYPHEN || id[13] != HYPHEN || id[18] != HYPHEN || id[23] != HYPHEN {
      assert |id| == ID_LENGTH ==> HyphenPlace(8) && HyphenPlace(13) && HyphenPlace(18) && HyphenPlace(23);
      return false;
    }
    var i := 0;
    while i < |id|
      invariant 0 <= i <= |id|
      invariant forall j :: 0 <= j < i ==> if HyphenPlace(j) then id[j] == HYPHEN else LowerHex(id[j])
    {
      if !HyphenPlace(i) && !LowerHex(id[i]) {
        return false;
      }
      i := i + 1;
    }
    return id[14] == 0x37 && id[19] in {0x38, 0x39, 0x61, 0x62};
  }

  /** Names grow from one lower-case letter by lower-case letters, digits, underscores and hyphens, up to 63 characters. */
  lemma NameGrows(name: bytes, c: byte)
    ensures !ValidName([])
    ensures ValidName([c]) <==> 'a' as int <= c <= 'z' as int
    ensures name != [] ==>
              (ValidName(name + [c]) <==>
               && ValidName(name) && |name| < 63
               && ('a' as int <= c <= 'z' as int || '0' as int <= c <= '9' as int || c == '_' as int || c == '-' as int))
  {
    var longer := name + [c];
    assert longer[|name|] == c && forall i :: 0 <= i < |name| ==> longer[i] == name[i];
  }
}
