/**
 The string forms of a UUID (section 3 of RFC 4122): the 36-character
 hyphenated hexadecimal form, read in either case with an optional
 `urn:uuid:` or `uuid:` prefix, written in lower case; and the URN form.
 */
module UuidText {
  import opened Bytes
  import opened Results
  import opened Hex
  import opened UuidValue

  const URN_PREFIX: string := "urn:uuid:"
  const SHORT_PREFIX: string := "uuid:"
  const FORMATTED_LENGTH: nat := 36

  /** Zero-based positions of the four hyphens of the 8-4-4-4-12 form. */
  predicate IsHyphenPosition(i: int) {
    i == 8 || i == 13 || i == 18 || i == 23
  }

  /** The 8-4-4-4-12 shape, with digits of either case. */
  predicate WellFormed(t: string) {
    && |t| == FORMATTED_LENGTH
    && forall i :: 0 <= i < |t| ==> if IsHyphenPosition(i) then t[i] == '-' else IsHexDigit(t[i])
  }

  /** The 8-4-4-4-12 shape with lower-case digits only: what `toString` writes. */
  predicate Canonical(t: string) {
    && |t| == FORMATTED_LENGTH
    && forall i :: 0 <= i < |t| ==> if IsHyphenPosition(i) then t[i] == '-' else IsCasedDigit(t[i], false)
  }

  /** The text with a leading `urn:uuid:` or `uuid:` removed, if it has one. */
  function StripPrefix(s: string): (t: string)
    ensures |t| <= |s|
  {
    if URN_PREFIX <= s then s[|URN_PREFIX|..]
    else if SHORT_PREFIX <= s then s[|SHORT_PREFIX|..]
    else s
  }

  /**
   `toString`: time_low, time_mid, time_hi_and_version, the two clock
   sequence bytes and the node, in lower-case hexadecimal, joined by hyphens.
   */
  function ToString(u: Uuid): (s: string)
    ensures Canonical(s)
  {
    var s := Encode(u.raw[0..4], false) + "-" + Encode(u.raw[4..6], false) + "-"
      + Encode(u.raw[6..8], false) + "-" + Encode(u.raw[8..10], false) + "-" + Encode(u.raw[10..16], false);
    EncodeDigits(u.raw[0..4], false);
    EncodeDigits(u.raw[4..6], false);
    EncodeDigits(u.raw[6..8], false);
    EncodeDigits(u.raw[8..10], false);
    EncodeDigits(u.raw[10..16], false);
    s
  }

  /** `toUrn`: the string form behind the `urn:uuid:` prefix. */
  function ToUrn(u: Uuid): (s: string)
    ensures |s| == |URN_PREFIX| + FORMATTED_LENGTH
    ensures URN_PREFIX <= s && Canonical(s[|URN_PREFIX|..])
  {
    var s := URN_PREFIX + ToString(u);
    assert s[|URN_PREFIX|..] == ToString(u);
    s
  }

  /**
   `fromString` and the string constructor: strip a prefix, then demand the
   exact 8-4-4-4-12 shape; anything else is a format error.
   */
  function Parse(s: string): (r: Result<Uuid>)
    ensures r.Ok? <==> WellFormed(StripPrefix(s))
    ensures r.Err? ==> r.error == FormatError(s)
  {
    var t := StripPrefix(s);
    if |t| != FORMATTED_LENGTH || t[8] != '-' || t[13] != '-' || t[18] != '-' || t[23] != '-' then
      Err(FormatError(s))
    else
      GroupsDecodeIffWellFormed(t);
      match (Decode(t[0..8]), Decode(t[9..13]), Decode(t[14..18]), Decode(t[19..23]), Decode(t[24..36]))
      case (Some(a), Some(b), Some(c), Some(d), Some(e)) => Ok(Uuid(a + b + c + d + e))
      case _ => Err(FormatError(s))
  }

  predicate AllGroupsDecode(t: string)
    requires |t| == FORMATTED_LENGTH
  {
    && Decode(t[0..8]).Some? && Decode(t[9..13]).Some? && Decode(t[14..18]).Some?
    && Decode(t[19..23]).Some? && Decode(t[24..36]).Some?
  }

  /** With the hyphens in place, every group decodes exactly when the string is well formed. */
  lemma GroupsDecodeIffWellFormed(t: string)
    requires |t| == FORMATTED_LENGTH
    requires t[8] == '-' && t[13] == '-' && t[18] == '-' && t[23] == '-'
    ensures AllGroupsDecode(t) <==> WellFormed(t)
  {
    if AllGroupsDecode(t) {
      forall i | 0 <= i < |t| && !IsHyphenPosition(i) ensures IsHexDigit(t[i]) {
        if i < 8 { assert t[i] == t[0..8][i]; }
        else if i < 13 { assert t[i] == t[9..13][i - 9]; }
        else if i < 18 { assert t[i] == t[14..18][i - 14]; }
        else if i < 23 { assert t[i] == t[19..23][i - 19]; }
        else { assert t[i] == t[24..36][i - 24]; }
      }
    }
    if WellFormed(t) {
      assert AllHexDigits(t[0..8]);
      assert AllHexDigits(t[9..13]);
      assert AllHexDigits(t[14..18]);
      assert AllHexDigits(t[19..23]);
      assert AllHexDigits(t[24..36]);
    }
  }

  // ---------------------------------------------------------------------------
  // Round trips

  /**
   Stripping keeps a tail of the input, and what it cuts off is one of the two
   prefixes or nothing.
   */
  lemma StripPrefixCuts(s: string)
    ensures |StripPrefix(s)| <= |s|
    ensures s == s[..|s| - |StripPrefix(s)|] + StripPrefix(s)
    ensures s[..|s| - |StripPrefix(s)|] in {"", URN_PREFIX, SHORT_PREFIX}
  {
    var t := StripPrefix(s);
    if URN_PREFIX <= s {
      assert s[..|s| - |t|] == URN_PREFIX;
    } else if SHORT_PREFIX <= s {
      assert s[..|s| - |t|] == SHORT_PREFIX;
    }
  }

  /** Canonical text carries no prefix, so nothing is stripped from it. */
  lemma StripCanonical(t: string)
    requires Canonical(t)
    ensures StripPrefix(t) == t
  {
    assert !IsHyphenPosition(3) && !IsHyphenPosition(4);
    assert t[3] != URN_PREFIX[3];
    assert t[4] != SHORT_PREFIX[4];
  }

  /** A leading `urn:uuid:` is removed, whatever follows it. */
  lemma StripUrn(t: string)
    ensures StripPrefix(URN_PREFIX + t) == t
  {
    assert (URN_PREFIX + t)[|URN_PREFIX|..] == t;
  }

  /** A leading `uuid:` is removed, whatever follows it. */
  lemma StripShort(t: string)
    ensures StripPrefix(SHORT_PREFIX + t) == t
  {
    assert (SHORT_PREFIX + t)[1] != URN_PREFIX[1];
    assert (SHORT_PREFIX + t)[|SHORT_PREFIX|..] == t;
  }

  lemma GroupsOfToString(u: Uuid)
    ensures var t := ToString(u);
      && Decode(t[0..8]) == Some(u.raw[0..4]) && Decode(t[9..13]) == Some(u.raw[4..6])
      && Decode(t[14..18]) == Some(u.raw[6..8]) && Decode(t[19..23]) == Some(u.raw[8..10])
      && Decode(t[24..36]) == Some(u.raw[10..16])
  {
    SlicesOfToString(u);
    DecodeEncode(u.raw[0..4], false);
    DecodeEncode(u.raw[4..6], false);
    DecodeEncode(u.raw[6..8], false);
    DecodeEncode(u.raw[8..10], false);
    DecodeEncode(u.raw[10..16], false);
  }

  lemma SlicesOfToString(u: Uuid)
    ensures var t := ToString(u);
      && t[0..8] == Encode(u.raw[0..4], false) && t[9..13] == Encode(u.raw[4..6], false)
      && t[14..18] == Encode(u.raw[6..8], false) && t[19..23] == Encode(u.raw[8..10], false)
      && t[24..36] == Encode(u.raw[10..16], false)
  {
  }

  /** The string form is fixed by the hexadecimal text of its five groups. */
  lemma ToStringOfGroups(u: Uuid, a: string, b: string, c: string, d: string, e: string)
    requires Encode(u.raw[0..4], false) == a && Encode(u.raw[4..6], false) == b
    requires Encode(u.raw[6..8], false) == c && Encode(u.raw[8..10], false) == d
    requires Encode(u.raw[10..16], false) == e
    ensures ToString(u) == a + "-" + b + "-" + c + "-" + d + "-" + e
  {
  }

  lemma CanonicalHyphens(t: string)
    requires Canonical(t)
    ensures t[8] == '-' && t[13] == '-' && t[18] == '-' && t[23] == '-'
  {
    assert IsHyphenPosition(8) && IsHyphenPosition(13) && IsHyphenPosition(18) && IsHyphenPosition(23);
  }

  lemma RawGroups(u: Uuid)
    ensures u.raw[0..4] + u.raw[4..6] + u.raw[6..8] + u.raw[8..10] + u.raw[10..16] == u.raw
  {
  }

  /** What `Parse` returns once every group of the stripped text decodes. */
  lemma ParseOfGroups(s: string, a: seq<Byte>, b: seq<Byte>, c: seq<Byte>, d: seq<Byte>, e: seq<Byte>)
    requires var t := StripPrefix(s);
      && |t| == FORMATTED_LENGTH && t[8] == '-' && t[13] == '-' && t[18] == '-' && t[23] == '-'
      && Decode(t[0..8]) == Some(a) && Decode(t[9..13]) == Some(b) && Decode(t[14..18]) == Some(c)
      && Decode(t[19..23]) == Some(d) && Decode(t[24..36]) == Some(e)
    ensures |a + b + c + d + e| == UUID_BYTE_LENGTH
    ensures Parse(s) == Ok(Uuid(a + b + c + d + e))
  {
  }

  /** Parsing the string form gives back the UUID. */
  lemma ParseToString(u: Uuid)
    ensures Parse(ToString(u)) == Ok(u)
  {
    var t := ToString(u);
    StripCanonical(t);
    CanonicalHyphens(t);
    GroupsOfToString(u);
    ParseOfGroups(t, u.raw[0..4], u.raw[4..6], u.raw[6..8], u.raw[8..10], u.raw[10..16]);
    RawGroups(u);
  }

  /** The URN form and the `uuid:`-prefixed form parse to the same UUID. */
  lemma ParsePrefixed(u: Uuid)
    ensures Parse(ToUrn(u)) == Ok(u)
    ensures Parse(SHORT_PREFIX + ToString(u)) == Ok(u)
  {
    ParseToString(u);
    StripUrn(ToString(u));
    StripShort(ToString(u));
  }

  /** A prefix never changes what the rest of the text parses to. */
  lemma PrefixIrrelevant(t: string)
    requires WellFormed(t)
    ensures Parse(URN_PREFIX + t) == Parse(SHORT_PREFIX + t)
    ensures Parse(SHORT_PREFIX + t).Ok? && Parse(t).Ok?
    ensures Parse(SHORT_PREFIX + t).value == Parse(t).value
  {
    StripUrn(t);
    StripShort(t);
    assert !IsHyphenPosition(3) && !IsHyphenPosition(4);
    assert t[3] != URN_PREFIX[3] && t[4] != SHORT_PREFIX[4];
    assert StripPrefix(t) == t;
  }

  /** Distinct UUIDs have distinct string forms. */
  lemma ToStringInjective(a: Uuid, b: Uuid)
    ensures ToString(a) == ToString(b) <==> a == b
  {
    ParseToString(a);
    ParseToString(b);
  }

  /**
   Whatever text parses, writing the UUID back gives that text without its
   prefix and with its letters in lower case.
   */
  lemma ToStringOfParse(s: string, u: Uuid)
    requires Parse(s) == Ok(u)
    ensures ToString(u) == LowerString(StripPrefix(s))
  {
    var t := StripPrefix(s);
    ParsedGroups(s, u);
    EncodeDecode(t[0..8], u.raw[0..4], false);
    EncodeDecode(t[9..13], u.raw[4..6], false);
    EncodeDecode(t[14..18], u.raw[6..8], false);
    EncodeDecode(t[19..23], u.raw[8..10], false);
    EncodeDecode(t[24..36], u.raw[10..16], false);
    LowerStringOfGroups(t);
  }

  /** The groups of parsed text decode to the corresponding byte slices of the result. */
  lemma ParsedGroups(s: string, u: Uuid)
    requires Parse(s) == Ok(u)
    ensures var t := StripPrefix(s);
      && WellFormed(t)
      && Decode(t[0..8]) == Some(u.raw[0..4]) && Decode(t[9..13]) == Some(u.raw[4..6])
      && Decode(t[14..18]) == Some(u.raw[6..8]) && Decode(t[19..23]) == Some(u.raw[8..10])
      && Decode(t[24..36]) == Some(u.raw[10..16])
  {
    var t := StripPrefix(s);
    assert WellFormed(t);
    assert IsHyphenPosition(8) && IsHyphenPosition(13) && IsHyphenPosition(18) && IsHyphenPosition(23);
    GroupsDecodeIffWellFormed(t);
    var a, b, c, d, e := Decode(t[0..8]).value, Decode(t[9..13]).value, Decode(t[14..18]).value,
      Decode(t[19..23]).value, Decode(t[24..36]).value;
    ParseOfGroups(s, a, b, c, d, e);
    GroupSlices(a, b, c, d, e);
  }

  lemma GroupSlices(a: seq<Byte>, b: seq<Byte>, c: seq<Byte>, d: seq<Byte>, e: seq<Byte>)
    requires |a| == 4 && |b| == 2 && |c| == 2 && |d| == 2 && |e| == 6
    ensures var r := a + b + c + d + e;
      r[0..4] == a && r[4..6] == b && r[6..8] == c && r[8..10] == d && r[10..16] == e
  {
  }

  lemma LowerStringOfGroups(t: string)
    requires WellFormed(t)
    ensures LowerString(t) == LowerString(t[0..8]) + "-" + LowerString(t[9..13]) + "-"
      + LowerString(t[14..18]) + "-" + LowerString(t[19..23]) + "-" + LowerString(t[24..36])
  {
    var r := LowerString(t[0..8]) + "-" + LowerString(t[9..13]) + "-"
      + LowerString(t[14..18]) + "-" + LowerString(t[19..23]) + "-" + LowerString(t[24..36]);
    forall i | 0 <= i < FORMATTED_LENGTH ensures LowerString(t)[i] == r[i] {
      if i < 8 { assert r[i] == LowerString(t[0..8])[i]; }
      else if i == 8 { assert r[i] == '-'; }
      else if i < 13 { assert r[i] == LowerString(t[9..13])[i - 9]; }
      else if i == 13 { assert r[i] == '-'; }
      else if i < 18 { assert r[i] == LowerString(t[14..18])[i - 14]; }
      else if i == 18 { assert r[i] == '-'; }
      else if i < 23 { assert r[i] == LowerString(t[19..23])[i - 19]; }
      else if i == 23 { assert r[i] == '-'; }
      else { assert r[i] == LowerString(t[24..36])[i - 24]; }
    }
  }

  /** Canonical text parses, and writing the UUID back gives exactly that text. */
  lemma CanonicalRoundTrip(t: string)
    requires Canonical(t)
    ensures Parse(t).Ok? && ToString(Parse(t).value) == t
  {
    StripCanonical(t);
    assert WellFormed(t);
    ToStringOfParse(t, Parse(t).value);
    LowerCanonical(t);
  }

  lemma LowerCanonical(t: string)
    requires Canonical(t)
    ensures LowerString(t) == t
  {
    forall i | 0 <= i < |t| ensures LowerString(t)[i] == t[i] {
      assert IsHyphenPosition(i) || IsCasedDigit(t[i], false);
    }
  }
}
