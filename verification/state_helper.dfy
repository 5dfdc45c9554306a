/**
 Node-identifier helpers: the MAC address text form `AA-BB-CC-DD-EE-FF`
 and the shape of a randomly generated node identifier.
 */
module StateHelper {
  import opened Bytes
  import opened Results
  import opened Hex

  const NODE_ID_BYTE_LENGTH: nat := 6

  /** Length of `AA-BB-CC-DD-EE-FF`. */
  const MAC_ADDRESS_LENGTH: nat := 17

  type NodeId = s: seq<Byte> | |s| == NODE_ID_BYTE_LENGTH witness [0, 0, 0, 0, 0, 0]

  /** Two-digit groups joined by hyphens: every third character a hyphen, the rest digits. */
  predicate MacShaped(s: string) {
    && |s| % 3 == 2
    && forall i :: 0 <= i < |s| ==> if i % 3 == 2 then s[i] == '-' else IsHexDigit(s[i])
  }

  /** Every character off the hyphen positions is an upper-case digit. */
  predicate UpperGroupDigits(s: string) {
    forall i :: 0 <= i < |s| && i % 3 != 2 ==> IsCasedDigit(s[i], true)
  }

  /** `encodeMACAddress`: upper-case two-digit groups, one per byte, joined by hyphens. */
  function EncodeMac(bs: seq<Byte>): (s: string)
    ensures |bs| > 0 ==> |s| == 3 * |bs| - 1 && MacShaped(s)
    ensures UpperGroupDigits(s)
  {
    if |bs| == 0 then ""
    else
      var head := ByteDigits(bs[0], true);
      UpperByteDigits(bs[0]);
      if |bs| == 1 then
        MacShapedSplit(head);
        head
      else
        var rest := EncodeMac(bs[1..]);
        var s := head + "-" + rest;
        assert s[3..] == rest;
        MacShapedSplit(s);
        GroupDigitsSplit(s);
        s
  }

  lemma UpperByteDigits(b: Byte)
    ensures var d := ByteDigits(b, true);
      IsCasedDigit(d[0], true) && IsCasedDigit(d[1], true) && IsHexDigit(d[0]) && IsHexDigit(d[1])
  {
  }

  lemma GroupDigitsSplit(s: string)
    requires |s| > 2
    ensures UpperGroupDigits(s) <==>
      IsCasedDigit(s[0], true) && IsCasedDigit(s[1], true) && UpperGroupDigits(s[3..])
  {
    if IsCasedDigit(s[0], true) && IsCasedDigit(s[1], true) && UpperGroupDigits(s[3..]) {
      forall i | 3 <= i < |s| && i % 3 != 2 ensures IsCasedDigit(s[i], true) {
        assert s[i] == s[3..][i - 3];
      }
    }
  }

  /** The bytes of hyphen-separated two-digit groups; absent if the text has another shape. */
  function DecodeGroups(s: string): (r: Option<seq<Byte>>)
    ensures r.Some? <==> MacShaped(s)
    ensures r.Some? ==> |r.value| == (|s| + 1) / 3
    decreases |s|
  {
    if |s| < 2 then None
    else
      MacShapedSplit(s);
      match DigitPair(s[0], s[1])
      case None => None
      case Some(b) =>
        if |s| == 2 then Some([b])
        else if s[2] != '-' then None
        else match DecodeGroups(s[3..])
          case None => None
          case Some(rest) => Some([b] + rest)
  }

  lemma MacShapedSplit(s: string)
    requires |s| >= 2
    ensures |s| == 2 ==> (MacShaped(s) <==> IsHexDigit(s[0]) && IsHexDigit(s[1]))
    ensures |s| > 2 ==> (MacShaped(s) <==>
      IsHexDigit(s[0]) && IsHexDigit(s[1]) && s[2] == '-' && MacShaped(s[3..]))
  {
    if |s| > 2 && IsHexDigit(s[0]) && IsHexDigit(s[1]) && s[2] == '-' && MacShaped(s[3..]) {
      forall i | 3 <= i < |s| ensures if i % 3 == 2 then s[i] == '-' else IsHexDigit(s[i]) {
        assert s[i] == s[3..][i - 3];
      }
    }
  }

  /** `decodeMACAddress`: six hyphen-separated two-digit groups of either case, or nothing. */
  function DecodeMac(s: string): (r: Option<NodeId>)
    ensures r.Some? <==> |s| == MAC_ADDRESS_LENGTH && MacShaped(s)
  {
    match DecodeGroups(s)
    case Some(bs) => if |bs| == NODE_ID_BYTE_LENGTH then Some(bs) else None
    case None => None
  }

  /** Decoding inverts encoding on non-empty byte strings. */
  lemma {:induction false} DecodeGroupsOfEncode(bs: seq<Byte>)
    requires |bs| > 0
    ensures DecodeGroups(EncodeMac(bs)) == Some(bs)
  {
    DigitPairOfByteDigits(bs[0], true);
    if |bs| > 1 {
      var s := EncodeMac(bs);
      assert s[3..] == EncodeMac(bs[1..]);
      DecodeGroupsOfEncode(bs[1..]);
      assert [bs[0]] + bs[1..] == bs;
    } else {
      assert bs == [bs[0]];
    }
  }

  /** Upper-casing acts on the first group with its hyphen and on the rest separately. */
  lemma UpperStringSplit(s: string)
    requires |s| > 2
    ensures UpperString(s) == [ToUpper(s[0]), ToUpper(s[1]), ToUpper(s[2])] + UpperString(s[3..])
  {
    var r := [ToUpper(s[0]), ToUpper(s[1]), ToUpper(s[2])] + UpperString(s[3..]);
    forall i | 3 <= i < |s| ensures UpperString(s)[i] == r[i] {
      assert r[i] == UpperString(s[3..])[i - 3];
    }
  }

  /** Re-encoding decoded text gives the text in upper case. */
  lemma {:induction false} EncodeOfDecodeGroups(s: string, bs: seq<Byte>)
    requires DecodeGroups(s) == Some(bs)
    ensures EncodeMac(bs) == UpperString(s)
    decreases |s|
  {
    var b := DigitPair(s[0], s[1]).value;
    ByteDigitsOfDigitPair(s[0], s[1], b, true);
    if |s| > 2 {
      assert s[2] == '-';
      var rest := DecodeGroups(s[3..]).value;
      assert bs == [b] + rest;
      assert |rest| > 0;
      assert EncodeMac(bs) == ByteDigits(b, true) + "-" + EncodeMac(rest) by {
        assert bs[0] == b && bs[1..] == rest;
      }
      EncodeOfDecodeGroups(s[3..], rest);
      UpperStringSplit(s);
    } else {
      assert bs == [b];
    }
  }

  /** `decodeMACAddress(encodeMACAddress(id)) == id`. */
  lemma DecodeEncodeMac(id: NodeId)
    ensures DecodeMac(EncodeMac(id)) == Some(id)
  {
    DecodeGroupsOfEncode(id);
  }

  /** Whatever decodes re-encodes to itself in upper case; so upper-case addresses round-trip. */
  lemma EncodeDecodeMac(s: string, id: NodeId)
    requires DecodeMac(s) == Some(id)
    ensures EncodeMac(id) == UpperString(s)
  {
    EncodeOfDecodeGroups(s, id);
  }

  /** Java's `b >> 7` on a signed byte: -1 exactly when the top bit is set. */
  function SignedShiftRight7(b: Byte): (x: int)
    ensures x == -1 <==> b >= 0x80
    ensures x == 0 <==> b < 0x80
  {
    SignedByte(b) / 0x80
  }

  /**
   `randomNodeIdentifier`: six random bytes with the top bit of the first byte
   forced on, marking the identifier as not a real adapter address.
   */
  function RandomNodeIdentifier(random: NodeId): (id: NodeId)
    ensures SignedShiftRight7(id[0]) == -1
    ensures id[0] % 0x80 == random[0] % 0x80
    ensures id[1..] == random[1..]
  {
    [random[0] % 0x80 + 0x80] + random[1..]
  }
}
