/**
 Known values the library documents for its UUID type, stated against the
 model: each lemma pins one accessor or constructor to a concrete input.
 */
module UuidExamples {
  import opened Bytes
  import opened Results
  import opened UuidValue
  import opened UuidText
  import opened Hex

  /** b4f00409-cef8-4822-802c-deb20704c365, the library's running example. */
  const EXAMPLE: Uuid := Uuid([0xb4, 0xf0, 0x04, 0x09, 0xce, 0xf8, 0x48, 0x22,
                               0x80, 0x2c, 0xde, 0xb2, 0x07, 0x04, 0xc3, 0x65])

  /** `n` is the big-endian reading of `bs`, shown by writing `n` out. */
  lemma ReadsAs(bs: seq<Byte>, n: nat)
    requires n < Pow256(|bs|) && ToBytes(n, |bs|) == bs
    ensures Unsigned(bs) == n
  {
    UnsignedOfToBytes(n, |bs|);
  }

  lemma ExampleHigh()
    ensures Unsigned(EXAMPLE.raw[..8]) == 0xb4f00409cef84822
  {
    Pow256Values();
    assert ToBytes(0xb4f00409cef84822, 8) == [0xb4, 0xf0, 0x04, 0x09, 0xce, 0xf8, 0x48, 0x22];
    ReadsAs(EXAMPLE.raw[..8], 0xb4f00409cef84822);
  }

  lemma ExampleLow()
    ensures Unsigned(EXAMPLE.raw[8..]) == 0x802cdeb20704c365
  {
    Pow256Values();
    assert ToBytes(0x802cdeb20704c365, 8) == [0x80, 0x2c, 0xde, 0xb2, 0x07, 0x04, 0xc3, 0x65];
    ReadsAs(EXAMPLE.raw[8..], 0x802cdeb20704c365);
  }

  /** The two Java `long` halves of the running example rebuild it. */
  lemma ExampleFromLongs()
    ensures FromLongs(-5408818712298371038, -9210742281676209307) == EXAMPLE
  {
    ExampleHigh();
    ExampleLow();
    FromLongsOfHalves(EXAMPLE);
  }

  lemma ExampleTimeLowText()
    ensures Encode(EXAMPLE.raw[0..4], false) == "b4f00409"
  {
    assert EXAMPLE.raw[0..4] == [0xb4, 0xf0] + [0x04, 0x09];
    EncodeAppend([0xb4, 0xf0], [0x04, 0x09], false);
  }

  lemma ExampleMiddleText()
    ensures Encode(EXAMPLE.raw[4..6], false) == "cef8"
    ensures Encode(EXAMPLE.raw[6..8], false) == "4822"
    ensures Encode(EXAMPLE.raw[8..10], false) == "802c"
  {
    assert EXAMPLE.raw[4..6] == [0xce, 0xf8];
    assert EXAMPLE.raw[6..8] == [0x48, 0x22];
    assert EXAMPLE.raw[8..10] == [0x80, 0x2c];
  }

  lemma NodeFrontText()
    ensures Encode([0xde, 0xb2, 0x07, 0x04], false) == "deb20704"
  {
    EncodeAppend([0xde, 0xb2], [0x07, 0x04], false);
    assert [0xde, 0xb2] + [0x07, 0x04] == [0xde, 0xb2, 0x07, 0x04];
  }

  lemma NodeText()
    ensures Encode([0xde, 0xb2, 0x07, 0x04, 0xc3, 0x65], false) == "deb20704c365"
  {
    NodeFrontText();
    EncodeAppend([0xde, 0xb2, 0x07, 0x04], [0xc3, 0x65], false);
    assert [0xde, 0xb2, 0x07, 0x04] + [0xc3, 0x65] == [0xde, 0xb2, 0x07, 0x04, 0xc3, 0x65];
  }

  lemma ExampleNodeText()
    ensures Encode(EXAMPLE.raw[10..16], false) == "deb20704c365"
  {
    NodeText();
    assert EXAMPLE.raw[10..16] == [0xde, 0xb2, 0x07, 0x04, 0xc3, 0x65];
  }

  lemma ExampleJoin()
    ensures "b4f00409" + "-" + "cef8" + "-" + "4822" + "-" + "802c" + "-" + "deb20704c365"
      == "b4f00409-cef8-4822-802c-deb20704c365"
  {
  }

  /** The running example is written `b4f00409-cef8-4822-802c-deb20704c365`, time_low first. */
  lemma ExampleToString()
    ensures ToString(EXAMPLE) == "b4f00409-cef8-4822-802c-deb20704c365"
  {
    ExampleTimeLowText();
    ExampleMiddleText();
    ExampleNodeText();
    ToStringOfGroups(EXAMPLE, "b4f00409", "cef8", "4822", "802c", "deb20704c365");
    ExampleJoin();
  }

  /** The lower-case text of the running example parses to it. */
  lemma ExampleParse()
    ensures Parse("b4f00409-cef8-4822-802c-deb20704c365") == Ok(EXAMPLE)
  {
    ExampleToString();
    ParseToString(EXAMPLE);
  }

  lemma ClockSequenceExample()
    ensures ClockSequence(Uuid([0xc0, 0x79, 0xef, 0x59, 0xf5, 0xb1, 0x18, 0x01,
                                0xa3, 0x48, 0xc3, 0x84, 0x29, 0xe6, 0x1b, 0xe7])) == 9032
  {
  }

  const TIMESTAMP_EXAMPLE: Uuid := Uuid([0xf8, 0x63, 0x6b, 0x90, 0xb2, 0x07, 0x11, 0xd8,
                                         0xb2, 0x31, 0xe3, 0x3c, 0x9d, 0xf0, 0x47, 0xca])

  lemma TimestampExampleFields()
    ensures TimeLow(TIMESTAMP_EXAMPLE) == 0xf8636b90
    ensures TimeMid(TIMESTAMP_EXAMPLE) == 0xb207
  {
    var r := TIMESTAMP_EXAMPLE.raw;
    Pow256Values();
    assert r[0..4] == [0xf8, 0x63, 0x6b, 0x90] == ToBytes(0xf8636b90, 4);
    ReadsAs(r[0..4], 0xf8636b90);
    assert r[4..6] == [0xb2, 0x07] == ToBytes(0xb207, 2);
    ReadsAs(r[4..6], 0xb207);
  }

  /** f8636b90-b207-11d8-b231-e33c9df047ca has timestamp 133051936309210000. */
  lemma TimestampExample()
    ensures Timestamp(TIMESTAMP_EXAMPLE) == 133051936309210000
  {
    TimestampExampleFields();
  }

  const NODE_EXAMPLE: Uuid := Uuid([0x54, 0x7f, 0xa1, 0x90, 0xb2, 0x09, 0x11, 0xd8,
                                    0xbc, 0x4e, 0x95, 0xef, 0x8f, 0x69, 0x92, 0x1e])

  /** 547fa190-b209-11d8-bc4e-95ef8f69921e has node 164856135782942. */
  lemma NodeExample()
    ensures Node(NODE_EXAMPLE) == 164856135782942
  {
    Pow256Values();
    assert NODE_EXAMPLE.raw[10..16] == [0x95, 0xef, 0x8f, 0x69, 0x92, 0x1e] == ToBytes(164856135782942, 6);
    ReadsAs(NODE_EXAMPLE.raw[10..16], 164856135782942);
  }

  lemma ZeroGroups()
    ensures Encode([0, 0], false) == "0000"
    ensures Encode([0, 0, 0, 0], false) == "00000000"
    ensures Encode([0, 0, 0, 0, 0, 0], false) == "000000000000"
  {
  }

  lemma NilSlices()
    ensures var z := Nil().raw;
      && z[0..4] == [0, 0, 0, 0] && z[4..6] == [0, 0] && z[6..8] == [0, 0]
      && z[8..10] == [0, 0] && z[10..16] == [0, 0, 0, 0, 0, 0]
  {
  }

  lemma ZeroText()
    ensures "00000000" + "-" + "0000" + "-" + "0000" + "-" + "0000" + "-" + "000000000000"
      == "00000000-0000-0000-0000-000000000000"
  {
  }

  /** The nil UUID is written as all zeros. */
  lemma NilToString()
    ensures ToString(Nil()) == "00000000-0000-0000-0000-000000000000"
  {
    NilSlices();
    ZeroGroups();
    assert ToString(Nil()) == "00000000" + "-" + "0000" + "-" + "0000" + "-" + "0000" + "-" + "000000000000";
    ZeroText();
  }

  /** A text that does not start with either prefix is parsed as it stands. */
  lemma Unprefixed(t: string)
    requires |t| > 0 && t[0] != 'u'
    ensures StripPrefix(t) == t
  {
    assert t[0] != URN_PREFIX[0] && t[0] != SHORT_PREFIX[0];
  }

  /** A non-hexadecimal first character is rejected. */
  lemma NonHexRejected()
    ensures Parse("G4F00409-CEF8-4822-802C-DEB20704C365") == Err(FormatError("G4F00409-CEF8-4822-802C-DEB20704C365"))
  {
    var t := "G4F00409-CEF8-4822-802C-DEB20704C365";
    Unprefixed(t);
    assert !IsHexDigit(t[0]);
  }

  /** One character too many is rejected. */
  lemma TooLongRejected()
    ensures Parse("FF4F00409-CEF8-4822-802C-DEB20704C365").Err?
  {
    Unprefixed("FF4F00409-CEF8-4822-802C-DEB20704C365");
  }

  /** One character too few is rejected. */
  lemma TooShortRejected()
    ensures Parse("4F00409-CEF8-4822-802C-DEB20704C365").Err?
  {
    Unprefixed("4F00409-CEF8-4822-802C-DEB20704C365");
  }

  /** The right length with the fourth hyphen one place late is rejected. */
  lemma MisplacedHyphenRejected()
    ensures Parse("F4F00409-CEF8-4822-802CD-EB20704C365").Err?
  {
    var t := "F4F00409-CEF8-4822-802CD-EB20704C365";
    Unprefixed(t);
    assert t[23] != '-';
  }

  /** The version is the high nibble of byte 6: 0x18, 0x28, 0x38, 0x48, 0x58 give 1 to 5. */
  lemma VersionExamples(u: Uuid)
    ensures u.raw[6] == 0x18 ==> Version(u) == 1
    ensures u.raw[6] == 0x28 ==> Version(u) == 2
    ensures u.raw[6] == 0x38 ==> Version(u) == 3
    ensures u.raw[6] == 0x48 ==> Version(u) == 4
    ensures u.raw[6] == 0x58 ==> Version(u) == 5
  {
  }

  /** 3051a8d7-aea7-3801-e0bf-bc539dd60cf3, labelled "version five" beside the version examples. */
  const LABELLED_VERSION_FIVE: Uuid := Uuid([0x30, 0x51, 0xa8, 0xd7, 0xae, 0xa7, 0x38, 0x01,
                                             0xe0, 0xbf, 0xbc, 0x53, 0x9d, 0xd6, 0x0c, 0xf3])

  /** Byte 6 of that value is 0x38, so its version is three, not five. */
  lemma LabelledVersionFiveIsThree()
    ensures Version(LABELLED_VERSION_FIVE) == 3
    ensures Version(LABELLED_VERSION_FIVE) != 5
  {
  }

  /** Byte 8 of 0x3f, 0xbf, 0xdf and 0xff selects each variant family in turn. */
  lemma VariantExamples(u: Uuid)
    ensures u.raw[8] == 0x3f ==> Variant(u) == NcsCompat && Variant(u).Code() == 0
    ensures u.raw[8] == 0xbf ==> Variant(u) == IetfDraft && Variant(u).Code() == 2
    ensures u.raw[8] == 0xdf ==> Variant(u) == Microsoft && Variant(u).Code() == 6
    ensures u.raw[8] == 0xff ==> Variant(u) == Future && Variant(u).Code() == 7
  {
  }

  /** All-ones except byte 7, which is `b`. */
  function OnesBut7(b: Byte): Uuid {
    Uuid([0xff, 0xff, 0xff, 0xff, 0xff, 0xff, 0xff, b,
          0xff, 0xff, 0xff, 0xff, 0xff, 0xff, 0xff, 0xff])
  }

  /** The high half of `OnesBut7(b)` is the Java long `b - 256`. */
  lemma OnesBut7High(b: Byte)
    ensures MostSignificantBits(OnesBut7(b)) == b - 0x100
  {
    Pow256Values();
    var n := 0xffff_ffff_ffff_ff00 + b;
    assert n / 0x100 == 0xff_ffff_ffff_ffff && n % 0x100 == b;
    assert ToBytes(0xff_ffff_ffff_ffff, 7) == [0xff, 0xff, 0xff, 0xff, 0xff, 0xff, 0xff];
    assert ToBytes(n, 8) == ToBytes(0xff_ffff_ffff_ffff, 7) + [b];
    assert ToBytes(n, 8) == OnesBut7(b).raw[..8];
    ReadsAs(OnesBut7(b).raw[..8], n);
  }

  /**
   The ordering is signed: ...ffef... sits above ...ffdf... and below the
   all-ones UUID, although all three high halves are negative as Java longs.
   */
  lemma CompareToExamples()
    ensures CompareTo(OnesBut7(0xef), OnesBut7(0xdf)) == 1
    ensures CompareTo(OnesBut7(0xef), OnesBut7(0xef)) == 0
    ensures CompareTo(OnesBut7(0xef), OnesBut7(0xff)) == -1
    ensures MostSignificantBits(OnesBut7(0xef)) == -17
  {
    OnesBut7High(0xef);
    OnesBut7High(0xdf);
    OnesBut7High(0xff);
  }
}
