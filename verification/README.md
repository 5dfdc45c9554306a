# commons-id UUIDs in Dafny

A model of the UUID support in Apache Commons Id, in the terms its tests use.

- **The `UUID` value type** (module `UuidValue`).
  - A UUID is sixteen raw bytes, laid out as in section 4.1.2 of RFC 4122.
  - It can be built from a byte array, from a byte source that may run dry, or from two Java `long` halves.
  - `compareTo` compares the signed halves.
  - The accessors are `version`, `variant`, `timestamp`, `clockSequence` and `node`.
  - Name-based construction overlays a version and the IETF variant on a message digest.
- **The string forms** (module `UuidText`).
  - `toString` writes the lower-case 8-4-4-4-12 text, and `toUrn` writes the same behind `urn:uuid:`.
  - The string constructor and `fromString` are one strict parser. It accepts an optional `urn:uuid:` or `uuid:` prefix and digits of either case.
- **`StateHelper`** (module `StateHelper`).
  - The MAC address codec between `AA-BB-CC-DD-EE-FF` and six bytes.
  - The shape of a random node identifier: the top bit of its first byte is set, so a Java `byte` shift by 7 gives -1.
- **`Node`** (module `NodeState`).
  - A node record: identifier, last timestamp and clock sequence.
  - Its identity is the identifier alone, for both `equals` and `hashCode`.
  - `getUUIDTime` records each clock reading. The model also advances the clock sequence there when the clock has not moved forward (see "Left out").
- **`NodeManagerImpl`** (module `NodeManager`). `init` selects the first loaded node; `nextAvailableNode` moves to the next one, cyclically.
- **Documented values** (modules `UuidExamples` and `StateExamples`): a selection of the concrete values from the library's tests, as lemmas. "Left out" lists the vectors covered only by the general lemmas.

Modelling choices:
- Bytes are the integers 0..255. Java's signed `byte`, `short` and `long` are recovered through explicit two's-complement conversions in module `Bytes`.
- Hexadecimal text is handled by module `Hex`.
- Exceptions become `Result`/`Option` values (module `Results`).
- Three inputs are parameters rather than computed: the clock reading, the random bytes, and the message digest.

The Java classes `UUID`, `StateHelper`, `Node` and `NodeManagerImpl` are not part of this model, only their tests. So each contract below states what the tests and RFC 4122 require of those classes.

Two places where the model has to pick one reading:
- The tests call the top bit of the first node byte the "multicast bit". Section 4.5 of RFC 4122 places the multicast bit in the least significant bit of the first octet. The model follows the tests and sets the top bit.
- The clock sequence, when the clock has not advanced, goes to the next value modulo 2^13. For a run of readings the model proves two things: no reading repeats the pair handed out just before it, and no two of any 2^13 consecutive readings hand out the same (timestamp, clock sequence) pair. The pairs are not strictly increasing in (timestamp, sequence) order: after a regression the timestamp drops.

## Model

| member | source | states |
|---|---|---|
| UuidValue.Nil | src/test/org/apache/commons/id/uuid/UUIDTest.java:44-53 | the nil UUID has every byte zero |
| UuidExamples.NilToString | src/test/org/apache/commons/id/uuid/UUIDTest.java:49-53 | the nil UUID is written `00000000-0000-0000-0000-000000000000` |
| UuidValue.ReadFrom | src/test/org/apache/commons/id/uuid/UUIDTest.java:94-130 | reading from a byte source fails exactly when fewer than sixteen bytes are available, reporting how many were needed and found; otherwise the UUID is the first sixteen bytes and the remaining bytes are left unread |
| UuidValue.FromBytes | src/test/org/apache/commons/id/uuid/UUIDTest.java:77-86 | the byte-array constructor accepts exactly sixteen bytes and keeps them as the raw bytes; any other length is a wrong-length error |
| UuidValue.FromBytesOfRaw | src/test/org/apache/commons/id/uuid/UUIDTest.java:160-169 | rebuilding a UUID from its raw bytes gives the same UUID |
| UuidValue.ReadFromAgreesWithFromBytes | src/test/org/apache/commons/id/uuid/UUIDTest.java:94-110 | a byte source yields a UUID exactly when it holds sixteen bytes, and that UUID is the one the byte-array constructor builds from them |
| UuidValue.ReadFromWritten | src/test/org/apache/commons/id/uuid/UUIDTest.java:97-110 | writing a UUID's raw bytes to a source and reading it back gives the same UUID, whatever follows |
| UuidValue.FromLongs | src/test/org/apache/commons/id/uuid/UUIDTest.java:143-153 | the UUID built from two longs has exactly those longs as its big-endian signed halves |
| UuidValue.FromLongsOfHalves | src/test/org/apache/commons/id/uuid/UUIDTest.java:143-153 | every UUID is the one built from its own two halves, so the long constructor and the byte form describe the same values |
| UuidValue.HalvesDetermine | src/test/org/apache/commons/id/uuid/UUIDTest.java:143-153 | two UUIDs are equal if and only if both their halves are equal |
| UuidExamples.ExampleFromLongs | src/test/org/apache/commons/id/uuid/UUIDTest.java:143-153 | the longs -5408818712298371038 and -9210742281676209307 build b4f00409-cef8-4822-802c-deb20704c365 |
| UuidText.ToString | src/test/org/apache/commons/id/uuid/UUIDTest.java:339-346 | the string form is 36 characters, with hyphens at positions 8, 13, 18 and 23 and lower-case hexadecimal digits everywhere else |
| UuidText.ToUrn | src/test/org/apache/commons/id/uuid/UUIDTest.java:353-357 | the URN form is `urn:uuid:` followed by a canonical string form |
| UuidText.StripPrefix | src/test/org/apache/commons/id/uuid/UUIDTest.java:171-178 | the text with a leading `urn:uuid:` or `uuid:` removed, never longer than the input; its meaning is stated by the four rows below |
| UuidText.StripPrefixCuts | src/test/org/apache/commons/id/uuid/UUIDTest.java:171-179 | stripping keeps a tail of the text, and what it cuts off is `urn:uuid:`, `uuid:` or nothing |
| UuidText.StripUrn | src/test/org/apache/commons/id/uuid/UUIDTest.java:171-173 | a leading `urn:uuid:` is removed, whatever follows it |
| UuidText.StripShort | src/test/org/apache/commons/id/uuid/UUIDTest.java:227-229 | a leading `uuid:` is removed, whatever follows it |
| UuidText.StripCanonical | src/test/org/apache/commons/id/uuid/UUIDTest.java:339-346 | canonical text has no prefix, so nothing is removed from it |
| UuidText.Parse | src/test/org/apache/commons/id/uuid/UUIDTest.java:160-215 | parsing succeeds if and only if the unprefixed text is 36 characters with hyphens exactly at 8, 13, 18 and 23 and hex digits of either case elsewhere; any other text gives a format error naming the input |
| UuidText.ParseToString | src/test/org/apache/commons/id/uuid/UUIDTest.java:160-169 | parsing the string form of any UUID gives back that UUID |
| UuidText.ParsePrefixed | src/test/org/apache/commons/id/uuid/UUIDTest.java:222-229 | the URN form and the `uuid:`-prefixed form of any UUID both parse to that UUID |
| UuidText.PrefixIrrelevant | src/test/org/apache/commons/id/uuid/UUIDTest.java:171-179 | for well-formed text, the bare, `uuid:`-prefixed and `urn:uuid:`-prefixed versions all parse, to the same UUID |
| UuidText.ToStringInjective | src/test/org/apache/commons/id/uuid/UUIDTest.java:160-169 | two UUIDs have the same string form if and only if they are equal |
| UuidText.ToStringOfParse | src/test/org/apache/commons/id/uuid/UUIDTest.java:230-233 | whatever text parses, the parsed UUID's string form is that text without its prefix and with its letters lower-cased |
| UuidText.CanonicalRoundTrip | src/test/org/apache/commons/id/uuid/UUIDTest.java:339-346 | every lower-case 8-4-4-4-12 text parses, and the parsed UUID writes back exactly that text |
| UuidExamples.ExampleToString | src/test/org/apache/commons/id/uuid/UUIDTest.java:77-86 | the bytes b4 f0 04 09 ce f8 48 22 80 2c de b2 07 04 c3 65 are written `b4f00409-cef8-4822-802c-deb20704c365`, time_low first |
| UuidExamples.ExampleParse | src/test/org/apache/commons/id/uuid/UUIDTest.java:77-86 | `b4f00409-cef8-4822-802c-deb20704c365` parses to those sixteen bytes |
| UuidExamples.NonHexRejected | src/test/org/apache/commons/id/uuid/UUIDTest.java:184-189 | text whose first character `G` is not a hexadecimal digit is rejected with a format error naming the text |
| UuidExamples.TooLongRejected | src/test/org/apache/commons/id/uuid/UUIDTest.java:191-197 | a 37-character text with an extra leading digit is rejected |
| UuidExamples.TooShortRejected | src/test/org/apache/commons/id/uuid/UUIDTest.java:199-205 | a 35-character text missing one leading digit is rejected |
| UuidExamples.MisplacedHyphenRejected | src/test/org/apache/commons/id/uuid/UUIDTest.java:207-213 | a text of the right length whose fourth hyphen is one place to the right is rejected |
| UuidValue.CompareTo | src/test/org/apache/commons/id/uuid/UUIDTest.java:364-372 | `compareTo` answers -1, 0 or +1, and 0 if and only if the UUIDs are equal |
| UuidValue.CompareToIsKeyOrder | src/test/org/apache/commons/id/uuid/UUIDTest.java:364-372 | `compareTo` is the sign of the difference of a single integer key: the signed high half, then the low half, as a lexicographic pair |
| UuidValue.CompareToAntisymmetric | src/test/org/apache/commons/id/uuid/UUIDTest.java:364-372 | swapping the operands negates the answer |
| UuidValue.CompareToTransitive | src/test/org/apache/commons/id/uuid/UUIDTest.java:364-372 | the order is transitive |
| UuidExamples.CompareToExamples | src/test/org/apache/commons/id/uuid/UUIDTest.java:364-372 | ...ffef... compares above ...ffdf..., equal to itself and below the all-ones UUID, although all three high halves are negative |
| UuidValue.Version | src/test/org/apache/commons/id/uuid/UUIDTest.java:390-399 | the version is the high nibble of byte 6 |
| UuidExamples.VersionExamples | src/test/org/apache/commons/id/uuid/UUIDTest.java:391-399 | byte 6 of 0x18, 0x28, 0x38, 0x48 or 0x58 gives version 1, 2, 3, 4 or 5 |
| UuidExamples.LabelledVersionFiveIsThree | src/test/org/apache/commons/id/uuid/UUIDTest.java:395-400 | the value labelled "version five" has byte 6 of 0x38 and so version three |
| UuidValue.Variant | src/test/org/apache/commons/id/uuid/UUIDTest.java:408-418 | the variant is the family whose leading bits byte 8 carries: 0 (NCS), 10 (IETF), 110 (Microsoft), 111 (future) |
| UuidValue.VariantExactly | src/test/org/apache/commons/id/uuid/UUIDTest.java:408-418 | byte 8 matches exactly one family's leading-bit pattern, and that family is the variant |
| UuidExamples.VariantExamples | src/test/org/apache/commons/id/uuid/UUIDTest.java:409-417 | byte 8 of 0x3f, 0xbf, 0xdf or 0xff gives codes 0, 2, 6 or 7 |
| UuidValue.ClockSequence | src/test/org/apache/commons/id/uuid/UUIDTest.java:378-383 | the clock sequence is a non-negative 14-bit short: the low six bits of byte 8 are its high byte and byte 9 its low byte, whatever the variant |
| UuidExamples.ClockSequenceExample | src/test/org/apache/commons/id/uuid/UUIDTest.java:378-383 | c079ef59-f5b1-1801-a348-c38429e61be7 has clock sequence 9032 |
| UuidValue.Timestamp | src/test/org/apache/commons/id/uuid/UUIDTest.java:425-430 | the timestamp is below 2^60; its low 32 bits are time_low, the next 16 are time_mid, and the top 12 are time_hi without the version nibble |
| UuidExamples.TimestampExample | src/test/org/apache/commons/id/uuid/UUIDTest.java:425-430 | f8636b90-b207-11d8-... has timestamp 133051936309210000 |
| UuidValue.Node | src/test/org/apache/commons/id/uuid/UUIDTest.java:437-442 | the node is bytes 10..15 read big-endian, a 48-bit value |
| UuidValue.TimeLow | src/test/org/apache/commons/id/uuid/UUIDTest.java:425-430 | time_low is bytes 0..3 read big-endian |
| UuidValue.TimeMid | src/test/org/apache/commons/id/uuid/UUIDTest.java:425-430 | time_mid is bytes 4..5 read big-endian |
| UuidExamples.NodeExample | src/test/org/apache/commons/id/uuid/UUIDTest.java:437-442 | ...-95ef8f69921e has node 164856135782942 |
| UuidValue.FromFields | src/test/org/apache/commons/id/uuid/UUIDTest.java:425-442 | the UUID assembled from time_low, time_mid, time_hi_and_version, the two clock-sequence bytes and the node reports exactly those fields back |
| UuidValue.FromFieldsOfUuid | src/test/org/apache/commons/id/uuid/UUIDTest.java:425-442 | every UUID is the assembly of its own fields |
| UuidValue.TimeBased | src/test/org/apache/commons/id/uuid/UUIDTest.java:378-442 | the version 1 layout returns the timestamp, clock sequence and node it was given, with version 1 and the IETF variant |
| UuidValue.TimeBasedOfFields | src/test/org/apache/commons/id/uuid/UUIDTest.java:378-442 | every version 1, IETF-variant UUID is the layout of its own timestamp, clock sequence and node |
| UuidValue.WithVersionAndVariant | src/test/org/apache/commons/id/uuid/UUIDTest.java:276-331 | the overlay sets the version nibble and the IETF variant bits and keeps every other bit of the first sixteen digest bytes |
| UuidValue.WithVersionAndVariantEqual | src/test/org/apache/commons/id/uuid/UUIDTest.java:276-331 | two overlays are equal if and only if their inputs agree on every kept bit |
| UuidValue.NameBased | src/test/org/apache/commons/id/uuid/UUIDTest.java:308-319 | a name-based UUID carries the algorithm's version (3 for MD5, 5 for SHA-1) and the IETF variant |
| UuidValue.NameBasedDefault | src/test/org/apache/commons/id/uuid/UUIDTest.java:276-287 | without an algorithm, a name-based UUID uses MD5 and is version 3 with the IETF variant |
| UuidValue.NameBasedEqual | src/test/org/apache/commons/id/uuid/UUIDTest.java:289-297 | two name-based UUIDs are equal if and only if the digests of their namespace-and-name inputs agree on the kept bits; the same inputs always give the same UUID |
| StateHelper.EncodeMac | src/test/org/apache/commons/id/uuid/state/StateHelperTest.java:136-140 | the encoding of n bytes is 3n-1 characters, with two upper-case digits per byte and hyphens between the groups |
| StateHelper.DecodeGroups | src/test/org/apache/commons/id/uuid/state/StateHelperTest.java:126-130 | hyphen-separated two-digit groups decode, one byte per group, if and only if the text has that shape |
| StateHelper.DecodeMac | src/test/org/apache/commons/id/uuid/state/StateHelperTest.java:126-130 | a MAC address decodes to six bytes if and only if it is 17 characters in the six-group shape |
| StateHelper.DecodeGroupsOfEncode | src/test/org/apache/commons/id/uuid/state/StateHelperTest.java:126-140 | decoding the encoding of any non-empty byte string gives it back |
| StateHelper.EncodeOfDecodeGroups | src/test/org/apache/commons/id/uuid/state/StateHelperTest.java:126-140 | encoding what any text decodes to gives that text upper-cased |
| StateHelper.DecodeEncodeMac | src/test/org/apache/commons/id/uuid/state/StateHelperTest.java:126-140 | decoding the encoding of any six-byte identifier gives it back |
| StateHelper.EncodeDecodeMac | src/test/org/apache/commons/id/uuid/state/StateHelperTest.java:126-140 | a decodable address re-encodes to itself upper-cased, so upper-case addresses round-trip |
| StateExamples.MacExample | src/test/org/apache/commons/id/uuid/state/StateHelperTest.java:126-140 | `02-00-4C-4F-4F-50` and the bytes 02 00 4C 4F 4F 50 encode and decode to each other |
| StateHelper.SignedShiftRight7 | src/test/org/apache/commons/id/uuid/state/StateHelperTest.java:51-52 | a signed byte shifted right by 7 is -1 if and only if its top bit is set, and 0 otherwise |
| StateHelper.RandomNodeIdentifier | src/test/org/apache/commons/id/uuid/state/StateHelperTest.java:47-53 | a random identifier has six bytes; its first byte's shift by 7 is -1; the rest of the random bits are kept |
| NodeState.NewNode | src/test/org/apache/commons/id/uuid/state/NodeTest.java:58-62 | `Node(id)` keeps the identifier and starts with a non-zero clock sequence |
| NodeState.GetUuidTime | src/test/org/apache/commons/id/uuid/state/NodeTest.java:126-131 | `getUUIDTime` returns the reading and records it as the last timestamp; the clock sequence is kept if the reading is later than the last timestamp, and otherwise becomes its successor modulo 2^13 |
| NodeState.NextClockSequence | src/test/org/apache/commons/id/uuid/state/NodeTest.java:100-104 | the next clock sequence is in 0..2^13, differs from the current one, is its successor below the wrap, and wraps from 2^13-1 to 0; the test builds a node with a clock sequence but shows no regression, so this policy is the model's (see "Left out") |
| NodeState.HistoryNeverRepeats | src/test/org/apache/commons/id/uuid/state/NodeTest.java:100-104 | for any sequence of clock readings, even one that runs backwards, no reading hands out the same (timestamp, clock sequence) pair as the one before it; no test shows the regression policy |
| NodeState.SequenceDrift | src/test/org/apache/commons/id/uuid/state/NodeTest.java:100-104 | between two readings the clock sequence moves on by the number of readings in between that did not pass the one before them, modulo 2^13 |
| NodeState.HistoryWindowDistinct | src/test/org/apache/commons/id/uuid/state/NodeTest.java:100-104 | starting from a 13-bit clock sequence, no two of any 2^13 consecutive readings hand out the same (timestamp, clock sequence) pair, whatever the clock does; no test shows the regression policy |
| NodeState.ForwardClockKeepsSequence | src/test/org/apache/commons/id/uuid/state/NodeTest.java:126-131 | if each reading is later than the one before, every record in the history keeps the starting clock sequence |
| NodeState.SameNode | src/test/org/apache/commons/id/uuid/state/NodeTest.java:110-119 | `equals` compares the identifier bytes alone |
| NodeState.SameNodeIsIdentity | src/test/org/apache/commons/id/uuid/state/NodeTest.java:110-119 | node equality is reflexive, symmetric and transitive, and ignores the timestamp and clock sequence |
| NodeState.HashCode | src/test/org/apache/commons/id/uuid/state/NodeTest.java:43-50 | `hashCode` is a 32-bit value computed from the identifier alone, by the array-hash formula named under "Left out" |
| NodeState.HashCodeConsistent | src/test/org/apache/commons/id/uuid/state/NodeTest.java:43-47 | equal nodes have equal hash codes |
| NodeState.HashLastByteDistinct | src/test/org/apache/commons/id/uuid/state/NodeTest.java:48-50 | identifiers that differ only in their last byte have different array hashes |
| StateExamples.NodeIdentityExample | src/test/org/apache/commons/id/uuid/state/NodeTest.java:43-50 | two records for 02-00-4C-4F-4F-50 are equal with equal hashes; a record for 02-00-4C-4F-4F-55 differs in both |
| NodeManager.Init | src/test/org/apache/commons/id/uuid/NodeManagerImplTest.java:51-57 | `init` selects the first loaded node, or a single fallback node when nothing was loaded |
| NodeManager.CurrentNode | src/test/org/apache/commons/id/uuid/NodeManagerImplTest.java:56-57 | `currentNode` is present if and only if the manager has been initialised, and is one of the loaded nodes |
| NodeManager.Step | src/test/org/apache/commons/id/uuid/NodeManagerImplTest.java:58-62 | the next index is (index + 1) mod n |
| NodeManager.NextAvailableNode | src/test/org/apache/commons/id/uuid/NodeManagerImplTest.java:58-62 | after `init`, `nextAvailableNode` moves the selection to (index + 1) mod n, keeps the node list, and returns the newly selected node; before `init` it returns nothing |
| NodeManager.AdvanceRotates | src/test/org/apache/commons/id/uuid/NodeManagerImplTest.java:58-62 | k calls move the selection k places round the node list |
| NodeManager.RotateIsMod | src/test/org/apache/commons/id/uuid/NodeManagerImplTest.java:58-62 | k places round from index c is index (c + k) mod n |
| NodeManager.RotateFull | src/test/org/apache/commons/id/uuid/NodeManagerImplTest.java:61-62 | n places round a list of n nodes returns to the starting index |
| NodeManager.FullCycle | src/test/org/apache/commons/id/uuid/NodeManagerImplTest.java:61-62 | as many calls as there are nodes bring the manager back to the state it started in |
| NodeManager.NextIsAnotherNode | src/test/org/apache/commons/id/uuid/NodeManagerImplTest.java:58-60 | with two or more nodes, the next node is never equal to the current one |
| NodeManager.TwoNodeScenario | src/test/org/apache/commons/id/uuid/NodeManagerImplTest.java:51-63 | with two loaded nodes: the first is current, the first call returns the other one, and the second call wraps back to the first |
| Hex.DecodeEncode | src/test/org/apache/commons/id/uuid/UUIDTest.java:77-87 | hexadecimal decoding inverts encoding, in either case |
| Hex.EncodeDecode | src/test/org/apache/commons/id/uuid/UUIDTest.java:77-87 | re-encoding decoded hexadecimal gives the text in the chosen case |
| Bytes.UnsignedOfToBytes | src/test/org/apache/commons/id/uuid/UUIDTest.java:143-153 | writing a number as k big-endian bytes and reading them back gives the number |
| Bytes.ToBytesOfUnsigned | src/test/org/apache/commons/id/uuid/UUIDTest.java:143-153 | reading bytes as a big-endian number and writing it back gives the bytes |

## Findings

| source | as written | input that shows it | evidently intended | confidence | as-written member | corrected member |
|---|---|---|---|---|---|---|
| src/test/org/apache/commons/id/uuid/UUIDTest.java:395-400 | the value meant to show version five has `3801` in its third group and is expected to report version five | 3051a8d7-aea7-3801-e0bf-bc539dd60cf3: byte 6 is 0x38, whose high nibble is 3 | a `5801` third group (byte 6 = 0x58), which is version five | medium, not executed | UuidExamples.LabelledVersionFiveIsThree | UuidExamples.VersionExamples |

## Left out

- Message digests: MD5 and SHA-1 are a function parameter of `NameBased`. The known MD5 output for `www.widgets.com` (UUIDTest.java:300-301) is therefore not stated.
- The conversion of a name `String` to bytes: names are taken as byte strings.
- The copy constructor (UUIDTest.java:60-70): UUIDs are immutable values here, so a copy is the value itself.
- The reflective choice of clock and state implementations, and the Windows native clock (StateHelperTest.java:61-123): these are configuration lookups, not logic.
- File I/O: the state file reader and writer, and their record format, are I/O with no assertions to model.
- The wall clock and randomness are inputs:
  - the clock reading is the `tick` parameter of `GetUuidTime`, so the lower bound at NodeTest.java:104 is a property of the clock, not of the model;
  - `newClockSequence` is the non-zero `initialSequence` parameter of `NewNode`;
  - the random bytes are the parameter of `RandomNodeIdentifier`.
- NodeState.NewNode: the starting last timestamp is 0, the Java field default. The class that sets it is not part of this model.
- NodeState.HistoryWindowDistinct: the starting clock sequence must lie below 2^13, and the window is 2^13 readings. Both follow from the model's own choice of 2^13 as the clock-sequence modulus. A longer run of readings can wrap the sequence round, so pairs further apart can repeat.
- NodeState.HashCode: the formula is assumed to be Java's array hash over the signed identifier bytes. Only "equal identifiers give equal hashes" is a contract of the tests; `HashLastByteDistinct` holds for that assumed formula.
- NodeManager.Init: the loaded nodes and the fallback node come from the state store, which is a parameter. The loaded nodes must have distinct identifiers, as the entries of a set of nodes do.
- Thread safety and cross-process locking around the node manager.
- StateHelper.DecodeMac: the tests decode one upper-case address and test no rejection. That every other text is rejected, and that lower-case digits are accepted, are modelling choices and not behaviour the library is shown to have. The same holds for `StateHelper.DecodeGroups`.
- NodeManager.CurrentNode: before `init` the model answers with no node. The tests call `currentNode` only after `init`, so this is a modelling choice and not behaviour the library is shown to have.
- NodeManager.NextAvailableNode: before `init` the model leaves the manager unchanged and answers with no node. This is a modelling choice for the same reason.
- NodeState.GetUuidTime: the tests show only that the reading is recorded as the last timestamp. No test shows what happens to the clock sequence. The model applies its own policy in this operation: when the clock has not moved forward, the clock sequence is incremented, as section 4.1.5 of RFC 4122 advises for a clock set backwards. `NextClockSequence`, `HistoryNeverRepeats`, `SequenceDrift` and `HistoryWindowDistinct` state that policy, not tested behaviour.
- Concrete vectors stated only through general lemmas:
  - the upper-case text `B4F00409-CEF8-…` with and without prefixes (UUIDTest.java:160-179, 222-229) is covered by `PrefixIrrelevant`, with `StripUrn` and `StripShort`, and by `ToStringOfParse`;
  - the `f81d4fae-…` and `00000000-7dec-…` texts (UUIDTest.java:339-357) are covered by `CanonicalRoundTrip`;
  - the all-`F` text (UUIDTest.java:231-233) is covered by `ToStringOfParse`.
- UuidText.StripPrefix: the prefixes are matched case-sensitively. The tests use only lower-case prefixes.
- The time-based generator that draws timestamps from a node is not modelled: `TimeBased` gives its layout only.
