/**
 The UUID value type of RFC 4122: sixteen bytes laid out as in section 4.1.2
 (time_low, time_mid, time_hi_and_version, clock_seq_hi_and_reserved,
 clock_seq_low, node), with its constructors from bytes, from a byte source
 and from two Java `long` halves, the signed comparison the library uses, the
 field accessors, and the version/variant overlay of name-based construction.
 */
module UuidValue {
  import opened Bytes
  import opened Results

  const UUID_BYTE_LENGTH: nat := 16

  const TWO_32: nat := 0x1_0000_0000
  const TWO_48: nat := 0x1_0000_0000_0000
  const TWO_60: nat := 0x1000_0000_0000_0000

  type RawBytes = s: seq<Byte> | |s| == UUID_BYTE_LENGTH
    witness [0, 0, 0, 0, 0, 0, 0, 0, 0, 0, 0, 0, 0, 0, 0, 0]

  /** A UUID is its sixteen raw bytes; equality of UUIDs is equality of the bytes. */
  datatype Uuid = Uuid(raw: RawBytes)

  /** The nil UUID of section 4.1.7: every bit zero. */
  function Nil(): (u: Uuid)
    ensures forall i :: 0 <= i < UUID_BYTE_LENGTH ==> u.raw[i] == 0
  {
    Uuid([0, 0, 0, 0, 0, 0, 0, 0, 0, 0, 0, 0, 0, 0, 0, 0])
  }

  // ---------------------------------------------------------------------------
  // The byte-array constructor

  /** `new UUID(byte[])`: exactly sixteen bytes are a UUID; any other length is malformed input. */
  function FromBytes(bs: seq<Byte>): (r: Result<Uuid>)
    ensures r.Ok? <==> |bs| == UUID_BYTE_LENGTH
    ensures r.Ok? ==> r.value.raw == bs
    ensures r.Err? ==> r.error == WrongLength(UUID_BYTE_LENGTH, |bs|)
  {
    if |bs| == UUID_BYTE_LENGTH then Ok(Uuid(bs)) else Err(WrongLength(UUID_BYTE_LENGTH, |bs|))
  }

  /** `getRawBytes` and the byte-array constructor are inverse: rebuilding from the raw bytes gives the same UUID. */
  lemma FromBytesOfRaw(u: Uuid)
    ensures FromBytes(u.raw) == Ok(u)
  {
  }

  // ---------------------------------------------------------------------------
  // Reading from a byte source

  /**
   Reads one UUID from the front of a byte source, returning it with the bytes
   left unread; a source holding fewer than sixteen bytes is an error.
   */
  function ReadFrom(input: seq<Byte>): (r: Result<(Uuid, seq<Byte>)>)
    ensures r.Err? <==> |input| < UUID_BYTE_LENGTH
    ensures r.Err? ==> r.error == TruncatedInput(UUID_BYTE_LENGTH, |input|)
    ensures r.Ok? ==> r.value.0.raw + r.value.1 == input
  {
    if |input| < UUID_BYTE_LENGTH then Err(TruncatedInput(UUID_BYTE_LENGTH, |input|))
    else Ok((Uuid(input[..UUID_BYTE_LENGTH]), input[UUID_BYTE_LENGTH..]))
  }

  /** A byte source yields the UUID the byte-array constructor builds from its first sixteen bytes. */
  lemma ReadFromAgreesWithFromBytes(input: seq<Byte>)
    ensures ReadFrom(input).Ok? <==> |input| >= UUID_BYTE_LENGTH
    ensures ReadFrom(input).Ok? ==> FromBytes(input[..UUID_BYTE_LENGTH]) == Ok(ReadFrom(input).value.0)
  {
  }

  /** Writing the raw bytes and reading them back yields the same UUID. */
  lemma ReadFromWritten(u: Uuid, rest: seq<Byte>)
    ensures ReadFrom(u.raw + rest) == Ok((u, rest))
  {
    assert (u.raw + rest)[..UUID_BYTE_LENGTH] == u.raw;
    assert (u.raw + rest)[UUID_BYTE_LENGTH..] == rest;
  }

  // ---------------------------------------------------------------------------
  // The two 64-bit halves

  /** Bytes 0..7 read as a big-endian Java `long`. */
  function MostSignificantBits(u: Uuid): Int64 {
    Signed64(Unsigned(u.raw[..8]))
  }

  /** Bytes 8..15 read as a big-endian Java `long`. */
  function LeastSignificantBits(u: Uuid): Int64 {
    Signed64(Unsigned(u.raw[8..]))
  }

  /** The UUID whose two halves are the given Java `long` values. */
  function FromLongs(most: Int64, least: Int64): (u: Uuid)
    ensures MostSignificantBits(u) == most
    ensures LeastSignificantBits(u) == least
  {
    var hi, lo := ToBytes(Unsigned64(most), 8), ToBytes(Unsigned64(least), 8);
    UnsignedOfToBytes(Unsigned64(most), 8);
    UnsignedOfToBytes(Unsigned64(least), 8);
    assert (hi + lo)[..8] == hi && (hi + lo)[8..] == lo;
    Uuid(hi + lo)
  }

  /** Every UUID is the one built from its own halves. */
  lemma FromLongsOfHalves(u: Uuid)
    ensures FromLongs(MostSignificantBits(u), LeastSignificantBits(u)) == u
  {
    var hi, lo := u.raw[..8], u.raw[8..];
    Unsigned64OfSigned64(Unsigned(hi));
    Unsigned64OfSigned64(Unsigned(lo));
    ToBytesOfUnsigned(hi);
    ToBytesOfUnsigned(lo);
    assert hi + lo == u.raw;
  }

  /** Two UUIDs are equal exactly when both halves are. */
  lemma HalvesDetermine(a: Uuid, b: Uuid)
    ensures a == b <==>
      MostSignificantBits(a) == MostSignificantBits(b) && LeastSignificantBits(a) == LeastSignificantBits(b)
  {
    FromLongsOfHalves(a);
    FromLongsOfHalves(b);
  }

  // ---------------------------------------------------------------------------
  // Ordering

  /**
   `compareTo`: the most significant halves compared as signed 64-bit values,
   then the least significant halves, answering -1, 0 or +1.
   */
  function CompareTo(a: Uuid, b: Uuid): (r: int)
    ensures r == -1 || r == 0 || r == 1
    ensures r == 0 <==> a == b
  {
    HalvesDetermine(a, b);
    var am, bm := MostSignificantBits(a), MostSignificantBits(b);
    var al, bl := LeastSignificantBits(a), LeastSignificantBits(b);
    if am < bm then -1
    else if am > bm then 1
    else if al < bl then -1
    else if al > bl then 1
    else 0
  }

  /**
   A single integer whose order is the order of `CompareTo`: the signed high
   half above the low half shifted into 0..2^64.
   */
  function OrderKey(u: Uuid): int {
    MostSignificantBits(u) * TWO_64 + (LeastSignificantBits(u) + 0x8000_0000_0000_0000)
  }

  function Sign(x: int): int {
    if x < 0 then -1 else if x > 0 then 1 else 0
  }

  /** `CompareTo` is the sign of the difference of the order keys. */
  lemma CompareToIsKeyOrder(a: Uuid, b: Uuid)
    ensures CompareTo(a, b) == Sign(OrderKey(a) - OrderKey(b))
  {
    var am, bm := MostSignificantBits(a), MostSignificantBits(b);
    var al, bl := LeastSignificantBits(a) + 0x8000_0000_0000_0000, LeastSignificantBits(b) + 0x8000_0000_0000_0000;
    assert 0 <= al < TWO_64 && 0 <= bl < TWO_64;
    if am < bm {
      assert am * TWO_64 + TWO_64 <= bm * TWO_64;
    } else if am > bm {
      assert bm * TWO_64 + TWO_64 <= am * TWO_64;
    }
  }

  lemma CompareToAntisymmetric(a: Uuid, b: Uuid)
    ensures CompareTo(a, b) == -CompareTo(b, a)
  {
    CompareToIsKeyOrder(a, b);
    CompareToIsKeyOrder(b, a);
  }

  lemma CompareToTransitive(a: Uuid, b: Uuid, c: Uuid)
    requires CompareTo(a, b) <= 0 && CompareTo(b, c) <= 0
    ensures CompareTo(a, c) <= 0
  {
    CompareToIsKeyOrder(a, b);
    CompareToIsKeyOrder(b, c);
    CompareToIsKeyOrder(a, c);
  }

  // ---------------------------------------------------------------------------
  // Fields (sections 4.1.1 to 4.1.6)

  /** The version: the top four bits of time_hi_and_version (byte 6). */
  function Version(u: Uuid): (v: nat)
    ensures v < 16
    ensures u.raw[6] == v * 16 + u.raw[6] % 16
  {
    u.raw[6] / 16
  }

  /**
   The variant families of section 4.1.1, told apart by the leading bits of
   clock_seq_hi_and_reserved (byte 8).
   */
  datatype VariantKind = NcsCompat | IetfDraft | Microsoft | Future {
    /** The constant the library reports: the family's leading bits as a number. */
    function Code(): nat {
      match this
      case NcsCompat => 0
      case IetfDraft => 2
      case Microsoft => 6
      case Future => 7
    }

    /** Dividing byte 8 by this keeps exactly the family's leading bits. */
    function Divisor(): nat {
      match this
      case NcsCompat => 0x80
      case IetfDraft => 0x40
      case Microsoft => 0x20
      case Future => 0x20
    }
  }

  /** The variant whose leading-bit pattern byte 8 carries. */
  function Variant(u: Uuid): (v: VariantKind)
    ensures u.raw[8] / v.Divisor() == v.Code()
  {
    var b := u.raw[8];
    if b < 0x80 then NcsCompat
    else if b < 0xC0 then IetfDraft
    else if b < 0xE0 then Microsoft
    else Future
  }

  /** The leading-bit patterns are exclusive: byte 8 matches exactly one family. */
  lemma VariantExactly(u: Uuid, v: VariantKind)
    ensures Variant(u) == v <==> u.raw[8] / v.Divisor() == v.Code()
  {
  }

  /**
   The clock sequence: the low six bits of byte 8 above byte 9, a 14-bit value
   returned as a non-negative Java `short`.
   */
  function ClockSequence(u: Uuid): (cs: Int16)
    ensures 0 <= cs < 0x4000
    ensures cs / 256 == u.raw[8] % 64 && cs % 256 == u.raw[9]
  {
    (u.raw[8] as int % 64) * 256 + u.raw[9] as int
  }

  /** time_low: bytes 0..3 read big-endian. */
  function TimeLow(u: Uuid): (n: nat)
    ensures n < TWO_32
    ensures n < Pow256(4) && ToBytes(n, 4) == u.raw[0..4]
  {
    Pow256Values();
    ToBytesOfUnsigned(u.raw[0..4]);
    Unsigned(u.raw[0..4])
  }

  /** time_mid: bytes 4..5 read big-endian. */
  function TimeMid(u: Uuid): (n: nat)
    ensures n < 0x1_0000
    ensures n < Pow256(2) && ToBytes(n, 2) == u.raw[4..6]
  {
    Pow256Values();
    ToBytesOfUnsigned(u.raw[4..6]);
    Unsigned(u.raw[4..6])
  }

  /** time_hi_and_version: bytes 6..7 read big-endian, version bits included. */
  function TimeHiAndVersion(u: Uuid): (n: nat)
    ensures n == u.raw[6] as int * 256 + u.raw[7] as int
  {
    Unsigned2(u.raw[6..8]);
    Unsigned(u.raw[6..8])
  }

  /** The 60-bit timestamp: time_hi with the version masked off, then time_mid, then time_low. */
  function Timestamp(u: Uuid): (t: nat)
    ensures t < TWO_60
    ensures t % TWO_32 == TimeLow(u)
    ensures (t / TWO_32) % 0x1_0000 == TimeMid(u)
    ensures t / TWO_48 == TimeHiAndVersion(u) % 0x1000
  {
    JoinTimestamp(TimeHiAndVersion(u) % 0x1000, TimeMid(u), TimeLow(u));
    (TimeHiAndVersion(u) % 0x1000) * TWO_48 + TimeMid(u) * TWO_32 + TimeLow(u)
  }

  /** The 48-bit node: bytes 10..15 read big-endian. */
  function Node(u: Uuid): (n: nat)
    ensures n < TWO_48
    ensures n < Pow256(6) && ToBytes(n, 6) == u.raw[10..16]
  {
    Pow256Values();
    ToBytesOfUnsigned(u.raw[10..16]);
    Unsigned(u.raw[10..16])
  }

  lemma Unsigned2(s: seq<Byte>)
    requires |s| == 2
    ensures Unsigned(s) == s[0] as int * 256 + s[1] as int
  {
    assert s[..1][..0] == [];
  }

  /** Joining time_hi, time_mid and time_low, and cutting them apart again. */
  lemma JoinTimestamp(hi: nat, mid: nat, low: nat)
    requires hi < 0x1000 && mid < 0x1_0000 && low < TWO_32
    ensures hi * TWO_48 + mid * TWO_32 + low < TWO_60
    ensures (hi * TWO_48 + mid * TWO_32 + low) % TWO_32 == low
    ensures ((hi * TWO_48 + mid * TWO_32 + low) / TWO_32) % 0x1_0000 == mid
    ensures (hi * TWO_48 + mid * TWO_32 + low) / TWO_48 == hi
  {
    var q := hi * 0x1_0000 + mid;
    assert hi * TWO_48 + mid * TWO_32 + low == q * TWO_32 + low;
  }

  /** Cutting a 60-bit timestamp into time_hi, time_mid and time_low. */
  lemma SplitTimestamp(t: nat)
    requires t < TWO_60
    ensures t / TWO_48 < 0x1000
    ensures (t / TWO_48) * TWO_48 + ((t / TWO_32) % 0x1_0000) * TWO_32 + t % TWO_32 == t
  {
    var q := t / TWO_32;
    assert q * TWO_32 + t % TWO_32 == t;
    assert (q / 0x1_0000) * 0x1_0000 + q % 0x1_0000 == q;
    assert q / 0x1_0000 == t / TWO_48;
  }

  // ---------------------------------------------------------------------------
  // Assembly from fields

  /** The UUID with the given section 4.1.2 fields. */
  function FromFields(timeLow: nat, timeMid: nat, timeHiAndVersion: nat,
                      clockSeqHi: Byte, clockSeqLow: Byte, node: nat): (u: Uuid)
    requires timeLow < TWO_32 && timeMid < 0x1_0000 && timeHiAndVersion < 0x1_0000 && node < TWO_48
    ensures TimeLow(u) == timeLow && TimeMid(u) == timeMid && TimeHiAndVersion(u) == timeHiAndVersion
    ensures u.raw[8] == clockSeqHi && u.raw[9] == clockSeqLow && Node(u) == node
  {
    Pow256Values();
    var a, b, c, e := ToBytes(timeLow, 4), ToBytes(timeMid, 2), ToBytes(timeHiAndVersion, 2), ToBytes(node, 6);
    var raw := a + b + c + [clockSeqHi, clockSeqLow] + e;
    FieldSlices(a, b, c, [clockSeqHi, clockSeqLow], e);
    UnsignedOfToBytes(timeLow, 4);
    UnsignedOfToBytes(timeMid, 2);
    UnsignedOfToBytes(timeHiAndVersion, 2);
    UnsignedOfToBytes(node, 6);
    Uuid(raw)
  }

  lemma FieldSlices(a: seq<Byte>, b: seq<Byte>, c: seq<Byte>, d: seq<Byte>, e: seq<Byte>)
    requires |a| == 4 && |b| == 2 && |c| == 2 && |d| == 2 && |e| == 6
    ensures var raw := a + b + c + d + e;
      raw[0..4] == a && raw[4..6] == b && raw[6..8] == c && raw[8] == d[0] && raw[9] == d[1] && raw[10..16] == e
  {
  }

  /** Every UUID is the assembly of its own fields. */
  lemma FromFieldsOfUuid(u: Uuid)
    ensures FromFields(TimeLow(u), TimeMid(u), TimeHiAndVersion(u), u.raw[8], u.raw[9], Node(u)) == u
  {
    var raw := u.raw;
    ToBytesOfUnsigned(raw[0..4]);
    assert ToBytes(TimeLow(u), 4) == raw[0..4];
    ToBytesOfUnsigned(raw[4..6]);
    assert ToBytes(TimeMid(u), 2) == raw[4..6];
    ToBytesOfUnsigned(raw[6..8]);
    assert ToBytes(TimeHiAndVersion(u), 2) == raw[6..8];
    ToBytesOfUnsigned(raw[10..16]);
    assert ToBytes(Node(u), 6) == raw[10..16];
    RawFields(raw);
  }

  lemma RawFields(raw: RawBytes)
    ensures raw[0..4] + raw[4..6] + raw[6..8] + [raw[8], raw[9]] + raw[10..16] == raw
  {
  }

  /**
   The version 1, IETF-variant UUID carrying the given timestamp, clock
   sequence and node, laid out as in section 4.2.2.
   */
  function TimeBased(timestamp: nat, clockSeq: nat, node: nat): (u: Uuid)
    requires timestamp < TWO_60 && clockSeq < 0x4000 && node < TWO_48
    ensures Timestamp(u) == timestamp
    ensures ClockSequence(u) == clockSeq
    ensures Node(u) == node
    ensures Version(u) == 1
    ensures Variant(u) == IetfDraft
  {
    SplitTimestamp(timestamp);
    var hi, mid, low := timestamp / TWO_48, (timestamp / TWO_32) % 0x1_0000, timestamp % TWO_32;
    var u := FromFields(low, mid, 0x1000 + hi, 0x80 + clockSeq / 256, clockSeq % 256, node);
    TimestampOfFields(u, hi, mid, low);
    ClockSequenceOfBytes(u, clockSeq);
    u
  }

  lemma TimestampOfFields(u: Uuid, hi: nat, mid: nat, low: nat)
    requires hi < 0x1000
    requires TimeHiAndVersion(u) == 0x1000 + hi && TimeMid(u) == mid && TimeLow(u) == low
    ensures Timestamp(u) == hi * TWO_48 + mid * TWO_32 + low
    ensures Version(u) == 1
  {
  }

  lemma ClockSequenceOfBytes(u: Uuid, clockSeq: nat)
    requires clockSeq < 0x4000
    requires u.raw[8] == 0x80 + clockSeq / 256 && u.raw[9] == clockSeq % 256
    ensures ClockSequence(u) == clockSeq
    ensures Variant(u) == IetfDraft
  {
  }

  /** Every version 1, IETF-variant UUID is the assembly of its own timestamp, clock sequence and node. */
  lemma TimeBasedOfFields(u: Uuid)
    requires Version(u) == 1 && Variant(u) == IetfDraft
    ensures TimeBased(Timestamp(u), ClockSequence(u), Node(u)) == u
  {
    var t, cs := Timestamp(u), ClockSequence(u);
    assert 0x1000 + t / TWO_48 == TimeHiAndVersion(u);
    assert 0x80 + cs / 256 == u.raw[8];
    FromFieldsOfUuid(u);
  }

  // ---------------------------------------------------------------------------
  // Name-based construction (section 4.3)

  /**
   The first sixteen bytes of `bytes` with the version written into the top
   nibble of byte 6 and the IETF variant into the top two bits of byte 8.
   */
  function WithVersionAndVariant(bytes: seq<Byte>, version: nat): (u: Uuid)
    requires |bytes| >= UUID_BYTE_LENGTH && version < 16
    ensures Version(u) == version
    ensures Variant(u) == IetfDraft
    ensures forall i :: 0 <= i < UUID_BYTE_LENGTH && i != 6 && i != 8 ==> u.raw[i] == bytes[i]
    ensures u.raw[6] % 16 == bytes[6] % 16 && u.raw[8] % 0x40 == bytes[8] % 0x40
  {
    Uuid(bytes[..6] + [version * 16 + bytes[6] % 16] + [bytes[7]] + [0x80 + bytes[8] % 0x40] + bytes[9..UUID_BYTE_LENGTH])
  }

  /** Two byte strings agree on every bit the overlay keeps. */
  predicate SameKeptBits(a: seq<Byte>, b: seq<Byte>)
    requires |a| >= UUID_BYTE_LENGTH && |b| >= UUID_BYTE_LENGTH
  {
    && (forall i :: 0 <= i < UUID_BYTE_LENGTH && i != 6 && i != 8 ==> a[i] == b[i])
    && a[6] % 16 == b[6] % 16
    && a[8] % 0x40 == b[8] % 0x40
  }

  /** The overlay identifies two inputs exactly when they agree on the kept bits. */
  lemma WithVersionAndVariantEqual(a: seq<Byte>, b: seq<Byte>, version: nat)
    requires |a| >= UUID_BYTE_LENGTH && |b| >= UUID_BYTE_LENGTH && version < 16
    ensures WithVersionAndVariant(a, version) == WithVersionAndVariant(b, version) <==> SameKeptBits(a, b)
  {
    var ua, ub := WithVersionAndVariant(a, version), WithVersionAndVariant(b, version);
    if SameKeptBits(a, b) {
      assert forall i :: 0 <= i < UUID_BYTE_LENGTH ==> ua.raw[i] == ub.raw[i];
    }
  }

  /** The message digests name-based UUIDs are built from. */
  datatype HashAlgorithm = Md5 | Sha1 {
    /** Version 3 for MD5, version 5 for SHA-1. */
    function UuidVersion(): nat {
      match this
      case Md5 => 3
      case Sha1 => 5
    }
  }

  /**
   `nameUUIDFromString(name, namespace, algorithm)`: the digest of the
   namespace's raw bytes followed by the name's bytes, cut to sixteen bytes,
   with version and variant overlaid. `digest` stands for the message-digest
   implementation.
   */
  function NameBased(name: seq<Byte>, namespace: Uuid, algorithm: HashAlgorithm,
                     digest: (HashAlgorithm, seq<Byte>) -> seq<Byte>): (u: Uuid)
    requires |digest(algorithm, namespace.raw + name)| >= UUID_BYTE_LENGTH
    ensures Version(u) == algorithm.UuidVersion()
    ensures Variant(u) == IetfDraft
  {
    WithVersionAndVariant(digest(algorithm, namespace.raw + name), algorithm.UuidVersion())
  }

  /** `nameUUIDFromString(name, namespace)`: MD5, hence version 3. */
  function NameBasedDefault(name: seq<Byte>, namespace: Uuid,
                            digest: (HashAlgorithm, seq<Byte>) -> seq<Byte>): (u: Uuid)
    requires |digest(Md5, namespace.raw + name)| >= UUID_BYTE_LENGTH
    ensures Version(u) == 3
    ensures Variant(u) == IetfDraft
  {
    NameBased(name, namespace, Md5, digest)
  }

  /**
   Two name-based UUIDs are equal exactly when the digests of their
   (namespace, name) inputs agree on the kept bits; so identical inputs give
   equal UUIDs, and different inputs give different UUIDs unless the digest
   collides there.
   */
  lemma NameBasedEqual(name1: seq<Byte>, ns1: Uuid, name2: seq<Byte>, ns2: Uuid,
                       algorithm: HashAlgorithm, digest: (HashAlgorithm, seq<Byte>) -> seq<Byte>)
    requires |digest(algorithm, ns1.raw + name1)| >= UUID_BYTE_LENGTH
    requires |digest(algorithm, ns2.raw + name2)| >= UUID_BYTE_LENGTH
    ensures NameBased(name1, ns1, algorithm, digest) == NameBased(name2, ns2, algorithm, digest)
      <==> SameKeptBits(digest(algorithm, ns1.raw + name1), digest(algorithm, ns2.raw + name2))
  {
    WithVersionAndVariantEqual(digest(algorithm, ns1.raw + name1), digest(algorithm, ns2.raw + name2),
                               algorithm.UuidVersion());
  }
}
