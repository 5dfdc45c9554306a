/**
 One node record: a six-byte node identifier with the bookkeeping of the
 last timestamp handed out and the clock sequence. A node's identity is its
 identifier alone.
 */
module NodeState {
  import opened Bytes
  import opened StateHelper

  /** Clock sequences advance modulo 2^13. */
  const CLOCK_SEQUENCE_MODULUS: nat := 0x2000

  /** `Node(id, lastTimestamp, clockSequence)`; the fields are the getters. */
  datatype Node = Node(id: NodeId, lastTimestamp: Int64, clockSequence: Int16)

  /**
   `Node(id)`: a fresh record whose clock sequence comes from the random
   source `initialSequence`, which never yields zero, and whose last timestamp
   is the Java field default 0.
   */
  function NewNode(id: NodeId, initialSequence: Int16): (n: Node)
    requires initialSequence != 0
    ensures n.id == id
    ensures n.clockSequence != 0
    ensures n.lastTimestamp == 0
  {
    Node(id, 0, initialSequence)
  }

  /** The clock sequence after one regression: the next value modulo 2^13. */
  function NextClockSequence(cs: Int16): (next: Int16)
    ensures 0 <= next < CLOCK_SEQUENCE_MODULUS
    ensures next != cs
    ensures 0 <= cs < CLOCK_SEQUENCE_MODULUS - 1 ==> next == cs + 1
    ensures cs == CLOCK_SEQUENCE_MODULUS - 1 ==> next == 0
  {
    (cs + 1) % CLOCK_SEQUENCE_MODULUS
  }

  /**
   `getUUIDTime` with the clock reading `tick` as input: the tick is returned
   and becomes the last timestamp; a tick that does not exceed the previous
   last timestamp advances the clock sequence.
   */
  function GetUuidTime(n: Node, tick: Int64): (r: (Node, Int64))
    ensures r.1 == tick
    ensures r.0.lastTimestamp == tick
    ensures r.0.id == n.id
    ensures tick > n.lastTimestamp ==> r.0.clockSequence == n.clockSequence
    ensures tick <= n.lastTimestamp ==> r.0.clockSequence != n.clockSequence
    ensures tick <= n.lastTimestamp ==> r.0.clockSequence == NextClockSequence(n.clockSequence)
  {
    var cs := if tick <= n.lastTimestamp then NextClockSequence(n.clockSequence) else n.clockSequence;
    (Node(n.id, tick, cs), tick)
  }

  /** The (timestamp, clock sequence) pair a node has most recently handed out. */
  function Issued(n: Node): (Int64, Int16) {
    (n.lastTimestamp, n.clockSequence)
  }

  /** The nodes after each of a series of clock readings, in order. */
  function History(n: Node, ticks: seq<Int64>): (h: seq<Node>)
    ensures |h| == |ticks|
    ensures forall k :: 0 <= k < |h| ==> h[k].id == n.id && h[k].lastTimestamp == ticks[k]
    decreases |ticks|
  {
    if |ticks| == 0 then []
    else
      var next := GetUuidTime(n, ticks[0]).0;
      var rest := History(next, ticks[1..]);
      assert forall k :: 1 <= k < |ticks| ==> ticks[k] == ticks[1..][k - 1];
      [next] + rest
  }

  /**
   Whatever the clock does, including running backwards, no reading hands
   out the same (timestamp, clock sequence) pair as the reading before it.
   */
  lemma {:induction false} HistoryNeverRepeats(n: Node, ticks: seq<Int64>)
    ensures var h := History(n, ticks);
      |ticks| > 0 ==> Issued(h[0]) != Issued(n)
    ensures var h := History(n, ticks);
      forall k :: 0 < k < |h| ==> Issued(h[k]) != Issued(h[k - 1])
    decreases |ticks|
  {
    if |ticks| > 0 {
      var next := GetUuidTime(n, ticks[0]).0;
      HistoryNeverRepeats(next, ticks[1..]);
      var h, rest := History(n, ticks), History(next, ticks[1..]);
      assert h == [next] + rest;
      forall k | 1 < k < |h| ensures Issued(h[k]) != Issued(h[k - 1]) {
        assert h[k] == rest[k - 1] && h[k - 1] == rest[k - 2];
      }
    }
  }

  /** Each record of a history is one `getUUIDTime` step from the record before it. */
  lemma {:induction false} HistoryStep(n: Node, ticks: seq<Int64>, k: nat)
    requires 0 < k < |ticks|
    ensures History(n, ticks)[k] == GetUuidTime(History(n, ticks)[k - 1], ticks[k]).0
    decreases |ticks|
  {
    var next := GetUuidTime(n, ticks[0]).0;
    var h, rest := History(n, ticks), History(next, ticks[1..]);
    assert h == [next] + rest;
    if k > 1 {
      HistoryStep(next, ticks[1..], k - 1);
    }
  }

  /** How many of the readings `i + 1 .. j` do not move past the reading before them. */
  function Regressions(ticks: seq<Int64>, i: nat, j: nat): (r: nat)
    requires i <= j < |ticks|
    ensures r <= j - i
    decreases j - i
  {
    if j == i then 0
    else Regressions(ticks, i, j - 1) + (if ticks[j] <= ticks[j - 1] then 1 else 0)
  }

  lemma ModSucc(x: nat)
    ensures (x % CLOCK_SEQUENCE_MODULUS + 1) % CLOCK_SEQUENCE_MODULUS == (x + 1) % CLOCK_SEQUENCE_MODULUS
  {
    var q, m := x / CLOCK_SEQUENCE_MODULUS, x % CLOCK_SEQUENCE_MODULUS;
    assert x + 1 == q * CLOCK_SEQUENCE_MODULUS + (m + 1);
    if m + 1 == CLOCK_SEQUENCE_MODULUS {
      assert x + 1 == (q + 1) * CLOCK_SEQUENCE_MODULUS;
    }
  }

  /** One reading moves a clock sequence written as `x` mod 2^13 on by one exactly on a regression. */
  lemma SequenceAfterStep(prev: Node, tick: Int64, x: nat)
    requires prev.clockSequence == x % CLOCK_SEQUENCE_MODULUS
    ensures GetUuidTime(prev, tick).0.clockSequence ==
      (if tick <= prev.lastTimestamp then (x + 1) % CLOCK_SEQUENCE_MODULUS else x % CLOCK_SEQUENCE_MODULUS)
  {
    if tick <= prev.lastTimestamp {
      ModSucc(x);
    }
  }

  /**
   Between records `i` and `j` of a history the clock sequence moves on by
   the number of regressions in between, modulo 2^13.
   */
  lemma {:induction false} SequenceDrift(n: Node, ticks: seq<Int64>, i: nat, j: nat)
    requires i <= j < |ticks|
    requires 0 <= History(n, ticks)[i].clockSequence < CLOCK_SEQUENCE_MODULUS
    ensures History(n, ticks)[j].clockSequence ==
      (History(n, ticks)[i].clockSequence + Regressions(ticks, i, j)) % CLOCK_SEQUENCE_MODULUS
    decreases j - i
  {
    if j > i {
      var h := History(n, ticks);
      var c := h[i].clockSequence;
      SequenceDrift(n, ticks, i, j - 1);
      HistoryStep(n, ticks, j);
      var prev := h[j - 1];
      assert prev.lastTimestamp == ticks[j - 1];
      SequenceAfterStep(prev, ticks[j], c + Regressions(ticks, i, j - 1));
    } else {
      var c := History(n, ticks)[i].clockSequence;
      assert c % CLOCK_SEQUENCE_MODULUS == c;
    }
  }

  /** With no regression between them, a later reading is strictly later. */
  lemma {:induction false} NoRegressionIncreases(ticks: seq<Int64>, i: nat, j: nat)
    requires i < j < |ticks| && Regressions(ticks, i, j) == 0
    ensures ticks[i] < ticks[j]
    decreases j - i
  {
    if j - 1 > i {
      NoRegressionIncreases(ticks, i, j - 1);
    }
  }

  /** Every record of a history starting from a 13-bit clock sequence keeps a 13-bit one. */
  lemma HistoryInRange(n: Node, ticks: seq<Int64>, k: nat)
    requires 0 <= n.clockSequence < CLOCK_SEQUENCE_MODULUS
    requires k < |ticks|
    ensures 0 <= History(n, ticks)[k].clockSequence < CLOCK_SEQUENCE_MODULUS
  {
    var h := History(n, ticks);
    assert h[0] == GetUuidTime(n, ticks[0]).0;
    SequenceDrift(n, ticks, 0, k);
  }

  /** Moving a 13-bit value on by less than a full turn changes it. */
  lemma ShiftDiffers(c: int, r: int)
    requires 0 <= c < CLOCK_SEQUENCE_MODULUS && 0 < r < CLOCK_SEQUENCE_MODULUS
    ensures (c + r) % CLOCK_SEQUENCE_MODULUS != c
  {
    if c + r >= CLOCK_SEQUENCE_MODULUS {
      assert (c + r) % CLOCK_SEQUENCE_MODULUS == c + r - CLOCK_SEQUENCE_MODULUS;
    }
  }

  lemma PairDistinct(n: Node, ticks: seq<Int64>, i: nat, j: nat)
    requires 0 <= n.clockSequence < CLOCK_SEQUENCE_MODULUS
    requires i < j < |ticks| <= CLOCK_SEQUENCE_MODULUS
    ensures Issued(History(n, ticks)[i]) != Issued(History(n, ticks)[j])
  {
    HistoryInRange(n, ticks, i);
    SequenceDrift(n, ticks, i, j);
    var r := Regressions(ticks, i, j);
    if r == 0 {
      NoRegressionIncreases(ticks, i, j);
    } else {
      ShiftDiffers(History(n, ticks)[i].clockSequence, r);
    }
  }

  /**
   Within any 2^13 consecutive readings, whatever the clock does, no two
   records hand out the same (timestamp, clock sequence) pair.
   */
  lemma HistoryWindowDistinct(n: Node, ticks: seq<Int64>)
    requires 0 <= n.clockSequence < CLOCK_SEQUENCE_MODULUS
    requires |ticks| <= CLOCK_SEQUENCE_MODULUS
    ensures forall i, j :: 0 <= i < j < |ticks| ==> Issued(History(n, ticks)[i]) != Issued(History(n, ticks)[j])
  {
    forall i, j | 0 <= i < j < |ticks| ensures Issued(History(n, ticks)[i]) != Issued(History(n, ticks)[j]) {
      PairDistinct(n, ticks, i, j);
    }
  }

  /** A clock that only moves forward leaves the clock sequence alone. */
  lemma {:induction false} ForwardClockKeepsSequence(n: Node, ticks: seq<Int64>)
    requires |ticks| > 0 ==> n.lastTimestamp < ticks[0]
    requires forall k :: 0 < k < |ticks| ==> ticks[k - 1] < ticks[k]
    ensures forall k :: 0 <= k < |ticks| ==> History(n, ticks)[k].clockSequence == n.clockSequence
    decreases |ticks|
  {
    if |ticks| > 0 {
      var next := GetUuidTime(n, ticks[0]).0;
      assert n.lastTimestamp < ticks[0];
      assert next.clockSequence == n.clockSequence;
      assert next.lastTimestamp == ticks[0];
      forall k | 0 < k < |ticks[1..]| ensures ticks[1..][k - 1] < ticks[1..][k] {
        assert ticks[1..][k] == ticks[k + 1] && ticks[1..][k - 1] == ticks[k];
      }
      ForwardClockKeepsSequence(next, ticks[1..]);
      var h, rest := History(n, ticks), History(next, ticks[1..]);
      assert h == [next] + rest;
      forall k | 1 <= k < |ticks| ensures h[k].clockSequence == n.clockSequence {
        assert h[k] == rest[k - 1];
      }
    }
  }

  /** `equals`: same identifier bytes, whatever the bookkeeping. */
  predicate SameNode(a: Node, b: Node) {
    a.id == b.id
  }

  /** Node equality is an equivalence that ignores timestamp and clock sequence. */
  lemma SameNodeIsIdentity(a: Node, b: Node, c: Node, ts: Int64, cs: Int16)
    ensures SameNode(a, a)
    ensures SameNode(a, b) <==> SameNode(b, a)
    ensures SameNode(a, b) && SameNode(b, c) ==> SameNode(a, c)
    ensures SameNode(a, b) <==> SameNode(a, Node(b.id, ts, cs))
  {
  }

  /** Java's 32-bit `int` wrap-around. */
  function WrapInt32(x: int): (r: int)
    ensures -0x8000_0000 <= r < 0x8000_0000
    ensures (r - x) % 0x1_0000_0000 == 0
  {
    var m := x % 0x1_0000_0000;
    if m < 0x8000_0000 then m else m - 0x1_0000_0000
  }

  /** The array hash of the signed identifier bytes: 31 * h + b from 1, in 32 bits. */
  function IdHash(bs: seq<Byte>): (h: int)
    ensures -0x8000_0000 <= h < 0x8000_0000
  {
    if |bs| == 0 then 1 else WrapInt32(31 * IdHash(bs[..|bs| - 1]) + SignedByte(bs[|bs| - 1]))
  }

  /** `hashCode`: a function of the identifier alone. */
  function HashCode(n: Node): (h: int)
    ensures -0x8000_0000 <= h < 0x8000_0000
  {
    IdHash(n.id)
  }

  /** Equal nodes have equal hash codes, whatever their bookkeeping. */
  lemma HashCodeConsistent(a: Node, b: Node)
    requires SameNode(a, b)
    ensures HashCode(a) == HashCode(b)
  {
  }

  /** Identifiers that differ only in their last byte hash differently. */
  lemma HashLastByteDistinct(a: seq<Byte>, b: seq<Byte>)
    requires |a| == |b| > 0
    requires a[..|a| - 1] == b[..|b| - 1] && a[|a| - 1] != b[|b| - 1]
    ensures IdHash(a) != IdHash(b)
  {
    var prefix := 31 * IdHash(a[..|a| - 1]);
    var x, y := SignedByte(a[|a| - 1]), SignedByte(b[|b| - 1]);
    assert x != y;
    if IdHash(a) == IdHash(b) {
      assert IdHash(a) == WrapInt32(prefix + x) && IdHash(b) == WrapInt32(prefix + y);
      WrapInt32Injective(prefix + x, prefix + y);
    }
  }

  /** Wrapping is one-to-one on any window narrower than 2^32. */
  lemma WrapInt32Injective(x: int, y: int)
    requires -0x1_0000_0000 < x - y < 0x1_0000_0000 && x != y
    ensures WrapInt32(x) != WrapInt32(y)
  {
  }
}
