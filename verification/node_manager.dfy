/**
 The node manager: loads the node records once, keeps one of them current,
 and on request moves to the next record, wrapping from the last to the first.
 */
module NodeManager {
  import opened Results
  import opened NodeState

  /** Identifiers are unique within one loaded state. */
  predicate DistinctIds(nodes: seq<Node>) {
    forall i, j :: 0 <= i < j < |nodes| ==> nodes[i].id != nodes[j].id
  }

  datatype Manager = Uninitialized | Ready(nodes: seq<Node>, current: nat)

  predicate Valid(m: Manager) {
    m.Ready? ==> 0 <= m.current < |m.nodes| && DistinctIds(m.nodes)
  }

  type ValidManager = m: Manager | Valid(m) witness Uninitialized

  /**
   `init`: the loaded records with the first one current; when nothing was
   loaded, the single `fallback` record (a node with a random identifier).
   */
  function Init(loaded: seq<Node>, fallback: Node): (m: ValidManager)
    requires DistinctIds(loaded)
    ensures m.Ready? && m.current == 0
    ensures |loaded| > 0 ==> m.nodes == loaded
    ensures |loaded| == 0 ==> m.nodes == [fallback]
  {
    if |loaded| > 0 then Ready(loaded, 0) else Ready([fallback], 0)
  }

  /** `currentNode`: the selected record, or nothing before `init`. */
  function CurrentNode(m: ValidManager): (r: Option<Node>)
    ensures r.Some? <==> m.Ready?
    ensures r.Some? ==> r.value in m.nodes
  {
    if m.Ready? then Some(m.nodes[m.current]) else None
  }

  /** The selection after the one at `c` among `n` records: `(c + 1) mod n`. */
  function Step(c: nat, n: nat): (next: nat)
    requires c < n
    ensures next < n
    ensures next == (c + 1) % n
  {
    if c + 1 < n then
      ModUnique(c + 1, 0, c + 1, n);
      c + 1
    else
      ModUnique(c + 1, 1, 0, n);
      0
  }

  /** `nextAvailableNode`: select the following record, cyclically, and return it. */
  function NextAvailableNode(m: ValidManager): (r: (ValidManager, Option<Node>))
    ensures m.Uninitialized? ==> r == (m, None)
    ensures m.Ready? ==> r.0 == Ready(m.nodes, Step(m.current, |m.nodes|))
    ensures m.Ready? ==> r.1.Some? && r.1 == CurrentNode(r.0)
  {
    if m.Uninitialized? then (m, None)
    else
      var next := Ready(m.nodes, if m.current + 1 < |m.nodes| then m.current + 1 else 0);
      (next, Some(next.nodes[next.current]))
  }

  /** The manager after `k` calls of `nextAvailableNode`. */
  function Advance(m: ValidManager, k: nat): ValidManager
    decreases k
  {
    if k == 0 then m else Advance(NextAvailableNode(m).0, k - 1)
  }

  /** `k` steps from `c` among `n` records. */
  function Rotate(c: nat, k: nat, n: nat): (r: nat)
    requires c < n
    ensures r < n
    decreases k
  {
    if k == 0 then c else Rotate(Step(c, n), k - 1, n)
  }

  /** `k` calls move the selection `k` places round the records. */
  lemma {:induction false} AdvanceRotates(m: ValidManager, k: nat)
    requires m.Ready?
    ensures Advance(m, k) == Ready(m.nodes, Rotate(m.current, k, |m.nodes|))
    decreases k
  {
    if k > 0 {
      AdvanceRotates(NextAvailableNode(m).0, k - 1);
    }
  }

  /** Rotating is adding modulo the number of records. */
  lemma {:induction false} RotateIsMod(c: nat, k: nat, n: nat)
    requires c < n
    ensures Rotate(c, k, n) == (c + k) % n
    decreases k
  {
    if k == 0 {
      ModUnique(c, 0, c, n);
    } else {
      RotateIsMod(Step(c, n), k - 1, n);
      ModAddOne(c, k - 1, n);
    }
  }

  lemma {:induction false} RotateSplit(c: nat, a: nat, b: nat, n: nat)
    requires c < n
    ensures Rotate(c, a + b, n) == Rotate(Rotate(c, a, n), b, n)
    decreases a
  {
    if a > 0 {
      RotateSplit(Step(c, n), a - 1, b, n);
    }
  }

  lemma {:induction false} RotateNoWrap(c: nat, k: nat, n: nat)
    requires c + k < n
    ensures Rotate(c, k, n) == c + k
    decreases k
  {
    if k > 0 {
      RotateNoWrap(c + 1, k - 1, n);
    }
  }

  /** Going once round the records returns to the start. */
  lemma RotateFull(c: nat, n: nat)
    requires c < n
    ensures Rotate(c, n, n) == c
  {
    RotateSplit(c, n - c - 1, 1, n);
    RotateNoWrap(c, n - c - 1, n);
    assert Rotate(c, n - c, n) == 0;
    RotateSplit(c, n - c, c, n);
    RotateNoWrap(0, c, n);
  }

  /** As many calls as there are records bring the selection back to where it was. */
  lemma FullCycle(m: ValidManager)
    requires m.Ready?
    ensures Advance(m, |m.nodes|) == m
  {
    AdvanceRotates(m, |m.nodes|);
    RotateFull(m.current, |m.nodes|);
  }

  /** With two or more records, the next node is never the current one. */
  lemma NextIsAnotherNode(m: ValidManager)
    requires m.Ready? && |m.nodes| >= 2
    ensures !SameNode(NextAvailableNode(m).1.value, CurrentNode(m).value)
  {
    var next := NextAvailableNode(m).0;
    assert next.current != m.current;
    if next.current < m.current {
      assert m.nodes[next.current].id != m.nodes[m.current].id;
    } else {
      assert m.nodes[m.current].id != m.nodes[next.current].id;
    }
  }

  /**
   Two loaded records: after `init` the first is current, the first call of
   `nextAvailableNode` gives the other, the second wraps back to the first.
   */
  lemma TwoNodeScenario(a: Node, b: Node, fallback: Node)
    requires a.id != b.id
    ensures var m0 := Init([a, b], fallback);
      var (m1, n1) := NextAvailableNode(m0);
      var (m2, n2) := NextAvailableNode(m1);
      && CurrentNode(m0) == Some(a)
      && n1 == Some(b) && !SameNode(n1.value, a)
      && n2 == Some(a)
  {
  }

  lemma ModAddOne(c: nat, k: nat, n: nat)
    requires 0 < n && c < n
    ensures ((c + 1) % n + k) % n == (c + k + 1) % n
  {
    if c + 1 == n {
      ModUnique(c + 1, 1, 0, n);
      ModUnique(c + k + 1, (k / n) + 1, k % n, n);
    } else {
      ModUnique(c + 1, 0, c + 1, n);
    }
  }

  /** Division with remainder is unique. */
  lemma ModUnique(x: int, q: int, r: int, n: int)
    requires n > 0 && 0 <= r < n && x == q * n + r
    ensures x % n == r && x / n == q
  {
    var q', r' := x / n, x % n;
    assert x == q' * n + r';
    MulDistributes(q, q', n);
    if q > q' {
      MulAtLeast(q - q', n);
    } else if q < q' {
      MulDistributes(q', q, n);
      MulAtLeast(q' - q, n);
    }
  }

  lemma MulDistributes(a: int, b: int, n: int)
    ensures (a - b) * n == a * n - b * n
  {
  }

  lemma MulAtLeast(a: int, n: int)
    requires a >= 1 && n > 0
    ensures a * n >= n
  {
  }

}
