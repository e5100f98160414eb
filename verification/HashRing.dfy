/**
 Consistent hashing.  The ring is a map from 32-bit points to nodes with a sorted array of its
 keys; a lookup is a binary search with wraparound.  The hash function is arbitrary, so collisions
 of virtual points, of one node or of several, are included everywhere.
 */
module HashRing {
  import opened GoInt

  type Point = x: int | 0 <= x < TWO_32

  /** `crc32.ChecksumIEEE` of the string: any function will do. */
  type Hash = string -> Point

  // ----- what a lookup means -----

  /** How far one walks clockwise from h to p. */
  function Clockwise(h: Point, p: Point): Point {
    if p >= h then p - h else p - h + TWO_32
  }

  /** p is the first point met when walking clockwise from h. */
  ghost predicate Owns(points: set<Point>, h: Point, p: Point) {
    p in points && forall q | q in points :: Clockwise(h, p) <= Clockwise(h, q)
  }

  ghost function Owner(points: set<Point>, h: Point): (p: Point)
    requires points != {}
    ensures Owns(points, h, p)
  {
    OwnerExists(points, h);
    var p :| Owns(points, h, p); p
  }

  lemma {:induction false} OwnerExists(points: set<Point>, h: Point)
    requires points != {}
    ensures exists p :: Owns(points, h, p)
    decreases |points|
  {
    var q :| q in points;
    if points == {q} {
      assert Owns(points, h, q);
    } else {
      OwnerExists(points - {q}, h);
      var p :| Owns(points - {q}, h, p);
      assert Owns(points, h, if Clockwise(h, p) <= Clockwise(h, q) then p else q);
    }
  }

  lemma OwnerUnique(points: set<Point>, h: Point, p: Point, q: Point)
    requires Owns(points, h, p) && Owns(points, h, q)
    ensures p == q
  {
  }

  /** The owner is the clockwise successor: the least point not below the hash, and if there is none, the
      least point of all. */
  lemma OwnerIsSuccessor(points: set<Point>, h: Point, p: Point)
    requires p in points
    ensures Owns(points, h, p)
        <==> if exists q :: q in points && q >= h then p >= h && (forall q | q in points && q >= h :: p <= q)
             else forall q | q in points :: p <= q
  {
    if q: Point :| q in points && q >= h { assert Clockwise(h, q) <= TWO_32 - 1 - h; }
  }

  /** The node a ring answers for a hash; "" on the empty ring. */
  ghost function Answer(ring: map<Point, string>, h: Point): string {
    if ring.Keys == {} then "" else ring[Owner(ring.Keys, h)]
  }

  // ----- what the two updates do to the ring -----

  /** The virtual points of a node: the hashes of "node#0" .. "node#(v-1)". */
  function Points(hash: Hash, node: string, v: int): set<Point> {
    set i | 0 <= i < v :: hash(VirtualKey(node, i))
  }

  function VirtualKey(node: string, i: nat): string { node + "#" + Decimal(i) }

  /** No two virtual points have the same key: a collision is one of the hash function. */
  lemma VirtualKeysDiffer(a: string, i: nat, b: string, j: nat)
    ensures VirtualKey(a, i) == VirtualKey(b, j) <==> a == b && i == j
  {
    if VirtualKey(a, i) == VirtualKey(b, j) {
      SplitAtLast(a, Decimal(i), b, Decimal(j), '#');
      DecimalInjective(i, j);
    }
  }

  /** A virtual point's key is the node, a '#' and digits that read back as its number. */
  lemma VirtualKeyReads(node: string, i: nat)
    ensures var key := VirtualKey(node, i);
            && |key| > |node| + 1 && key[..|node|] == node && key[|node|] == '#'
            && Digits(key[|node| + 1..]) && Parse(key[|node| + 1..]) == i
  {
    DecimalParses(i);
    assert VirtualKey(node, i)[|node| + 1..] == Decimal(i);
  }

  /** The points are those of the numbers from 0 on, as many as virtual nodes. */
  lemma PointsNumbered(hash: Hash, node: string, v: nat)
    ensures Points(hash, node, 0) == {}
    ensures Points(hash, node, v + 1) == Points(hash, node, v) + {hash(node + "#" + Decimal(v))}
  {
    PointsStep(hash, node, v);
  }

  function Added(ring: map<Point, string>, points: set<Point>, node: string): map<Point, string> {
    map p | p in ring.Keys + points :: if p in points then node else ring[p]
  }

  function Removed(ring: map<Point, string>, node: string): map<Point, string> {
    map p | p in ring && ring[p] != node :: ring[p]
  }

  // ----- minimal disruption -----

  /** Every key whose answer changes by adding a node now maps to that node. */
  lemma AddMovesOnlyToNewNode(ring: map<Point, string>, points: set<Point>, node: string, h: Point)
    requires Answer(Added(ring, points, node), h) != Answer(ring, h)
    ensures Answer(Added(ring, points, node), h) == node
  {
    var after := Added(ring, points, node);
    if after.Keys != {} {
      var p := Owner(after.Keys, h);
      if p !in points {
        assert Owns(ring.Keys, h, p);
        OwnerUnique(ring.Keys, h, p, Owner(ring.Keys, h));
      }
    }
  }

  /** Every key not mapped to the removed node keeps its answer. */
  lemma RemoveMovesOnlyFromNode(ring: map<Point, string>, node: string, h: Point)
    requires Answer(ring, h) != node
    ensures Answer(Removed(ring, node), h) == Answer(ring, h)
  {
    var after := Removed(ring, node);
    if ring.Keys == {} {
      assert after.Keys == {};
    } else {
      var p := Owner(ring.Keys, h);
      assert p in after.Keys;
      assert Owns(after.Keys, h, p);
      OwnerUnique(after.Keys, h, p, Owner(after.Keys, h));
    }
  }

  /** A removed node is never answered again. */
  lemma RemovedNodeIsGone(ring: map<Point, string>, node: string, h: Point)
    requires node != ""
    ensures Answer(Removed(ring, node), h) != node
  {
  }

  // ----- history independence -----

  datatype Op = Add(node: string) | Remove(node: string)

  function RingAfter(hash: Hash, v: int, ops: seq<Op>): map<Point, string>
    decreases |ops|
  {
    if ops == [] then map[]
    else
      var before := RingAfter(hash, v, ops[..|ops| - 1]);
      match ops[|ops| - 1]
      case Add(node) => Added(before, Points(hash, node, v), node)
      case Remove(node) => Removed(before, node)
  }

  /** The nodes added and not removed since. */
  function Present(ops: seq<Op>): set<string>
    decreases |ops|
  {
    if ops == [] then {}
    else
      var before := Present(ops[..|ops| - 1]);
      match ops[|ops| - 1]
      case Add(node) => before + {node}
      case Remove(node) => before - {node}
  }

  function Mentioned(ops: seq<Op>): set<string> { set i | 0 <= i < |ops| :: ops[i].node }

  /** No virtual point is shared by two nodes. */
  ghost predicate Disjoint(hash: Hash, v: int, nodes: set<string>) {
    forall a, b | a in nodes && b in nodes && a != b :: Points(hash, a, v) !! Points(hash, b, v)
  }

  /** The ring holds exactly the points of the given nodes, each mapped to its node. */
  ghost predicate RingOf(ring: map<Point, string>, hash: Hash, v: int, nodes: set<string>) {
    && (forall p | p in ring :: ring[p] in nodes && p in Points(hash, ring[p], v))
    && (forall node, p | node in nodes && p in Points(hash, node, v) :: p in ring)
  }

  lemma {:induction false} RingHoldsPresent(hash: Hash, v: int, ops: seq<Op>)
    requires Disjoint(hash, v, Mentioned(ops))
    ensures Present(ops) <= Mentioned(ops) && RingOf(RingAfter(hash, v, ops), hash, v, Present(ops))
    decreases |ops|
  {
    if ops != [] {
      var front, last := ops[..|ops| - 1], ops[|ops| - 1];
      assert Mentioned(ops) == Mentioned(front) + {last.node} by {
        assert ops[|ops| - 1] == last;
        assert forall i | 0 <= i < |front| :: front[i] == ops[i];
      }
      RingHoldsPresent(hash, v, front);
    }
  }

  lemma RingOfUnique(r1: map<Point, string>, r2: map<Point, string>, hash: Hash, v: int, nodes: set<string>)
    requires RingOf(r1, hash, v, nodes) && RingOf(r2, hash, v, nodes) && Disjoint(hash, v, nodes)
    ensures r1 == r2
  {
    assert r1.Keys == r2.Keys;
    forall p | p in r1 ensures r1[p] == r2[p] {
      assert p in Points(hash, r1[p], v) && p in Points(hash, r2[p], v);
    }
  }

  /** If no two nodes share a virtual point, the whole ring, and so every answer, depends only on
      which nodes are present: not on the order, the repetitions or the detours of the history. */
  lemma HistoryIndependent(hash: Hash, v: int, ops1: seq<Op>, ops2: seq<Op>)
    requires Disjoint(hash, v, Mentioned(ops1) + Mentioned(ops2)) && Present(ops1) == Present(ops2)
    ensures RingAfter(hash, v, ops1) == RingAfter(hash, v, ops2)
  {
    RingHoldsPresent(hash, v, ops1);
    RingHoldsPresent(hash, v, ops2);
    RingOfUnique(RingAfter(hash, v, ops1), RingAfter(hash, v, ops2), hash, v, Present(ops1));
  }

  /** The condition is exact: two nodes can be added in either order with the same result if and
      only if they share no point. */
  lemma OrderMattersExactly(hash: Hash, v: int, a: string, b: string)
    requires a != b
    ensures RingAfter(hash, v, [Add(a), Add(b)]) == RingAfter(hash, v, [Add(b), Add(a)])
        <==> Points(hash, a, v) !! Points(hash, b, v)
  {
    TwoAdds(hash, v, a, b);
    TwoAdds(hash, v, b, a);
    var ab, ba := RingAfter(hash, v, [Add(a), Add(b)]), RingAfter(hash, v, [Add(b), Add(a)]);
    if p :| p in Points(hash, a, v) && p in Points(hash, b, v) {
      assert ab[p] == b && ba[p] == a;
    } else {
      assert ab == ba;
    }
  }

  lemma TwoAdds(hash: Hash, v: int, a: string, b: string)
    ensures RingAfter(hash, v, [Add(a), Add(b)]) == Added(Added(map[], Points(hash, a, v), a), Points(hash, b, v), b)
  {
    assert [Add(a), Add(b)][..1] == [Add(a)] && [Add(a)][..0] == [];
    assert RingAfter(hash, v, [Add(a)]) == Added(map[], Points(hash, a, v), a);
  }

  /** History independence, exactly: over the given nodes, histories that leave the same nodes present
      always give the same ring if and only if no two of the nodes share a virtual point. */
  lemma HistoryIndependentExactly(hash: Hash, v: int, nodes: set<string>)
    ensures (forall ops1, ops2 | SamePresent(ops1, ops2, nodes) :: RingAfter(hash, v, ops1) == RingAfter(hash, v, ops2))
        <==> Disjoint(hash, v, nodes)
  {
    hide RingAfter, Points, Present, Mentioned;
    if Disjoint(hash, v, nodes) {
      forall ops1, ops2 | SamePresent(ops1, ops2, nodes) ensures RingAfter(hash, v, ops1) == RingAfter(hash, v, ops2) {
        HistoryIndependent(hash, v, ops1, ops2);
      }
    } else {
      var a, b :| a in nodes && b in nodes && a != b && !(Points(hash, a, v) !! Points(hash, b, v));
      OrderMattersExactly(hash, v, a, b);
      PresentAfterTwo(a, b);
      PresentAfterTwo(b, a);
      assert SamePresent([Add(a), Add(b)], [Add(b), Add(a)], nodes);
    }
  }

  /** Two histories over the nodes, with the same ones present at the end. */
  predicate SamePresent(ops1: seq<Op>, ops2: seq<Op>, nodes: set<string>) {
    Mentioned(ops1) + Mentioned(ops2) <= nodes && Present(ops1) == Present(ops2)
  }

  lemma PresentAfterTwo(a: string, b: string)
    ensures Present([Add(a), Add(b)]) == {a, b} && Mentioned([Add(a), Add(b)]) == {a, b}
  {
    assert [Add(a), Add(b)][..1] == [Add(a)] && [Add(a)][..0] == [];
    assert Present([Add(a)]) == {a};
    var ops := [Add(a), Add(b)];
    assert ops[0].node == a && ops[1].node == b;
  }

  /** Adding a fresh node and removing it again undoes itself exactly when the node took over no
      point of another; a point taken over is lost with it. */
  lemma AddThenRemoveExactly(ring: map<Point, string>, points: set<Point>, node: string)
    requires node !in ring.Values
    ensures Removed(Added(ring, points, node), node) == ring <==> points !! ring.Keys
  {
    var back := Removed(Added(ring, points, node), node);
    if p :| p in points && p in ring.Keys {
      assert p !in back;
    } else {
      assert forall p | p in ring :: ring[p] in ring.Values;
      assert back.Keys == ring.Keys;
    }
  }

  // ----- the ring object -----

  predicate Sorted(s: seq<Point>) {
    forall i, j | 0 <= i < j < |s| :: s[i] <= s[j]
  }

  function Elements(s: seq<Point>): set<Point> { set x | x in s }

  lemma ElementsAppend(s: seq<Point>, x: Point)
    ensures Elements(s + [x]) == Elements(s) + {x}
  {
  }

  lemma {:induction false} ElementsSize(s: seq<Point>)
    ensures |Elements(s)| <= |s|
  {
    if s != [] {
      var front := s[..|s| - 1];
      ElementsSize(front);
      ElementsAppend(front, s[|s| - 1]);
      assert front + [s[|s| - 1]] == s;
    }
  }

  lemma PointsStep(hash: Hash, node: string, i: nat)
    ensures Points(hash, node, i + 1) == Points(hash, node, i) + {hash(VirtualKey(node, i))}
  {
  }

  lemma AddedStep(ring: map<Point, string>, points: set<Point>, node: string, p: Point)
    ensures Added(ring, points + {p}, node) == Added(ring, points, node)[p := node]
    ensures Added(ring, points, node).Keys == ring.Keys + points
  {
  }

  class Ring {
    var nodes: seq<string>
    const virtualNode: int
    const hash: Hash
    var ring: map<Point, string>
    var sortedKeys: seq<Point>

    /** The key array is sorted and holds exactly the ring's keys; a key may be there twice. */
    ghost predicate Valid() reads this {
      Sorted(sortedKeys) && Elements(sortedKeys) == ring.Keys
    }

    constructor (virtualNode: int, hash: Hash)
      ensures Valid() && nodes == [] && ring == map[] && this.virtualNode == virtualNode && this.hash == hash
    {
      this.virtualNode, this.hash := virtualNode, hash;
      nodes, ring, sortedKeys := [], map[], [];
    }

    method AddNode(node: string)
      requires Valid()
      modifies this
      ensures Valid() && nodes == old(nodes) + [node]
      ensures ring == Added(old(ring), Points(hash, node, virtualNode), node)
      ensures |sortedKeys| == |old(sortedKeys)| + Max(virtualNode, 0)
    {
      nodes := nodes + [node];
      var i := 0;
      assert Added(ring, {}, node) == ring;
      while i < virtualNode
        invariant 0 <= i <= Max(virtualNode, 0)
        invariant nodes == old(nodes) + [node]
        invariant ring == Added(old(ring), Points(hash, node, i), node)
        invariant Elements(sortedKeys) == ring.Keys && |sortedKeys| == |old(sortedKeys)| + i
      {
        var point := hash(VirtualKey(node, i));
        PointsStep(hash, node, i);
        AddedStep(old(ring), Points(hash, node, i), node, point);
        ElementsAppend(sortedKeys, point);
        ring := ring[point := node];
        sortedKeys := sortedKeys + [point];
        i := i + 1;
      }
      assert Points(hash, node, i) == Points(hash, node, virtualNode);
      sortedKeys := SortPoints(sortedKeys);
    }

    /** Drops the first occurrence of the node, and rebuilds ring and keys without its points. */
    method RemoveNode(node: string)
      requires Valid()
      modifies this
      ensures Valid() && nodes == WithoutFirst(old(nodes), node)
      ensures ring == Removed(old(ring), node)
      ensures |sortedKeys| == |ring|
    {
      var i := 0;
      while i < |nodes| && nodes[i] != node
        invariant 0 <= i <= |nodes| && node !in nodes[..i]
      {
        i := i + 1;
      }
      WithoutFirstAt(nodes, node, i);
      if i < |nodes| {
        nodes := nodes[..i] + nodes[i + 1..];
      }
      var newRing, newKeys := KeepOthers(ring, node);
      ring := newRing;
      sortedKeys := SortPoints(newKeys);
    }

    /** The length of the key array: virtual points and not nodes, and a point that was taken over
        counts again until the next removal. */
    method NodeCount() returns (n: nat)
      requires Valid()
      ensures n == |sortedKeys| >= |ring|
    {
      ElementsSize(sortedKeys);
      return |sortedKeys|;
    }

    /** The binary search with wraparound finds the clockwise owner of the key's hash. */
    method GetNode(key: string) returns (node: string)
      requires Valid()
      ensures node == Answer(ring, hash(key))
    {
      if |sortedKeys| == 0 {
        assert ring.Keys == {};
        return "";
      }
      var h := hash(key);
      var idx := Search(sortedKeys, h);
      if idx == |sortedKeys| {
        idx := 0;
      }
      assert sortedKeys[idx] in Elements(sortedKeys);
      assert Owns(ring.Keys, h, sortedKeys[idx]) by {
        forall q | q in ring.Keys ensures Clockwise(h, sortedKeys[idx]) <= Clockwise(h, q) {
          assert q in Elements(sortedKeys);
          var j :| 0 <= j < |sortedKeys| && sortedKeys[j] == q;
        }
      }
      OwnerUnique(ring.Keys, h, sortedKeys[idx], Owner(ring.Keys, h));
      return ring[sortedKeys[idx]];
    }
  }

  /** The points of the other nodes, each key once; a Go map is walked in any order. */
  method KeepOthers(ring: map<Point, string>, node: string) returns (newRing: map<Point, string>, newKeys: seq<Point>)
    ensures newRing == Removed(ring, node)
    ensures Elements(newKeys) == newRing.Keys && |newKeys| == |newRing|
  {
    newRing, newKeys := map[], [];
    var todo := ring.Keys;
    while todo != {}
      invariant todo <= ring.Keys
      invariant forall p | p in newRing :: p in ring && p !in todo && newRing[p] == ring[p] != node
      invariant forall p | p in ring && p !in todo && ring[p] != node :: p in newRing
      invariant Elements(newKeys) == newRing.Keys && |newKeys| == |newRing|
      decreases todo
    {
      var point :| point in todo;
      todo := todo - {point};
      if ring[point] != node {
        ElementsAppend(newKeys, point);
        newRing, newKeys := newRing[point := ring[point]], newKeys + [point];
      }
    }
  }

  function WithoutFirst(s: seq<string>, x: string): seq<string> {
    if s == [] then [] else if s[0] == x then s[1..] else [s[0]] + WithoutFirst(s[1..], x)
  }

  lemma {:induction false} WithoutFirstAt(s: seq<string>, x: string, i: nat)
    requires i <= |s| && x !in s[..i] && (i < |s| ==> s[i] == x)
    ensures WithoutFirst(s, x) == if i < |s| then s[..i] + s[i + 1..] else s
  {
    if i > 0 {
      assert s[0] in s[..i] && s[1..][..i - 1] == s[..i][1..];
      WithoutFirstAt(s[1..], x, i - 1);
    }
  }

  /** `sort.Search`: the first index whose key is not below h. */
  method Search(keys: seq<Point>, h: Point) returns (idx: nat)
    requires Sorted(keys)
    ensures idx <= |keys|
    ensures forall i | 0 <= i < idx :: keys[i] < h
    ensures forall i | idx <= i < |keys| :: keys[i] >= h
  {
    var i, j := 0, |keys|;
    while i < j
      invariant 0 <= i <= j <= |keys|
      invariant forall k | 0 <= k < i :: keys[k] < h
      invariant forall k | j <= k < |keys| :: keys[k] >= h
    {
      var mid := (i + j) / 2;
      if keys[mid] >= h { j := mid; } else { i := mid + 1; }
    }
    return i;
  }

  /** `sort.Slice`: any sorting routine will do. */
  method SortPoints(keys: seq<Point>) returns (sorted: seq<Point>)
    ensures Sorted(sorted) && multiset(sorted) == multiset(keys)
    ensures |sorted| == |keys| && Elements(sorted) == Elements(keys)
  {
    hide Sorted;
    EmptySorted();
    sorted := [];
    for n := 0 to |keys|
      invariant Sorted(sorted) && multiset(sorted) == multiset(keys[..n])
    {
      var idx := Search(sorted, keys[n]);
      Inserted(sorted, idx, keys[n]);
      sorted := sorted[..idx] + [keys[n]] + sorted[idx..];
      assert keys[..n + 1] == keys[..n] + [keys[n]];
    }
    assert keys[..|keys|] == keys;
    SameElements(sorted, keys);
  }

  lemma EmptySorted()
    ensures Sorted([])
  {
  }

  lemma Inserted(s: seq<Point>, idx: nat, x: Point)
    requires Sorted(s) && idx <= |s|
    requires (forall i | 0 <= i < idx :: s[i] < x) && forall i | idx <= i < |s| :: s[i] >= x
    ensures Sorted(s[..idx] + [x] + s[idx..])
    ensures multiset(s[..idx] + [x] + s[idx..]) == multiset(s) + multiset{x}
  {
    assert s == s[..idx] + s[idx..];
  }

  lemma SameElements(s: seq<Point>, t: seq<Point>)
    requires multiset(s) == multiset(t)
    ensures |s| == |t| && Elements(s) == Elements(t)
  {
    assert |multiset(s)| == |s| && |multiset(t)| == |t|;
    forall x ensures x in s <==> x in t { assert x in s <==> x in multiset(s); }
  }
}
