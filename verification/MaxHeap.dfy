// The MaxHeap index: an array-encoded binary tree of hash intervals. A full
// bucket is split into two empty children; its entries stay where they are.
module MaxHeap {
  import opened Common

  const NODE_LIMIT := 511
  const INNER_LIMIT := 255  // nodes below this one have both children in the array
  const NODE_DEPTH := 9
  const BUCKET_SIZE := 128
  const KEY_MIN: u16 := 0
  const KEY_MAX: u16 := 65535

  datatype Node = Node(min: u16, max: u16) {
    predicate Empty() {
      min == 0 && max == 0
    }

    predicate Accepts(h: u16) {
      min <= h <= max
    }

    predicate Encloses(lo: u16, hi: u16) {
      min <= lo && hi <= max
    }

    function Mean(): u16
      requires min <= max
    {
      min + (max - min) / 2
    }
  }

  const EMPTY_NODE := Node(0, 0)

  datatype Pair = Pair(key: u16, value: u16)

  const EMPTY_PAIR := Pair(0, 0)

  type Hash = u16 -> u16

  // ----- the tree -----

  function Depth(i: nat): nat {
    if i == 0 then 0 else 1 + Depth((i - 1) / 2)
  }

  // Children are both missing, or split their parent's interval at its mean.
  predicate Family(nodes: seq<Node>, p: nat)
    requires |nodes| == NODE_LIMIT && p < INNER_LIMIT
  {
    if nodes[2 * p + 1].Empty() then
      nodes[2 * p + 2].Empty()
    else
      && !nodes[p].Empty()
      && nodes[p].min < nodes[p].max
      && nodes[2 * p + 1] == Node(nodes[p].min, nodes[p].Mean())
      && nodes[2 * p + 2] == Node(nodes[p].Mean() + 1, nodes[p].max)
  }

  ghost predicate Tree(nodes: seq<Node>) {
    && |nodes| == NODE_LIMIT
    && nodes[0] == Node(KEY_MIN, KEY_MAX)
    && forall p :: 0 <= p < INNER_LIMIT ==> Family(nodes, p)
  }

  function Parent(i: nat): (p: nat)
    requires i > 0
    ensures p < i && (i == 2 * p + 1 || i == 2 * p + 2)
  {
    (i - 1) / 2
  }

  lemma {:induction false} DepthBound(i: nat, d: nat)
    requires i < Pow2(d + 1) - 1
    ensures Depth(i) <= d
  {
    assert Pow2(1) == 2;
    if i > 0 {
      DepthBound(Parent(i), d - 1);
    }
  }

  lemma {:induction false} DepthBelow(i: nat, d: nat)
    requires i >= Pow2(d) - 1
    ensures Depth(i) >= d
  {
    if d > 0 {
      DepthBelow(Parent(i), d - 1);
    }
  }

  lemma Pow2Values()
    ensures Pow2(7) == 128 && Pow2(8) == 256 && Pow2(9) == 512 && Pow2(16) == 65536
  {
    assert Pow2(4) == 16;
    assert Pow2(8) == 256;
    assert Pow2(12) == 4096;
  }

  // Every live node at depth d covers exactly 2^(16-d) hash values, so with at
  // most nine levels no live node can be mistaken for an empty one.
  lemma {:induction false} LiveNodeWidth(nodes: seq<Node>, i: nat)
    requires Tree(nodes) && i < NODE_LIMIT && !nodes[i].Empty()
    ensures Depth(i) <= 8
    ensures nodes[i].max - nodes[i].min + 1 == Pow2(16 - Depth(i)) >= 256
    ensures i > 0 ==> !nodes[Parent(i)].Empty()
  {
    Pow2Values();
    DepthBound(i, 8);
    if i > 0 {
      var p := Parent(i);
      assert Family(nodes, p);
      assert !nodes[2 * p + 1].Empty();
      LiveNodeWidth(nodes, p);
      assert Depth(i) == Depth(p) + 1;
      var e := 16 - Depth(p);
      assert Pow2(e) == 2 * Pow2(e - 1);
    }
    Pow2AtLeast(16 - Depth(i), 8);
  }

  lemma {:induction false} Pow2AtLeast(n: nat, k: nat)
    requires n >= k
    ensures Pow2(n) >= Pow2(k)
  {
    if n > k {
      Pow2AtLeast(n - 1, k);
    }
  }

  // ----- heap_find -----

  // The measures below name |nodes| rather than NODE_LIMIT so that a literal start
  // node is not unfolded all the way down.

  // The first live node at or after i that accepts h, as heap_find scans for
  // it; a node without room for children is never returned.
  function Scan(nodes: seq<Node>, i: nat, h: u16): int
    requires |nodes| == NODE_LIMIT
    decreases |nodes| - i
  {
    if i >= NODE_LIMIT || nodes[i].Empty() then -1
    else if nodes[i].Accepts(h) then (if 2 * i + 1 >= NODE_LIMIT then -1 else i)
    else Scan(nodes, i + 1, h)
  }

  function Child(nodes: seq<Node>, i: nat, h: u16): (c: nat)
    requires |nodes| == NODE_LIMIT && i < INNER_LIMIT
    ensures c == 2 * i + 1 || c == 2 * i + 2
  {
    if h <= nodes[2 * i + 1].max then 2 * i + 1 else 2 * i + 2
  }

  // The chain of buckets that may hold entries hashed to h, from node i down.
  function Path(nodes: seq<Node>, i: nat, h: u16): seq<nat>
    requires |nodes| == NODE_LIMIT
    decreases |nodes| - i
  {
    if i >= INNER_LIMIT then []
    else [i] + if nodes[2 * i + 1].Empty() then [] else Path(nodes, Child(nodes, i, h), h)
  }

  lemma ChildAccepts(nodes: seq<Node>, i: nat, h: u16)
    requires Tree(nodes) && i < INNER_LIMIT && nodes[i].Accepts(h) && !nodes[2 * i + 1].Empty()
    ensures !nodes[Child(nodes, i, h)].Empty() && nodes[Child(nodes, i, h)].Accepts(h)
  {
    assert Family(nodes, i);
    LiveNodeWidth(nodes, 2 * i + 1);
  }

  // Scanning from a node's first child finds the next bucket of the path.
  lemma ScanChildren(nodes: seq<Node>, i: nat, h: u16)
    requires Tree(nodes) && i < INNER_LIMIT && !nodes[i].Empty() && nodes[i].Accepts(h)
    ensures Scan(nodes, 2 * i + 1, h) ==
            (if nodes[2 * i + 1].Empty() || Child(nodes, i, h) >= INNER_LIMIT then -1 else Child(nodes, i, h))
  {
    assert Family(nodes, i);
    if !nodes[2 * i + 1].Empty() {
      ChildAccepts(nodes, i, h);
    }
  }

  lemma {:induction false} PathLength(nodes: seq<Node>, i: nat, h: u16)
    requires Tree(nodes) && i < NODE_LIMIT && !nodes[i].Empty() && nodes[i].Accepts(h)
    ensures |Path(nodes, i, h)| <= NODE_DEPTH - 1 - Depth(i)
    decreases |nodes| - i
  {
    LiveNodeWidth(nodes, i);
    if i < INNER_LIMIT {
      Pow2Values();
      DepthBound(i, 7);
      if !nodes[2 * i + 1].Empty() {
        ChildAccepts(nodes, i, h);
        var c := Child(nodes, i, h);
        assert Parent(c) == i;
        PathLength(nodes, c, h);
      }
    }
  }

  // Bucket b may store entries hashed to h.
  predicate Holds(nodes: seq<Node>, b: nat, h: u16)
    requires |nodes| == NODE_LIMIT
  {
    b < INNER_LIMIT && !nodes[b].Empty() && nodes[b].Accepts(h)
  }

  lemma {:induction false} PathHolds(nodes: seq<Node>, i: nat, h: u16, k: nat)
    requires Tree(nodes) && i < NODE_LIMIT && !nodes[i].Empty() && nodes[i].Accepts(h) && k < |Path(nodes, i, h)|
    ensures Path(nodes, i, h)[k] >= i && Holds(nodes, Path(nodes, i, h)[k], h)
    decreases k
  {
    if k > 0 {
      assert Path(nodes, i, h) == [i] + Path(nodes, Child(nodes, i, h), h);
      ChildAccepts(nodes, i, h);
      PathHolds(nodes, Child(nodes, i, h), h, k - 1);
    }
  }

  lemma {:induction false} PathOrder(nodes: seq<Node>, i: nat, h: u16, k: nat, m: nat)
    requires Tree(nodes) && i < NODE_LIMIT && !nodes[i].Empty() && nodes[i].Accepts(h) && k < m < |Path(nodes, i, h)|
    ensures Path(nodes, i, h)[k] < Path(nodes, i, h)[m]
    decreases k
  {
    ChildAccepts(nodes, i, h);
    var c := Child(nodes, i, h);
    if k > 0 {
      PathOrder(nodes, c, h, k - 1, m - 1);
    } else {
      PathHolds(nodes, c, h, m - 1);
    }
  }

  // Descendants of a live node: a reaches b by child links.
  predicate Above(a: nat, b: nat) {
    a == b || (b > 0 && Above(a, Parent(b)))
  }

  lemma {:induction false} AncestorEncloses(nodes: seq<Node>, a: nat, b: nat)
    requires Tree(nodes) && b < NODE_LIMIT && !nodes[b].Empty() && Above(a, b)
    ensures a <= b && !nodes[a].Empty() && nodes[a].Encloses(nodes[b].min, nodes[b].max)
    decreases b
  {
    if a != b {
      var p := Parent(b);
      LiveNodeWidth(nodes, b);
      assert Family(nodes, p);
      AncestorEncloses(nodes, a, p);
    }
  }

  lemma {:induction false} RootAboveAll(b: nat)
    ensures Above(0, b)
  {
    if b > 0 {
      RootAboveAll(Parent(b));
    }
  }

  // A path contains every inner live node below its start that accepts h.
  lemma {:induction false} PathStep(nodes: seq<Node>, i: nat, b: nat, h: u16)
    requires Tree(nodes) && Above(i, b) && b < INNER_LIMIT
    requires !nodes[b].Empty() && nodes[b].Accepts(h)
    ensures i <= b && !nodes[i].Empty() && nodes[i].Accepts(h)
    ensures b in Path(nodes, i, h)
    decreases b
  {
    AncestorEncloses(nodes, i, b);
    if i != b {
      var p := Parent(b);
      LiveNodeWidth(nodes, b);
      assert Family(nodes, p);
      PathStep(nodes, i, p, h);
      assert Child(nodes, p, h) == b;
      PathThrough(nodes, i, p, h);
    }
  }

  lemma {:induction false} PathThrough(nodes: seq<Node>, i: nat, p: nat, h: u16)
    requires |nodes| == NODE_LIMIT && p in Path(nodes, i, h)
    requires p < INNER_LIMIT && !nodes[2 * p + 1].Empty() && Child(nodes, p, h) < INNER_LIMIT
    ensures Child(nodes, p, h) in Path(nodes, i, h)
    decreases |nodes| - i
  {
    if i == p {
      assert Path(nodes, i, h)[1] == Child(nodes, p, h);
    } else {
      var c := Child(nodes, i, h);
      assert p in Path(nodes, c, h);
      PathThrough(nodes, c, p, h);
    }
  }

  // The lookup path of h is exactly the set of inner live nodes accepting h.
  lemma PathIsAcceptors(nodes: seq<Node>, h: u16, b: nat)
    requires Tree(nodes)
    ensures b in Path(nodes, 0, h) <==> b < INNER_LIMIT && !nodes[b].Empty() && nodes[b].Accepts(h)
  {
    if b in Path(nodes, 0, h) {
      var k :| 0 <= k < |Path(nodes, 0, h)| && Path(nodes, 0, h)[k] == b;
      PathHolds(nodes, 0, h, k);
    }
    if b < INNER_LIMIT && !nodes[b].Empty() && nodes[b].Accepts(h) {
      RootAboveAll(b);
      PathStep(nodes, 0, b, h);
    }
  }

  // ----- heap_insert -----

  // The node heap_insert writes for the interval [lo, hi] when it starts at i.
  function Slot(nodes: seq<Node>, i: nat, lo: u16, hi: u16): (s: int)
    requires |nodes| == NODE_LIMIT
    ensures s == -1 || i <= s < NODE_LIMIT
    decreases |nodes| - i
  {
    if i >= NODE_LIMIT then -1
    else if nodes[i].Empty() then i
    else if nodes[i].Encloses(lo, hi) then Slot(nodes, 2 * i + 1, lo, hi)
    else Slot(nodes, i + 1, lo, hi)
  }

  // Whether heap_insert reads node v on its way.
  predicate Visits(nodes: seq<Node>, i: nat, lo: u16, hi: u16, v: nat)
    requires |nodes| == NODE_LIMIT
    decreases |nodes| - i
  {
    && i < NODE_LIMIT
    && (v == i || (!nodes[i].Empty() &&
       Visits(nodes, if nodes[i].Encloses(lo, hi) then 2 * i + 1 else i + 1, lo, hi, v)))
  }

  // Ancestors of b and left siblings of such ancestors.
  ghost predicate BesideRoute(v: nat, b: nat) {
    Above(v, b) || (v % 2 == 1 && Above(v + 1, b))
  }

  // One link of the walk: from a parent that encloses the interval to its child b.
  lemma WalkLink(nodes: seq<Node>, b: nat, lo: u16, hi: u16)
    requires Tree(nodes) && 0 < b < NODE_LIMIT && !nodes[b].Empty()
    requires lo <= hi && nodes[b].Encloses(lo, hi)
    ensures !nodes[Parent(b)].Empty() && nodes[Parent(b)].Encloses(lo, hi)
    ensures b == 2 * Parent(b) + 2 ==> !nodes[b - 1].Empty() && !nodes[b - 1].Encloses(lo, hi)
  {
    LiveNodeWidth(nodes, b);
    assert Family(nodes, Parent(b));
  }

  // Inserting an interval inside live node b always walks down to b's first child.
  lemma {:induction false} SlotReaches(nodes: seq<Node>, b: nat, lo: u16, hi: u16)
    requires Tree(nodes) && b < NODE_LIMIT && !nodes[b].Empty()
    requires lo <= hi && nodes[b].Encloses(lo, hi)
    ensures Slot(nodes, 0, lo, hi) == Slot(nodes, 2 * b + 1, lo, hi)
    decreases b
  {
    if b > 0 {
      var p := Parent(b);
      WalkLink(nodes, b, lo, hi);
      SlotReaches(nodes, p, lo, hi);
      if b == 2 * p + 2 {
        var sibling := b - 1;
        assert Slot(nodes, 2 * p + 1, lo, hi) == Slot(nodes, sibling, lo, hi) == Slot(nodes, b, lo, hi);
      }
      assert Slot(nodes, b, lo, hi) == Slot(nodes, 2 * b + 1, lo, hi);
    }
  }

  // On that walk heap_insert reads only ancestors of b and their left siblings
  // before it gets to b's children.
  lemma {:induction false} VisitsBesideRoute(nodes: seq<Node>, b: nat, lo: u16, hi: u16, v: nat)
    requires Tree(nodes) && b < NODE_LIMIT && !nodes[b].Empty()
    requires lo <= hi && nodes[b].Encloses(lo, hi)
    ensures Visits(nodes, 0, lo, hi, v) ==> Visits(nodes, 2 * b + 1, lo, hi, v) || BesideRoute(v, b)
    ensures Visits(nodes, b, lo, hi, v) ==> Visits(nodes, 0, lo, hi, v)
    decreases b
  {
    assert Above(b, b);
    if b > 0 {
      var p := Parent(b);
      WalkLink(nodes, b, lo, hi);
      VisitsBesideRoute(nodes, p, lo, hi, v);
      if b == 2 * p + 2 {
        var sibling := b - 1;
        assert Visits(nodes, sibling, lo, hi, v) <==> v == sibling || Visits(nodes, b, lo, hi, v);
      }
      assert Visits(nodes, b, lo, hi, v) <==> v == b || Visits(nodes, 2 * b + 1, lo, hi, v);
    }
  }

  function LowHalf(n: Node): Node
    requires n.min <= n.max
  {
    Node(n.min, n.Mean())
  }

  function HighHalf(n: Node): Node
    requires n.min < n.max
  {
    Node(n.Mean() + 1, n.max)
  }

  // The first heap_insert of bucket_split: the low half lands on the first
  // child, or nowhere once b's children lie in the last level.
  lemma LowHalfSlot(nodes: seq<Node>, b: nat)
    requires Tree(nodes) && b < INNER_LIMIT && !nodes[b].Empty()
    ensures nodes[b].min < nodes[b].max
    ensures var lo := LowHalf(nodes[b]);
            Slot(nodes, 0, lo.min, lo.max) ==
            (if nodes[2 * b + 1].Empty() then 2 * b + 1 else Slot(nodes, 4 * b + 3, lo.min, lo.max))
  {
    LiveNodeWidth(nodes, b);
    var lo := LowHalf(nodes[b]);
    assert nodes[b].Encloses(lo.min, lo.max);
    SlotReaches(nodes, b, lo.min, lo.max);
    assert Family(nodes, b);
  }

  // The second heap_insert of bucket_split: the high half lands on the second child.
  lemma HighHalfSlot(nodes: seq<Node>, b: nat)
    requires Tree(nodes) && b < INNER_LIMIT && !nodes[b].Empty() && nodes[2 * b + 1].Empty()
    ensures nodes[b].min < nodes[b].max
    ensures var hi := HighHalf(nodes[b]);
            Slot(nodes[2 * b + 1 := LowHalf(nodes[b])], 0, hi.min, hi.max) == 2 * b + 2
  {
    SplitKeepsTree(nodes, b);
    assert Family(nodes, b);
    var after := Split(nodes, b);
    var hi := HighHalf(nodes[b]);
    assert !after[2 * b + 2].Empty() && after[2 * b + 2] == hi;
    VisitsBesideRoute(after, 2 * b + 2, hi.min, hi.max, 2 * b + 2);
    SlotFrame(after, nodes[2 * b + 1 := LowHalf(nodes[b])], 2 * b + 2, 0, hi.min, hi.max);
  }

  // If the walk in the finished tree enters the enclosing node c, then the walk
  // in the tree where c is still missing stops there.
  lemma {:induction false} SlotFrame(after: seq<Node>, before: seq<Node>, c: nat, i: nat, lo: u16, hi: u16)
    requires |after| == |before| == NODE_LIMIT && c < NODE_LIMIT
    requires before == after[c := EMPTY_NODE]
    requires !after[c].Empty() && after[c].Encloses(lo, hi)
    requires Visits(after, i, lo, hi, c)
    ensures Slot(before, i, lo, hi) == c
    decreases |after| - i
  {
    if i != c {
      if after[i].Encloses(lo, hi) {
        SlotFrame(after, before, c, 2 * i + 1, lo, hi);
      } else {
        SlotFrame(after, before, c, i + 1, lo, hi);
      }
    }
  }

  function Split(nodes: seq<Node>, b: nat): seq<Node>
    requires |nodes| == NODE_LIMIT && b < INNER_LIMIT && nodes[b].min < nodes[b].max
  {
    nodes[2 * b + 1 := LowHalf(nodes[b])][2 * b + 2 := HighHalf(nodes[b])]
  }

  lemma SplitKeepsTree(nodes: seq<Node>, b: nat)
    requires Tree(nodes) && b < INNER_LIMIT && !nodes[b].Empty() && nodes[2 * b + 1].Empty()
    ensures nodes[b].min < nodes[b].max && Tree(Split(nodes, b))
    ensures !Split(nodes, b)[2 * b + 1].Empty()
    ensures forall i :: 0 <= i < NODE_LIMIT && !nodes[i].Empty() ==> Split(nodes, b)[i] == nodes[i]
  {
    LiveNodeWidth(nodes, b);
    var after := Split(nodes, b);
    assert Family(nodes, b);
    forall p | 0 <= p < INNER_LIMIT
      ensures Family(after, p)
    {
      assert Family(nodes, p);
    }
  }

  // ----- the whole index as a value -----

  // contents[b] holds the pairs written to bucket b, oldest first.
  datatype Heap = Heap(nodes: seq<Node>, contents: seq<seq<Pair>>)

  ghost predicate Inv(s: Heap, hash: Hash) {
    && Tree(s.nodes)
    && |s.contents| == NODE_LIMIT
    && (forall b :: 0 <= b < NODE_LIMIT ==> |s.contents[b]| <= BUCKET_SIZE)
    && forall b, k :: 0 <= b < NODE_LIMIT && 0 <= k < |s.contents[b]| ==> Holds(s.nodes, b, hash(s.contents[b][k].key))
  }

  function Created(): Heap {
    Heap(seq(NODE_LIMIT, i => if i == 0 then Node(KEY_MIN, KEY_MAX) else EMPTY_NODE),
         seq<seq<Pair>>(NODE_LIMIT, i => []))
  }

  // The deepest bucket below i that heap_find returns for h.
  function BottomFrom(nodes: seq<Node>, i: nat, h: u16): (b: nat)
    requires |nodes| == NODE_LIMIT && i < INNER_LIMIT
    ensures i <= b < INNER_LIMIT
    ensures nodes[2 * b + 1].Empty() || Child(nodes, b, h) >= INNER_LIMIT
    decreases |nodes| - i
  {
    if nodes[2 * i + 1].Empty() || Child(nodes, i, h) >= INNER_LIMIT then i
    else BottomFrom(nodes, Child(nodes, i, h), h)
  }

  function Bottom(nodes: seq<Node>, h: u16): nat
    requires |nodes| == NODE_LIMIT
  {
    BottomFrom(nodes, 0, h)
  }

  lemma {:induction false} BottomHoldsFrom(nodes: seq<Node>, i: nat, h: u16)
    requires Tree(nodes) && Holds(nodes, i, h)
    ensures Holds(nodes, BottomFrom(nodes, i, h), h)
    decreases |nodes| - i
  {
    if !nodes[2 * i + 1].Empty() && Child(nodes, i, h) < INNER_LIMIT {
      ChildAccepts(nodes, i, h);
      BottomHoldsFrom(nodes, Child(nodes, i, h), h);
    }
  }

  lemma BottomHolds(nodes: seq<Node>, h: u16)
    requires Tree(nodes)
    ensures Holds(nodes, Bottom(nodes, h), h)
  {
    BottomHoldsFrom(nodes, 0, h);
  }

  lemma {:induction false} PathEndsAtBottom(nodes: seq<Node>, i: nat, h: u16)
    requires |nodes| == NODE_LIMIT && i < INNER_LIMIT
    ensures |Path(nodes, i, h)| > 0
    ensures Path(nodes, i, h)[|Path(nodes, i, h)| - 1] == BottomFrom(nodes, i, h)
    decreases |nodes| - i
  {
    if !nodes[2 * i + 1].Empty() && Child(nodes, i, h) < INNER_LIMIT {
      PathEndsAtBottom(nodes, Child(nodes, i, h), h);
    }
  }

  function Append(contents: seq<seq<Pair>>, b: nat, p: Pair): seq<seq<Pair>>
    requires b < |contents|
  {
    contents[b := contents[b] + [p]]
  }

  // The bucket an entry hashed to h goes to and the tree it goes to: the
  // deepest bucket of the path; when that is full its accepting new child,
  // or none (-1) when there is no child that the search can return.
  ghost function Room(s: Heap, hash: Hash, h: u16): (r: (seq<Node>, int))
    requires Inv(s, hash)
  {
    BottomHolds(s.nodes, h);
    var b := Bottom(s.nodes, h);
    if |s.contents[b]| < BUCKET_SIZE then (s.nodes, b)
    else if !s.nodes[2 * b + 1].Empty() then (s.nodes, -1)
    else
      SplitKeepsTree(s.nodes, b);
      var after := Split(s.nodes, b);
      var c := Child(after, b, h);
      (after, if c >= INNER_LIMIT then -1 else c)
  }

  // insert_item.
  ghost function Insert(s: Heap, hash: Hash, p: Pair): (r: (Heap, bool))
    requires Inv(s, hash)
  {
    RoomHolds(s, hash, hash(p.key));
    var (after, b) := Room(s, hash, hash(p.key));
    if b < 0 then (s.(nodes := after), false)
    else (Heap(after, Append(s.contents, b, p)), true)
  }

  // The bucket found has a free slot and may hold the entry; the tree stays a
  // tree in which every stored entry is still on the path of its hash.
  lemma RoomHolds(s: Heap, hash: Hash, h: u16)
    requires Inv(s, hash)
    ensures var (after, b) := Room(s, hash, h);
            && Inv(s.(nodes := after), hash)
            && (b >= 0 ==> Holds(after, b, h) && |s.contents[b]| < BUCKET_SIZE)
  {
    BottomHolds(s.nodes, h);
    var b := Bottom(s.nodes, h);
    if |s.contents[b]| < BUCKET_SIZE {
      assert Room(s, hash, h) == (s.nodes, b);
    } else if !s.nodes[2 * b + 1].Empty() {
      assert Room(s, hash, h) == (s.nodes, -1);
    } else {
      SplitKeepsInv(s, hash, b);
      NewChildIsFree(s, hash, b, h);
      var after := Split(s.nodes, b);
      var c := Child(after, b, h);
      assert Room(s, hash, h) == (after, if c >= INNER_LIMIT then -1 else c);
    }
  }

  lemma SplitKeepsInv(s: Heap, hash: Hash, b: nat)
    requires Inv(s, hash) && b < INNER_LIMIT && !s.nodes[b].Empty() && s.nodes[2 * b + 1].Empty()
    ensures s.nodes[b].min < s.nodes[b].max && Inv(s.(nodes := Split(s.nodes, b)), hash)
    ensures !Split(s.nodes, b)[2 * b + 1].Empty()
  {
    SplitKeepsTree(s.nodes, b);
    var t := s.(nodes := Split(s.nodes, b));
    forall i, k | 0 <= i < NODE_LIMIT && 0 <= k < |t.contents[i]|
      ensures Holds(t.nodes, i, hash(t.contents[i][k].key))
    {
      assert Holds(s.nodes, i, hash(s.contents[i][k].key));
    }
  }

  lemma NewChildIsFree(s: Heap, hash: Hash, b: nat, h: u16)
    requires Inv(s, hash) && Holds(s.nodes, b, h) && s.nodes[2 * b + 1].Empty()
    ensures s.nodes[b].min < s.nodes[b].max
    ensures var after := Split(s.nodes, b);
            var c := Child(after, b, h);
            s.contents[c] == [] && !after[c].Empty() && after[c].Accepts(h)
  {
    SplitKeepsTree(s.nodes, b);
    var after := Split(s.nodes, b);
    assert Family(s.nodes, b) && Family(after, b);
    ChildAccepts(after, b, h);
    var c := Child(after, b, h);
    assert s.contents[c] != [] ==> Holds(s.nodes, c, hash(s.contents[c][0].key));
  }

  // No insert loses, moves or duplicates an entry, and a refused one stores nothing.
  lemma InsertEffect(s: Heap, hash: Hash, p: Pair)
    requires Inv(s, hash)
    ensures Inv(Insert(s, hash, p).0, hash)
    ensures var (t, ok) := Insert(s, hash, p);
            if ok then
              exists b ::
                0 <= b < NODE_LIMIT && Holds(t.nodes, b, hash(p.key)) && t.contents == Append(s.contents, b, p)
            else t.contents == s.contents
  {
    RoomHolds(s, hash, hash(p.key));
    var (after, b) := Room(s, hash, hash(p.key));
    if b >= 0 {
      AppendKeepsInv(s.(nodes := after), hash, b, p);
    }
  }

  // An insert is refused exactly when the key's bucket is full and lies in the
  // eighth level, whose children the search never returns.
  lemma InsertRefusedIff(s: Heap, hash: Hash, p: Pair)
    requires Inv(s, hash)
    ensures var b := Bottom(s.nodes, hash(p.key));
            b < NODE_LIMIT && (!Insert(s, hash, p).1 <==> |s.contents[b]| == BUCKET_SIZE && Depth(b) == 7)
  {
    var h := hash(p.key);
    var b := Bottom(s.nodes, h);
    BottomHolds(s.nodes, h);
    EighthLevel(b);
    if |s.contents[b]| < BUCKET_SIZE {
      assert Room(s, hash, h) == (s.nodes, b);
    } else if !s.nodes[2 * b + 1].Empty() {
      assert Room(s, hash, h) == (s.nodes, -1);
    } else {
      SplitKeepsTree(s.nodes, b);
      var c := Child(Split(s.nodes, b), b, h);
      assert Room(s, hash, h) == (Split(s.nodes, b), if c >= INNER_LIMIT then -1 else c);
    }
  }

  lemma EighthLevel(b: nat)
    requires b < INNER_LIMIT
    ensures Depth(b) == 7 <==> 2 * b + 1 >= INNER_LIMIT
  {
    Pow2Values();
    DepthBound(b, 7);
    if b < 127 {
      DepthBound(b, 6);
    } else {
      DepthBelow(b, 7);
    }
  }

  lemma AppendKeepsInv(s: Heap, hash: Hash, b: nat, p: Pair)
    requires Inv(s, hash) && Holds(s.nodes, b, hash(p.key)) && |s.contents[b]| < BUCKET_SIZE
    ensures Inv(s.(contents := Append(s.contents, b, p)), hash)
  {
  }

  lemma CreatedInv(hash: Hash)
    ensures Inv(Created(), hash)
  {
    var s := Created();
    forall p | 0 <= p < INNER_LIMIT
      ensures Family(s.nodes, p)
    {
    }
  }

  // ----- whole runs -----

  // The index after a run of inserts, and the pairs whose insert succeeded.
  ghost function Run(hash: Hash, ps: seq<Pair>): (r: (Heap, seq<Pair>))
    ensures Inv(r.0, hash)
  {
    if ps == [] then
      CreatedInv(hash);
      (Created(), [])
    else
      var (s, done) := Run(hash, ps[..|ps| - 1]);
      var p := ps[|ps| - 1];
      InsertEffect(s, hash, p);
      var (t, ok) := Insert(s, hash, p);
      (t, if ok then done + [p] else done)
  }

  function Pairs(contents: seq<seq<Pair>>): multiset<Pair> {
    if contents == [] then multiset{} else multiset(contents[0]) + Pairs(contents[1..])
  }

  lemma {:induction false} PairsOfAppend(contents: seq<seq<Pair>>, b: nat, p: Pair)
    requires b < |contents|
    ensures Pairs(Append(contents, b, p)) == Pairs(contents) + multiset{p}
  {
    if b == 0 {
      assert Append(contents, b, p)[1..] == contents[1..];
    } else {
      assert Append(contents, b, p)[1..] == Append(contents[1..], b - 1, p);
      PairsOfAppend(contents[1..], b - 1, p);
    }
  }

  lemma {:induction false} PairsMembers(contents: seq<seq<Pair>>, p: Pair)
    ensures p in Pairs(contents) <==> exists b :: 0 <= b < |contents| && p in contents[b]
  {
    if contents != [] {
      PairsMembers(contents[1..], p);
      if p in contents[0] {
      } else {
        forall b | 0 <= b < |contents| && p in contents[b]
          ensures p in Pairs(contents[1..])
        {
          assert contents[1..][b - 1] == contents[b];
        }
      }
    }
  }

  lemma {:induction false} NoPairs(n: nat)
    ensures Pairs(seq<seq<Pair>>(n, i => [])) == multiset{}
  {
    if n > 0 {
      assert seq<seq<Pair>>(n, i => [])[1..] == seq<seq<Pair>>(n - 1, i => []);
      NoPairs(n - 1);
    }
  }

  // After any run the buckets hold exactly the accepted pairs, with multiplicity.
  lemma {:induction false} RunConservesPairs(hash: Hash, ps: seq<Pair>)
    ensures var (s, done) := Run(hash, ps); Pairs(s.contents) == multiset(done)
  {
    if ps == [] {
      NoPairs(NODE_LIMIT);
    } else {
      var (s, done) := Run(hash, ps[..|ps| - 1]);
      var p := ps[|ps| - 1];
      RunConservesPairs(hash, ps[..|ps| - 1]);
      InsertEffect(s, hash, p);
      var (t, ok) := Insert(s, hash, p);
      if ok {
        var b :| 0 <= b < NODE_LIMIT && t.contents == Append(s.contents, b, p);
        PairsOfAppend(s.contents, b, p);
      }
    }
  }

  // ----- lookup -----

  lemma PathExtent(nodes: seq<Node>, h: u16)
    requires Tree(nodes)
    ensures 0 < |Path(nodes, 0, h)| < NODE_DEPTH
    ensures Path(nodes, 0, h)[|Path(nodes, 0, h)| - 1] == Bottom(nodes, h)
    ensures Within(Path(nodes, 0, h), NODE_LIMIT)
  {
    PathLength(nodes, 0, h);
    PathEndsAtBottom(nodes, 0, h);
    forall k | 0 <= k < |Path(nodes, 0, h)|
      ensures Path(nodes, 0, h)[k] < NODE_LIMIT
    {
      PathHolds(nodes, 0, h, k);
    }
  }

  ghost predicate Within(path: seq<nat>, n: nat) {
    forall k :: 0 <= k < |path| ==> path[k] < n
  }

  function SearchBucket(pairs: seq<Pair>, key: u16): Option<u16> {
    if pairs == [] then None
    else if pairs[0].key == key then Some(pairs[0].value)
    else SearchBucket(pairs[1..], key)
  }

  // Buckets are searched from the end of the path back to the root.
  ghost function Search(contents: seq<seq<Pair>>, path: seq<nat>, key: u16): Option<u16>
    requires Within(path, |contents|)
  {
    if path == [] then None
    else
      var last := |path| - 1;
      var found := SearchBucket(contents[path[last]], key);
      if found.Some? then found else Search(contents, path[..last], key)
  }

  lemma {:induction false} SearchBucketMeaning(pairs: seq<Pair>, key: u16)
    ensures SearchBucket(pairs, key).None? <==> forall k :: 0 <= k < |pairs| ==> pairs[k].key != key
    ensures SearchBucket(pairs, key).Some? ==> Pair(key, SearchBucket(pairs, key).value) in pairs
  {
    if pairs != [] {
      SearchBucketMeaning(pairs[1..], key);
    }
  }

  lemma {:induction false} SearchMeaning(contents: seq<seq<Pair>>, path: seq<nat>, key: u16)
    requires Within(path, |contents|)
    ensures Search(contents, path, key).None? <==>
            forall j, k :: 0 <= j < |path| && 0 <= k < |contents[path[j]]| ==> contents[path[j]][k].key != key
    ensures Search(contents, path, key).Some? ==>
            exists j :: 0 <= j < |path| && Pair(key, Search(contents, path, key).value) in contents[path[j]]
  {
    if path != [] {
      var last := |path| - 1;
      SearchBucketMeaning(contents[path[last]], key);
      SearchMeaning(contents, path[..last], key);
    }
  }

  // The first slot with the key in bucket b.
  ghost predicate FirstSlot(pairs: seq<Pair>, key: u16, k: nat) {
    k < |pairs| && pairs[k].key == key && forall j :: 0 <= j < k ==> pairs[j].key != key
  }

  lemma {:induction false} SearchBucketFirst(pairs: seq<Pair>, key: u16) returns (k: nat)
    requires SearchBucket(pairs, key).Some?
    ensures FirstSlot(pairs, key, k) && SearchBucket(pairs, key) == Some(pairs[k].value)
  {
    if pairs[0].key == key {
      k := 0;
    } else {
      k := SearchBucketFirst(pairs[1..], key);
      k := k + 1;
      assert forall j :: 1 <= j < k ==> pairs[j] == pairs[1..][j - 1];
    }
  }

  // Of several pairs with the key, the search gives the oldest one in the bucket nearest
  // to the end of the path.
  lemma {:induction false} SearchFindsOldest(contents: seq<seq<Pair>>, path: seq<nat>, key: u16)
    returns (q: nat, k: nat)
    requires Within(path, |contents|) && Search(contents, path, key).Some?
    ensures q < |path| && FirstSlot(contents[path[q]], key, k)
    ensures forall j, i :: q < j < |path| && 0 <= i < |contents[path[j]]| ==> contents[path[j]][i].key != key
    ensures Search(contents, path, key) == Some(contents[path[q]][k].value)
  {
    var last := |path| - 1;
    SearchBucketMeaning(contents[path[last]], key);
    if SearchBucket(contents[path[last]], key).Some? {
      q := last;
      k := SearchBucketFirst(contents[path[last]], key);
    } else {
      q, k := SearchFindsOldest(contents, path[..last], key);
    }
  }

  ghost function Lookup(s: Heap, hash: Hash, key: u16): Option<u16>
    requires Inv(s, hash)
  {
    PathExtent(s.nodes, hash(key));
    Search(s.contents, Path(s.nodes, 0, hash(key)), key)
  }

  // The accepted pairs are those in the buckets of their path.
  lemma StoredOnPath(hash: Hash, ps: seq<Pair>, p: Pair)
    ensures var (s, done) := Run(hash, ps);
            var path := Path(s.nodes, 0, hash(p.key));
            && Within(path, |s.contents|)
            && (p in done <==> exists j :: 0 <= j < |path| && p in s.contents[path[j]])
  {
    var (s, done) := Run(hash, ps);
    var path := Path(s.nodes, 0, hash(p.key));
    PathExtent(s.nodes, hash(p.key));
    RunConservesPairs(hash, ps);
    PairsMembers(s.contents, p);
    hide Run, Path;
    assert p in done <==> p in multiset(done);
    if p in done {
      var b :| 0 <= b < NODE_LIMIT && p in s.contents[b];
      var k :| 0 <= k < |s.contents[b]| && s.contents[b][k] == p;
      assert Holds(s.nodes, b, hash(s.contents[b][k].key));
      PathIsAcceptors(s.nodes, hash(p.key), b);
      var j :| 0 <= j < |path| && path[j] == b;
    }
  }

  // Whatever was inserted before, a lookup misses only keys that were never
  // accepted, and what it returns was stored under the key.
  lemma LookupAfterRun(hash: Hash, ps: seq<Pair>, key: u16)
    ensures var (s, done) := Run(hash, ps);
            && (Lookup(s, hash, key).None? <==> forall v :: Pair(key, v) !in done)
            && (Lookup(s, hash, key).Some? ==> Pair(key, Lookup(s, hash, key).value) in done)
  {
    var (s, done) := Run(hash, ps);
    var path := Path(s.nodes, 0, hash(key));
    PathExtent(s.nodes, hash(key));
    SearchMeaning(s.contents, path, key);
    forall v: u16
      ensures Pair(key, v) in done <==> exists j :: 0 <= j < |path| && Pair(key, v) in s.contents[path[j]]
    {
      StoredOnPath(hash, ps, Pair(key, v));
    }
    hide Run, Path, Search;
    if Lookup(s, hash, key).None? {
      forall v: u16 | Pair(key, v) in done
        ensures false
      {
      }
    }
  }

  // For a full bucket: split it if its children are free, then scan from them.
  lemma RoomByScan(s: Heap, hash: Hash, h: u16)
    requires Inv(s, hash) && |s.contents[Bottom(s.nodes, h)]| == BUCKET_SIZE
    ensures var b := Bottom(s.nodes, h);
            && !s.nodes[b].Empty() && s.nodes[b].min < s.nodes[b].max
            && (!s.nodes[2 * b + 1].Empty() ==> 2 * b + 1 >= INNER_LIMIT)
            && Room(s, hash, h) ==
               if s.nodes[2 * b + 1].Empty() then (Split(s.nodes, b), Scan(Split(s.nodes, b), 2 * b + 1, h))
               else (s.nodes, -1)
  {
    BottomHolds(s.nodes, h);
    var b := Bottom(s.nodes, h);
    LiveNodeWidth(s.nodes, b);
    if s.nodes[2 * b + 1].Empty() {
      SplitKeepsTree(s.nodes, b);
      ScanChildren(Split(s.nodes, b), b, h);
    }
  }

  // Where heap_find continues after it has returned the first n path nodes.
  function StartAfter(path: seq<nat>, n: nat): nat
    requires n <= |path|
  {
    if n == 0 then 0 else 2 * path[n - 1] + 1
  }

  // heap_find, called again from the children of the last bucket it returned,
  // enumerates the path and then fails.
  lemma NextOnPath(nodes: seq<Node>, h: u16, path: seq<nat>, visited: nat)
    requires Tree(nodes) && path == Path(nodes, 0, h) && visited <= |path|
    ensures Scan(nodes, StartAfter(path, visited), h) == if visited < |path| then path[visited] else -1
  {
    if visited > 0 {
      var b := path[visited - 1];
      PathLink(nodes, 0, h, visited - 1);
      PathHolds(nodes, 0, h, visited - 1);
      ScanChildren(nodes, b, h);
      assert StartAfter(path, visited) == 2 * b + 1;
    }
  }

  // Node b is followed on a path by its accepting child, if that is an inner node.
  ghost predicate Linked(nodes: seq<Node>, path: seq<nat>, h: u16, k: nat)
    requires |nodes| == NODE_LIMIT
  {
    && k < |path|
    && path[k] < INNER_LIMIT
    && (if nodes[2 * path[k] + 1].Empty() || Child(nodes, path[k], h) >= INNER_LIMIT then k + 1 == |path|
        else k + 1 < |path| && path[k + 1] == Child(nodes, path[k], h))
  }

  lemma {:induction false} PathLink(nodes: seq<Node>, i: nat, h: u16, k: nat)
    requires |nodes| == NODE_LIMIT && k < |Path(nodes, i, h)|
    ensures Linked(nodes, Path(nodes, i, h), h, k)
    decreases k
  {
    if k == 0 {
      FirstLinked(nodes, i, h);
    } else {
      PathTail(nodes, i, h);
      PathLink(nodes, Child(nodes, i, h), h, k - 1);
      LinkedBehind(nodes, i, Path(nodes, Child(nodes, i, h), h), h, k - 1);
      hide *;
    }
  }

  lemma LinkedBehind(nodes: seq<Node>, i: nat, path: seq<nat>, h: u16, k: nat)
    requires |nodes| == NODE_LIMIT && Linked(nodes, path, h, k)
    ensures Linked(nodes, [i] + path, h, k + 1)
  {
    hide Child;
  }

  lemma FirstLinked(nodes: seq<Node>, i: nat, h: u16)
    requires |nodes| == NODE_LIMIT && Path(nodes, i, h) != []
    ensures Linked(nodes, Path(nodes, i, h), h, 0)
  {
    hide Child;
  }

  lemma PathTail(nodes: seq<Node>, i: nat, h: u16)
    requires |nodes| == NODE_LIMIT && |Path(nodes, i, h)| > 1
    ensures i < INNER_LIMIT && Child(nodes, i, h) < NODE_LIMIT
    ensures Path(nodes, i, h) == [i] + Path(nodes, Child(nodes, i, h), h)
  {
    hide Child;
  }
}
