// The MaxHeap index in place: its operations on heap storage, bucket storage and the cache entry.
module MaxHeapIndex {
  import opened Common
  import opened MaxHeap
  import opened MaxHeapCache

  // The pairs written to each bucket: its first slots[b] slots.
  ghost function Written(buckets: seq<seq<Pair>>, slots: seq<nat>): (c: seq<seq<Pair>>)
    requires |buckets| == |slots|
    requires forall b :: 0 <= b < |slots| ==> slots[b] <= |buckets[b]|
    ensures |c| == |buckets|
  {
    seq(|buckets|, b requires 0 <= b < |buckets| => buckets[b][..slots[b]])
  }

  class Index {
    const hash: Hash
    var nodes: seq<Node>             // heap storage
    var buckets: seq<seq<Pair>>      // bucket storage, BUCKET_SIZE pairs each
    const nextFreeSlot: array<nat>
    var cachedBucket: int            // the only cache entry; -1 while it is free
    const cachedPairs: array<Pair>
    ghost var loaded: nat            // how many slots were in use when it was read

    ghost predicate Shape()
      reads this`buckets, nextFreeSlot
    {
      && |buckets| == nextFreeSlot.Length == NODE_LIMIT
      && cachedPairs.Length == BUCKET_SIZE
      && (forall b :: 0 <= b < NODE_LIMIT ==> nextFreeSlot[b] <= |buckets[b]| == BUCKET_SIZE)
      && forall b, k :: 0 <= b < NODE_LIMIT && nextFreeSlot[b] <= k < BUCKET_SIZE ==> buckets[b][k] == EMPTY_PAIR
    }

    ghost function Contents(): (c: seq<seq<Pair>>)
      requires Shape()
      reads this`buckets, nextFreeSlot
      ensures |c| == NODE_LIMIT
    {
      Written(buckets, nextFreeSlot[..])
    }

    ghost function View(): Heap
      requires Shape()
      reads this`nodes, this`buckets, nextFreeSlot
    {
      Heap(nodes, Contents())
    }

    ghost predicate Valid()
      reads this, nextFreeSlot
    {
      Shape() && Inv(View(), hash)
    }

    ghost function CacheView(): Cache
      reads this`cachedBucket, this`loaded, cachedPairs
    {
      Cache(cachedBucket, cachedPairs[..], loaded)
    }

    constructor (hash: Hash)
      ensures Valid() && View() == Created() && CacheView() == NO_CACHE
      ensures this.hash == hash && fresh(nextFreeSlot) && fresh(cachedPairs)
    {
      this.hash := hash;
      nodes := seq(NODE_LIMIT, i => EMPTY_NODE);
      buckets := seq(NODE_LIMIT, i => seq(BUCKET_SIZE, k => EMPTY_PAIR));
      nextFreeSlot := new nat[NODE_LIMIT](i => 0);
      cachedBucket, loaded := -1, 0;
      cachedPairs := new Pair[BUCKET_SIZE](i => EMPTY_PAIR);
      new;
      var root := HeapInsert(KEY_MIN, KEY_MAX);
      assert nodes == Created().nodes;
      assert Contents() == Created().contents;
      CreatedInv(hash);
    }

    method HeapInsert(lo: u16, hi: u16) returns (r: int)
      requires |nodes| == NODE_LIMIT && lo <= hi
      modifies this`nodes
      ensures r == Slot(old(nodes), 0, lo, hi)
      ensures nodes == if r < 0 then old(nodes) else old(nodes)[r := Node(lo, hi)]
    {
      var i := 0;
      while i < NODE_LIMIT
        invariant 0 <= i
        invariant Slot(nodes, i, lo, hi) == Slot(nodes, 0, lo, hi)
        invariant nodes == old(nodes)
        decreases NODE_LIMIT - i
      {
        if nodes[i].Empty() {
          nodes := nodes[i := Node(lo, hi)];
          return i;
        } else if nodes[i].Encloses(lo, hi) {
          i := 2 * i + 1;
        } else {
          i := i + 1;
        }
      }
      return -1;
    }

    method HeapFind(key: u16, start: nat) returns (r: int, next: nat)
      requires |nodes| == NODE_LIMIT
      ensures r == Scan(nodes, start, hash(key))
      ensures next == if r < 0 then start else 2 * r + 1
    {
      var hashed := hash(key);
      var i := start;
      while i < NODE_LIMIT
        invariant Scan(nodes, i, hashed) == Scan(nodes, start, hashed)
      {
        if nodes[i].Empty() {
          break;
        } else if nodes[i].Accepts(hashed) {
          var firstChild := 2 * i + 1;
          if firstChild >= NODE_LIMIT {
            break;
          }
          return i, firstChild;
        } else {
          i := i + 1;
        }
      }
      return -1, start;
    }

    method BucketSplit(b: nat) returns (ok: bool)
      requires Tree(nodes) && b < INNER_LIMIT && !nodes[b].Empty()
      requires !nodes[2 * b + 1].Empty() ==> 2 * b + 1 >= INNER_LIMIT
      modifies this`nodes
      ensures old(nodes)[b].min < old(nodes)[b].max
      ensures ok == old(nodes)[2 * b + 1].Empty()
      ensures nodes == if ok then Split(old(nodes), b) else old(nodes)
    {
      LowHalfSlot(nodes, b);
      var node := nodes[b];
      var mean := node.Mean();
      var small := HeapInsert(node.min, mean);
      if small < 0 {
        return false;
      }
      HighHalfSlot(old(nodes), b);
      var large := HeapInsert(mean + 1, node.max);
      return large >= 0;
    }

    method BucketAppend(b: nat, p: Pair) returns (ok: bool)
      requires Shape() && b < NODE_LIMIT
      modifies this`buckets, nextFreeSlot
      ensures Shape()
      ensures ok == (|old(Contents()[b])| < BUCKET_SIZE)
      ensures Contents() == if ok then Append(old(Contents()), b, p) else old(Contents())
    {
      if nextFreeSlot[b] >= BUCKET_SIZE {
        return false;
      }
      var k := nextFreeSlot[b];
      buckets := buckets[b := buckets[b][k := p]];
      nextFreeSlot[b] := k + 1;
      forall i | 0 <= i < NODE_LIMIT
        ensures Contents()[i] == Append(old(Contents()), b, p)[i]
      {
      }
      return true;
    }

    // The loop of insert_item: heap_find until it fails; the last hit counts.
    method FindBottom(key: u16) returns (b: nat, start: nat)
      requires Tree(nodes)
      ensures b == Bottom(nodes, hash(key)) && start == 2 * b + 1
      ensures Holds(nodes, b, hash(key))
    {
      ghost var h := hash(key);
      ghost var path := Path(nodes, 0, h);
      ghost var visited := 0;
      var last := -1;
      start := 0;
      while true
        invariant 0 <= visited <= |path| && start == StartAfter(path, visited)
        invariant last == if visited == 0 then -1 else path[visited - 1]
        decreases |path| - visited
      {
        NextOnPath(nodes, h, path, visited);
        var c, next := HeapFind(key, start);
        start := next;
        if c < 0 {
          break;
        }
        last := c;
        visited := visited + 1;
      }
      PathEndsAtBottom(nodes, 0, h);
      BottomHolds(nodes, h);
      b := last;
    }

    // The part of insert_item that splits a full bucket and selects a child.
    method MakeRoom(key: u16, b: nat, start: nat) returns (c: int)
      requires Valid()
      requires b == Bottom(nodes, hash(key)) && start == 2 * b + 1 && Holds(nodes, b, hash(key))
      modifies this`nodes
      ensures (nodes, c) == Room(old(View()), hash, hash(key))
    {
      if nextFreeSlot[b] < BUCKET_SIZE {
        return b;
      }
      RoomByScan(View(), hash, hash(key));
      var split := BucketSplit(b);
      if !split {
        return -1;
      }
      var found, _ := HeapFind(key, start);
      return found;
    }

    // Insertion follows the value-level Insert.
    method InsertItem(key: u16, value: u16) returns (ok: bool)
      requires Valid()
      modifies this`nodes, this`buckets, nextFreeSlot
      ensures Valid()
      ensures (View(), ok) == MaxHeap.Insert(old(View()), hash, Pair(key, value))
    {
      ghost var s := View();
      InsertEffect(s, hash, Pair(key, value));
      RoomHolds(s, hash, hash(key));
      var b, start := FindBottom(key);
      var c := MakeRoom(key, b, start);
      if c < 0 {
        return false;
      }
      ok := BucketAppend(c, Pair(key, value));
    }

    method FirstEmptySlot() returns (i: nat)
      requires cachedPairs.Length == BUCKET_SIZE
      ensures i <= BUCKET_SIZE && (i < BUCKET_SIZE ==> cachedPairs[i] == EMPTY_PAIR)
      ensures forall k :: 0 <= k < i ==> cachedPairs[k] != EMPTY_PAIR
    {
      i := 0;
      while i < BUCKET_SIZE && cachedPairs[i] != EMPTY_PAIR
        invariant i <= BUCKET_SIZE
        invariant forall k :: 0 <= k < i ==> cachedPairs[k] != EMPTY_PAIR
      {
        i := i + 1;
      }
    }

    // bucket_read: the first slots of a bucket go over the front of the cache entry.
    method BucketRead(b: nat, size: nat)
      requires Shape() && b < NODE_LIMIT && size <= BUCKET_SIZE
      modifies cachedPairs
      ensures cachedPairs[..] == buckets[b][..size] + old(cachedPairs[size..])
    {
      var k := 0;
      while k < size
        invariant 0 <= k <= size
        invariant forall i :: 0 <= i < k ==> cachedPairs[i] == buckets[b][i]
        invariant forall i :: k <= i < BUCKET_SIZE ==> cachedPairs[i] == old(cachedPairs[i])
      {
        cachedPairs[k] := buckets[b][k];
        k := k + 1;
      }
    }

    // bucket_load: reads a bucket into the only cache entry, unless that entry
    // already carries the bucket's number.
    method BucketLoad(b: nat)
      requires Shape() && b < NODE_LIMIT
      modifies this`cachedBucket, this`loaded, cachedPairs, nextFreeSlot
      ensures Shape() && nextFreeSlot[..] == old(nextFreeSlot[..])
      ensures CacheView() == Load(old(CacheView()), b, old(Contents()[b]))
    {
      if cachedBucket == b {
        return;
      }
      BucketRead(b, if nextFreeSlot[b] == 0 then BUCKET_SIZE else nextFreeSlot[b]);
      cachedBucket, loaded := b, nextFreeSlot[b];
      if nextFreeSlot[b] == 0 {
        assert cachedPairs[..] == Blank();
        assert cachedPairs[0] == EMPTY_PAIR;
        var i := FirstEmptySlot();
        nextFreeSlot[b] := i;
      }
    }

    // get_next collects the path of the key's hash, root first.
    method CollectPath(key: u16) returns (visited: seq<nat>)
      requires Tree(nodes)
      ensures visited == Path(nodes, 0, hash(key))
    {
      ghost var h := hash(key);
      ghost var path := Path(nodes, 0, h);
      PathExtent(nodes, h);
      visited := [];
      var start, i := 0, 0;
      while i < NODE_DEPTH
        invariant 0 <= i == |visited| <= |path|
        invariant forall m :: 0 <= m < i ==> visited[m] == path[m]
        invariant start == StartAfter(path, i)
      {
        NextOnPath(nodes, h, path, i);
        var b, next := HeapFind(key, start);
        if b < 0 {
          break;
        }
        visited := visited + [b];
        start := next;
        i := i + 1;
      }
    }

    method SearchCached(key: u16, size: nat) returns (r: Option<u16>)
      requires size <= cachedPairs.Length
      ensures r == SearchBucket(cachedPairs[..size], key)
    {
      var k := 0;
      while k < size
        invariant 0 <= k <= size
        invariant SearchBucket(cachedPairs[..size][k..], key) == SearchBucket(cachedPairs[..size], key)
      {
        if cachedPairs[k].key == key {
          return Some(cachedPairs[k].value);
        }
        k := k + 1;
      }
      return None;
    }

    method LoadAndSearch(b: nat, key: u16) returns (r: Option<u16>)
      requires Shape() && b < NODE_LIMIT
      modifies this`cachedBucket, this`loaded, cachedPairs, nextFreeSlot
      ensures Shape() && Contents() == old(Contents())
      ensures CacheView() == Load(old(CacheView()), b, Contents()[b])
      ensures |Contents()[b]| <= cachedPairs.Length
      ensures r == SearchBucket(CacheView().pairs[..|Contents()[b]|], key)
    {
      BucketLoad(b);
      assert Contents() == old(Contents());
      r := SearchCached(key, nextFreeSlot[b]);
      assert CacheView().pairs[..nextFreeSlot[b]] == cachedPairs[..nextFreeSlot[b]];
    }

    // Searches the collected buckets from the last to the first.
    method SearchBackwards(path: seq<nat>, key: u16) returns (r: Option<u16>)
      requires Shape() && Within(path, NODE_LIMIT)
      modifies this`cachedBucket, this`loaded, cachedPairs, nextFreeSlot
      ensures Shape() && Contents() == old(Contents()) && Sized(Contents())
      ensures (r, CacheView()) == Through(old(CacheView()), Contents(), path, key)
    {
      hide SearchBucket, Load;
      ghost var contents := Contents();
      assert path[..|path|] == path;
      r := None;
      var j := |path|;
      while r.None? && j > 0
        invariant 0 <= j <= |path|
        invariant Shape() && Contents() == contents
        invariant Through(old(CacheView()), contents, path, key) ==
                  if r.Some? then (r, CacheView()) else Through(CacheView(), contents, path[..j], key)
      {
        assert path[..j][..j - 1] == path[..j - 1];
        j := j - 1;
        r := LoadAndSearch(path[j], key);
      }
    }

    // The first get_next of an equality search for key.
    method GetNext(key: u16) returns (r: Option<u16>)
      requires Valid()
      modifies this`cachedBucket, this`loaded, cachedPairs, nextFreeSlot
      ensures Valid() && View() == old(View())
      ensures Sized(View().contents)
      ensures (r, CacheView()) == Through(old(CacheView()), View().contents, PathOf(View(), hash, key), key)
    {
      var visited := CollectPath(key);
      assert visited == PathOf(View(), hash, key);
      r := SearchBackwards(visited, key);
    }

    // An operation of a history, on an index that the history so far has led to.
    method Perform(op: Op, ghost before: seq<Op>) returns (r: Option<u16>)
      requires Valid() && View() == HeapAfter(hash, before) && CacheView() == CacheAfter(hash, before)
      modifies this`nodes, this`buckets, nextFreeSlot, this`cachedBucket, this`loaded, cachedPairs
      ensures Valid() && View() == HeapAfter(hash, before + [op]) && CacheView() == CacheAfter(hash, before + [op])
      ensures op.Find? ==> r == Answer(hash, before, op.key)
    {
      assert (before + [op])[..|before|] == before;
      match op
      case Insert(p) =>
        assert Inserts(before + [op])[..|Inserts(before)|] == Inserts(before);
        var _ := InsertItem(p.key, p.value);
        r := None;
      case Find(key) =>
        assert Inserts(before + [op]) == Inserts(before);
        r := GetNext(key);
    }
  }
}
