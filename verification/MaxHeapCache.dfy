// The single bucket cache entry of the MaxHeap index, and what lookups through it find.
module MaxHeapCache {
  import opened Common
  import opened MaxHeap

  // A copy of a bucket, -1 while there is none, and how many of the bucket's
  // slots were in use when it was read.
  datatype Cache = Cache(bucket: int, pairs: seq<Pair>, loaded: nat)

  function Blank(): (b: seq<Pair>)
    ensures |b| == BUCKET_SIZE && forall k :: 0 <= k < |b| ==> b[k] == EMPTY_PAIR
  {
    seq(BUCKET_SIZE, i => EMPTY_PAIR)
  }

  const NO_CACHE := Cache(-1, Blank(), 0)

  // bucket_load: the slots in use, or all of an empty bucket, are read over the
  // front of the entry, unless it already carries the bucket's number.
  function Load(c: Cache, b: nat, stored: seq<Pair>): (r: Cache)
    requires |stored| <= BUCKET_SIZE == |c.pairs|
    ensures |r.pairs| == BUCKET_SIZE && r.bucket == b
  {
    if c.bucket == b then c
    else Cache(b, if stored == [] then Blank() else stored + c.pairs[|stored|..], |stored|)
  }

  ghost predicate Sized(contents: seq<seq<Pair>>) {
    forall b :: 0 <= b < |contents| ==> |contents[b]| <= BUCKET_SIZE
  }

  // get_next's search of a path from its end to the root: of each bucket, as
  // many slots of the cached copy are searched as the stored bucket has in use.
  ghost function Through(c: Cache, contents: seq<seq<Pair>>, path: seq<nat>, key: u16): (r: (Option<u16>, Cache))
    requires |c.pairs| == BUCKET_SIZE && Sized(contents) && Within(path, |contents|)
    ensures |r.1.pairs| == BUCKET_SIZE
    decreases |path|
  {
    if path == [] then (None, c)
    else
      var last := |path| - 1;
      var stored := contents[path[last]];
      var c' := Load(c, path[last], stored);
      var found := SearchBucket(c'.pairs[..|stored|], key);
      if found.Some? then (found, c') else Through(c', contents, path[..last], key)
  }

  ghost predicate Distinct(path: seq<nat>) {
    forall i, j :: 0 <= i < j < |path| ==> path[i] != path[j]
  }

  // A path whose last bucket is not the cached one is read from storage.
  lemma {:induction false} ReadAfresh(c: Cache, contents: seq<seq<Pair>>, path: seq<nat>, key: u16)
    requires |c.pairs| == BUCKET_SIZE && Sized(contents) && Within(path, |contents|) && Distinct(path)
    requires path != [] ==> c.bucket != path[|path| - 1]
    ensures Through(c, contents, path, key).0 == Search(contents, path, key)
    decreases |path|
  {
    if path != [] {
      var last := |path| - 1;
      var stored := contents[path[last]];
      var c' := Load(c, path[last], stored);
      assert c'.pairs[..|stored|] == stored;
      ReadAfresh(c', contents, path[..last], key);
    }
  }

  function OrElse(a: Option<u16>, b: Option<u16>): Option<u16> {
    if a.Some? then a else b
  }

  lemma {:induction false} SearchJoined(a: seq<Pair>, b: seq<Pair>, key: u16)
    ensures SearchBucket(a + b, key) == OrElse(SearchBucket(a, key), SearchBucket(b, key))
  {
    if a == [] {
      assert a + b == b;
    } else {
      assert (a + b)[1..] == a[1..] + b;
      SearchJoined(a[1..], b, key);
    }
  }

  // ----- histories of inserts and lookups -----

  datatype Op = Insert(p: Pair) | Find(key: u16)

  function Inserts(ops: seq<Op>): seq<Pair> {
    if ops == [] then []
    else
      var last := ops[|ops| - 1];
      Inserts(ops[..|ops| - 1]) + if last.Insert? then [last.p] else []
  }

  // The index and the cache after a history.
  ghost function HeapAfter(hash: Hash, ops: seq<Op>): (s: Heap)
    ensures Inv(s, hash) && Sized(s.contents)
  {
    Run(hash, Inserts(ops)).0
  }

  ghost function Accepted(hash: Hash, ops: seq<Op>): seq<Pair> {
    Run(hash, Inserts(ops)).1
  }

  ghost function PathOf(s: Heap, hash: Hash, key: u16): (path: seq<nat>)
    requires Inv(s, hash)
    ensures path != [] && Within(path, NODE_LIMIT) && Distinct(path)
    ensures path[|path| - 1] == Bottom(s.nodes, hash(key)) < NODE_LIMIT
  {
    PathExtent(s.nodes, hash(key));
    PathDistinct(s.nodes, hash(key));
    Path(s.nodes, 0, hash(key))
  }

  lemma PathDistinct(nodes: seq<Node>, h: u16)
    requires Tree(nodes)
    ensures Distinct(Path(nodes, 0, h))
  {
    var path := Path(nodes, 0, h);
    forall i, j | 0 <= i < j < |path|
      ensures path[i] != path[j]
    {
      PathOrder(nodes, 0, h, i, j);
    }
  }

  ghost function CacheAfter(hash: Hash, ops: seq<Op>): (c: Cache)
    ensures |c.pairs| == BUCKET_SIZE
  {
    if ops == [] then NO_CACHE
    else
      var before := CacheAfter(hash, ops[..|ops| - 1]);
      match ops[|ops| - 1]
      case Insert(_) => before
      case Find(key) =>
        var s := HeapAfter(hash, ops[..|ops| - 1]);
        Through(before, s.contents, PathOf(s, hash, key), key).1
  }

  // What a lookup returns next.
  ghost function Answer(hash: Hash, ops: seq<Op>, key: u16): Option<u16> {
    var s := HeapAfter(hash, ops);
    Through(CacheAfter(hash, ops), s.contents, PathOf(s, hash, key), key).0
  }

  // The copy begins with the slots that were in use when it was made.
  ghost predicate Copied(c: Cache, contents: seq<seq<Pair>>) {
    && |c.pairs| == BUCKET_SIZE
    && (c.bucket >= 0 ==>
          c.bucket < |contents| && c.loaded <= |contents[c.bucket]| && c.loaded <= BUCKET_SIZE
          && c.pairs[..c.loaded] == contents[c.bucket][..c.loaded])
  }

  // Whatever the copy has behind them was accepted once, or is an empty slot.
  ghost predicate FromRun(c: Cache, accepted: seq<Pair>) {
    forall k :: 0 <= k < |c.pairs| ==> c.pairs[k] == EMPTY_PAIR || c.pairs[k] in accepted
  }

  ghost predicate AllFromRun(contents: seq<seq<Pair>>, accepted: seq<Pair>) {
    forall b, k :: 0 <= b < |contents| && 0 <= k < |contents[b]| ==> contents[b][k] in accepted
  }

  lemma {:induction false} ThroughKeeps(c: Cache, contents: seq<seq<Pair>>, path: seq<nat>, key: u16,
                                        accepted: seq<Pair>)
    requires Sized(contents) && Within(path, |contents|) && AllFromRun(contents, accepted)
    requires Copied(c, contents) && FromRun(c, accepted)
    ensures Copied(Through(c, contents, path, key).1, contents)
    ensures FromRun(Through(c, contents, path, key).1, accepted)
    decreases |path|
  {
    if path != [] {
      var last := |path| - 1;
      LoadKeeps(c, path[last], contents, accepted);
      ThroughKeeps(Load(c, path[last], contents[path[last]]), contents, path[..last], key, accepted);
    }
  }

  lemma LoadKeeps(c: Cache, b: nat, contents: seq<seq<Pair>>, accepted: seq<Pair>)
    requires Sized(contents) && b < |contents| && AllFromRun(contents, accepted)
    requires Copied(c, contents) && FromRun(c, accepted)
    ensures Copied(Load(c, b, contents[b]), contents) && FromRun(Load(c, b, contents[b]), accepted)
  {
  }

  lemma StoredWasAccepted(hash: Hash, ps: seq<Pair>)
    ensures AllFromRun(Run(hash, ps).0.contents, Run(hash, ps).1)
  {
    var (s, done) := Run(hash, ps);
    RunConservesPairs(hash, ps);
    forall b, k | 0 <= b < |s.contents| && 0 <= k < |s.contents[b]|
      ensures s.contents[b][k] in done
    {
      PairsMembers(s.contents, s.contents[b][k]);
      assert s.contents[b][k] in multiset(done);
    }
  }

  lemma InsertKeepsCopy(s: Heap, hash: Hash, p: Pair, c: Cache)
    requires Inv(s, hash) && Copied(c, s.contents)
    ensures Copied(c, MaxHeap.Insert(s, hash, p).0.contents)
  {
    InsertEffect(s, hash, p);
  }

  lemma {:induction false} HistoryKeeps(hash: Hash, ops: seq<Op>)
    ensures Copied(CacheAfter(hash, ops), HeapAfter(hash, ops).contents)
    ensures FromRun(CacheAfter(hash, ops), Accepted(hash, ops))
  {
    if ops != [] {
      var before, last := ops[..|ops| - 1], ops[|ops| - 1];
      HistoryKeeps(hash, before);
      match last
      case Insert(p) =>
        assert Inserts(ops)[..|Inserts(ops)| - 1] == Inserts(before);
        InsertKeepsCopy(HeapAfter(hash, before), hash, p, CacheAfter(hash, before));
      case Find(key) =>
        assert Inserts(ops) == Inserts(before);
        var s := HeapAfter(hash, before);
        StoredWasAccepted(hash, Inserts(before));
        ThroughKeeps(CacheAfter(hash, before), s.contents, PathOf(s, hash, key), key, Accepted(hash, before));
    }
  }

  // ----- when a lookup through the cache gives what is stored -----

  // The deepest bucket of the key's path, and what the buckets above it give.
  ghost function BottomOf(s: Heap, hash: Hash, key: u16): (b: nat)
    requires Inv(s, hash)
    ensures b < NODE_LIMIT
  {
    var path := PathOf(s, hash, key);
    path[|path| - 1]
  }

  ghost function Above(s: Heap, hash: Hash, key: u16): Option<u16>
    requires Inv(s, hash)
  {
    var path := PathOf(s, hash, key);
    Search(s.contents, path[..|path| - 1], key)
  }

  // The pairs that were stored in bucket b behind its copy, and the slots of the
  // copy that are searched in their place.
  ghost function Unread(s: Heap, c: Cache, b: nat): seq<Pair>
    requires b < |s.contents| && c.loaded <= |s.contents[b]|
  {
    s.contents[b][c.loaded..]
  }

  ghost function Leftover(s: Heap, c: Cache, b: nat): seq<Pair>
    requires b < |s.contents| && c.loaded <= |s.contents[b]| <= |c.pairs|
  {
    c.pairs[c.loaded..|s.contents[b]|]
  }

  // What the cached copy of the deepest bucket makes of a lookup, and what storage does.
  lemma ThroughCopy(s: Heap, hash: Hash, key: u16, c: Cache)
    requires Inv(s, hash) && Sized(s.contents) && Copied(c, s.contents) && c.bucket == BottomOf(s, hash, key)
    ensures var b, copy := BottomOf(s, hash, key), c.pairs[..c.loaded];
            Through(c, s.contents, PathOf(s, hash, key), key).0 ==
            OrElse(OrElse(SearchBucket(copy, key), SearchBucket(Leftover(s, c, b), key)), Above(s, hash, key))
  {
    var path := PathOf(s, hash, key);
    var b := path[|path| - 1];
    ReadAfresh(c, s.contents, path[..|path| - 1], key);
    hide Inv, Copied;
    assert c.pairs[..|s.contents[b]|] == c.pairs[..c.loaded] + Leftover(s, c, b);
    SearchJoined(c.pairs[..c.loaded], Leftover(s, c, b), key);
  }

  lemma FromStorage(s: Heap, hash: Hash, key: u16, c: Cache)
    requires Inv(s, hash) && Sized(s.contents) && Copied(c, s.contents) && c.bucket == BottomOf(s, hash, key)
    ensures var b, copy := BottomOf(s, hash, key), c.pairs[..c.loaded];
            Lookup(s, hash, key) ==
            OrElse(OrElse(SearchBucket(copy, key), SearchBucket(Unread(s, c, b), key)), Above(s, hash, key))
  {
    var b := BottomOf(s, hash, key);
    assert s.contents[b] == c.pairs[..c.loaded] + Unread(s, c, b);
    SearchJoined(c.pairs[..c.loaded], Unread(s, c, b), key);
  }

  // After any history of inserts and lookups: the next lookup gives what is
  // stored exactly when the cached bucket is not the deepest one of the key's
  // path, or the key was in it when it was copied, or what has been stored there
  // since and what is searched in its place lead to the same result.
  lemma AnswerIff(hash: Hash, ops: seq<Op>, key: u16)
    ensures var s, c := HeapAfter(hash, ops), CacheAfter(hash, ops);
            var b := BottomOf(s, hash, key);
            && (c.bucket == b ==> c.loaded <= |s.contents[b]| <= BUCKET_SIZE)
            && (Answer(hash, ops, key) == Lookup(s, hash, key) <==>
                || c.bucket != b
                || SearchBucket(c.pairs[..c.loaded], key).Some?
                || OrElse(SearchBucket(Leftover(s, c, b), key), Above(s, hash, key)) ==
                   OrElse(SearchBucket(Unread(s, c, b), key), Above(s, hash, key)))
  {
    HistoryKeeps(hash, ops);
    var s, c := HeapAfter(hash, ops), CacheAfter(hash, ops);
    if c.bucket == BottomOf(s, hash, key) {
      ThroughCopy(s, hash, key, c);
      FromStorage(s, hash, key, c);
    } else {
      ReadAfresh(c, s.contents, PathOf(s, hash, key), key);
    }
  }

  lemma {:induction false} HitFrom(c: Cache, contents: seq<seq<Pair>>, path: seq<nat>, key: u16, accepted: seq<Pair>)
    requires Sized(contents) && Within(path, |contents|) && AllFromRun(contents, accepted)
    requires Copied(c, contents) && FromRun(c, accepted)
    ensures var r := Through(c, contents, path, key).0;
            r.Some? ==> Pair(key, r.value) in accepted || Pair(key, r.value) == EMPTY_PAIR
    decreases |path|
  {
    if path != [] {
      var last := |path| - 1;
      var stored := contents[path[last]];
      var c' := Load(c, path[last], stored);
      LoadKeeps(c, path[last], contents, accepted);
      SearchBucketMeaning(c'.pairs[..|stored|], key);
      HitFrom(c', contents, path[..last], key, accepted);
    }
  }

  // A hit was accepted under its key, unless an empty slot was taken for key 0.
  lemma HitWasAccepted(hash: Hash, ops: seq<Op>, key: u16)
    ensures var r := Answer(hash, ops, key);
            r.Some? ==> Pair(key, r.value) in Accepted(hash, ops) || (key == 0 && r.value == 0)
  {
    HistoryKeeps(hash, ops);
    StoredWasAccepted(hash, Inserts(ops));
    var s := HeapAfter(hash, ops);
    HitFrom(CacheAfter(hash, ops), s.contents, PathOf(s, hash, key), key, Accepted(hash, ops));
  }

  ghost predicate NoneWith(pairs: seq<Pair>, key: u16) {
    forall k :: 0 <= k < |pairs| ==> pairs[k].key != key
  }

  lemma MissFromCopy(s: Heap, hash: Hash, key: u16, c: Cache)
    requires Inv(s, hash) && Sized(s.contents) && Copied(c, s.contents) && c.bucket == BottomOf(s, hash, key)
    ensures Through(c, s.contents, PathOf(s, hash, key), key).0.None? <==>
            NoneWith(c.pairs[..|s.contents[BottomOf(s, hash, key)]|], key) && Above(s, hash, key).None?
  {
    var b := BottomOf(s, hash, key);
    var seen := c.pairs[..|s.contents[b]|];
    ThroughCopy(s, hash, key, c);
    assert seen == c.pairs[..c.loaded] + Leftover(s, c, b);
    SearchJoined(c.pairs[..c.loaded], Leftover(s, c, b), key);
    SearchBucketMeaning(seen, key);
  }

  ghost predicate NeverAccepted(hash: Hash, ops: seq<Op>, key: u16) {
    forall v :: Pair(key, v) !in Accepted(hash, ops)
  }

  lemma NeverAcceptedIff(hash: Hash, ops: seq<Op>, key: u16)
    ensures Lookup(HeapAfter(hash, ops), hash, key).None? <==> NeverAccepted(hash, ops, key)
  {
    LookupAfterRun(hash, Inserts(ops), key);
  }

  // A lookup fails exactly when the key was never accepted, or, with the deepest
  // bucket of its path in the cache, when neither the copy's slots nor the
  // buckets above have it.
  lemma MissIff(hash: Hash, ops: seq<Op>, key: u16)
    ensures var s, c := HeapAfter(hash, ops), CacheAfter(hash, ops);
            var b := BottomOf(s, hash, key);
            && |s.contents[b]| <= |c.pairs|
            && (Answer(hash, ops, key).None? <==>
                if c.bucket != b then NeverAccepted(hash, ops, key)
                else NoneWith(c.pairs[..|s.contents[b]|], key) && Above(s, hash, key).None?)
  {
    hide NeverAccepted, NoneWith, Above, Lookup, Run, FromRun;
    HistoryKeeps(hash, ops);
    var s, c := HeapAfter(hash, ops), CacheAfter(hash, ops);
    if c.bucket == BottomOf(s, hash, key) {
      MissFromCopy(s, hash, key, c);
    } else {
      AnswerIff(hash, ops, key);
      NeverAcceptedIff(hash, ops, key);
    }
  }

  // The first two inserts go to the root, whatever the hash.
  lemma FirstInserts(hash: Hash, p: Pair, q: Pair)
    ensures var (s, done) := Run(hash, [p]);
            s == Heap(Created().nodes, Append(Created().contents, 0, p)) && done == [p]
    ensures var (s, done) := Run(hash, [p, q]);
            s == Heap(Created().nodes, Append(Append(Created().contents, 0, p), 0, q)) && done == [p, q]
  {
    assert [p][..0] == [] && [p, q][..1] == [p];
    assert Created().nodes[1].Empty();
  }

  lemma RootOnly(s: Heap, hash: Hash, key: u16)
    requires Inv(s, hash) && s.nodes == Created().nodes
    ensures PathOf(s, hash, key) == [0]
  {
    assert s.nodes[1].Empty();
  }

  // The history of one pair stored, looked up, and a second pair stored.
  function Example(): seq<Op> {
    [Insert(Pair(1, 10)), Find(1), Insert(Pair(2, 20))]
  }

  lemma ExampleInserts()
    ensures Inserts(Example()[..1]) == [Pair(1, 10)] && Inserts(Example()) == [Pair(1, 10), Pair(2, 20)]
  {
    var ops := Example();
    assert ops[..2][..1] == ops[..1] && ops[..1][..0] == [];
    assert Inserts(ops[..1][..0]) == [];
    assert Inserts(ops[..1]) == [Pair(1, 10)];
    assert Inserts(ops[..2]) == Inserts(ops[..1]) + [];
  }

  lemma ExampleCache(hash: Hash)
    ensures CacheAfter(hash, Example()) == Cache(0, [Pair(1, 10)] + Blank()[1..], 1)
  {
    var ops := Example();
    assert ops[..2][..1] == ops[..1] && ops[..1][..0] == [];
    ExampleInserts();
    FirstInserts(hash, Pair(1, 10), Pair(2, 20));
    var s := HeapAfter(hash, ops[..1]);
    RootOnly(s, hash, 1);
    assert CacheAfter(hash, ops[..1][..0]) == NO_CACHE;
    assert CacheAfter(hash, ops[..1]) == NO_CACHE;
    var stored := [Pair(1, 10)];
    assert s.contents[0] == stored && Load(NO_CACHE, 0, stored).pairs[..1] == stored;
    assert SearchBucket(stored, 1) == Some(10);
  }

  lemma CachedRoot(c: Cache, contents: seq<seq<Pair>>, seen: seq<Pair>, key: u16)
    requires |c.pairs| == BUCKET_SIZE && Sized(contents) && contents != [] && c.bucket == 0
    requires seen == c.pairs[..|contents[0]|]
    ensures Through(c, contents, [0], key).0 == SearchBucket(seen, key)
  {
    assert [0][..0] == [];
  }

  // Two failures at once: a pair stored after its bucket was cached is not found,
  // and its slot of the copy, still empty, is taken for an entry with key 0.
  lemma StaleCopy(hash: Hash)
    ensures Accepted(hash, Example()) == [Pair(1, 10), Pair(2, 20)]
    ensures Answer(hash, Example(), 2) == None && Answer(hash, Example(), 0) == Some(0)
  {
    ExampleInserts();
    FirstInserts(hash, Pair(1, 10), Pair(2, 20));
    ExampleCache(hash);
    var s, c := HeapAfter(hash, Example()), CacheAfter(hash, Example());
    RootOnly(s, hash, 2);
    RootOnly(s, hash, 0);
    var seen := [Pair(1, 10), EMPTY_PAIR];
    assert c.pairs[0] == Pair(1, 10) && c.pairs[1] == Blank()[1..][0] == EMPTY_PAIR;
    assert |s.contents[0]| == 2 && c.pairs[..2] == seen;
    hide Run, SearchBucket, Through;
    CachedRoot(c, s.contents, seen, 2);
    CachedRoot(c, s.contents, seen, 0);
    SearchTwo(Pair(1, 10), EMPTY_PAIR, 2);
    SearchTwo(Pair(1, 10), EMPTY_PAIR, 0);
  }

  lemma SearchTwo(p: Pair, q: Pair, key: u16)
    ensures SearchBucket([p, q], key) ==
            if p.key == key then Some(p.value) else if q.key == key then Some(q.value) else None
  {
    assert [p, q][1..] == [q] && [q][1..] == [];
    assert SearchBucket([], key) == None;
    assert SearchBucket([q], key) == if q.key == key then Some(q.value) else None;
  }
}
