// JOIN: an equi-join that looks up each left row's value in an index on the
// right relation and hands out one joined row per call.
module Join {
  import opened Common
  import opened Lvm
  import opened InlineIndex
  import opened Selection

  // Where an attribute of the joined row comes from.
  datatype Source = Left(column: nat) | Right(column: nat)

  predicate SourceFits(s: Source, l: Row, r: Row) {
    match s
    case Left(c) => c < |l|
    case Right(c) => c < |r|
  }

  function Pick(s: Source, l: Row, r: Row): long
    requires SourceFits(s, l, r)
  {
    match s
    case Left(c) => l[c]
    case Right(c) => r[c]
  }

  function Fill(sources: seq<Source>, l: Row, r: Row): Row
    requires forall k :: 0 <= k < |sources| ==> SourceFits(sources[k], l, r)
  {
    seq(|sources|, k requires 0 <= k < |sources| => Pick(sources[k], l, r))
  }

  datatype Relations = Relations(left: seq<Row>, right: seq<Row>, leftKey: nat, rightKey: nat, sources: seq<Source>) {
    ghost predicate Valid() {
      && (forall i :: 0 <= i < |left| ==> leftKey < |left[i]|)
      && (forall j :: 0 <= j < |right| ==> rightKey < |right[j]|)
      && forall i, j, k :: 0 <= i < |left| && 0 <= j < |right| && 0 <= k < |sources| ==>
           SourceFits(sources[k], left[i], right[j])
    }

    // The inner loop of a nested-loop join: the partners of left row i among right[..n].
    ghost function Partners(i: nat, n: nat): seq<Row>
      requires Valid() && i < |left| && n <= |right|
    {
      if n == 0 then []
      else
        Partners(i, n - 1) +
        if left[i][leftKey] == right[n - 1][rightKey] then [Fill(sources, left[i], right[n - 1])] else []
    }

    // The nested-loop join of left[..m] with all right rows.
    ghost function NestedLoop(m: nat): seq<Row>
      requires Valid() && m <= |left|
    {
      if m == 0 then [] else NestedLoop(m - 1) + Partners(m - 1, |right|)
    }

    // Row numbers in increasing order, exactly those of right[..n] with the value.
    ghost predicate Lists(hits: seq<nat>, value: long, n: nat)
      requires Valid() && n <= |right|
    {
      && (forall a, b :: 0 <= a < b < |hits| ==> hits[a] < hits[b])
      && forall j: nat :: j in hits <==> j < n && right[j][rightKey] == value
    }

    ghost predicate Inside(hits: seq<nat>) {
      forall k :: 0 <= k < |hits| ==> hits[k] < |right|
    }

    ghost function Joined(i: nat, hits: seq<nat>): seq<Row>
      requires Valid() && i < |left| && Inside(hits)
    {
      if hits == [] then []
      else Joined(i, hits[..|hits| - 1]) + [Fill(sources, left[i], right[hits[|hits| - 1]])]
    }

    lemma {:induction false} HitsArePartners(i: nat, hits: seq<nat>, n: nat)
      requires Valid() && i < |left| && n <= |right| && Lists(hits, left[i][leftKey], n)
      ensures Inside(hits) && Joined(i, hits) == Partners(i, n)
      decreases n
    {
      hide *;
      ListsBefore(i, hits, n);
      PartnersStep(i, n);
      if n == 0 {
        JoinedStep(i, hits);
      } else if Same(i, n - 1) {
        HitsArePartners(i, hits[..|hits| - 1], n - 1);
        JoinedStep(i, hits);
      } else {
        HitsArePartners(i, hits, n - 1);
      }
    }

    ghost predicate Same(i: nat, j: nat)
      requires Valid() && i < |left| && j < |right|
    {
      left[i][leftKey] == right[j][rightKey]
    }

    lemma PartnersStep(i: nat, n: nat)
      requires Valid() && i < |left| && n <= |right|
      ensures n == 0 ==> Partners(i, n) == []
      ensures n > 0 ==>
                Partners(i, n) ==
                if Same(i, n - 1) then Partners(i, n - 1) + [Fill(sources, left[i], right[n - 1])]
                else Partners(i, n - 1)
    {
    }

    lemma JoinedStep(i: nat, hits: seq<nat>)
      requires Valid() && i < |left| && Inside(hits)
      ensures hits == [] ==> Joined(i, hits) == []
      ensures hits != [] ==>
                Joined(i, hits) ==
                Joined(i, hits[..|hits| - 1]) + [Fill(sources, left[i], right[hits[|hits| - 1]])]
    {
    }

    // Of the rows listed, the last one is row n - 1 if that has the value.
    lemma ListsBefore(i: nat, hits: seq<nat>, n: nat)
      requires Valid() && i < |left| && n <= |right| && Lists(hits, left[i][leftKey], n)
      ensures Inside(hits) && (n == 0 ==> hits == [])
      ensures n > 0 && Same(i, n - 1) ==>
                hits != [] && hits[|hits| - 1] == n - 1 && Lists(hits[..|hits| - 1], left[i][leftKey], n - 1)
      ensures n > 0 && !Same(i, n - 1) ==> Lists(hits, left[i][leftKey], n - 1)
    {
      assert forall k :: 0 <= k < |hits| ==> hits[k] in hits;
      if n > 0 && n - 1 in hits {
        LastHit(hits, n);
      }
    }

    // The largest of increasing row numbers below n is the last one.
    static lemma LastHit(hits: seq<nat>, n: nat)
      requires n > 0 && n - 1 in hits && forall k :: 0 <= k < |hits| ==> hits[k] < n
      requires forall a, b :: 0 <= a < b < |hits| ==> hits[a] < hits[b]
      ensures hits[|hits| - 1] == n - 1
      ensures forall j: nat :: j in hits[..|hits| - 1] <==> j in hits && j != n - 1
    {
      var k :| 0 <= k < |hits| && hits[k] == n - 1;
      var before := hits[..|hits| - 1];
      forall j: nat | j in hits && j != n - 1
        ensures j in before
      {
        var a :| 0 <= a < |hits| && hits[a] == j;
        assert before[a] == j;
      }
    }

    lemma {:induction false} NestedLoopGrows(m: nat, n: nat)
      requires Valid() && m <= n <= |left|
      ensures NestedLoop(m) <= NestedLoop(n)
    {
      if m < n {
        NestedLoopGrows(m, n - 1);
      }
    }

    // What has been handed out once k partners of row m are done.
    ghost function Produced(m: nat, hits: seq<nat>, k: nat): seq<Row>
      requires Valid() && m < |left| && k <= |hits| && Lists(hits, left[m][leftKey], |right|)
    {
      HitsArePartners(m, hits, |right|);
      NestedLoop(m) + Joined(m, hits[..k])
    }

    lemma {:induction false} JoinedGrows(i: nat, hits: seq<nat>, k: nat)
      requires Valid() && i < |left| && k <= |hits| && Inside(hits)
      ensures Joined(i, hits[..k]) <= Joined(i, hits)
      decreases |hits|
    {
      if k < |hits| {
        assert hits[..|hits| - 1][..k] == hits[..k];
        JoinedGrows(i, hits[..|hits| - 1], k);
      } else {
        assert hits[..k] == hits;
      }
    }

    // It is always the beginning of the nested-loop join; one more partner adds one row.
    lemma ProducedIsPrefix(m: nat, hits: seq<nat>, k: nat)
      requires Valid() && m < |left| && k <= |hits| && Lists(hits, left[m][leftKey], |right|)
      ensures Produced(m, hits, k) <= NestedLoop(|left|)
      ensures k == 0 ==> Produced(m, hits, k) == NestedLoop(m)
      ensures k == |hits| ==> Produced(m, hits, k) == NestedLoop(m + 1)
      ensures k < |hits| ==>
                && hits[k] < |right|
                && Produced(m, hits, k + 1) == Produced(m, hits, k) + [Fill(sources, left[m], right[hits[k]])]
    {
      HitsArePartners(m, hits, |right|);
      JoinedGrows(m, hits, k);
      NestedLoopGrows(m + 1, |left|);
      assert hits[..|hits|] == hits;
      if k < |hits| {
        assert hits[..k + 1][..k] == hits[..k];
      }
    }
  }

  // ----- what a join hands out -----

  datatype Match = Match(left: nat, right: nat)

  ghost predicate Matching(rel: Relations, p: Match)
    requires rel.Valid()
  {
    && p.left < |rel.left| && p.right < |rel.right|
    && rel.left[p.left][rel.leftKey] == rel.right[p.right][rel.rightKey]
  }

  predicate Earlier(p: Match, q: Match) {
    p.left < q.left || (p.left == q.left && p.right < q.right)
  }

  // All matches before a position, left rows first.
  ghost predicate ListsMatches(rel: Relations, at: seq<Match>, end: Match)
    requires rel.Valid()
  {
    && (forall a, b :: 0 <= a < b < |at| ==> Earlier(at[a], at[b]))
    && forall p :: p in at <==> Matching(rel, p) && Earlier(p, end)
  }

  // One row out of two: each attribute from the relation and column it is taken from.
  ghost predicate Combines(rel: Relations, p: Match, row: Row)
    requires rel.Valid() && p.left < |rel.left| && p.right < |rel.right|
  {
    && |row| == |rel.sources|
    && forall k :: 0 <= k < |row| ==>
         match rel.sources[k]
         case Left(c) => c < |rel.left[p.left]| && row[k] == rel.left[p.left][c]
         case Right(c) => c < |rel.right[p.right]| && row[k] == rel.right[p.right][c]
  }

  ghost predicate CombinesEach(rel: Relations, at: seq<Match>, out: seq<Row>)
    requires rel.Valid()
  {
    |out| == |at| && forall k :: 0 <= k < |at| ==> Matching(rel, at[k]) && Combines(rel, at[k], out[k])
  }

  // Exactly the matches before a position, in order, each as its combined row.
  ghost predicate JoinsUpTo(rel: Relations, end: Match, out: seq<Row>)
    requires rel.Valid()
  {
    exists at :: ListsMatches(rel, at, end) && CombinesEach(rel, at, out)
  }

  lemma FillCombines(rel: Relations, p: Match)
    requires rel.Valid() && p.left < |rel.left| && p.right < |rel.right|
    ensures Combines(rel, p, Fill(rel.sources, rel.left[p.left], rel.right[p.right]))
  {
  }

  lemma NextMatch(rel: Relations, end: Match, out: seq<Row>, row: Row)
    requires rel.Valid() && end.left < |rel.left| && end.right < |rel.right|
    requires JoinsUpTo(rel, end, out) && Combines(rel, end, row)
    ensures JoinsUpTo(rel, Match(end.left, end.right + 1), if Matching(rel, end) then out + [row] else out)
  {
    hide Relations.Valid, Combines;
    var at :| ListsMatches(rel, at, end) && CombinesEach(rel, at, out);
    var next := Match(end.left, end.right + 1);
    if Matching(rel, end) {
      forall k | 0 <= k < |at|
        ensures Earlier(at[k], end)
      {
        assert at[k] in at;
      }
      assert ListsMatches(rel, at + [end], next);
      assert CombinesEach(rel, at + [end], out + [row]);
    } else {
      assert ListsMatches(rel, at, next);
    }
  }

  // Behind the last right row comes the next left row.
  lemma NextLeftRow(rel: Relations, m: nat, out: seq<Row>)
    requires rel.Valid() && JoinsUpTo(rel, Match(m, |rel.right|), out)
    ensures JoinsUpTo(rel, Match(m + 1, 0), out)
  {
    hide Relations.Valid, CombinesEach;
    var at :| ListsMatches(rel, at, Match(m, |rel.right|)) && CombinesEach(rel, at, out);
    assert ListsMatches(rel, at, Match(m + 1, 0));
  }

  lemma NothingJoined(rel: Relations)
    requires rel.Valid()
    ensures JoinsUpTo(rel, Match(0, 0), [])
  {
    assert ListsMatches(rel, [], Match(0, 0)) && CombinesEach(rel, [], []);
  }

  lemma {:induction false} PartnersJoin(rel: Relations, m: nat, n: nat)
    requires rel.Valid() && m < |rel.left| && n <= |rel.right|
    ensures JoinsUpTo(rel, Match(m, n), rel.NestedLoop(m) + rel.Partners(m, n))
    decreases m, n
  {
    hide JoinsUpTo, Combines, Fill;
    rel.PartnersStep(m, n);
    var done := rel.NestedLoop(m);
    if n > 0 {
      var end, before := Match(m, n - 1), rel.Partners(m, n - 1);
      PartnersJoin(rel, m, n - 1);
      FillCombines(rel, end);
      var row := Fill(rel.sources, rel.left[m], rel.right[n - 1]);
      NextMatch(rel, end, done + before, row);
      assert done + before + [row] == done + (before + [row]);
    } else if m > 0 {
      PartnersJoin(rel, m - 1, |rel.right|);
      NextLeftRow(rel, m - 1, done);
      assert done + [] == done;
    } else {
      NothingJoined(rel);
    }
  }

  // The nested-loop join: every pair of rows with equal keys once, left rows first.
  lemma NestedLoopJoins(rel: Relations)
    requires rel.Valid()
    ensures JoinsUpTo(rel, Match(|rel.left|, 0), rel.NestedLoop(|rel.left|))
  {
    if rel.left == [] {
      NothingJoined(rel);
    } else {
      PartnersJoin(rel, |rel.left| - 1, |rel.right|);
      NextLeftRow(rel, |rel.left| - 1, rel.NestedLoop(|rel.left|));
    }
  }

  class JoinHandle {
    const rel: Relations
    const index: map<long, seq<nat>>  // the row numbers per value
    const unique: bool
    var indexStep: bool  // the next call starts with a left row
    var tupleId: nat
    var leftRow: Row
    var value: long      // the value the iterator is looking for
    var nextItemNo: nat

    function Hits(v: long): seq<nat> {
      if v in index then index[v] else []
    }

    ghost predicate Indexed() {
      && rel.Valid()
      && forall i :: 0 <= i < |rel.left| ==>
           var v := rel.left[i][rel.leftKey];
           rel.Lists(Hits(v), v, |rel.right|) && (unique ==> |Hits(v)| <= 1)
    }

    ghost predicate Valid()
      reads this
    {
      && Indexed()
      && (!indexStep ==>
            && tupleId < |rel.left| && leftRow == rel.left[tupleId]
            && value == leftRow[rel.leftKey] && nextItemNo <= |Hits(value)|)
    }

    // The rows handed out since the last start.
    ghost function Produced(): (out: seq<Row>)
      requires Valid()
      reads this
      ensures indexStep ==> out == []
    {
      if indexStep then [] else rel.Produced(tupleId, Hits(value), nextItemNo)
    }

    ghost function Whole(): seq<Row>
      requires Indexed()
    {
      rel.NestedLoop(|rel.left|)
    }

    // Nothing but rows of the join, in its order.
    ghost predicate Partial()
      requires Valid()
      reads this
    {
      Produced() <= Whole()
    }

    constructor (rel: Relations, index: map<long, seq<nat>>, unique: bool)
      ensures this.rel == rel && this.index == index && this.unique == unique && indexStep
      ensures Indexed() ==> Valid() && Produced() == []
    {
      this.rel, this.index, this.unique := rel, index, unique;
      indexStep, tupleId, leftRow, value, nextItemNo := true, 0, [], 0, 0;
    }

    // index_get_next for an equality search.
    method NextHit() returns (id: Option<nat>)
      requires Valid() && !indexStep
      modifies this`nextItemNo
      ensures Valid()
      ensures id == if old(nextItemNo) < |Hits(value)| then Some(Hits(value)[old(nextItemNo)]) else None
      ensures nextItemNo == old(nextItemNo) + if id.Some? then 1 else 0
    {
      if unique && nextItemNo == 1 {
        return None;
      }
      if nextItemNo < |Hits(value)| {
        id := Some(Hits(value)[nextItemNo]);
        nextItemNo := nextItemNo + 1;
        return id;
      }
      return None;
    }

    // The outer loop's work for one left row.
    method LoadLeft()
      requires Indexed() && tupleId < |rel.left|
      modifies this`leftRow, this`value, this`nextItemNo, this`indexStep
      ensures Valid() && !indexStep && Produced() == rel.NestedLoop(tupleId)
    {
      leftRow := rel.left[tupleId];
      value := leftRow[rel.leftKey];
      nextItemNo := 0;
      indexStep := false;
      rel.ProducedIsPrefix(tupleId, Hits(value), 0);
    }

    // The inner loop's body: it fills in one row, or gives up on the left row and
    // moves on to the next one.
    method JoinNext() returns (out: Option<Row>)
      requires Valid() && !indexStep
      modifies this`nextItemNo, this`indexStep, this`tupleId
      ensures Valid() && indexStep == out.None?
      ensures out.Some? ==> Produced() == old(Produced()) + [out.value] && Partial()
      ensures out.None? ==> tupleId == old(tupleId) + 1 <= |rel.left| && rel.NestedLoop(tupleId) == old(Produced())
    {
      hide Relations.NestedLoop, Relations.Lists, Relations.Produced, Fill;
      rel.ProducedIsPrefix(tupleId, Hits(value), nextItemNo);
      var id := NextHit();
      if id.None? {
        indexStep, tupleId := true, tupleId + 1;
        return None;
      }
      rel.ProducedIsPrefix(tupleId, Hits(value), nextItemNo);
      return Some(Fill(rel.sources, leftRow, rel.right[id.value]));
    }

    // The outer loop from the current left row on.
    method JoinFrom() returns (out: Option<Row>)
      requires Valid() && indexStep && tupleId <= |rel.left|
      modifies this
      ensures Valid() && indexStep == out.None?
      ensures out.Some? ==> Produced() == old(rel.NestedLoop(tupleId)) + [out.value] && Partial()
      ensures out.None? ==> old(rel.NestedLoop(tupleId)) == Whole()
    {
      ghost var before := rel.NestedLoop(tupleId);
      hide Relations.NestedLoop, Relations.Lists, Produced, Partial;
      while tupleId < |rel.left|
        invariant Valid() && indexStep && tupleId <= |rel.left| && rel.NestedLoop(tupleId) == before
        decreases |rel.left| - tupleId
      {
        LoadLeft();
        out := JoinNext();
        if out.Some? {
          return;
        }
      }
      return None;
    }

    // relation_process_join. A call that continues a left row jumps over the loading
    // of the row, into the inner loop.
    method ProcessJoin() returns (result: DbResult, out: Row)
      requires Valid()
      modifies this
      ensures Valid() && (result == GotRow || result == Finished) && (indexStep <==> result == Finished)
      ensures result == GotRow ==> Produced() == old(Produced()) + [out] && Partial()
      ensures result == Finished ==> old(Produced()) == Whole()
    {
      assert rel.NestedLoop(0) == [];
      hide Relations.NestedLoop, Relations.Lists, Relations.Produced, Partial;
      var row := None;
      if indexStep {
        tupleId := 0;
      } else {
        row := JoinNext();
      }
      if row.None? {
        row := JoinFrom();
      }
      if row.None? {
        return Finished, [];
      }
      return GotRow, row.value;
    }

    // Calls until the end give exactly the nested-loop join, and the handle can be
    // run again.
    method RunJoin() returns (out: seq<Row>)
      requires Valid() && indexStep
      modifies this
      ensures Valid() && indexStep
      ensures out == Whole() && JoinsUpTo(rel, Match(|rel.left|, 0), out)
    {
      NestedLoopJoins(rel);
      hide JoinsUpTo;
      hide Relations.NestedLoop, Relations.Lists, Relations.Produced, Relations.Valid, Fill;
      out := [];
      while true
        invariant Valid() && out == Produced() && Partial()
        decreases |Whole()| - |out|
      {
        var result, row := ProcessJoin();
        if result == Finished {
          return;
        }
        out := out + [row];
      }
    }
  }

  // ----- the join over an inline index -----

  // What the inline index lists for a value. None: the search leaves the rows, as it
  // does in an empty relation.
  function InlineHits(col: Column, v: long): Option<seq<nat>> {
    if col == [] then None
    else
      match Search(col, 0, |col| - 1, v)
      case None => None
      case Some(c) => Some(if col[c] == v then [c] else [])
  }

  function RightKeys(rel: Relations): (col: Column)
    requires rel.Valid()
    ensures |col| == |rel.right|
  {
    seq(|rel.right|, j requires 0 <= j < |rel.right| => rel.right[j][rel.rightKey])
  }

  lemma InlineLists(rel: Relations, v: long)
    requires rel.Valid() && Increasing(RightKeys(rel)) && rel.right != []
    ensures var col := RightKeys(rel);
            && (InlineHits(col, v).Some? <==> col[0] <= v)
            && (InlineHits(col, v).Some? ==>
                  |InlineHits(col, v).value| <= 1 && rel.Lists(InlineHits(col, v).value, v, |rel.right|))
  {
    var col := RightKeys(rel);
    assert forall j :: 0 <= j < |col| ==> col[j] == rel.right[j][rel.rightKey];
    SearchFinds(col, v);
    hide Search, Increasing, Relations.Valid, RightKeys;
  }

  ghost predicate ServedInline(rel: Relations, i: nat)
    requires rel.Valid() && i < |rel.left|
  {
    var hits := InlineHits(RightKeys(rel), rel.left[i][rel.leftKey]);
    hits.Some? && rel.Lists(hits.value, rel.left[i][rel.leftKey], |rel.right|)
  }

  ghost predicate AtLeastFirst(rel: Relations, i: nat)
    requires rel.Valid() && i < |rel.left|
  {
    rel.right != [] && RightKeys(rel)[0] <= rel.left[i][rel.leftKey]
  }

  // An inline index lists the partners of a left row exactly when the right relation has
  // rows and the row's value is not below the first of them.
  lemma ServedIff(rel: Relations, i: nat)
    requires rel.Valid() && Increasing(RightKeys(rel)) && i < |rel.left|
    ensures ServedInline(rel, i) <==> AtLeastFirst(rel, i)
  {
    if rel.right != [] {
      InlineLists(rel, rel.left[i][rel.leftKey]);
    }
    hide Increasing, Relations.Lists;
  }

  // Hence it serves the whole join exactly when that holds of every left row.
  lemma InlineServesIff(rel: Relations)
    requires rel.Valid() && Increasing(RightKeys(rel))
    ensures (forall i :: 0 <= i < |rel.left| ==> ServedInline(rel, i)) <==>
            (forall i :: 0 <= i < |rel.left| ==> AtLeastFirst(rel, i))
  {
    forall i | 0 <= i < |rel.left|
      ensures ServedInline(rel, i) <==> AtLeastFirst(rel, i)
    {
      ServedIff(rel, i);
    }
    hide ServedInline, AtLeastFirst;
  }

  // The join as it runs over an inline index on the right column: one search per left
  // value, then the nested loop's rows in its order.
  method JoinInline(rel: Relations, unique: bool) returns (out: seq<Row>)
    requires rel.Valid() && Increasing(RightKeys(rel)) && |rel.right| <= ROW_LIMIT
    requires forall i :: 0 <= i < |rel.left| ==> AtLeastFirst(rel, i)
    ensures out == rel.NestedLoop(|rel.left|) && JoinsUpTo(rel, Match(|rel.left|, 0), out)
  {
    hide JoinsUpTo;
    hide Increasing, Search, RightKeys, Relations.Lists, Relations.NestedLoop;
    var col := RightKeys(rel);
    var index: map<long, seq<nat>> := map[];
    var i := 0;
    while i < |rel.left|
      invariant 0 <= i <= |rel.left|
      invariant forall k :: 0 <= k < i ==> rel.left[k][rel.leftKey] in index
      invariant forall v :: v in index ==> rel.Lists(index[v], v, |rel.right|) && |index[v]| <= 1
    {
      var v := rel.left[i][rel.leftKey];
      assert AtLeastFirst(rel, i);
      InlineLists(rel, v);
      var c := BinarySearch(col, v, true);
      index := index[v := if c.Some? then [c.value] else []];
      i := i + 1;
    }
    var handle := new JoinHandle(rel, index, unique);
    forall k | 0 <= k < |rel.left|
      ensures handle.Hits(rel.left[k][rel.leftKey]) == index[rel.left[k][rel.leftKey]]
    {
    }
    out := handle.RunJoin();
  }
}
