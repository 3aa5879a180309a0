// SELECT: a resumable scan, either over all rows or over the rows an inline
// index finds for the range derived from the condition.
module Selection {
  import opened Common
  import opened Lvm
  import opened LvmCode
  import opened LvmMachine
  import opened InlineIndex

  type Row = seq<long>

  // An attribute of the result: its column, the slot of the variable of that name
  // if the condition has one, and whether it is stored or only used by the condition.
  datatype Attr = Attr(column: nat, id: Option<u8>, store: bool) {
    predicate Fits(width: nat) {
      column < width && (id.Some? ==> id.value < MAX_VARIABLE_ID)
    }
  }

  datatype DbResult = Finished | GotRow | Passed | IndexError

  // ----- what a query means -----

  function Zeros(): Env {
    seq(MAX_VARIABLE_ID, i => 0)
  }

  ghost predicate Table(rows: seq<Row>, attrs: seq<Attr>, width: nat) {
    && |rows| <= ROW_LIMIT
    && (forall i :: 0 <= i < |rows| ==> |rows[i]| == width)
    && forall k :: 0 <= k < |attrs| ==> attrs[k].Fits(width)
  }

  ghost predicate RowFits(row: Row, attrs: seq<Attr>) {
    forall k :: 0 <= k < |attrs| ==> attrs[k].Fits(|row|)
  }

  // The variable values after the row's attributes have been set in order.
  ghost function Assign(env: Env, row: Row, attrs: seq<Attr>): Env
    requires RowFits(row, attrs)
  {
    if attrs == [] then env
    else
      var last := attrs[|attrs| - 1];
      var before := Assign(env, row, attrs[..|attrs| - 1]);
      if last.id.Some? then before[last.id.value := row[last.column]] else before
  }

  ghost function Project(row: Row, attrs: seq<Attr>): Row
    requires RowFits(row, attrs)
  {
    if attrs == [] then []
    else
      var last := attrs[|attrs| - 1];
      Project(row, attrs[..|attrs| - 1]) + if last.store then [row[last.column]] else []
  }

  predicate ExprUses(e: Expr, id: u8) {
    match e
    case Leaf(x) => x == Variable(id)
    case Arith(_, l, r) => ExprUses(l, id) || ExprUses(r, id)
  }

  predicate Uses(c: Cond, id: u8) {
    match c
    case Cmp(_, l, r) => ExprUses(l, id) || ExprUses(r, id)
    case And(a, b) => Uses(a, id) || Uses(b, id)
    case Or(a, b) => Uses(a, id) || Uses(b, id)
    case Not(a) => Uses(a, id)
  }

  // Variable id stands for one column of the row.
  ghost predicate BoundTo(attrs: seq<Attr>, id: u8, column: nat) {
    && (exists k :: 0 <= k < |attrs| && attrs[k].id == Some(id))
    && forall k :: 0 <= k < |attrs| && attrs[k].id == Some(id) ==> attrs[k].column == column
  }

  // Every variable of the condition is an attribute of the query.
  ghost predicate Covered(c: Cond, attrs: seq<Attr>) {
    forall id: u8 :: Uses(c, id) ==> exists column :: BoundTo(attrs, id, column)
  }

  lemma {:induction false} AssignBound(env: Env, row: Row, attrs: seq<Attr>, id: u8, column: nat)
    requires RowFits(row, attrs) && BoundTo(attrs, id, column) && column < |row| && id < MAX_VARIABLE_ID
    ensures Assign(env, row, attrs)[id] == row[column]
  {
    var n := |attrs|;
    if attrs[n - 1].id != Some(id) {
      var k :| 0 <= k < n && attrs[k].id == Some(id);
      assert attrs[..n - 1][k].id == Some(id);
      AssignBound(env, row, attrs[..n - 1], id, column);
    }
  }

  lemma {:induction false} ExprDependsOnUses(e: Expr, e1: Env, e2: Env)
    requires ExprInScope(e) && forall id: u8 :: id < MAX_VARIABLE_ID && ExprUses(e, id) ==> e1[id] == e2[id]
    ensures ExprValue(e, e1) == ExprValue(e, e2)
  {
    match e
    case Leaf(x) => assert x.Variable? ==> ExprUses(e, x.id);
    case Arith(_, l, r) =>
      ExprDependsOnUses(l, e1, e2);
      ExprDependsOnUses(r, e1, e2);
  }

  lemma {:induction false} ValueDependsOnUses(c: Cond, e1: Env, e2: Env)
    requires InScope(c) && forall id: u8 :: id < MAX_VARIABLE_ID && Uses(c, id) ==> e1[id] == e2[id]
    ensures CondValue(c, e1) == CondValue(c, e2)
  {
    match c
    case Cmp(_, l, r) =>
      ExprDependsOnUses(l, e1, e2);
      ExprDependsOnUses(r, e1, e2);
    case And(a, b) =>
      ValueDependsOnUses(a, e1, e2);
      ValueDependsOnUses(b, e1, e2);
    case Or(a, b) =>
      ValueDependsOnUses(a, e1, e2);
      ValueDependsOnUses(b, e1, e2);
    case Not(a) => ValueDependsOnUses(a, e1, e2);
  }

  ghost predicate Accepts(c: Option<Cond>, row: Row, attrs: seq<Attr>)
    requires RowFits(row, attrs) && (c.Some? ==> InScope(c.value))
  {
    c.None? || CondValue(c.value, Assign(Zeros(), row, attrs)) == TRUE
  }

  // What earlier rows left in the variable table does not matter.
  lemma AcceptsFromAnyEnv(c: Cond, row: Row, attrs: seq<Attr>, env: Env)
    requires RowFits(row, attrs) && InScope(c) && Covered(c, attrs)
    ensures CondValue(c, Assign(env, row, attrs)) == CondValue(c, Assign(Zeros(), row, attrs))
  {
    forall id: u8 | id < MAX_VARIABLE_ID && Uses(c, id)
      ensures Assign(env, row, attrs)[id] == Assign(Zeros(), row, attrs)[id]
    {
      var column :| BoundTo(attrs, id, column);
      AssignBound(env, row, attrs, id, column);
      AssignBound(Zeros(), row, attrs, id, column);
    }
    ValueDependsOnUses(c, Assign(env, row, attrs), Assign(Zeros(), row, attrs));
  }

  ghost predicate AllFit(rows: seq<Row>, attrs: seq<Attr>) {
    forall i :: 0 <= i < |rows| ==> RowFits(rows[i], attrs)
  }

  // The projected rows among rows[lo..hi] that the condition accepts, in order.
  ghost function Selected(rows: seq<Row>, attrs: seq<Attr>, c: Option<Cond>, lo: nat, hi: nat): seq<Row>
    requires hi <= |rows| && (c.Some? ==> InScope(c.value)) && AllFit(rows, attrs)
    decreases hi
  {
    if hi <= lo then []
    else
      Selected(rows, attrs, c, lo, hi - 1) +
      if Accepts(c, rows[hi - 1], attrs) then [Project(rows[hi - 1], attrs)] else []
  }

  lemma {:induction false} SelectedSplit(rows: seq<Row>, attrs: seq<Attr>, c: Option<Cond>, lo: nat, mid: nat, hi: nat)
    requires lo <= mid <= hi <= |rows| && (c.Some? ==> InScope(c.value)) && AllFit(rows, attrs)
    ensures Selected(rows, attrs, c, lo, hi) == Selected(rows, attrs, c, lo, mid) + Selected(rows, attrs, c, mid, hi)
    decreases hi
  {
    hide Accepts, Project;
    if mid < hi {
      SelectedSplit(rows, attrs, c, lo, mid, hi - 1);
    }
  }

  lemma {:induction false} SelectsNoneIff(rows: seq<Row>, attrs: seq<Attr>, c: Option<Cond>, lo: nat, hi: nat)
    requires lo <= hi <= |rows| && (c.Some? ==> InScope(c.value)) && AllFit(rows, attrs)
    ensures Selected(rows, attrs, c, lo, hi) == [] <==>
            forall i :: lo <= i < hi ==> !Accepts(c, rows[i], attrs)
    decreases hi
  {
    hide Accepts, Project;
    if lo < hi {
      SelectsNoneIff(rows, attrs, c, lo, hi - 1);
    }
  }

  // Rows may be left out at both ends exactly when none of them is accepted.
  lemma SelectedWithinIff(rows: seq<Row>, attrs: seq<Attr>, c: Option<Cond>, lo: nat, hi: nat)
    requires lo <= hi <= |rows| && (c.Some? ==> InScope(c.value)) && AllFit(rows, attrs)
    ensures Selected(rows, attrs, c, lo, hi) == Selected(rows, attrs, c, 0, |rows|) <==>
            forall i :: 0 <= i < |rows| && (i < lo || i >= hi) ==> !Accepts(c, rows[i], attrs)
  {
    hide Selected, Accepts;
    SelectedSplit(rows, attrs, c, 0, lo, |rows|);
    SelectedSplit(rows, attrs, c, lo, hi, |rows|);
    SelectsNoneIff(rows, attrs, c, 0, lo);
    SelectsNoneIff(rows, attrs, c, hi, |rows|);
    EndsEmptyIff(Selected(rows, attrs, c, 0, lo), Selected(rows, attrs, c, lo, hi),
                 Selected(rows, attrs, c, hi, |rows|));
  }

  lemma EndsEmptyIff<T>(a: seq<T>, b: seq<T>, c: seq<T>)
    ensures b == a + (b + c) <==> a == [] && c == []
  {
    if b == a + (b + c) {
      assert |b| == |a| + |b| + |c|;
    }
  }

  // ----- what is handed out -----

  function StoredBefore(attrs: seq<Attr>, k: nat): nat
    requires k <= |attrs|
  {
    if k == 0 then 0 else StoredBefore(attrs, k - 1) + if attrs[k - 1].store then 1 else 0
  }

  // The stored attributes of a row, each at the position it has among them.
  ghost predicate Projects(row: Row, attrs: seq<Attr>, out: Row)
    requires RowFits(row, attrs)
  {
    && |out| == StoredBefore(attrs, |attrs|)
    && forall k :: 0 <= k < |attrs| && attrs[k].store ==>
         StoredBefore(attrs, k) < |out| && out[StoredBefore(attrs, k)] == row[attrs[k].column]
  }

  lemma {:induction false} StoredPrefix(attrs: seq<Attr>, m: nat, k: nat)
    requires k <= m <= |attrs|
    ensures StoredBefore(attrs[..m], k) == StoredBefore(attrs, k) <= StoredBefore(attrs, m)
    decreases m + k
  {
    if k > 0 {
      StoredPrefix(attrs, m, k - 1);
    }
    if k < m {
      StoredPrefix(attrs, m - 1, k);
    }
  }

  lemma {:induction false} ProjectProjects(row: Row, attrs: seq<Attr>)
    requires RowFits(row, attrs)
    ensures Projects(row, attrs, Project(row, attrs))
  {
    if attrs != [] {
      var n := |attrs| - 1;
      ProjectProjects(row, attrs[..n]);
      ProjectsNext(row, attrs, Project(row, attrs[..n]));
    }
  }

  // The last attribute is appended.
  lemma ProjectsNext(row: Row, attrs: seq<Attr>, before: Row)
    requires RowFits(row, attrs) && attrs != [] && Projects(row, attrs[..|attrs| - 1], before)
    ensures var last := attrs[|attrs| - 1];
            Projects(row, attrs, before + if last.store then [row[last.column]] else [])
  {
    var n := |attrs| - 1;
    var out := before + if attrs[n].store then [row[attrs[n].column]] else [];
    assert StoredBefore(attrs, |attrs|) == StoredBefore(attrs, n) + if attrs[n].store then 1 else 0;
    hide StoredBefore;
    StoredPrefix(attrs, n, n);
    forall k | 0 <= k < |attrs| && attrs[k].store
      ensures StoredBefore(attrs, k) < |out| && out[StoredBefore(attrs, k)] == row[attrs[k].column]
    {
      if k < n {
        StoredPrefix(attrs, n, k);
        assert attrs[..n][k] == attrs[k];
      }
    }
  }

  // The variables of the query's attributes have the row's values.
  ghost predicate Carries(env: Env, row: Row, attrs: seq<Attr>) {
    forall id: u8, column: nat ::
      BoundTo(attrs, id, column) && id < MAX_VARIABLE_ID && column < |row| ==> env[id] == row[column]
  }

  // A condition accepts a row if it is true of the row's values.
  ghost predicate TrueOf(c: Option<Cond>, row: Row, attrs: seq<Attr>)
    requires c.Some? ==> InScope(c.value)
  {
    c.None? || forall env: Env :: Carries(env, row, attrs) ==> CondValue(c.value, env) == TRUE
  }

  lemma AcceptsIff(c: Option<Cond>, row: Row, attrs: seq<Attr>)
    requires RowFits(row, attrs) && (c.Some? ==> InScope(c.value) && Covered(c.value, attrs))
    ensures Accepts(c, row, attrs) <==> TrueOf(c, row, attrs)
  {
    if c.Some? {
      var own := Assign(Zeros(), row, attrs);
      forall id: u8, column: nat | BoundTo(attrs, id, column) && id < MAX_VARIABLE_ID && column < |row|
        ensures own[id] == row[column]
      {
        AssignBound(Zeros(), row, attrs, id, column);
      }
      assert Carries(own, row, attrs);
      forall env: Env | Carries(env, row, attrs)
        ensures CondValue(c.value, env) == CondValue(c.value, own)
      {
        SameOnRow(c.value, row, attrs, env, own);
      }
    }
  }

  lemma SameOnRow(c: Cond, row: Row, attrs: seq<Attr>, e1: Env, e2: Env)
    requires RowFits(row, attrs) && InScope(c) && Covered(c, attrs)
    requires Carries(e1, row, attrs) && Carries(e2, row, attrs)
    ensures CondValue(c, e1) == CondValue(c, e2)
  {
    forall id: u8 | id < MAX_VARIABLE_ID && Uses(c, id)
      ensures e1[id] == e2[id]
    {
      var column :| BoundTo(attrs, id, column);
      var k :| 0 <= k < |attrs| && attrs[k].id == Some(id);
      assert attrs[k].column == column && attrs[k].Fits(|row|);
    }
    ValueDependsOnUses(c, e1, e2);
  }

  // The numbers in increasing order.
  ghost predicate Enumerates(at: seq<nat>, wanted: set<nat>) {
    && (forall i, j :: 0 <= i < j < |at| ==> at[i] < at[j])
    && forall i :: i in at <==> i in wanted
  }

  // Exactly the wanted rows are handed out, in their order, each as its stored attributes.
  ghost predicate HandsOut(rows: seq<Row>, attrs: seq<Attr>, wanted: set<nat>, out: seq<Row>)
    requires AllFit(rows, attrs)
  {
    exists at :: Enumerates(at, wanted) && ProjectsEach(rows, attrs, at, out)
  }

  ghost predicate ProjectsEach(rows: seq<Row>, attrs: seq<Attr>, at: seq<nat>, out: seq<Row>)
    requires AllFit(rows, attrs)
  {
    |out| == |at| && forall k :: 0 <= k < |at| ==> at[k] < |rows| && Projects(rows[at[k]], attrs, out[k])
  }

  ghost function Wanted(rows: seq<Row>, attrs: seq<Attr>, c: Option<Cond>, lo: nat, hi: nat): set<nat>
    requires hi <= |rows| && (c.Some? ==> InScope(c.value))
  {
    set i: nat | lo <= i < hi && TrueOf(c, rows[i], attrs)
  }

  lemma {:induction false} SelectedHandsOut(rows: seq<Row>, attrs: seq<Attr>, c: Option<Cond>, lo: nat, hi: nat)
    requires hi <= |rows| && (c.Some? ==> InScope(c.value) && Covered(c.value, attrs)) && AllFit(rows, attrs)
    ensures HandsOut(rows, attrs, Wanted(rows, attrs, c, lo, hi), Selected(rows, attrs, c, lo, hi))
    decreases hi
  {
    hide HandsOut, Wanted, AllFit, Covered;
    if hi <= lo {
      NoneHandedOut(rows, attrs, c, lo, hi);
    } else {
      assert RowFits(rows[hi - 1], attrs) by {
        FitsAt(rows, attrs, hi - 1);
      }
      SelectedHandsOut(rows, attrs, c, lo, hi - 1);
      AcceptsIff(c, rows[hi - 1], attrs);
      ProjectProjects(rows[hi - 1], attrs);
      hide Project, Projects, TrueOf, Accepts;
      var out := Selected(rows, attrs, c, lo, hi - 1);
      NextHandedOut(rows, attrs, c, lo, hi - 1, out, Project(rows[hi - 1], attrs));
      assert out + [] == out;
    }
  }

  lemma FitsAt(rows: seq<Row>, attrs: seq<Attr>, i: nat)
    requires AllFit(rows, attrs) && i < |rows|
    ensures RowFits(rows[i], attrs)
  {
  }

  lemma NoneHandedOut(rows: seq<Row>, attrs: seq<Attr>, c: Option<Cond>, lo: nat, hi: nat)
    requires hi <= lo && hi <= |rows| && (c.Some? ==> InScope(c.value)) && AllFit(rows, attrs)
    ensures HandsOut(rows, attrs, Wanted(rows, attrs, c, lo, hi), [])
  {
    hide TrueOf, AllFit;
    assert Enumerates([], Wanted(rows, attrs, c, lo, hi));
    assert ProjectsEach(rows, attrs, [], []);
  }

  lemma NothingSelected(rows: seq<Row>, attrs: seq<Attr>, c: Option<Cond>)
    requires (c.Some? ==> InScope(c.value)) && AllFit(rows, attrs)
    ensures Selected(rows, attrs, c, 0, 0) == []
  {
  }

  lemma NextHandedOut(rows: seq<Row>, attrs: seq<Attr>, c: Option<Cond>, lo: nat, i: nat, out: seq<Row>, row: Row)
    requires lo <= i < |rows| && (c.Some? ==> InScope(c.value)) && AllFit(rows, attrs)
    requires HandsOut(rows, attrs, Wanted(rows, attrs, c, lo, i), out) && Projects(rows[i], attrs, row)
    ensures HandsOut(rows, attrs, Wanted(rows, attrs, c, lo, i + 1),
                     if TrueOf(c, rows[i], attrs) then out + [row] else out)
  {
    hide Projects, TrueOf, AllFit;
    var at :| Enumerates(at, Wanted(rows, attrs, c, lo, i)) && ProjectsEach(rows, attrs, at, out);
    if TrueOf(c, rows[i], attrs) {
      forall k | 0 <= k < |at|
        ensures at[k] < i
      {
        assert at[k] in at;
      }
      assert Enumerates(at + [i], Wanted(rows, attrs, c, lo, i + 1));
      assert ProjectsEach(rows, attrs, at + [i], out + [row]);
    } else {
      assert Wanted(rows, attrs, c, lo, i + 1) == Wanted(rows, attrs, c, lo, i);
    }
  }

  function ColumnOf(rows: seq<Row>, key: nat): (c: Column)
    requires forall i :: 0 <= i < |rows| ==> key < |rows[i]|
    ensures |c| == |rows|
  {
    seq(|rows|, i requires 0 <= i < |rows| => rows[i][key])
  }

  // ----- what the index visits -----

  // The column can be searched for both ends of a range.
  ghost predicate Searchable(col: Column, low: long, high: long) {
    |col| > 0 && Increasing(col) && col[0] <= low && col[0] <= high
  }

  // The row at which the binary search for target stops.
  ghost function Nearest(col: Column, target: long): (r: nat)
    requires |col| > 0 && Increasing(col) && col[0] <= target
    ensures Search(col, 0, |col| - 1, target) == Some(r)
    ensures r < |col| && Brackets(col, r, target) && (col[r] == target <==> target in col)
  {
    SearchFinds(col, target);
    Search(col, 0, |col| - 1, target).value
  }

  // The first row behind the ones the index visits.
  ghost function Behind(col: Column, low: long, high: long): (r: nat)
    requires Searchable(col, low, high)
    ensures Nearest(col, low) < r <= |col| && Nearest(col, high) < r
  {
    Common.Max(Nearest(col, low), Nearest(col, high)) + 1
  }

  // An equality search for a value no row has.
  ghost predicate Misses(col: Column, low: long, high: long) {
    low == high && low !in col
  }

  // The rows a search from low to high hands out.
  ghost predicate Visits(col: Column, low: long, high: long, i: nat)
    requires Searchable(col, low, high)
  {
    !Misses(col, low, high) && Nearest(col, low) <= i < Behind(col, low, high)
  }

  // What a query answers that goes through them.
  ghost function IndexAnswer(rows: seq<Row>, attrs: seq<Attr>, c: Cond, key: nat, low: long, high: long): seq<Row>
    requires InScope(c) && AllFit(rows, attrs) && forall i :: 0 <= i < |rows| ==> key < |rows[i]|
    requires Searchable(ColumnOf(rows, key), low, high)
  {
    var col := ColumnOf(rows, key);
    if Misses(col, low, high) then []
    else Selected(rows, attrs, Some(c), Nearest(col, low), Behind(col, low, high))
  }

  // It is the answer of the full scan exactly when no row left out is accepted.
  lemma IndexAnswerIff(rows: seq<Row>, attrs: seq<Attr>, c: Cond, key: nat, low: long, high: long)
    requires InScope(c) && AllFit(rows, attrs) && forall i :: 0 <= i < |rows| ==> key < |rows[i]|
    requires Searchable(ColumnOf(rows, key), low, high)
    ensures IndexAnswer(rows, attrs, c, key, low, high) == Selected(rows, attrs, Some(c), 0, |rows|) <==>
            forall i :: 0 <= i < |rows| && !Visits(ColumnOf(rows, key), low, high, i) ==>
              !Accepts(Some(c), rows[i], attrs)
  {
    hide Nearest, Behind, Accepts, Misses, Selected;
    var col := ColumnOf(rows, key);
    if Misses(col, low, high) {
      SelectsNoneIff(rows, attrs, Some(c), 0, |rows|);
    } else {
      SelectedWithinIff(rows, attrs, Some(c), Nearest(col, low), Behind(col, low, high));
    }
  }

  // Rows outside the visited ones have values outside the searched range.
  lemma UnvisitedOutside(col: Column, low: long, high: long, i: nat)
    requires Searchable(col, low, high) && i < |col| && !Visits(col, low, high, i)
    ensures !(low <= col[i] <= high)
  {
  }

  // ----- when the index gives the rows of the scan -----

  // The bounds of a range as the index reads them still include the range.
  predicate IntBounds(r: Range) {
    IntOf(r.min) <= r.min && r.max <= IntOf(r.max)
  }

  // No range that is open on one side is of that kind.
  lemma OneSidedNotIntBounds(r: Range)
    requires r.min == LONG_MIN || r.max == LONG_MAX
    ensures !IntBounds(r)
  {
  }

  // With soundly derived ranges and such bounds, every row the condition accepts
  // is visited: the index gives the rows of the full scan, in the same order.
  lemma IndexGivesScan(rows: seq<Row>, attrs: seq<Attr>, c: Cond, key: nat, id: u8)
    requires InScope(c) && Covered(c, attrs) && AllFit(rows, attrs)
    requires forall i :: 0 <= i < |rows| ==> key < |rows[i]|
    requires id < MAX_VARIABLE_ID && BoundTo(attrs, id, key)
    requires Derive(c).Some? && SoundlyDerived(c) && Derive(c).value[id].derived && IntBounds(Derive(c).value[id])
    requires Searchable(ColumnOf(rows, key), IntOf(Derive(c).value[id].min), IntOf(Derive(c).value[id].max))
    ensures var r := Derive(c).value[id];
            IndexAnswer(rows, attrs, c, key, IntOf(r.min), IntOf(r.max)) == Selected(rows, attrs, Some(c), 0, |rows|)
  {
    hide IntOf;
    var col := ColumnOf(rows, key);
    var low, high := IntOf(Derive(c).value[id].min), IntOf(Derive(c).value[id].max);
    forall i | 0 <= i < |rows| && !Visits(col, low, high, i)
      ensures !Accepts(Some(c), rows[i], attrs)
    {
      UnvisitedOutside(col, low, high, i);
      OutsideRejected(rows[i], attrs, c, key, id);
    }
    IndexAnswerIff(rows, attrs, c, key, low, high);
  }

  lemma OutsideRejected(row: Row, attrs: seq<Attr>, c: Cond, key: nat, id: u8)
    requires InScope(c) && RowFits(row, attrs) && key < |row| && id < MAX_VARIABLE_ID && BoundTo(attrs, id, key)
    requires Derive(c).Some? && SoundlyDerived(c) && Derive(c).value[id].derived && IntBounds(Derive(c).value[id])
    requires !(IntOf(Derive(c).value[id].min) <= row[key] <= IntOf(Derive(c).value[id].max))
    ensures !Accepts(Some(c), row, attrs)
  {
    hide IntOf;
    var env := Assign(Zeros(), row, attrs);
    AssignBound(Zeros(), row, attrs, id, key);
    DeriveSound(c);
    assert !Derive(c).value[id].Admits(env[id]);
    assert !InBox(env, Derive(c).value);
  }

  // A conjunction that restricts a single variable derives a range for that one only.
  lemma {:induction false} DerivedIsUsed(c: Cond, i: u8)
    requires InScope(c) && PlainConjunction(c) && i < MAX_VARIABLE_ID
    ensures Derive(c).Some? && (Derive(c).value[i].derived <==> Uses(c, i))
  {
    match c
    case Cmp(_, _, _) =>
    case And(a, b) =>
      DerivedIsUsed(a, i);
      DerivedIsUsed(b, i);
  }

  ghost predicate OnlyUses(c: Cond, id: u8) {
    forall i: u8 :: Uses(c, i) <==> i == id
  }

  // Such a condition accepts the rows whose value lies in the range.
  lemma AcceptsInRange(row: Row, attrs: seq<Attr>, c: Cond, key: nat, id: u8)
    requires InScope(c) && RowFits(row, attrs) && key < |row| && id < MAX_VARIABLE_ID && BoundTo(attrs, id, key)
    requires PlainConjunction(c) && OnlyUses(c, id)
    ensures Derive(c).Some?
    ensures Accepts(Some(c), row, attrs) <==> Derive(c).value[id].min <= row[key] <= Derive(c).value[id].max
  {
    var env := Assign(Zeros(), row, attrs);
    AssignBound(Zeros(), row, attrs, id, key);
    DeriveExact(c, env);
    forall i: u8 | i < MAX_VARIABLE_ID
      ensures Derive(c).value[i].derived <==> i == id
    {
      DerivedIsUsed(c, i);
    }
    assert InBox(env, Derive(c).value) <==> Derive(c).value[id].Admits(env[id]);
  }

  // The index gives the rows of the scan exactly when no row left out lies in the range.
  lemma RangeAnswerIff(rows: seq<Row>, attrs: seq<Attr>, c: Cond, key: nat, id: u8, low: long, high: long)
    requires InScope(c) && PlainConjunction(c) && OnlyUses(c, id) && AllFit(rows, attrs)
    requires id < MAX_VARIABLE_ID && BoundTo(attrs, id, key)
    requires forall i :: 0 <= i < |rows| ==> key < |rows[i]|
    requires Searchable(ColumnOf(rows, key), low, high)
    ensures Derive(c).Some?
    ensures var col, r := ColumnOf(rows, key), Derive(c).value[id];
            IndexAnswer(rows, attrs, c, key, low, high) == Selected(rows, attrs, Some(c), 0, |rows|) <==>
            forall i :: 0 <= i < |rows| && !Visits(col, low, high, i) ==> !(r.min <= col[i] <= r.max)
  {
    hide Accepts, Visits, OnlyUses, PlainConjunction, Derive, IndexAnswer, Selected;
    AcceptsInRange(rows[0], attrs, c, key, id);
    var col, r := ColumnOf(rows, key), Derive(c).value[id];
    forall i | 0 <= i < |rows|
      ensures Accepts(Some(c), rows[i], attrs) <==> r.min <= col[i] <= r.max
    {
      AcceptsInRange(rows[i], attrs, c, key, id);
    }
    IndexAnswerIff(rows, attrs, c, key, low, high);
  }

  // ----- ranges that are open on one side -----

  lemma NearestIsLastIff(col: Column, target: long)
    requires |col| > 0 && Increasing(col) && col[0] <= target
    ensures Nearest(col, target) == |col| - 1 <==> |col| == 1 || col[|col| - 2] < target
  {
    if |col| == 1 || col[|col| - 2] < target {
      SearchReachesLast(col, 0, target);
    }
  }

  lemma NearestIsFirstIff(col: Column, target: long)
    requires |col| > 0 && Increasing(col) && col[0] <= target
    ensures Nearest(col, target) == 0 <==>
            |col| == 1 || col[0] == target || (target < col[1] && EndsAtFirst(|col| - 1))
  {
    hide Search;
    if |col| > 1 && col[0] < target < col[1] {
      SearchReachesFirstIff(col, |col| - 1, target);
    }
  }

  // For values from t on, the upper bound LONG_MAX is read as -1: the rows are
  // kept if there are none, or if the search for the larger of the two bounds
  // gets to the last row and no such row lies before the first bound.
  ghost predicate KeepsFrom(col: Column, t: long)
    requires |col| > 0 && Increasing(col) && col[0] <= IntOf(t)
  {
    var low := IntOf(t);
    || col[|col| - 1] < t
    || (&& !Misses(col, low, -1) && (|col| == 1 || col[|col| - 2] < Common.Max(low, -1))
        && (Nearest(col, low) == 0 || col[Nearest(col, low) - 1] < t))
  }

  // The last condition holds by itself unless t is below every int.
  lemma FirstBoundIn(col: Column, t: long)
    requires |col| > 0 && Increasing(col) && col[0] <= IntOf(t) && t >= -0x8000
    ensures Nearest(col, IntOf(t)) == 0 || col[Nearest(col, IntOf(t)) - 1] < t
  {
    assert IntOf(t) <= t;
  }

  lemma KeepsFromIff(col: Column, t: long)
    requires Searchable(col, IntOf(t), IntOf(LONG_MAX))
    ensures (forall i :: 0 <= i < |col| && !Visits(col, IntOf(t), IntOf(LONG_MAX), i) ==>
               !(t <= col[i] <= LONG_MAX)) <==>
            KeepsFrom(col, t)
  {
    hide Search;
    var n, low := |col|, IntOf(t);
    assert IntOf(LONG_MAX) == -1;
    hide IntOf;
    NearestIsLastIff(col, low);
    NearestIsLastIff(col, -1);
    assert Visits(col, low, -1, n - 1) <==> !Misses(col, low, -1) && (n == 1 || col[n - 2] < Common.Max(low, -1));
  }

  // For values up to t, the lower bound LONG_MIN is read as 0: the rows are kept
  // if there are none, or if the search for 0 gets to the first row and no such
  // row lies behind the rows visited.
  ghost predicate KeepsUpTo(col: Column, t: long)
    requires Searchable(col, 0, IntOf(t))
  {
    var end := Behind(col, 0, IntOf(t));
    || col[0] > t
    || (&& !Misses(col, 0, IntOf(t))
        && (|col| == 1 || col[0] == 0 || (0 < col[1] && EndsAtFirst(|col| - 1)))
        && (end == |col| || col[end] > t))
  }

  // The last condition holds by itself unless t is above every int.
  lemma LastBoundIn(col: Column, t: long)
    requires Searchable(col, 0, IntOf(t)) && t <= 0x7FFF
    ensures var end := Behind(col, 0, IntOf(t)); end == |col| || col[end] > t
  {
    assert IntOf(t) >= t;
  }

  lemma KeepsUpToIff(col: Column, t: long)
    requires Searchable(col, 0, IntOf(t))
    ensures (forall i :: 0 <= i < |col| && !Visits(col, 0, IntOf(t), i) ==> !(LONG_MIN <= col[i] <= t)) <==>
            KeepsUpTo(col, t)
  {
    hide Search;
    var high := IntOf(t);
    hide IntOf;
    NearestIsFirstIff(col, 0);
    assert Visits(col, 0, high, 0) <==> !Misses(col, 0, high) && Nearest(col, 0) == 0;
  }

  function Comparison(rel: Rel, k: long, id: u8): Cond {
    Cmp(rel, Leaf(Variable(id)), Leaf(Long(k)))
  }

  // No value is larger than LONG_MAX, or smaller than LONG_MIN.
  predicate Hopeless(rel: Rel, k: long) {
    (rel.Ge? && k == LONG_MAX) || (rel.Le? && k == LONG_MIN)
  }

  lemma ComparisonDerives(rel: Rel, k: long, id: u8)
    requires id < MAX_VARIABLE_ID && !rel.Neq?
    ensures var c := Comparison(rel, k, id);
            && InScope(c) && OnlyUses(c, id) && (PlainConjunction(c) <==> !Hopeless(rel, k))
            && Derive(c).Some? && Derive(c).value[id] == RangeFor(rel, k).value
  {
  }

  // No row left out has its value in the range: always for an equality with an
  // int; for an equality with another constant if no row has it.
  ghost predicate KeepsRange(col: Column, rel: Rel, r: Range)
    requires Searchable(col, IntOf(r.min), IntOf(r.max)) && (rel.Le? || rel.Leq? ==> r.min == LONG_MIN)
  {
    match rel
    case Eq => IntOf(r.min) == r.min || r.min !in col
    case Ge => KeepsFrom(col, r.min)
    case Geq => KeepsFrom(col, r.min)
    case Le => KeepsUpTo(col, r.max)
    case Leq => KeepsUpTo(col, r.max)
    case Neq => true
  }

  lemma EqualityKeepsIff(col: Column, k: long)
    requires Searchable(col, IntOf(k), IntOf(k))
    ensures (forall i :: 0 <= i < |col| && !Visits(col, IntOf(k), IntOf(k), i) ==> !(k <= col[i] <= k)) <==>
            IntOf(k) == k || k !in col
  {
    hide IntOf, Search;
    forall i | 0 <= i < |col| && !Visits(col, IntOf(k), IntOf(k), i)
      ensures col[i] != IntOf(k)
    {
      UnvisitedOutside(col, IntOf(k), IntOf(k), i);
    }
    if IntOf(k) != k && k in col {
      var i :| 0 <= i < |col| && col[i] == k;
      assert !Visits(col, IntOf(k), IntOf(k), i);
    }
  }

  lemma KeepsRangeIff(col: Column, rel: Rel, k: long)
    requires !rel.Neq? && !Hopeless(rel, k)
    requires Searchable(col, IntOf(RangeFor(rel, k).value.min), IntOf(RangeFor(rel, k).value.max))
    ensures var r := RangeFor(rel, k).value;
            (forall i :: 0 <= i < |col| && !Visits(col, IntOf(r.min), IntOf(r.max), i) ==>
               !(r.min <= col[i] <= r.max)) <==>
            KeepsRange(col, rel, r)
  {
    hide Visits, KeepsFrom, KeepsUpTo, Searchable;
    var r := RangeFor(rel, k).value;
    assert IntOf(LONG_MIN) == 0;
    if rel.Ge? || rel.Geq? {
      KeepsFromIff(col, r.min);
    } else if rel.Eq? {
      EqualityKeepsIff(col, k);
    } else {
      KeepsUpToIff(col, r.max);
    }
  }

  // A single comparison of the indexed column with a constant: exactly when the
  // index gives the rows of the scan, from the values of the column.
  lemma RelationAnswerIff(rows: seq<Row>, attrs: seq<Attr>, rel: Rel, k: long, key: nat, id: u8)
    requires AllFit(rows, attrs) && id < MAX_VARIABLE_ID && BoundTo(attrs, id, key) && !rel.Neq?
    requires forall i :: 0 <= i < |rows| ==> key < |rows[i]|
    requires Searchable(ColumnOf(rows, key), IntOf(RangeFor(rel, k).value.min), IntOf(RangeFor(rel, k).value.max))
    ensures InScope(Comparison(rel, k, id))
    ensures var c, col, r := Comparison(rel, k, id), ColumnOf(rows, key), RangeFor(rel, k).value;
            IndexAnswer(rows, attrs, c, key, IntOf(r.min), IntOf(r.max)) ==
            Selected(rows, attrs, Some(c), 0, |rows|) <==>
            Hopeless(rel, k) || KeepsRange(col, rel, r)
  {
    hide IndexAnswer, Selected, Derive, OnlyUses, PlainConjunction, InScope, Visits, Searchable, KeepsRange;
    ComparisonDerives(rel, k, id);
    var r := RangeFor(rel, k).value;
    if Hopeless(rel, k) {
      HopelessAnswer(rows, attrs, rel, k, key, id);
    } else {
      hide Comparison;
      RangeAnswerIff(rows, attrs, Comparison(rel, k, id), key, id, IntOf(r.min), IntOf(r.max));
      KeepsRangeIff(ColumnOf(rows, key), rel, k);
    }
  }

  lemma HopelessAnswer(rows: seq<Row>, attrs: seq<Attr>, rel: Rel, k: long, key: nat, id: u8)
    requires AllFit(rows, attrs) && id < MAX_VARIABLE_ID && BoundTo(attrs, id, key) && Hopeless(rel, k)
    requires forall i :: 0 <= i < |rows| ==> key < |rows[i]|
    requires Searchable(ColumnOf(rows, key), IntOf(RangeFor(rel, k).value.min), IntOf(RangeFor(rel, k).value.max))
    ensures var c, r := Comparison(rel, k, id), RangeFor(rel, k).value;
            IndexAnswer(rows, attrs, c, key, IntOf(r.min), IntOf(r.max)) == Selected(rows, attrs, Some(c), 0, |rows|)
  {
    hide IndexAnswer, Selected, Searchable, RowFits, AllFit;
    var c, r := Comparison(rel, k, id), RangeFor(rel, k).value;
    forall i | 0 <= i < |rows|
      ensures RowFits(rows[i], attrs) && !Accepts(Some(c), rows[i], attrs)
    {
      RowOfTable(rows, attrs, i);
    }
    IndexAnswerIff(rows, attrs, c, key, IntOf(r.min), IntOf(r.max));
  }

  lemma RowOfTable(rows: seq<Row>, attrs: seq<Attr>, i: nat)
    requires AllFit(rows, attrs) && i < |rows|
    ensures RowFits(rows[i], attrs)
  {
  }

  // For instance, a >= c with a negative c loses all rows with non-negative
  // values but possibly the first of them.
  lemma OpenRangeLosesRows(col: Column, c: long, i: nat)
    requires |col| > 0 && Increasing(col) && -0x8000 <= c < 0 && col[0] <= c
    requires 0 < i < |col| && col[i - 1] >= 0
    ensures var cond := Comparison(Geq, c, 0);
            var low, high := IntOf(Derive(cond).value[0].min), IntOf(Derive(cond).value[0].max);
            && SoundlyDerived(cond) && CondValue(cond, Zeros()[0 := col[i]]) == TRUE
            && Searchable(col, low, high) && !Visits(col, low, high, i)
  {
    hide Search;
    assert IntOf(c) == c && IntOf(LONG_MAX) == -1;
    var first, last := Nearest(col, c), Nearest(col, -1);
    assert i - 1 >= last && i - 1 >= first;
  }

  lemma RunsEncoded(code: Bytes, c: Cond, env: Env)
    requires InScope(c) && At(code, 0, EncodeCond(c))
    ensures LvmCode.Execute(code, env) == ExecStatus(CondValue(c, env), |EncodeCond(c)|)
  {
    hide EncodeCond;
    assert code[..|EncodeCond(c)|] == EncodeCond(c);
    assert code == EncodeCond(c) + code[|EncodeCond(c)|..];
    ExecuteEncoded(c, code[|EncodeCond(c)|..], env);
  }

  // A query as data: what it reads, its condition, and the columns that have a
  // variable, an inline index, or unique values.
  datatype Plan = Plan(rows: seq<Row>, attrs: seq<Attr>, width: nat, cond: Option<Cond>,
                       varOf: seq<Option<u8>>, indexed: seq<bool>, unique: seq<bool>) {
    ghost predicate Valid() {
      && Table(rows, attrs, width) && AllFit(rows, attrs)
      && (cond.Some? ==> InScope(cond.value) && Covered(cond.value, attrs))
      && |varOf| == |indexed| == |unique| == width
      && (forall k :: 0 <= k < width && varOf[k].Some? ==>
            varOf[k].value < MAX_VARIABLE_ID && BoundTo(attrs, varOf[k].value, k))
    }

    // The answer of the full scan.
    ghost function Answer(): seq<Row>
      requires Valid()
    {
      Selected(rows, attrs, cond, 0, |rows|)
    }

    // Column k has an index and a derived range.
    predicate Usable(d: Ranges, k: nat)
      requires k < |indexed| && k < |varOf| && (varOf[k].Some? ==> varOf[k].value < MAX_VARIABLE_ID)
    {
      indexed[k] && varOf[k].Some? && d[varOf[k].value].derived
    }

    // The program takes the last such column, whatever the sizes of the ranges.
    ghost function Chosen(d: Ranges, w: nat): (k: Option<nat>)
      requires Valid() && w <= width
      ensures k.Some? ==> k.value < w && Usable(d, k.value) && forall j :: k.value < j < w ==> !Usable(d, j)
      ensures k.None? ==> forall j :: 0 <= j < w ==> !Usable(d, j)
    {
      if w == 0 then None else if Usable(d, w - 1) then Some(w - 1) else Chosen(d, w - 1)
    }

    // The column whose index the query goes through, if any.
    ghost function Index(): (k: Option<nat>)
      requires Valid()
      ensures k.Some? ==> cond.Some? && Derive(cond.value).Some? && k.value < width
      ensures k.Some? ==> Usable(Derive(cond.value).value, k.value)
    {
      if cond.Some? && Derive(cond.value).Some? then Chosen(Derive(cond.value).value, width) else None
    }

    // The range derived for that column.
    ghost function Span(): Range
      requires Valid() && Index().Some?
    {
      Derive(cond.value).value[varOf[Index().value].value]
    }

    // The index, if one is used, can be searched for both ends of the range.
    ghost predicate Reachable()
      requires Valid()
    {
      Index().Some? ==> Searchable(ColumnOf(rows, Index().value), IntOf(Span().min), IntOf(Span().max))
    }

    // The search looks for a single value, and no row has it.
    ghost predicate NoSuchValue()
      requires Valid()
    {
      Index().Some? && Misses(ColumnOf(rows, Index().value), IntOf(Span().min), IntOf(Span().max))
    }

    // The rows the query delivers.
    ghost function Delivered(): seq<Row>
      requires Valid() && Reachable()
    {
      if Index().None? then Answer()
      else IndexAnswer(rows, attrs, cond.value, Index().value, IntOf(Span().min), IntOf(Span().max))
    }

    // The rows it looks at whose values make the condition true.
    ghost function Reached(): set<nat>
      requires Valid() && Reachable()
    {
      set i: nat | i < |rows| && LooksAt(i) && TrueOf(cond, rows[i], attrs)
    }

    ghost predicate LooksAt(i: nat)
      requires Valid() && Reachable()
    {
      Index().Some? ==> Visits(ColumnOf(rows, Index().value), IntOf(Span().min), IntOf(Span().max), i)
    }

    // The rows delivered are these, in order, each as its stored attributes.
    lemma DeliveredRows()
      requires Valid() && Reachable()
      ensures HandsOut(rows, attrs, Reached(), Delivered())
      ensures HandsOut(rows, attrs, Wanted(rows, attrs, cond, 0, |rows|), Answer())
    {
      hide IntOf, Nearest, Behind, TrueOf, Selected, HandsOut, Misses, Increasing, Table;
      SelectedHandsOut(rows, attrs, cond, 0, |rows|);
      if Index().None? {
        assert Reached() == Wanted(rows, attrs, cond, 0, |rows|);
      } else {
        var col, low, high := ColumnOf(rows, Index().value), IntOf(Span().min), IntOf(Span().max);
        if Misses(col, low, high) {
          assert Reached() == Wanted(rows, attrs, cond, 0, 0);
          SelectedHandsOut(rows, attrs, cond, 0, 0);
          NothingSelected(rows, attrs, cond);
        } else {
          SelectedHandsOut(rows, attrs, cond, Nearest(col, low), Behind(col, low, high));
          assert Reached() == Wanted(rows, attrs, cond, Nearest(col, low), Behind(col, low, high));
        }
      }
    }

    // The ranges are sound, and the bounds survive the conversion to int.
    ghost predicate IndexServes()
      requires Valid()
    {
      Reachable() && (Index().Some? ==> SoundlyDerived(cond.value) && IntBounds(Span()))
    }

    // They are the rows of the full scan exactly when the index leaves out no
    // row that the condition accepts.
    lemma DeliveredIff()
      requires Valid() && Reachable()
      ensures Delivered() == Answer() <==>
              (Index().Some? ==>
                 var col := ColumnOf(rows, Index().value);
                 forall i :: 0 <= i < |rows| && !Visits(col, IntOf(Span().min), IntOf(Span().max), i) ==>
                   !Accepts(cond, rows[i], attrs))
    {
      hide Visits, Searchable, Accepts, IndexAnswer, Selected, IntOf;
      if Index().Some? {
        IndexAnswerIff(rows, attrs, cond.value, Index().value, IntOf(Span().min), IntOf(Span().max));
      }
    }

    lemma IndexServesAnswer()
      requires Valid() && IndexServes()
      ensures Delivered() == Answer()
    {
      hide IntOf, IntBounds, Searchable, IndexAnswer, Selected, Derive, SoundlyDerived;
      if Index().Some? {
        IndexGivesScan(rows, attrs, cond.value, Index().value, varOf[Index().value].value);
      }
    }
  }

  // ----- the handle -----

  // What index_next and storage_get_row come to for one call.
  datatype Fetch = Row(row: Row) | End | Failed

  class Handle {
    const rows: seq<Row>
    const attrs: seq<Attr>
    const width: nat
    const vm: Machine?               // no condition: null
    ghost const cond: Option<Cond>   // what its code encodes
    const varOf: seq<Option<u8>>     // per column, the variable of that name
    const indexed: seq<bool>         // per column, an inline index
    const unique: seq<bool>
    var tupleId: nat
    var searchIndex: bool
    var key: nat                     // column of the index in use
    var minValue: long
    var maxValue: long
    var nextItemNo: nat
    var cachedStart: nat
    var cachedEnd: nat

    ghost function AsPlan(): Plan {
      Plan(rows, attrs, width, cond, varOf, indexed, unique)
    }

    ghost predicate Query() {
      AsPlan().Valid()
    }

    constructor (plan: Plan, vm: Machine?)
      ensures AsPlan() == plan && this.vm == vm && !searchIndex && nextItemNo == 0
    {
      rows, attrs, width, varOf, indexed, unique := plan.rows, plan.attrs, plan.width, plan.varOf, plan.indexed,
        plan.unique;
      cond := plan.cond;
      this.vm := vm;
      tupleId, searchIndex, key, minValue, maxValue := 0, false, 0, 0, 0;
      nextItemNo, cachedStart, cachedEnd := 0, 0, 0;
    }

    // The program's condition, if any, is in the code buffer.
    ghost predicate Compiled()
      reads this, if vm == null then {} else {vm, vm.code}
    {
      && (vm == null <==> cond.None?)
      && (vm != null ==> vm.Valid() && At(vm.code[..], 0, EncodeCond(cond.value)))
    }

    ghost function Column(): Column
      requires Query() && key < width
      reads this`key
    {
      ColumnOf(rows, key)
    }

    // An index search, if there is one, stays inside the rows.
    ghost predicate Ready()
      requires Query()
      reads this
    {
      searchIndex ==> key < width && Searchable(Column(), IntOf(minValue), IntOf(maxValue))
    }

    ghost predicate Missed()
      requires Query() && Ready()
      reads this
    {
      searchIndex && Misses(Column(), IntOf(minValue), IntOf(maxValue))
    }

    // The rows to visit are those from Begin() up to Finish().
    ghost function Begin(): (r: nat)
      requires Query() && Ready()
      reads this
      ensures r <= |rows|
    {
      if searchIndex then Nearest(Column(), IntOf(minValue)) else 0
    }

    ghost function Finish(): (r: nat)
      requires Query() && Ready()
      reads this
      ensures Begin() <= r <= |rows|
    {
      if searchIndex then Behind(Column(), IntOf(minValue), IntOf(maxValue)) else |rows|
    }

    ghost function Position(): nat
      requires Query() && Ready()
      reads this
    {
      if !searchIndex then tupleId
      else if nextItemNo == 0 then Begin()
      else cachedStart + nextItemNo
    }

    // The cached ends are the ones of this search.
    ghost predicate Cached()
      requires Query() && Ready()
      reads this
    {
      && Begin() <= Position() <= Finish()
      && (searchIndex && nextItemNo > 0 ==>
            !Missed() && cachedStart == Begin() && cachedEnd == Nearest(Column(), IntOf(maxValue)))
    }

    ghost function Answer(lo: nat, hi: nat): seq<Row>
      requires Query() && hi <= |rows|
    {
      Selected(rows, attrs, cond, lo, hi)
    }

    // select_index: the running minimum is never updated, so every range passes the test.
    method SelectIndex(d: Ranges)
      requires Query() && !searchIndex
      modifies this`searchIndex, this`key, this`minValue, this`maxValue, this`nextItemNo
      ensures AsPlan().Chosen(d, width) == if searchIndex then Some(key) else None
      ensures searchIndex ==> var r := d[varOf[key].value]; minValue == r.min && maxValue == r.max
      ensures nextItemNo == if searchIndex then 0 else old(nextItemNo)
    {
      var k := 0;
      while k < width
        invariant 0 <= k <= width
        invariant AsPlan().Chosen(d, k) == if searchIndex then Some(key) else None
        invariant searchIndex ==> var r := d[varOf[key].value]; minValue == r.min && maxValue == r.max
        invariant nextItemNo == if searchIndex then 0 else old(nextItemNo)
      {
        if indexed[k] && varOf[k].Some? {
          var r := d[varOf[k].value];
          if r.derived {
            searchIndex, key, minValue, maxValue := true, k, r.min, r.max;
            nextItemNo := 0;
          }
        }
        k := k + 1;
      }
    }

    // generate_selection_result.
    method Open()
      requires Query() && Compiled() && !searchIndex && (vm != null ==> vm.ip == 0 && vm.derivations == NoRanges())
      modifies this`tupleId, this`searchIndex, this`key, this`minValue, this`maxValue, this`nextItemNo
      modifies if vm == null then {} else {vm}
      ensures Compiled() && tupleId == 0 && nextItemNo == if searchIndex then 0 else old(nextItemNo)
      ensures AsPlan().Index() == if searchIndex then Some(key) else None
      ensures searchIndex ==> minValue == AsPlan().Span().min && maxValue == AsPlan().Span().max
    {
      tupleId := 0;
      if vm != null {
        DeriveEncoded(vm.code[..], 0, cond.value);
        var ok := vm.Derive();
        if ok {
          OverlayNothing(cond.value);
          SelectIndex(vm.derivations);
        }
      }
    }

    lemma AnswerGrows(lo: nat, i: nat)
      requires Query() && lo <= i < |rows|
      ensures Answer(lo, i + 1) ==
              Answer(lo, i) + if Accepts(cond, rows[i], attrs) then [Project(rows[i], attrs)] else []
    {
    }

    method RangeSearch() returns (ok: bool, start: nat, end: nat)
      requires Query() && searchIndex && Ready()
      ensures ok == !Missed()
      ensures ok ==> start == Begin() && end == Nearest(Column(), IntOf(maxValue))
    {
      var column := ColumnOf(rows, key);
      var exact := IntOf(minValue) == IntOf(maxValue);
      assert Begin() == Nearest(column, IntOf(minValue)) && Nearest(column, IntOf(maxValue)) < |column|;
      var first := BinarySearch(column, IntOf(minValue), exact);
      var last := BinarySearch(column, IntOf(maxValue), exact);
      if first.None? || last.None? {
        return false, 0, 0;
      }
      return true, first.value, last.value;
    }

    // index_get_next and the inline index's get_next behind it.
    method NextFromIndex() returns (id: Option<nat>)
      requires Query() && searchIndex && Ready() && Cached()
      modifies this`nextItemNo, this`cachedStart, this`cachedEnd
      ensures Missed() ==> id.None? && nextItemNo == 0
      ensures !Missed() ==> nextItemNo > 0 && Cached()
      ensures !Missed() ==> id == if old(Position()) < Finish() then Some(old(Position())) else None
      ensures Position() == old(Position()) + if id.Some? then 1 else 0
    {
      hide IntOf, Nearest, Increasing;
      if unique[key] && nextItemNo == 1 && IntOf(minValue) == IntOf(maxValue) {
        return None;
      }
      if nextItemNo == 0 {
        var ok, start, end := RangeSearch();
        cachedStart, cachedEnd := start, end;
        if !ok {
          return None;
        }
        nextItemNo := nextItemNo + 1;
        return Some(cachedStart);
      } else if cachedStart + nextItemNo <= cachedEnd {
        id := Some(cachedStart + nextItemNo);
        nextItemNo := nextItemNo + 1;
        return id;
      }
      return None;
    }

    // The first half of relation_process_select: find the next row to look at. The row
    // number moves on even behind the last row.
    method NextRow() returns (f: Fetch)
      requires Query() && Ready() && Cached()
      modifies this`tupleId, this`nextItemNo, this`cachedStart, this`cachedEnd
      ensures f.Failed? <==> Missed()
      ensures !Missed() ==> f == if old(Position()) < Finish() then Fetch.Row(rows[old(Position())]) else End
      ensures f.Row? ==> Cached() && Position() == old(Position()) + 1
      ensures f.End? ==> tupleId == old(tupleId) + if searchIndex then 0 else 1
    {
      hide IntOf, Nearest, Increasing, Table, AllFit, Covered, BoundTo;
      if searchIndex {
        var id := NextFromIndex();
        if id.None? {
          return if nextItemNo == 0 then Failed else End;
        }
        tupleId := id.value;
      }
      f := if tupleId < |rows| then Fetch.Row(rows[tupleId]) else End;
      tupleId := tupleId + 1;
    }

    // The loop over the attributes: set the variables, project the row.
    method CopyRow(row: Row) returns (out: Row)
      requires RowFits(row, attrs) && (vm != null ==> vm.Valid())
      modifies if vm == null then {} else {vm.variables}
      ensures out == Project(row, attrs) && Projects(row, attrs, out)
      ensures vm != null ==> vm.Valid() && vm.Values() == Assign(old(vm.Values()), row, attrs)
    {
      ProjectProjects(row, attrs);
      hide Projects;
      out := [];
      var k := 0;
      ghost var env := if vm == null then Zeros() else vm.Values();
      while k < |attrs|
        invariant 0 <= k <= |attrs| && RowFits(row, attrs[..k]) && out == Project(row, attrs[..k])
        invariant vm != null ==> vm.Valid() && vm.Values() == Assign(env, row, attrs[..k])
      {
        assert attrs[..k + 1][..k] == attrs[..k];
        if vm != null && attrs[k].id.Some? {
          vm.SetVariableValue(attrs[k].id.value, row[attrs[k].column]);
        }
        if attrs[k].store {
          out := out + [row[attrs[k].column]];
        }
        k := k + 1;
      }
      assert attrs[..k] == attrs;
    }

    // The second half: copy the row and test the condition.
    method ProcessRow(row: Row) returns (result: DbResult, out: Row)
      requires Query() && Compiled() && row in rows
      modifies if vm == null then {} else {vm, vm.variables}
      ensures Compiled()
      ensures vm != null ==> vm.derivations == old(vm.derivations)
      ensures if Accepts(cond, row, attrs) then result == GotRow && out == Project(row, attrs) else result == Passed
      ensures RowFits(row, attrs)
      ensures if TrueOf(cond, row, attrs) then result == GotRow && Projects(row, attrs, out) else result == Passed
    {
      assert RowFits(row, attrs);
      AcceptsIff(cond, row, attrs);
      hide TrueOf, Projects;
      ghost var env := if vm == null then Zeros() else vm.Values();
      hide Project, Table, AllFit, RowFits, Covered, BoundTo, EncodeCond;
      out := CopyRow(row);
      if vm == null {
        return GotRow, out;
      }
      AcceptsFromAnyEnv(cond.value, row, attrs, env);
      RunsEncoded(vm.code[..], cond.value, vm.Values());
      var status := vm.Execute();
      if status == TRUE {
        return GotRow, out;
      }
      return Passed, out;
    }

    // relation_process_select: visit one row.
    method ProcessSelect(ghost sofar: seq<Row>) returns (result: DbResult, out: Row)
      requires Query() && Compiled() && Ready() && Cached() && sofar == Answer(Begin(), Position())
      modifies this`tupleId, this`nextItemNo, this`cachedStart, this`cachedEnd, if vm ==
               null then {} else {vm, vm.variables}
      ensures Compiled() && (result == IndexError <==> Missed())
      ensures result == Finished <==> !Missed() && old(Position()) == Finish()
      ensures result == GotRow || result == Passed ==>
                && Cached() && Position() == old(Position()) + 1
                && Answer(Begin(), Position()) == if result == GotRow then sofar + [out] else sofar
    {
      hide IntOf, Nearest, Increasing, Table, AllFit, At, EncodeCond, Searchable, Misses, Behind, Accepts, Project,
        Selected,
        Covered, BoundTo;
      var fetch := NextRow();
      match fetch
      case Failed => return IndexError, [];
      case End => return Finished, [];
      case Row(row) =>
        AnswerGrows(Begin(), old(Position()));
        result, out := ProcessRow(row);
    }

    // Calling relation_process_select until it stops.
    method Run() returns (out: seq<Row>, last: DbResult)
      requires Query() && Compiled() && Ready() && tupleId == 0 && nextItemNo == 0
      modifies this`tupleId, this`nextItemNo, this`cachedStart, this`cachedEnd, if vm ==
               null then {} else {vm, vm.variables}
      ensures last == if Missed() then IndexError else Finished
      ensures out == if Missed() then [] else Answer(Begin(), Finish())
    {
      hide IntOf, Nearest, Increasing, Table, AllFit, Compiled;
      out := [];
      while true
        invariant Compiled() && Cached() && out == Answer(Begin(), Position())
        decreases Finish() - Position()
      {
        var result, row := ProcessSelect(out);
        if result == Finished {
          return out, Finished;
        }
        if result == IndexError {
          return [], IndexError;
        }
        if result == GotRow {
          out := out + [row];
        }
      }
    }

    // A whole query, whichever way it goes through the rows. A search for a single
    // value that no row has ends with an index error instead of an empty answer.
    method Select() returns (out: seq<Row>, last: DbResult)
      requires Query() && Compiled() && !searchIndex && nextItemNo == 0
      requires vm != null ==> vm.ip == 0 && vm.derivations == NoRanges()
      requires AsPlan().Reachable()
      modifies this, if vm == null then {} else {vm, vm.variables}
      ensures out == AsPlan().Delivered() && HandsOut(rows, attrs, AsPlan().Reached(), out)
      ensures last == if AsPlan().NoSuchValue() then IndexError else Finished
    {
      AsPlan().DeliveredRows();
      hide IntOf, Nearest, Increasing, Table, AllFit, Compiled, Behind, Derive, HandsOut, Plan.Reached;
      Open();
      out, last := Run();
    }
  }
}
