// The inline index: binary search over a column that is stored in increasing order.
module InlineIndex {
  import opened Common
  import opened Lvm

  const ROW_LIMIT := 0x7FFF_FFFF  // row numbers are 32-bit; half of them is the first wrapped probe

  type Column = seq<long>

  ghost predicate Increasing(col: Column) {
    forall i, j :: 0 <= i < j < |col| ==> col[i] < col[j]
  }

  // Reading a long as a 16-bit int, as an attribute value of the int domain is read.
  function IntOf(l: long): long {
    ((l as int) + 0x8000) % 0x1_0000 - 0x8000
  }

  // The row binary_search stops at. None: the search for a value below the first
  // row's makes the unsigned upper bound wrap around, and the next probe is beyond
  // every row.
  function Search(col: Column, lo: nat, hi: nat, target: long): (r: Option<nat>)
    requires lo <= hi < |col|
    ensures r.Some? ==> lo <= r.value <= hi
    decreases hi - lo
  {
    var c := lo + (hi - lo) / 2;
    if target == col[c] then Some(c)
    else if target > col[c] then (if c + 1 > hi then Some(c) else Search(col, c + 1, hi, target))
    else if c == 0 then None
    else if lo > c - 1 then Some(c)
    else Search(col, lo, c - 1, target)
  }

  // Everything before c is smaller, everything behind it is larger.
  ghost predicate Brackets(col: Column, c: nat, target: long)
    requires c < |col|
  {
    && (forall i :: 0 <= i < c ==> col[i] < target)
    && (forall i :: c < i < |col| ==> col[i] > target)
  }

  lemma AllBefore(col: Column, c: nat, target: long)
    requires c < |col| && Increasing(col)
    ensures col[c] < target ==> forall i :: 0 <= i <= c ==> col[i] < target
    ensures col[c] > target ==> forall i :: c <= i < |col| ==> col[i] > target
    ensures col[c] == target ==> Brackets(col, c, target)
  {
  }

  lemma {:induction false} SearchBrackets(col: Column, lo: nat, hi: nat, target: long)
    requires lo <= hi < |col| && Increasing(col)
    requires forall i :: 0 <= i < lo ==> col[i] < target
    requires forall i :: hi < i < |col| ==> col[i] > target
    ensures Search(col, lo, hi, target).None? <==> target < col[0]
    ensures Search(col, lo, hi, target).Some? ==> Brackets(col, Search(col, lo, hi, target).value, target)
    decreases hi - lo
  {
    var c := lo + (hi - lo) / 2;
    AllBefore(col, c, target);
    hide Increasing;
    if target > col[c] {
      if c + 1 <= hi {
        SearchBrackets(col, c + 1, hi, target);
      }
    } else if target < col[c] && c > 0 && lo <= c - 1 {
      SearchBrackets(col, lo, c - 1, target);
    }
  }

  // The search stays inside the rows exactly when the target is not below the
  // first value, and then ends next to where the target is or would be.
  lemma SearchFinds(col: Column, target: long)
    requires |col| > 0 && Increasing(col)
    ensures Search(col, 0, |col| - 1, target).Some? <==> col[0] <= target
    ensures Search(col, 0, |col| - 1, target).Some? ==>
              var c := Search(col, 0, |col| - 1, target).value;
              Brackets(col, c, target) && (col[c] == target <==> target in col)
  {
    SearchBrackets(col, 0, |col| - 1, target);
    if Search(col, 0, |col| - 1, target).Some? {
      var c := Search(col, 0, |col| - 1, target).value;
      if target in col {
        var k :| 0 <= k < |col| && col[k] == target;
        assert k == c;
      }
    }
  }

  // Rightward the search reaches the last row whenever the target is behind the last but one.
  lemma {:induction false} SearchReachesLast(col: Column, lo: nat, target: long)
    requires lo < |col| && Increasing(col) && col[0] <= target
    requires |col| > 1 ==> col[|col| - 2] < target
    ensures Search(col, lo, |col| - 1, target) == Some(|col| - 1)
    decreases |col| - lo
  {
    var hi := |col| - 1;
    var c := lo + (hi - lo) / 2;
    if c < hi {
      assert col[c] <= col[hi - 1] < target;
      SearchReachesLast(col, c + 1, target);
    }
  }

  // Leftward, whether the search ends at the first row or the one behind it
  // depends on how the number of rows halves.
  predicate EndsAtFirst(hi: nat) {
    hi == 0 || (hi > 1 && EndsAtFirst(hi / 2 - 1))
  }

  lemma {:induction false} SearchReachesFirstIff(col: Column, hi: nat, target: long)
    requires hi < |col| && |col| > 1 && Increasing(col) && col[0] < target < col[1]
    ensures Search(col, 0, hi, target) == Some(0) <==> EndsAtFirst(hi)
    decreases hi
  {
    var c := hi / 2;
    if c > 0 {
      assert col[1] <= col[c];
      SearchReachesFirstIff(col, c - 1, target);
    }
  }

  // Between the rows found for the two ends of a range lie all rows of the range,
  // and at most one further row at each end.
  lemma RangeBracketed(col: Column, low: long, high: long, start: nat, end: nat, i: nat)
    requires i < |col| && start < |col| && end < |col| && Increasing(col)
    requires Brackets(col, start, low) && Brackets(col, end, high)
    ensures low <= col[i] <= high ==> start <= i <= end
    ensures start < i < end ==> low < col[i] < high
  {
  }

  method BinarySearch(col: Column, target: long, exact: bool) returns (r: Option<nat>)
    requires 0 < |col| <= ROW_LIMIT
    requires Search(col, 0, |col| - 1, target).Some?
    ensures var c := Search(col, 0, |col| - 1, target).value;
            r == if exact && col[c] != target then None else Some(c)
  {
    var max: u32 := |col| - 1;
    var min: u32 := 0;
    var center: u32 := 0;
    while true
      invariant min <= max < |col|
      invariant Search(col, min, max, target) == Search(col, 0, |col| - 1, target)
      decreases max - min
    {
      center := min + (max - min) / 2;
      ghost var here := Search(col, min, max, target);
      if target > col[center] {
        min := center + 1;
      } else {
        max := Below(center);
      }
      if min > max || target == col[center] {
        assert here == Some(center);
        break;
      }
    }
    if exact && target != col[center] {
      return None;
    }
    return Some(center);
  }

  // Unsigned decrement.
  function Below(c: u32): (r: u32)
    ensures c > 0 ==> r == c - 1
    ensures c == 0 ==> r == 0xFFFF_FFFF
  {
    if c == 0 then 0xFFFF_FFFF else c - 1
  }
}
