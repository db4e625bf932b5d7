/**
 * The list work of `movePlaylistItemsToIndex`: the selected playlist entries
 * are moved, one by one and in selection order, to the insertion point, and
 * the entries are then numbered 1, 2, 3, ... in their new order. Saving the
 * entries and refreshing the view are left out.
 */
module PlaylistReorder {

  import opened Results

  /** A playlist entry: the track it stands for and its stored 1-based position. */
  datatype PlaylistItem = PlaylistItem(id: int, sortIndex: int)

  /** `IndexOutOfBoundsException` from `List.get` or `List.add`. */
  datatype ReorderError = IndexOutOfBounds(index: int, size: int)

  // ---------------------------------------------------------------------
  // One move

  /**
   * `items.add(target, items.get(source))` followed by
   * `items.remove(source < target ? source : source + 1)`: the entry at
   * `source` ends up just before the entry that was at `target`.
   */
  function MoveStep<T>(items: seq<T>, source: nat, target: nat): (r: seq<T>)
    requires source < |items| && target <= |items|
    ensures |r| == |items|
    ensures r[if source < target then target - 1 else target] == items[source]
  {
    var inserted := items[..target] + [items[source]] + items[target..];
    var k := if source < target then source else source + 1;
    inserted[..k] + inserted[k + 1..]
  }

  /**
   * Where the entries go: a forward move shifts the entries between `source`
   * and `target` down by one, a backward move shifts them up by one, and a
   * move onto itself changes nothing.
   */
  lemma MoveStepSlices<T>(items: seq<T>, source: nat, target: nat)
    requires source < |items| && target <= |items|
    ensures var r := MoveStep(items, source, target);
      && (source < target ==> r == items[..source] + items[source + 1..target] + [items[source]] + items[target..])
      && (target < source ==> r == items[..target] + [items[source]] + items[target..source] + items[source + 1..])
      && (source == target ==> r == items)
  {
    var inserted := items[..target] + [items[source]] + items[target..];
    var k := if source < target then source else source + 1;
    assert source < target ==> inserted[..k] == items[..source] && inserted[k + 1..] == items[source + 1..target] + [items[source]] + items[target..];
    assert target <= source ==> inserted[..k] == items[..target] + [items[source]] + items[target..source] && inserted[k + 1..] == items[source + 1..];
    assert source == target ==> items == items[..target] + [items[source]] + items[target..source] + items[source + 1..] by {
      if source == target {
        assert items[target..source] == [];
        assert items == items[..source] + [items[source]] + items[source + 1..];
      }
    }
  }

  /** A move rearranges the entries without losing or duplicating any. */
  lemma MoveStepPermutes<T>(items: seq<T>, source: nat, target: nat)
    requires source < |items| && target <= |items|
    ensures multiset(MoveStep(items, source, target)) == multiset(items)
  {
    MoveStepSlices(items, source, target);
    if source < target {
      assert items == items[..source] + [items[source]] + items[source + 1..target] + items[target..];
      SwapPermutes(items[..source], [items[source]], items[source + 1..target], items[target..]);
    } else if target < source {
      assert items == items[..target] + items[target..source] + [items[source]] + items[source + 1..];
      SwapPermutes(items[..target], items[target..source], [items[source]], items[source + 1..]);
    }
  }

  lemma SwapPermutes<T>(a: seq<T>, b: seq<T>, c: seq<T>, d: seq<T>)
    ensures multiset(a + c + b + d) == multiset(a + b + c + d)
  {
    calc {
      multiset(a + c + b + d);
      multiset(a) + multiset(c) + multiset(b) + multiset(d);
      multiset(a) + multiset(b) + multiset(c) + multiset(d);
      multiset(a + b + c + d);
    }
  }

  /** The inner loop: each later selected index below the insertion point moves down by one. */
  function ShiftSelection(sel: seq<int>, i: nat, target: int): (r: seq<int>)
    requires i < |sel|
    ensures |r| == |sel| && r[..i + 1] == sel[..i + 1]
    ensures forall j :: i < j < |sel| ==> r[j] == if target > sel[j] then sel[j] - 1 else sel[j]
  {
    sel[..i + 1] + seq(|sel| - i - 1, k requires 0 <= k < |sel| - i - 1 =>
      if target > sel[i + 1 + k] then sel[i + 1 + k] - 1 else sel[i + 1 + k])
  }

  // ---------------------------------------------------------------------
  // The first loop, as written and corrected

  /**
   * The first loop of `movePlaylistItemsToIndex` as written, from selection
   * entry `i` on. An entry already at the insertion point is skipped without
   * advancing the insertion point.
   */
  function ReorderAsWritten<T>(items: seq<T>, sel: seq<int>, i: nat, target: int): (r: Result<seq<T>, ReorderError>)
    requires i <= |sel|
    ensures r.Ok? ==> multiset(r.value) == multiset(items)
    decreases |sel| - i
  {
    if i == |sel| then Ok(items)
    else
      var source := sel[i];
      if source == target then ReorderAsWritten(items, sel, i + 1, target)
      else if !(0 <= source < |items|) then Err(IndexOutOfBounds(source, |items|))
      else if !(0 <= target <= |items|) then Err(IndexOutOfBounds(target, |items|))
      else
        MoveStepPermutes(items, source, target);
        ReorderAsWritten(MoveStep(items, source, target), ShiftSelection(sel, i, target), i + 1,
          if source > target then target + 1 else target)
  }

  /**
   * The first loop with the insertion point advanced past an entry that is
   * already in place, which is what the loop evidently means to do.
   */
  function Reorder<T>(items: seq<T>, sel: seq<int>, i: nat, target: int): (r: Result<seq<T>, ReorderError>)
    requires i <= |sel|
    ensures r.Ok? ==> multiset(r.value) == multiset(items)
    decreases |sel| - i
  {
    if i == |sel| then Ok(items)
    else
      var source := sel[i];
      if source == target then Reorder(items, sel, i + 1, target + 1)
      else if !(0 <= source < |items|) then Err(IndexOutOfBounds(source, |items|))
      else if !(0 <= target <= |items|) then Err(IndexOutOfBounds(target, |items|))
      else
        MoveStepPermutes(items, source, target);
        Reorder(MoveStep(items, source, target), ShiftSelection(sel, i, target), i + 1,
          if source > target then target + 1 else target)
  }

  // ---------------------------------------------------------------------
  // What a block move should produce

  /** Selection rows as a table hands them over: ascending, no repeats. */
  predicate StrictlyIncreasing(sel: seq<int>) {
    forall a, b :: 0 <= a < b < |sel| ==> sel[a] < sel[b]
  }

  predicate SelectionInRange(sel: seq<int>, n: int) {
    forall k :: 0 <= k < |sel| ==> 0 <= sel[k] < n
  }

  /** The entries at positions `lo..hi-1` that are not selected, in list order. */
  function Unselected<T>(items: seq<T>, lo: nat, hi: nat, sel: seq<int>): seq<T>
    requires lo <= hi <= |items|
    decreases hi - lo
  {
    if lo == hi then []
    else Unselected(items, lo, hi - 1, sel) + (if hi - 1 in sel then [] else [items[hi - 1]])
  }

  /** The selected entries, in selection order. */
  function Picked<T>(items: seq<T>, sel: seq<int>): (r: seq<T>)
    requires SelectionInRange(sel, |items|)
    ensures |r| == |sel|
  {
    seq(|sel|, k requires 0 <= k < |sel| => items[sel[k]])
  }

  /**
   * Dropping the selected block at `index`: the unselected entries before
   * `index`, then the selected ones in selection order, then the unselected
   * entries from `index` on.
   */
  function BlockMove<T>(items: seq<T>, sel: seq<int>, index: nat): seq<T>
    requires SelectionInRange(sel, |items|) && index <= |items|
  {
    Unselected(items, 0, index, sel) + Picked(items, sel) + Unselected(items, index, |items|, sel)
  }

  lemma {:induction false} UnselectedSplit<T>(items: seq<T>, lo: nat, mid: nat, hi: nat, sel: seq<int>)
    requires lo <= mid <= hi <= |items|
    ensures Unselected(items, lo, hi, sel) == Unselected(items, lo, mid, sel) + Unselected(items, mid, hi, sel)
    decreases hi - mid
  {
    if mid < hi {
      UnselectedSplit(items, lo, mid, hi - 1, sel);
    }
  }

  /** Selecting one more index outside `lo..hi-1` changes nothing there. */
  lemma {:induction false} UnselectedIgnoresOutside<T>(items: seq<T>, lo: nat, hi: nat, sel: seq<int>, x: int)
    requires lo <= hi <= |items|
    requires x < lo || hi <= x
    ensures Unselected(items, lo, hi, sel + [x]) == Unselected(items, lo, hi, sel)
    decreases hi - lo
  {
    if lo < hi {
      UnselectedIgnoresOutside(items, lo, hi - 1, sel, x);
      assert (hi - 1 in sel + [x]) == (hi - 1 in sel);
    }
  }

  lemma {:induction false} UnselectedOfNone<T>(items: seq<T>, lo: nat, hi: nat)
    requires lo <= hi <= |items|
    ensures Unselected(items, lo, hi, []) == items[lo..hi]
    decreases hi - lo
  {
    if lo < hi {
      UnselectedOfNone(items, lo, hi - 1);
      assert items[lo..hi] == items[lo..hi - 1] + [items[hi - 1]];
    }
  }

  /** Around an unselected position `x`, the unselected entries are those before, `items[x]`, those after. */
  lemma UnselectedAround<T>(items: seq<T>, lo: nat, x: nat, hi: nat, sel: seq<int>)
    requires lo <= x < hi <= |items| && x !in sel
    ensures Unselected(items, lo, hi, sel) ==
      Unselected(items, lo, x, sel) + [items[x]] + Unselected(items, x + 1, hi, sel)
    ensures Unselected(items, lo, hi, sel + [x]) ==
      Unselected(items, lo, x, sel) + Unselected(items, x + 1, hi, sel)
  {
    UnselectedAroundUnselected(items, lo, x, hi, sel);
    UnselectedAroundSelected(items, lo, x, hi, sel);
  }

  lemma UnselectedAroundUnselected<T>(items: seq<T>, lo: nat, x: nat, hi: nat, sel: seq<int>)
    requires lo <= x < hi <= |items| && x !in sel
    ensures Unselected(items, lo, hi, sel) ==
      Unselected(items, lo, x, sel) + [items[x]] + Unselected(items, x + 1, hi, sel)
  {
    UnselectedSplit(items, lo, x, hi, sel);
    UnselectedSplit(items, x, x + 1, hi, sel);
    assert Unselected(items, x, x + 1, sel) == [items[x]];
  }

  lemma UnselectedAroundSelected<T>(items: seq<T>, lo: nat, x: nat, hi: nat, sel: seq<int>)
    requires lo <= x < hi <= |items|
    ensures Unselected(items, lo, hi, sel + [x]) ==
      Unselected(items, lo, x, sel) + Unselected(items, x + 1, hi, sel)
  {
    UnselectedSplit(items, lo, x, hi, sel + [x]);
    UnselectedSplit(items, x, x + 1, hi, sel + [x]);
    assert x in sel + [x];
    assert Unselected(items, x, x + 1, sel + [x]) == [];
    UnselectedIgnoresOutside(items, lo, x, sel, x);
    UnselectedIgnoresOutside(items, x + 1, hi, sel, x);
  }

  /** With an ascending selection lying inside `lo..hi-1`, the unselected entries number `hi - lo - |sel|`. */
  lemma {:induction false} UnselectedCount<T>(items: seq<T>, lo: nat, hi: nat, sel: seq<int>)
    requires lo <= hi <= |items|
    requires StrictlyIncreasing(sel)
    requires forall k :: 0 <= k < |sel| ==> lo <= sel[k] < hi
    ensures |Unselected(items, lo, hi, sel)| == hi - lo - |sel|
    decreases |sel|
  {
    if sel == [] {
      UnselectedOfNone(items, lo, hi);
    } else {
      var e, x := sel[..|sel| - 1], sel[|sel| - 1];
      assert sel == e + [x];
      assert x !in e;
      UnselectedCount(items, lo, hi, e);
      UnselectedAround(items, lo, x, hi, e);
    }
  }

  /**
   * The list part of where the corrected loop stands after the first `i`
   * selected rows: those rows already form the block at the drop point, and
   * the insertion point is just past them.
   */
  ghost predicate ListState<T>(items: seq<T>, sel: seq<int>, index: nat, i: nat, cur: seq<T>, target: int)
    requires SelectionInRange(sel, |items|) && index <= |items| && i <= |sel|
  {
    && cur == BlockMove(items, sel[..i], index)
    && target == |Unselected(items, 0, index, sel[..i])| + i
  }

  /** The selection part: rows not yet handled that lay before the drop point have moved down by `i`. */
  ghost predicate AdjState(sel: seq<int>, index: nat, i: nat, adj: seq<int>) {
    && |adj| == |sel|
    && forall j :: i <= j < |sel| ==> adj[j] == if sel[j] < index then sel[j] - i else sel[j]
  }

  lemma {:induction false} ReorderFromState<T>(items: seq<T>, sel: seq<int>, index: nat, i: nat,
                                               cur: seq<T>, adj: seq<int>, target: int)
    requires StrictlyIncreasing(sel) && SelectionInRange(sel, |items|) && index <= |items| && i <= |sel|
    requires ListState(items, sel, index, i, cur, target) && AdjState(sel, index, i, adj)
    ensures Reorder(cur, adj, i, target) == Ok(BlockMove(items, sel, index))
    decreases |sel| - i
  {
    if i == |sel| {
      assert sel[..i] == sel;
    } else {
      var next, adj', target';
      if sel[i] < index {
        next, adj', target' := StepBelow(items, sel, index, i, cur, adj, target);
      } else if sel[i] == target {
        next, adj', target' := StepInPlace(items, sel, index, i, cur, adj, target);
      } else {
        next, adj', target' := StepPast(items, sel, index, i, cur, adj, target);
      }
      ReorderFromState(items, sel, index, i + 1, next, adj', target');
    }
  }

  /** One round of the corrected loop for a selected row before the drop point. */
  lemma StepBelow<T>(items: seq<T>, sel: seq<int>, index: nat, i: nat, cur: seq<T>, adj: seq<int>, target: int)
    returns (next: seq<T>, adj': seq<int>, target': int)
    requires StrictlyIncreasing(sel) && SelectionInRange(sel, |items|) && index <= |items| && i < |sel|
    requires ListState(items, sel, index, i, cur, target) && AdjState(sel, index, i, adj)
    requires sel[i] < index
    ensures ListState(items, sel, index, i + 1, next, target') && AdjState(sel, index, i + 1, adj')
    ensures Reorder(cur, adj, i, target) == Reorder(next, adj', i + 1, target')
  {
    ListBelow(items, sel, index, i, cur, target);
    ShiftBelow(sel, index, i, adj);
    ReorderUnfoldMove(cur, adj, i, target);
    next, adj', target' := MoveStep(cur, adj[i], target), ShiftSelection(adj, i, target), target;
  }

  /** One round of the corrected loop for a selected row right at the insertion point. */
  lemma StepInPlace<T>(items: seq<T>, sel: seq<int>, index: nat, i: nat, cur: seq<T>, adj: seq<int>, target: int)
    returns (next: seq<T>, adj': seq<int>, target': int)
    requires StrictlyIncreasing(sel) && SelectionInRange(sel, |items|) && index <= |items| && i < |sel|
    requires ListState(items, sel, index, i, cur, target) && AdjState(sel, index, i, adj)
    requires index <= sel[i] == target
    ensures ListState(items, sel, index, i + 1, next, target') && AdjState(sel, index, i + 1, adj')
    ensures Reorder(cur, adj, i, target) == Reorder(next, adj', i + 1, target')
  {
    ListInPlace(items, sel, index, i, cur, target);
    ShiftPast(sel, index, i, adj, target);
    ReorderUnfoldSkip(cur, adj, i, target);
    next, adj', target' := cur, adj, target + 1;
  }

  /** One round of the corrected loop for a selected row after the insertion point. */
  lemma StepPast<T>(items: seq<T>, sel: seq<int>, index: nat, i: nat, cur: seq<T>, adj: seq<int>, target: int)
    returns (next: seq<T>, adj': seq<int>, target': int)
    requires StrictlyIncreasing(sel) && SelectionInRange(sel, |items|) && index <= |items| && i < |sel|
    requires ListState(items, sel, index, i, cur, target) && AdjState(sel, index, i, adj)
    requires index <= sel[i] && sel[i] != target
    ensures ListState(items, sel, index, i + 1, next, target') && AdjState(sel, index, i + 1, adj')
    ensures Reorder(cur, adj, i, target) == Reorder(next, adj', i + 1, target')
  {
    ListPast(items, sel, index, i, cur, target);
    ShiftPast(sel, index, i, adj, target);
    ReorderUnfoldMove(cur, adj, i, target);
    next, adj', target' := MoveStep(cur, adj[i], target), ShiftSelection(adj, i, target), target + 1;
  }

  /** What the first `i + 1` selected rows have in common with the first `i`. */
  lemma SelectionPrefix<T>(items: seq<T>, sel: seq<int>, i: nat)
    requires StrictlyIncreasing(sel) && SelectionInRange(sel, |items|) && i < |sel|
    ensures sel[..i + 1] == sel[..i] + [sel[i]]
    ensures sel[i] !in sel[..i] && StrictlyIncreasing(sel[..i])
    ensures forall k :: 0 <= k < i ==> 0 <= sel[..i][k] < sel[i]
    ensures SelectionInRange(sel[..i], |items|) && SelectionInRange(sel[..i + 1], |items|)
    ensures Picked(items, sel[..i + 1]) == Picked(items, sel[..i]) + [items[sel[i]]]
  {
  }

  /** Moving the entry after `p` to just before `b`. */
  lemma MoveForward<T>(p: seq<T>, y: T, m: seq<T>, b: seq<T>)
    ensures MoveStep(p + [y] + m + b, |p|, |p| + 1 + |m|) == p + m + [y] + b
  {
    var cur := p + [y] + m + b;
    MoveStepSlices(cur, |p|, |p| + 1 + |m|);
    assert cur[..|p|] == p && cur[|p|] == y;
    assert cur[|p| + 1..|p| + 1 + |m|] == m && cur[|p| + 1 + |m|..] == b;
  }

  /** Moving the entry after `c + r` back to just before `r`. */
  lemma MoveBackward<T>(c: seq<T>, r: seq<T>, y: T, s: seq<T>)
    requires |r| > 0
    ensures MoveStep(c + r + [y] + s, |c| + |r|, |c|) == c + [y] + r + s
  {
    var cur := c + r + [y] + s;
    MoveStepSlices(cur, |c| + |r|, |c|);
    assert cur[..|c|] == c && cur[|c| + |r|] == y;
    assert cur[|c|..|c| + |r|] == r && cur[|c| + |r| + 1..] == s;
  }

  /** The unselected entries around a selected row `sel[i]` before the drop point. */
  lemma BelowLayout<T>(items: seq<T>, sel: seq<int>, index: nat, i: nat)
    requires StrictlyIncreasing(sel) && SelectionInRange(sel, |items|) && index <= |items| && i < |sel|
    requires sel[i] < index
    ensures var x, e := sel[i], sel[..i];
      && Unselected(items, 0, index, e) == Unselected(items, 0, x, e) + [items[x]] + Unselected(items, x + 1, index, e)
      && Unselected(items, 0, index, sel[..i + 1]) == Unselected(items, 0, x, e) + Unselected(items, x + 1, index, e)
      && Unselected(items, index, |items|, sel[..i + 1]) == Unselected(items, index, |items|, e)
      && |Unselected(items, 0, x, e)| == x - i
      && |Unselected(items, 0, index, e)| == index - i
  {
    var x, e := sel[i], sel[..i];
    SelectionPrefix(items, sel, i);
    UnselectedCount(items, 0, x, e);
    UnselectedCount(items, 0, index, e);
    UnselectedAround(items, 0, x, index, e);
    UnselectedIgnoresOutside(items, index, |items|, e, x);
  }

  /** The unselected entries around a selected row `sel[i]` at or after the drop point. */
  lemma PastLayout<T>(items: seq<T>, sel: seq<int>, index: nat, i: nat)
    requires StrictlyIncreasing(sel) && SelectionInRange(sel, |items|) && index <= |items| && i < |sel|
    requires index <= sel[i]
    ensures var x, e, n := sel[i], sel[..i], |items|;
      && Unselected(items, index, n, e) == Unselected(items, index, x, e) + [items[x]] + Unselected(items, x + 1, n, e)
      && Unselected(items, index, n, sel[..i + 1]) == Unselected(items, index, x, e) + Unselected(items, x + 1, n, e)
      && Unselected(items, 0, index, sel[..i + 1]) == Unselected(items, 0, index, e)
      && |Unselected(items, 0, index, e)| + |Unselected(items, index, x, e)| == x - i
  {
    var x, e := sel[i], sel[..i];
    SelectionPrefix(items, sel, i);
    UnselectedCount(items, 0, x, e);
    UnselectedSplit(items, 0, index, x, e);
    UnselectedAround(items, index, x, |items|, e);
    UnselectedIgnoresOutside(items, 0, index, e, x);
  }

  /** One round of the corrected loop that moves an entry. */
  lemma ReorderUnfoldMove<T>(cur: seq<T>, adj: seq<int>, i: nat, target: int)
    requires i < |adj| && adj[i] != target && 0 <= adj[i] < |cur| && 0 <= target <= |cur|
    ensures Reorder(cur, adj, i, target) ==
      Reorder(MoveStep(cur, adj[i], target), ShiftSelection(adj, i, target), i + 1,
              if adj[i] > target then target + 1 else target)
  {
  }

  /** One round of the corrected loop whose row is already at the insertion point. */
  lemma ReorderUnfoldSkip<T>(cur: seq<T>, adj: seq<int>, i: nat, target: int)
    requires i < |adj| && adj[i] == target
    ensures Reorder(cur, adj, i, target) == Reorder(cur, adj, i + 1, target + 1)
  {
  }

  /** The adjusted selection after moving a row that sat before the drop point. */
  lemma ShiftBelow(sel: seq<int>, index: nat, i: nat, adj: seq<int>)
    requires i < |sel| && AdjState(sel, index, i, adj)
    ensures AdjState(sel, index, i + 1, ShiftSelection(adj, i, index))
  {
  }

  /** Rows after one at or past the drop point keep their adjusted index while the insertion point stays below them. */
  lemma ShiftPast(sel: seq<int>, index: nat, i: nat, adj: seq<int>, target: int)
    requires StrictlyIncreasing(sel) && i < |sel| && AdjState(sel, index, i, adj)
    requires index <= sel[i] && target <= sel[i]
    ensures AdjState(sel, index, i + 1, adj)
    ensures AdjState(sel, index, i + 1, ShiftSelection(adj, i, target))
  {
    forall j | i + 1 <= j < |sel|
      ensures adj[j] == sel[j] && sel[j] > target
    {
      assert sel[i] < sel[j];
    }
  }

  /** The loop's list, before-block-after, when the row to move lies in the "before" part. */
  lemma MoveForwardLayout<T>(cur: seq<T>, a: seq<T>, block: seq<T>, b: seq<T>, p: seq<T>, y: T, q: seq<T>)
    requires cur == a + block + b && a == p + [y] + q
    ensures |p| < |a| + |block| <= |cur|
    ensures MoveStep(cur, |p|, |a| + |block|) == (p + q) + (block + [y]) + b
  {
    assert cur == p + [y] + (q + block) + b;
    MoveForward(p, y, q + block, b);
  }

  /** The loop's list, before-block-after, when the row to move lies in the "after" part. */
  lemma MoveBackwardLayout<T>(cur: seq<T>, a: seq<T>, block: seq<T>, b: seq<T>, r: seq<T>, y: T, s: seq<T>)
    requires cur == a + block + b && b == r + [y] + s && |r| > 0
    ensures |a| + |block| < |a| + |block| + |r| < |cur|
    ensures MoveStep(cur, |a| + |block| + |r|, |a| + |block|) == a + (block + [y]) + (r + s)
  {
    assert cur == (a + block) + r + [y] + s;
    MoveBackward(a + block, r, y, s);
  }

  /** Moving a selected row that sits before the drop point, stated on the loop's list layout. */
  lemma BelowMove<T>(items: seq<T>, sel: seq<int>, index: nat, i: nat, cur: seq<T>, source: int, next: seq<T>)
    requires StrictlyIncreasing(sel) && SelectionInRange(sel, |items|) && index <= |items| && i < |sel|
    requires sel[i] < index && source == sel[i] - i
    requires cur == Unselected(items, 0, index, sel[..i]) + Picked(items, sel[..i]) + Unselected(items, index, |items|, sel[..i])
    requires SelectionInRange(sel[..i + 1], |items|)
    requires next == Unselected(items, 0, index, sel[..i + 1]) + Picked(items, sel[..i + 1]) + Unselected(items, index, |items|, sel[..i + 1])
    ensures |Unselected(items, 0, index, sel[..i])| == index - i
    ensures |Unselected(items, 0, index, sel[..i + 1])| == index - (i + 1)
    ensures 0 <= source < index <= |cur|
    ensures MoveStep(cur, source, index) == next
  {
    var x, e := sel[i], sel[..i];
    SelectionPrefix(items, sel, i);
    BelowLayout(items, sel, index, i);
    MoveForwardLayout(cur, Unselected(items, 0, index, e), Picked(items, e), Unselected(items, index, |items|, e),
                      Unselected(items, 0, x, e), items[x], Unselected(items, x + 1, index, e));
  }

  /** Where a selected row at or after the drop point sits relative to the insertion point. */
  lemma PastCounts<T>(items: seq<T>, sel: seq<int>, index: nat, i: nat)
    requires StrictlyIncreasing(sel) && SelectionInRange(sel, |items|) && index <= |items| && i < |sel|
    requires index <= sel[i]
    ensures SelectionInRange(sel[..i + 1], |items|)
    ensures |Unselected(items, 0, index, sel[..i + 1])| == |Unselected(items, 0, index, sel[..i])|
    ensures |Unselected(items, 0, index, sel[..i])| + i + |Unselected(items, index, sel[i], sel[..i])| == sel[i]
    ensures |Unselected(items, 0, index, sel[..i])| + i + |Unselected(items, index, |items|, sel[..i])| == |items|
  {
    SelectionPrefix(items, sel, i);
    PastLayout(items, sel, index, i);
    UnselectedCount(items, 0, |items|, sel[..i]);
    UnselectedSplit(items, 0, index, |items|, sel[..i]);
  }

  /** A selected row right at the insertion point: the list already has the next layout. */
  lemma PastKeep<T>(items: seq<T>, sel: seq<int>, index: nat, i: nat)
    requires StrictlyIncreasing(sel) && SelectionInRange(sel, |items|) && index <= |items| && i < |sel|
    requires index <= sel[i] && Unselected(items, index, sel[i], sel[..i]) == []
    requires SelectionInRange(sel[..i + 1], |items|)
    ensures Unselected(items, 0, index, sel[..i]) + Picked(items, sel[..i]) + Unselected(items, index, |items|, sel[..i]) ==
      Unselected(items, 0, index, sel[..i + 1]) + Picked(items, sel[..i + 1]) + Unselected(items, index, |items|, sel[..i + 1])
  {
    var x, e, e1, n := sel[i], sel[..i], sel[..i + 1], |items|;
    SelectionPrefix(items, sel, i);
    PastLayout(items, sel, index, i);
    KeepLayout(Unselected(items, 0, index, e), Picked(items, e), Unselected(items, index, n, e),
               Unselected(items, 0, index, e1), Picked(items, e1), Unselected(items, index, n, e1),
               Unselected(items, index, x, e), items[x], Unselected(items, x + 1, n, e));
  }

  /** Regrouping before-block-after when the row to add to the block already follows it. */
  lemma KeepLayout<T>(a: seq<T>, block: seq<T>, b: seq<T>, a1: seq<T>, block1: seq<T>, b1: seq<T>,
                      r: seq<T>, y: T, s: seq<T>)
    requires r == [] && b == r + [y] + s && a1 == a && block1 == block + [y] && b1 == r + s
    ensures a + block + b == a1 + block1 + b1
  {
    assert b == [y] + s && b1 == s;
  }

  /** Moving back the row after `r`, stated on the layouts before and after the step. */
  lemma ShiftLayout<T>(cur: seq<T>, a: seq<T>, block: seq<T>, b: seq<T>, a1: seq<T>, block1: seq<T>, b1: seq<T>,
                       r: seq<T>, y: T, s: seq<T>, source: nat, target: nat)
    requires cur == a + block + b && b == r + [y] + s && |r| > 0
    requires a1 == a && block1 == block + [y] && b1 == r + s
    requires source == |a| + |block| + |r| && target == |a| + |block|
    ensures target < source < |cur|
    ensures MoveStep(cur, source, target) == a1 + block1 + b1
  {
    MoveBackwardLayout(cur, a, block, b, r, y, s);
  }

  /** A selected row after the insertion point: moving it back gives the next layout. */
  lemma PastShift<T>(items: seq<T>, sel: seq<int>, index: nat, i: nat, cur: seq<T>, target: nat, next: seq<T>)
    requires StrictlyIncreasing(sel) && SelectionInRange(sel, |items|) && index <= |items| && i < |sel|
    requires index <= sel[i] && Unselected(items, index, sel[i], sel[..i]) != []
    requires cur == Unselected(items, 0, index, sel[..i]) + Picked(items, sel[..i]) + Unselected(items, index, |items|, sel[..i])
    requires SelectionInRange(sel[..i + 1], |items|)
    requires target == |Unselected(items, 0, index, sel[..i])| + i
    requires sel[i] == target + |Unselected(items, index, sel[i], sel[..i])|
    requires target + |Unselected(items, index, |items|, sel[..i])| == |items|
    requires next == Unselected(items, 0, index, sel[..i + 1]) + Picked(items, sel[..i + 1]) + Unselected(items, index, |items|, sel[..i + 1])
    ensures sel[i] < |cur| && MoveStep(cur, sel[i], target) == next
  {
    var x, e, e1, n := sel[i], sel[..i], sel[..i + 1], |items|;
    SelectionPrefix(items, sel, i);
    PastLayout(items, sel, index, i);
    assert |Picked(items, e)| == i;
    ShiftLayout(cur, Unselected(items, 0, index, e), Picked(items, e), Unselected(items, index, n, e),
                Unselected(items, 0, index, e1), Picked(items, e1), Unselected(items, index, n, e1),
                Unselected(items, index, x, e), items[x], Unselected(items, x + 1, n, e), x, target);
  }

  /** A selected row before the drop point is taken out and appended to the block. */
  lemma ListBelow<T>(items: seq<T>, sel: seq<int>, index: nat, i: nat, cur: seq<T>, target: int)
    requires StrictlyIncreasing(sel) && SelectionInRange(sel, |items|) && index <= |items| && i < |sel|
    requires ListState(items, sel, index, i, cur, target)
    requires sel[i] < index
    ensures target == index && 0 <= sel[i] - i < target <= |cur|
    ensures ListState(items, sel, index, i + 1, MoveStep(cur, sel[i] - i, target), target)
  {
    SelectionPrefix(items, sel, i);
    BelowMove(items, sel, index, i, cur, sel[i] - i, BlockMove(items, sel[..i + 1], index));
  }

  /** A selected row already at the insertion point stays, and the insertion point moves past it. */
  lemma ListInPlace<T>(items: seq<T>, sel: seq<int>, index: nat, i: nat, cur: seq<T>, target: int)
    requires StrictlyIncreasing(sel) && SelectionInRange(sel, |items|) && index <= |items| && i < |sel|
    requires ListState(items, sel, index, i, cur, target)
    requires index <= sel[i] == target
    ensures ListState(items, sel, index, i + 1, cur, target + 1)
  {
    PastCounts(items, sel, index, i);
    PastKeep(items, sel, index, i);
  }

  /** A selected row after the insertion point is moved back to it. */
  lemma ListPast<T>(items: seq<T>, sel: seq<int>, index: nat, i: nat, cur: seq<T>, target: int)
    requires StrictlyIncreasing(sel) && SelectionInRange(sel, |items|) && index <= |items| && i < |sel|
    requires ListState(items, sel, index, i, cur, target)
    requires index <= sel[i] && sel[i] != target
    ensures 0 <= target < sel[i] < |cur|
    ensures ListState(items, sel, index, i + 1, MoveStep(cur, sel[i], target), target + 1)
  {
    PastCounts(items, sel, index, i);
    PastShift(items, sel, index, i, cur, target, BlockMove(items, sel[..i + 1], index));
  }

  /**
   * For an ascending selection of valid rows and a valid drop index, the
   * corrected loop moves the selected block to the drop index: the other
   * entries keep their order and the selected ones appear together, in
   * selection order.
   */
  lemma ReorderMovesBlock<T>(items: seq<T>, sel: seq<int>, index: nat)
    requires StrictlyIncreasing(sel) && SelectionInRange(sel, |items|) && index <= |items|
    ensures Reorder(items, sel, 0, index) == Ok(BlockMove(items, sel, index))
  {
    assert sel[..0] == [];
    UnselectedOfNone(items, 0, index);
    UnselectedOfNone(items, index, |items|);
    assert items == items[0..index] + items[index..|items|];
    assert items == BlockMove(items, sel[..0], index);
    ReorderFromState(items, sel, index, 0, items, sel, index);
  }

  /**
   * The loop as written: selecting rows 3 and 4 of five and dropping them at
   * row 3, where they already are, swaps them instead of leaving the list
   * alone; the corrected loop leaves it alone.
   */
  lemma AsWrittenSwapsBlockAtDropPoint()
    ensures ReorderAsWritten([10, 11, 12, 13, 14], [3, 4], 0, 3) == Ok([10, 11, 12, 14, 13])
    ensures Reorder([10, 11, 12, 13, 14], [3, 4], 0, 3) == Ok([10, 11, 12, 13, 14])
  {
    var items := [10, 11, 12, 13, 14];
    var moved := MoveStep(items, 4, 3);
    assert moved == [10, 11, 12, 14, 13];
    assert ReorderAsWritten(items, [3, 4], 0, 3) == ReorderAsWritten(items, [3, 4], 1, 3);
    assert ReorderAsWritten(items, [3, 4], 1, 3) == ReorderAsWritten(moved, ShiftSelection([3, 4], 1, 3), 2, 4);
    assert Reorder(items, [3, 4], 0, 3) == Reorder(items, [3, 4], 1, 4);
    assert Reorder(items, [3, 4], 1, 4) == Reorder(items, [3, 4], 2, 5);
  }

  // ---------------------------------------------------------------------
  // Renumbering and the whole operation

  /** The second loop: entry `i` gets sort index `i + 1`. */
  method Renumber(items: seq<PlaylistItem>) returns (r: seq<PlaylistItem>)
    ensures |r| == |items|
    ensures forall i :: 0 <= i < |r| ==> r[i].id == items[i].id && r[i].sortIndex == i + 1
  {
    r := [];
    var i := 0;
    while i < |items|
      invariant 0 <= i <= |items| && |r| == i
      invariant forall k :: 0 <= k < i ==> r[k].id == items[k].id && r[k].sortIndex == k + 1
    {
      r := r + [items[i].(sortIndex := i + 1)];
      i := i + 1;
    }
  }

  function Ids(items: seq<PlaylistItem>): (r: seq<int>)
    ensures |r| == |items| && forall i :: 0 <= i < |items| ==> r[i] == items[i].id
  {
    seq(|items|, i requires 0 <= i < |items| => items[i].id)
  }

  lemma IdsOfConcat(a: seq<PlaylistItem>, b: seq<PlaylistItem>)
    ensures Ids(a + b) == Ids(a) + Ids(b)
  {
  }

  /** Rearranging entries rearranges their ids the same way. */
  lemma {:induction false} IdsPermute(a: seq<PlaylistItem>, b: seq<PlaylistItem>)
    requires multiset(a) == multiset(b)
    ensures multiset(Ids(a)) == multiset(Ids(b))
    decreases |a|
  {
    if a != [] {
      var x := a[0];
      assert x in multiset(b);
      var k :| 0 <= k < |b| && b[k] == x;
      var b' := b[..k] + b[k + 1..];
      assert b == b[..k] + [x] + b[k + 1..];
      assert a == [x] + a[1..];
      assert multiset(b') == multiset(b[..k]) + multiset(b[k + 1..]);
      assert multiset(a) == multiset([x]) + multiset(a[1..]);
      assert multiset(b) == multiset(b[..k]) + multiset([x]) + multiset(b[k + 1..]);
      assert multiset(a[1..]) == multiset(a) - multiset([x]);
      assert multiset(b') == multiset(b) - multiset([x]);
      IdsPermute(a[1..], b');
      IdsOfConcat([x], a[1..]);
      IdsOfConcat(b[..k], b[k + 1..]);
      IdsOfConcat(b[..k] + [x], b[k + 1..]);
      IdsOfConcat(b[..k], [x]);
    }
  }

  /**
   * `movePlaylistItemsToIndex` without persistence and view refresh. On
   * success the entries are a rearrangement of the old ones, numbered from 1
   * in their new order; for an ascending selection of valid rows and a valid
   * drop index the selected block lands at the drop index.
   */
  method MovePlaylistItemsToIndex(items: seq<PlaylistItem>, selected: seq<int>, index: int)
    returns (r: Result<seq<PlaylistItem>, ReorderError>)
    ensures r.Ok? ==> |r.value| == |items| && multiset(Ids(r.value)) == multiset(Ids(items))
    ensures r.Ok? ==> forall i :: 0 <= i < |r.value| ==> r.value[i].sortIndex == i + 1
    ensures StrictlyIncreasing(selected) && SelectionInRange(selected, |items|) && 0 <= index <= |items| ==>
      r.Ok? && Ids(r.value) == Ids(BlockMove(items, selected, index as nat))
  {
    var moved := Reorder(items, selected, 0, index);
    if StrictlyIncreasing(selected) && SelectionInRange(selected, |items|) && 0 <= index <= |items| {
      ReorderMovesBlock(items, selected, index as nat);
    }
    match moved
    case Err(e) =>
      r := Err(e);
    case Ok(list) =>
      IdsPermute(list, items);
      assert |list| == |items| by {
        assert |multiset(list)| == |multiset(items)|;
      }
      var renumbered := Renumber(list);
      assert Ids(renumbered) == Ids(list);
      r := Ok(renumbered);
  }
}
