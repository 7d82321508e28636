/**
 The derived-state layer of a to-do list: the filtered view of the list and
 its completion statistics, both computed from the list of items and the
 current filter selection.
 */
module TodoList {

  /** One to-do record. */
  datatype TodoItem = TodoItem(id: int, text: string, isComplete: bool)

  /** The filter selection: show everything, only completed items, or only
      uncompleted items. */
  datatype TodoListFilter = All | Completed | Uncompleted

  /** The statistics record derived from the list. */
  datatype TodoListStats = TodoListStats(
    totalNum: int,
    totalCompletedNum: int,
    totalUncompletedNum: int,
    percentCompleted: real)

  /** Default value of the item-list state: no items. */
  const InitialList: seq<TodoItem> := []

  /** Default value of the filter state: show everything. */
  const InitialFilter: TodoListFilter := All

  // ---------------------------------------------------------------------
  // Reference definitions

  /** Whether an item belongs in the view selected by `f`. */
  predicate Matches(f: TodoListFilter, item: TodoItem) {
    match f
    case All => true
    case Completed => item.isComplete
    case Uncompleted => !item.isComplete
  }

  /** The entries of `idx` strictly increase. */
  ghost predicate Increasing(idx: seq<int>) {
    forall j, k :: 0 <= j < k < |idx| ==> idx[j] < idx[k]
  }

  /** `idx` lists, in strictly increasing order, positions of `list`, and `r`
      holds the items found at those positions. */
  ghost predicate Embeds(idx: seq<int>, r: seq<TodoItem>, list: seq<TodoItem>) {
    && |idx| == |r|
    && (forall k :: 0 <= k < |idx| ==> 0 <= idx[k] < |list| && r[k] == list[idx[k]])
    && Increasing(idx)
  }

  /** `r` is obtained from `list` by deleting some items, keeping the order of
      the rest. */
  ghost predicate IsSubsequence(r: seq<TodoItem>, list: seq<TodoItem>) {
    exists idx :: Embeds(idx, r, list)
  }

  /** `idx` embeds `r` into `list`, and the positions it lists are exactly
      those whose item matches `f`. */
  ghost predicate SelectsExactly(idx: seq<int>, r: seq<TodoItem>, list: seq<TodoItem>, f: TodoListFilter) {
    && Embeds(idx, r, list)
    && (forall i :: 0 <= i < |list| ==> (i in idx <==> Matches(f, list[i])))
  }

  /** `r` consists of exactly the items of `list` that match `f`, in their
      original relative order. */
  ghost predicate KeepsExactlyInOrder(r: seq<TodoItem>, list: seq<TodoItem>, f: TodoListFilter) {
    exists idx :: SelectsExactly(idx, r, list, f)
  }

  /** The positions of `list` whose item is (un)completed, as a set. */
  ghost function PositionsWhere(list: seq<TodoItem>, complete: bool): set<int> {
    set i | 0 <= i < |list| && list[i].isComplete == complete
  }

  // ---------------------------------------------------------------------
  // The derived state

  /** `list.filter(item => item.isComplete == complete)`: the items whose
      completion flag equals `complete`, in order. */
  function FilterByCompletion(list: seq<TodoItem>, complete: bool): (r: seq<TodoItem>)
    ensures |r| <= |list|
    ensures forall k :: 0 <= k < |r| ==> r[k].isComplete == complete
    ensures multiset(r) <= multiset(list)
    ensures forall x :: x in r ==> x in list
  {
    if list == [] then []
    else
      assert list == [list[0]] + list[1..];
      if list[0].isComplete == complete then [list[0]] + FilterByCompletion(list[1..], complete)
      else FilterByCompletion(list[1..], complete)
  }

  /** The filtered view of `list` under filter selection `f`. */
  function Filtered(list: seq<TodoItem>, f: TodoListFilter): (r: seq<TodoItem>)
    ensures f == All ==> r == list
    ensures |r| <= |list|
    ensures forall k :: 0 <= k < |r| ==> Matches(f, r[k])
    ensures forall x :: x in r ==> x in list
  {
    match f
    case Completed => FilterByCompletion(list, true)
    case Uncompleted => FilterByCompletion(list, false)
    case All => list
  }

  /** The statistics of `list`: counts of all, completed and uncompleted
      items, and the completed fraction (zero for an empty list). */
  function Stats(list: seq<TodoItem>): (s: TodoListStats)
    ensures s.totalNum == |list|
    ensures s.totalCompletedNum == |Filtered(list, Completed)|
    ensures s.totalUncompletedNum == |Filtered(list, Uncompleted)|
    ensures s.totalCompletedNum + s.totalUncompletedNum == s.totalNum
    ensures 0 <= s.totalCompletedNum <= s.totalNum
    ensures 0 <= s.totalUncompletedNum <= s.totalNum
    ensures s.totalNum == 0 ==> s.percentCompleted == 0.0
    ensures s.totalNum != 0 ==> s.percentCompleted == (s.totalCompletedNum as real) / (s.totalNum as real)
    ensures 0.0 <= s.percentCompleted <= 1.0
  {
    var totalNum := |list|;
    var totalCompletedNum := |FilterByCompletion(list, true)|;
    var totalUncompletedNum := totalNum - totalCompletedNum;
    PartitionLength(list);
    var percentCompleted := Percent(totalCompletedNum, totalNum);
    TodoListStats(totalNum, totalCompletedNum, totalUncompletedNum, percentCompleted)
  }

  /** The completed fraction of `total` items of which `completed` are
      complete; zero instead of a division by zero when there are none. */
  function Percent(completed: int, total: int): (p: real)
    requires 0 <= completed <= total
    ensures total == 0 ==> p == 0.0
    ensures total != 0 ==> p * (total as real) == completed as real
    ensures 0.0 <= p <= 1.0
    ensures p == 1.0 <==> (total != 0 && completed == total)
  {
    if total == 0 then 0.0
    else
      var q := (completed as real) / (total as real);
      assert q * (total as real) == completed as real;
      assert q == 1.0 ==> completed == total;
      assert completed == total ==> q == 1.0;
      q
  }

  // ---------------------------------------------------------------------
  // Properties of the filtered view

  /** The completed and uncompleted views split the list: their lengths add
      up to the list's length. */
  lemma {:induction false} PartitionLength(list: seq<TodoItem>)
    ensures |FilterByCompletion(list, true)| + |FilterByCompletion(list, false)| == |list|
  {
    if list != [] {
      PartitionLength(list[1..]);
    }
  }

  /** The completed and uncompleted views together hold every item of the
      list exactly as often as the list does, and share no item. */
  lemma {:induction false} Partition(list: seq<TodoItem>)
    ensures multiset(Filtered(list, Completed)) + multiset(Filtered(list, Uncompleted)) == multiset(list)
    ensures |Filtered(list, Completed)| + |Filtered(list, Uncompleted)| == |list|
    ensures forall x :: x in Filtered(list, Completed) ==> x !in Filtered(list, Uncompleted)
  {
    if list != [] {
      Partition(list[1..]);
      assert list == [list[0]] + list[1..];
    }
    PartitionLength(list);
  }

  /** Every entry of `idx` plus one. */
  function Shift(idx: seq<int>): (r: seq<int>)
    ensures |r| == |idx|
    ensures forall k :: 0 <= k < |idx| ==> r[k] == idx[k] + 1
  {
    seq(|idx|, k requires 0 <= k < |idx| => idx[k] + 1)
  }

  /** Shifting an embedding of `r` into `tail` embeds `r` into `[x] + tail`. */
  lemma ShiftEmbeds(x: TodoItem, tail: seq<TodoItem>, idx: seq<int>, r: seq<TodoItem>)
    requires Embeds(idx, r, tail)
    ensures Embeds(Shift(idx), r, [x] + tail)
    ensures forall k :: 0 <= k < |idx| ==> 1 <= Shift(idx)[k]
  {
    var list := [x] + tail;
    forall k | 0 <= k < |idx| ensures r[k] == list[Shift(idx)[k]] {
      assert list[idx[k] + 1] == tail[idx[k]];
    }
  }

  /** A position `i + 1` is in the shifted sequence exactly when `i` is in
      the original one, and 0 never is. */
  lemma ShiftMembership(idx: seq<int>, i: int)
    requires forall k :: 0 <= k < |idx| ==> 0 <= idx[k]
    ensures i + 1 in Shift(idx) <==> i in idx
    ensures 0 !in Shift(idx)
  {
    if i in idx {
      var k :| 0 <= k < |idx| && idx[k] == i;
      assert Shift(idx)[k] == i + 1;
    }
  }

  /** An embedding that avoids position 0 extends, by position 0, to one of
      `[list[0]] + r`. */
  lemma PrependEmbeds(list: seq<TodoItem>, idx: seq<int>, r: seq<TodoItem>)
    requires list != []
    requires Embeds(idx, r, list)
    requires forall k :: 0 <= k < |idx| ==> 1 <= idx[k]
    ensures Embeds([0] + idx, [list[0]] + r, list)
  {
    var idx0, r0 := [0] + idx, [list[0]] + r;
    forall k | 1 <= k < |idx0| ensures idx0[k] == idx[k - 1] && r0[k] == r[k - 1] {
    }
    forall j, k | 0 <= j < k < |idx0| ensures idx0[j] < idx0[k] {
      if j > 0 {
        assert idx[j - 1] < idx[k - 1];
      }
    }
  }

  /** A selection of `r` from `tail`, shifted by one position, selects from
      `[x] + tail`; position 0 joins it when `x` matches. */
  lemma ConsSelects(x: TodoItem, tail: seq<TodoItem>, idx': seq<int>, r': seq<TodoItem>, f: TodoListFilter)
    returns (idx: seq<int>)
    requires SelectsExactly(idx', r', tail, f)
    ensures SelectsExactly(idx, if Matches(f, x) then [x] + r' else r', [x] + tail, f)
  {
    var list := [x] + tail;
    var shifted := Shift(idx');
    var r := if Matches(f, x) then [x] + r' else r';
    ShiftEmbeds(x, tail, idx', r');
    idx := if Matches(f, x) then [0] + shifted else shifted;
    if Matches(f, x) {
      PrependEmbeds(list, shifted, r');
    }
    forall i | 0 <= i < |list| ensures i in idx <==> Matches(f, list[i]) {
      if i == 0 {
        ShiftMembership(idx', 0);
      } else {
        ShiftMembership(idx', i - 1);
        assert list[i] == tail[i - 1];
      }
    }
  }

  /** Builds the positions at which `FilterByCompletion` keeps its items. */
  lemma {:induction false} FilterByCompletionSelects(list: seq<TodoItem>, complete: bool) returns (idx: seq<int>)
    ensures SelectsExactly(idx, FilterByCompletion(list, complete),
                           list, if complete then Completed else Uncompleted)
  {
    var f := if complete then Completed else Uncompleted;
    if list == [] {
      idx := [];
    } else {
      var idx' := FilterByCompletionSelects(list[1..], complete);
      assert list == [list[0]] + list[1..];
      idx := ConsSelects(list[0], list[1..], idx', FilterByCompletion(list[1..], complete), f);
    }
  }

  /** Every filter keeps exactly the items that match it, in their original
      relative order; for `All` that is the whole list. */
  lemma KeepsExactlyMatching(list: seq<TodoItem>, f: TodoListFilter)
    ensures KeepsExactlyInOrder(Filtered(list, f), list, f)
  {
    match f
    case Completed =>
      var idx := FilterByCompletionSelects(list, true);
    case Uncompleted =>
      var idx := FilterByCompletionSelects(list, false);
    case All =>
      var idx := seq(|list|, i requires 0 <= i < |list| => i);
      forall i | 0 <= i < |list| ensures i in idx {
        assert idx[i] == i;
      }
      assert SelectsExactly(idx, list, list, All);
  }

  /** Two strictly increasing sequences with the same elements are equal. */
  lemma {:induction false} IncreasingUnique(a: seq<int>, b: seq<int>)
    requires Increasing(a) && Increasing(b)
    requires forall x :: x in a <==> x in b
    ensures a == b
  {
    assert a != [] ==> a[0] in a && a[0] in b;
    assert b != [] ==> b[0] in b && b[0] in a;
    if a != [] {
      assert a[0] == b[0] by {
        var j :| 0 <= j < |b| && b[j] == a[0];
        var k :| 0 <= k < |a| && a[k] == b[0];
        assert b[0] <= b[j] && a[0] <= a[k];
      }
      forall x ensures x in a[1..] <==> x in b[1..] {
        if x in a[1..] {
          var k :| 1 <= k < |a| && a[k] == x;
          assert a[0] < a[k] && x in a;
          var j :| 0 <= j < |b| && b[j] == x;
          assert b[j] == b[1..][j - 1];
        }
        if x in b[1..] {
          var j :| 1 <= j < |b| && b[j] == x;
          assert b[0] < b[j] && x in b;
          var k :| 0 <= k < |a| && a[k] == x;
          assert a[k] == a[1..][k - 1];
        }
      }
      IncreasingUnique(a[1..], b[1..]);
      assert a == [a[0]] + a[1..] && b == [b[0]] + b[1..];
    }
  }

  /** At most one sequence keeps exactly the items matching `f` in order. */
  lemma SelectsExactlyUnique(list: seq<TodoItem>, f: TodoListFilter,
                             idx1: seq<int>, r1: seq<TodoItem>, idx2: seq<int>, r2: seq<TodoItem>)
    requires SelectsExactly(idx1, r1, list, f) && SelectsExactly(idx2, r2, list, f)
    ensures r1 == r2
  {
    forall x ensures x in idx1 <==> x in idx2 {
      if x in idx1 {
        var k :| 0 <= k < |idx1| && idx1[k] == x;
      }
      if x in idx2 {
        var k :| 0 <= k < |idx2| && idx2[k] == x;
      }
    }
    IncreasingUnique(idx1, idx2);
  }

  /** The filtered view is the one and only sequence that holds exactly the
      items matching the filter, in their original relative order. */
  lemma FilteredCharacterized(list: seq<TodoItem>, f: TodoListFilter, r: seq<TodoItem>)
    ensures KeepsExactlyInOrder(r, list, f) <==> r == Filtered(list, f)
  {
    KeepsExactlyMatching(list, f);
    if KeepsExactlyInOrder(r, list, f) {
      var idx1 :| SelectsExactly(idx1, r, list, f);
      var idx2 :| SelectsExactly(idx2, Filtered(list, f), list, f);
      SelectsExactlyUnique(list, f, idx1, r, idx2, Filtered(list, f));
    }
  }

  /** Every filtered view is a subsequence of the list. */
  lemma FilteredIsSubsequence(list: seq<TodoItem>, f: TodoListFilter)
    ensures IsSubsequence(Filtered(list, f), list)
  {
    KeepsExactlyMatching(list, f);
    var idx :| SelectsExactly(idx, Filtered(list, f), list, f);
    assert Embeds(idx, Filtered(list, f), list);
  }

  /** Strictly increasing positions of `list` are no more than its length. */
  lemma {:induction false} EmbedsBound(idx: seq<int>, r: seq<TodoItem>, list: seq<TodoItem>)
    requires Embeds(idx, r, list)
    ensures |r| <= |list|
    ensures forall k :: 0 <= k < |idx| ==> k <= idx[k]
  {
    if idx != [] {
      var n := |idx| - 1;
      assert Embeds(idx[..n], r[..n], list);
      EmbedsBound(idx[..n], r[..n], list);
      assert n <= idx[n] by {
        if n > 0 {
          assert idx[n - 1] < idx[n];
        }
      }
    }
  }

  /** Any subsequence of the list is no longer than it and holds only its
      items. */
  lemma SubsequenceBounds(r: seq<TodoItem>, list: seq<TodoItem>)
    requires IsSubsequence(r, list)
    ensures |r| <= |list|
    ensures forall x :: x in r ==> x in list
  {
    var idx :| Embeds(idx, r, list);
    EmbedsBound(idx, r, list);
  }

  /** A filtered view, once more filtered with the same selection, stays as
      it is. */
  lemma {:induction false} FilteredIdempotent(list: seq<TodoItem>, f: TodoListFilter)
    ensures Filtered(Filtered(list, f), f) == Filtered(list, f)
  {
    match f
    case All =>
    case Completed => FilterByCompletionIdempotent(list, true);
    case Uncompleted => FilterByCompletionIdempotent(list, false);
  }

  lemma {:induction false} FilterByCompletionIdempotent(list: seq<TodoItem>, complete: bool)
    ensures FilterByCompletion(FilterByCompletion(list, complete), complete) == FilterByCompletion(list, complete)
  {
    if list != [] {
      FilterByCompletionIdempotent(list[1..], complete);
      var rest := FilterByCompletion(list[1..], complete);
      if list[0].isComplete == complete {
        assert ([list[0]] + rest)[1..] == rest;
      }
    }
  }

  // ---------------------------------------------------------------------
  // Properties of the statistics

  /** Strictly increasing sequences have as many distinct elements as
      entries. */
  lemma {:induction false} IncreasingCard(idx: seq<int>)
    requires Increasing(idx)
    ensures |set x | x in idx| == |idx|
  {
    if idx != [] {
      var rest := idx[1..];
      IncreasingCard(rest);
      assert (set x | x in idx) == {idx[0]} + (set x | x in rest);
      assert idx[0] !in (set x | x in rest);
    }
  }

  /** The completed count is the number of positions holding a completed
      item, and the uncompleted count the number holding an uncompleted one. */
  lemma StatsCountPositions(list: seq<TodoItem>)
    ensures Stats(list).totalCompletedNum == |PositionsWhere(list, true)|
    ensures Stats(list).totalUncompletedNum == |PositionsWhere(list, false)|
  {
    var c := FilterByCompletionSelects(list, true);
    assert (set x | x in c) == PositionsWhere(list, true);
    IncreasingCard(c);
    var u := FilterByCompletionSelects(list, false);
    assert (set x | x in u) == PositionsWhere(list, false);
    IncreasingCard(u);
  }

  /** The completed fraction is 1 exactly when the list is nonempty and
      every item in it is complete. */
  lemma StatsPercentAllComplete(list: seq<TodoItem>)
    ensures Stats(list).percentCompleted == 1.0 <==>
              (list != [] && forall k :: 0 <= k < |list| ==> list[k].isComplete)
  {
    StatsCountPositions(list);
    var s := Stats(list);
    if list != [] && forall k :: 0 <= k < |list| ==> list[k].isComplete {
      assert PositionsWhere(list, false) == {};
    }
    if s.percentCompleted == 1.0 {
      assert PositionsWhere(list, false) == {};
      forall k | 0 <= k < |list| ensures list[k].isComplete {
        assert k !in PositionsWhere(list, false);
      }
    }
  }

  // ---------------------------------------------------------------------
  // Initial state and a worked example

  /** With the default state the view is empty and all statistics are zero. */
  lemma InitialState()
    ensures Filtered(InitialList, InitialFilter) == []
    ensures Stats(InitialList) == TodoListStats(0, 0, 0, 0.0)
  {
  }

  /** Three items, two of them complete, under the Completed filter. */
  lemma ThreeItemExample()
    ensures var list := [TodoItem(1, "a", false), TodoItem(2, "b", true), TodoItem(3, "c", true)];
            && Filtered(list, Completed) == [TodoItem(2, "b", true), TodoItem(3, "c", true)]
            && Stats(list) == TodoListStats(3, 2, 1, 2.0 / 3.0)
  {
  }
}
