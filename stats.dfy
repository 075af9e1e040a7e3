/** The three counters updateStats shows: total, completed and pending. */
module TodoStats {
  import opened JsText
  import opened TodoModel
  import opened TodoStore
  import opened TodoOrder

  /** `todos.filter(t => t.completed)`. */
  function CompletedOnes(s: seq<Todo>): (r: seq<Todo>)
    ensures |r| <= |s|
    ensures forall t :: t in r <==> t in s && t.completed
  {
    if s == [] then []
    else (if s[0].completed then [s[0]] else []) + CompletedOnes(s[1..])
  }

  /** The number of records not yet completed, counted one by one. */
  function CountPending(s: seq<Todo>): nat {
    if s == [] then 0
    else (if s[0].completed then 0 else 1) + CountPending(s[1..])
  }

  datatype Counts = Counts(total: nat, completed: nat, pending: nat)

  /** updateStats: the pending count, computed as total minus completed,
      is the number of incomplete records. */
  function Stats(s: seq<Todo>): (c: Counts)
    ensures c.total == |s| && c.completed == |CompletedOnes(s)|
    ensures c.pending == CountPending(s)
  {
    PendingComplement(s);
    Counts(|s|, |CompletedOnes(s)|, |s| - |CompletedOnes(s)|)
  }

  /** Every record is either completed or pending. */
  lemma {:induction false} PendingComplement(s: seq<Todo>)
    ensures |s| - |CompletedOnes(s)| == CountPending(s)
  {
    if s != [] {
      PendingComplement(s[1..]);
    }
  }

  lemma {:induction false} CompletedOnesCons(x: Todo, s: seq<Todo>)
    ensures |CompletedOnes([x] + s)| == (if x.completed then 1 else 0) + |CompletedOnes(s)|
  {
    assert ([x] + s)[1..] == s;
  }

  /** Two lists with the same `completed` flag at every position have the
      same counts. */
  lemma {:induction false} SameFlagsSameCount(s: seq<Todo>, t: seq<Todo>)
    requires |s| == |t| && forall j :: 0 <= j < |s| ==> s[j].completed == t[j].completed
    ensures |CompletedOnes(s)| == |CompletedOnes(t)|
  {
    if s != [] {
      SameFlagsSameCount(s[1..], t[1..]);
    }
  }

  /** Replacing one record moves the completed count by the difference of
      the two flags. */
  lemma {:induction false} CompletedOnesUpdate(s: seq<Todo>, i: nat, x: Todo)
    requires i < |s|
    ensures |CompletedOnes(s[i := x])| + (if s[i].completed then 1 else 0) ==
            |CompletedOnes(s)| + (if x.completed then 1 else 0)
  {
    assert s == [s[0]] + s[1..];
    CompletedOnesCons(s[0], s[1..]);
    if i == 0 {
      assert s[i := x] == [x] + s[1..];
      CompletedOnesCons(x, s[1..]);
    } else {
      assert s[i := x] == [s[0]] + s[1..][i - 1 := x];
      CompletedOnesCons(s[0], s[1..][i - 1 := x]);
      CompletedOnesUpdate(s[1..], i - 1, x);
    }
  }

  /** Adding a task adds one to the total and one to the pending count. */
  lemma StatsAfterAdded(s: seq<Todo>, input: string, priority: Priority, id: string,
                        created: int, updated: int)
    requires !AllTrimmable(input)
    ensures var c, c' := Stats(s), Stats(Added(s, input, priority, id, created, updated));
      c'.total == c.total + 1 && c'.completed == c.completed && c'.pending == c.pending + 1
  {
    var r := Added(s, input, priority, id, created, updated);
    assert r == [r[0]] + s;
    CompletedOnesCons(r[0], s);
  }

  /** Toggling a present task moves it from pending to completed or back;
      the total is unchanged. */
  lemma StatsAfterToggled(s: seq<Todo>, id: string, now: int)
    requires FirstIndex(s, id).Some?
    ensures var c, c' := Stats(s), Stats(Toggled(s, id, now));
      var i := FirstIndex(s, id).value;
      c'.total == c.total &&
      (s[i].completed ==> c'.completed == c.completed - 1 && c'.pending == c.pending + 1) &&
      (!s[i].completed ==> c'.completed == c.completed + 1 && c'.pending == c.pending - 1)
  {
    var i := FirstIndex(s, id).value;
    CompletedOnesUpdate(s, i, Flip(s[i], now));
  }

  /** Editing a text leaves the counts as they were. */
  lemma StatsAfterEdited(s: seq<Todo>, id: string, input: string, now: int)
    ensures Stats(Edited(s, id, input, now)) == Stats(s)
  {
    SameFlagsSameCount(s, Edited(s, id, input, now));
  }

  /** With unique ids, deleting a present id removes exactly the one record
      found, and it leaves the completed records less that one's flag. */
  lemma {:induction false} DeletedCounts(s: seq<Todo>, id: string)
    requires UniqueIds(s) && FirstIndex(s, id).Some?
    ensures var i := FirstIndex(s, id).value;
      |Deleted(s, id)| == |s| - 1 &&
      |CompletedOnes(Deleted(s, id))| + (if s[i].completed then 1 else 0) == |CompletedOnes(s)|
  {
    assert s == [s[0]] + s[1..];
    UniqueCons(s[0], s[1..]);
    CompletedOnesCons(s[0], s[1..]);
    if s[0].id == id {
      DeletedAbsent(s[1..], id);
      assert Deleted(s, id) == s[1..];
    } else {
      DeletedCounts(s[1..], id);
      CompletedOnesCons(s[0], Deleted(s[1..], id));
    }
  }

  /** Deleting a present task lowers the total by one, and the completed or
      the pending count by one according to its flag. */
  lemma StatsAfterDeleted(s: seq<Todo>, id: string)
    requires UniqueIds(s) && FirstIndex(s, id).Some?
    ensures var c, c' := Stats(s), Stats(Deleted(s, id));
      var i := FirstIndex(s, id).value;
      c'.total == c.total - 1 &&
      (s[i].completed ==> c'.completed == c.completed - 1 && c'.pending == c.pending) &&
      (!s[i].completed ==> c'.completed == c.completed && c'.pending == c.pending - 1)
  {
    DeletedCounts(s, id);
  }

  lemma {:induction false} InsertCount(x: Todo, r: seq<Todo>)
    ensures |CompletedOnes(Insert(x, r))| == (if x.completed then 1 else 0) + |CompletedOnes(r)|
  {
    if r == [] {
      CompletedOnesCons(x, r);
    } else if Compare(x, r[0]) <= 0 {
      CompletedOnesCons(x, r);
    } else {
      InsertCount(x, r[1..]);
      CompletedOnesCons(r[0], Insert(x, r[1..]));
      CompletedOnesCons(r[0], r[1..]);
      assert [r[0]] + r[1..] == r;
    }
  }

  lemma {:induction false} SortedCompletedCount(s: seq<Todo>)
    ensures |SortTodos(s)| == |s| && |CompletedOnes(SortTodos(s))| == |CompletedOnes(s)|
  {
    if s != [] {
      SortedCompletedCount(s[1..]);
      InsertCount(s[0], SortTodos(s[1..]));
      CompletedOnesCons(s[0], s[1..]);
      assert [s[0]] + s[1..] == s;
      assert |multiset(SortTodos(s))| == |multiset(s)|;
    }
  }

  /** The displayed order has the same counts as the list. */
  lemma StatsOfSorted(s: seq<Todo>)
    ensures Stats(SortTodos(s)) == Stats(s)
  {
    SortedCompletedCount(s);
  }
}
