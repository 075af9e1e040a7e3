/** The display order of sortTodos: a stable sort of a copy of the list by
    a three-key comparator. */
module TodoOrder {
  import opened TodoModel

  /** `a` belongs strictly before `b`: incomplete before completed, then the
      higher priority, then the later creation time. */
  predicate Precedes(a: Todo, b: Todo) {
    (!a.completed && b.completed) ||
    (a.completed == b.completed && Rank(a.priority) > Rank(b.priority)) ||
    (a.completed == b.completed && a.priority == b.priority && a.createdAt > b.createdAt)
  }

  /** `a` and `b` agree on all three sort keys. */
  predicate Tie(a: Todo, b: Todo) {
    a.completed == b.completed && a.priority == b.priority && a.createdAt == b.createdAt
  }

  /** The comparator handed to `Array.prototype.sort`: negative when `a`
      goes first, positive when `b` does. */
  function Compare(a: Todo, b: Todo): (r: int)
    ensures r < 0 <==> Precedes(a, b)
    ensures r == 0 <==> Tie(a, b)
    ensures r > 0 <==> Precedes(b, a)
  {
    RankInjective(a.priority, b.priority);
    if a.completed != b.completed then (if a.completed then 1 else -1)
    else if Rank(a.priority) != Rank(b.priority) then Rank(b.priority) - Rank(a.priority)
    else b.createdAt - a.createdAt
  }

  /** The comparator is consistent, as `sort` requires: "not after" is
      transitive (and total and antisymmetric up to ties, by Compare's
      contract). */
  lemma CompareTransitive(a: Todo, b: Todo, c: Todo)
    requires Compare(a, b) <= 0 && Compare(b, c) <= 0
    ensures Compare(a, c) <= 0
  {
  }

  /** No pair of `r` is out of order for the comparator. */
  predicate Sorted(r: seq<Todo>) {
    forall i, j :: 0 <= i < j < |r| ==> Compare(r[i], r[j]) <= 0
  }

  /** The records of `s` that tie with `k`, in their order in `s`. */
  function TiesWith(s: seq<Todo>, k: Todo): (r: seq<Todo>)
    ensures forall t :: t in r ==> t in s && Tie(t, k)
  {
    if s == [] then []
    else (if Tie(s[0], k) then [s[0]] else []) + TiesWith(s[1..], k)
  }

  /** Inserts `x` before the first element it is not after. */
  function Insert(x: Todo, r: seq<Todo>): (q: seq<Todo>)
    ensures multiset(q) == multiset(r) + multiset{x}
  {
    if r == [] then [x]
    else if Compare(x, r[0]) <= 0 then [x] + r
    else
      assert r == [r[0]] + r[1..];
      [r[0]] + Insert(x, r[1..])
  }

  /** sortTodos: a sorted permutation of `s` in which tied records keep
      their order in `s`, built by insertion from the back so that an
      earlier record lands before later ties. */
  function SortTodos(s: seq<Todo>): (r: seq<Todo>)
    ensures multiset(r) == multiset(s)
  {
    if s == [] then []
    else
      assert s == [s[0]] + s[1..];
      Insert(s[0], SortTodos(s[1..]))
  }

  // ---------------------------------------------------------------------
  // The sort is correct

  /** A record not after any element of a sorted list can go in front of it. */
  lemma ConsSorted(y: Todo, r: seq<Todo>)
    requires Sorted(r) && forall m :: 0 <= m < |r| ==> Compare(y, r[m]) <= 0
    ensures Sorted([y] + r)
  {
    var q := [y] + r;
    forall i, j | 0 <= i < j < |q| ensures Compare(q[i], q[j]) <= 0 {
      if i == 0 {
        assert q[j] == r[j - 1];
      } else {
        assert q[i] == r[i - 1] && q[j] == r[j - 1];
      }
    }
  }

  /** A record not after the head of a sorted list can go in front of it. */
  lemma InsertFront(x: Todo, r: seq<Todo>)
    requires Sorted(r) && r != [] && Compare(x, r[0]) <= 0
    ensures Sorted([x] + r)
  {
    forall m | 0 <= m < |r| ensures Compare(x, r[m]) <= 0 {
      if m > 0 {
        CompareTransitive(x, r[0], r[m]);
      }
    }
    ConsSorted(x, r);
  }

  /** The head of a sorted list, strictly before `x`, is not after anything
      in the rest with `x` inserted. */
  lemma InsertBounded(x: Todo, y: Todo, rest: seq<Todo>)
    requires Sorted([y] + rest) && Compare(y, x) < 0
    ensures forall m :: 0 <= m < |Insert(x, rest)| ==> Compare(y, Insert(x, rest)[m]) <= 0
  {
    var tail := Insert(x, rest);
    forall m | 0 <= m < |tail| ensures Compare(y, tail[m]) <= 0 {
      var t := tail[m];
      assert t in multiset(tail);
      if t != x {
        assert t in multiset(rest);
        var n :| 0 <= n < |rest| && rest[n] == t;
        assert ([y] + rest)[0] == y && ([y] + rest)[n + 1] == t;
      }
    }
  }

  /** A head strictly before `x` stays in front when `x` is inserted into
      the rest. */
  lemma InsertBehind(x: Todo, y: Todo, rest: seq<Todo>)
    requires Sorted([y] + rest) && Compare(x, y) > 0 && Sorted(Insert(x, rest))
    ensures Sorted([y] + Insert(x, rest))
  {
    assert Compare(y, x) < 0;
    InsertBounded(x, y, rest);
    ConsSorted(y, Insert(x, rest));
  }

  lemma {:induction false} InsertSorted(x: Todo, r: seq<Todo>)
    requires Sorted(r)
    ensures Sorted(Insert(x, r))
  {
    if r == [] {
    } else if Compare(x, r[0]) <= 0 {
      InsertFront(x, r);
    } else {
      assert r == [r[0]] + r[1..];
      InsertSorted(x, r[1..]);
      InsertBehind(x, r[0], r[1..]);
    }
  }

  /** The output of SortTodos is sorted. */
  lemma {:induction false} SortTodosSorted(s: seq<Todo>)
    ensures Sorted(SortTodos(s))
  {
    if s != [] {
      SortTodosSorted(s[1..]);
      InsertSorted(s[0], SortTodos(s[1..]));
    }
  }

  lemma {:induction false} TiesWithAppend(a: seq<Todo>, b: seq<Todo>, k: Todo)
    ensures TiesWith(a + b, k) == TiesWith(a, k) + TiesWith(b, k)
  {
    if a == [] {
      assert a + b == b;
    } else {
      assert (a + b)[1..] == a[1..] + b;
      TiesWithAppend(a[1..], b, k);
    }
  }

  /** Inserting `x` puts it in front of every record it ties with. */
  lemma {:induction false} InsertTies(x: Todo, r: seq<Todo>, k: Todo)
    ensures TiesWith(Insert(x, r), k) == TiesWith([x], k) + TiesWith(r, k)
  {
    if r == [] {
    } else if Compare(x, r[0]) <= 0 {
      TiesWithAppend([x], r, k);
    } else {
      var y, rest := r[0], r[1..];
      assert r == [y] + rest;
      assert Insert(x, r) == [y] + Insert(x, rest);
      InsertTies(x, rest, k);
      TiesWithAppend([y], Insert(x, rest), k);
      TiesWithAppend([y], rest, k);
      // y is strictly before x, so they cannot both tie with k
      assert !(Tie(x, k) && Tie(y, k));
      assert TiesWith([x], k) == (if Tie(x, k) then [x] else []);
      assert TiesWith([y], k) == (if Tie(y, k) then [y] else []);
    }
  }

  /** Stability: the records tying with any `k` come out in their input
      order (JavaScript's `sort` is stable). */
  lemma {:induction false} SortTodosStable(s: seq<Todo>, k: Todo)
    ensures TiesWith(SortTodos(s), k) == TiesWith(s, k)
  {
    if s != [] {
      SortTodosStable(s[1..], k);
      InsertTies(s[0], SortTodos(s[1..]), k);
      TiesWithAppend([s[0]], s[1..], k);
      assert [s[0]] + s[1..] == s;
    }
  }

  /** The three ordering rules of the display, read off a sorted list. */
  lemma SortedByKeys(r: seq<Todo>)
    requires Sorted(r)
    ensures forall i, j :: 0 <= i < |r| && 0 <= j < |r| && !r[i].completed && r[j].completed ==> i < j
    ensures forall i, j :: 0 <= i < j < |r| && r[i].completed == r[j].completed ==>
      Rank(r[i].priority) >= Rank(r[j].priority)
    ensures forall i, j ::
      (0 <= i < j < |r| && r[i].completed == r[j].completed && r[i].priority == r[j].priority) ==>
      r[i].createdAt >= r[j].createdAt
  {
  }

  /** sortTodos, all told: a permutation of the list, ordered by the three
      keys, with tied records in list order. */
  lemma SortTodosCorrect(s: seq<Todo>)
    ensures multiset(SortTodos(s)) == multiset(s)
    ensures Sorted(SortTodos(s))
    ensures forall k :: TiesWith(SortTodos(s), k) == TiesWith(s, k)
  {
    SortTodosSorted(s);
    forall k ensures TiesWith(SortTodos(s), k) == TiesWith(s, k) {
      SortTodosStable(s, k);
    }
  }

  /** In a sorted list, the head is not after anything that ties with a
      record of the list. */
  lemma HeadNotAfterTies(r: seq<Todo>, a: Todo)
    requires Sorted(r) && TiesWith(r, a) != []
    ensures Compare(r[0], a) <= 0
  {
    var c := TiesWith(r, a)[0];
    assert c in TiesWith(r, a);
    var m :| 0 <= m < |r| && r[m] == c;
    assert m == 0 || Compare(r[0], c) <= 0;
  }

  lemma TiesWithNonEmpty(r: seq<Todo>)
    requires r != []
    ensures TiesWith(r, r[0]) != []
  {
  }

  /** A head that ties with `k` heads the records tying with `k`. */
  lemma TiesWithHead(r: seq<Todo>, k: Todo)
    requires r != [] && Tie(r[0], k)
    ensures TiesWith(r, k) == [r[0]] + TiesWith(r[1..], k)
  {
  }

  /** Two records each not after the other tie. */
  lemma CompareAntisymmetric(a: Todo, b: Todo)
    requires Compare(a, b) <= 0 && Compare(b, a) <= 0
    ensures Tie(a, b)
  {
  }

  /** Two sorted lists with the same tie classes start with the same record
      (only the classes of the two heads are needed). */
  lemma SameHead(r1: seq<Todo>, r2: seq<Todo>)
    requires Sorted(r1) && Sorted(r2) && r1 != [] && r2 != []
    requires TiesWith(r1, r1[0]) == TiesWith(r2, r1[0])
    requires TiesWith(r1, r2[0]) == TiesWith(r2, r2[0])
    ensures r1[0] == r2[0]
  {
    var a, b := r1[0], r2[0];
    TiesWithNonEmpty(r1);
    TiesWithNonEmpty(r2);
    HeadNotAfterTies(r2, a);
    HeadNotAfterTies(r1, b);
    CompareAntisymmetric(a, b);
    TiesWithHead(r1, a);
    TiesWithHead(r2, a);
    assert TiesWith(r1, a)[0] == a;
    assert TiesWith(r2, a)[0] == b;
  }

  lemma SortedTail(r: seq<Todo>)
    requires Sorted(r) && r != []
    ensures Sorted(r[1..])
  {
    forall i, j | 0 <= i < j < |r| - 1 ensures Compare(r[1..][i], r[1..][j]) <= 0 {
      assert r[1..][i] == r[i + 1] && r[1..][j] == r[j + 1];
    }
  }

  /** Lists with the same head and the same records tying with `k` still
      agree on them once the head is dropped. */
  lemma TiesWithTail(r1: seq<Todo>, r2: seq<Todo>, k: Todo)
    requires r1 != [] && r2 != [] && r1[0] == r2[0]
    requires TiesWith(r1, k) == TiesWith(r2, k)
    ensures TiesWith(r1[1..], k) == TiesWith(r2[1..], k)
  {
    var front := if Tie(r1[0], k) then [r1[0]] else [];
    assert TiesWith(r1[1..], k) == TiesWith(r1, k)[|front|..];
    assert TiesWith(r2[1..], k) == TiesWith(r2, k)[|front|..];
  }

  /** Two non-empty sorted lists with the same tie classes share their head,
      and their tails are again sorted with the same tie classes. */
  lemma SortedUniqueStep(r1: seq<Todo>, r2: seq<Todo>)
    requires Sorted(r1) && Sorted(r2) && r1 != [] && r2 != []
    requires forall k :: TiesWith(r1, k) == TiesWith(r2, k)
    ensures r1[0] == r2[0] && Sorted(r1[1..]) && Sorted(r2[1..])
    ensures forall k :: TiesWith(r1[1..], k) == TiesWith(r2[1..], k)
  {
    SameHead(r1, r2);
    forall k ensures TiesWith(r1[1..], k) == TiesWith(r2[1..], k) {
      TiesWithTail(r1, r2, k);
    }
    SortedTail(r1);
    SortedTail(r2);
  }

  /** A sorted list is determined by its tie classes: two sorted lists with
      the same records per tie class, in the same order, are equal. */
  lemma {:induction false} SortedUnique(r1: seq<Todo>, r2: seq<Todo>)
    requires Sorted(r1) && Sorted(r2)
    requires forall k :: TiesWith(r1, k) == TiesWith(r2, k)
    ensures r1 == r2
  {
    if r1 == [] || r2 == [] {
      if r1 != [] {
        TiesWithNonEmpty(r1);
      }
      if r2 != [] {
        TiesWithNonEmpty(r2);
      }
    } else {
      SortedUniqueStep(r1, r2);
      SortedUnique(r1[1..], r2[1..]);
      assert r1 == [r1[0]] + r1[1..] && r2 == [r2[0]] + r2[1..];
    }
  }

  /** Whatever stable algorithm the engine's `sort` runs, its output is the
      one SortTodos gives. */
  lemma StableSortIsSortTodos(s: seq<Todo>, r: seq<Todo>)
    requires Sorted(r) && forall k :: TiesWith(r, k) == TiesWith(s, k)
    ensures r == SortTodos(s)
  {
    SortTodosCorrect(s);
    SortedUnique(r, SortTodos(s));
  }

  /** A record put at the front of the list (as addTodo does) is displayed
      first among the records it ties with. */
  lemma FrontFirstAmongTies(x: Todo, s: seq<Todo>)
    ensures TiesWith(SortTodos([x] + s), x) == [x] + TiesWith(s, x)
  {
    SortTodosStable([x] + s, x);
    TiesWithAppend([x], s, x);
  }

  /** A worked example: A (incomplete, high, 2), B (incomplete, urgent, 1)
      and C (completed, urgent, 3) display as B, A, C; completion outranks
      priority, and priority outranks creation time. */
  lemma OrderingScenario(a: Todo, b: Todo, c: Todo)
    requires a == Todo("a", "A", false, High, 2, 2)
    requires b == Todo("b", "B", false, Urgent, 1, 1)
    requires c == Todo("c", "C", true, Urgent, 3, 3)
    ensures SortTodos([a, b, c]) == [b, a, c]
  {
    assert [a, b, c][1..] == [b, c];
    assert [b, c][1..] == [c];
    assert SortTodos([c]) == [c];
    assert Insert(b, [c]) == [b, c];
    assert Insert(a, [c]) == [a, c];
  }
}
