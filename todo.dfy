/** The task record of the renderer and the lookup that toggleTodo and
    editTodo start with (`this.todos.find(t => t.id === id)`), which the
    model's SaveEdit repeats. */
module TodoModel {
  import opened JsText

  datatype Option<T> = None | Some(value: T)

  /** The four levels a task's priority select offers. */
  datatype Priority = Low | Medium | High | Urgent

  /** A task. Ids are opaque strings; the two timestamps are `Date` values,
      kept here as their millisecond counts (`getTime()`). */
  datatype Todo = Todo(
    id: string,
    text: string,
    completed: bool,
    priority: Priority,
    createdAt: int,
    updatedAt: int)

  /** The `priorityOrder` table of sortTodos: urgent 4, high 3, medium 2, low 1. */
  function Rank(p: Priority): (r: int)
    ensures 1 <= r <= 4
    ensures r == 4 <==> p == Urgent
    ensures r == 1 <==> p == Low
  {
    match p
    case Low => 1
    case Medium => 2
    case High => 3
    case Urgent => 4
  }

  /** Distinct priorities have distinct ranks, so comparing ranks is
      comparing priorities. */
  lemma RankInjective(p: Priority, q: Priority)
    ensures Rank(p) == Rank(q) <==> p == q
  {
  }

  /** The index of the record `Array.prototype.find` returns: the first one
      whose id is `id`, or None when there is none. */
  function FirstIndex(s: seq<Todo>, id: string): (r: Option<nat>)
    ensures r.Some? ==> r.value < |s| && s[r.value].id == id &&
                        forall j :: 0 <= j < r.value ==> s[j].id != id
    ensures r.None? <==> forall j :: 0 <= j < |s| ==> s[j].id != id
  {
    if s == [] then None
    else if s[0].id == id then Some(0)
    else match FirstIndex(s[1..], id)
      case None => None
      case Some(i) => Some(i + 1)
  }

  /** The linear search `find` performs. */
  method FindIndex(s: seq<Todo>, id: string) returns (r: Option<nat>)
    ensures r.Some? ==> r.value < |s| && s[r.value].id == id &&
                        forall j :: 0 <= j < r.value ==> s[j].id != id
    ensures r.None? ==> forall j :: 0 <= j < |s| ==> s[j].id != id
    ensures r == FirstIndex(s, id)
  {
    var i := 0;
    while i < |s|
      invariant 0 <= i <= |s|
      invariant forall j :: 0 <= j < i ==> s[j].id != id
    {
      if s[i].id == id {
        return Some(i);
      }
      i := i + 1;
    }
    return None;
  }

  /** No record of `s` carries `id` (what a fresh id from generateId is
      meant to satisfy). */
  predicate Fresh(s: seq<Todo>, id: string) {
    forall t :: t in s ==> t.id != id
  }

  predicate UniqueIds(s: seq<Todo>) {
    forall i, j :: 0 <= i < j < |s| ==> s[i].id != s[j].id
  }

  /** The texts addTodo and saveEdit store: non-blank and already trimmed. */
  predicate ValidText(text: string) {
    text != [] && IsTrimmed(text)
  }

  /** The task-list invariant: ids are unique, every text is a non-blank
      trimmed string and no record was updated before it was created. */
  predicate WellFormed(s: seq<Todo>) {
    UniqueIds(s) &&
    forall t :: t in s ==> ValidText(t.text) && t.createdAt <= t.updatedAt
  }

  /** The clock reads no earlier than any record's creation time. */
  predicate NotBefore(s: seq<Todo>, now: int) {
    forall t :: t in s ==> t.createdAt <= now
  }

  lemma {:induction false} UniqueCons(x: Todo, r: seq<Todo>)
    ensures UniqueIds([x] + r) <==> Fresh(r, x.id) && UniqueIds(r)
  {
    var s := [x] + r;
    if Fresh(r, x.id) && UniqueIds(r) {
      forall i, j | 0 <= i < j < |s| ensures s[i].id != s[j].id {
        assert s[j] == r[j - 1];
        if i > 0 {
          assert s[i] == r[i - 1];
        }
      }
    }
    if UniqueIds(s) {
      forall t | t in r ensures t.id != x.id {
        var j :| 0 <= j < |r| && r[j] == t;
        assert s[0] == x && s[j + 1] == t;
        assert s[0].id != s[j + 1].id;
      }
      forall i, j | 0 <= i < j < |r| ensures r[i].id != r[j].id {
        assert r[i] == s[i + 1] && r[j] == s[j + 1];
      }
    }
  }
}
