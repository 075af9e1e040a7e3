/** The four mutations of the task list as functions from the old list to
    the new one. The clock (`new Date()`) and the id generator are
    parameters: the times read (`created` and `updated`, or `now`) and `id`. TodoApplication.TodoApp's methods are proved
    to produce exactly these lists. */
module TodoStore {
  import opened JsText
  import opened TodoModel

  /** addTodo: a blank input (empty after trimming) changes nothing; any
      other input puts a new incomplete record in front of the old list.
      addTodo reads the clock twice, once for `createdAt` (`created`) and
      once for `updatedAt` (`updated`). */
  function Added(s: seq<Todo>, input: string, priority: Priority, id: string,
                 created: int, updated: int): (r: seq<Todo>)
    ensures AllTrimmable(input) ==> r == s
    ensures !AllTrimmable(input) ==>
      |r| == |s| + 1 && r[1..] == s &&
      r[0] == Todo(id, Trim(input), false, priority, created, updated) &&
      ValidText(r[0].text)
  {
    TrimEmptyIff(input);
    var text := Trim(input);
    if text == [] then s else [Todo(id, text, false, priority, created, updated)] + s
  }

  /** What toggleTodo does to the record it finds. */
  function Flip(t: Todo, now: int): Todo {
    t.(completed := !t.completed, updatedAt := now)
  }

  /** toggleTodo: flips `completed` and stamps `updatedAt` on the first
      record with the id; every other record stays as it was. */
  function Toggled(s: seq<Todo>, id: string, now: int): (r: seq<Todo>)
    ensures |r| == |s|
    ensures FirstIndex(s, id).None? ==> r == s
    ensures FirstIndex(s, id).Some? ==>
      var i := FirstIndex(s, id).value;
      r[i].completed == !s[i].completed && r[i].updatedAt == now &&
      r[i].id == s[i].id && r[i].text == s[i].text &&
      r[i].priority == s[i].priority && r[i].createdAt == s[i].createdAt &&
      forall j :: 0 <= j < |s| && j != i ==> r[j] == s[j]
  {
    match FirstIndex(s, id)
    case None => s
    case Some(i) => s[i := Flip(s[i], now)]
  }

  /** saveEdit: the first record with the id gets the trimmed input as its
      text and `now` as `updatedAt`, unless the trimmed input is blank or
      equal to the current text, in which case nothing changes. */
  function Edited(s: seq<Todo>, id: string, input: string, now: int): (r: seq<Todo>)
    ensures |r| == |s|
    ensures forall j :: 0 <= j < |s| ==>
      r[j].id == s[j].id && r[j].completed == s[j].completed &&
      r[j].priority == s[j].priority && r[j].createdAt == s[j].createdAt
    ensures FirstIndex(s, id).None? ==> r == s
    ensures FirstIndex(s, id).Some? ==>
      var i := FirstIndex(s, id).value;
      (forall j :: 0 <= j < |s| && j != i ==> r[j] == s[j]) &&
      (AllTrimmable(input) || Trim(input) == s[i].text ==> r[i] == s[i]) &&
      (!AllTrimmable(input) && Trim(input) != s[i].text ==>
         r[i].text == Trim(input) && r[i].updatedAt == now)
  {
    TrimEmptyIff(input);
    match FirstIndex(s, id)
    case None => s
    case Some(i) =>
      var text := Trim(input);
      if text != [] && text != s[i].text then s[i := s[i].(text := text, updatedAt := now)]
      else s
  }

  /** deleteTodo: `todos.filter(t => t.id !== id)`. */
  function Deleted(s: seq<Todo>, id: string): (r: seq<Todo>)
    ensures |r| <= |s|
    ensures forall t :: t in r <==> t in s && t.id != id
  {
    if s == [] then []
    else (if s[0].id == id then [] else [s[0]]) + Deleted(s[1..], id)
  }

  // ---------------------------------------------------------------------
  // Properties of the mutations

  /** Adding with a fresh id, and clock reads in order, keeps the list well
      formed. */
  lemma AddedWellFormed(s: seq<Todo>, input: string, priority: Priority, id: string,
                        created: int, updated: int)
    requires WellFormed(s) && Fresh(s, id) && created <= updated
    ensures WellFormed(Added(s, input, priority, id, created, updated))
  {
    var r := Added(s, input, priority, id, created, updated);
    if !AllTrimmable(input) {
      assert r == [r[0]] + s;
      UniqueCons(r[0], s);
    }
  }

  /** Two records at the same positions with the same ids give the same
      `find` result. */
  lemma {:induction false} FirstIndexSameIds(s: seq<Todo>, t: seq<Todo>, id: string)
    requires |s| == |t| && forall j :: 0 <= j < |s| ==> s[j].id == t[j].id
    ensures FirstIndex(t, id) == FirstIndex(s, id)
  {
    if s != [] && s[0].id != id {
      FirstIndexSameIds(s[1..], t[1..], id);
    }
  }

  /** Toggling the same id twice restores every `completed` flag: the only
      trace left is the second `updatedAt`. */
  lemma ToggledTwice(s: seq<Todo>, id: string, now1: int, now2: int)
    ensures Toggled(Toggled(s, id, now1), id, now2) ==
      match FirstIndex(s, id)
      case None => s
      case Some(i) => s[i := s[i].(updatedAt := now2)]
  {
    FirstIndexSameIds(s, Toggled(s, id, now1), id);
  }

  /** Toggling keeps the list well formed when the clock has not gone back
      before a creation time. */
  lemma ToggledWellFormed(s: seq<Todo>, id: string, now: int)
    requires WellFormed(s) && NotBefore(s, now)
    ensures WellFormed(Toggled(s, id, now))
  {
    var r := Toggled(s, id, now);
    forall t | t in r ensures ValidText(t.text) && t.createdAt <= t.updatedAt {
      var j :| 0 <= j < |r| && r[j] == t;
      assert s[j] in s;
    }
  }

  /** saveEdit runs on Enter and again on the blur that follows; the second
      run with the same input changes nothing. */
  lemma EditedTwice(s: seq<Todo>, id: string, input: string, now1: int, now2: int)
    ensures Edited(Edited(s, id, input, now1), id, input, now2) == Edited(s, id, input, now1)
  {
    FirstIndexSameIds(s, Edited(s, id, input, now1), id);
  }

  /** Editing keeps the list well formed when the clock has not gone back
      before a creation time. */
  lemma EditedWellFormed(s: seq<Todo>, id: string, input: string, now: int)
    requires WellFormed(s) && NotBefore(s, now)
    ensures WellFormed(Edited(s, id, input, now))
  {
    var r := Edited(s, id, input, now);
    forall t | t in r ensures ValidText(t.text) && t.createdAt <= t.updatedAt {
      var j :| 0 <= j < |r| && r[j] == t;
      assert s[j] in s;
      if r[j] != s[j] {
        TrimEmptyIff(input);
      }
    }
  }

  /** Filtering a list that has no record with the id returns it unchanged. */
  lemma {:induction false} DeletedAbsent(s: seq<Todo>, id: string)
    requires Fresh(s, id)
    ensures Deleted(s, id) == s
  {
    if s != [] {
      assert s[0] in s;
      DeletedAbsent(s[1..], id);
    }
  }

  /** Filtering distributes over concatenation: the kept records stay in
      their relative order. */
  lemma {:induction false} DeletedAppend(a: seq<Todo>, b: seq<Todo>, id: string)
    ensures Deleted(a + b, id) == Deleted(a, id) + Deleted(b, id)
  {
    if a == [] {
      assert a + b == b;
    } else {
      assert (a + b)[1..] == a[1..] + b;
      DeletedAppend(a[1..], b, id);
    }
  }

  /** Filtering one more record: it is kept exactly when its id differs. */
  lemma DeletedSnoc(p: seq<Todo>, t: Todo, id: string)
    ensures Deleted(p + [t], id) == Deleted(p, id) + (if t.id == id then [] else [t])
  {
    DeletedAppend(p, [t], id);
    assert [t][1..] == [];
  }

  /** The filter over one more record of `s`. */
  lemma DeletedPrefix(s: seq<Todo>, i: nat, id: string)
    requires i < |s|
    ensures Deleted(s[..i + 1], id) == Deleted(s[..i], id) + (if s[i].id == id then [] else [s[i]])
  {
    assert s[..i + 1] == s[..i] + [s[i]];
    DeletedSnoc(s[..i], s[i], id);
  }

  /** Deleting twice is the same as deleting once. */
  lemma DeletedIdempotent(s: seq<Todo>, id: string)
    ensures Deleted(Deleted(s, id), id) == Deleted(s, id)
  {
    DeletedAbsent(Deleted(s, id), id);
  }

  /** Deleting keeps the list well formed. */
  lemma {:induction false} DeletedWellFormed(s: seq<Todo>, id: string)
    requires WellFormed(s)
    ensures WellFormed(Deleted(s, id))
  {
    if s != [] {
      assert s == [s[0]] + s[1..];
      UniqueCons(s[0], s[1..]);
      DeletedWellFormed(s[1..], id);
      if s[0].id != id {
        UniqueCons(s[0], Deleted(s[1..], id));
      }
    }
  }

  /** With unique ids, deleting a present id removes exactly one record. */
  lemma {:induction false} DeletedOne(s: seq<Todo>, id: string)
    requires UniqueIds(s) && FirstIndex(s, id).Some?
    ensures |Deleted(s, id)| == |s| - 1
  {
    assert s == [s[0]] + s[1..];
    UniqueCons(s[0], s[1..]);
    if s[0].id == id {
      DeletedAbsent(s[1..], id);
    } else {
      DeletedOne(s[1..], id);
    }
  }
}
