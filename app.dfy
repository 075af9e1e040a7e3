/** TodoApp's task state: the list it mutates in place, the id of the task
    being edited inline and the id the context menu was opened on. The four
    list mutations (AddTodo, ToggleTodo, SaveEdit, DeleteTodo) are proved to
    leave exactly the list the TodoStore functions describe, so every lemma
    about those functions is a lemma about these methods; the session and
    menu methods are described by their own contracts. */
module TodoApplication {
  import opened JsText
  import opened TodoModel
  import opened TodoStore
  import opened TodoOrder
  import opened TodoStats

  class TodoApp {
    var todos: seq<Todo>
    var editingTodoId: Option<string>
    var contextMenuVisible: bool
    var selectedTodoId: Option<string>

    /** Construction runs loadTodos: `saved` is the parsed stored list, or
        None when nothing is stored or it cannot be read back; then the
        list starts empty. */
    constructor (saved: Option<seq<Todo>>)
      ensures todos == (match saved case Some(s) => s case None => [])
      ensures editingTodoId == None && selectedTodoId == None && !contextMenuVisible
    {
      todos := match saved case Some(s) => s case None => [];
      editingTodoId := None;
      contextMenuVisible := false;
      selectedTodoId := None;
    }

    /** addTodo with the input box's value, the priority select's value,
        the id generateId returned and the two clock reads. */
    method AddTodo(input: string, priority: Priority, id: string, created: int, updated: int)
      modifies this`todos
      ensures todos == Added(old(todos), input, priority, id, created, updated)
      ensures old(WellFormed(todos)) && Fresh(old(todos), id) && created <= updated ==>
        WellFormed(todos)
    {
      if WellFormed(todos) && Fresh(todos, id) && created <= updated {
        AddedWellFormed(todos, input, priority, id, created, updated);
      }
      var text := Trim(input);
      if text == [] {
        return;
      }
      var todo := Todo(id, text, false, priority, created, updated);
      todos := [todo] + todos;
    }

    /** toggleTodo: flips the first record with the id, if there is one. */
    method ToggleTodo(id: string, now: int)
      modifies this`todos
      ensures todos == Toggled(old(todos), id, now)
      ensures old(WellFormed(todos)) && NotBefore(old(todos), now) ==> WellFormed(todos)
    {
      if WellFormed(todos) && NotBefore(todos, now) {
        ToggledWellFormed(todos, id, now);
      }
      var found := FindIndex(todos, id);
      if found.Some? {
        var i := found.value;
        todos := todos[i := todos[i].(completed := !todos[i].completed, updatedAt := now)];
      }
    }

    /** editTodo: opens the inline edit session for a present id; an
        unknown id is ignored. */
    method EditTodo(id: string)
      modifies this`editingTodoId
      ensures FirstIndex(todos, id).Some? ==> editingTodoId == Some(id)
      ensures FirstIndex(todos, id).None? ==> editingTodoId == old(editingTodoId)
    {
      var found := FindIndex(todos, id);
      if found.None? {
        return;
      }
      editingTodoId := Some(id);
    }

    /** The saveEdit closure of the session opened on `id`, with the edit
        box's value: commits a changed non-blank text and always ends the
        session. */
    method SaveEdit(id: string, input: string, now: int)
      modifies this`todos, this`editingTodoId
      ensures todos == Edited(old(todos), id, input, now)
      ensures editingTodoId == None
      ensures old(WellFormed(todos)) && NotBefore(old(todos), now) ==> WellFormed(todos)
    {
      if WellFormed(todos) && NotBefore(todos, now) {
        EditedWellFormed(todos, id, input, now);
      }
      var found := FindIndex(todos, id);
      if found.Some? {
        var i := found.value;
        var newText := Trim(input);
        if newText != [] && newText != todos[i].text {
          todos := todos[i := todos[i].(text := newText, updatedAt := now)];
        }
      }
      editingTodoId := None;
    }

    /** The cancelEdit closure of an edit session (Escape in the edit box). */
    method CancelEditSession()
      modifies this`editingTodoId
      ensures editingTodoId == None
    {
      editingTodoId := None;
    }

    /** The cancelEdit method (Escape anywhere): clears the session id when
        it is truthy. An empty-string id is falsy in JavaScript and stays. */
    method CancelEdit()
      modifies this`editingTodoId
      ensures editingTodoId == if old(editingTodoId) == Some("") then Some("") else None
    {
      if editingTodoId.Some? && editingTodoId.value != "" {
        editingTodoId := None;
      }
    }

    /** deleteTodo: keeps the records whose id differs, in order. */
    method DeleteTodo(id: string)
      modifies this`todos
      ensures todos == Deleted(old(todos), id)
      ensures Fresh(todos, id)
      ensures old(WellFormed(todos)) ==> WellFormed(todos)
    {
      var s := todos;
      var kept: seq<Todo> := [];
      var i := 0;
      while i < |s|
        invariant 0 <= i <= |s|
        invariant kept == Deleted(s[..i], id)
      {
        DeletedPrefix(s, i, id);
        if s[i].id != id {
          kept := kept + [s[i]];
        }
        i := i + 1;
      }
      assert s[..i] == s;
      if WellFormed(s) {
        DeletedWellFormed(s, id);
      }
      todos := kept;
    }

    /** showContextMenu on the record with id `todoId`. */
    method ShowContextMenu(todoId: string)
      modifies this`selectedTodoId, this`contextMenuVisible
      ensures selectedTodoId == Some(todoId) && contextMenuVisible
    {
      selectedTodoId := Some(todoId);
      contextMenuVisible := true;
    }

    /** hideContextMenu. */
    method HideContextMenu()
      modifies this`selectedTodoId, this`contextMenuVisible
      ensures selectedTodoId == None && !contextMenuVisible
    {
      contextMenuVisible := false;
      selectedTodoId := None;
    }

    /** sortTodos: the display order, computed from a copy; the list
        itself is only read. */
    function SortedTodos(): (r: seq<Todo>)
      reads this
      ensures multiset(r) == multiset(todos)
      ensures Sorted(r)
      ensures forall k :: TiesWith(r, k) == TiesWith(todos, k)
    {
      SortTodosCorrect(todos);
      SortTodos(todos)
    }

    /** updateStats' three counters. */
    function CurrentStats(): (c: Counts)
      reads this
      ensures c.total == |todos|
      ensures c.pending == CountPending(todos)
      ensures c.completed + c.pending == c.total
    {
      PendingComplement(todos);
      Stats(todos)
    }
  }
}
