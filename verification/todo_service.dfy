/** `TodoService` of week8/angular-todo-app/src/app/services/todo.ts. The
    array kept in `localStorage` under `todo_app_todos` is the field
    `storage`, which the mutators rewrite. The signed-in user's id, the clock
    and the id generator are parameters. */
module TodoStore {
  import opened Wrappers
  import opened Text
  import opened Todos

  class TodoService {
    /** The stored todos of every user. */
    var storage: seq<Todo>

    /** A service over what `localStorage` already holds. */
    constructor (stored: seq<Todo>)
      ensures storage == stored
    {
      storage := stored;
    }

    /** `getTodos`: nothing without a user; otherwise the user's todos,
        sorted by `CompareTodos` (by insertion, one todo at a time). */
    method GetTodos(user: Option<string>) returns (r: seq<Todo>)
      ensures user.None? ==> r == []
      ensures user.Some? ==> SortedTodos(r) && multiset(r) == multiset(UserTodos(storage, user.value))
    {
      if user.None? {
        return [];
      }
      var userTodos := UserTodos(storage, user.value);
      r := [];
      var i := 0;
      while i < |userTodos|
        invariant 0 <= i <= |userTodos|
        invariant SortedTodos(r)
        invariant multiset(r) == multiset(userTodos[..i])
      {
        InsertTodoSorted(r, userTodos[i]);
        assert userTodos[..i + 1] == userTodos[..i] + [userTodos[i]];
        r := InsertTodo(r, userTodos[i]);
        i := i + 1;
      }
      assert userTodos[..i] == userTodos;
    }

    /** `addTodo`: fails without a user; otherwise appends a pending todo
        with the trimmed title and description (an absent or blank
        description becomes the empty string). */
    method AddTodo(user: Option<string>, request: TodoRequest, newId: string, now: Millis)
      returns (r: Result<Todo, TodoError>)
      modifies this
      ensures user.None? ==> r == Err(NotAuthenticated) && storage == old(storage)
      ensures user.Some? ==>
        && r.Ok?
        && storage == old(storage) + [r.value]
        && r.value.id == newId
        && r.value.title == JsTrim(request.title)
        && r.value.description == Some(if request.description.Some? then JsTrim(request.description.value) else [])
        && !r.value.completed
        && r.value.createdAt == now
        && r.value.dueDate == request.dueDate
        && r.value.userId == user.value
    {
      if user.None? {
        return Err(NotAuthenticated);
      }
      var description := if request.description.Some? then JsTrim(request.description.value) else [];
      var todo := Todo(newId, JsTrim(request.title), Some(description), false, now, request.dueDate, user.value);
      storage := storage + [todo];
      r := Ok(todo);
    }

    /** `updateTodo`: the first stored todo with the id gets the patch spread
        over it; every other entry stays as it was. */
    method UpdateTodo(todoId: string, updates: TodoPatch) returns (r: Result<Todo, TodoError>)
      modifies this
      ensures r.Err? <==> forall i :: 0 <= i < |old(storage)| ==> old(storage)[i].id != todoId
      ensures r.Err? ==> r.error == TodoNotFound && storage == old(storage)
      ensures r.Ok? ==>
        var i := FindIndex(old(storage), todoId).value;
        storage == old(storage)[i := Merge(old(storage)[i], updates)] && r.value == storage[i]
    {
      var found := FindIndex(storage, todoId);
      if found.None? {
        return Err(TodoNotFound);
      }
      var i := found.value;
      storage := storage[i := Merge(storage[i], updates)];
      r := Ok(storage[i]);
    }

    /** `toggleTodoCompletion`: looks the todo up (`find`, the same first
        match) and updates it with the flipped flag. */
    method ToggleTodoCompletion(todoId: string) returns (r: Result<Todo, TodoError>)
      modifies this
      ensures r.Err? <==> forall i :: 0 <= i < |old(storage)| ==> old(storage)[i].id != todoId
      ensures r.Err? ==> r.error == TodoNotFound && storage == old(storage)
      ensures r.Ok? ==>
        var i := FindIndex(old(storage), todoId).value;
        storage == old(storage)[i := Toggle(old(storage)[i])] && r.value == storage[i]
    {
      var found := FindIndex(storage, todoId);
      if found.None? {
        return Err(TodoNotFound);
      }
      var todo := storage[found.value];
      r := UpdateTodo(todoId, CompletedPatch(!todo.completed));
    }

    /** `deleteTodo`: removes every todo with the id, and fails when that
        removes nothing. */
    method DeleteTodo(todoId: string) returns (r: Outcome<TodoError>)
      modifies this
      ensures r.Fail? <==> forall i :: 0 <= i < |old(storage)| ==> old(storage)[i].id != todoId
      ensures r.Fail? ==> r.error == TodoNotFound && storage == old(storage)
      ensures r.Pass? ==> storage == Filter(old(storage), NotId(todoId))
    {
      var filtered := Filter(storage, NotId(todoId));
      if |storage| == |filtered| {
        FilterDropsNothing(storage, NotId(todoId));
        return Fail(TodoNotFound);
      }
      FilterKeepsAll(storage, NotId(todoId));
      storage := filtered;
      r := Pass;
    }

    /** `clearAllTodos`: fails without a user; otherwise keeps only the
        other users' todos. */
    method ClearAllTodos(user: Option<string>) returns (r: Outcome<TodoError>)
      modifies this
      ensures user.None? ==> r == Fail(NotAuthenticated) && storage == old(storage)
      ensures user.Some? ==> r == Pass && storage == Filter(old(storage), NotOfUser(user.value))
    {
      if user.None? {
        return Fail(NotAuthenticated);
      }
      storage := Filter(storage, NotOfUser(user.value));
      r := Pass;
    }

    /** `getTodosStats`: the counts over the list `getTodos` returns, which
        are the counts over the user's stored todos. */
    method GetTodosStats(user: Option<string>) returns (stats: TodoStats)
      ensures user.None? ==> stats == TodoStats(0, 0, 0)
      ensures user.Some? ==> stats == Stats(UserTodos(storage, user.value))
      ensures stats.total == stats.completed + stats.pending
    {
      var todos := GetTodos(user);
      if user.Some? {
        StatsIgnoreOrder(todos, UserTodos(storage, user.value));
      }
      stats := Stats(todos);
    }
  }
}
