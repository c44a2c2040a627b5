/** The values of the todo service of week8/angular-todo-app: the `Todo`
    record and the request and partial-update shapes, the list filter and
    search, the order `getTodos` sorts by, and the statistics. Times are
    milliseconds since the epoch. */
module Todos {
  import opened Wrappers
  import opened Text

  type Millis = int

  /** A stored todo. `description` and `dueDate` are optional. */
  datatype Todo = Todo(
    id: string,
    title: string,
    description: Option<string>,
    completed: bool,
    createdAt: Millis,
    dueDate: Option<Millis>,
    userId: string)

  /** What `addTodo` is given. */
  datatype TodoRequest = TodoRequest(title: string, description: Option<string>, dueDate: Option<Millis>)

  /** A `Partial<Todo>`: `None` leaves a field alone; for the optional fields
      `Some(None)` is a key present with the value `undefined`. */
  datatype TodoPatch = TodoPatch(
    id: Option<string>,
    title: Option<string>,
    description: Option<Option<string>>,
    completed: Option<bool>,
    createdAt: Option<Millis>,
    dueDate: Option<Option<Millis>>,
    userId: Option<string>)

  datatype TodoFilter = All | Pending | Completed

  /** The two errors the service throws. */
  datatype TodoError = NotAuthenticated | TodoNotFound

  datatype TodoStats = TodoStats(total: nat, completed: nat, pending: nat)

  // ------------------------------------------------------------ filtering

  /** The predicates the service hands to `Array.prototype.filter`. */
  datatype Criterion =
    | IsCompleted
    | IsPending
    | OfUser(user: string)
    | NotOfUser(user: string)
    | NotId(id: string)
    | Matching(term: string)

  predicate Keeps(c: Criterion, t: Todo) {
    match c
    case IsCompleted => t.completed
    case IsPending => !t.completed
    case OfUser(u) => t.userId == u
    case NotOfUser(u) => t.userId != u
    case NotId(id) => t.id != id
    case Matching(term) => Matches(t, term)
  }

  /** `Array.prototype.filter`: the todos `c` keeps, in their order. */
  function Filter(s: seq<Todo>, c: Criterion): (r: seq<Todo>)
    ensures |r| <= |s|
    ensures forall t {:trigger t in r} :: t in r <==> t in s && Keeps(c, t)
  {
    if s == [] then []
    else if Keeps(c, s[0]) then [s[0]] + Filter(s[1..], c)
    else Filter(s[1..], c)
  }

  /** Filtering works piece by piece: it keeps the relative order. */
  lemma {:induction false} FilterConcat(a: seq<Todo>, b: seq<Todo>, c: Criterion)
    ensures Filter(a + b, c) == Filter(a, c) + Filter(b, c)
  {
    if a == [] {
      assert a + b == b;
    } else {
      assert (a + b)[1..] == a[1..] + b;
      FilterConcat(a[1..], b, c);
    }
  }

  /** Every kept todo keeps all its copies; every other todo loses them all. */
  lemma {:induction false} FilterMultiset(s: seq<Todo>, c: Criterion)
    ensures forall t :: multiset(Filter(s, c))[t] == if Keeps(c, t) then multiset(s)[t] else 0
  {
    if s != [] {
      assert s == [s[0]] + s[1..];
      FilterMultiset(s[1..], c);
    }
  }

  /** Filtering a list whose every todo is kept returns the list. */
  lemma {:induction false} FilterKeepsAll(s: seq<Todo>, c: Criterion)
    ensures (forall i :: 0 <= i < |s| ==> Keeps(c, s[i])) ==> Filter(s, c) == s
  {
    if s != [] && forall i :: 0 <= i < |s| ==> Keeps(c, s[i]) {
      var rest := s[1..];
      forall i | 0 <= i < |rest| ensures Keeps(c, rest[i]) {
        assert rest[i] == s[i + 1];
      }
      FilterKeepsAll(rest, c);
      assert Filter(s, c) == [s[0]] + rest;
      assert s == [s[0]] + rest;
    }
  }

  /** Filtering that drops nothing kept every todo. */
  lemma {:induction false} FilterDropsNothing(s: seq<Todo>, c: Criterion)
    requires |Filter(s, c)| == |s|
    ensures forall i :: 0 <= i < |s| ==> Keeps(c, s[i])
  {
    if s != [] {
      var rest := s[1..];
      assert Keeps(c, s[0]) && Filter(s, c) == [s[0]] + Filter(rest, c);
      FilterDropsNothing(rest, c);
      assert forall i :: 1 <= i < |s| ==> s[i] == rest[i - 1];
    }
  }

  /** Every todo is either completed or pending. */
  lemma {:induction false} FilterPartition(s: seq<Todo>)
    ensures |Filter(s, IsCompleted)| + |Filter(s, IsPending)| == |s|
  {
    if s != [] {
      FilterPartition(s[1..]);
    }
  }

  /** Filtering sees only which todos there are, not their order. */
  lemma FilterPermutation(a: seq<Todo>, b: seq<Todo>, c: Criterion)
    requires multiset(a) == multiset(b)
    ensures multiset(Filter(a, c)) == multiset(Filter(b, c))
    ensures |Filter(a, c)| == |Filter(b, c)|
  {
    FilterMultiset(a, c);
    FilterMultiset(b, c);
    assert multiset(Filter(a, c)) == multiset(Filter(b, c));
    assert |multiset(Filter(a, c))| == |multiset(Filter(b, c))|;
  }

  /** Two filters give the same result in either order. */
  lemma {:induction false} FilterCommutes(s: seq<Todo>, c: Criterion, d: Criterion)
    ensures Filter(Filter(s, c), d) == Filter(Filter(s, d), c)
  {
    if s != [] {
      FilterCommutes(s[1..], c, d);
    }
  }

  /** `filterTodos`. */
  function FilterTodos(todos: seq<Todo>, filter: TodoFilter): (r: seq<Todo>)
    ensures filter == All ==> r == todos
    ensures filter == Completed ==>
      forall t :: multiset(r)[t] == if t.completed then multiset(todos)[t] else 0
    ensures filter == Pending ==>
      forall t :: multiset(r)[t] == if !t.completed then multiset(todos)[t] else 0
  {
    match filter
    case Completed => FilterMultiset(todos, IsCompleted); Filter(todos, IsCompleted)
    case Pending => FilterMultiset(todos, IsPending); Filter(todos, IsPending)
    case All => todos
  }

  /** The completed and the pending views split the list between them, and
      each view keeps the list's order. */
  lemma FilterTodosSplits(a: seq<Todo>, b: seq<Todo>, filter: TodoFilter)
    ensures |FilterTodos(a, Completed)| + |FilterTodos(a, Pending)| == |a|
    ensures FilterTodos(a + b, filter) == FilterTodos(a, filter) + FilterTodos(b, filter)
  {
    FilterPartition(a);
    if filter == Completed {
      FilterConcat(a, b, IsCompleted);
    } else if filter == Pending {
      FilterConcat(a, b, IsPending);
    }
  }

  // --------------------------------------------------------------- search

  /** A todo matches a (lower-case) term when its lower-cased title contains
      it, or its description is a non-empty string whose lower-cased form
      contains it. */
  predicate Matches(t: Todo, term: string) {
    || Contains(ToLower(t.title), term)
    || (t.description.Some? && t.description.value != [] && Contains(ToLower(t.description.value), term))
  }

  /** The term `searchTodos` looks for: lower-cased, then trimmed. */
  function SearchNeedle(searchTerm: string): string {
    JsTrim(ToLower(searchTerm))
  }

  /** `searchTodos`: a term that trims to nothing (a blank term, by the
      contract of `Trim`) returns the list as it is; otherwise it keeps the
      todos that match the term. */
  function SearchTodos(todos: seq<Todo>, searchTerm: string): (r: seq<Todo>)
    ensures JsTrim(searchTerm) == [] ==> r == todos
    ensures |r| <= |todos|
    ensures JsTrim(searchTerm) != [] ==>
      forall t :: t in r <==> t in todos && Matches(t, SearchNeedle(searchTerm))
  {
    if JsTrim(searchTerm) == [] then todos
    else Filter(todos, Matching(SearchNeedle(searchTerm)))
  }

  /** The search keeps every copy of a matching todo and drops every copy of
      the others. */
  lemma SearchKeepsCopies(todos: seq<Todo>, searchTerm: string)
    requires JsTrim(searchTerm) != []
    ensures forall t :: multiset(SearchTodos(todos, searchTerm))[t]
                     == if Matches(t, SearchNeedle(searchTerm)) then multiset(todos)[t] else 0
  {
    FilterMultiset(todos, Matching(SearchNeedle(searchTerm)));
  }

  lemma LowerKeepsSpace(c: char)
    ensures IsJsSpace(ToLowerChar(c)) <==> IsJsSpace(c)
    ensures ToLowerChar(ToLowerChar(c)) == ToLowerChar(c)
  {
  }

  /** The search ignores the case of the term. */
  lemma SearchIgnoresCase(todos: seq<Todo>, searchTerm: string)
    ensures SearchTodos(todos, ToLower(searchTerm)) == SearchTodos(todos, searchTerm)
  {
    var lower := ToLower(searchTerm);
    forall i | 0 <= i < |searchTerm| ensures IsJsSpace(lower[i]) <==> IsJsSpace(searchTerm[i]) {
      LowerKeepsSpace(searchTerm[i]);
    }
    assert IsBlank(lower, IsJsSpace) <==> IsBlank(searchTerm, IsJsSpace);
    forall i | 0 <= i < |searchTerm| ensures ToLower(lower)[i] == lower[i] {
      LowerKeepsSpace(searchTerm[i]);
    }
    assert ToLower(lower) == lower;
  }

  /** Searching and filtering by status can be done in either order. */
  lemma SearchCommutesWithFilter(todos: seq<Todo>, searchTerm: string, filter: TodoFilter)
    ensures FilterTodos(SearchTodos(todos, searchTerm), filter) == SearchTodos(FilterTodos(todos, filter), searchTerm)
  {
    if JsTrim(searchTerm) != [] {
      var m := Matching(SearchNeedle(searchTerm));
      FilterCommutes(todos, m, IsCompleted);
      FilterCommutes(todos, m, IsPending);
    }
  }

  // ---------------------------------------------------------------- order

  /** The comparator `getTodos` sorts with: todos with a due date first, by
      ascending due date; then the others, newest first. */
  function CompareTodos(a: Todo, b: Todo): int {
    if a.dueDate.Some? && b.dueDate.None? then -1
    else if a.dueDate.None? && b.dueDate.Some? then 1
    else if a.dueDate.Some? && b.dueDate.Some? then a.dueDate.value - b.dueDate.value
    else b.createdAt - a.createdAt
  }

  /** Swapping the operands negates the comparison. */
  lemma CompareTodosAntisymmetric(a: Todo, b: Todo)
    ensures CompareTodos(a, b) == -CompareTodos(b, a)
  {
  }

  /** "Not after" is transitive. */
  lemma CompareTodosTransitive(a: Todo, b: Todo, c: Todo)
    requires CompareTodos(a, b) <= 0 && CompareTodos(b, c) <= 0
    ensures CompareTodos(a, c) <= 0
  {
  }

  /** The order the comparator asks for: no todo comes after a later one. */
  predicate SortedTodos(s: seq<Todo>) {
    forall i, j :: 0 <= i < j < |s| ==> CompareTodos(s[i], s[j]) <= 0
  }

  /** What a sorted list looks like: dated todos come before undated ones,
      dated ones by ascending due date, undated ones newest first. */
  lemma SortedTodosOrder(s: seq<Todo>, i: int, j: int)
    requires SortedTodos(s) && 0 <= i < j < |s|
    ensures s[j].dueDate.Some? ==> s[i].dueDate.Some? && s[i].dueDate.value <= s[j].dueDate.value
    ensures s[i].dueDate.None? ==> s[j].dueDate.None? && s[i].createdAt >= s[j].createdAt
  {
    assert CompareTodos(s[i], s[j]) <= 0;
  }

  /** One insertion step of the sort: `x` goes before the first todo it
      compares strictly below. */
  function InsertTodo(s: seq<Todo>, x: Todo): (r: seq<Todo>)
    ensures multiset(r) == multiset(s) + multiset{x}
  {
    if s == [] then [x]
    else if CompareTodos(x, s[0]) < 0 then [x] + s
    else
      assert s == [s[0]] + s[1..];
      [s[0]] + InsertTodo(s[1..], x)
  }

  /** Inserting into a sorted list keeps it sorted. */
  lemma {:induction false} InsertTodoSorted(s: seq<Todo>, x: Todo)
    requires SortedTodos(s)
    ensures SortedTodos(InsertTodo(s, x))
  {
    if s == [] {
    } else if CompareTodos(x, s[0]) < 0 {
      SortedCons(x, s);
    } else {
      assert SortedTodos(s[1..]) by {
        assert forall k :: 0 <= k < |s[1..]| ==> s[1..][k] == s[k + 1];
      }
      InsertTodoSorted(s[1..], x);
      var t := InsertTodo(s[1..], x);
      forall j | 0 <= j < |t| ensures CompareTodos(s[0], t[j]) <= 0 {
        assert t[j] in multiset(t);
        if t[j] != x {
          assert t[j] in s[1..];
          var k :| 0 <= k < |s[1..]| && s[1..][k] == t[j];
          assert s[k + 1] == t[j];
        }
      }
      SortedCons(s[0], t);
    }
  }

  /** A todo not after the head of a sorted list, nor after any of its
      elements, can be put in front of it. */
  lemma SortedCons(x: Todo, s: seq<Todo>)
    requires SortedTodos(s)
    requires (s != [] && CompareTodos(x, s[0]) <= 0) || forall j :: 0 <= j < |s| ==> CompareTodos(x, s[j]) <= 0
    ensures SortedTodos([x] + s)
  {
    var r := [x] + s;
    forall j | 0 < j < |r| ensures CompareTodos(x, r[j]) <= 0 {
      if s != [] && CompareTodos(x, s[0]) <= 0 && j > 1 {
        CompareTodosTransitive(x, s[0], s[j - 1]);
      }
    }
    assert forall i, j :: 0 < i < j < |r| ==> r[i] == s[i - 1] && r[j] == s[j - 1];
  }

  // ---------------------------------------------------------- statistics

  /** The three counts of `getTodosStats` over a list. */
  function Stats(todos: seq<Todo>): (r: TodoStats)
    ensures r.total == |todos|
    ensures r.total == r.completed + r.pending
  {
    FilterPartition(todos);
    TodoStats(|todos|, |Filter(todos, IsCompleted)|, |Filter(todos, IsPending)|)
  }

  /** The counts do not depend on the order of the list. */
  lemma StatsIgnoreOrder(a: seq<Todo>, b: seq<Todo>)
    requires multiset(a) == multiset(b)
    ensures Stats(a) == Stats(b)
  {
    FilterPermutation(a, b, IsCompleted);
    FilterPermutation(a, b, IsPending);
    assert |a| == |multiset(a)| == |multiset(b)| == |b|;
  }

  // -------------------------------------------------------------- updates

  /** `{ ...todo, ...updates }`. */
  function Merge(t: Todo, p: TodoPatch): Todo {
    Todo(
      if p.id.Some? then p.id.value else t.id,
      if p.title.Some? then p.title.value else t.title,
      if p.description.Some? then p.description.value else t.description,
      if p.completed.Some? then p.completed.value else t.completed,
      if p.createdAt.Some? then p.createdAt.value else t.createdAt,
      if p.dueDate.Some? then p.dueDate.value else t.dueDate,
      if p.userId.Some? then p.userId.value else t.userId)
  }

  /** The patch with only `completed` set. */
  function CompletedPatch(completed: bool): TodoPatch {
    TodoPatch(None, None, None, Some(completed), None, None, None)
  }

  /** Spreading a patch twice is spreading it once, and an empty patch
      changes nothing. */
  lemma MergeIdempotent(t: Todo, p: TodoPatch)
    ensures Merge(Merge(t, p), p) == Merge(t, p)
    ensures Merge(t, TodoPatch(None, None, None, None, None, None, None)) == t
  {
  }

  /** The todo `toggleTodoCompletion` stores. */
  function Toggle(t: Todo): Todo {
    Merge(t, CompletedPatch(!t.completed))
  }

  /** Toggling flips `completed` and nothing else, so toggling twice gives
      the todo back. */
  lemma ToggleFlips(t: Todo)
    ensures Toggle(t) == t.(completed := !t.completed)
    ensures Toggle(Toggle(t)) == t
  {
  }

  /** `Array.prototype.findIndex` on the id: the first position holding it. */
  function FindIndex(s: seq<Todo>, id: string): (r: Option<nat>)
    ensures r.None? <==> forall i :: 0 <= i < |s| ==> s[i].id != id
    ensures r.Some? ==> r.value < |s| && s[r.value].id == id
    ensures r.Some? ==> forall j :: 0 <= j < r.value ==> s[j].id != id
  {
    if s == [] then None
    else if s[0].id == id then Some(0)
    else
      match FindIndex(s[1..], id)
      case None => None
      case Some(k) => Some(k + 1)
  }

  /** After an update that leaves the id alone, the same id still leads to
      the same entry, and repeating the update changes nothing. */
  lemma RepeatedUpdateChangesNothing(s: seq<Todo>, id: string, p: TodoPatch)
    requires FindIndex(s, id).Some?
    requires p.id.None? || p.id == Some(id)
    ensures var i := FindIndex(s, id).value;
      var s' := s[i := Merge(s[i], p)];
      FindIndex(s', id) == Some(i) && s'[i := Merge(s'[i], p)] == s'
  {
    var i := FindIndex(s, id).value;
    var s' := s[i := Merge(s[i], p)];
    assert s'[i].id == id;
    assert forall j :: 0 <= j < i ==> s'[j] == s[j];
    assert FindIndex(s', id).Some?;
    MergeIdempotent(s[i], p);
  }

  /** Toggling the same todo twice restores the stored list. */
  lemma ToggleTwiceRestores(s: seq<Todo>, id: string)
    requires FindIndex(s, id).Some?
    ensures var i := FindIndex(s, id).value;
      var s' := s[i := Toggle(s[i])];
      FindIndex(s', id) == Some(i) && s'[i := Toggle(s'[i])] == s
  {
    var i := FindIndex(s, id).value;
    var s' := s[i := Toggle(s[i])];
    ToggleFlips(s[i]);
    assert s'[i].id == id;
    assert forall j :: 0 <= j < i ==> s'[j] == s[j];
    assert FindIndex(s', id).Some?;
    ToggleFlips(s'[i]);
  }

  // ---------------------------------------------------------- user lists

  /** The todos that belong to `user`, in stored order. */
  function UserTodos(s: seq<Todo>, user: string): (r: seq<Todo>)
    ensures forall t :: t in r <==> t in s && t.userId == user
  {
    Filter(s, OfUser(user))
  }

  /** Appending a todo adds it to the end of its owner's list and to no
      other list; a new pending todo adds one to the total and to the
      pending count. */
  lemma AddedTodoJoinsOwnerList(s: seq<Todo>, t: Todo, user: string)
    ensures UserTodos(s + [t], user) == UserTodos(s, user) + (if t.userId == user then [t] else [])
    ensures t.userId == user && !t.completed ==>
      Stats(UserTodos(s + [t], user)) ==
        TodoStats(Stats(UserTodos(s, user)).total + 1, Stats(UserTodos(s, user)).completed,
                  Stats(UserTodos(s, user)).pending + 1)
  {
    FilterConcat(s, [t], OfUser(user));
    assert Filter([t], OfUser(user)) == if t.userId == user then [t] else [];
    if t.userId == user && !t.completed {
      var u := UserTodos(s, user);
      FilterConcat(u, [t], IsCompleted);
      FilterConcat(u, [t], IsPending);
      assert Filter([t], IsCompleted) == [];
      assert Filter([t], IsPending) == [t];
    }
  }

  /** Clearing one user's todos empties that user's list and leaves every
      other user's list as it was. */
  lemma {:induction false} ClearLeavesOthers(s: seq<Todo>, user: string, other: string)
    ensures UserTodos(Filter(s, NotOfUser(user)), user) == []
    ensures other != user ==> UserTodos(Filter(s, NotOfUser(user)), other) == UserTodos(s, other)
  {
    if s != [] {
      ClearLeavesOthers(s[1..], user, other);
    }
  }
}
