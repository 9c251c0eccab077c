/**
 * The client state manager: the in-memory todo collection, its sort order,
 * and the add / update / delete transitions that change it only once the
 * server has answered OK.
 */
module TodoContext {
  import opened Wrappers
  import opened LocalTime
  import opened Todos
  import opened Sorting
  import Route
  import IsoDate

  // ---------------------------------------------------------------------------
  // Sort order

  /**
   * The comparator of `sortTodos`: scheduled todos by scheduled time, then
   * unscheduled todos by creation time. A negative result puts `a` first.
   */
  function Compare(a: Todo, b: Todo): int {
    if a.scheduledAt.Some? && b.scheduledAt.Some? then a.scheduledAt.value - b.scheduledAt.value
    else if a.scheduledAt.Some? && b.scheduledAt.None? then -1
    else if a.scheduledAt.None? && b.scheduledAt.Some? then 1
    else a.createdAt - b.createdAt
  }

  /** `a` may stay in front of `b`. */
  predicate ClientLe(a: Todo, b: Todo) {
    Compare(a, b) <= 0
  }

  /** The comparator is consistent (antisymmetric in sign, transitive), as `Array.prototype.sort` needs. */
  lemma CompareConsistent(a: Todo, b: Todo, c: Todo)
    ensures Compare(a, b) == -Compare(b, a)
    ensures Compare(a, b) <= 0 && Compare(b, c) <= 0 ==> Compare(a, c) <= 0
  {
  }

  lemma ClientLeTotalPreorder()
    ensures TotalPreorder(ClientLe)
  {
    forall a: Todo, b: Todo, c: Todo ensures ClientLe(a, b) && ClientLe(b, c) ==> ClientLe(a, c) {
      CompareConsistent(a, b, c);
    }
  }

  predicate ClientSorted(s: seq<Todo>) {
    SortedBy(s, ClientLe)
  }

  /** The three rules of the client order, stated on their own. */
  predicate Grouped(s: seq<Todo>) {
    // every scheduled todo comes before every unscheduled one
    && (forall i, j :: 0 <= i < j < |s| && s[j].scheduledAt.Some? ==> s[i].scheduledAt.Some?)
    // scheduled todos by nondecreasing scheduled time
    && (forall i, j :: 0 <= i < j < |s| && s[i].scheduledAt.Some? && s[j].scheduledAt.Some?
          ==> s[i].scheduledAt.value <= s[j].scheduledAt.value)
    // unscheduled todos by nondecreasing creation time
    && (forall i, j :: 0 <= i < j < |s| && s[i].scheduledAt.None? && s[j].scheduledAt.None?
          ==> s[i].createdAt <= s[j].createdAt)
  }

  /** Being sorted by the comparator means exactly obeying the three rules. */
  lemma ClientSortedIffGrouped(s: seq<Todo>)
    ensures ClientSorted(s) <==> Grouped(s)
  {
    if ClientSorted(s) {
      forall i, j | 0 <= i < j < |s| ensures ClientLe(s[i], s[j]) { }
    }
    if Grouped(s) {
      forall i, j | 0 <= i < j < |s| ensures ClientLe(s[i], s[j]) {
        if s[j].scheduledAt.Some? {
          assert s[i].scheduledAt.Some?;
        }
      }
    }
  }

  /** `sortTodos`: a sorted copy; the argument itself is a value and stays as it was. */
  function SortTodos(todos: seq<Todo>): (r: seq<Todo>)
    ensures multiset(r) == multiset(todos) && |r| == |todos|
  {
    InsertionSortCounts(todos, ClientLe);
    InsertionSort(todos, ClientLe)
  }

  /** The copy obeys the comparator, that is, the three grouping rules. */
  lemma SortTodosOrdered(todos: seq<Todo>)
    ensures ClientSorted(SortTodos(todos)) && Grouped(SortTodos(todos))
  {
    ClientLeTotalPreorder();
    PreorderOnEvery(Elements(todos), ClientLe);
    InsertionSortSorted(todos, ClientLe, Elements(todos));
    ClientSortedIffGrouped(SortTodos(todos));
  }

  /** Re-sorting a sorted collection changes nothing. */
  lemma SortTodosOfSorted(todos: seq<Todo>)
    requires ClientSorted(todos)
    ensures SortTodos(todos) == todos
  {
    InsertionSortOfSorted(todos, ClientLe);
  }

  // ---------------------------------------------------------------------------
  // The collection transitions

  /** `prev.map(todo => todo.id === id ? updated : todo)`. */
  function ReplaceById(todos: seq<Todo>, id: string, updated: Todo): (r: seq<Todo>)
    ensures |r| == |todos|
    ensures forall i :: 0 <= i < |todos| && todos[i].id == id ==> r[i] == updated
    ensures forall i :: 0 <= i < |todos| && todos[i].id != id ==> r[i] == todos[i]
  {
    if todos == [] then []
    else [if todos[0].id == id then updated else todos[0]] + ReplaceById(todos[1..], id, updated)
  }

  /**
   * `prev.filter(todo => todo.id !== id)`: no todo with the id survives, and
   * every other todo keeps its multiplicity.
   */
  function RemoveById(todos: seq<Todo>, id: string): (r: seq<Todo>)
    ensures |r| <= |todos|
    ensures forall i :: 0 <= i < |r| ==> r[i].id != id
    ensures forall t :: multiset(r)[t] == if t.id == id then 0 else multiset(todos)[t]
  {
    if todos == [] then []
    else
      assert todos == [todos[0]] + todos[1..];
      var rest := RemoveById(todos[1..], id);
      var r := (if todos[0].id == id then [] else [todos[0]]) + rest;
      assert forall i :: 0 < i < |r| && todos[0].id != id ==> r[i] == rest[i - 1];
      r
  }

  /** Removal works piecewise, so the survivors keep their relative order. */
  lemma {:induction false} RemoveByIdAppend(a: seq<Todo>, b: seq<Todo>, id: string)
    ensures RemoveById(a + b, id) == RemoveById(a, id) + RemoveById(b, id)
    decreases |a|
  {
    if a == [] {
      assert a + b == b;
    } else {
      var x, rest := a[0], a[1..];
      assert a == [x] + rest && a + b == [x] + (rest + b);
      RemoveByIdCons(x, rest, id);
      RemoveByIdCons(x, rest + b, id);
      RemoveByIdAppend(rest, b, id);
      SeqAssoc(if x.id == id then [] else [x], RemoveById(rest, id), RemoveById(b, id));
    }
  }

  lemma RemoveByIdCons(x: Todo, s: seq<Todo>, id: string)
    ensures RemoveById([x] + s, id) == (if x.id == id then [] else [x]) + RemoveById(s, id)
  {
    assert ([x] + s)[0] == x && ([x] + s)[1..] == s;
  }

  lemma SeqAssoc<T>(a: seq<T>, b: seq<T>, c: seq<T>)
    ensures a + (b + c) == (a + b) + c
  {
  }

  /** A todo ordered before every element stays ordered before every survivor. */
  lemma {:induction false} RemoveByIdBounded(todos: seq<Todo>, id: string, x: Todo)
    requires forall i :: 0 <= i < |todos| ==> ClientLe(x, todos[i])
    ensures forall j :: 0 <= j < |RemoveById(todos, id)| ==> ClientLe(x, RemoveById(todos, id)[j])
    decreases |todos|
  {
    if todos != [] {
      var y, tail := todos[0], todos[1..];
      assert todos == [y] + tail;
      RemoveByIdCons(y, tail, id);
      RemoveByIdBounded(tail, id, x);
    }
  }

  /** Removal keeps the collection in the client order. */
  lemma {:induction false} RemoveByIdSorted(todos: seq<Todo>, id: string)
    requires ClientSorted(todos)
    ensures ClientSorted(RemoveById(todos, id))
    decreases |todos|
  {
    if todos != [] {
      var x, tail := todos[0], todos[1..];
      assert todos == [x] + tail;
      assert ClientSorted(tail) by {
        forall i, j | 0 <= i < j < |tail| ensures ClientLe(tail[i], tail[j]) {
          assert tail[i] == todos[i + 1] && tail[j] == todos[j + 1];
        }
      }
      RemoveByIdSorted(tail, id);
      RemoveByIdCons(x, tail, id);
      if x.id != id {
        assert forall i :: 0 <= i < |tail| ==> ClientLe(x, tail[i]) by {
          forall i | 0 <= i < |tail| ensures ClientLe(x, tail[i]) {
            assert tail[i] == todos[i + 1];
          }
        }
        RemoveByIdBounded(tail, id, x);
        ConsSorted(x, RemoveById(tail, id));
      }
    }
  }

  /** A todo ordered before every element of a sorted collection can go in front of it. */
  lemma ConsSorted(x: Todo, rest: seq<Todo>)
    requires ClientSorted(rest)
    requires forall j :: 0 <= j < |rest| ==> ClientLe(x, rest[j])
    ensures ClientSorted([x] + rest)
  {
    var r := [x] + rest;
    forall i, j | 0 <= i < j < |r| ensures ClientLe(r[i], r[j]) {
      if i > 0 {
        assert r[i] == rest[i - 1] && r[j] == rest[j - 1];
      } else {
        assert r[j] == rest[j - 1];
      }
    }
  }

  /** `todos.find(t => t.id === id)`: the first todo with that id. */
  function FindById(todos: seq<Todo>, id: string): (r: Option<Todo>)
    ensures r.None? <==> forall i :: 0 <= i < |todos| ==> todos[i].id != id
    ensures r.Some? ==> exists i :: 0 <= i < |todos| && todos[i] == r.value && r.value.id == id
                                    && forall j :: 0 <= j < i ==> todos[j].id != id
  {
    if todos == [] then None
    else if todos[0].id == id then Some(todos[0])
    else
      var r := FindById(todos[1..], id);
      FindByIdStep(todos, id, r);
      r
  }

  /** A match found in the tail is the first match of the whole collection when the head does not match. */
  lemma FindByIdStep(todos: seq<Todo>, id: string, r: Option<Todo>)
    requires todos != [] && todos[0].id != id
    requires r.Some? ==> exists i :: 0 <= i < |todos[1..]| && todos[1..][i] == r.value && r.value.id == id
                                    && forall j :: 0 <= j < i ==> todos[1..][j].id != id
    ensures r.Some? ==> exists i :: 0 <= i < |todos| && todos[i] == r.value && r.value.id == id
                                    && forall j :: 0 <= j < i ==> todos[j].id != id
  {
    if r.Some? {
      var i :| 0 <= i < |todos[1..]| && todos[1..][i] == r.value && r.value.id == id
               && forall j :: 0 <= j < i ==> todos[1..][j].id != id;
      assert todos[i + 1] == r.value;
      assert forall j :: 1 <= j < i + 1 ==> todos[j].id == todos[1..][j - 1].id;
    }
  }

  // ---------------------------------------------------------------------------
  // Requests and replies

  /** The JSON body of a create or update request. */
  datatype Payload = Payload(text: string, scheduledAt: Option<string>)

  datatype HttpMethod = Post | Put | Delete

  datatype Request = Request(verb: HttpMethod, url: string, body: Option<Payload>)

  /**
   * What a `fetch` call came back with: a 2xx response and its decoded body, a
   * non-OK response and the `error` field of its body (if any), or a rejected
   * fetch and the message of the error it rejected with.
   */
  datatype Reply<T> = Ok(value: T) | HttpError(errorField: Option<string>) | NetworkFailure(message: string)

  /** `{ text, scheduledAt: scheduledAt || null }`: a missing or empty time is sent as null. */
  function MakePayload(text: string, scheduledAt: Option<string>): (p: Payload)
    ensures p.text == text
    ensures p.scheduledAt.None? <==> scheduledAt.None? || scheduledAt.value == ""
    ensures p.scheduledAt.Some? ==> p.scheduledAt == scheduledAt
  {
    Payload(text, if scheduledAt.Some? && scheduledAt.value != "" then scheduledAt else None)
  }

  /** The message `addTodo` throws: the body's `error`, or a fixed text when it is missing or empty. */
  function AddFailureMessage(reply: Reply<Todo>): string
    requires !reply.Ok?
  {
    match reply
    case HttpError(e) => if e.Some? && e.value != "" then e.value else "Failed to add todo"
    case NetworkFailure(m) => m
  }

  /** The request body `fetch` sends, as the route's `request.json()` reads it back. */
  function PayloadBody(p: Payload): Route.Body {
    Route.Body(Route.JStr(p.text), if p.scheduledAt.Some? then Route.JStr(p.scheduledAt.value) else Route.JNull)
  }

  /**
   * An add request as the collection endpoint handles it: empty text is
   * refused; a missing or empty time reaches the server as null and is stored
   * as no schedule; any other time is stored as the instant it parses to, or
   * refused by the date guard when it does not parse.
   */
  lemma PayloadAtServer(store: seq<Todo>, text: string, scheduledAt: Option<string>, given: Route.Assigned)
    ensures var r := Route.Post(store, PayloadBody(MakePayload(text, scheduledAt)), given);
            && (text == "" ==> r.response == Route.Response(400, Route.ErrorBody("Text is required")) && r.store == store)
            && (text != "" && (scheduledAt.None? || scheduledAt.value == "") ==>
                  r.response.status == 201 && r.store == store + [Todo(given.id, text, None, given.completed, given.createdAt)])
            && (text != "" && scheduledAt.Some? && scheduledAt.value != "" && IsoDate.ParseIso(scheduledAt.value).Some? ==>
                  r.response.status == 201
                  && r.store == store + [Todo(given.id, text, IsoDate.ParseIso(scheduledAt.value), given.completed, given.createdAt)])
            && (text != "" && scheduledAt.Some? && scheduledAt.value != "" && IsoDate.ParseIso(scheduledAt.value).None? ==>
                  r.response == Route.Response(400, Route.ErrorBody("Invalid date/time format")) && r.store == store)
  {
    if scheduledAt.Some? && scheduledAt.value != "" {
      Route.NewDateOfString(scheduledAt.value);
    }
  }

  function ItemUrl(id: string): string {
    "/api/todos/" + id
  }

  /** The state the provider shares with the list and the calendar. */
  class TodoProvider {
    var todos: seq<Todo>
    var isLoading: bool
    var error: Option<string>
    var draggedTodoId: Option<string>

    constructor ()
      ensures todos == [] && isLoading && error == None && draggedTodoId == None
    {
      todos := [];
      isLoading := true;
      error := None;
      draggedTodoId := None;
    }

    /** `fetchTodos`: the server's list replaces the collection; a failure leaves it and records a message. */
    method FetchTodos(reply: Reply<seq<Todo>>)
      modifies this
      ensures reply.Ok? ==> todos == reply.value && error == old(error)
      ensures !reply.Ok? ==> todos == old(todos) && error == Some("Failed to load todos")
      ensures !isLoading && draggedTodoId == old(draggedTodoId)
    {
      if reply.Ok? {
        todos := reply.value;
      } else {
        error := Some("Failed to load todos");
      }
      isLoading := false;
    }

    /** `addTodo`: POST, then on OK insert the created todo and re-sort; otherwise throw. */
    method AddTodo(text: string, scheduledAt: Option<string>, reply: Reply<Todo>)
      returns (request: Request, thrown: Option<string>)
      modifies this
      ensures request == Request(Post, "/api/todos", Some(MakePayload(text, scheduledAt)))
      ensures reply.Ok? ==> thrown == None && todos == SortTodos(old(todos) + [reply.value])
      ensures reply.Ok? ==> |todos| == |old(todos)| + 1 && reply.value in todos
      ensures !reply.Ok? ==> thrown == Some(AddFailureMessage(reply)) && todos == old(todos)
      ensures isLoading == old(isLoading) && error == old(error) && draggedTodoId == old(draggedTodoId)
    {
      request := Request(Post, "/api/todos", Some(MakePayload(text, scheduledAt)));
      if !reply.Ok? {
        thrown := Some(AddFailureMessage(reply));
        return;
      }
      todos := SortTodos(todos + [reply.value]);
      assert reply.value in multiset(todos);
      thrown := None;
    }

    /** `updateTodo`: PUT, then on OK swap in the server's todo for every entry with that id and re-sort. */
    method UpdateTodo(id: string, text: string, scheduledAt: Option<string>, reply: Reply<Todo>)
      returns (request: Request, thrown: Option<string>)
      modifies this
      ensures request == Request(Put, ItemUrl(id), Some(MakePayload(text, scheduledAt)))
      ensures reply.Ok? ==> thrown == None && todos == SortTodos(ReplaceById(old(todos), id, reply.value))
      ensures reply.Ok? ==> |todos| == |old(todos)|
      ensures reply.HttpError? ==> thrown == Some("Failed to update todo") && todos == old(todos)
      ensures reply.NetworkFailure? ==> thrown == Some(reply.message) && todos == old(todos)
      ensures isLoading == old(isLoading) && error == old(error) && draggedTodoId == old(draggedTodoId)
    {
      request := Request(Put, ItemUrl(id), Some(MakePayload(text, scheduledAt)));
      match reply
      case HttpError(_) =>
        thrown := Some("Failed to update todo");
      case NetworkFailure(m) =>
        thrown := Some(m);
      case Ok(updated) =>
        todos := SortTodos(ReplaceById(todos, id, updated));
        thrown := None;
    }

    /** `deleteTodo`: DELETE, then on OK drop every entry with that id, without re-sorting. */
    method DeleteTodo(id: string, reply: Reply<()>) returns (request: Request, thrown: Option<string>)
      modifies this
      ensures request == Request(Delete, ItemUrl(id), None)
      ensures reply.Ok? ==> thrown == None && todos == RemoveById(old(todos), id)
      ensures reply.HttpError? ==> thrown == Some("Failed to delete todo") && todos == old(todos)
      ensures reply.NetworkFailure? ==> thrown == Some(reply.message) && todos == old(todos)
      ensures isLoading == old(isLoading) && error == old(error) && draggedTodoId == old(draggedTodoId)
    {
      request := Request(Delete, ItemUrl(id), None);
      match reply
      case HttpError(_) =>
        thrown := Some("Failed to delete todo");
      case NetworkFailure(m) =>
        thrown := Some(m);
      case Ok(_) =>
        todos := RemoveById(todos, id);
        thrown := None;
    }

    method SetDraggedTodoId(id: Option<string>)
      modifies this
      ensures draggedTodoId == id
      ensures todos == old(todos) && isLoading == old(isLoading) && error == old(error)
    {
      draggedTodoId := id;
    }
  }

  /** After any successful transition from a sorted collection, the collection is sorted again. */
  lemma TransitionsKeepOrder(todos: seq<Todo>, id: string, t: Todo)
    requires ClientSorted(todos)
    ensures ClientSorted(SortTodos(todos + [t]))
    ensures ClientSorted(SortTodos(ReplaceById(todos, id, t)))
    ensures ClientSorted(RemoveById(todos, id))
  {
    SortTodosOrdered(todos + [t]);
    SortTodosOrdered(ReplaceById(todos, id, t));
    RemoveByIdSorted(todos, id);
  }

  /**
   * The server's listing is already in the client order, so `fetchTodos`,
   * which stores it without sorting, also leaves a sorted collection.
   */
  lemma ListingIsClientSorted(store: seq<Todo>)
    ensures ClientSorted(Route.StoreOrder(store))
    ensures SortTodos(Route.StoreOrder(store)) == Route.StoreOrder(store)
  {
    var listed := Route.StoreOrder(store);
    assert Grouped(listed) by {
      forall i, j | 0 <= i < j < |listed| && listed[i].scheduledAt.None? && listed[j].scheduledAt.None?
        ensures listed[i].createdAt <= listed[j].createdAt
      {
        assert listed[i].scheduledAt == listed[j].scheduledAt;
      }
    }
    ClientSortedIffGrouped(listed);
    SortTodosOfSorted(listed);
  }

  /**
   * Ties in `scheduledAt` are kept in collection order on the client but
   * broken by `createdAt` on the server: after an update moves a todo onto
   * another's time, the collection differs from what the next fetch lists.
   */
  lemma UpdateTieOrder()
    ensures var x := Todo("x", "a", Some(5), false, 2);
            var y := Todo("y", "b", Some(10), false, 1);
            var x' := Todo("x", "a", Some(10), false, 2);
            && ClientSorted([x, y])
            && SortTodos(ReplaceById([x, y], "x", x')) == [x', y]
            && Route.StoreOrder([x', y]) == [y, x']
  {
    var x := Todo("x", "a", Some(5), false, 2);
    var y := Todo("y", "b", Some(10), false, 1);
    var x' := Todo("x", "a", Some(10), false, 2);
    assert ReplaceById([x, y], "x", x') == [x', y];
    assert InsertionSort([x'], ClientLe) == [x'];
    assert InsertLast([x'], y, ClientLe) == [x', y];
    assert InsertionSort([x'], Route.StoreLe) == [x'];
    assert InsertLast([x'], y, Route.StoreLe) == [y, x'] by {
      assert InsertLast([], y, Route.StoreLe) == [y];
    }
  }
}
