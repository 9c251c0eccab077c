/**
 * The collection endpoint of the HTTP API: GET lists the store in its
 * ordering contract, POST validates a body and creates one record.
 * The record store is a sequence value; `findMany` and `create` are modelled
 * by what they return.
 */
module Route {
  import opened Wrappers
  import opened LocalTime
  import opened IsoDate
  import opened Todos
  import opened Sorting

  // ---------------------------------------------------------------------------
  // Request bodies

  /** A JSON value as `request.json()` yields it; `JUndefined` stands for an absent field. */
  datatype Json = JUndefined | JNull | JBool(b: bool) | JNum(n: int) | JStr(s: string) | JObject

  /** JavaScript truthiness of a JSON value. */
  predicate Truthy(v: Json) {
    match v
    case JUndefined => false
    case JNull => false
    case JBool(b) => b
    case JNum(n) => n != 0
    case JStr(s) => s != ""
    case JObject => true
  }

  /**
   * `new Date(v).getTime()`, None standing for NaN: a string is parsed, a
   * number is a time value, a boolean converts to 0 or 1, null to 0, and an
   * object or `undefined` gives an invalid date.
   */
  function NewDate(v: Json): (r: Option<Instant>)
    ensures r.Some? ==> -MaxTime <= r.value <= MaxTime
    ensures v.JNum? ==> (r.Some? <==> -MaxTime <= v.n <= MaxTime)
  {
    match v
    case JUndefined => None
    case JNull => Some(0)
    case JBool(b) => Some(if b then 1 else 0)
    case JNum(n) => Clip(n)
    case JStr(s) => ParseIso(s)
    case JObject => None
  }

  /** Every string `toISOString` writes is read back as the same instant. */
  lemma NewDateOfIso(t: Instant)
    requires -MaxTime <= t <= MaxTime
    ensures NewDate(JStr(FormatIso(t))) == Some(t)
  {
    var text := FormatIso(t);
    IsoRoundTrip(t);
    NewDateOfString(text);
  }

  lemma NewDateOfString(s: string)
    ensures NewDate(JStr(s)) == ParseIso(s)
  {
  }

  /** The two fields POST reads from its (object) body. */
  datatype Body = Body(text: Json, scheduledAt: Json)

  // ---------------------------------------------------------------------------
  // Responses

  /** A todo as the API sends it: both times as ISO strings. */
  datatype WireTodo = WireTodo(id: string, text: string, scheduledAt: Option<string>, completed: bool, createdAt: string)

  datatype ResponseBody = ErrorBody(error: string) | TodoBody(todo: WireTodo) | ListBody(todos: seq<WireTodo>)

  datatype Response = Response(status: int, body: ResponseBody)

  /** `serializeTodo`: every field is kept, and both times are written as ISO strings. */
  function SerializeTodo(t: Todo): (w: WireTodo)
    ensures w.id == t.id && w.text == t.text && w.completed == t.completed
    ensures w.scheduledAt.None? <==> t.scheduledAt.None?
  {
    WireTodo(t.id, t.text,
             if t.scheduledAt.Some? then Some(FormatIso(t.scheduledAt.value)) else None,
             t.completed, FormatIso(t.createdAt))
  }

  /** The instants a client reads back from a wire todo with `new Date(...)`; None if either is invalid. */
  function DecodeTodo(w: WireTodo): Option<Todo> {
    var created := ParseIso(w.createdAt);
    var scheduled := if w.scheduledAt.Some? then ParseIso(w.scheduledAt.value) else None;
    if created.None? || (w.scheduledAt.Some? && scheduled.None?) then None
    else Some(Todo(w.id, w.text, scheduled, w.completed, created.value))
  }

  predicate TimesInRange(t: Todo) {
    && -MaxTime <= t.createdAt <= MaxTime
    && (t.scheduledAt.Some? ==> -MaxTime <= t.scheduledAt.value <= MaxTime)
  }

  /** A client that decodes what `serializeTodo` sent gets back the stored todo. */
  lemma SerializeRoundTrip(t: Todo)
    requires TimesInRange(t)
    ensures DecodeTodo(SerializeTodo(t)) == Some(t)
  {
    var w := SerializeTodo(t);
    IsoRoundTrip(t.createdAt);
    if t.scheduledAt.Some? {
      IsoRoundTrip(t.scheduledAt.value);
    }
    DecodeOf(w, t);
  }

  /** A wire todo whose strings parse to a todo's instants decodes to that todo. */
  lemma DecodeOf(w: WireTodo, t: Todo)
    requires w.id == t.id && w.text == t.text && w.completed == t.completed
    requires ParseIso(w.createdAt) == Some(t.createdAt)
    requires w.scheduledAt.None? <==> t.scheduledAt.None?
    requires w.scheduledAt.Some? ==> ParseIso(w.scheduledAt.value) == t.scheduledAt
    ensures DecodeTodo(w) == Some(t)
  {
  }

  function SerializeAll(s: seq<Todo>): (r: seq<WireTodo>)
    ensures |r| == |s| && forall i :: 0 <= i < |s| ==> r[i] == SerializeTodo(s[i])
  {
    seq(|s|, i requires 0 <= i < |s| => SerializeTodo(s[i]))
  }

  /** A client decoding the serialised list gets back every stored todo, in place. */
  lemma SerializeAllRoundTrip(s: seq<Todo>)
    requires forall k :: 0 <= k < |s| ==> TimesInRange(s[k])
    ensures |SerializeAll(s)| == |s|
    ensures forall i :: 0 <= i < |s| ==> DecodeTodo(SerializeAll(s)[i]) == Some(s[i])
  {
    forall i | 0 <= i < |s| ensures DecodeTodo(SerializeAll(s)[i]) == Some(s[i]) {
      SerializeRoundTrip(s[i]);
    }
  }

  // ---------------------------------------------------------------------------
  // GET

  /** The `orderBy` of the listing: scheduled time ascending with nulls last, then creation time ascending. */
  predicate StoreLe(a: Todo, b: Todo) {
    if a.scheduledAt.Some? && b.scheduledAt.Some? then
      a.scheduledAt.value < b.scheduledAt.value
      || (a.scheduledAt.value == b.scheduledAt.value && a.createdAt <= b.createdAt)
    else if a.scheduledAt.Some? then true
    else if b.scheduledAt.Some? then false
    else a.createdAt <= b.createdAt
  }

  lemma StoreLeTotalPreorder()
    ensures TotalPreorder(StoreLe)
  {
  }

  /** The ordering contract, rule by rule. */
  predicate StoreOrdered(s: seq<Todo>) {
    && (forall i, j :: 0 <= i < j < |s| && s[j].scheduledAt.Some? ==> s[i].scheduledAt.Some?)
    && (forall i, j :: 0 <= i < j < |s| && s[i].scheduledAt.Some? && s[j].scheduledAt.Some?
          ==> s[i].scheduledAt.value <= s[j].scheduledAt.value)
    && (forall i, j :: 0 <= i < j < |s| && s[i].scheduledAt == s[j].scheduledAt
          ==> s[i].createdAt <= s[j].createdAt)
  }

  lemma StoreSortedIffOrdered(s: seq<Todo>)
    ensures SortedBy(s, StoreLe) <==> StoreOrdered(s)
  {
    if SortedBy(s, StoreLe) {
      forall i, j | 0 <= i < j < |s| ensures StoreLe(s[i], s[j]) { }
    }
    if StoreOrdered(s) {
      forall i, j | 0 <= i < j < |s| ensures StoreLe(s[i], s[j]) {
        if s[j].scheduledAt.Some? {
          assert s[i].scheduledAt.Some?;
        }
      }
    }
  }

  /**
   * `findMany` with the listing's `orderBy`: the store's records in that order.
   * Records equal on both keys keep their order in the store.
   */
  function StoreOrder(store: seq<Todo>): (r: seq<Todo>)
    ensures multiset(r) == multiset(store) && |r| == |store|
    ensures SortedBy(r, StoreLe) && StoreOrdered(r)
  {
    StoreLeTotalPreorder();
    PreorderOnEvery(Elements(store), StoreLe);
    InsertionSortSorted(store, StoreLe, Elements(store));
    InsertionSortCounts(store, StoreLe);
    var r := InsertionSort(store, StoreLe);
    StoreSortedIffOrdered(r);
    r
  }

  /** GET: status 200 and the ordered records, serialised. */
  function Get(store: seq<Todo>): (r: Response)
    ensures r.status == 200 && r.body.ListBody?
    ensures r.body.todos == SerializeAll(StoreOrder(store))
  {
    Response(200, ListBody(SerializeAll(StoreOrder(store))))
  }

  /**
   * What the client decodes from the GET body is the store, record for record,
   * in the listing's order.
   */
  lemma GetRoundTrip(store: seq<Todo>)
    requires forall k :: 0 <= k < |store| ==> TimesInRange(store[k])
    ensures Get(store).status == 200
    ensures |Get(store).body.todos| == |store|
    ensures forall i :: 0 <= i < |store| ==> DecodeTodo(Get(store).body.todos[i]) == Some(StoreOrder(store)[i])
  {
    var listed := StoreOrder(store);
    forall i | 0 <= i < |listed| ensures TimesInRange(listed[i]) {
      assert listed[i] in multiset(store);
    }
    SerializeAllRoundTrip(listed);
  }

  // ---------------------------------------------------------------------------
  // POST

  /** What the store fills in when it creates a record. */
  datatype Assigned = Assigned(id: string, completed: bool, createdAt: Instant)

  datatype PostResult = PostResult(response: Response, store: seq<Todo>)

  /** The record a valid body creates: a falsy `scheduledAt` is stored as null. */
  function Created(text: string, scheduledAt: Json, given: Assigned): (t: Todo)
    ensures t.id == given.id && t.text == text && t.completed == given.completed && t.createdAt == given.createdAt
    ensures !Truthy(scheduledAt) ==> t.scheduledAt.None?
    ensures Truthy(scheduledAt) ==> t.scheduledAt == NewDate(scheduledAt)
  {
    Todo(given.id, text, if Truthy(scheduledAt) then NewDate(scheduledAt) else None, given.completed, given.createdAt)
  }

  predicate ValidText(body: Body) {
    body.text.JStr? && body.text.s != ""
  }

  predicate ValidSchedule(body: Body) {
    !Truthy(body.scheduledAt) || NewDate(body.scheduledAt).Some?
  }

  /** POST: the text guard, then the date guard, then one new record and 201. */
  function Post(store: seq<Todo>, body: Body, given: Assigned): (r: PostResult)
    ensures !ValidText(body) ==> r == PostResult(Response(400, ErrorBody("Text is required")), store)
    ensures (ValidText(body) && !ValidSchedule(body))
              ==> r == PostResult(Response(400, ErrorBody("Invalid date/time format")), store)
    ensures r.response.status == 201 <==> ValidText(body) && ValidSchedule(body)
    ensures r.response.status == 201 ==>
              var t := Created(body.text.s, body.scheduledAt, given);
              r.store == store + [t] && r.response.body == TodoBody(SerializeTodo(t))
    ensures r.response.status != 201 ==> r.store == store && r.response.status == 400
  {
    if !Truthy(body.text) || !body.text.JStr? then
      PostResult(Response(400, ErrorBody("Text is required")), store)
    else if Truthy(body.scheduledAt) && NewDate(body.scheduledAt).None? then
      PostResult(Response(400, ErrorBody("Invalid date/time format")), store)
    else
      var t := Created(body.text.s, body.scheduledAt, given);
      PostResult(Response(201, TodoBody(SerializeTodo(t))), store + [t])
  }

  /**
   * Every non-empty string passes the text guard, whitespace-only text
   * included, and is stored as sent: the API itself neither rejects nor trims
   * blank text.
   */
  lemma PostAcceptsWhitespace(store: seq<Todo>, s: string, given: Assigned)
    requires s != ""
    ensures var r := Post(store, Body(JStr(s), JNull), given);
            && r.response.status == 201
            && |r.store| == |store| + 1 && r.store[|store|].text == s
  {
  }

  lemma TwoPositions<T>(s: seq<T>, i: int, j: int)
    requires 0 <= i < j < |s| && s[i] == s[j]
    ensures multiset(s)[s[i]] >= 2
  {
    assert s == s[..i] + [s[i]] + s[i + 1..j] + [s[j]] + s[j + 1..];
  }

  /**
   * Create, then list: when the store assigns an id nobody has, the listing
   * holds exactly one record with it, and that record is the created one.
   */
  lemma CreateThenList(store: seq<Todo>, body: Body, given: Assigned)
    requires forall k :: 0 <= k < |store| ==> store[k].id != given.id
    requires ValidText(body) && ValidSchedule(body)
    ensures var t := Created(body.text.s, body.scheduledAt, given);
            var listed := StoreOrder(Post(store, body, given).store);
            && (exists i :: 0 <= i < |listed| && listed[i] == t)
            && (forall i :: 0 <= i < |listed| && listed[i].id == given.id ==> listed[i] == t)
            && (forall i, j :: (0 <= i < |listed| && 0 <= j < |listed| && listed[i].id == given.id
                                 && listed[j].id == given.id) ==> i == j)
  {
    var t := Created(body.text.s, body.scheduledAt, given);
    assert Post(store, body, given).store == store + [t];
    ListedOnce(store, t);
  }

  /** A record appended with a fresh id is listed exactly once, and only it carries that id. */
  lemma ListedOnce(store: seq<Todo>, t: Todo)
    requires forall k :: 0 <= k < |store| ==> store[k].id != t.id
    ensures var listed := StoreOrder(store + [t]);
            && (exists i :: 0 <= i < |listed| && listed[i] == t)
            && (forall i :: 0 <= i < |listed| && listed[i].id == t.id ==> listed[i] == t)
            && (forall i, j :: (0 <= i < |listed| && 0 <= j < |listed| && listed[i].id == t.id
                                 && listed[j].id == t.id) ==> i == j)
  {
    var s' := store + [t];
    var listed := StoreOrder(s');
    assert t !in store;
    assert t in multiset(listed);
    forall i | 0 <= i < |listed| && listed[i].id == t.id ensures listed[i] == t {
      assert listed[i] in multiset(s');
      assert listed[i] !in store;
    }
    forall i, j | 0 <= i < |listed| && 0 <= j < |listed| && listed[i].id == t.id && listed[j].id == t.id
      ensures i == j
    {
      if i < j {
        TwoPositions(listed, i, j);
      } else if j < i {
        TwoPositions(listed, j, i);
      }
    }
  }
}
