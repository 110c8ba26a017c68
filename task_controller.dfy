/** The task handlers. Every handler runs behind the bearer-token gate and
    receives the authenticated user's id as `caller`; every read and write is
    scoped by it. Listing and the lookup by id only read the table and are
    functions of it; creating, updating and deleting change the table in
    place and are methods of `TaskStore`. */
module TaskController {
  import opened Wrappers
  import opened Http
  import opened Text
  import opened ObjectIds
  import opened TaskModel
  import opened TaskTable

  const TitleAndDescriptionRequired: string := "Title and description are required"
  const TaskCreated: string := "Task created successfully"
  const CreateFailed: string := "Failed to create task"
  const FetchTasksFailed: string := "Failed to fetch tasks"
  const InvalidTaskId: string := "Invalid task ID"
  const TaskNotFound: string := "Task not found"
  const TaskUpdated: string := "Task updated successfully"
  const UpdateFailed: string := "Failed to update task"
  const TaskDeleted: string := "Task deleted successfully"

  const DefaultPage: int := 1
  const DefaultLimit: int := 10

  // ---------------------------------------------------------------------
  // Listing

  /** The list query string: page and limit (numeric), status and search. */
  datatype ListQuery = ListQuery(page: Option<int>, limit: Option<int>, status: Option<string>, search: Option<string>)

  /** The list response's `data` and `pagination.current`. The count of all
      matching tasks is computed by the handler but never sent. */
  datatype TaskPage = TaskPage(tasks: seq<Task>, current: int)

  function PageOf(q: ListQuery): int { q.page.GetOr(DefaultPage) }
  function LimitOf(q: ListQuery): int { q.limit.GetOr(DefaultLimit) }

  /** `(page - 1) * limit`. */
  function SkipOf(q: ListQuery): int { (PageOf(q) - 1) * LimitOf(q) }

  /** The cursor limit: 0 means no limit, a negative limit returns as many
      tasks as its absolute value. */
  function TakeOf(q: ListQuery): Option<nat> {
    var limit := LimitOf(q);
    if limit == 0 then None else if limit < 0 then Some(-limit) else Some(limit)
  }

  function FilterOf(q: ListQuery): Filter { Filter(q.status, q.search) }

  /** Every task of `caller` the query selects, newest first. */
  function Ranked(table: seq<Task>, caller: string, q: ListQuery): seq<Task> {
    SortNewestFirst(Matching(table, caller, FilterOf(q)))
  }

  /** `getTasks`: select the caller's tasks with the status and search
      filters, sort newest first, skip `(page - 1) * limit`, keep at most
      `limit`. A negative skip is refused by the database, which the handler
      reports as a 500. */
  function GetTasks(table: seq<Task>, caller: string, q: ListQuery): Reply<TaskPage> {
    var skip := SkipOf(q);
    if skip < 0 then Failure(INTERNAL_SERVER_ERROR, FetchTasksFailed)
    else Success(OK, None, TaskPage(Window(Ranked(table, caller, q), skip, TakeOf(q)), PageOf(q)))
  }

  /** Every listed task belongs to the caller, has the requested status when
      one is given, and contains the search text in its title or description
      (ignoring case) when one is given; the list is newest first, holds at
      most `limit` tasks when `limit` is positive, and reports the requested
      page. The listing fails exactly when the skip would be negative. */
  lemma GetTasksSound(table: seq<Task>, caller: string, q: ListQuery)
    ensures GetTasks(table, caller, q).Failure? <==> SkipOf(q) < 0
    ensures GetTasks(table, caller, q).Failure? ==>
      GetTasks(table, caller, q) == Failure(INTERNAL_SERVER_ERROR, FetchTasksFailed)
    ensures GetTasks(table, caller, q).Success? ==>
      var page := GetTasks(table, caller, q).data;
      && GetTasks(table, caller, q).code == OK
      && page.current == PageOf(q)
      && NewestFirst(page.tasks)
      && (LimitOf(q) > 0 ==> |page.tasks| <= LimitOf(q))
      && (LimitOf(q) < 0 ==> |page.tasks| <= -LimitOf(q))
      && forall t | t in page.tasks ::
           && t in table
           && t.owner == caller
           && (Given(q.status) ==> t.status == q.status.value)
           && (Given(q.search) ==>
                 Text.ContainsIgnoringCase(t.title, q.search.value)
                 || Text.ContainsIgnoringCase(t.description, q.search.value))
  {
    var r := GetTasks(table, caller, q);
    if r.Success? {
      var ranked := Ranked(table, caller, q);
      var matching := Matching(table, caller, FilterOf(q));
      WindowKeepsOrder(ranked, SkipOf(q), TakeOf(q));
      forall t | t in r.data.tasks ensures t in table && Matches(t, caller, FilterOf(q)) {
        var k :| 0 <= k < |r.data.tasks| && r.data.tasks[k] == t;
        assert t == ranked[SkipOf(q) + k];
        assert t in multiset(ranked);
        assert t in multiset(matching);
      }
    }
  }

  /** The listed page is the run of the caller's matching tasks ranked
      `skip + 1`, `skip + 2`, … by creation time, newest first: a full page
      of `limit` tasks when enough remain, otherwise every remaining one. */
  lemma GetTasksIsPageOfRanking(table: seq<Task>, caller: string, q: ListQuery)
    requires SkipOf(q) >= 0
    ensures var page := GetTasks(table, caller, q).data.tasks;
      var ranked := Ranked(table, caller, q);
      var skip := SkipOf(q);
      && (forall k | 0 <= k < |page| :: page[k] == ranked[skip + k])
      && (skip < |ranked| && LimitOf(q) > 0 && skip + LimitOf(q) <= |ranked| ==> |page| == LimitOf(q))
      && (skip < |ranked| && (LimitOf(q) == 0 || (LimitOf(q) > 0 && skip + LimitOf(q) >= |ranked|)) ==>
            |page| == |ranked| - skip)
      && (skip >= |ranked| ==> page == [])
  {
  }

  /** With 10 tasks per page, page 2 is exactly the tasks ranked 11 to 20. */
  lemma SecondPageOfTen(table: seq<Task>, caller: string, q: ListQuery)
    requires q.page == Some(2) && q.limit == Some(10)
    requires |Ranked(table, caller, q)| >= 20
    ensures GetTasks(table, caller, q) == Success(OK, None, TaskPage(Ranked(table, caller, q)[10..20], 2))
  {
    var ranked := Ranked(table, caller, q);
    assert SkipOf(q) == 10 && TakeOf(q) == Some(10);
    var page := GetTasks(table, caller, q).data.tasks;
    assert page == Window(ranked, 10, Some(10));
    assert page == ranked[10..20];
  }

  /** Ownership isolation of listing: the caller gets the same response from
      the whole table as from the caller's own tasks alone, so nobody else's
      tasks can influence it. */
  lemma GetTasksIsolated(table: seq<Task>, caller: string, q: ListQuery)
    ensures GetTasks(table, caller, q) == GetTasks(OwnedBy(table, caller), caller, q)
  {
    MatchingIsolated(table, caller, FilterOf(q));
  }

  // ---------------------------------------------------------------------
  // Lookup by id

  /** `getTaskById`: a malformed id is rejected before any lookup; otherwise
      the task with that id owned by the caller, or "not found". */
  function GetTaskById(table: seq<Task>, caller: string, id: string): Reply<Task> {
    if !IsValidId(id) then Failure(BAD_REQUEST, InvalidTaskId)
    else match FindOwned(table, caller, Canonical(id))
      case None => Failure(NOT_FOUND, TaskNotFound)
      case Some(i) => Success(OK, None, table[i])
  }

  /** A found task is one of the caller's, with the id asked for; a 404 means
      the caller owns no task with that id; a 400 means the id is malformed. */
  lemma GetTaskByIdSound(table: seq<Task>, caller: string, id: string)
    ensures GetTaskById(table, caller, id).Success? ==>
      var t := GetTaskById(table, caller, id).data;
      IsValidId(id) && t in table && t.owner == caller && t.id == Canonical(id)
    ensures GetTaskById(table, caller, id) == Failure(BAD_REQUEST, InvalidTaskId) <==> !IsValidId(id)
    ensures GetTaskById(table, caller, id) == Failure(NOT_FOUND, TaskNotFound) <==>
      IsValidId(id) && forall t | t in table :: !(t.id == Canonical(id) && t.owner == caller)
  {
  }

  /** Ownership isolation of the lookup: the response depends only on the
      caller's own tasks. */
  lemma GetTaskByIdIsolated(table: seq<Task>, caller: string, id: string)
    ensures GetTaskById(table, caller, id) == GetTaskById(OwnedBy(table, caller), caller, id)
  {
    if IsValidId(id) {
      FindOwnedIsolated(table, caller, Canonical(id));
    }
  }

  /** Asking for another user's task gives exactly the response for an id
      that does not exist at all. */
  lemma ForeignTaskLooksMissing(table: seq<Task>, i: nat, caller: string, id: string)
    requires UniqueIds(table) && i < |table|
    requires table[i].owner != caller && IsValidId(id) && table[i].id == Canonical(id)
    ensures GetTaskById(table, caller, id) == GetTaskById([], caller, id) == Failure(NOT_FOUND, TaskNotFound)
  {
    ForeignIdNotFound(table, i, caller);
  }

  // ---------------------------------------------------------------------
  // Creating, updating and deleting

  /** The document the create handler hands to the schema: the body's title
      and description, its status or `pending` when it has none (or an empty
      one), and the caller as owner. */
  function CreateDraft(body: TaskBody, caller: string): TaskDraft {
    TaskDraft(body.title, body.description,
              Some(if Given(body.status) then body.status.value else Pending),
              Some(caller))
  }

  /** A created task belongs to the caller; its status is `pending` when the
      body has no status or an empty one, and the body's status otherwise;
      a status outside the enum makes creation fail. */
  lemma CreateDraftOwnerAndStatus(body: TaskBody, caller: string)
    ensures Cast(CreateDraft(body, caller)).Ok? ==>
      && Cast(CreateDraft(body, caller)).value.owner == caller
      && Cast(CreateDraft(body, caller)).value.status ==
           (if Given(body.status) then body.status.value else Pending)
    ensures Given(body.status) && body.status.value !in Statuses ==> Cast(CreateDraft(body, caller)).Err?
  {
    var d := CreateDraft(body, caller);
    if Cast(d).Ok? {
      CastDefaultsAndTrims(d);
    }
    if Given(body.status) && body.status.value !in Statuses {
      CastAcceptsExactly(d);
    }
  }

  /** The table invariant: every task satisfies the schema, has a stored-form
      id and a creation time below the clock; ids are unique and creation
      times strictly increase along the table. */
  predicate WellFormedTable(table: seq<Task>, clock: nat) {
    && (forall i | 0 <= i < |table| ::
          ValidTask(table[i]) && IsCanonical(table[i].id) && table[i].createdAt < clock)
    && (forall i, j | 0 <= i < j < |table| ::
          table[i].id != table[j].id && table[i].createdAt < table[j].createdAt)
  }

  /** Removing one task keeps the table well formed. */
  lemma RemovePreservesWellFormed(table: seq<Task>, clock: nat, i: nat)
    requires WellFormedTable(table, clock) && i < |table|
    ensures WellFormedTable(table[..i] + table[i + 1..], clock)
  {
    var r := table[..i] + table[i + 1..];
    forall a, b | 0 <= a < b < |r| ensures r[a].id != r[b].id && r[a].createdAt < r[b].createdAt {
      var a' := if a < i then a else a + 1;
      var b' := if b < i then b else b + 1;
      assert r[a] == table[a'] && r[b] == table[b'];
    }
    forall a | 0 <= a < |r| ensures ValidTask(r[a]) && IsCanonical(r[a].id) && r[a].createdAt < clock {
      assert r[a] == table[if a < i then a else a + 1];
    }
  }

  /** Appending a valid task with a fresh stored-form id, stamped with the
      clock, keeps the table well formed once the clock has advanced. */
  lemma AppendPreservesWellFormed(table: seq<Task>, clock: nat, t: Task)
    requires WellFormedTable(table, clock)
    requires ValidTask(t) && IsCanonical(t.id) && t.createdAt == clock
    requires forall i | 0 <= i < |table| :: table[i].id != t.id
    ensures WellFormedTable(table + [t], clock + 1)
  {
    var r := table + [t];
    forall a, b | 0 <= a < b < |r| ensures r[a].id != r[b].id && r[a].createdAt < r[b].createdAt {
      assert r[a] == table[a];
    }
    forall a | 0 <= a < |r| ensures ValidTask(r[a]) && IsCanonical(r[a].id) && r[a].createdAt < clock + 1 {
      if a < |table| {
        assert r[a] == table[a];
      }
    }
  }

  /** The tasks collection: the table and the clock that stamps creation times. */
  class TaskStore {
    var tasks: seq<Task>
    var clock: nat

    ghost predicate Valid()
      reads this
    {
      WellFormedTable(tasks, clock)
    }

    constructor ()
      ensures Valid() && tasks == []
    {
      tasks := [];
      clock := 0;
    }

    /** `createTask`: a missing or empty title or description is a 400 and
        stores nothing; a document the schema rejects is a 500 and stores
        nothing; otherwise the cast task, owned by the caller, with the id the
        database assigns and the current clock as creation time, is appended. */
    method CreateTask(caller: string, body: TaskBody, newId: string) returns (r: Reply<Task>)
      requires Valid()
      requires IsCanonical(newId) && forall i | 0 <= i < |tasks| :: tasks[i].id != newId
      modifies this
      ensures Valid()
      ensures !Given(body.title) || !Given(body.description) ==>
        r == Failure(BAD_REQUEST, TitleAndDescriptionRequired) && tasks == old(tasks) && clock == old(clock)
      ensures Given(body.title) && Given(body.description) && Cast(CreateDraft(body, caller)).Err? ==>
        r == Failure(INTERNAL_SERVER_ERROR, CreateFailed) && tasks == old(tasks) && clock == old(clock)
      ensures Given(body.title) && Given(body.description) && Cast(CreateDraft(body, caller)).Ok? ==>
        var f := Cast(CreateDraft(body, caller)).value;
        var t := Task(newId, caller, f.title, f.description, f.status, old(clock));
        && r == Success(CREATED, Some(TaskCreated), t) && tasks == old(tasks) + [t]
        && clock == old(clock) + 1
      ensures forall u | u != caller :: OwnedBy(tasks, u) == OwnedBy(old(tasks), u)
    {
      if !Given(body.title) || !Given(body.description) {
        return Failure(BAD_REQUEST, TitleAndDescriptionRequired);
      }
      var cast := Cast(CreateDraft(body, caller));
      if cast.Err? {
        return Failure(INTERNAL_SERVER_ERROR, CreateFailed);
      }
      var f := cast.value;
      var t := Task(newId, f.owner, f.title, f.description, f.status, clock);
      OwnedByAppendForeign(tasks, t);
      AppendPreservesWellFormed(tasks, clock, t);
      tasks := tasks + [t];
      clock := clock + 1;
      r := Success(CREATED, Some(TaskCreated), t);
    }

    /** `updateTask`: a malformed id is a 400 and a rejected update a 500,
        both before any lookup; then the caller's task with that id, if any,
        is replaced by its updated version and returned, and no other task
        changes; without such a task the response is 404. */
    method UpdateTask(caller: string, id: string, body: TaskBody) returns (r: Reply<Task>)
      requires Valid()
      modifies this
      ensures Valid() && clock == old(clock)
      ensures !IsValidId(id) ==> r == Failure(BAD_REQUEST, InvalidTaskId) && tasks == old(tasks)
      ensures IsValidId(id) && PatchViolations(body) != {} ==>
        r == Failure(INTERNAL_SERVER_ERROR, UpdateFailed) && tasks == old(tasks)
      ensures IsValidId(id) && PatchViolations(body) == {} ==>
        match FindOwned(old(tasks), caller, Canonical(id))
        case None => r == Failure(NOT_FOUND, TaskNotFound) && tasks == old(tasks)
        case Some(i) =>
          && r == Success(OK, Some(TaskUpdated), Patched(old(tasks)[i], body))
          && tasks == old(tasks)[i := Patched(old(tasks)[i], body)]
      ensures forall u | u != caller :: OwnedBy(tasks, u) == OwnedBy(old(tasks), u)
    {
      if !IsValidId(id) {
        return Failure(BAD_REQUEST, InvalidTaskId);
      }
      if PatchViolations(body) != {} {
        return Failure(INTERNAL_SERVER_ERROR, UpdateFailed);
      }
      var found := FindOwned(tasks, caller, Canonical(id));
      if found.None? {
        return Failure(NOT_FOUND, TaskNotFound);
      }
      var i := found.value;
      var t := Patched(tasks[i], body);
      OwnedByReplaceForeign(tasks, i, t);
      tasks := tasks[i := t];
      r := Success(OK, Some(TaskUpdated), t);
    }

    /** `deleteTask`: a malformed id is a 400; then the caller's task with
        that id, if any, is removed and nothing else; without such a task the
        response is 404. */
    method DeleteTask(caller: string, id: string) returns (r: Reply<()>)
      requires Valid()
      modifies this
      ensures Valid() && clock == old(clock)
      ensures !IsValidId(id) ==> r == Failure(BAD_REQUEST, InvalidTaskId) && tasks == old(tasks)
      ensures IsValidId(id) ==>
        match FindOwned(old(tasks), caller, Canonical(id))
        case None => r == Failure(NOT_FOUND, TaskNotFound) && tasks == old(tasks)
        case Some(i) =>
          && r == Success(OK, Some(TaskDeleted), ())
          && tasks == old(tasks)[..i] + old(tasks)[i + 1..]
          && multiset(tasks) == multiset(old(tasks)) - multiset{old(tasks)[i]}
          && old(tasks)[i] !in tasks
      ensures forall u | u != caller :: OwnedBy(tasks, u) == OwnedBy(old(tasks), u)
    {
      if !IsValidId(id) {
        return Failure(BAD_REQUEST, InvalidTaskId);
      }
      var found := FindOwned(tasks, caller, Canonical(id));
      if found.None? {
        return Failure(NOT_FOUND, TaskNotFound);
      }
      var i := found.value;
      var rest := tasks[..i] + tasks[i + 1..];
      OwnedByRemoveForeign(tasks, i);
      RemovePreservesWellFormed(tasks, clock, i);
      RemoveAt(tasks, i);
      tasks := rest;
      r := Success(OK, Some(TaskDeleted), ());
    }

    /** Create, then look up: a created task is found by its id, with the
        body's title and description trimmed and status `pending` when the
        body has none. */
    method CreatedTaskIsFound(caller: string, body: TaskBody, newId: string)
      returns (created: Reply<Task>, found: Reply<Task>)
      requires Valid()
      requires IsCanonical(newId) && forall i | 0 <= i < |tasks| :: tasks[i].id != newId
      modifies this
      ensures Valid()
      ensures created.Success? ==>
        && Given(body.title) && Given(body.description)
        && found == Success(OK, None, created.data)
        && found.data.owner == caller
        && found.data.title == Trim(body.title.value)
        && found.data.description == Trim(body.description.value)
        && found.data.status == (if Given(body.status) then body.status.value else Pending)
    {
      created := CreateTask(caller, body, newId);
      found := GetTaskById(tasks, caller, newId);
      if created.Success? {
        var d := CreateDraft(body, caller);
        CastDefaultsAndTrims(d);
        CreateDraftOwnerAndStatus(body, caller);
        CanonicalOfCanonical(newId);
        var t := created.data;
        assert tasks[|tasks| - 1] == t;
        GetTaskByIdSound(tasks, caller, newId);
        assert found.Success?;
        assert found.data == t;
      }
    }

    /** Writing to another user's task: the update (once its fields pass the
        validators) and the delete answer 404, exactly as for an id nobody
        has, and the table is left as it was. */
    method ForeignWriteLooksMissing(caller: string, id: string, body: TaskBody, i: nat)
      returns (updated: Reply<Task>, deleted: Reply<()>)
      requires Valid()
      requires IsValidId(id) && i < |tasks| && tasks[i].id == Canonical(id) && tasks[i].owner != caller
      modifies this
      ensures Valid() && tasks == old(tasks) && clock == old(clock)
      ensures updated == if PatchViolations(body) == {} then Failure(NOT_FOUND, TaskNotFound)
                         else Failure(INTERNAL_SERVER_ERROR, UpdateFailed)
      ensures deleted == Failure(NOT_FOUND, TaskNotFound)
    {
      ForeignIdNotFound(tasks, i, caller);
      updated := UpdateTask(caller, id, body);
      deleted := DeleteTask(caller, id);
    }
  }
}
