/**
 * `TodoItemService`: creating an item, the read operations, the status
 * filtered listing, and the client patch that moves an item between
 * NOT_DONE and DONE. Each operation is one atomic step on the repository.
 */
module Service {
  import opened Outcomes
  import opened Model
  import opened Entity
  import opened Mapper
  import opened Repository

  /** `TodoPatchDTO`: an optional new description and an optional status text. */
  datatype TodoPatch = TodoPatch(description: Option<string>, status: Option<string>)

  /** The boundary's `@Size(max = 1000)` on a patched description. */
  predicate ValidPatch(patch: TodoPatch) {
    patch.description.Some? ==> Utf16Length(patch.description.value) <= MaxDescriptionLength
  }

  /**
   * `convertToTodoStatus`: a status text is accepted exactly when it reads
   * "not done" or "done" in any ASCII case; unknown texts and "past due" are
   * both invalid statuses.
   */
  function ConvertToTodoStatus(text: string): (r: Result<TodoStatus>)
    ensures r.Ok? <==> LowerAscii(text) == "not done" || LowerAscii(text) == "done"
    ensures r.Ok? ==> DisplayName(r.value) == LowerAscii(text) && r.value != PastDue
    ensures r.Err? ==> r.error.InvalidStatus?
  {
    LowerAsciiIdempotent(text);
    assert DisplayName(NotDone) == "not done" && DisplayName(Done) == "done";
    match From(Some(LowerAscii(text)))
    case Err(e) => Err(e)
    case Ok(s) =>
      if !IsUpdatableStatus(s) then Err(InvalidStatus(Some(text))) else Ok(s)
  }

  /**
   * `updateTodoFields`, validated before anything is written: a past due
   * item is locked whatever the patch holds; otherwise an absent field is
   * left as it was, a present description replaces the old one, and a
   * present status must convert, becomes the new status, and stamps the
   * done time with now when it is DONE. Id, creation and due never change,
   * and the result is never PAST_DUE.
   */
  function UpdateTodoFields(item: TodoItem, patch: TodoPatch, now: int): (r: Result<TodoItem>)
    ensures item.status == PastDue ==> r == Err(Locked)
    ensures r.Ok? <==>
      item.status != PastDue && (patch.status.None? || ConvertToTodoStatus(patch.status.value).Ok?)
    ensures r.Err? ==> r.error == Locked || r.error.InvalidStatus?
    ensures r.Ok? ==> r.value.status != PastDue
    ensures r.Ok? ==> r.value.id == item.id && r.value.creation == item.creation && r.value.due == item.due
    ensures r.Ok? ==> r.value.description == patch.description.GetOr(item.description)
  {
    if item.status == PastDue then Err(Locked)
    else
      var described := item.(description := patch.description.GetOr(item.description));
      match patch.status
      case None => Ok(described)
      case Some(text) =>
        match ConvertToTodoStatus(text)
        case Err(e) => Err(e)
        case Ok(s) =>
          Ok(described.(status := s, done := if s == Done then Some(now) else item.done))
  }

  /** A patch without a status only touches the description; an empty patch changes nothing. */
  lemma PatchWithoutStatus(item: TodoItem, patch: TodoPatch, now: int)
    requires item.status != PastDue && patch.status.None?
    ensures UpdateTodoFields(item, patch, now) ==
      Ok(item.(description := patch.description.GetOr(item.description)))
    ensures patch.description.None? ==> UpdateTodoFields(item, patch, now) == Ok(item)
  {
  }

  /** "done" in any case sets DONE and stamps the done time with now, even on an item already DONE. */
  lemma PatchToDoneStampsNow(item: TodoItem, patch: TodoPatch, now: int)
    requires item.status != PastDue && patch.status.Some? && LowerAscii(patch.status.value) == "done"
    ensures UpdateTodoFields(item, patch, now) ==
      Ok(item.(description := patch.description.GetOr(item.description), status := Done, done := Some(now)))
  {
    assert ConvertToTodoStatus(patch.status.value) == Ok(Done);
  }

  /** "not done" in any case sets NOT_DONE and leaves an earlier done time as it was. */
  lemma PatchToNotDoneKeepsDoneTime(item: TodoItem, patch: TodoPatch, now: int)
    requires item.status != PastDue && patch.status.Some? && LowerAscii(patch.status.value) == "not done"
    ensures UpdateTodoFields(item, patch, now) ==
      Ok(item.(description := patch.description.GetOr(item.description), status := NotDone))
  {
    assert ConvertToTodoStatus(patch.status.value) == Ok(NotDone);
  }

  /** Any other status text, "past due" included, is an invalid status. */
  lemma PatchWithInvalidStatus(item: TodoItem, patch: TodoPatch, now: int)
    requires item.status != PastDue && patch.status.Some?
    requires LowerAscii(patch.status.value) != "done" && LowerAscii(patch.status.value) != "not done"
    ensures UpdateTodoFields(item, patch, now).Err?
    ensures UpdateTodoFields(item, patch, now).error.InvalidStatus?
    ensures LowerAscii(patch.status.value) == "past due" ==>
      UpdateTodoFields(item, patch, now) == Err(InvalidStatus(patch.status))
  {
    if LowerAscii(patch.status.value) == "past due" {
      LowerAsciiIdempotent(patch.status.value);
      FromDisplayName(PastDue);
    }
  }

  /** Whether a listing for status `s` at time `now` includes `x`. */
  predicate Selects(x: TodoItem, s: TodoStatus, now: int) {
    if s == NotDone then ActiveNotDone(x, now) else x.status == s
  }

  /** Responses are newest first and no item is listed twice. */
  predicate OrderedOnce(r: seq<TodoResponse>) {
    forall i, j :: 0 <= i < j < |r| ==> r[i].creation >= r[j].creation && r[i].id != r[j].id
  }

  /** Every response is the mapped form of a stored item that `keep` accepts. */
  ghost predicate OnlyAccepted(repo: TodoItemRepository, r: seq<TodoResponse>, keep: TodoItem -> bool)
    reads repo
  {
    forall i :: 0 <= i < |r| ==>
      r[i].id.Some? && r[i].id.value in repo.items && keep(repo.items[r[i].id.value]) &&
      r[i] == ToResponse(repo.items[r[i].id.value])
  }

  /** Every stored item that `keep` accepts is listed. */
  ghost predicate AllAccepted(repo: TodoItemRepository, r: seq<TodoResponse>, keep: TodoItem -> bool)
    reads repo
  {
    forall k :: k in repo.items && keep(repo.items[k]) ==> exists i :: 0 <= i < |r| && r[i].id == Some(k)
  }

  /**
   * A response list shows each stored item that `keep` accepts exactly once,
   * as its mapped response, and nothing else, newest first.
   */
  ghost predicate ListsExactly(repo: TodoItemRepository, r: seq<TodoResponse>, keep: TodoItem -> bool)
    reads repo
  {
    OrderedOnce(r) && OnlyAccepted(repo, r, keep) && AllAccepted(repo, r, keep)
  }

  /** Two equal entries at different positions are counted at least twice. */
  lemma RepeatedEntry(s: seq<TodoItem>, i: int, j: int)
    requires 0 <= i < j < |s| && s[i] == s[j]
    ensures multiset(s)[s[i]] >= 2
  {
    assert s == s[..j] + s[j..];
    assert s[i] in s[..j];
    assert s[j] in s[j..];
  }

  /** Each row of a query result is a stored item that `keep` accepts. */
  lemma RowAccepted(repo: TodoItemRepository, rows: seq<TodoItem>, keep: TodoItem -> bool, i: int)
    requires repo.Valid() && 0 <= i < |rows|
    requires forall x :: multiset(rows)[x] == if StoredIn(repo.items, x) && keep(x) then 1 else 0
    ensures StoredIn(repo.items, rows[i]) && keep(rows[i])
  {
    assert rows[i] in multiset(rows);
  }

  /** The mapped rows of a query result are each the response of a stored item that `keep` accepts. */
  lemma ResponsesOnlyAccepted(repo: TodoItemRepository, rows: seq<TodoItem>, keep: TodoItem -> bool)
    requires repo.Valid()
    requires forall x :: multiset(rows)[x] == if StoredIn(repo.items, x) && keep(x) then 1 else 0
    ensures OnlyAccepted(repo, ToResponses(rows), keep)
  {
    var r := ToResponses(rows);
    forall i | 0 <= i < |r|
      ensures r[i].id.Some? && r[i].id.value in repo.items && keep(repo.items[r[i].id.value])
      ensures r[i] == ToResponse(repo.items[r[i].id.value])
    {
      RowAccepted(repo, rows, keep, i);
    }
  }

  /** The mapped rows of a newest-first query result that holds each item once are newest first, with no id twice. */
  lemma ResponsesOrderedOnce(repo: TodoItemRepository, rows: seq<TodoItem>, keep: TodoItem -> bool)
    requires repo.Valid() && NewestFirst(rows)
    requires forall x :: multiset(rows)[x] == if StoredIn(repo.items, x) && keep(x) then 1 else 0
    ensures OrderedOnce(ToResponses(rows))
  {
    var r := ToResponses(rows);
    forall i, j | 0 <= i < j < |r|
      ensures r[i].creation >= r[j].creation && r[i].id != r[j].id
    {
      RowAccepted(repo, rows, keep, i);
      RowAccepted(repo, rows, keep, j);
      if rows[i].id == rows[j].id {
        RepeatedEntry(rows, i, j);
      }
    }
  }

  /** Every stored item that `keep` accepts shows up among the mapped rows of a query result. */
  lemma ResponsesAllAccepted(repo: TodoItemRepository, rows: seq<TodoItem>, keep: TodoItem -> bool)
    requires repo.Valid()
    requires forall x :: multiset(rows)[x] == if StoredIn(repo.items, x) && keep(x) then 1 else 0
    ensures AllAccepted(repo, ToResponses(rows), keep)
  {
    var r := ToResponses(rows);
    forall k | k in repo.items && keep(repo.items[k])
      ensures exists i :: 0 <= i < |r| && r[i].id == Some(k)
    {
      var x := repo.items[k];
      assert multiset(rows)[x] == 1;
      var i :| 0 <= i < |rows| && rows[i] == x;
      assert r[i].id == Some(k);
    }
  }

  /** A newest-first query result holding each accepted stored item once maps to a list that `ListsExactly`. */
  lemma ResponsesListExactly(repo: TodoItemRepository, rows: seq<TodoItem>, keep: TodoItem -> bool)
    requires repo.Valid() && NewestFirst(rows)
    requires forall x :: multiset(rows)[x] == if StoredIn(repo.items, x) && keep(x) then 1 else 0
    ensures ListsExactly(repo, ToResponses(rows), keep)
  {
    ResponsesOrderedOnce(repo, rows, keep);
    ResponsesOnlyAccepted(repo, rows, keep);
    ResponsesAllAccepted(repo, rows, keep);
  }

  /**
   * `createTodoItem`: stores a new NOT_DONE item under a fresh id, created
   * now, with no done time and the requested description and due time, and
   * returns its response.
   */
  method CreateTodoItem(repo: TodoItemRepository, request: TodoRequest, now: int) returns (response: TodoResponse)
    requires repo.Valid() && ValidDescription(request.description)
    modifies repo
    ensures repo.Valid()
    ensures old(repo.nextId) !in old(repo.items)
    ensures repo.items == old(repo.items)[old(repo.nextId) := ToEntity(request, now).(id := Some(old(repo.nextId)))]
    ensures response == ToResponse(repo.items[old(repo.nextId)])
    ensures response.id == Some(old(repo.nextId)) && response.status == Some("not done")
    ensures response.creation == now && response.done.None?
    ensures response.description == request.description && response.due == request.due
  {
    var entity := ToEntity(request, now);
    NewTodoItemIsWellFormed(request.description, request.due, now);
    var saved := repo.Save(entity);
    response := ToResponse(saved);
  }

  /** `getAllTodoItems`: every stored item exactly once, newest first. */
  function GetAllTodoItems(repo: TodoItemRepository): (r: seq<TodoResponse>)
    reads repo
    requires repo.Valid()
    ensures ListsExactly(repo, r, (x: TodoItem) => true)
  {
    var rows := repo.FindAllByOrderByCreationDatetimeDesc();
    ResponsesListExactly(repo, rows, (x: TodoItem) => true);
    ToResponses(rows)
  }

  /** `getTodoItemById`: the response of the item stored under `id`, or empty for an unknown id. */
  function GetTodoItemById(repo: TodoItemRepository, id: int): (r: Option<TodoResponse>)
    reads repo
    requires repo.Valid()
    ensures r.None? <==> id !in repo.items
    ensures r.Some? ==> r.value.id == Some(id) && r.value == ToResponse(repo.items[id])
  {
    ToResponseDto(repo.FindById(id))
  }

  /**
   * `getTodoItemsByStatus`: an unparseable text is an invalid status; "not
   * done" lists the NOT_DONE items with no due time or one after now, and
   * "done" or "past due" the items stored with that status, newest first.
   */
  function GetTodoItemsByStatus(repo: TodoItemRepository, text: Option<string>, now: int): (r: Result<seq<TodoResponse>>)
    reads repo
    requires repo.Valid()
    ensures r.Err? <==> From(text).Err?
    ensures r.Err? ==> r.error == InvalidStatus(text)
    ensures r.Ok? ==> ListsExactly(repo, r.value, (x: TodoItem) => Selects(x, From(text).value, now))
  {
    match From(text)
    case Err(e) => Err(e)
    case Ok(s) =>
      var rows :=
        if s == NotDone then repo.FindNotDoneItems(now)
        else repo.FindByStatusOrderByCreationDatetimeDesc(s);
      ResponsesListExactly(repo, rows, (x: TodoItem) => Selects(x, s, now));
      Ok(ToResponses(rows))
  }

  /**
   * `patchTodo`: an unknown id is not found; otherwise the patch is applied
   * by `UpdateTodoFields` and saved only when it succeeds, so a rejected
   * patch writes nothing. No patch creates, changes or leaves a PAST_DUE item.
   */
  method PatchTodo(repo: TodoItemRepository, id: int, patch: TodoPatch, now: int) returns (r: Result<TodoResponse>)
    requires repo.Valid() && ValidPatch(patch)
    modifies repo
    ensures repo.Valid() && repo.nextId == old(repo.nextId)
    ensures id !in old(repo.items) ==> r == Err(NotFound)
    ensures id in old(repo.items) ==>
      match UpdateTodoFields(old(repo.items)[id], patch, now)
      case Err(e) => r == Err(e)
      case Ok(u) => r == Ok(ToResponse(u)) && repo.items == old(repo.items)[id := u]
    ensures r.Err? ==> repo.items == old(repo.items)
    ensures forall k :: k in old(repo.items) && old(repo.items)[k].status == PastDue ==>
      k in repo.items && repo.items[k] == old(repo.items)[k]
    ensures forall k :: k in repo.items && repo.items[k].status == PastDue ==>
      k in old(repo.items) && old(repo.items)[k] == repo.items[k]
  {
    var found := repo.FindById(id);
    if found.None? {
      return Err(NotFound);
    }
    var updated := UpdateTodoFields(found.value, patch, now);
    if updated.Err? {
      return Err(updated.error);
    }
    var saved := repo.Save(updated.value);
    r := Ok(ToResponse(saved));
  }
}
