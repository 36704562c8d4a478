/**
 * `TodoItemMapper`: building an entity from a creation request, and the
 * field-by-field copy of an entity into its response form, which shows the
 * status by its display name. `null` inputs map to `null` outputs.
 */
module Mapper {
  import opened Outcomes
  import opened Model
  import opened Entity

  /** `TodoRequestDTO`: a creation request. */
  datatype TodoRequest = TodoRequest(description: string, due: Option<int>)

  /** `TodoResponseDTO`: what clients see of an item. */
  datatype TodoResponse = TodoResponse(
    id: Option<int>,
    description: string,
    status: Option<string>,
    creation: int,
    due: Option<int>,
    done: Option<int>)

  /**
   * `toEntity`: no id, status NOT_DONE, created now, no done time; the
   * description and the (possibly absent) due time are copied. This is the
   * entity's own two-argument constructor.
   */
  function ToEntity(request: TodoRequest, now: int): (item: TodoItem)
    ensures item == NewTodoItem(request.description, request.due, now)
  {
    TodoItem(None, request.description, NotDone, now, request.due, None)
  }

  /** `mapStatus`: the display name of a status, `null` for `null`; it parses back. */
  function MapStatus(status: Option<TodoStatus>): (r: Option<string>)
    ensures r.None? <==> status.None?
    ensures status.Some? ==> r == Some(DisplayName(status.value))
    ensures status.Some? ==> From(r) == Ok(status.value)
  {
    match status
    case None => None
    case Some(s) => FromDisplayName(s); Some(DisplayName(s))
  }

  /** The mapping of a present entity: every field copied, the status shown by name. */
  function ToResponse(item: TodoItem): (r: TodoResponse)
    ensures r.id == item.id && r.description == item.description
    ensures r.creation == item.creation && r.due == item.due && r.done == item.done
    ensures r.status == Some(DisplayName(item.status)) && From(r.status) == Ok(item.status)
  {
    TodoResponse(item.id, item.description, MapStatus(Some(item.status)),
                 item.creation, item.due, item.done)
  }

  /**
   * `toResponseDTO`: `null` stays `null`; otherwise the id, description and
   * all three timestamps are copied unchanged and the status is the
   * display name of the entity's status.
   */
  function ToResponseDto(item: Option<TodoItem>): (r: Option<TodoResponse>)
    ensures r.None? <==> item.None?
    ensures item.Some? ==>
      r.value.id == item.value.id && r.value.description == item.value.description &&
      r.value.creation == item.value.creation && r.value.due == item.value.due &&
      r.value.done == item.value.done && r.value.status == Some(DisplayName(item.value.status))
  {
    match item
    case None => None
    case Some(e) => Some(ToResponse(e))
  }

  /** The element-wise mapping of a list, `null` entries kept as `null`. */
  function MapEach(items: seq<Option<TodoItem>>): (r: seq<Option<TodoResponse>>)
    ensures |r| == |items|
    ensures forall i :: 0 <= i < |items| ==> r[i] == ToResponseDto(items[i])
  {
    if items == [] then [] else [ToResponseDto(items[0])] + MapEach(items[1..])
  }

  /**
   * `toResponseDTOList`: `null` for a `null` list; otherwise a list of the
   * same length and order, each entry mapped by `toResponseDTO`, so that
   * `null` entries stay `null`.
   */
  function ToResponseDtoList(items: Option<seq<Option<TodoItem>>>): (r: Option<seq<Option<TodoResponse>>>)
    ensures r.None? <==> items.None?
    ensures items.Some? ==> |r.value| == |items.value|
    ensures items.Some? ==> forall i :: 0 <= i < |items.value| ==>
      (r.value[i].None? <==> items.value[i].None?) &&
      (items.value[i].Some? ==> r.value[i] == Some(ToResponse(items.value[i].value)))
  {
    match items
    case None => None
    case Some(l) => Some(MapEach(l))
  }

  /** The responses of a list of present entities, in the same order (the service's stream mapping). */
  function ToResponses(items: seq<TodoItem>): (r: seq<TodoResponse>)
    ensures |r| == |items|
    ensures forall i :: 0 <= i < |items| ==> r[i] == ToResponse(items[i])
  {
    if items == [] then [] else [ToResponse(items[0])] + ToResponses(items[1..])
  }

  /** A response never shows an entity's status other than by its parseable display name. */
  lemma ResponseStatusRoundTrip(item: TodoItem)
    ensures From(ToResponse(item).status) == Ok(item.status)
  {
  }

  /** The entities of `items`, each present. */
  function Present<T>(items: seq<T>): (r: seq<Option<T>>)
    ensures |r| == |items|
    ensures forall i :: 0 <= i < |items| ==> r[i] == Some(items[i])
  {
    seq(|items|, i requires 0 <= i < |items| => Some(items[i]))
  }

  /** On a list without `null` entries, `toResponseDTOList` is `ToResponses`. */
  lemma ResponseListOfPresentRows(items: seq<TodoItem>)
    ensures ToResponseDtoList(Some(Present(items))) == Some(Present(ToResponses(items)))
  {
    var rows := Present(items);
    var l := ToResponseDtoList(Some(rows)).value;
    var expected := Present(ToResponses(items));
    forall i | 0 <= i < |expected|
      ensures l[i] == expected[i]
    {
      assert rows[i] == Some(items[i]);
      assert l[i] == Some(ToResponse(items[i]));
    }
    assert l == expected;
  }
}
