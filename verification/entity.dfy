/**
 * The todo item record (`TodoItemEntity`): its six fields, the column
 * constraints the database enforces, and the two-argument constructor.
 * Timestamps are integers on one totally ordered clock.
 */
module Entity {
  import opened Outcomes
  import opened Model

  /** Column length of `description`. */
  const MaxDescriptionLength: nat := 1000

  /**
   * An item. `id` is absent until the store assigns one; `due` and `done`
   * are the optional due and completion times. `description`, `status` and
   * `creation` are non-null columns, which their types already guarantee.
   */
  datatype TodoItem = TodoItem(
    id: Option<int>,
    description: string,
    status: TodoStatus,
    creation: int,
    due: Option<int>,
    done: Option<int>)

  /** How many UTF-16 code units `c` takes: two for a character outside the Basic Multilingual Plane. */
  function Utf16Units(c: char): nat {
    if c as int >= 0x1_0000 then 2 else 1
  }

  /** `String.length()`: the number of UTF-16 code units of `s`, which is what `@Size` and the column limit count. */
  function Utf16Length(s: string): (n: nat)
    ensures |s| <= n <= 2 * |s|
  {
    if s == [] then 0 else Utf16Units(s[0]) + Utf16Length(s[1..])
  }

  /** A text inside the Basic Multilingual Plane has as many code units as characters. */
  lemma {:induction false} Utf16LengthOfBmp(s: string)
    requires forall i :: 0 <= i < |s| ==> s[i] as int < 0x1_0000
    ensures Utf16Length(s) == |s|
  {
    if s != [] {
      Utf16LengthOfBmp(s[1..]);
    }
  }

  /** Every character outside the Basic Multilingual Plane counts twice towards the limit. */
  lemma {:induction false} Utf16LengthOfAstral(s: string)
    requires forall i :: 0 <= i < |s| ==> s[i] as int >= 0x1_0000
    ensures Utf16Length(s) == 2 * |s|
  {
    if s != [] {
      Utf16LengthOfAstral(s[1..]);
    }
  }

  /** The column constraints a stored item satisfies: at most 1000 UTF-16 code units of description. */
  predicate WellFormed(item: TodoItem) {
    Utf16Length(item.description) <= MaxDescriptionLength
  }

  /**
   * The characters `String.trim` strips: everything up to U+0020. The
   * `@NotBlank` validator is not part of this model's sources; the model
   * follows Hibernate Validator, which accepts a text whose trimmed form is
   * not empty.
   */
  predicate TrimmedAway(c: char) {
    c as int <= 0x20
  }

  /** `@NotBlank`: some character survives trimming. */
  predicate NotBlank(s: string) {
    exists i :: 0 <= i < |s| && !TrimmedAway(s[i])
  }

  /** A valid creation request: `@NotBlank` and `@Size(max = 1000)` on the description. */
  predicate ValidDescription(s: string) {
    NotBlank(s) && Utf16Length(s) <= MaxDescriptionLength
  }

  /**
   * `new TodoItemEntity(description, dueDatetime)`: an unsaved item that is
   * NOT_DONE, created now, not done, with the given description and due time.
   */
  function NewTodoItem(description: string, due: Option<int>, now: int): (item: TodoItem)
    ensures item.id.None? && item.status == NotDone && item.done.None?
    ensures item.creation == now
    ensures item.description == description && item.due == due
  {
    TodoItem(None, description, NotDone, now, due, None)
  }

  /**
   * A freshly constructed item was created no later than now, and it meets
   * the column constraints whenever its description is a valid request.
   */
  lemma NewTodoItemIsWellFormed(description: string, due: Option<int>, now: int)
    requires ValidDescription(description)
    ensures NewTodoItem(description, due, now).creation <= now
    ensures WellFormed(NewTodoItem(description, due, now))
  {
  }

  /** The all-arguments constructor keeps all six fields exactly as given. */
  lemma AllArgsConstructor(id: Option<int>, description: string, status: TodoStatus,
                           creation: int, due: Option<int>, done: Option<int>)
    ensures var item := TodoItem(id, description, status, creation, due, done);
      item.id == id && item.description == description && item.status == status &&
      item.creation == creation && item.due == due && item.done == done
  {
  }
}
