/**
 * The three-valued lifecycle tag of a todo item (`TodoStatus`), its display
 * names, the rule for which values a client may set, and the case-insensitive
 * parser `TodoStatus.from` that the service calls.
 */
module Model {
  import opened Outcomes

  datatype TodoStatus = NotDone | Done | PastDue

  /** `TodoStatus.values()`, in declaration order. */
  const Values: seq<TodoStatus> := [NotDone, Done, PastDue]

  /** `getDisplayName()`: the canonical lower-case text of a status. */
  function DisplayName(s: TodoStatus): (name: string)
    ensures s == NotDone <==> name == "not done"
    ensures s == Done <==> name == "done"
    ensures s == PastDue <==> name == "past due"
  {
    match s
    case NotDone => "not done"
    case Done => "done"
    case PastDue => "past due"
  }

  /** `toString()` is overridden to give the display name. */
  function ToString(s: TodoStatus): (text: string)
    ensures text == DisplayName(s)
  {
    DisplayName(s)
  }

  /** `isUpdatableStatus`: the statuses a client may set through a patch. */
  function IsUpdatableStatus(s: TodoStatus): (b: bool)
    ensures b <==> s != PastDue
  {
    s == Done || s == NotDone
  }

  /** ASCII lower-casing of one character; every other character is kept. */
  function LowerChar(c: char): char {
    if 'A' <= c <= 'Z' then (c as int - 'A' as int + 'a' as int) as char else c
  }

  /** ASCII lower-casing of a string, character by character. */
  function LowerAscii(s: string): (r: string)
    ensures |r| == |s|
    ensures forall i :: 0 <= i < |s| ==> r[i] == LowerChar(s[i])
  {
    if s == [] then [] else [LowerChar(s[0])] + LowerAscii(s[1..])
  }

  /** The first status in `candidates` whose display name is `name`. */
  function Lookup(name: string, candidates: seq<TodoStatus>): (r: Option<TodoStatus>)
    ensures r.Some? ==> r.value in candidates && DisplayName(r.value) == name
    ensures r.None? ==> forall s :: s in candidates ==> DisplayName(s) != name
  {
    if candidates == [] then None
    else if DisplayName(candidates[0]) == name then Some(candidates[0])
    else Lookup(name, candidates[1..])
  }

  /**
   * `TodoStatus.from`: the status whose display name equals the text once
   * lower-cased; a `null` text, or one matching no display name, is an
   * invalid status.
   */
  function From(text: Option<string>): (r: Result<TodoStatus>)
    ensures r.Ok? <==> text.Some? && exists s :: DisplayName(s) == LowerAscii(text.value)
    ensures r.Ok? ==> DisplayName(r.value) == LowerAscii(text.value)
    ensures r.Err? ==> r.error == InvalidStatus(text)
  {
    match text
    case None => Err(InvalidStatus(text))
    case Some(t) =>
      var found := Lookup(LowerAscii(t), Values);
      if found.Some? then Ok(found.value)
      else
        assert NotDone in Values && Done in Values && PastDue in Values;
        Err(InvalidStatus(text))
  }

  /** There are exactly three statuses, listed once each by `values()`. */
  lemma ExactlyThreeStatuses(s: TodoStatus)
    ensures s == NotDone || s == Done || s == PastDue
    ensures s in Values && |Values| == 3
    ensures Values[0] != Values[1] && Values[1] != Values[2] && Values[0] != Values[2]
  {
  }

  /** The display names are "not done", "done" and "past due", one per status. */
  lemma DisplayNamesDistinct(a: TodoStatus, b: TodoStatus)
    ensures DisplayName(NotDone) == "not done" && DisplayName(Done) == "done"
    ensures DisplayName(PastDue) == "past due"
    ensures DisplayName(a) == DisplayName(b) <==> a == b
  {
  }

  /** `toString` equals the display name for every status. */
  lemma ToStringIsDisplayName(s: TodoStatus)
    ensures ToString(s) == DisplayName(s)
  {
  }

  /** Display names contain no upper-case letter, so lower-casing leaves them alone. */
  lemma DisplayNameIsLowerCase(s: TodoStatus)
    ensures LowerAscii(DisplayName(s)) == DisplayName(s)
  {
    var n := DisplayName(s);
    assert forall i :: 0 <= i < |n| ==> !('A' <= n[i] <= 'Z');
  }

  /** Lower-casing twice is lower-casing once. */
  lemma {:induction false} LowerAsciiIdempotent(s: string)
    ensures LowerAscii(LowerAscii(s)) == LowerAscii(s)
  {
    if s != [] {
      LowerAsciiIdempotent(s[1..]);
    }
  }

  /** Round trip: parsing the display name of any status gives that status back. */
  lemma FromDisplayName(s: TodoStatus)
    ensures From(Some(DisplayName(s))) == Ok(s)
  {
    DisplayNameIsLowerCase(s);
  }

  /**
   * Parsing ignores ASCII case: two texts that agree once lower-cased are
   * accepted or rejected together, and accepted as the same status.
   */
  lemma FromIgnoresCase(a: string, b: string)
    requires LowerAscii(a) == LowerAscii(b)
    ensures From(Some(a)).Ok? <==> From(Some(b)).Ok?
    ensures From(Some(a)).Ok? ==> From(Some(a)).value == From(Some(b)).value
  {
  }

  /** "DONE", "Done" and "done" are all accepted as DONE. */
  lemma FromAcceptsDoneSpellings()
    ensures From(Some("DONE")) == Ok(Done) && From(Some("Done")) == Ok(Done)
    ensures From(Some("done")) == Ok(Done)
  {
    FromDisplayName(Done);
    assert LowerAscii("DONE") == "done";
    FromIgnoresCase("DONE", "done");
    assert LowerAscii("Done") == "done";
    FromIgnoresCase("Done", "done");
  }

  /** "NOT DONE", "Not Done" and "not done" are all accepted as NOT_DONE. */
  lemma FromAcceptsNotDoneSpellings()
    ensures From(Some("NOT DONE")) == Ok(NotDone) && From(Some("Not Done")) == Ok(NotDone)
    ensures From(Some("not done")) == Ok(NotDone)
  {
    FromDisplayName(NotDone);
    assert LowerAscii("NOT DONE") == "not done";
    FromIgnoresCase("NOT DONE", "not done");
    assert LowerAscii("Not Done") == "not done";
    FromIgnoresCase("Not Done", "not done");
  }

  /** The rejected texts named by the service's integration tests, `null` included. */
  lemma FromRejectedSpellings()
    ensures From(None) == Err(InvalidStatus(None))
    ensures From(Some("")) == Err(InvalidStatus(Some("")))
    ensures From(Some("  ")) == Err(InvalidStatus(Some("  ")))
    ensures From(Some("invalid")) == Err(InvalidStatus(Some("invalid")))
    ensures From(Some("past_due")) == Err(InvalidStatus(Some("past_due")))
    ensures From(Some("in progress")) == Err(InvalidStatus(Some("in progress")))
  {
    assert LowerAscii("past_due")[4] == '_';
  }
}
