/**
 * `TodoItemScheduler`: the periodic sweep that moves every NOT_DONE item
 * whose due time has passed to PAST_DUE in one bulk update. The clock
 * reading is the parameter `now`; a failure of the store is the parameter
 * `failure`.
 */
module Scheduler {
  import opened Outcomes
  import opened Model
  import opened Entity
  import opened Repository

  /**
   * `updatePastDueItems`: on a store failure, reports the scheduler failure
   * carrying the cause and leaves the store as it was; otherwise runs the
   * bulk update from NOT_DONE to PAST_DUE at `now` and returns how many
   * items it changed.
   */
  method UpdatePastDueItems(repo: TodoItemRepository, now: int, failure: Option<StoreFailure>) returns (r: Result<int>)
    requires repo.Valid()
    modifies repo
    ensures repo.Valid() && repo.nextId == old(repo.nextId)
    ensures failure.Some? ==>
      r == Err(SchedulerFailed(SchedulerFailureMessage, failure.value)) && repo.items == old(repo.items)
    ensures failure.None? ==>
      repo.items == Transitioned(old(repo.items), now, NotDone, PastDue) &&
      r == Ok(|ChangedKeys(old(repo.items), repo.items)|)
  {
    if failure.Some? {
      return Err(SchedulerFailed(SchedulerFailureMessage, failure.value));
    }
    ghost var before := repo.items;
    var count := repo.UpdatePastDueItems(now, NotDone, PastDue);
    OverdueKeysAreChangedKeys(before, now, NotDone, PastDue);
    r := Ok(count);
  }

  /**
   * What the sweep does to one item: it becomes PAST_DUE exactly when it
   * already was or was NOT_DONE with a due time before now; DONE items,
   * items without a due time and items due at or after now keep every field.
   */
  lemma SweepOneItem(m: map<int, TodoItem>, now: int, k: int)
    requires k in m
    ensures var r := Transitioned(m, now, NotDone, PastDue);
      k in r &&
      (r[k].status == PastDue <==>
        m[k].status == PastDue || (m[k].status == NotDone && m[k].due.Some? && m[k].due.value < now)) &&
      (m[k].status != NotDone ==> r[k] == m[k]) &&
      (m[k].due.None? ==> r[k] == m[k]) &&
      (m[k].due.Some? && m[k].due.value >= now ==> r[k] == m[k])
  {
    TransitionChangesOnlyStatus(m, now, NotDone, PastDue, k);
  }

  /** After a sweep no NOT_DONE item is overdue, and a second sweep at the same time changes nothing. */
  lemma SweepIdempotent(m: map<int, TodoItem>, now: int)
    ensures var r := Transitioned(m, now, NotDone, PastDue);
      (forall k :: k in r && r[k].status == NotDone && r[k].due.Some? ==> r[k].due.value >= now) &&
      Transitioned(r, now, NotDone, PastDue) == r &&
      ChangedKeys(r, Transitioned(r, now, NotDone, PastDue)) == {}
  {
    TransitionIdempotent(m, now, NotDone, PastDue);
    var r := Transitioned(m, now, NotDone, PastDue);
    forall k | k in r && r[k].status == NotDone && r[k].due.Some?
      ensures r[k].due.value >= now
    {
      assert k !in OverdueKeys(r, now, NotDone);
    }
  }

  /** Two sweeps in a row at the same time: the second one reports zero and leaves the store unchanged. */
  method SweepTwice(repo: TodoItemRepository, now: int) returns (first: Result<int>, second: Result<int>)
    requires repo.Valid()
    modifies repo
    ensures repo.Valid()
    ensures first == Ok(|OverdueKeys(old(repo.items), now, NotDone)|)
    ensures second == Ok(0)
    ensures repo.items == Transitioned(old(repo.items), now, NotDone, PastDue)
  {
    ghost var before := repo.items;
    OverdueKeysAreChangedKeys(before, now, NotDone, PastDue);
    first := UpdatePastDueItems(repo, now, None);
    SweepIdempotent(before, now);
    second := UpdatePastDueItems(repo, now, None);
  }
}
