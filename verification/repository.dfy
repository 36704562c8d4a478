/**
 * `TodoItemRepository`: the item table, the inherited `save` and `findById`,
 * the three declared finders, and the bulk status update the scheduler uses.
 * The table is a map from id to item; ids are handed out 1, 2, 3, ... in
 * insertion order (identity generation) and nothing is ever deleted.
 */
module Repository {
  import opened Outcomes
  import opened Model
  import opened Entity

  /** Creation times are non-increasing along the sequence: newest first. */
  predicate NewestFirst(s: seq<TodoItem>) {
    forall i, j :: 0 <= i < j < |s| ==> s[i].creation >= s[j].creation
  }

  /** Putting an item no older than the head in front of a newest-first sequence keeps it newest first. */
  lemma ConsNewestFirst(y: TodoItem, t: seq<TodoItem>)
    requires NewestFirst(t) && (t == [] || t[0].creation <= y.creation)
    ensures NewestFirst([y] + t)
  {
    var r := [y] + t;
    forall i, j | 0 <= i < j < |r|
      ensures r[i].creation >= r[j].creation
    {
      if i == 0 {
        assert r[j] == t[j - 1];
        assert t[0].creation >= t[j - 1].creation;
      } else {
        assert r[i] == t[i - 1] && r[j] == t[j - 1];
      }
    }
  }

  /** Places `x` before the first item of `s` that is not newer than it; the result holds `s` and `x`. */
  function InsertNewestFirst(x: TodoItem, s: seq<TodoItem>): (r: seq<TodoItem>)
    ensures |r| == |s| + 1
    ensures multiset(r) == multiset(s) + multiset{x}
  {
    if s == [] || s[0].creation <= x.creation then [x] + s
    else
      assert s == [s[0]] + s[1..];
      [s[0]] + InsertNewestFirst(x, s[1..])
  }

  /** Inserting into a newest-first sequence keeps it newest first, and the head is `x` or the old head. */
  lemma {:induction false} InsertKeepsNewestFirst(x: TodoItem, s: seq<TodoItem>)
    requires NewestFirst(s)
    ensures NewestFirst(InsertNewestFirst(x, s))
    ensures InsertNewestFirst(x, s)[0] == x || (s != [] && InsertNewestFirst(x, s)[0] == s[0])
  {
    if s == [] || s[0].creation <= x.creation {
      ConsNewestFirst(x, s);
    } else {
      var tail := s[1..];
      assert NewestFirst(tail) by {
        forall i, j | 0 <= i < j < |tail|
          ensures tail[i].creation >= tail[j].creation
        {
          assert tail[i] == s[i + 1] && tail[j] == s[j + 1];
        }
      }
      InsertKeepsNewestFirst(x, tail);
      var rest := InsertNewestFirst(x, tail);
      assert rest[0].creation <= s[0].creation by {
        if tail != [] {
          assert tail[0] == s[1];
        }
      }
      ConsNewestFirst(s[0], rest);
    }
  }

  /** `ORDER BY creationDatetime DESC`: a newest-first permutation of `s`. */
  function SortNewestFirst(s: seq<TodoItem>): (r: seq<TodoItem>)
    ensures NewestFirst(r)
    ensures multiset(r) == multiset(s)
  {
    if s == [] then []
    else
      var sorted := SortNewestFirst(s[1..]);
      InsertKeepsNewestFirst(s[0], sorted);
      assert s == [s[0]] + s[1..];
      InsertNewestFirst(s[0], sorted)
  }

  /** `WHERE keep(t)`: the items of `s` that satisfy `keep`, each as often as in `s`. */
  function Filter(s: seq<TodoItem>, keep: TodoItem -> bool): (r: seq<TodoItem>)
    ensures forall x :: multiset(r)[x] == if keep(x) then multiset(s)[x] else 0
  {
    if s == [] then []
    else
      assert s == [s[0]] + s[1..];
      (if keep(s[0]) then [s[0]] else []) + Filter(s[1..], keep)
  }

  /** The condition of `findNotDoneItems`: NOT_DONE, and no due time or one strictly after now. */
  predicate ActiveNotDone(x: TodoItem, now: int) {
    x.status == NotDone && (x.due.None? || x.due.value > now)
  }

  /** The condition of the bulk update: status `from` and a due time strictly before now. */
  predicate Overdue(x: TodoItem, now: int, from: TodoStatus) {
    x.status == from && x.due.Some? && x.due.value < now
  }

  /** The keys whose items the bulk update matches. */
  function OverdueKeys(m: map<int, TodoItem>, now: int, from: TodoStatus): set<int> {
    set k | k in m && Overdue(m[k], now, from)
  }

  /** One row under the bulk update: status `to` if it matches, unchanged otherwise. */
  function Transition(x: TodoItem, now: int, from: TodoStatus, to: TodoStatus): TodoItem {
    if Overdue(x, now, from) then x.(status := to) else x
  }

  /** The table after the bulk update: every matching item gets status `to`, nothing else moves. */
  function Transitioned(m: map<int, TodoItem>, now: int, from: TodoStatus, to: TodoStatus): map<int, TodoItem> {
    map k | k in m :: Transition(m[k], now, from, to)
  }

  /** The keys whose items differ between two tables over the same keys. */
  function ChangedKeys(before: map<int, TodoItem>, after: map<int, TodoItem>): set<int> {
    set k | k in before && k in after && before[k] != after[k]
  }

  /** Every key names the item that carries it as its id. */
  predicate Keyed(m: map<int, TodoItem>) {
    forall k :: k in m ==> m[k].id == Some(k)
  }

  /** `x` is the row stored under its own id. */
  predicate StoredIn(m: map<int, TodoItem>, x: TodoItem) {
    x.id.Some? && x.id.value in m && m[x.id.value] == x
  }

  /** The rows stored under keys 1 .. n-1, in key (insertion) order. */
  function RowsBelow(m: map<int, TodoItem>, n: int): seq<TodoItem>
    decreases n
  {
    if n <= 1 then [] else RowsBelow(m, n - 1) + (if n - 1 in m then [m[n - 1]] else [])
  }

  /** Each item stored under a key in 1 .. n-1 occurs exactly once among the rows, and nothing else occurs. */
  lemma {:induction false} RowsBelowCount(m: map<int, TodoItem>, n: int, x: TodoItem)
    requires Keyed(m)
    ensures multiset(RowsBelow(m, n))[x] ==
      if x.id.Some? && 1 <= x.id.value < n && x.id.value in m && m[x.id.value] == x then 1 else 0
    decreases n
  {
    if n > 1 {
      RowsBelowCount(m, n - 1, x);
      if n - 1 in m && m[n - 1] == x {
        assert x.id == Some(n - 1);
      }
    }
  }

  /**
   * The bulk update changes nothing but the status of matching items, and
   * changes those to `to`; keys, ids, descriptions and timestamps stay.
   */
  lemma TransitionChangesOnlyStatus(m: map<int, TodoItem>, now: int, from: TodoStatus, to: TodoStatus, k: int)
    requires k in m
    ensures var r := Transitioned(m, now, from, to);
      r.Keys == m.Keys &&
      r[k].id == m[k].id && r[k].description == m[k].description &&
      r[k].creation == m[k].creation && r[k].due == m[k].due && r[k].done == m[k].done &&
      (r[k].status != m[k].status ==> m[k].status == from && m[k].due.Some? && m[k].due.value < now) &&
      (Overdue(m[k], now, from) ==> r[k].status == to)
  {
  }

  /** When `from` and `to` differ, the items the update matches are exactly the items it changes. */
  lemma {:induction false} OverdueKeysAreChangedKeys(m: map<int, TodoItem>, now: int, from: TodoStatus, to: TodoStatus)
    requires from != to
    ensures OverdueKeys(m, now, from) == ChangedKeys(m, Transitioned(m, now, from, to))
    ensures |OverdueKeys(m, now, from)| == |ChangedKeys(m, Transitioned(m, now, from, to))|
  {
    var r := Transitioned(m, now, from, to);
    forall k | k in m
      ensures k in OverdueKeys(m, now, from) <==> k in ChangedKeys(m, r)
    {
      if Overdue(m[k], now, from) {
        assert r[k].status == to != m[k].status;
      }
    }
  }

  /**
   * Idempotence: right after the update, no item matches it any more, and a
   * second update with the same arguments leaves the table as it is.
   */
  lemma {:induction false} TransitionIdempotent(m: map<int, TodoItem>, now: int, from: TodoStatus, to: TodoStatus)
    requires from != to
    ensures OverdueKeys(Transitioned(m, now, from, to), now, from) == {}
    ensures Transitioned(Transitioned(m, now, from, to), now, from, to) == Transitioned(m, now, from, to)
  {
    var r := Transitioned(m, now, from, to);
    forall k | k in r
      ensures !Overdue(r[k], now, from)
    {
    }
    TransitionedEquals(r, r, now, from, to);
  }

  /** The matching keys among 1 .. n-1. */
  function OverdueKeysBelow(m: map<int, TodoItem>, now: int, from: TodoStatus, n: int): set<int> {
    set k | k in m && 1 <= k < n && Overdue(m[k], now, from)
  }

  /** The number of matching rows among the keys 1 .. n-1, counted one key at a time. */
  function OverdueCountBelow(m: map<int, TodoItem>, now: int, from: TodoStatus, n: int): nat
    decreases n
  {
    if n <= 1 then 0
    else OverdueCountBelow(m, now, from, n - 1) + (if n - 1 in m && Overdue(m[n - 1], now, from) then 1 else 0)
  }

  /** Counting key by key gives the number of matching keys. */
  lemma {:induction false} OverdueCountBelowIsCardinality(m: map<int, TodoItem>, now: int, from: TodoStatus, n: int)
    ensures OverdueCountBelow(m, now, from, n) == |OverdueKeysBelow(m, now, from, n)|
    decreases n
  {
    if n <= 1 {
      assert OverdueKeysBelow(m, now, from, n) == {};
    } else {
      OverdueCountBelowIsCardinality(m, now, from, n - 1);
      var below := OverdueKeysBelow(m, now, from, n - 1);
      if n - 1 in m && Overdue(m[n - 1], now, from) {
        assert OverdueKeysBelow(m, now, from, n) == below + {n - 1};
      } else {
        assert OverdueKeysBelow(m, now, from, n) == below;
      }
    }
  }

  /** When every key lies in 1 .. bound-1, the count up to `bound` is the number of matching keys. */
  lemma OverdueCountIsMatches(m: map<int, TodoItem>, now: int, from: TodoStatus, bound: int)
    requires forall k :: k in m ==> 1 <= k < bound
    ensures OverdueCountBelow(m, now, from, bound) == |OverdueKeys(m, now, from)|
  {
    OverdueCountBelowIsCardinality(m, now, from, bound);
    assert OverdueKeysBelow(m, now, from, bound) == OverdueKeys(m, now, from);
  }

  /** A table that agrees with the bulk update row by row is the bulk update's result. */
  lemma TransitionedEquals(before: map<int, TodoItem>, after: map<int, TodoItem>, now: int, from: TodoStatus, to: TodoStatus)
    requires after.Keys == before.Keys
    requires forall k :: k in after ==> after[k] == Transition(before[k], now, from, to)
    ensures after == Transitioned(before, now, from, to)
  {
    var target := Transitioned(before, now, from, to);
    assert after.Keys == target.Keys;
    assert forall k :: k in after ==> after[k] == target[k];
  }

  /** The bulk update keeps every key naming its own item, below the bound, within the column constraints. */
  lemma TransitionedValid(m: map<int, TodoItem>, now: int, from: TodoStatus, to: TodoStatus, bound: int)
    requires Keyed(m) && forall k :: k in m ==> 1 <= k < bound && WellFormed(m[k])
    ensures var r := Transitioned(m, now, from, to);
      Keyed(r) && forall k :: k in r ==> 1 <= k < bound && WellFormed(r[k])
  {
  }

  /** The table together with the next id the store will hand out. */
  class TodoItemRepository {
    var items: map<int, TodoItem>
    var nextId: int

    /** Ids are positive, below `nextId`, equal to their key, and rows meet the column constraints. */
    ghost predicate Valid()
      reads this
    {
      && 1 <= nextId
      && Keyed(items)
      && forall k :: k in items ==> 1 <= k < nextId && WellFormed(items[k])
    }

    /** An empty table. */
    constructor ()
      ensures Valid() && items == map[] && nextId == 1
    {
      items := map[];
      nextId := 1;
    }

    /** `findById`: the item stored under `id`, or empty for an unknown id. */
    function FindById(id: int): (r: Option<TodoItem>)
      reads this
      requires Valid()
      ensures r.Some? <==> id in items
      ensures r.Some? ==> StoredIn(items, r.value) && r.value.id == Some(id)
    {
      if id in items then Some(items[id]) else None
    }

    /** Every stored item once, in insertion order. */
    function Rows(): (r: seq<TodoItem>)
      reads this
      requires Valid()
      ensures forall x :: multiset(r)[x] == if StoredIn(items, x) then 1 else 0
    {
      var r := RowsBelow(items, nextId);
      assert forall x :: multiset(r)[x] == if StoredIn(items, x) then 1 else 0 by {
        forall x
          ensures multiset(r)[x] == if StoredIn(items, x) then 1 else 0
        {
          RowsBelowCount(items, nextId, x);
        }
      }
      r
    }

    /** `findAllByOrderByCreationDatetimeDesc`: every stored item exactly once, newest first. */
    function FindAllByOrderByCreationDatetimeDesc(): (r: seq<TodoItem>)
      reads this
      requires Valid()
      ensures NewestFirst(r)
      ensures forall x :: multiset(r)[x] == if StoredIn(items, x) then 1 else 0
    {
      SortNewestFirst(Rows())
    }

    /**
     * `findNotDoneItems(now)`: exactly the stored NOT_DONE items with no due
     * time or a due time strictly after now, each once, newest first.
     */
    function FindNotDoneItems(now: int): (r: seq<TodoItem>)
      reads this
      requires Valid()
      ensures NewestFirst(r)
      ensures forall x :: multiset(r)[x] == if StoredIn(items, x) && ActiveNotDone(x, now) then 1 else 0
    {
      SortNewestFirst(Filter(Rows(), (x: TodoItem) => ActiveNotDone(x, now)))
    }

    /** `findByStatusOrderByCreationDatetimeDesc`: exactly the stored items with that status, each once, newest first. */
    function FindByStatusOrderByCreationDatetimeDesc(status: TodoStatus): (r: seq<TodoItem>)
      reads this
      requires Valid()
      ensures NewestFirst(r)
      ensures forall x :: multiset(r)[x] == if StoredIn(items, x) && x.status == status then 1 else 0
    {
      SortNewestFirst(Filter(Rows(), (x: TodoItem) => x.status == status))
    }

    /**
     * `save`: an item without id is inserted under a fresh id, the next one
     * in sequence; an item with the id of a stored row replaces that row.
     * `findById` then returns the saved item.
     */
    method Save(item: TodoItem) returns (saved: TodoItem)
      requires Valid() && WellFormed(item)
      requires item.id.Some? ==> item.id.value in items
      modifies this
      ensures Valid()
      ensures saved.id.Some? && items == old(items)[saved.id.value := saved]
      ensures item.id.None? ==>
        saved == item.(id := Some(old(nextId))) && old(nextId) !in old(items) && nextId == old(nextId) + 1
      ensures item.id.Some? ==> saved == item && nextId == old(nextId)
      ensures FindById(saved.id.value) == Some(saved)
    {
      if item.id.None? {
        saved := item.(id := Some(nextId));
        items := items[nextId := saved];
        nextId := nextId + 1;
      } else {
        saved := item;
        items := items[item.id.value := saved];
      }
    }

    /**
     * `updatePastDueItems(now, from, to)`: one bulk conditional update that
     * sets status `to` on every row with status `from` and a due time
     * strictly before now, and returns the number of rows it changed.
     */
    method UpdatePastDueItems(now: int, from: TodoStatus, to: TodoStatus) returns (count: nat)
      requires Valid()
      modifies this
      ensures Valid() && nextId == old(nextId)
      ensures items == Transitioned(old(items), now, from, to)
      ensures count == |OverdueKeys(old(items), now, from)|
    {
      var table, n := SweepRows(items, nextId, now, from, to);
      TransitionedValid(items, now, from, to, nextId);
      items := table;
      count := n;
    }
  }

  /**
   * The row scan behind the bulk update: visits the keys 1 .. bound-1 in
   * order, moves each matching row to status `to` and counts it.
   */
  method SweepRows(before: map<int, TodoItem>, bound: int, now: int, from: TodoStatus, to: TodoStatus)
    returns (table: map<int, TodoItem>, count: nat)
    requires 1 <= bound && forall k :: k in before ==> 1 <= k < bound
    ensures table == Transitioned(before, now, from, to)
    ensures count == |OverdueKeys(before, now, from)|
  {
    table := before;
    var id := 1;
    count := 0;
    while id < bound
      invariant 1 <= id <= bound
      invariant table.Keys == before.Keys
      invariant forall k :: k in table ==>
        table[k] == if k < id then Transition(before[k], now, from, to) else before[k]
      invariant count == OverdueCountBelow(before, now, from, id)
    {
      if id in table && Overdue(table[id], now, from) {
        table := table[id := table[id].(status := to)];
        count := count + 1;
      }
      id := id + 1;
    }
    OverdueCountIsMatches(before, now, from, bound);
    TransitionedEquals(before, table, now, from, to);
  }

  /** Every query over an empty table is empty. */
  lemma EmptyTableQueries(repo: TodoItemRepository, now: int, status: TodoStatus)
    requires repo.Valid() && repo.items == map[]
    ensures repo.FindAllByOrderByCreationDatetimeDesc() == []
    ensures repo.FindNotDoneItems(now) == []
    ensures repo.FindByStatusOrderByCreationDatetimeDesc(status) == []
    ensures forall id :: repo.FindById(id) == None
  {
    var all := repo.FindAllByOrderByCreationDatetimeDesc();
    assert multiset(all) == multiset{};
    var active := repo.FindNotDoneItems(now);
    assert multiset(active) == multiset{};
    var some := repo.FindByStatusOrderByCreationDatetimeDesc(status);
    assert multiset(some) == multiset{};
  }
}
