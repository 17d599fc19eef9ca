/** The task records and the value-level meaning of every store operation:
    the filters the store applies to its list, the lookup by id, the list
    each mutation produces, the visible projection and the counter text. */
module TaskList {
  import opened Text

  datatype Option<T> = None | Some(value: T)

  /** One to-do entry as the store keeps it and serialises it. */
  datatype Task = Task(id: string, title: string, completed: bool)

  /** The predicates the store filters its list with: `t.id !== id` (delete,
      and edit to a blank title), `!t.completed` (clear completed, the active
      view, the counter) and `t.completed` (the completed view). */
  datatype Criterion = IdIsNot(id: string) | NotCompleted | IsCompleted

  predicate Matches(c: Criterion, t: Task)
  {
    match c
    case IdIsNot(id) => t.id != id
    case NotCompleted => !t.completed
    case IsCompleted => t.completed
  }

  /** Array.prototype.filter: the tasks of `ts` that satisfy `c`, in order. */
  function Select(ts: seq<Task>, c: Criterion): (r: seq<Task>)
    ensures |r| <= |ts|
  {
    if ts == [] then []
    else if Matches(c, ts[0]) then [ts[0]] + Select(ts[1..], c)
    else Select(ts[1..], c)
  }

  /** Filtering keeps exactly the tasks that satisfy the predicate. */
  lemma {:induction false} SelectMembers(ts: seq<Task>, c: Criterion)
    ensures forall t :: t in Select(ts, c) <==> t in ts && Matches(c, t)
  {
    if ts != [] {
      SelectMembers(ts[1..], c);
      assert ts == [ts[0]] + ts[1..];
    }
  }

  /** Filtering keeps every task that satisfies the predicate as often as the
      list holds it, and no other task at all. */
  lemma {:induction false} SelectMultiplicity(ts: seq<Task>, c: Criterion)
    ensures forall t :: multiset(Select(ts, c))[t] == if Matches(c, t) then multiset(ts)[t] else 0
  {
    if ts != [] {
      SelectMultiplicity(ts[1..], c);
      assert ts == [ts[0]] + ts[1..];
    }
  }

  /** The length of a filter's result is the number of positions whose task
      satisfies the predicate. */
  lemma {:induction false} SelectCountsPositions(ts: seq<Task>, c: Criterion, n: nat)
    requires n <= |ts|
    ensures |Select(ts[..n], c)| == |set k | 0 <= k < n && Matches(c, ts[k])|
  {
    if n > 0 {
      SelectCountsPositions(ts, c, n - 1);
      assert ts[..n] == ts[..n - 1] + [ts[n - 1]];
      SelectAppend(ts[..n - 1], ts[n - 1], c);
      var before := set k | 0 <= k < n - 1 && Matches(c, ts[k]);
      var after := set k | 0 <= k < n && Matches(c, ts[k]);
      if Matches(c, ts[n - 1]) {
        assert after == before + {n - 1};
      } else {
        assert after == before;
      }
    }
  }

  /** `a` is obtained from `b` by dropping elements, keeping the order. */
  ghost predicate IsSubsequence(a: seq<Task>, b: seq<Task>)
    decreases |b|
  {
    if a == [] then true
    else if b == [] then false
    else (a[0] == b[0] && IsSubsequence(a[1..], b[1..])) || IsSubsequence(a, b[1..])
  }

  /** Filtering keeps the relative order of the tasks it keeps. */
  lemma {:induction false} SelectIsSubsequence(ts: seq<Task>, c: Criterion)
    ensures IsSubsequence(Select(ts, c), ts)
  {
    if ts != [] {
      SelectIsSubsequence(ts[1..], c);
      var r := Select(ts, c);
      if Matches(c, ts[0]) {
        assert r[0] == ts[0] && r[1..] == Select(ts[1..], c);
      }
    }
  }

  /** A filter every task passes returns the list unchanged. */
  lemma {:induction false} SelectAll(ts: seq<Task>, c: Criterion)
    requires forall t :: t in ts ==> Matches(c, t)
    ensures Select(ts, c) == ts
  {
    if ts != [] {
      assert ts[0] in ts;
      assert forall t :: t in ts[1..] ==> t in ts;
      SelectAll(ts[1..], c);
      assert [ts[0]] + ts[1..] == ts;
    }
  }

  /** Filtering twice by the same predicate is filtering once. */
  lemma SelectIdempotent(ts: seq<Task>, c: Criterion)
    ensures Select(Select(ts, c), c) == Select(ts, c)
  {
    SelectMembers(ts, c);
    SelectAll(Select(ts, c), c);
  }

  /** The not-completed and the completed tasks split the list: together they
      hold every task exactly as often as the list does. */
  lemma {:induction false} CompletionPartition(ts: seq<Task>)
    ensures multiset(Select(ts, NotCompleted)) + multiset(Select(ts, IsCompleted)) == multiset(ts)
    ensures |Select(ts, NotCompleted)| + |Select(ts, IsCompleted)| == |ts|
  {
    if ts != [] {
      CompletionPartition(ts[1..]);
      assert ts == [ts[0]] + ts[1..];
    }
    assert |multiset(Select(ts, NotCompleted))| + |multiset(Select(ts, IsCompleted))| == |multiset(ts)|;
  }

  /** Replacing the task at `i` changes how many tasks pass `c` only by
      whether the old and the new task pass it. */
  lemma {:induction false} SelectCountAfterUpdate(ts: seq<Task>, i: nat, x: Task, c: Criterion)
    requires i < |ts|
    ensures |Select(ts[i := x], c)| + (if Matches(c, ts[i]) then 1 else 0)
         == |Select(ts, c)| + (if Matches(c, x) then 1 else 0)
  {
    var u := ts[i := x];
    if i == 0 {
      assert u[1..] == ts[1..];
    } else {
      SelectCountAfterUpdate(ts[1..], i - 1, x, c);
      assert u[1..] == ts[1..][i - 1 := x];
      assert u[0] == ts[0];
    }
  }

  /** Ids are pairwise distinct. */
  ghost predicate UniqueIds(ts: seq<Task>)
  {
    forall i, j :: 0 <= i < j < |ts| ==> ts[i].id != ts[j].id
  }

  predicate HasId(ts: seq<Task>, id: string)
  {
    exists k :: 0 <= k < |ts| && ts[k].id == id
  }

  /** What the store promises of its list: distinct ids, and every title
      non-empty with no whitespace at either end. */
  ghost predicate WellFormed(ts: seq<Task>)
  {
    UniqueIds(ts) && forall k :: 0 <= k < |ts| ==> ts[k].title != [] && IsTrimmed(ts[k].title)
  }

  /** Position `k` holds the first task carrying `id`. */
  predicate FirstWithId(ts: seq<Task>, id: string, k: nat)
  {
    k < |ts| && ts[k].id == id && forall j :: 0 <= j < k ==> ts[j].id != id
  }

  /** Array.prototype.find by id, as a position: the first task carrying
      `id`, or none when no task carries it. */
  function FindIndex(ts: seq<Task>, id: string): (r: Option<nat>)
    ensures r.Some? ==> r.value < |ts| && ts[r.value].id == id
    ensures r.Some? ==> forall k :: 0 <= k < r.value ==> ts[k].id != id
    ensures r.None? <==> !HasId(ts, id)
  {
    if ts == [] then None
    else if ts[0].id == id then Some(0)
    else match FindIndex(ts[1..], id)
      case None => None
      case Some(i) => Some(i + 1)
  }

  /** Where ids are distinct, the search lands on the one task with the id. */
  lemma FindIndexUnique(ts: seq<Task>, k: nat)
    requires UniqueIds(ts) && k < |ts|
    ensures FindIndex(ts, ts[k].id) == Some(k)
  {
    assert HasId(ts, ts[k].id);
  }

  /** Lists with the same ids at the same positions give the same search
      result. */
  lemma FindIndexSameIds(ts: seq<Task>, us: seq<Task>, id: string)
    requires |ts| == |us|
    requires forall k :: 0 <= k < |ts| ==> ts[k].id == us[k].id
    ensures FindIndex(ts, id) == FindIndex(us, id)
  {
    var a, b := FindIndex(ts, id), FindIndex(us, id);
    if a.Some? {
      assert us[a.value].id == id;
    }
    if b.Some? {
      assert ts[b.value].id == id;
    }
  }

  // ---------------------------------------------------------------------
  // The list after each mutation

  /** addTask: a non-blank title appends one new, not completed task carrying
      the trimmed title; a blank one leaves the list as it was. */
  function Added(ts: seq<Task>, id: string, title: string): (r: seq<Task>)
    ensures ts <= r
    ensures |r| == |ts| + 1 <==> Trim(title) != []
    ensures |r| <= |ts| + 1
    ensures |r| == |ts| + 1 ==> r[|ts|] == Task(id, Trim(title), false)
  {
    var trimmed := Trim(title);
    if trimmed == [] then ts else ts + [Task(id, trimmed, false)]
  }

  /** toggleTask: the first task carrying `id` changes its completed flag and
      nothing else changes; an unknown id changes nothing. */
  function Toggled(ts: seq<Task>, id: string): (r: seq<Task>)
    ensures |r| == |ts|
    ensures forall k :: 0 <= k < |ts| ==> r[k].id == ts[k].id && r[k].title == ts[k].title
    ensures forall k :: 0 <= k < |ts| ==>
      (r[k].completed != ts[k].completed <==> FirstWithId(ts, id, k))
  {
    match FindIndex(ts, id)
    case None => ts
    case Some(i) => ts[i := ts[i].(completed := !ts[i].completed)]
  }

  /** deleteTask: every task carrying `id` is gone, every other task is kept
      as often as the list holds it, and the kept tasks keep their order. */
  function Deleted(ts: seq<Task>, id: string): (r: seq<Task>)
    ensures !HasId(r, id)
    ensures forall t :: t in r <==> t in ts && t.id != id
    ensures forall t :: multiset(r)[t] == if t.id != id then multiset(ts)[t] else 0
    ensures IsSubsequence(r, ts)
  {
    var r := Select(ts, IdIsNot(id));
    SelectMembers(ts, IdIsNot(id));
    SelectMultiplicity(ts, IdIsNot(id));
    SelectIsSubsequence(ts, IdIsNot(id));
    assert forall k :: 0 <= k < |r| ==> r[k] in r;
    r
  }

  /** clearCompleted: the tasks not completed, each as often as the list
      holds it, in order. */
  function Cleared(ts: seq<Task>): (r: seq<Task>)
    ensures forall t :: t in r <==> t in ts && !t.completed
    ensures forall t :: multiset(r)[t] == if !t.completed then multiset(ts)[t] else 0
    ensures IsSubsequence(r, ts)
  {
    SelectMembers(ts, NotCompleted);
    SelectMultiplicity(ts, NotCompleted);
    SelectIsSubsequence(ts, NotCompleted);
    Select(ts, NotCompleted)
  }

  /** editTask: with an unknown id nothing changes; a title blank after
      trimming deletes the task; otherwise the first task carrying `id` takes
      the trimmed title and keeps its id, flag and position. */
  function Edited(ts: seq<Task>, id: string, newTitle: string): (r: seq<Task>)
    ensures !HasId(ts, id) ==> r == ts
    ensures HasId(ts, id) && Trim(newTitle) == [] ==> !HasId(r, id) && forall t :: t in r <==> t in ts && t.id != id
    ensures HasId(ts, id) && Trim(newTitle) != [] ==>
      |r| == |ts| &&
      forall k :: 0 <= k < |ts| ==>
        r[k].id == ts[k].id && r[k].completed == ts[k].completed &&
        r[k].title == if FirstWithId(ts, id, k) then Trim(newTitle) else ts[k].title
  {
    match FindIndex(ts, id)
    case None => ts
    case Some(i) =>
      var val := Trim(newTitle);
      if val == [] then Deleted(ts, id) else ts[i := ts[i].(title := val)]
  }

  // ---------------------------------------------------------------------
  // Properties of the mutations

  /** Editing to a blank title is exactly deleting, whether or not the id is
      present (deleting an unknown id also changes nothing). */
  lemma EditedBlankIsDeleted(ts: seq<Task>, id: string, newTitle: string)
    requires Trim(newTitle) == []
    ensures Edited(ts, id, newTitle) == Deleted(ts, id)
  {
    if !HasId(ts, id) {
      SelectAll(ts, IdIsNot(id));
    }
  }

  /** Deleting an id nobody carries leaves the list as it was. */
  lemma DeletedUnknown(ts: seq<Task>, id: string)
    requires !HasId(ts, id)
    ensures Deleted(ts, id) == ts
  {
    SelectAll(ts, IdIsNot(id));
  }

  /** Where ids are distinct, deleting a present id removes exactly one task. */
  lemma {:induction false} DeletedRemovesOne(ts: seq<Task>, id: string)
    requires UniqueIds(ts) && HasId(ts, id)
    ensures |Deleted(ts, id)| == |ts| - 1
  {
    if ts[0].id == id {
      assert forall t :: t in ts[1..] ==> t.id != id by {
        forall t | t in ts[1..] ensures t.id != id {
          var k :| 0 <= k < |ts[1..]| && ts[1..][k] == t;
          assert ts[k + 1] == t;
        }
      }
      SelectAll(ts[1..], IdIsNot(id));
    } else {
      var k :| 0 <= k < |ts| && ts[k].id == id;
      assert ts[1..][k - 1].id == id;
      DeletedRemovesOne(ts[1..], id);
    }
  }

  /** Toggling the same id twice restores the list. */
  lemma ToggledTwice(ts: seq<Task>, id: string)
    ensures Toggled(Toggled(ts, id), id) == ts
  {
    FindIndexSameIds(ts, Toggled(ts, id), id);
  }

  /** Where ids are distinct, toggle flips the flag of exactly the task that
      carries the id. */
  lemma ToggledFlipsOnlyThatTask(ts: seq<Task>, id: string, k: nat)
    requires UniqueIds(ts) && k < |ts|
    ensures Toggled(ts, id)[k].completed == (ts[k].completed != (ts[k].id == id))
  {
    if ts[k].id == id {
      FindIndexUnique(ts, k);
    }
  }

  /** Clearing completed tasks twice is clearing them once. */
  lemma ClearedIdempotent(ts: seq<Task>)
    ensures Cleared(Cleared(ts)) == Cleared(ts)
  {
    SelectIdempotent(ts, NotCompleted);
  }

  /** Editing twice with the same text is editing once. */
  lemma EditedIdempotent(ts: seq<Task>, id: string, newTitle: string)
    ensures Edited(Edited(ts, id, newTitle), id, newTitle) == Edited(ts, id, newTitle)
  {
    var r := Edited(ts, id, newTitle);
    if HasId(ts, id) {
      if Trim(newTitle) == [] {
        assert !HasId(r, id);
      } else {
        var i := FindIndex(ts, id).value;
        FindIndexSameIds(ts, r, id);
        assert r[i := r[i].(title := Trim(newTitle))] == r;
      }
    }
  }

  /** A filter keeps the store's promises about its list. */
  lemma {:induction false} SelectWellFormed(ts: seq<Task>, c: Criterion)
    requires WellFormed(ts)
    ensures WellFormed(Select(ts, c))
  {
    if ts != [] {
      var tail := ts[1..];
      assert WellFormed(tail) by {
        forall i, j | 0 <= i < j < |tail| ensures tail[i].id != tail[j].id {
          assert tail[i] == ts[i + 1] && tail[j] == ts[j + 1];
        }
      }
      SelectWellFormed(tail, c);
      if Matches(c, ts[0]) {
        var rest := Select(tail, c);
        var r := [ts[0]] + rest;
        SelectMembers(tail, c);
        forall i, j | 0 <= i < j < |r| ensures r[i].id != r[j].id {
          if i == 0 {
            assert r[j] in tail;
            var k :| 0 <= k < |tail| && tail[k] == r[j];
            assert ts[k + 1] == r[j];
          } else {
            assert r[i] == rest[i - 1] && r[j] == rest[j - 1];
          }
        }
      }
    }
  }

  /** addTask keeps the list well formed, provided the new id is fresh. */
  lemma AddedWellFormed(ts: seq<Task>, id: string, title: string)
    requires WellFormed(ts) && !HasId(ts, id)
    ensures WellFormed(Added(ts, id, title))
  {
    var r := Added(ts, id, title);
    if Trim(title) != [] {
      forall i, j | 0 <= i < j < |r| ensures r[i].id != r[j].id {
        if j == |ts| {
          assert r[i] == ts[i];
        } else {
          assert r[i] == ts[i] && r[j] == ts[j];
        }
      }
    }
  }

  /** toggleTask keeps the list well formed. */
  lemma ToggledWellFormed(ts: seq<Task>, id: string)
    requires WellFormed(ts)
    ensures WellFormed(Toggled(ts, id))
  {
    var r := Toggled(ts, id);
    assert forall k :: 0 <= k < |r| ==> r[k].title == ts[k].title;
  }

  /** deleteTask keeps the list well formed. */
  lemma DeletedWellFormed(ts: seq<Task>, id: string)
    requires WellFormed(ts)
    ensures WellFormed(Deleted(ts, id))
  {
    SelectWellFormed(ts, IdIsNot(id));
  }

  /** clearCompleted keeps the list well formed. */
  lemma ClearedWellFormed(ts: seq<Task>)
    requires WellFormed(ts)
    ensures WellFormed(Cleared(ts))
  {
    SelectWellFormed(ts, NotCompleted);
  }

  /** editTask keeps the list well formed: a blank title deletes rather than
      leaving an empty-titled task behind. */
  lemma EditedWellFormed(ts: seq<Task>, id: string, newTitle: string)
    requires WellFormed(ts)
    ensures WellFormed(Edited(ts, id, newTitle))
  {
    var r := Edited(ts, id, newTitle);
    if HasId(ts, id) {
      if Trim(newTitle) == [] {
        SelectWellFormed(ts, IdIsNot(id));
      } else {
        assert forall k :: 0 <= k < |r| ==> r[k].id == ts[k].id;
      }
    }
  }

  // ---------------------------------------------------------------------
  // The visible list and the counter

  /** filteredTasks: 'active' and 'completed' select by the flag; every other
      filter value shows the whole list. */
  function FilteredTasks(ts: seq<Task>, filter: string): (r: seq<Task>)
    ensures filter != "active" && filter != "completed" ==> r == ts
    ensures filter == "active" ==> forall t :: t in r <==> t in ts && !t.completed
    ensures filter == "completed" ==> forall t :: t in r <==> t in ts && t.completed
  {
    match filter
    case "active" => SelectMembers(ts, NotCompleted); Select(ts, NotCompleted)
    case "completed" => SelectMembers(ts, IsCompleted); Select(ts, IsCompleted)
    case _ => ts
  }

  /** Every view is an order-preserving subsequence of the list, and the
      active and completed views together are exactly the list's tasks. */
  lemma FilteredViews(ts: seq<Task>, filter: string)
    ensures IsSubsequence(FilteredTasks(ts, filter), ts)
    ensures multiset(FilteredTasks(ts, "active")) + multiset(FilteredTasks(ts, "completed")) == multiset(ts)
    ensures |FilteredTasks(ts, "active")| + |FilteredTasks(ts, "completed")| == |ts|
  {
    CompletionPartition(ts);
    match filter
    case "active" => SelectIsSubsequence(ts, NotCompleted);
    case "completed" => SelectIsSubsequence(ts, IsCompleted);
    case _ => SubsequenceRefl(ts);
  }

  lemma {:induction false} SubsequenceRefl(ts: seq<Task>)
    ensures IsSubsequence(ts, ts)
  {
    if ts != [] {
      SubsequenceRefl(ts[1..]);
    }
  }

  /** The number of tasks not completed, over the whole list whatever the
      filter. */
  function RemainingCount(ts: seq<Task>): (n: nat)
    ensures n == |set k | 0 <= k < |ts| && !ts[k].completed|
  {
    SelectCountsPositions(ts, NotCompleted, |ts|);
    assert ts[..|ts|] == ts;
    assert (set k | 0 <= k < |ts| && Matches(NotCompleted, ts[k])) == set k | 0 <= k < |ts| && !ts[k].completed;
    |Select(ts, NotCompleted)|
  }

  /** Clearing completed tasks does not change how many are left. */
  lemma ClearedKeepsRemaining(ts: seq<Task>)
    ensures RemainingCount(Cleared(ts)) == RemainingCount(ts)
    ensures RemainingCount(Cleared(ts)) == |Cleared(ts)|
  {
    SelectIdempotent(ts, NotCompleted);
  }

  /** Adding a task with a non-blank title leaves one more task to do. */
  lemma {:induction false} AddedRemaining(ts: seq<Task>, id: string, title: string)
    ensures RemainingCount(Added(ts, id, title)) == RemainingCount(ts) + (if Trim(title) == [] then 0 else 1)
  {
    if Trim(title) != [] {
      SelectAppend(ts, Task(id, Trim(title), false), NotCompleted);
    }
  }

  lemma {:induction false} SelectAppend(ts: seq<Task>, x: Task, c: Criterion)
    ensures Select(ts + [x], c) == Select(ts, c) + (if Matches(c, x) then [x] else [])
  {
    var u := ts + [x];
    if ts == [] {
      assert u == [x] && u[1..] == [];
    } else {
      assert u[0] == ts[0] && u[1..] == ts[1..] + [x];
      SelectAppend(ts[1..], x, c);
      if Matches(c, ts[0]) {
        calc {
          Select(u, c);
          [ts[0]] + Select(ts[1..] + [x], c);
          [ts[0]] + (Select(ts[1..], c) + (if Matches(c, x) then [x] else []));
          ([ts[0]] + Select(ts[1..], c)) + (if Matches(c, x) then [x] else []);
        }
      }
    }
  }


  /** Toggling a present task moves the count of tasks left by one: down when
      it becomes completed, up when it is reopened. */
  lemma ToggledRemaining(ts: seq<Task>, id: string)
    ensures !HasId(ts, id) ==> RemainingCount(Toggled(ts, id)) == RemainingCount(ts)
    ensures HasId(ts, id) ==>
      var i := FindIndex(ts, id).value;
      RemainingCount(Toggled(ts, id)) == if ts[i].completed then RemainingCount(ts) + 1 else RemainingCount(ts) - 1
  {
    if HasId(ts, id) {
      var i := FindIndex(ts, id).value;
      SelectCountAfterUpdate(ts, i, ts[i].(completed := !ts[i].completed), NotCompleted);
    }
  }

  /** Renaming a task does not change how many are left. */
  lemma EditedRemaining(ts: seq<Task>, id: string, newTitle: string)
    requires !AllSpace(newTitle)
    ensures RemainingCount(Edited(ts, id, newTitle)) == RemainingCount(ts)
  {
    if HasId(ts, id) {
      var i := FindIndex(ts, id).value;
      SelectCountAfterUpdate(ts, i, ts[i].(title := Trim(newTitle)), NotCompleted);
    }
  }

  /** The counter label: "1 item left" for one task, "<n> items left" for
      every other count, zero included. */
  function CounterText(n: nat): (r: string)
    ensures r == "1 item left" <==> n == 1
    ensures n != 1 ==> r == DecimalText(n) + " items left"
  {
    DecimalText(n) + " item" + (if n != 1 then "s" else "") + " left"
  }

  /** Different counts give different labels. */
  lemma CounterTextInjective(m: nat, n: nat)
    requires CounterText(m) == CounterText(n)
    ensures m == n
  {
    if m != 1 && n != 1 {
      var a, b := DecimalText(m), DecimalText(n);
      assert |a| == |b|;
      assert a == CounterText(m)[..|a|];
      assert b == CounterText(n)[..|b|];
      DecimalTextInjective(m, n);
    }
  }
}
