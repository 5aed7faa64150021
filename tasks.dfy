/**
 * The task records of the to-do list and the pure list rewrites the
 * component's handlers apply to them: `filter` (delete, clear completed),
 * `map` (mark as completed, commit an edit) and `find` (begin an edit).
 */
module Tasks {
  import opened Wrappers

  /**
   * One to-do item: `{id, text, status}`. `status` is true once the task is
   * completed. The per-item animation value of the app is not part of it.
   */
  datatype Task = Task(id: string, text: string, status: bool)

  /** The ids that occur in a list. */
  function Ids(ts: seq<Task>): set<string>
  {
    set t | t in ts :: t.id
  }

  /** No two positions of the list carry the same id. */
  predicate UniqueIds(ts: seq<Task>)
  {
    forall i, j :: 0 <= i < j < |ts| ==> ts[i].id != ts[j].id
  }

  /** `r` is `s` with some elements dropped and the rest kept in their order. */
  predicate IsSubsequence(r: seq<Task>, s: seq<Task>)
    decreases |s|
  {
    if s == [] then r == []
    else (r != [] && r[0] == s[0] && IsSubsequence(r[1..], s[1..])) || IsSubsequence(r, s[1..])
  }

  /** No task that is completed in `before` appears pending, under its id, in `after`. */
  predicate NoneReopened(before: seq<Task>, after: seq<Task>)
  {
    forall i, j :: 0 <= i < |before| && 0 <= j < |after| && before[i].id == after[j].id && before[i].status ==>
      after[j].status
  }

  // ---------------------------------------------------------------- filter

  /** JavaScript's `ts.filter(keep)`, scanning from the front. */
  function Filter(ts: seq<Task>, keep: Task -> bool): (r: seq<Task>)
    ensures |r| <= |ts|
    ensures forall t :: t in r <==> t in ts && keep(t)
  {
    if ts == [] then [] else (if keep(ts[0]) then [ts[0]] else []) + Filter(ts[1..], keep)
  }

  /** Filtering a concatenation filters each part and keeps the parts in order. */
  lemma {:induction false} FilterAppend(a: seq<Task>, b: seq<Task>, keep: Task -> bool)
    ensures Filter(a + b, keep) == Filter(a, keep) + Filter(b, keep)
  {
    if a == [] {
      assert a + b == b;
    } else {
      assert (a + b)[1..] == a[1..] + b;
      FilterAppend(a[1..], b, keep);
    }
  }

  /** The kept elements are a subsequence of the list: filtering never reorders. */
  lemma {:induction false} FilterIsSubsequence(ts: seq<Task>, keep: Task -> bool)
    ensures IsSubsequence(Filter(ts, keep), ts)
  {
    if ts != [] {
      FilterIsSubsequence(ts[1..], keep);
      var r := Filter(ts, keep);
      if keep(ts[0]) {
        assert r == [ts[0]] + Filter(ts[1..], keep);
        assert r[1..] == Filter(ts[1..], keep);
      } else {
        assert r == Filter(ts[1..], keep);
      }
    }
  }

  /** The kept and the dropped elements together are the list, counted with multiplicity. */
  lemma {:induction false} FilterPartition(ts: seq<Task>, keep: Task -> bool, drop: Task -> bool)
    requires forall t :: drop(t) == !keep(t)
    ensures multiset(Filter(ts, keep)) + multiset(Filter(ts, drop)) == multiset(ts)
  {
    if ts != [] {
      var x, rest := ts[0], ts[1..];
      var a, b := Filter(rest, keep), Filter(rest, drop);
      FilterPartition(rest, keep, drop);
      assert multiset(ts) == multiset{x} + multiset(rest) by {
        assert ts == [x] + rest;
      }
      if keep(x) {
        assert Filter(ts, keep) == [x] + a && Filter(ts, drop) == b;
        assert multiset([x] + a) == multiset{x} + multiset(a);
      } else {
        assert Filter(ts, keep) == a && Filter(ts, drop) == [x] + b;
        assert multiset([x] + b) == multiset{x} + multiset(b);
      }
    }
  }

  /** A list whose every element is kept is returned as it is. */
  lemma {:induction false} FilterKeepsAll(ts: seq<Task>, keep: Task -> bool)
    requires forall t :: t in ts ==> keep(t)
    ensures Filter(ts, keep) == ts
  {
    if ts != [] {
      FilterKeepsAll(ts[1..], keep);
    }
  }

  /** Filtering twice with the same test is filtering once. */
  lemma FilterIdempotent(ts: seq<Task>, keep: Task -> bool)
    ensures Filter(Filter(ts, keep), keep) == Filter(ts, keep)
  {
    FilterKeepsAll(Filter(ts, keep), keep);
  }

  /** Filtering keeps ids unique. */
  lemma {:induction false} FilterUnique(ts: seq<Task>, keep: Task -> bool)
    requires UniqueIds(ts)
    ensures UniqueIds(Filter(ts, keep))
  {
    if ts != [] {
      FilterUnique(ts[1..], keep);
      var r := Filter(ts, keep);
      if keep(ts[0]) {
        forall j | 0 < j < |r| ensures r[0].id != r[j].id {
          assert r[j] in Filter(ts[1..], keep);
        }
      }
    }
  }

  /** Under unique ids, filtering reopens nothing: every kept task is the same record. */
  lemma FilterNoneReopened(ts: seq<Task>, keep: Task -> bool)
    requires UniqueIds(ts)
    ensures NoneReopened(ts, Filter(ts, keep))
  {
    var r := Filter(ts, keep);
    forall i, j | 0 <= i < |ts| && 0 <= j < |r| && ts[i].id == r[j].id && ts[i].status
      ensures r[j].status
    {
      assert r[j] in ts;
      var k :| 0 <= k < |ts| && ts[k] == r[j];
      assert k == i;
    }
  }

  // ---------------------------------------------------------------- delete

  /** `deleteTask(id)`: `tasks.filter(item => item.id !== id)`. */
  function WithoutId(ts: seq<Task>, id: string): (r: seq<Task>)
    ensures |r| <= |ts| && id !in Ids(r)
  {
    Filter(ts, (t: Task) => t.id != id)
  }

  /**
   * Deleting leaves exactly the tasks with another id, in their order, and
   * drops exactly those with this id.
   */
  lemma DeleteSpec(ts: seq<Task>, id: string)
    ensures forall t :: t in WithoutId(ts, id) <==> t in ts && t.id != id
    ensures IsSubsequence(WithoutId(ts, id), ts)
    ensures multiset(WithoutId(ts, id)) + multiset(Filter(ts, (t: Task) => t.id == id)) == multiset(ts)
    ensures id !in Ids(WithoutId(ts, id))
  {
    FilterIsSubsequence(ts, (t: Task) => t.id != id);
    FilterPartition(ts, (t: Task) => t.id != id, (t: Task) => t.id == id);
  }

  /** Deleting an id that is not in the list changes nothing. */
  lemma DeleteAbsent(ts: seq<Task>, id: string)
    requires id !in Ids(ts)
    ensures WithoutId(ts, id) == ts
  {
    forall t | t in ts ensures t.id != id {
      assert t.id in Ids(ts);
    }
    FilterKeepsAll(ts, (t: Task) => t.id != id);
  }

  /** Under unique ids, deleting a present id removes exactly one task. */
  lemma {:induction false} DeleteOne(ts: seq<Task>, id: string)
    requires UniqueIds(ts) && id in Ids(ts)
    ensures |WithoutId(ts, id)| == |ts| - 1
  {
    if ts[0].id == id {
      forall t | t in ts[1..] ensures t.id != id {
        var j :| 0 <= j < |ts[1..]| && ts[1..][j] == t;
        assert ts[j + 1] == t;
      }
      assert id !in Ids(ts[1..]);
      DeleteAbsent(ts[1..], id);
    } else {
      var t :| t in ts && t.id == id;
      assert t in ts[1..];
      assert id in Ids(ts[1..]);
      DeleteOne(ts[1..], id);
    }
  }

  /** Deleting a task just appended with a fresh id gives back the list before the add. */
  lemma AddThenDelete(ts: seq<Task>, t: Task)
    requires t.id !in Ids(ts)
    ensures WithoutId(ts + [t], t.id) == ts
  {
    FilterAppend(ts, [t], (u: Task) => u.id != t.id);
    DeleteAbsent(ts, t.id);
    assert Filter([t], (u: Task) => u.id != t.id) == [];
  }

  // ---------------------------------------------------------- clear completed

  /** The test `clearCompletedTasks` keeps by. */
  predicate IsPending(t: Task)
  {
    !t.status
  }

  /** `clearCompletedTasks()`: `tasks.filter(task => !task.status)`. */
  function Pending(ts: seq<Task>): (r: seq<Task>)
    ensures |r| <= |ts|
    ensures forall i :: 0 <= i < |r| ==> !r[i].status
  {
    var r := Filter(ts, IsPending);
    assert forall i :: 0 <= i < |r| ==> r[i] in r;
    r
  }

  /**
   * Clearing leaves exactly the pending tasks, in their order; the removed
   * ones are exactly the completed tasks.
   */
  lemma ClearSpec(ts: seq<Task>)
    ensures forall t :: t in Pending(ts) <==> t in ts && !t.status
    ensures IsSubsequence(Pending(ts), ts)
    ensures multiset(Pending(ts)) + multiset(Filter(ts, (t: Task) => t.status)) == multiset(ts)
    ensures forall i :: 0 <= i < |Pending(ts)| ==> !Pending(ts)[i].status
  {
    FilterIsSubsequence(ts, IsPending);
    FilterPartition(ts, IsPending, (t: Task) => t.status);
  }

  /** A second clear changes nothing. */
  lemma ClearIdempotent(ts: seq<Task>)
    ensures Pending(Pending(ts)) == Pending(ts)
  {
    FilterIdempotent(ts, IsPending);
  }

  // ---------------------------------------------------------------- map

  /** JavaScript's `ts.map(f)`. */
  function Map(ts: seq<Task>, f: Task -> Task): (r: seq<Task>)
    ensures |r| == |ts|
    ensures forall i :: 0 <= i < |ts| ==> r[i] == f(ts[i])
  {
    if ts == [] then [] else [f(ts[0])] + Map(ts[1..], f)
  }

  /** `markAsCompleted(id)`: the matching tasks become `{...task, status: true}`. */
  function Completed(ts: seq<Task>, id: string): (r: seq<Task>)
    ensures |r| == |ts|
    ensures forall i :: 0 <= i < |ts| ==> r[i].id == ts[i].id && (ts[i].status ==> r[i].status)
  {
    Map(ts, (t: Task) => if t.id == id then t.(status := true) else t)
  }

  /**
   * Completing keeps length, order, ids and texts, and sets the status of
   * exactly the matching tasks, leaving the others untouched.
   */
  lemma CompleteSpec(ts: seq<Task>, id: string)
    ensures |Completed(ts, id)| == |ts|
    ensures forall i :: 0 <= i < |ts| ==>
      Completed(ts, id)[i].id == ts[i].id && Completed(ts, id)[i].text == ts[i].text &&
      (ts[i].id == id ==> Completed(ts, id)[i].status) &&
      (ts[i].id != id ==> Completed(ts, id)[i] == ts[i])
  {
  }

  /** Completing twice is completing once. */
  lemma CompleteIdempotent(ts: seq<Task>, id: string)
    ensures Completed(Completed(ts, id), id) == Completed(ts, id)
  {
    CompleteSpec(ts, id);
    CompleteSpec(Completed(ts, id), id);
  }

  /** Completing keeps ids unique and reopens nothing. */
  lemma CompleteSafe(ts: seq<Task>, id: string)
    requires UniqueIds(ts)
    ensures UniqueIds(Completed(ts, id))
    ensures NoneReopened(ts, Completed(ts, id))
  {
    CompleteSpec(ts, id);
  }

  /** `editDone()`'s rewrite: the tasks with id `id` get `{...tsk, text}`. */
  function Retexted(ts: seq<Task>, id: string, text: string): (r: seq<Task>)
    ensures |r| == |ts|
    ensures forall i :: 0 <= i < |ts| ==> r[i].id == ts[i].id && r[i].status == ts[i].status
  {
    Map(ts, (t: Task) => if t.id == id then t.(text := text) else t)
  }

  /**
   * Committing an edit keeps length, order, ids and statuses, replaces the
   * text of exactly the matching tasks, and leaves the others untouched.
   */
  lemma RetextSpec(ts: seq<Task>, id: string, text: string)
    ensures |Retexted(ts, id, text)| == |ts|
    ensures forall i :: 0 <= i < |ts| ==>
      Retexted(ts, id, text)[i].id == ts[i].id && Retexted(ts, id, text)[i].status == ts[i].status &&
      (ts[i].id == id ==> Retexted(ts, id, text)[i].text == text) &&
      (ts[i].id != id ==> Retexted(ts, id, text)[i] == ts[i])
  {
  }

  /** Committing an edit keeps ids unique and reopens nothing. */
  lemma RetextSafe(ts: seq<Task>, id: string, text: string)
    requires UniqueIds(ts)
    ensures UniqueIds(Retexted(ts, id, text))
    ensures NoneReopened(ts, Retexted(ts, id, text))
  {
    RetextSpec(ts, id, text);
  }

  // ---------------------------------------------------------------- add

  /** Appending a task whose id is new keeps ids unique and reopens nothing. */
  lemma AppendFreshSafe(ts: seq<Task>, t: Task)
    requires UniqueIds(ts) && t.id !in Ids(ts)
    ensures UniqueIds(ts + [t])
    ensures NoneReopened(ts, ts + [t])
  {
    forall i | 0 <= i < |ts| ensures ts[i].id != t.id {
      assert ts[i].id in Ids(ts);
    }
    var after := ts + [t];
    forall i, j | 0 <= i < |ts| && 0 <= j < |after| && ts[i].id == after[j].id && ts[i].status
      ensures after[j].status
    {
      assert j < |ts|;
      assert after[j] == ts[j] && i == j;
    }
  }

  // ---------------------------------------------------------------- find

  /** JavaScript's `ts.find(item => item.id === id)`: the first task with that id. */
  function Find(ts: seq<Task>, id: string): (r: Option<Task>)
    ensures r.None? <==> id !in Ids(ts)
    ensures r.Some? ==> r.value.id == id && exists i :: 0 <= i < |ts| && ts[i] == r.value && FirstWithId(ts, i, id)
  {
    if ts == [] then None
    else if ts[0].id == id then (assert FirstWithId(ts, 0, id); Some(ts[0]))
    else
      var r := Find(ts[1..], id);
      assert Ids(ts) == {ts[0].id} + Ids(ts[1..]) by {
        assert ts == [ts[0]] + ts[1..];
      }
      if r.Some? then
        var i :| 0 <= i < |ts[1..]| && ts[1..][i] == r.value && FirstWithId(ts[1..], i, id);
        assert FirstWithId(ts, i + 1, id);
        r
      else
        r
  }

  /** Position `i` holds `id` and no earlier position does. */
  predicate FirstWithId(ts: seq<Task>, i: int, id: string)
    requires 0 <= i < |ts|
  {
    ts[i].id == id && forall j :: 0 <= j < i ==> ts[j].id != id
  }
}
