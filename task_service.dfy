/** The task store (src/services/taskService.ts). The JSON file is the
    field `tasks` of the class `TaskService`. Every operation reads the whole
    collection; adding always writes it back whole, while completing and
    deleting write it back only when some task has the id. The collections
    they write are given by the functions before the class, and the lemmas
    relate them. */
module Services {
  import opened Types

  // ---------------------------------------------------------------------
  // Properties of a stored collection

  /** Some task in `ts` carries `id`. */
  ghost predicate HasId(ts: seq<Task>, id: string) {
    exists i :: 0 <= i < |ts| && ts[i].id == id
  }

  /** `i` is the position of the first task in `ts` that carries `id`. */
  ghost predicate IsFirstMatch(ts: seq<Task>, id: string, i: int) {
    0 <= i < |ts| && ts[i].id == id && forall j :: 0 <= j < i ==> ts[j].id != id
  }

  /** `completedAt` is present exactly on the completed tasks. */
  ghost predicate CompletionConsistent(ts: seq<Task>) {
    forall i :: 0 <= i < |ts| ==> (ts[i].completed <==> ts[i].completedAt.Some?)
  }

  /** No two tasks share an id. */
  ghost predicate UniqueIds(ts: seq<Task>) {
    forall i, j :: 0 <= i < j < |ts| ==> ts[i].id != ts[j].id
  }

  /** The invariant of the store. */
  ghost predicate TaskInvariant(ts: seq<Task>) {
    CompletionConsistent(ts) && UniqueIds(ts)
  }

  /** `a` is `b` with some elements dropped and the rest in their order. */
  ghost predicate IsSubsequence(a: seq<Task>, b: seq<Task>)
    decreases |b|
  {
    if |a| == 0 then true
    else if |b| == 0 then false
    else if a[0] == b[0] then IsSubsequence(a[1..], b[1..])
    else IsSubsequence(a, b[1..])
  }

  // ---------------------------------------------------------------------
  // The collections the operations compute

  /** The position of the first task whose id equals `id`, or -1 when no
      task has it. */
  function FindIndex(ts: seq<Task>, id: string): (r: int)
    ensures r == -1 <==> !HasId(ts, id)
    ensures r != -1 ==> IsFirstMatch(ts, id, r)
  {
    if |ts| == 0 then -1
    else if ts[0].id == id then 0
    else
      var k := FindIndex(ts[1..], id);
      assert forall i :: 1 <= i < |ts| ==> ts[i] == ts[1..][i - 1];
      if k == -1 then -1 else k + 1
  }

  /** The record `addTask` builds: pending, created at `now`. */
  function NewTask(id: string, title: string, description: Option<string>, now: Timestamp): (t: Task)
    ensures t.id == id && t.title == title && t.description == description
    ensures t.createdAt == now
    ensures !t.completed && t.completedAt == None
  {
    Task(id, title, description, false, now, None)
  }

  /** The collection `completeTask` leaves: the first task with `id` is
      completed at `now`; without such a task nothing changes. */
  function CompletedStore(ts: seq<Task>, id: string, now: Timestamp): (r: seq<Task>)
    ensures |r| == |ts|
    ensures !HasId(ts, id) ==> r == ts
    ensures forall j :: 0 <= j < |ts| && !IsFirstMatch(ts, id, j) ==> r[j] == ts[j]
    ensures forall i :: IsFirstMatch(ts, id, i) ==>
      r[i].completed && r[i].completedAt == Some(now) &&
      r[i].id == ts[i].id && r[i].title == ts[i].title &&
      r[i].description == ts[i].description && r[i].createdAt == ts[i].createdAt
  {
    var i := FindIndex(ts, id);
    if i == -1 then ts
    else ts[i := ts[i].(completed := true, completedAt := Some(now))]
  }

  /** The tasks whose id differs from `id`, in stored order. */
  function WithoutId(ts: seq<Task>, id: string): (r: seq<Task>)
    ensures |r| <= |ts|
    ensures forall k :: 0 <= k < |r| ==> r[k].id != id
    ensures |r| < |ts| <==> HasId(ts, id)
    ensures !HasId(ts, id) ==> r == ts
  {
    if |ts| == 0 then []
    else
      var rest := WithoutId(ts[1..], id);
      assert forall i :: 1 <= i < |ts| ==> ts[i] == ts[1..][i - 1];
      assert ts == [ts[0]] + ts[1..];
      if ts[0].id != id then [ts[0]] + rest else rest
  }

  // ---------------------------------------------------------------------
  // Lemmas

  /** Lookup only depends on the ids, so a collection whose ids are those
      of `ts`, position by position, finds `id` at the same place. */
  lemma SameIdsSameIndex(ts: seq<Task>, us: seq<Task>, id: string)
    requires |ts| == |us|
    requires forall i :: 0 <= i < |ts| ==> ts[i].id == us[i].id
    ensures FindIndex(us, id) == FindIndex(ts, id)
  {
  }

  /** A task appended with a fresh id is found at the end, and every id
      already stored is still found where it was. */
  lemma AddThenFind(ts: seq<Task>, t: Task, id: string)
    requires !HasId(ts, t.id)
    ensures FindIndex(ts + [t], t.id) == |ts|
    ensures HasId(ts, id) ==> FindIndex(ts + [t], id) == FindIndex(ts, id)
  {
    var s := ts + [t];
    assert s[|ts|].id == t.id;
    assert forall i :: 0 <= i < |ts| ==> s[i] == ts[i];
  }

  /** Appending a fresh pending task keeps the invariant of the store. */
  lemma AddKeepsInvariant(ts: seq<Task>, id: string, title: string, description: Option<string>, now: Timestamp)
    requires TaskInvariant(ts) && !HasId(ts, id)
    ensures TaskInvariant(ts + [NewTask(id, title, description, now)])
  {
  }

  /** Completing keeps every id in its place and keeps the invariant. */
  lemma CompleteKeepsInvariant(ts: seq<Task>, id: string, now: Timestamp)
    requires TaskInvariant(ts)
    ensures forall i :: 0 <= i < |ts| ==> CompletedStore(ts, id, now)[i].id == ts[i].id
    ensures TaskInvariant(CompletedStore(ts, id, now))
  {
  }

  /** Completing an already completed task again only moves its
      `completedAt` to the later call's time. */
  lemma RecompleteRefreshes(ts: seq<Task>, id: string, first: Timestamp, second: Timestamp)
    ensures CompletedStore(CompletedStore(ts, id, first), id, second) == CompletedStore(ts, id, second)
  {
    SameIdsSameIndex(ts, CompletedStore(ts, id, first), id);
  }

  /** After completion the lookup of `id` yields the completed task. */
  lemma FindAfterComplete(ts: seq<Task>, id: string, now: Timestamp)
    requires HasId(ts, id)
    ensures FindIndex(CompletedStore(ts, id, now), id) == FindIndex(ts, id)
    ensures CompletedStore(ts, id, now)[FindIndex(ts, id)].completedAt == Some(now)
  {
    SameIdsSameIndex(ts, CompletedStore(ts, id, now), id);
  }

  /** Filtering keeps the remaining tasks in their stored order. */
  lemma {:induction false} WithoutIdKeepsOrder(ts: seq<Task>, id: string)
    ensures IsSubsequence(WithoutId(ts, id), ts)
  {
    if |ts| > 0 {
      var rest := WithoutId(ts[1..], id);
      WithoutIdKeepsOrder(ts[1..], id);
      if ts[0].id != id {
        assert ([ts[0]] + rest)[1..] == rest;
      } else if |rest| > 0 {
        assert rest[0] != ts[0];
      }
    }
  }

  /** Filtering keeps every task without `id` as often as it was stored. */
  lemma {:induction false} WithoutIdKeepsOthers(ts: seq<Task>, id: string, t: Task)
    requires t.id != id
    ensures multiset(WithoutId(ts, id))[t] == multiset(ts)[t]
  {
    if |ts| > 0 {
      var x, tail := ts[0], ts[1..];
      var rest := WithoutId(tail, id);
      WithoutIdKeepsOthers(tail, id, t);
      assert ts == [x] + tail;
      assert multiset(ts) == multiset{x} + multiset(tail);
      if x.id != id {
        assert WithoutId(ts, id) == [x] + rest;
        assert multiset(WithoutId(ts, id)) == multiset{x} + multiset(rest);
      } else {
        assert WithoutId(ts, id) == rest;
        assert x != t;
      }
    }
  }

  /** Filtering keeps only stored tasks. */
  lemma {:induction false} WithoutIdSubset(ts: seq<Task>, id: string)
    ensures forall t :: t in WithoutId(ts, id) ==> t in ts
  {
    if |ts| > 0 {
      var head := if ts[0].id != id then [ts[0]] else [];
      var tail := ts[1..];
      WithoutIdSubset(tail, id);
      assert WithoutId(ts, id) == head + WithoutId(tail, id);
      assert ts == [ts[0]] + tail;
    }
  }

  /** Filtering a collection with unique ids keeps them unique. */
  lemma {:induction false} WithoutIdKeepsUniqueIds(ts: seq<Task>, id: string)
    requires UniqueIds(ts)
    ensures UniqueIds(WithoutId(ts, id))
  {
    if |ts| > 0 {
      var tail := ts[1..];
      assert UniqueIds(tail) by {
        forall i, j | 0 <= i < j < |tail| ensures tail[i].id != tail[j].id {
          assert tail[i] == ts[i + 1] && tail[j] == ts[j + 1];
        }
      }
      WithoutIdKeepsUniqueIds(tail, id);
      WithoutIdSubset(tail, id);
      var rest := WithoutId(tail, id);
      if ts[0].id != id {
        var r := [ts[0]] + rest;
        forall i, j | 0 <= i < j < |r| ensures r[i].id != r[j].id {
          if i == 0 {
            assert r[j] == rest[j - 1] && rest[j - 1] in tail;
            var m :| 0 <= m < |tail| && tail[m] == rest[j - 1];
            assert tail[m] == ts[m + 1];
          } else {
            assert r[i] == rest[i - 1] && r[j] == rest[j - 1];
          }
        }
      }
    }
  }

  /** Deleting keeps the invariant of the store. */
  lemma DeleteKeepsInvariant(ts: seq<Task>, id: string)
    requires TaskInvariant(ts)
    ensures TaskInvariant(WithoutId(ts, id))
  {
    WithoutIdSubset(ts, id);
    WithoutIdKeepsUniqueIds(ts, id);
    var r := WithoutId(ts, id);
    forall k | 0 <= k < |r| ensures r[k].completed <==> r[k].completedAt.Some? {
      assert r[k] in ts;
    }
  }

  /** With unique ids, deleting a stored id removes exactly one task. */
  lemma {:induction false} DeleteRemovesOne(ts: seq<Task>, id: string)
    requires UniqueIds(ts) && HasId(ts, id)
    ensures |WithoutId(ts, id)| == |ts| - 1
  {
    var tail := ts[1..];
    if ts[0].id == id {
      assert !HasId(tail, id) by {
        forall i | 0 <= i < |tail| ensures tail[i].id != id {
          assert tail[i] == ts[i + 1];
        }
      }
    } else {
      assert UniqueIds(tail) by {
        forall i, j | 0 <= i < j < |tail| ensures tail[i].id != tail[j].id {
          assert tail[i] == ts[i + 1] && tail[j] == ts[j + 1];
        }
      }
      var k :| 0 <= k < |ts| && ts[k].id == id;
      assert tail[k - 1] == ts[k];
      DeleteRemovesOne(tail, id);
    }
  }

  /** Filtering a concatenation filters each part. */
  lemma {:induction false} WithoutIdAppend(a: seq<Task>, b: seq<Task>, id: string)
    ensures WithoutId(a + b, id) == WithoutId(a, id) + WithoutId(b, id)
  {
    if |a| > 0 {
      assert (a + b)[1..] == a[1..] + b;
      WithoutIdAppend(a[1..], b, id);
    } else {
      assert a + b == b;
    }
  }

  /** The lifecycle of one task: adding it with a fresh id, completing it
      and deleting it returns the store to what it was, and in between the
      task is found completed. */
  lemma Lifecycle(ts: seq<Task>, id: string, title: string, description: Option<string>, created: Timestamp, done: Timestamp)
    requires !HasId(ts, id)
    ensures var added := ts + [NewTask(id, title, description, created)];
            var completed := CompletedStore(added, id, done);
            FindIndex(completed, id) == |ts| &&
            completed[|ts|] == Task(id, title, description, true, created, Some(done)) &&
            WithoutId(completed, id) == ts
  {
    var t := NewTask(id, title, description, created);
    var added := ts + [t];
    AddThenFind(ts, t, id);
    assert IsFirstMatch(added, id, |ts|);
    var completed := CompletedStore(added, id, done);
    FindAfterComplete(added, id, done);
    var c := Task(id, title, description, true, created, Some(done));
    assert completed == ts + [c] by {
      forall j | 0 <= j < |ts| ensures completed[j] == ts[j] {
        assert !IsFirstMatch(added, id, j);
      }
    }
    WithoutIdAppend(ts, [c], id);
    assert WithoutId([c], id) == [];
  }

  // ---------------------------------------------------------------------
  // The service

  /** `TaskService`: the field `tasks` is the stored collection. The two
      queries only read it; the three updates reassign it, except that
      completing or deleting an absent id leaves it as it was. */
  class TaskService {
    var tasks: seq<Task>

    ghost predicate Valid()
      reads this
    {
      TaskInvariant(tasks)
    }

    /** Opening the store. `stored` is the file's content when the file
        exists; a missing file is created holding no tasks. */
    constructor (stored: Option<seq<Task>>)
      ensures stored.Some? ==> tasks == stored.value
      ensures stored.None? ==> tasks == [] && Valid()
    {
      if stored.None? {
        tasks := [];
      } else {
        tasks := stored.value;
      }
    }

    /** `addTask`: a pending task with the supplied id and creation time is
        appended and returned; the title and description are taken as given. */
    method AddTask(title: string, description: Option<string>, id: string, now: Timestamp) returns (t: Task)
      modifies this
      ensures t.id == id && t.title == title && t.description == description
      ensures t.createdAt == now && !t.completed && t.completedAt == None
      ensures tasks == old(tasks) + [t]
      ensures old(Valid()) && !HasId(old(tasks), id) ==> Valid()
      ensures !HasId(old(tasks), id) ==> GetTaskById(id) == Some(t)
    {
      ghost var before := tasks;
      t := NewTask(id, title, description, now);
      tasks := tasks + [t];
      if !HasId(before, id) {
        AddThenFind(before, t, id);
        if TaskInvariant(before) {
          AddKeepsInvariant(before, id, title, description, now);
        }
      }
    }

    /** `getAllTasks`: the stored collection, in stored order. */
    function GetAllTasks(): (r: seq<Task>)
      reads this
      ensures r == tasks
    {
      tasks
    }

    /** `getTaskById`: the first stored task with the id, if any. */
    function GetTaskById(id: string): (r: Option<Task>)
      reads this
      ensures r.None? <==> !HasId(tasks, id)
      ensures r.Some? ==> exists i :: IsFirstMatch(tasks, id, i) && r.value == tasks[i]
    {
      var i := FindIndex(tasks, id);
      if i == -1 then None else Some(tasks[i])
    }

    /** `completeTask`: the first task with the id is marked completed at
        `now` and returned as updated; without one, nothing is written. */
    method CompleteTask(id: string, now: Timestamp) returns (r: Option<Task>)
      modifies this
      ensures r.None? <==> !HasId(old(tasks), id)
      ensures tasks == CompletedStore(old(tasks), id, now)
      ensures r.Some? ==> r == GetTaskById(id) && r.value.completed && r.value.completedAt == Some(now)
      ensures old(Valid()) ==> Valid()
    {
      ghost var before := tasks;
      var i := FindIndex(tasks, id);
      if i == -1 {
        return None;
      }
      tasks := tasks[i := tasks[i].(completed := true)];
      tasks := tasks[i := tasks[i].(completedAt := Some(now))];
      r := Some(tasks[i]);
      FindAfterComplete(before, id, now);
      if TaskInvariant(before) {
        CompleteKeepsInvariant(before, id, now);
      }
    }

    /** `deleteTask`: every task with the id is removed, the rest kept in
        order; the answer says whether anything was removed, and nothing is
        written when nothing was. */
    method DeleteTask(id: string) returns (deleted: bool)
      modifies this
      ensures deleted <==> HasId(old(tasks), id)
      ensures tasks == WithoutId(old(tasks), id)
      ensures !deleted ==> tasks == old(tasks)
      ensures GetTaskById(id) == None
      ensures old(Valid()) ==> Valid()
    {
      var initialLength := |tasks|;
      var kept := WithoutId(tasks, id);
      if |kept| < initialLength {
        if TaskInvariant(tasks) {
          DeleteKeepsInvariant(tasks, id);
        }
        tasks := kept;
        return true;
      }
      return false;
    }
  }
}
