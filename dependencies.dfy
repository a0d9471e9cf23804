/**
 * The first half of prioritizeTasks: indexing every reachable task by its
 * (page, id) key and inverting the declared do-before edges into do-after lists.
 */
module Dependencies {
  import opened TaskModel
  import opened DoAfters

  /** `tasksByKey` maps the key of every task of `allTasks`, and only those, to that task. */
  ghost predicate IsIndex(tasksByKey: map<TaskKey, Task>, allTasks: seq<Task>) {
    && tasksByKey.Keys == (set t | t in allTasks :: t.key)
    && forall t :: t in allTasks ==> tasksByKey[t.key] == t
  }

  /**
   * Indexes the tasks by (page, id). A key seen twice is a fatal duplicate; the
   * reported key is one that two tasks share.
   */
  method IndexTasks(allTasks: seq<Task>) returns (r: Result<map<TaskKey, Task>, Fatal>)
    ensures r.Ok? <==> UniqueKeys(allTasks)
    ensures r.Ok? ==> IsIndex(r.value, allTasks)
    ensures r.Err? ==> r.error.DuplicateTask?
    ensures r.Err? ==> exists i, j :: 0 <= i < j < |allTasks| && allTasks[i].key == allTasks[j].key == r.error.key
  {
    var tasksByKey: map<TaskKey, Task> := map[];
    for n := 0 to |allTasks|
      invariant UniqueKeys(allTasks[..n])
      invariant IsIndex(tasksByKey, allTasks[..n])
    {
      var task := allTasks[n];
      if task.key in tasksByKey {
        var i :| 0 <= i < n && allTasks[i].key == task.key;
        return Err(DuplicateTask(task.key));
      }
      tasksByKey := tasksByKey[task.key := task];
      assert allTasks[..n + 1] == allTasks[..n] + [task];
    }
    assert allTasks[..|allTasks|] == allTasks;
    return Ok(tasksByKey);
  }

  /**
   * The do-after map of the tree `allTasks`: every task that some task names as
   * a do-before, mapped to the list of those naming tasks.
   */
  function Inverted(allTasks: seq<Task>): map<Task, seq<Task>> {
    map t | t in allTasks && Naming(allTasks, t.key) != [] :: Naming(allTasks, t.key)
  }

  /** The do-after list of `t` in `m`, empty when `t` has none yet. */
  function ListOf(m: map<Task, seq<Task>>, t: Task): seq<Task> {
    if t in m then m[t] else []
  }

  /**
   * The do-after map of a tree with unique keys, described pointwise: it holds
   * only tasks of `allTasks` with a non-empty list, and the list of each task
   * is the list of tasks of the prefix `done` that name it.
   */
  ghost predicate InvertedOver(m: map<Task, seq<Task>>, allTasks: seq<Task>, done: seq<Task>) {
    && (forall t :: t in m ==> t in allTasks && m[t] != [])
    && (forall t :: t in allTasks ==> ListOf(m, t) == Naming(done, t.key))
  }

  lemma InvertedOverAll(m: map<Task, seq<Task>>, allTasks: seq<Task>)
    requires InvertedOver(m, allTasks, allTasks)
    ensures m == Inverted(allTasks)
  {
    assert m.Keys == Inverted(allTasks).Keys;
  }

  lemma InvertedOverStep(m: map<Task, seq<Task>>, next: map<Task, seq<Task>>, allTasks: seq<Task>, i: nat)
    requires i < |allTasks| && InvertedOver(m, allTasks, allTasks[..i])
    requires forall t :: t in next ==> t in allTasks && next[t] != []
    requires forall t :: t in allTasks ==>
      ListOf(next, t) == ListOf(m, t) + Repeat(allTasks[i], allTasks[i].doBefores, t.key)
    ensures InvertedOver(next, allTasks, allTasks[..i + 1])
  {
    var done := allTasks[..i + 1];
    assert done[..i] == allTasks[..i] && done[i] == allTasks[i];
    forall t | t in allTasks
      ensures ListOf(next, t) == Naming(done, t.key)
    {
      assert Naming(done, t.key) == Naming(allTasks[..i], t.key) + Repeat(allTasks[i], allTasks[i].doBefores, t.key);
    }
  }

  /**
   * Inverts the do-before edges of every task, in traversal order and then
   * declared order. The first lookup that is not in the index is fatal.
   */
  method InvertDoBefores(allTasks: seq<Task>, tasksByKey: map<TaskKey, Task>)
    returns (r: Result<map<Task, seq<Task>>, Fatal>)
    requires UniqueKeys(allTasks) && IsIndex(tasksByKey, allTasks)
    ensures r == match FirstUnresolvedOf(allTasks, allTasks)
                 case Some(k) => Err(TaskNotFound(k))
                 case None => Ok(Inverted(allTasks))
  {
    var doAftersByTask: map<Task, seq<Task>> := map[];
    for i := 0 to |allTasks|
      invariant FirstUnresolvedOf(allTasks, allTasks[..i]).None?
      invariant InvertedOver(doAftersByTask, allTasks, allTasks[..i])
    {
      var task := allTasks[i];
      assert allTasks[..i + 1][..i] == allTasks[..i];
      var next := InvertFromTask(allTasks, tasksByKey, doAftersByTask, task);
      if next.Err? {
        FirstUnresolvedOfPrefix(allTasks, allTasks, i + 1);
        return Err(next.error);
      }
      InvertedOverStep(doAftersByTask, next.value, allTasks, i);
      doAftersByTask := next.value;
    }
    assert allTasks[..|allTasks|] == allTasks;
    InvertedOverAll(doAftersByTask, allTasks);
    return Ok(doAftersByTask);
  }

  /**
   * One task of the traversal: each of its lookups is found in the index and
   * the task is appended to the do-after list of the task found there.
   */
  method InvertFromTask(allTasks: seq<Task>, tasksByKey: map<TaskKey, Task>, m: map<Task, seq<Task>>, cur: Task)
    returns (r: Result<map<Task, seq<Task>>, Fatal>)
    requires UniqueKeys(allTasks) && IsIndex(tasksByKey, allTasks)
    requires forall t :: t in m ==> t in allTasks && m[t] != []
    ensures r.Err? <==> FirstUnresolved(allTasks, cur.doBefores).Some?
    ensures r.Err? ==> r.error == TaskNotFound(FirstUnresolved(allTasks, cur.doBefores).value)
    ensures r.Ok? ==> forall t :: t in r.value ==> t in allTasks && r.value[t] != []
    ensures r.Ok? ==> forall t :: t in allTasks ==>
      ListOf(r.value, t) == ListOf(m, t) + Repeat(cur, cur.doBefores, t.key)
  {
    var acc := m;
    assert AppendedUpTo(acc, m, allTasks, cur, 0);
    for j := 0 to |cur.doBefores|
      invariant FirstUnresolved(allTasks, cur.doBefores[..j]).None?
      invariant AppendedUpTo(acc, m, allTasks, cur, j)
    {
      var lookup := cur.doBefores[j];
      FirstUnresolvedStep(allTasks, cur.doBefores, j);
      ResolveMatchesIndex(tasksByKey, allTasks, lookup);
      if lookup !in tasksByKey {
        FirstUnresolvedPrefix(allTasks, cur.doBefores, j + 1);
        return Err(TaskNotFound(lookup));
      }
      var doBefore := tasksByKey[lookup];
      AppendStep(tasksByKey, allTasks, m, acc, cur, j);
      acc := acc[doBefore := ListOf(acc, doBefore) + [cur]];
    }
    assert cur.doBefores[..|cur.doBefores|] == cur.doBefores;
    return Ok(acc);
  }

  /**
   * The loop invariant of InvertFromTask after `j` lookups: `acc` holds only
   * tasks of `allTasks` with non-empty lists, and extends each list of `m` by
   * `cur` once per lookup so far that names its task.
   */
  ghost predicate AppendedUpTo(acc: map<Task, seq<Task>>, m: map<Task, seq<Task>>, allTasks: seq<Task>, cur: Task, j: nat)
    requires j <= |cur.doBefores|
  {
    && (forall t :: t in acc ==> t in allTasks && acc[t] != [])
    && (forall t :: t in allTasks ==> ListOf(acc, t) == ListOf(m, t) + RepeatUpTo(cur, j, t.key))
  }

  /** `cur` once for each of its first `j` lookups equal to `k`. */
  function RepeatUpTo(cur: Task, j: nat, k: TaskKey): seq<Task>
    requires j <= |cur.doBefores|
  {
    Repeat(cur, cur.doBefores[..j], k)
  }

  /** Appending `cur` for lookup `j` keeps the invariant of InvertFromTask for `j + 1` lookups. */
  lemma AppendStep(tasksByKey: map<TaskKey, Task>, allTasks: seq<Task>, m: map<Task, seq<Task>>,
                   before: map<Task, seq<Task>>, cur: Task, j: nat)
    requires UniqueKeys(allTasks) && IsIndex(tasksByKey, allTasks)
    requires j < |cur.doBefores| && cur.doBefores[j] in tasksByKey
    requires AppendedUpTo(before, m, allTasks, cur, j)
    ensures AppendedUpTo(before[tasksByKey[cur.doBefores[j]] := ListOf(before, tasksByKey[cur.doBefores[j]]) + [cur]],
                         m, allTasks, cur, j + 1)
  {
    var doBefore := tasksByKey[cur.doBefores[j]];
    ResolveMatchesIndex(tasksByKey, allTasks, cur.doBefores[j]);
    AppendKeys(before, allTasks, doBefore, cur);
    AppendLists(tasksByKey, allTasks, m, before, cur, j);
  }

  /** The appended map still holds only tasks of `allTasks` with non-empty lists. */
  lemma AppendKeys(before: map<Task, seq<Task>>, allTasks: seq<Task>, doBefore: Task, cur: Task)
    requires doBefore in allTasks
    requires forall t :: t in before ==> t in allTasks && before[t] != []
    ensures var acc := before[doBefore := ListOf(before, doBefore) + [cur]];
      forall t :: t in acc ==> t in allTasks && acc[t] != []
  {
  }

  /** Appending `cur` for lookup `j` extends exactly the list of the task that lookup names. */
  lemma AppendLists(tasksByKey: map<TaskKey, Task>, allTasks: seq<Task>, m: map<Task, seq<Task>>,
                    before: map<Task, seq<Task>>, cur: Task, j: nat)
    requires UniqueKeys(allTasks) && IsIndex(tasksByKey, allTasks)
    requires j < |cur.doBefores| && cur.doBefores[j] in tasksByKey
    requires forall t :: t in allTasks ==> ListOf(before, t) == ListOf(m, t) + RepeatUpTo(cur, j, t.key)
    ensures var doBefore := tasksByKey[cur.doBefores[j]];
      var acc := before[doBefore := ListOf(before, doBefore) + [cur]];
      forall t :: t in allTasks ==> ListOf(acc, t) == ListOf(m, t) + RepeatUpTo(cur, j + 1, t.key)
  {
    var doBefore := tasksByKey[cur.doBefores[j]];
    var acc := before[doBefore := ListOf(before, doBefore) + [cur]];
    forall t | t in allTasks
      ensures ListOf(acc, t) == ListOf(m, t) + RepeatUpTo(cur, j + 1, t.key)
    {
      RepeatSnoc(cur, cur.doBefores, j, t.key);
      IndexedIsOnly(tasksByKey, allTasks, t, cur.doBefores[j]);
      var old_ := ListOf(before, t);
      var rj, rj1 := Repeat(cur, cur.doBefores[..j], t.key), Repeat(cur, cur.doBefores[..j + 1], t.key);
      if t == doBefore {
        assert rj1 == rj + [cur];
        assert ListOf(acc, t) == old_ + [cur];
        assert ListOf(m, t) + rj1 == (ListOf(m, t) + rj) + [cur];
      } else {
        assert rj1 == rj;
        assert ListOf(acc, t) == old_;
      }
    }
  }

  /** Under unique keys, the indexed task is the only task with its key. */
  lemma IndexedIsOnly(tasksByKey: map<TaskKey, Task>, allTasks: seq<Task>, t: Task, k: TaskKey)
    requires UniqueKeys(allTasks) && IsIndex(tasksByKey, allTasks)
    requires t in allTasks && k in tasksByKey
    ensures t.key == k <==> t == tasksByKey[k]
  {
    if t.key == k {
      var d := tasksByKey[k];
      assert d in allTasks;
      var a :| 0 <= a < |allTasks| && allTasks[a] == t;
      var b :| 0 <= b < |allTasks| && allTasks[b] == d;
      if a != b {
        assert allTasks[a].key == allTasks[b].key;
      }
    }
  }

  lemma ResolveMatchesIndex(tasksByKey: map<TaskKey, Task>, allTasks: seq<Task>, k: TaskKey)
    requires IsIndex(tasksByKey, allTasks)
    ensures k in tasksByKey <==> Resolve(allTasks, k).Some?
    ensures k in tasksByKey ==> tasksByKey[k] in allTasks && tasksByKey[k].key == k
  {
    if Resolve(allTasks, k).Some? {
      assert Resolve(allTasks, k).value.key == k;
    }
    if k in tasksByKey {
      var t :| t in allTasks && t.key == k;
    }
  }

  /**
   * The do-after map keeps every declared edge: each lookup of each task of a
   * consistent tree lands in the list of the task it names.
   */
  lemma EveryEdgeInverted(allTasks: seq<Task>, t: Task, k: TaskKey)
    requires UniqueKeys(allTasks) && AllResolve(allTasks)
    requires t in allTasks && k in t.doBefores
    ensures var d := Resolve(allTasks, k).value;
      d in Inverted(allTasks) && d.key == k && t in Inverted(allTasks)[d]
  {
    var d := Resolve(allTasks, k).value;
    NamingMembers(allTasks, k, t);
  }

  /** And it invents none: a task is a do-after of `d` only if it names `d`. */
  lemma InvertedOnlyDeclared(allTasks: seq<Task>, d: Task, t: Task)
    requires d in Inverted(allTasks) && t in Inverted(allTasks)[d]
    ensures d in allTasks && t in allTasks && d.key in t.doBefores
  {
    NamingMembers(allTasks, d.key, t);
  }
}
