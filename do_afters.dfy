/**
 * Finding the tasks that must be done after a given task: every task of the
 * captured page tree whose do-before lookups point at it.
 */
module DoAfters {
  import opened TaskModel

  /**
   * Resolution of a do-before lookup against the captured tree (given as the
   * traversal sequence `universe`): the first task with the lookup's key.
   */
  function Resolve(universe: seq<Task>, k: TaskKey): (r: Option<Task>)
    ensures r.Some? ==> r.value in universe && r.value.key == k
    ensures r.None? <==> forall t :: t in universe ==> t.key != k
  {
    if universe == [] then None
    else if universe[0].key == k then Some(universe[0])
    else Resolve(universe[1..], k)
  }

  /** Every do-before lookup of every task in `universe` resolves within it. */
  ghost predicate AllResolve(universe: seq<Task>) {
    forall t, l :: t in universe && l in t.doBefores ==> Resolve(universe, l).Some?
  }

  /** The first lookup of `ls` that does not resolve in `universe`, if any. */
  function FirstUnresolved(universe: seq<Task>, ls: seq<TaskKey>): Option<TaskKey> {
    if ls == [] then None
    else
      var before := FirstUnresolved(universe, ls[..|ls| - 1]);
      if before.Some? then before
      else if Resolve(universe, ls[|ls| - 1]).None? then Some(ls[|ls| - 1])
      else None
  }

  /**
   * The first do-before lookup, in traversal order and then declared order,
   * of the tasks `ts` that does not resolve in `universe`, if any.
   */
  function FirstUnresolvedOf(universe: seq<Task>, ts: seq<Task>): Option<TaskKey> {
    if ts == [] then None
    else
      var before := FirstUnresolvedOf(universe, ts[..|ts| - 1]);
      if before.Some? then before
      else FirstUnresolved(universe, ts[|ts| - 1].doBefores)
  }

  /** One more lookup after `j` resolved ones: it fails exactly when that lookup does not resolve. */
  lemma FirstUnresolvedStep(universe: seq<Task>, ls: seq<TaskKey>, j: nat)
    requires j < |ls| && FirstUnresolved(universe, ls[..j]).None?
    ensures FirstUnresolved(universe, ls[..j + 1]) == if Resolve(universe, ls[j]).None? then Some(ls[j]) else None
  {
    assert ls[..j + 1][..j] == ls[..j];
  }

  lemma {:induction false} FirstUnresolvedPrefix(universe: seq<Task>, ls: seq<TaskKey>, j: nat)
    requires j <= |ls| && FirstUnresolved(universe, ls[..j]).Some?
    ensures FirstUnresolved(universe, ls) == FirstUnresolved(universe, ls[..j])
  {
    if j < |ls| {
      assert ls[..|ls| - 1][..j] == ls[..j];
      FirstUnresolvedPrefix(universe, ls[..|ls| - 1], j);
    } else {
      assert ls[..j] == ls;
    }
  }

  lemma {:induction false} FirstUnresolvedOfPrefix(universe: seq<Task>, ts: seq<Task>, i: nat)
    requires i <= |ts| && FirstUnresolvedOf(universe, ts[..i]).Some?
    ensures FirstUnresolvedOf(universe, ts) == FirstUnresolvedOf(universe, ts[..i])
  {
    if i < |ts| {
      assert ts[..|ts| - 1][..i] == ts[..i];
      FirstUnresolvedOfPrefix(universe, ts[..|ts| - 1], i);
    } else {
      assert ts[..i] == ts;
    }
  }

  lemma {:induction false} FirstUnresolvedMeans(universe: seq<Task>, ls: seq<TaskKey>)
    ensures FirstUnresolved(universe, ls).None? <==> forall l :: l in ls ==> Resolve(universe, l).Some?
    ensures FirstUnresolved(universe, ls).Some? ==>
      FirstUnresolved(universe, ls).value in ls && Resolve(universe, FirstUnresolved(universe, ls).value).None?
  {
    if ls != [] {
      var init, last := ls[..|ls| - 1], ls[|ls| - 1];
      FirstUnresolvedMeans(universe, init);
      assert ls == init + [last];
      if FirstUnresolved(universe, ls).None? {
        forall l | l in ls ensures Resolve(universe, l).Some? {
          if l != last {
            assert l in init;
          }
        }
      } else if FirstUnresolved(universe, init).Some? {
        assert FirstUnresolved(universe, init).value in ls;
      } else {
        assert last in ls;
      }
    }
  }

  /**
   * No failure is reported exactly when every lookup resolves, and a reported
   * lookup is one of the tree's lookups that does not resolve.
   */
  lemma {:induction false} FirstUnresolvedOfMeans(universe: seq<Task>, ts: seq<Task>)
    ensures FirstUnresolvedOf(universe, ts).None? <==>
      forall t, l :: t in ts && l in t.doBefores ==> Resolve(universe, l).Some?
    ensures FirstUnresolvedOf(universe, ts).Some? ==>
      var k := FirstUnresolvedOf(universe, ts).value;
      Resolve(universe, k).None? && exists t :: t in ts && k in t.doBefores
  {
    if ts != [] {
      var init, last := ts[..|ts| - 1], ts[|ts| - 1];
      FirstUnresolvedOfMeans(universe, init);
      FirstUnresolvedMeans(universe, last.doBefores);
      assert ts == init + [last];
    }
  }

  /** `t` once for each lookup in `lookups` equal to `k`, in lookup order. */
  function Repeat(t: Task, lookups: seq<TaskKey>, k: TaskKey): seq<Task> {
    if lookups == [] then []
    else Repeat(t, lookups[..|lookups| - 1], k)
         + (if lookups[|lookups| - 1] == k then [t] else [])
  }

  /**
   * The tasks of `ts` that name `k` as a do-before: each once per such lookup,
   * in traversal order and then in declared-lookup order.
   */
  function Naming(ts: seq<Task>, k: TaskKey): seq<Task> {
    if ts == [] then []
    else Naming(ts[..|ts| - 1], k) + Repeat(ts[|ts| - 1], ts[|ts| - 1].doBefores, k)
  }

  /** Number of occurrences of `k` in `lookups`. */
  function Count(lookups: seq<TaskKey>, k: TaskKey): nat {
    if lookups == [] then 0
    else Count(lookups[..|lookups| - 1], k) + (if lookups[|lookups| - 1] == k then 1 else 0)
  }

  lemma {:induction false} RepeatIsCopies(t: Task, lookups: seq<TaskKey>, k: TaskKey)
    ensures |Repeat(t, lookups, k)| == Count(lookups, k)
    ensures forall x :: x in Repeat(t, lookups, k) ==> x == t
    ensures Count(lookups, k) > 0 <==> k in lookups
    ensures t in Repeat(t, lookups, k) <==> k in lookups
  {
    if lookups != [] {
      var init := lookups[..|lookups| - 1];
      RepeatIsCopies(t, init, k);
      assert lookups == init + [lookups[|lookups| - 1]];
    }
  }

  lemma RepeatSnoc(t: Task, lookups: seq<TaskKey>, j: nat, k: TaskKey)
    requires j < |lookups|
    ensures Repeat(t, lookups[..j + 1], k) == Repeat(t, lookups[..j], k) + (if lookups[j] == k then [t] else [])
  {
    assert lookups[..j + 1][..j] == lookups[..j];
  }

  /** A task is among those naming `k` exactly when it is in `ts` and lists `k`. */
  lemma {:induction false} NamingMembers(ts: seq<Task>, k: TaskKey, x: Task)
    ensures x in Naming(ts, k) <==> x in ts && k in x.doBefores
  {
    if ts != [] {
      var init, last := ts[..|ts| - 1], ts[|ts| - 1];
      NamingMembers(init, k, x);
      RepeatIsCopies(last, last.doBefores, k);
      assert ts == init + [last];
    }
  }

  /** Naming follows the traversal order: it distributes over concatenation. */
  lemma {:induction false} NamingAppend(a: seq<Task>, b: seq<Task>, k: TaskKey)
    ensures Naming(a + b, k) == Naming(a, k) + Naming(b, k)
  {
    if b != [] {
      var init, last := b[..|b| - 1], b[|b| - 1];
      NamingAppend(a, init, k);
      assert (a + b)[..|a + b| - 1] == a + init;
    } else {
      assert a + b == a;
    }
  }

  /**
   * getDoAfters: one pass over the captured tree collecting every task with a
   * do-before lookup that resolves to a task with the page and id of `task`.
   * The first lookup that does not resolve is a failure.
   */
  method GetDoAfters(universe: seq<Task>, task: Task) returns (r: Result<seq<Task>, Fatal>)
    ensures r == match FirstUnresolvedOf(universe, universe)
                 case Some(k) => Err(TaskNotFound(k))
                 case None => Ok(Naming(universe, task.key))
  {
    var doAfters: seq<Task> := [];
    for i := 0 to |universe|
      invariant FirstUnresolvedOf(universe, universe[..i]).None?
      invariant doAfters == Naming(universe[..i], task.key)
    {
      var pageTask := universe[i];
      assert universe[..i + 1][..i] == universe[..i];
      var naming := NamingFromTask(universe, task, pageTask);
      if naming.Err? {
        FirstUnresolvedOfPrefix(universe, universe, i + 1);
        return Err(naming.error);
      }
      doAfters := doAfters + naming.value;
    }
    assert universe[..|universe|] == universe;
    return Ok(doAfters);
  }

  /**
   * The inner loop of getDoAfters over the lookups of one task of the tree:
   * `pageTask` once for each lookup that resolves to a task with the page and
   * id of `task`; the first lookup that does not resolve is a failure.
   */
  method NamingFromTask(universe: seq<Task>, task: Task, pageTask: Task) returns (r: Result<seq<Task>, Fatal>)
    ensures r.Err? <==> FirstUnresolved(universe, pageTask.doBefores).Some?
    ensures r.Err? ==> r.error == TaskNotFound(FirstUnresolved(universe, pageTask.doBefores).value)
    ensures r.Ok? ==> r.value == Repeat(pageTask, pageTask.doBefores, task.key)
  {
    var doAfters: seq<Task> := [];
    for j := 0 to |pageTask.doBefores|
      invariant FirstUnresolved(universe, pageTask.doBefores[..j]).None?
      invariant doAfters == Repeat(pageTask, pageTask.doBefores[..j], task.key)
    {
      var lookup := pageTask.doBefores[j];
      FirstUnresolvedStep(universe, pageTask.doBefores, j);
      RepeatSnoc(pageTask, pageTask.doBefores, j, task.key);
      var doBefore := Resolve(universe, lookup);
      if doBefore.None? {
        FirstUnresolvedPrefix(universe, pageTask.doBefores, j + 1);
        return Err(TaskNotFound(lookup));
      }
      if doBefore.value.key.pageRef == task.key.pageRef && doBefore.value.key.taskId == task.key.taskId {
        doAfters := doAfters + [pageTask];
      }
    }
    assert pageTask.doBefores[..|pageTask.doBefores|] == pageTask.doBefores;
    return Ok(doAfters);
  }

  /** `s` with repeats removed, keeping first occurrences in order. */
  function Dedup(s: seq<Task>): (r: seq<Task>)
    ensures forall x :: x in r <==> x in s
  {
    if s == [] then []
    else
      var d := Dedup(s[..|s| - 1]);
      if s[|s| - 1] in d then d else d + [s[|s| - 1]]
  }

  ghost predicate Distinct(s: seq<Task>) {
    forall i, j :: 0 <= i < j < |s| ==> s[i] != s[j]
  }

  lemma {:induction false} DedupDistinct(s: seq<Task>)
    ensures Distinct(Dedup(s))
    ensures Distinct(s) ==> Dedup(s) == s
  {
    if s != [] {
      DedupDistinct(s[..|s| - 1]);
    }
  }

  /**
   * Key order is first-occurrence order: the deduplicated form of every prefix
   * of `s` is a prefix of `Dedup(s)`, so a task that first occurs earlier in `s`
   * comes earlier in `Dedup(s)`, and the tasks of `s[..n]` come first.
   */
  lemma {:induction false} DedupFirstOccurrences(s: seq<Task>, n: nat)
    requires n <= |s|
    ensures |Dedup(s[..n])| <= |Dedup(s)| && Dedup(s)[..|Dedup(s[..n])|] == Dedup(s[..n])
  {
    if n < |s| {
      var init := s[..|s| - 1];
      assert init[..n] == s[..n];
      DedupFirstOccurrences(init, n);
      assert Dedup(s)[..|Dedup(init)|] == Dedup(init);
    } else {
      assert s[..n] == s;
    }
  }

  /**
   * An insertion-ordered map from task to do-after list: `keys` gives the
   * iteration order and `values` the lists.
   */
  datatype DoAfterMap = DoAfterMap(keys: seq<Task>, values: map<Task, seq<Task>>)

  /**
   * The do-afters of `t` as getMultipleDoAfters collects them when given two or
   * more tasks: the lookups are resolved to tasks and matched by task identity,
   * so `t` collects only when it is the task its own key resolves to.
   */
  function IdentityNaming(universe: seq<Task>, t: Task): seq<Task> {
    if Resolve(universe, t.key) == Some(t) then Naming(universe, t.key) else []
  }

  /**
   * getMultipleDoAfters: an empty map for no tasks, getDoAfters for a single
   * task, and otherwise a map pre-filled with empty lists in input order and
   * filled in one pass over the captured tree.
   */
  method GetMultipleDoAfters(universe: seq<Task>, tasks: seq<Task>) returns (r: Result<DoAfterMap, Fatal>)
    ensures |tasks| == 0 ==> r == Ok(DoAfterMap([], map[]))
    ensures |tasks| > 0 ==> r.Err? == FirstUnresolvedOf(universe, universe).Some?
    ensures r.Err? ==> r.error == TaskNotFound(FirstUnresolvedOf(universe, universe).value)
    ensures r.Ok? ==> r.value.keys == Dedup(tasks) && r.value.values.Keys == set t | t in tasks
    ensures r.Ok? && |tasks| == 1 ==> r.value.values[tasks[0]] == Naming(universe, tasks[0].key)
    ensures r.Ok? && |tasks| > 1 ==>
      forall t :: t in tasks ==> r.value.values[t] == IdentityNaming(universe, t)
  {
    if |tasks| == 0 {
      return Ok(DoAfterMap([], map[]));
    } else if |tasks| == 1 {
      var doAfters := GetDoAfters(universe, tasks[0]);
      if doAfters.Err? {
        return Err(doAfters.error);
      }
      assert Dedup(tasks) == [tasks[0]] by { assert tasks[..0] == []; }
      return Ok(DoAfterMap([tasks[0]], map[tasks[0] := doAfters.value]));
    }
    var keys, results := PreFill(tasks);
    var filled := FillDoAfters(universe, results);
    if filled.Err? {
      return Err(filled.error);
    }
    return Ok(DoAfterMap(keys, filled.value));
  }

  /**
   * The first step of getMultipleDoAfters for two or more tasks: every task
   * mapped to an empty list, with the keys in first-insertion order.
   */
  method PreFill(tasks: seq<Task>) returns (keys: seq<Task>, results: map<Task, seq<Task>>)
    ensures keys == Dedup(tasks)
    ensures results.Keys == set t | t in tasks
    ensures forall t :: t in results ==> results[t] == []
  {
    keys, results := [], map[];
    for i := 0 to |tasks|
      invariant keys == Dedup(tasks[..i])
      invariant results.Keys == set t | t in tasks[..i]
      invariant forall t :: t in results ==> results[t] == []
    {
      assert tasks[..i + 1][..i] == tasks[..i];
      if tasks[i] !in results {
        keys := keys + [tasks[i]];
      }
      results := results[tasks[i] := []];
    }
    assert tasks[..|tasks|] == tasks;
  }

  /**
   * The traversal step of getMultipleDoAfters: each task of the tree is appended
   * to the list of every pre-filled task that one of its lookups resolves to.
   */
  method FillDoAfters(universe: seq<Task>, results: map<Task, seq<Task>>)
    returns (r: Result<map<Task, seq<Task>>, Fatal>)
    requires forall t :: t in results ==> results[t] == []
    ensures r.Err? <==> FirstUnresolvedOf(universe, universe).Some?
    ensures r.Err? ==> r.error == TaskNotFound(FirstUnresolvedOf(universe, universe).value)
    ensures r.Ok? ==> r.value.Keys == results.Keys
    ensures r.Ok? ==> forall t :: t in r.value ==> r.value[t] == IdentityNaming(universe, t)
  {
    var filled := results;
    for i := 0 to |universe|
      invariant FirstUnresolvedOf(universe, universe[..i]).None?
      invariant filled.Keys == results.Keys
      invariant forall t :: t in filled ==> filled[t] == IdentityPrefix(universe, universe[..i], t)
    {
      assert universe[..i + 1][..i] == universe[..i];
      assert universe[..i + 1][i] == universe[i];
      var next := CollectFromTask(universe, filled, universe[i]);
      if next.Err? {
        FirstUnresolvedOfPrefix(universe, universe, i + 1);
        return Err(next.error);
      }
      forall t | t in next.value
        ensures next.value[t] == IdentityPrefix(universe, universe[..i + 1], t)
      {
        IdentityPrefixStep(universe, i, t);
      }
      filled := next.value;
    }
    assert universe[..|universe|] == universe;
    return Ok(filled);
  }

  /**
   * One task of the traversal: each of its do-before lookups is resolved and,
   * when it resolves to one of the keys of `filled`, the task is appended there.
   */
  method CollectFromTask(universe: seq<Task>, filled: map<Task, seq<Task>>, pageTask: Task)
    returns (r: Result<map<Task, seq<Task>>, Fatal>)
    ensures r.Err? <==> FirstUnresolved(universe, pageTask.doBefores).Some?
    ensures r.Err? ==> r.error == TaskNotFound(FirstUnresolved(universe, pageTask.doBefores).value)
    ensures r.Ok? ==> r.value.Keys == filled.Keys
    ensures r.Ok? ==> forall t :: t in r.value ==>
      r.value[t] == filled[t] + IdentityRepeat(universe, pageTask, |pageTask.doBefores|, t)
  {
    var m := filled;
    for j := 0 to |pageTask.doBefores|
      invariant FirstUnresolved(universe, pageTask.doBefores[..j]).None?
      invariant m.Keys == filled.Keys
      invariant forall t :: t in m ==> m[t] == filled[t] + IdentityRepeat(universe, pageTask, j, t)
    {
      var lookup := pageTask.doBefores[j];
      FirstUnresolvedStep(universe, pageTask.doBefores, j);
      var doBefore := Resolve(universe, lookup);
      if doBefore.None? {
        FirstUnresolvedPrefix(universe, pageTask.doBefores, j + 1);
        return Err(TaskNotFound(lookup));
      }
      CollectStep(universe, filled, m, pageTask, j, doBefore.value);
      if doBefore.value in m {
        m := m[doBefore.value := m[doBefore.value] + [pageTask]];
      }
    }
    assert pageTask.doBefores[..|pageTask.doBefores|] == pageTask.doBefores;
    return Ok(m);
  }

  /** Appending `pageTask` for lookup `j` extends exactly the list of the task it resolves to. */
  lemma CollectStep(universe: seq<Task>, filled: map<Task, seq<Task>>, m: map<Task, seq<Task>>,
                    pageTask: Task, j: nat, doBefore: Task)
    requires j < |pageTask.doBefores| && Resolve(universe, pageTask.doBefores[j]) == Some(doBefore)
    requires m.Keys == filled.Keys
    requires forall t :: t in m ==> m[t] == filled[t] + IdentityRepeat(universe, pageTask, j, t)
    ensures var next := if doBefore in m then m[doBefore := m[doBefore] + [pageTask]] else m;
      forall t :: t in next ==> next[t] == filled[t] + IdentityRepeat(universe, pageTask, j + 1, t)
  {
    var next := if doBefore in m then m[doBefore := m[doBefore] + [pageTask]] else m;
    forall t | t in next
      ensures next[t] == filled[t] + IdentityRepeat(universe, pageTask, j + 1, t)
    {
      RepeatSnoc(pageTask, pageTask.doBefores, j, t.key);
      var lookup := pageTask.doBefores[j];
      assert (doBefore == t) == (Resolve(universe, t.key) == Some(t) && lookup == t.key);
      var rj, rj1 := IdentityRepeat(universe, pageTask, j, t), IdentityRepeat(universe, pageTask, j + 1, t);
      if doBefore == t {
        assert rj1 == rj + [pageTask];
        assert filled[t] + rj1 == (filled[t] + rj) + [pageTask];
      } else {
        assert rj1 == rj;
      }
    }
  }

  lemma IdentityPrefixStep(universe: seq<Task>, i: nat, t: Task)
    requires i < |universe|
    ensures IdentityPrefix(universe, universe[..i + 1], t)
      == IdentityPrefix(universe, universe[..i], t) + IdentityRepeat(universe, universe[i], |universe[i].doBefores|, t)
  {
    assert universe[..i + 1][..i] == universe[..i];
    assert universe[i].doBefores[..|universe[i].doBefores|] == universe[i].doBefores;
  }

  /** `cur` once per lookup among its first `j` that resolves to the task `t`. */
  function IdentityRepeat(universe: seq<Task>, cur: Task, j: nat, t: Task): seq<Task>
    requires j <= |cur.doBefores|
  {
    if Resolve(universe, t.key) == Some(t) then Repeat(cur, cur.doBefores[..j], t.key) else []
  }

  /** IdentityNaming restricted to the tasks of the traversal prefix `ts`. */
  function IdentityPrefix(universe: seq<Task>, ts: seq<Task>, t: Task): seq<Task> {
    if Resolve(universe, t.key) == Some(t) then Naming(ts, t.key) else []
  }

  /**
   * For a task of the captured tree, when keys are unique, the two branches of
   * getMultipleDoAfters agree: matching by identity gives the getDoAfters list.
   */
  lemma {:induction false} IdentityNamingAgrees(universe: seq<Task>, t: Task)
    requires UniqueKeys(universe) && t in universe
    ensures IdentityNaming(universe, t) == Naming(universe, t.key)
  {
    ResolveUnique(universe, t);
  }

  lemma {:induction false} ResolveUnique(universe: seq<Task>, t: Task)
    requires UniqueKeys(universe) && t in universe
    ensures Resolve(universe, t.key) == Some(t)
  {
    if universe[0] != t {
      assert t in universe[1..];
      assert UniqueKeys(universe[1..]) by {
        forall i, j | 0 <= i < j < |universe[1..]|
          ensures universe[1..][i].key != universe[1..][j].key
        {
          assert universe[1..][i] == universe[i + 1] && universe[1..][j] == universe[j + 1];
        }
      }
      var k :| 0 <= k < |universe| && universe[k] == t;
      assert universe[0].key != t.key;
      ResolveUnique(universe[1..], t);
    }
  }
}
