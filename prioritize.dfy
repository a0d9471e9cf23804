/**
 * The ordering half of prioritizeTasks: the comparator over (date, effective
 * priority) and the stable sort it drives, together with the whole operation
 * (index, invert, memoised effective priorities, sort).
 */
module Prioritize {
  import opened TaskModel
  import opened DoAfters
  import opened Dependencies
  import opened EffectivePriority

  /** Boolean comparison with false before true: -1, 0 or 1. */
  function CompareBool(x: bool, y: bool): int {
    if x == y then 0 else if x then 1 else -1
  }

  /**
   * The date part of the comparator: a task with a date sorts before one
   * without, and two dated tasks sort by date (-1, 0 or 1).
   */
  function DateDiff(s1: StatusResult, s2: StatusResult): (r: int)
    ensures -1 <= r <= 1
    ensures s1.date.Some? && s2.date.None? ==> r == -1
    ensures s1.date.None? && s2.date.Some? ==> r == 1
    ensures s1.date.Some? && s2.date.Some? ==>
      (r < 0 <==> s1.date.value < s2.date.value) && (r > 0 <==> s1.date.value > s2.date.value)
    ensures s1.date.None? && s2.date.None? ==> r == 0
  {
    var diff := CompareBool(s2.date.Some?, s1.date.Some?);
    if diff != 0 then diff
    else if s1.date.Some? && s2.date.Some? then
      (if s1.date.value < s2.date.value then -1 else if s1.date.value > s2.date.value then 1 else 0)
    else 0
  }

  /**
   * The comparator of prioritizeTasks under the priority assignment `prio`: by
   * date first when `dateFirst`, then by priority highest first, then by date
   * when not `dateFirst`; 0 when all are equal.
   */
  function Cmp(dateFirst: bool, prio: Task -> Priority, a: Task, b: Task): int {
    if dateFirst && DateDiff(a.status, b.status) != 0 then DateDiff(a.status, b.status)
    else if prio(b) != prio(a) then prio(b) as int - prio(a) as int
    else if !dateFirst && DateDiff(a.status, b.status) != 0 then DateDiff(a.status, b.status)
    else 0
  }

  /** The comparator is antisymmetric in sign, as Comparator.compare requires. */
  lemma CmpAntisymmetric(dateFirst: bool, prio: Task -> Priority, a: Task, b: Task)
    ensures Cmp(dateFirst, prio, a, b) > 0 <==> Cmp(dateFirst, prio, b, a) < 0
    ensures Cmp(dateFirst, prio, a, b) == 0 <==> Cmp(dateFirst, prio, b, a) == 0
  {
  }

  /** The comparator is transitive, as Comparator.compare requires. */
  lemma CmpTransitive(dateFirst: bool, prio: Task -> Priority, a: Task, b: Task, c: Task)
    requires Cmp(dateFirst, prio, a, b) <= 0 && Cmp(dateFirst, prio, b, c) <= 0
    ensures Cmp(dateFirst, prio, a, c) <= 0
    ensures Cmp(dateFirst, prio, a, b) < 0 || Cmp(dateFirst, prio, b, c) < 0 ==> Cmp(dateFirst, prio, a, c) < 0
  {
  }

  /** Two tasks that compare equal compare alike against every third task. */
  lemma CmpEqualAlike(dateFirst: bool, prio: Task -> Priority, a: Task, b: Task, c: Task)
    requires Cmp(dateFirst, prio, a, b) == 0
    ensures Cmp(dateFirst, prio, a, c) < 0 <==> Cmp(dateFirst, prio, b, c) < 0
    ensures Cmp(dateFirst, prio, a, c) > 0 <==> Cmp(dateFirst, prio, b, c) > 0
  {
    CmpAntisymmetric(dateFirst, prio, a, b);
    if Cmp(dateFirst, prio, a, c) <= 0 {
      CmpTransitive(dateFirst, prio, b, a, c);
    }
    if Cmp(dateFirst, prio, b, c) <= 0 {
      CmpTransitive(dateFirst, prio, a, b, c);
    }
    CmpAntisymmetric(dateFirst, prio, a, c);
    CmpAntisymmetric(dateFirst, prio, b, c);
    if Cmp(dateFirst, prio, c, a) <= 0 {
      CmpTransitive(dateFirst, prio, c, a, b);
    }
    if Cmp(dateFirst, prio, c, b) <= 0 {
      CmpTransitive(dateFirst, prio, c, b, a);
    }
  }

  /** The comparator of prioritizeTasks as a function value. */
  function CmpOf(dateFirst: bool, prio: Task -> Priority): (Task, Task) -> int {
    (a, b) => Cmp(dateFirst, prio, a, b)
  }

  /**
   * What Comparator.compare requires of a comparator: sign antisymmetry and
   * transitivity of "not after".
   */
  ghost predicate Preorder(cmp: (Task, Task) -> int) {
    && (forall a, b :: cmp(a, b) > 0 <==> cmp(b, a) < 0)
    && (forall a, b, c :: cmp(a, b) <= 0 && cmp(b, c) <= 0 ==> cmp(a, c) <= 0)
  }

  /** The comparator of prioritizeTasks meets that contract, for either ordering. */
  lemma ComparatorValid(dateFirst: bool, prio: Task -> Priority)
    ensures Preorder(CmpOf(dateFirst, prio))
  {
    var cmp := CmpOf(dateFirst, prio);
    forall a, b ensures cmp(a, b) > 0 <==> cmp(b, a) < 0 {
      CmpAntisymmetric(dateFirst, prio, a, b);
    }
    forall a, b, c | cmp(a, b) <= 0 && cmp(b, c) <= 0 ensures cmp(a, c) <= 0 {
      CmpTransitive(dateFirst, prio, a, b, c);
    }
  }

  /** Every pair in order under `cmp`. */
  ghost predicate Sorted(cmp: (Task, Task) -> int, s: seq<Task>) {
    forall i, j :: 0 <= i < j < |s| ==> cmp(s[i], s[j]) <= 0
  }

  /**
   * Inserts `x` into `s` from the right: `x` moves left past every element that
   * compares strictly greater, and stops after the first that does not.
   */
  function Insert(cmp: (Task, Task) -> int, x: Task, s: seq<Task>): seq<Task> {
    if s == [] then [x]
    else if cmp(s[|s| - 1], x) > 0 then Insert(cmp, x, s[..|s| - 1]) + [s[|s| - 1]]
    else s + [x]
  }

  /** The stable sort of `s` under `cmp`, by insertion. */
  function Sort(cmp: (Task, Task) -> int, s: seq<Task>): seq<Task> {
    if s == [] then []
    else Insert(cmp, s[|s| - 1], Sort(cmp, s[..|s| - 1]))
  }

  lemma {:induction false} InsertPermutes(cmp: (Task, Task) -> int, x: Task, s: seq<Task>)
    ensures multiset(Insert(cmp, x, s)) == multiset(s) + multiset{x}
  {
    if s != [] && cmp(s[|s| - 1], x) > 0 {
      InsertPermutes(cmp, x, s[..|s| - 1]);
      assert s == s[..|s| - 1] + [s[|s| - 1]];
    }
  }

  /** The sort is a permutation of its input. */
  lemma {:induction false} SortPermutes(cmp: (Task, Task) -> int, s: seq<Task>)
    ensures multiset(Sort(cmp, s)) == multiset(s)
  {
    if s != [] {
      var init, last := s[..|s| - 1], s[|s| - 1];
      var sorted := Sort(cmp, init);
      assert Sort(cmp, s) == Insert(cmp, last, sorted);
      SortPermutes(cmp, init);
      InsertPermutes(cmp, last, sorted);
      assert s == init + [last];
    }
  }

  lemma {:induction false} InsertSorted(cmp: (Task, Task) -> int, x: Task, s: seq<Task>)
    requires Preorder(cmp) && Sorted(cmp, s)
    ensures Sorted(cmp, Insert(cmp, x, s))
  {
    if s == [] {
    } else if cmp(s[|s| - 1], x) > 0 {
      var init, last := s[..|s| - 1], s[|s| - 1];
      assert Sorted(cmp, init);
      InsertSorted(cmp, x, init);
      var ins := Insert(cmp, x, init);
      forall i | 0 <= i < |ins| ensures cmp(ins[i], last) <= 0 {
        InsertedBelow(cmp, x, init, last, ins[i]);
      }
      AppendSorted(cmp, ins, last);
    } else {
      var last := s[|s| - 1];
      forall i | 0 <= i < |s| ensures cmp(s[i], x) <= 0 {
        assert cmp(s[i], last) <= 0 || i == |s| - 1;
      }
      AppendSorted(cmp, s, x);
    }
  }

  /** Every element of the insertion result is an element of `s` or `x` itself. */
  lemma InsertedBelow(cmp: (Task, Task) -> int, x: Task, init: seq<Task>, last: Task, y: Task)
    requires Preorder(cmp) && Sorted(cmp, init + [last]) && cmp(last, x) > 0
    requires y in Insert(cmp, x, init)
    ensures cmp(y, last) <= 0
  {
    InsertPermutes(cmp, x, init);
    assert y in multiset(Insert(cmp, x, init));
    if y != x {
      assert y in multiset(init);
      var k :| 0 <= k < |init| && init[k] == y;
      assert (init + [last])[k] == y && (init + [last])[|init|] == last;
    }
  }

  /** A sorted sequence stays sorted when extended by an element not below any of it. */
  lemma AppendSorted(cmp: (Task, Task) -> int, s: seq<Task>, x: Task)
    requires Sorted(cmp, s) && forall i :: 0 <= i < |s| ==> cmp(s[i], x) <= 0
    ensures Sorted(cmp, s + [x])
  {
    var r := s + [x];
    forall i, j | 0 <= i < j < |r| ensures cmp(r[i], r[j]) <= 0 {
      if j < |s| {
        assert r[i] == s[i] && r[j] == s[j];
      } else {
        assert r[i] == s[i] && r[j] == x;
      }
    }
  }

  /** The sort's output is in order under the comparator. */
  lemma {:induction false} SortSorted(cmp: (Task, Task) -> int, s: seq<Task>)
    requires Preorder(cmp)
    ensures Sorted(cmp, Sort(cmp, s))
  {
    if s != [] {
      SortSorted(cmp, s[..|s| - 1]);
      InsertSorted(cmp, s[|s| - 1], Sort(cmp, s[..|s| - 1]));
    }
  }

  /** The tasks of `s` that compare equal to `c`, in their order in `s`. */
  function SameRank(cmp: (Task, Task) -> int, c: Task, s: seq<Task>): seq<Task> {
    if s == [] then []
    else SameRank(cmp, c, s[..|s| - 1]) + (if cmp(c, s[|s| - 1]) == 0 then [s[|s| - 1]] else [])
  }

  lemma SameRankSnoc(cmp: (Task, Task) -> int, c: Task, s: seq<Task>, x: Task)
    ensures SameRank(cmp, c, s + [x]) == SameRank(cmp, c, s) + (if cmp(c, x) == 0 then [x] else [])
  {
    assert (s + [x])[..|s + [x]| - 1] == s;
  }

  lemma {:induction false} InsertStable(cmp: (Task, Task) -> int, c: Task, x: Task, s: seq<Task>)
    requires Preorder(cmp)
    ensures SameRank(cmp, c, Insert(cmp, x, s)) == SameRank(cmp, c, s) + (if cmp(c, x) == 0 then [x] else [])
  {
    if s == [] {
      SameRankSnoc(cmp, c, [], x);
    } else {
      var init, last := s[..|s| - 1], s[|s| - 1];
      var here := if cmp(c, x) == 0 then [x] else [];
      if cmp(last, x) > 0 {
        var ins := Insert(cmp, x, init);
        assert Insert(cmp, x, s) == ins + [last];
        InsertStable(cmp, c, x, init);
        SameRankSnoc(cmp, c, ins, last);
        if cmp(c, x) == 0 {
          assert cmp(c, last) != 0;
          assert SameRank(cmp, c, s) == SameRank(cmp, c, init);
        } else {
          assert SameRank(cmp, c, ins) == SameRank(cmp, c, init);
        }
      } else {
        assert Insert(cmp, x, s) == s + [x];
        SameRankSnoc(cmp, c, s, x);
      }
    }
  }

  /**
   * The sort is stable: the tasks that compare equal to any given task appear
   * in the output in the order they had in the input.
   */
  lemma {:induction false} SortStable(cmp: (Task, Task) -> int, c: Task, s: seq<Task>)
    requires Preorder(cmp)
    ensures SameRank(cmp, c, Sort(cmp, s)) == SameRank(cmp, c, s)
  {
    if s != [] {
      var init, last := s[..|s| - 1], s[|s| - 1];
      assert Sort(cmp, s) == Insert(cmp, last, Sort(cmp, init));
      assert SameRank(cmp, c, s) == SameRank(cmp, c, init) + (if cmp(c, last) == 0 then [last] else []);
      SortStable(cmp, c, init);
      InsertStable(cmp, c, last, Sort(cmp, init));
    }
  }

  /** Input already in order comes out unchanged. */
  lemma {:induction false} SortOfSorted(cmp: (Task, Task) -> int, s: seq<Task>)
    requires Sorted(cmp, s)
    ensures Sort(cmp, s) == s
  {
    if s != [] {
      var init, last := s[..|s| - 1], s[|s| - 1];
      assert Sorted(cmp, init);
      SortOfSorted(cmp, init);
      if |init| > 0 {
        assert cmp(init[|init| - 1], last) <= 0;
      }
      assert init + [last] == s;
    }
  }

  /** A list of fewer than two tasks is its own sort, under any comparator. */
  lemma ShortIsSorted(cmp: (Task, Task) -> int, s: seq<Task>)
    requires |s| < 2
    ensures Sort(cmp, s) == s
  {
    SortOfSorted(cmp, s);
  }

  /** Sorting twice sorts once. */
  lemma SortIdempotent(cmp: (Task, Task) -> int, s: seq<Task>)
    requires Preorder(cmp)
    ensures Sort(cmp, Sort(cmp, s)) == Sort(cmp, s)
  {
    SortSorted(cmp, s);
    SortOfSorted(cmp, Sort(cmp, s));
  }

  /**
   * Priority first: higher effective priority comes first, and among equal
   * priorities dated tasks come before undated ones and earlier dates first.
   */
  lemma PriorityFirstOrder(prio: Task -> Priority, s: seq<Task>, i: nat, j: nat)
    requires i < j < |Sort(CmpOf(false, prio), s)|
    ensures var r := Sort(CmpOf(false, prio), s);
      && prio(r[i]) >= prio(r[j])
      && (prio(r[i]) == prio(r[j]) && r[j].status.date.Some? ==>
            r[i].status.date.Some? && r[i].status.date.value <= r[j].status.date.value)
  {
    ComparatorValid(false, prio);
    SortSorted(CmpOf(false, prio), s);
    var r := Sort(CmpOf(false, prio), s);
    assert Cmp(false, prio, r[i], r[j]) <= 0;
  }

  /**
   * Date first: dated tasks come before undated ones, earlier dates first, and
   * among equal dates (or none) higher effective priority first.
   */
  lemma DateFirstOrder(prio: Task -> Priority, s: seq<Task>, i: nat, j: nat)
    requires i < j < |Sort(CmpOf(true, prio), s)|
    ensures var r := Sort(CmpOf(true, prio), s);
      && (r[j].status.date.Some? ==> r[i].status.date.Some? && r[i].status.date.value <= r[j].status.date.value)
      && (r[i].status.date == r[j].status.date ==> prio(r[i]) >= prio(r[j]))
  {
    ComparatorValid(true, prio);
    SortSorted(CmpOf(true, prio), s);
    var r := Sort(CmpOf(true, prio), s);
    assert Cmp(true, prio, r[i], r[j]) <= 0;
  }

  /** The effective-priority assignment of a ranked do-after graph, as a function. */
  ghost function PrioOf(now: int, resolver: (int, Task) -> Priority, doAftersByTask: map<Task, seq<Task>>,
                        rank: Task -> nat): Task -> Priority
    requires Ranked(doAftersByTask, rank)
  {
    t => Effective(now, resolver, doAftersByTask, rank, t)
  }

  /** The comparator's call: both effective priorities come from (and go into) the memo. */
  method Compare(engine: PriorityEngine, t1: Task, t2: Task, dateFirst: bool) returns (c: int)
    requires engine.Valid()
    modifies engine
    ensures engine.Valid()
    ensures c == CmpOf(dateFirst, PrioOf(engine.now, engine.resolver, engine.doAftersByTask, engine.rank))(t1, t2)
  {
    if dateFirst {
      var diff := DateDiff(t1.status, t2.status);
      if diff != 0 {
        return diff;
      }
    }
    var priority1 := engine.GetEffectivePriority(t1);
    var priority2 := engine.GetEffectivePriority(t2);
    var diff := priority2 as int - priority1 as int;
    if diff != 0 {
      return diff;
    }
    if !dateFirst {
      diff := DateDiff(t1.status, t2.status);
      if diff != 0 {
        return diff;
      }
    }
    return 0;
  }

  /** Sorting the copied list in place with the comparator, stably. */
  method SortTasks(a: array<Task>, dateFirst: bool, engine: PriorityEngine)
    requires engine.Valid()
    modifies a, engine
    ensures engine.Valid()
    ensures a[..] == Sort(CmpOf(dateFirst, PrioOf(engine.now, engine.resolver, engine.doAftersByTask, engine.rank)), old(a[..]))
  {
    ghost var cmp := CmpOf(dateFirst, PrioOf(engine.now, engine.resolver, engine.doAftersByTask, engine.rank));
    ghost var input := a[..];
    for i := 0 to a.Length
      invariant engine.Valid()
      invariant a[..i] == Sort(cmp, input[..i])
      invariant a[i..] == input[i..]
    {
      ghost var sorted := a[..i];
      var x := a[i];
      var j := InsertAt(a, i, dateFirst, engine, cmp);
      assert input[..i + 1][..i] == input[..i];
      assert input[..i + 1][i] == x;
    }
    assert input[..a.Length] == input;
  }

  /**
   * One insertion step: `a[i]` is moved left past every element of the sorted
   * prefix `a[..i]` that compares strictly greater.
   */
  method InsertAt(a: array<Task>, i: nat, dateFirst: bool, engine: PriorityEngine, ghost cmp: (Task, Task) -> int)
    returns (j: nat)
    requires i < a.Length && engine.Valid()
    requires cmp == CmpOf(dateFirst, PrioOf(engine.now, engine.resolver, engine.doAftersByTask, engine.rank))
    modifies a, engine
    ensures engine.Valid()
    ensures a[..i + 1] == Insert(cmp, old(a[i]), old(a[..i]))
    ensures forall k :: i < k < a.Length ==> a[k] == old(a[k])
  {
    ghost var s := a[..i];
    var x := a[i];
    j := ShiftGreater(a, i, x, dateFirst, engine, cmp, s);
    a[j] := x;
    Placed(a[..], s, x, j);
    assert a[..i + 1] == Insert(cmp, x, s);
  }

  /**
   * The loop of the insertion step: shifts right by one every element of the
   * sorted prefix `a[..i]` that compares strictly greater than `x`, from the
   * right, and returns the hole left where `x` belongs.
   */
  method ShiftGreater(a: array<Task>, i: nat, x: Task, dateFirst: bool, engine: PriorityEngine,
                      ghost cmp: (Task, Task) -> int, ghost s: seq<Task>)
    returns (j: nat)
    requires i < a.Length && engine.Valid() && s == a[..i]
    requires cmp == CmpOf(dateFirst, PrioOf(engine.now, engine.resolver, engine.doAftersByTask, engine.rank))
    modifies a, engine
    ensures engine.Valid() && j <= i
    ensures forall k :: 0 <= k < j ==> a[k] == s[k]
    ensures forall k :: j < k <= i ==> a[k] == s[k - 1]
    ensures forall k :: i < k < a.Length ==> a[k] == old(a[k])
    ensures Insert(cmp, x, s) == s[..j] + [x] + s[j..]
  {
    ghost var target := Insert(cmp, x, s);
    j := i;
    assert s[..i] == s;
    assert target == InsertPrefix(cmp, x, s, i) + s[i..];
    while j > 0
      invariant 0 <= j <= i && engine.Valid()
      invariant forall k :: 0 <= k < j ==> a[k] == s[k]
      invariant forall k :: j < k <= i ==> a[k] == s[k - 1]
      invariant forall k :: i < k < a.Length ==> a[k] == old(a[k])
      invariant target == InsertPrefix(cmp, x, s, j) + s[j..]
    {
      var c := Compare(engine, a[j - 1], x, dateFirst);
      if c <= 0 {
        break;
      }
      InsertShift(cmp, x, s, j);
      a[j] := a[j - 1];
      j := j - 1;
    }
    InsertStop(cmp, x, s, j);
  }

  /** The array after the insertion: the prefix, then `x`, then the shifted rest. */
  lemma Placed(t: seq<Task>, s: seq<Task>, x: Task, j: nat)
    requires j <= |s| < |t| && t[j] == x
    requires forall k :: 0 <= k < j ==> t[k] == s[k]
    requires forall k :: j < k <= |s| ==> t[k] == s[k - 1]
    ensures t[..|s| + 1] == s[..j] + [x] + s[j..]
  {
  }

  /** One shift of the insertion loop past an element that compares greater than `x`. */
  lemma InsertShift(cmp: (Task, Task) -> int, x: Task, s: seq<Task>, j: nat)
    requires 0 < j <= |s| && cmp(s[j - 1], x) > 0
    ensures InsertPrefix(cmp, x, s, j) + s[j..] == InsertPrefix(cmp, x, s, j - 1) + s[j - 1..]
  {
    assert s[..j][..j - 1] == s[..j - 1];
    assert s[j - 1..] == [s[j - 1]] + s[j..];
  }

  /** The insertion loop stops at the front or after an element not greater than `x`. */
  lemma InsertStop(cmp: (Task, Task) -> int, x: Task, s: seq<Task>, j: nat)
    requires j <= |s| && (j > 0 ==> cmp(s[j - 1], x) <= 0)
    ensures InsertPrefix(cmp, x, s, j) == s[..j] + [x]
  {
  }

  /** `x` inserted into the first `j` elements of `s`. */
  function InsertPrefix(cmp: (Task, Task) -> int, x: Task, s: seq<Task>, j: nat): seq<Task>
    requires j <= |s|
  {
    Insert(cmp, x, s[..j])
  }

  /**
   * prioritizeTasks on the captured tree `allTasks`: index it (a duplicate key
   * is fatal), invert its do-before edges (an unresolved lookup is fatal), then
   * return a sorted copy of `tasks` under the comparator with memoised
   * effective priorities. The input list is not changed.
   */
  method PrioritizeTasks(allTasks: seq<Task>, tasks: seq<Task>, dateFirst: bool, now: int,
                         resolver: (int, Task) -> Priority, ghost rank: Task -> nat)
    returns (r: Result<seq<Task>, Fatal>)
    requires UniqueKeys(allTasks) && FirstUnresolvedOf(allTasks, allTasks).None? && |tasks| >= 2
             ==> Ranked(Inverted(allTasks), rank)
    ensures !UniqueKeys(allTasks) ==> r.Err? && r.error.DuplicateTask?
    ensures UniqueKeys(allTasks) ==> r == match FirstUnresolvedOf(allTasks, allTasks)
      case Some(k) => Err(TaskNotFound(k))
      case None =>
        if |tasks| < 2 then Ok(tasks)
        else Ok(Sort(CmpOf(dateFirst, PrioOf(now, resolver, Inverted(allTasks), rank)), tasks))
  {
    var indexed := IndexTasks(allTasks);
    if indexed.Err? {
      return Err(indexed.error);
    }
    var inverted := InvertDoBefores(allTasks, indexed.value);
    if inverted.Err? {
      return Err(inverted.error);
    }
    if |tasks| < 2 {
      // Collections.sort returns at once on fewer than two elements: no
      // comparison is made and no priority is computed.
      return Ok(tasks);
    }
    var engine := new PriorityEngine(now, resolver, inverted.value, rank);
    var sortedTasks := new Task[|tasks|](i requires 0 <= i < |tasks| => tasks[i]);
    assert sortedTasks[..] == tasks;
    SortTasks(sortedTasks, dateFirst, engine);
    return Ok(sortedTasks[..]);
  }
}
