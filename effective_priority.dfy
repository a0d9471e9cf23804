/**
 * Priority inheritance: a task's effective priority is its own priority raised
 * to the highest effective priority of any blocked task that must be done after
 * it. Computed with a memo that lives for one prioritisation call.
 */
module EffectivePriority {
  import opened TaskModel

  /**
   * The do-after graph is acyclic along the edges the computation follows:
   * `rank` strictly decreases from a task to each of its blocked do-afters.
   */
  ghost predicate Ranked(doAftersByTask: map<Task, seq<Task>>, rank: Task -> nat) {
    forall t, i :: t in doAftersByTask && 0 <= i < |doAftersByTask[t]| && Blocked(doAftersByTask[t][i].status)
      ==> rank(doAftersByTask[t][i]) < rank(t)
  }

  /**
   * The effective priority of `t` at time `now`, as the source computes it:
   * its own priority when that is MAX_PRIORITY or it has no do-afters, and
   * otherwise the running maximum over its blocked do-afters in list order.
   */
  function Effective(now: int, resolver: (int, Task) -> Priority, doAftersByTask: map<Task, seq<Task>>,
                     rank: Task -> nat, t: Task): Priority
    requires Ranked(doAftersByTask, rank)
    decreases rank(t), 1, 0
  {
    var own := resolver(now, t);
    if own == MaxPriority || t !in doAftersByTask then own
    else Inherit(now, resolver, doAftersByTask, rank, t, 0, own)
  }

  /**
   * The loop over the do-afters of `t` from index `i` on, with running maximum
   * `acc`; it stops as soon as `acc` reaches MAX_PRIORITY.
   */
  function Inherit(now: int, resolver: (int, Task) -> Priority, doAftersByTask: map<Task, seq<Task>>,
                   rank: Task -> nat, t: Task, i: nat, acc: Priority): Priority
    requires Ranked(doAftersByTask, rank) && t in doAftersByTask && i <= |doAftersByTask[t]|
    decreases rank(t), 0, |doAftersByTask[t]| - i
  {
    if i == |doAftersByTask[t]| || acc == MaxPriority then acc
    else
      var doAfter := doAftersByTask[t][i];
      var next :=
        if Blocked(doAfter.status) then
          var inherited := Effective(now, resolver, doAftersByTask, rank, doAfter);
          if inherited > acc then inherited else acc
        else acc;
      Inherit(now, resolver, doAftersByTask, rank, t, i + 1, next)
  }

  /**
   * The running maximum never falls below its start, is bounded below by every
   * blocked do-after it passes, and is either its start or one of them.
   */
  lemma {:induction false} InheritIsMax(now: int, resolver: (int, Task) -> Priority, doAftersByTask: map<Task, seq<Task>>,
                                        rank: Task -> nat, t: Task, i: nat, acc: Priority)
    requires Ranked(doAftersByTask, rank) && t in doAftersByTask && i <= |doAftersByTask[t]|
    ensures Inherit(now, resolver, doAftersByTask, rank, t, i, acc) >= acc
    ensures forall j :: i <= j < |doAftersByTask[t]| && Blocked(doAftersByTask[t][j].status) ==>
      Inherit(now, resolver, doAftersByTask, rank, t, i, acc)
        >= Effective(now, resolver, doAftersByTask, rank, doAftersByTask[t][j])
    ensures Inherit(now, resolver, doAftersByTask, rank, t, i, acc) == acc
      || exists j :: i <= j < |doAftersByTask[t]| && Blocked(doAftersByTask[t][j].status)
           && Inherit(now, resolver, doAftersByTask, rank, t, i, acc)
              == Effective(now, resolver, doAftersByTask, rank, doAftersByTask[t][j])
    decreases |doAftersByTask[t]| - i
  {
    if i < |doAftersByTask[t]| && acc != MaxPriority {
      var doAfter := doAftersByTask[t][i];
      var next :=
        if Blocked(doAfter.status) then
          var inherited := Effective(now, resolver, doAftersByTask, rank, doAfter);
          if inherited > acc then inherited else acc
        else acc;
      InheritIsMax(now, resolver, doAftersByTask, rank, t, i + 1, next);
    }
  }

  /** Inheritance never lowers a task's own priority. */
  lemma EffectiveAtLeastOwn(now: int, resolver: (int, Task) -> Priority, doAftersByTask: map<Task, seq<Task>>,
                            rank: Task -> nat, t: Task)
    requires Ranked(doAftersByTask, rank)
    ensures Effective(now, resolver, doAftersByTask, rank, t) >= resolver(now, t)
  {
    if resolver(now, t) != MaxPriority && t in doAftersByTask {
      InheritIsMax(now, resolver, doAftersByTask, rank, t, 0, resolver(now, t));
    }
  }

  /** A task whose own priority is MAX_PRIORITY keeps it, whatever its do-afters. */
  lemma EffectiveOfMax(now: int, resolver: (int, Task) -> Priority, doAftersByTask: map<Task, seq<Task>>,
                       rank: Task -> nat, t: Task)
    requires Ranked(doAftersByTask, rank) && resolver(now, t) == MaxPriority
    ensures Effective(now, resolver, doAftersByTask, rank, t) == MaxPriority
  {
  }

  /**
   * Otherwise the effective priority is exactly the maximum of the own priority
   * and the effective priorities of the blocked do-afters: an upper bound of all
   * of them that is attained by one of them.
   */
  lemma EffectiveIsMaximum(now: int, resolver: (int, Task) -> Priority, doAftersByTask: map<Task, seq<Task>>,
                           rank: Task -> nat, t: Task)
    requires Ranked(doAftersByTask, rank)
    ensures var e := Effective(now, resolver, doAftersByTask, rank, t);
      && e >= resolver(now, t)
      && (t in doAftersByTask ==>
            forall d :: d in doAftersByTask[t] && Blocked(d.status) ==>
              e >= Effective(now, resolver, doAftersByTask, rank, d))
      && (e == resolver(now, t)
          || (t in doAftersByTask &&
              exists d :: d in doAftersByTask[t] && Blocked(d.status)
                && e == Effective(now, resolver, doAftersByTask, rank, d)))
  {
    var own := resolver(now, t);
    if t in doAftersByTask {
      if own != MaxPriority {
        InheritIsMax(now, resolver, doAftersByTask, rank, t, 0, own);
      }
      forall d | d in doAftersByTask[t] && Blocked(d.status)
        ensures Effective(now, resolver, doAftersByTask, rank, t) >= Effective(now, resolver, doAftersByTask, rank, d)
      {
        var j :| 0 <= j < |doAftersByTask[t]| && doAftersByTask[t][j] == d;
      }
    }
  }

  /** The effective priority depends on the do-afters only through the blocked ones. */
  lemma {:induction false} EffectiveOfUnblocked(now: int, resolver: (int, Task) -> Priority,
                                                doAftersByTask: map<Task, seq<Task>>, rank: Task -> nat, t: Task)
    requires Ranked(doAftersByTask, rank)
    requires t in doAftersByTask && forall d :: d in doAftersByTask[t] ==> !Blocked(d.status)
    ensures Effective(now, resolver, doAftersByTask, rank, t) == resolver(now, t)
  {
    EffectiveIsMaximum(now, resolver, doAftersByTask, rank, t);
  }

  /**
   * The memo of effective priorities for one prioritisation call: the instant
   * `now`, the priority resolver and the do-after graph are fixed for its
   * lifetime; every cached entry is the effective priority of its task.
   */
  class PriorityEngine {
    const now: int
    const resolver: (int, Task) -> Priority
    const doAftersByTask: map<Task, seq<Task>>
    ghost const rank: Task -> nat
    var effectivePriorities: map<Task, Priority>

    ghost predicate Valid()
      reads this
    {
      && Ranked(doAftersByTask, rank)
      && forall t :: t in effectivePriorities ==>
           effectivePriorities[t] == Effective(now, resolver, doAftersByTask, rank, t)
    }

    constructor (now: int, resolver: (int, Task) -> Priority, doAftersByTask: map<Task, seq<Task>>, ghost rank: Task -> nat)
      requires Ranked(doAftersByTask, rank)
      ensures Valid() && effectivePriorities == map[]
      ensures this.now == now && this.resolver == resolver
      ensures this.doAftersByTask == doAftersByTask && this.rank == rank
    {
      this.now := now;
      this.resolver := resolver;
      this.doAftersByTask := doAftersByTask;
      this.rank := rank;
      effectivePriorities := map[];
    }

    /** The effective priority of `t`: returned from the memo when present, else computed and stored. */
    method GetEffectivePriority(t: Task) returns (p: Priority)
      requires Valid()
      modifies this
      ensures Valid()
      ensures p == Effective(now, resolver, doAftersByTask, rank, t)
      ensures t in old(effectivePriorities) ==> p == old(effectivePriorities)[t] && effectivePriorities == old(effectivePriorities)
      ensures t in effectivePriorities && effectivePriorities[t] == p
      ensures forall u :: u in old(effectivePriorities) ==> u in effectivePriorities
      decreases rank(t)
    {
      if t in effectivePriorities {
        return effectivePriorities[t];
      }
      var own := resolver(now, t);
      var effective := own;
      if effective != MaxPriority {
        if t in doAftersByTask {
          var doAfters := doAftersByTask[t];
          var i := 0;
          while i < |doAfters|
            invariant Valid()
            invariant 0 <= i <= |doAfters|
            invariant Inherit(now, resolver, doAftersByTask, rank, t, 0, own)
                      == Inherit(now, resolver, doAftersByTask, rank, t, i, effective)
            invariant forall u :: u in old(effectivePriorities) ==> u in effectivePriorities
          {
            var doAfter := doAfters[i];
            if Blocked(doAfter.status) {
              var inherited := GetEffectivePriority(doAfter);
              if inherited > effective {
                effective := inherited;
                if effective == MaxPriority {
                  assert Inherit(now, resolver, doAftersByTask, rank, t, 0, own) == MaxPriority;
                  break;
                }
              }
            }
            i := i + 1;
          }
        }
      }
      // Cache result
      effectivePriorities := effectivePriorities[t := effective];
      return effective;
    }
  }
}
