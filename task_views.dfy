/**
 * The per-user task views over a page and its descendants (all, ready,
 * blocked, future), the "has assigned task" test, and the request-scoped cache
 * that computes each (page, user) answer at most once per request.
 */
module TaskViews {
  import opened TaskModel

  /** The assignment of `t` to `user`; there is none when no user is given. */
  function AssignmentOf(t: Task, user: Option<User>): Option<After> {
    if user.Some? && user.value in t.assignedTo then Some(t.assignedTo[user.value]) else None
  }

  /** No user means every task; a user means the tasks assigned to that user. */
  predicate PassesUser(t: Task, user: Option<User>) {
    user.None? || user.value in t.assignedTo
  }

  /**
   * A dated task assigned to the user with a positive "after" delay is shown
   * only once `now` has reached the task's date moved forward by that delay.
   */
  predicate DelayElapsed(t: Task, user: Option<User>, now: int, offset: (After, int) -> int) {
    var assignedTo := AssignmentOf(t, user);
    (t.status.date.Some? && assignedTo.Some? && assignedTo.value.count > 0)
      ==> now >= offset(assignedTo.value, t.status.date.value)
  }

  /** A task of the ready view: ready, not completed, not of FUTURE priority, delay elapsed. */
  predicate IsReady(t: Task, user: Option<User>, now: int, resolver: (int, Task) -> Priority,
                    offset: (After, int) -> int) {
    && PassesUser(t, user)
    && !t.status.completedSchedule && t.status.readySchedule
    && resolver(now, t) != Future
    && DelayElapsed(t, user, now, offset)
  }

  /** A task of the blocked view: blocked, not of FUTURE priority, delay elapsed. */
  predicate IsBlocked(t: Task, user: Option<User>, now: int, resolver: (int, Task) -> Priority,
                      offset: (After, int) -> int) {
    && PassesUser(t, user)
    && Blocked(t.status)
    && resolver(now, t) != Future
    && DelayElapsed(t, user, now, offset)
  }

  /**
   * A task of the future view: not hidden by a positive "after" delay for the
   * user, and either scheduled in the future or of FUTURE priority.
   */
  predicate IsFuture(t: Task, user: Option<User>, now: int, resolver: (int, Task) -> Priority) {
    var assignedTo := AssignmentOf(t, user);
    && PassesUser(t, user)
    && (assignedTo.None? || assignedTo.value.count == 0)
    && (t.status.futureSchedule || resolver(now, t) == Future)
  }

  datatype View = AllView | ReadyView | BlockedView | FutureView

  predicate InView(view: View, t: Task, user: Option<User>, now: int, resolver: (int, Task) -> Priority,
                   offset: (After, int) -> int) {
    match view
    case AllView => PassesUser(t, user)
    case ReadyView => IsReady(t, user, now, resolver, offset)
    case BlockedView => IsBlocked(t, user, now, resolver, offset)
    case FutureView => IsFuture(t, user, now, resolver)
  }

  /** The tasks of the traversal `ts` in `view`, in traversal order. */
  function Select(view: View, ts: seq<Task>, user: Option<User>, now: int, resolver: (int, Task) -> Priority,
                  offset: (After, int) -> int): seq<Task> {
    if ts == [] then []
    else
      Select(view, ts[..|ts| - 1], user, now, resolver, offset)
      + (if InView(view, ts[|ts| - 1], user, now, resolver, offset) then [ts[|ts| - 1]] else [])
  }

  /** A view holds exactly the traversed tasks that meet its condition. */
  lemma {:induction false} SelectMembers(view: View, ts: seq<Task>, user: Option<User>, now: int,
                                         resolver: (int, Task) -> Priority, offset: (After, int) -> int, x: Task)
    ensures x in Select(view, ts, user, now, resolver, offset) <==> x in ts && InView(view, x, user, now, resolver, offset)
  {
    if ts != [] {
      SelectMembers(view, ts[..|ts| - 1], user, now, resolver, offset, x);
      assert ts == ts[..|ts| - 1] + [ts[|ts| - 1]];
    }
  }

  /** Views follow the traversal: the view of pages visited one after another is the concatenation. */
  lemma {:induction false} SelectAppend(view: View, a: seq<Task>, b: seq<Task>, user: Option<User>, now: int,
                                        resolver: (int, Task) -> Priority, offset: (After, int) -> int)
    ensures Select(view, a + b, user, now, resolver, offset)
      == Select(view, a, user, now, resolver, offset) + Select(view, b, user, now, resolver, offset)
  {
    if b == [] {
      assert a + b == a;
    } else {
      SelectAppend(view, a, b[..|b| - 1], user, now, resolver, offset);
      assert (a + b)[..|a + b| - 1] == a + b[..|b| - 1];
    }
  }

  /** With no user, the all-tasks view is the whole traversal, unchanged. */
  lemma {:induction false} AllForEveryone(ts: seq<Task>, now: int, resolver: (int, Task) -> Priority,
                                          offset: (After, int) -> int)
    ensures Select(AllView, ts, None, now, resolver, offset) == ts
  {
    if ts != [] {
      AllForEveryone(ts[..|ts| - 1], now, resolver, offset);
    }
  }

  /** The all-tasks view is the same at every instant. */
  lemma {:induction false} AllViewIgnoresClock(ts: seq<Task>, user: Option<User>, now1: int, now2: int,
                                               resolver: (int, Task) -> Priority, offset: (After, int) -> int)
    ensures Select(AllView, ts, user, now1, resolver, offset) == Select(AllView, ts, user, now2, resolver, offset)
  {
    if ts != [] {
      AllViewIgnoresClock(ts[..|ts| - 1], user, now1, now2, resolver, offset);
    }
  }

  /** The ready and blocked views, and the blocked and future views, never share a task. */
  lemma ViewsDisjoint(t: Task, user: Option<User>, now: int, resolver: (int, Task) -> Priority,
                      offset: (After, int) -> int)
    ensures !(IsReady(t, user, now, resolver, offset) && IsBlocked(t, user, now, resolver, offset))
    ensures !(IsBlocked(t, user, now, resolver, offset) && IsFuture(t, user, now, resolver))
    ensures IsReady(t, user, now, resolver, offset) && IsFuture(t, user, now, resolver) ==> t.status.futureSchedule
  {
  }

  /** A status with at most one of the completed, ready and future flags set. */
  predicate SingleState(s: StatusResult) {
    (if s.completedSchedule then 1 else 0) + (if s.readySchedule then 1 else 0) + (if s.futureSchedule then 1 else 0) <= 1
  }

  /** For such statuses the ready, blocked and future views are pairwise disjoint. */
  lemma SingleStateDisjoint(t: Task, user: Option<User>, now: int, resolver: (int, Task) -> Priority,
                            offset: (After, int) -> int)
    requires SingleState(t.status)
    ensures !(IsReady(t, user, now, resolver, offset) && IsFuture(t, user, now, resolver))
  {
    ViewsDisjoint(t, user, now, resolver, offset);
  }

  /** Every task of the ready, blocked or future view is in the all-tasks view for the same user. */
  lemma ViewsWithinAll(view: View, t: Task, user: Option<User>, now: int, resolver: (int, Task) -> Priority,
                       offset: (After, int) -> int)
    requires InView(view, t, user, now, resolver, offset)
    ensures InView(AllView, t, user, now, resolver, offset)
  {
  }

  /**
   * One traversal building a view: each task meeting the view's condition is
   * appended, in traversal order.
   */
  method CollectTasks(view: View, ts: seq<Task>, user: Option<User>, now: int, resolver: (int, Task) -> Priority,
                      offset: (After, int) -> int)
    returns (r: seq<Task>)
    ensures r == Select(view, ts, user, now, resolver, offset)
  {
    r := [];
    for n := 0 to |ts|
      invariant r == Select(view, ts[..n], user, now, resolver, offset)
    {
      var task := ts[n];
      assert ts[..n + 1][..n] == ts[..n];
      if InView(view, task, user, now, resolver, offset) {
        r := r + [task];
      }
    }
    assert ts[..|ts|] == ts;
  }

  /** A task that would show in the ready, blocked or future view. */
  predicate Assigned(t: Task, user: Option<User>, now: int, resolver: (int, Task) -> Priority,
                     offset: (After, int) -> int) {
    IsReady(t, user, now, resolver, offset) || IsBlocked(t, user, now, resolver, offset) || IsFuture(t, user, now, resolver)
  }

  /**
   * hasAssignedTask: the ready, blocked and future tests applied to each task
   * in turn, the priority resolved at most once per task, stopping at the first
   * task that passes one of them.
   */
  method HasAssignedTask(ts: seq<Task>, user: Option<User>, now: int, resolver: (int, Task) -> Priority,
                         offset: (After, int) -> int)
    returns (result: bool)
    ensures result <==> exists t :: t in ts && Assigned(t, user, now, resolver, offset)
  {
    for n := 0 to |ts|
      invariant forall m :: 0 <= m < n ==> !Assigned(ts[m], user, now, resolver, offset)
    {
      var task := ts[n];
      assert task in ts;
      var assignedTo := AssignmentOf(task, user);
      if user.None? || assignedTo.Some? {
        var status := task.status;
        var priority: Option<Priority> := None;
        // the ready test
        if !status.completedSchedule && status.readySchedule {
          priority := Some(resolver(now, task));
          if priority.value != Future {
            if status.date.Some? && assignedTo.Some? && assignedTo.value.count > 0 {
              var effectiveDate := offset(assignedTo.value, status.date.value);
              if now >= effectiveDate {
                return true;
              }
            } else {
              return true;
            }
          }
        }
        // the blocked test
        if !status.completedSchedule && !status.readySchedule && !status.futureSchedule {
          if priority.None? {
            priority := Some(resolver(now, task));
          }
          if priority.value != Future {
            if status.date.Some? && assignedTo.Some? && assignedTo.value.count > 0 {
              var effectiveDate := offset(assignedTo.value, status.date.value);
              if now >= effectiveDate {
                return true;
              }
            } else {
              return true;
            }
          }
        }
        // the future test
        if assignedTo.None? || assignedTo.value.count == 0 {
          var future := status.futureSchedule;
          if !future {
            if priority.None? {
              priority := Some(resolver(now, task));
            }
            future := priority.value == Future;
          }
          if future {
            return true;
          }
        }
      }
    }
    return false;
  }

  /** A user has an assigned task exactly when one of the ready, blocked and future views is non-empty. */
  lemma AssignedIffViews(ts: seq<Task>, user: Option<User>, now: int, resolver: (int, Task) -> Priority,
                         offset: (After, int) -> int)
    ensures (exists t :: t in ts && Assigned(t, user, now, resolver, offset))
      <==> (Select(ReadyView, ts, user, now, resolver, offset) != []
            || Select(BlockedView, ts, user, now, resolver, offset) != []
            || Select(FutureView, ts, user, now, resolver, offset) != [])
  {
    if exists t :: t in ts && Assigned(t, user, now, resolver, offset) {
      var t :| t in ts && Assigned(t, user, now, resolver, offset);
      SelectMembers(ReadyView, ts, user, now, resolver, offset, t);
      SelectMembers(BlockedView, ts, user, now, resolver, offset, t);
      SelectMembers(FutureView, ts, user, now, resolver, offset, t);
    } else {
      forall view | view != AllView ensures Select(view, ts, user, now, resolver, offset) == [] {
        var s := Select(view, ts, user, now, resolver, offset);
        if s != [] {
          SelectMembers(view, ts, user, now, resolver, offset, s[0]);
        }
      }
    }
  }

  /** The cache key: a page and the user the answer is for (none for every user). */
  datatype PageUserKey = PageUserKey(page: PageRef, user: Option<User>)

  /** A cached list is found by the view it belongs to and its (page, user) key. */
  datatype ListKey = ListKey(view: View, key: PageUserKey)

  /**
   * The request-scoped cache of views and of hasAssignedTask answers. The
   * captured page tree (`traverse` gives the tasks under a page in depth-first
   * order), the priority resolver and the calendar offset are fixed for the
   * request; each answer is computed once, at the instant recorded for it, and
   * returned unchanged afterwards.
   */
  class ViewCache {
    const traverse: PageRef -> seq<Task>
    const resolver: (int, Task) -> Priority
    const offset: (After, int) -> int
    var lists: map<ListKey, seq<Task>>
    var assignedAnswers: map<PageUserKey, bool>
    ghost var listTimes: map<ListKey, int>
    ghost var answerTimes: map<PageUserKey, int>

    ghost predicate Valid()
      reads this
    {
      && lists.Keys == listTimes.Keys
      && assignedAnswers.Keys == answerTimes.Keys
      && (forall k :: k in lists ==>
            lists[k] == Select(k.view, traverse(k.key.page), k.key.user, listTimes[k], resolver, offset))
      && (forall k :: k in assignedAnswers ==>
            (assignedAnswers[k] <==> exists t :: t in traverse(k.page) && Assigned(t, k.user, answerTimes[k], resolver, offset)))
    }

    constructor (traverse: PageRef -> seq<Task>, resolver: (int, Task) -> Priority, offset: (After, int) -> int)
      ensures Valid() && lists == map[] && assignedAnswers == map[]
      ensures this.traverse == traverse && this.resolver == resolver && this.offset == offset
    {
      this.traverse := traverse;
      this.resolver := resolver;
      this.offset := offset;
      lists, assignedAnswers := map[], map[];
      listTimes, answerTimes := map[], map[];
    }

    /**
     * The tasks of `view` under `page` for `user`: the cached list when this
     * request has already computed it, else computed at `now` and cached.
     */
    method GetTasks(view: View, page: PageRef, user: Option<User>, now: int) returns (r: seq<Task>)
      requires Valid()
      modifies this
      ensures Valid() && assignedAnswers == old(assignedAnswers)
      ensures var k := ListKey(view, PageUserKey(page, user));
        && k in lists && lists[k] == r
        && r == Select(view, traverse(page), user, listTimes[k], resolver, offset)
        && (k in old(lists) ==> r == old(lists)[k] && lists == old(lists) && listTimes == old(listTimes))
        && (k !in old(lists) ==> r == Select(view, traverse(page), user, now, resolver, offset)
                                 && lists == old(lists)[k := r])
    {
      var k := ListKey(view, PageUserKey(page, user));
      if k in lists {
        return lists[k];
      }
      r := CollectTasks(view, traverse(page), user, now, resolver, offset);
      lists := lists[k := r];
      listTimes := listTimes[k := now];
    }

    /**
     * getAllTasks: every task under `page`, or those assigned to `user`. The
     * all-tasks view does not read the clock, so it is computed at a fixed
     * instant (AllViewIgnoresClock).
     */
    method GetAllTasks(page: PageRef, user: Option<User>) returns (r: seq<Task>)
      requires Valid()
      modifies this
      ensures Valid() && assignedAnswers == old(assignedAnswers)
      ensures forall t :: t in r <==> t in traverse(page) && PassesUser(t, user)
      ensures user.None? ==> r == traverse(page)
      ensures var k := ListKey(AllView, PageUserKey(page, user));
        (k in old(lists) ==> r == old(lists)[k] && lists == old(lists))
        && (k !in old(lists) ==> r == Select(AllView, traverse(page), user, 0, resolver, offset)
                                 && lists == old(lists)[k := r])
    {
      r := GetTasks(AllView, page, user, 0);
      ghost var at := listTimes[ListKey(AllView, PageUserKey(page, user))];
      forall t ensures t in r <==> t in traverse(page) && PassesUser(t, user) {
        SelectMembers(AllView, traverse(page), user, at, resolver, offset, t);
      }
      if user.None? {
        AllForEveryone(traverse(page), at, resolver, offset);
      }
    }

    /** getReadyTasks: the ready view under `page` for `user`, computed once per request. */
    method GetReadyTasks(page: PageRef, user: Option<User>, now: int) returns (r: seq<Task>)
      requires Valid()
      modifies this
      ensures Valid() && assignedAnswers == old(assignedAnswers)
      ensures var k := ListKey(ReadyView, PageUserKey(page, user));
        (k in old(lists) ==> r == old(lists)[k] && lists == old(lists))
        && (k !in old(lists) ==> r == Select(ReadyView, traverse(page), user, now, resolver, offset)
                                 && lists == old(lists)[k := r])
    {
      r := GetTasks(ReadyView, page, user, now);
    }

    /** getBlockedTasks: the blocked view under `page` for `user`, computed once per request. */
    method GetBlockedTasks(page: PageRef, user: Option<User>, now: int) returns (r: seq<Task>)
      requires Valid()
      modifies this
      ensures Valid() && assignedAnswers == old(assignedAnswers)
      ensures var k := ListKey(BlockedView, PageUserKey(page, user));
        (k in old(lists) ==> r == old(lists)[k] && lists == old(lists))
        && (k !in old(lists) ==> r == Select(BlockedView, traverse(page), user, now, resolver, offset)
                                 && lists == old(lists)[k := r])
    {
      r := GetTasks(BlockedView, page, user, now);
    }

    /** getFutureTasks: the future view under `page` for `user`, computed once per request. */
    method GetFutureTasks(page: PageRef, user: Option<User>, now: int) returns (r: seq<Task>)
      requires Valid()
      modifies this
      ensures Valid() && assignedAnswers == old(assignedAnswers)
      ensures var k := ListKey(FutureView, PageUserKey(page, user));
        (k in old(lists) ==> r == old(lists)[k] && lists == old(lists))
        && (k !in old(lists) ==> r == Select(FutureView, traverse(page), user, now, resolver, offset)
                                 && lists == old(lists)[k := r])
    {
      r := GetTasks(FutureView, page, user, now);
    }

    /** hasAssignedTask: whether `user` has any ready, blocked or future task under `page`, once per request. */
    method HasAssigned(page: PageRef, user: Option<User>, now: int) returns (r: bool)
      requires Valid()
      modifies this
      ensures Valid() && lists == old(lists)
      ensures var k := PageUserKey(page, user);
        && k in assignedAnswers && assignedAnswers[k] == r
        && (k in old(assignedAnswers) ==> r == old(assignedAnswers)[k] && assignedAnswers == old(assignedAnswers))
        && (k !in old(assignedAnswers) ==>
              (r <==> exists t :: t in traverse(page) && Assigned(t, user, now, resolver, offset))
              && assignedAnswers == old(assignedAnswers)[k := r])
    {
      var k := PageUserKey(page, user);
      if k in assignedAnswers {
        return assignedAnswers[k];
      }
      r := HasAssignedTask(traverse(page), user, now, resolver, offset);
      assignedAnswers := assignedAnswers[k := r];
      answerTimes := answerTimes[k := now];
    }
  }
}
