# Task prioritisation and classification engine (pragmatickm-task-servlet)

A Dafny model of the engine behind the task views of PragmaticKM. Tasks are
declared on the pages of a book. Each task has:

- a (page, id) key;
- a snapshot of its schedule status;
- the keys of its "do-before" tasks;
- per-user assignments with an "after" delay.

The engine:

- finds the tasks that must be done after a given task (`getDoAfters`,
  `getMultipleDoAfters`);
- indexes the captured page tree by key and inverts the do-before edges;
- computes each task's *effective priority*, inherited from its blocked
  do-afters and memoised for one call;
- sorts a copy of a task list by date and effective priority, stably
  (`prioritizeTasks`);
- builds the all, ready, blocked and future views and the "has an assigned
  task" answer for a (page, user) pair, each computed once per request
  through a request-scoped cache;
- finds the most recent entry of a task log in one of a set of statuses.

From the task tag implementation it models two pure pieces:

- the name of the XML file that stores a task's log;
- the consistency check between the `recurring`, `on` and `relative`
  attributes.

Files, one module each:

- `task_model.dfy`: the task model as values: keys, status, assignments,
  priorities (FUTURE = 0 up to MAX_PRIORITY = 5), and the fatal errors.
- `task_log.dfy`: `getMostRecentEntry`, a reverse loop over the entries.
- `do_afters.dfy`: resolution of do-before lookups, `getDoAfters` and
  `getMultipleDoAfters`, each specified by functions over the traversal.
- `dependencies.dfy`: the index by (page, id) (the source's `TaskKey`) and
  the inversion of do-before edges into the do-after map.
- `effective_priority.dfy`: the recursive definition of effective
  priority, its maximum characterisation, and the memo as a class.
- `prioritize.dfy`: the comparator, the stable sort specified by insertion
  on sequences, the in-place sort of an array, and `prioritizeTasks` end to
  end.
- `task_views.dfy`: the view conditions, the views as filters of the
  traversal, `hasAssignedTask`, and the per-(page, user) cache as a class.
- `task_impl.dfy`: `getTaskLogXmlFile` and the attribute check.

The captured page tree enters as a sequence of tasks in depth-first order.
Other inputs are parameters:

- the clock is the parameter `now`;
- the priority of a task for its status is `resolver`;
- the calendar arithmetic of an "after" delay is `offset`;
- the recurring-schedule check is `checkScheduleFrom`.

Where the Java code fails (a duplicate key, a lookup that does not resolve),
the model returns an error result that names the failing key. The traversal
fixes which key is reported.

Priority inheritance runs from a task's blocked do-afters to the task
itself. `doAftersByTask[d]` lists the tasks that name `d` as a do-before
(TaskUtil.java:384-401), and `d` inherits the priority of those of them that
are blocked (TaskUtil.java:330-341). `Dependencies.InvertedOnlyDeclared` and
`EffectivePriority.EffectiveIsMaximum` state this direction.

## Model

Source paths are under `src/main/java/com/pragmatickm/task/servlet/`.

| member | source | states |
|---|---|---|
| TaskLog.GetMostRecentEntry | src/main/java/com/pragmatickm/task/servlet/TaskUtil.java:100-113 | no entry is returned exactly when no entry's status label equals one of the statuses ignoring case; a returned entry matches, and no later (newer) entry matches |
| DoAfters.Resolve | src/main/java/com/pragmatickm/task/servlet/TaskUtil.java:143 | a resolved lookup is a task of the captured tree with the lookup's (page, id); a lookup fails to resolve exactly when no task of the tree has that key |
| DoAfters.Naming | src/main/java/com/pragmatickm/task/servlet/TaskUtil.java:139-150 | definition: the tasks of a traversal whose lookups resolve to a given (page, id), each once per such lookup, in traversal then declared order |
| DoAfters.FirstUnresolvedMeans | src/main/java/com/pragmatickm/task/servlet/TaskUtil.java:142-143 | a task's lookups raise no failure exactly when all of them resolve; a reported lookup is one of them and does not resolve |
| DoAfters.FirstUnresolvedOfMeans | src/main/java/com/pragmatickm/task/servlet/TaskUtil.java:139-154 | a traversal raises no failure exactly when every lookup of every task resolves; a reported lookup belongs to some task of the traversal and does not resolve |
| DoAfters.RepeatIsCopies | src/main/java/com/pragmatickm/task/servlet/TaskUtil.java:142-149 | the contribution of one task is that task once per lookup naming the key, and it is there exactly when the task names the key |
| DoAfters.NamingMembers | src/main/java/com/pragmatickm/task/servlet/TaskUtil.java:139-150 | a task is among the do-afters of a key exactly when it is in the tree and lists that key as a do-before |
| DoAfters.NamingAppend | src/main/java/com/pragmatickm/task/servlet/TaskUtil.java:129-171 | the do-afters collected over pages visited one after another are the concatenation of each page's do-afters, in traversal order |
| DoAfters.GetDoAfters | src/main/java/com/pragmatickm/task/servlet/TaskUtil.java:120-174 | fails with the first unresolved lookup, in traversal and declared order, when there is one; otherwise returns exactly the tasks naming the task's (page, id), once per lookup, in traversal then declared order |
| DoAfters.NamingFromTask | src/main/java/com/pragmatickm/task/servlet/TaskUtil.java:141-150 | one task's lookups: fails exactly when one of them does not resolve, reporting the first; otherwise the task once per lookup naming the key |
| DoAfters.Dedup | src/main/java/com/pragmatickm/task/servlet/TaskUtil.java:201-205 | the iteration order set by the pre-fill has exactly the elements of the input |
| DoAfters.DedupDistinct | src/main/java/com/pragmatickm/task/servlet/TaskUtil.java:201-205 | that order lists each task once, and a list without repeats keeps its own order |
| DoAfters.DedupFirstOccurrences | src/main/java/com/pragmatickm/task/servlet/TaskUtil.java:201-205 | the pre-fill order is first-occurrence order: the order built from any prefix of the input is a prefix of the order built from the whole input |
| DoAfters.GetMultipleDoAfters | src/main/java/com/pragmatickm/task/servlet/TaskUtil.java:184-267 | empty map for no tasks; otherwise fails exactly when some lookup of the tree does not resolve, reporting the first; its keys are the input tasks in input order; for one task the value is the getDoAfters list; for several, each value lists the tasks whose lookups resolve to that very task |
| DoAfters.PreFill | src/main/java/com/pragmatickm/task/servlet/TaskUtil.java:200-205 | every input task is mapped to an empty list, with the keys in first-insertion order |
| DoAfters.IdentityNaming | src/main/java/com/pragmatickm/task/servlet/TaskUtil.java:219-235 | definition: the list that the several-task branch gives a task `t`: the tasks whose lookups resolve to `t` itself, once per lookup, in traversal then declared order; empty when `t`'s own key resolves to another task |
| DoAfters.FillDoAfters | src/main/java/com/pragmatickm/task/servlet/TaskUtil.java:206-258 | the traversal fails exactly when some lookup does not resolve, reporting the first; otherwise it keeps the pre-filled keys and gives each the tasks whose lookups resolve to it |
| DoAfters.CollectFromTask | src/main/java/com/pragmatickm/task/servlet/TaskUtil.java:219-237 | one task of the traversal is appended once per lookup to the list of the pre-filled task that lookup resolves to; it fails exactly when one of its lookups does not resolve |
| DoAfters.IdentityNamingAgrees | src/main/java/com/pragmatickm/task/servlet/TaskUtil.java:191-237 | for a task of a tree with unique keys, the several-task branch (matching by task) gives the same list as the one-task branch (matching by page and id) |
| DoAfters.ResolveUnique | src/main/java/com/pragmatickm/task/servlet/TaskUtil.java:143 | with unique keys, a task's own key resolves to that task |
| Dependencies.IndexTasks | src/main/java/com/pragmatickm/task/servlet/TaskUtil.java:372-383 | succeeds exactly when no two tasks share a (page, id) key, and then maps each key to its task and nothing else; a failure is a duplicate-task error naming a key that two tasks share |
| Dependencies.Inverted | src/main/java/com/pragmatickm/task/servlet/TaskUtil.java:384-402 | definition: the do-after map of a tree, built by walking every task's lookups in traversal then declared order and appending the task to the list of the task its lookup resolves to |
| Dependencies.InvertDoBefores | src/main/java/com/pragmatickm/task/servlet/TaskUtil.java:384-402 | fails with the first lookup, in traversal and declared order, that is not in the index; otherwise returns the do-after map: each task named by some lookup, mapped to the tasks naming it, once per lookup, in traversal then declared order |
| Dependencies.InvertFromTask | src/main/java/com/pragmatickm/task/servlet/TaskUtil.java:386-400 | one task's lookups: fails exactly when one is not in the index; otherwise appends the task once per lookup to the list of the task that lookup names, and to no other list |
| Dependencies.ResolveMatchesIndex | src/main/java/com/pragmatickm/task/servlet/TaskUtil.java:387-393 | a lookup is in the index exactly when it resolves in the tree, and the index gives a task of the tree with that key |
| Dependencies.IndexedIsOnly | src/main/java/com/pragmatickm/task/servlet/TaskUtil.java:289-312 | with unique keys, equal (page, id) keys mean the same task |
| Dependencies.EveryEdgeInverted | src/main/java/com/pragmatickm/task/servlet/TaskUtil.java:384-402 | no edge is dropped: every lookup of every task lands that task in the do-after list of the task it names |
| Dependencies.InvertedOnlyDeclared | src/main/java/com/pragmatickm/task/servlet/TaskUtil.java:384-402 | no edge is invented: a task is a do-after of `d` only when both are in the tree and it names `d` |
| EffectivePriority.Effective | src/main/java/com/pragmatickm/task/servlet/TaskUtil.java:314-347 | definition: a task's own priority when it is MAX_PRIORITY, otherwise the running maximum of its own priority over its blocked do-afters' effective priorities; defined for acyclic do-after graphs (`Ranked`) |
| EffectivePriority.Inherit | src/main/java/com/pragmatickm/task/servlet/TaskUtil.java:328-341 | definition: the running maximum over a do-after list, skipping completed, ready and future do-afters, and stopping once MAX_PRIORITY is reached |
| EffectivePriority.InheritIsMax | src/main/java/com/pragmatickm/task/servlet/TaskUtil.java:328-341 | the running maximum never drops below its start, bounds every blocked do-after it passes, and is its start or one of them |
| EffectivePriority.EffectiveAtLeastOwn | src/main/java/com/pragmatickm/task/servlet/TaskUtil.java:324-342 | inheritance never lowers a task's own priority |
| EffectivePriority.EffectiveOfMax | src/main/java/com/pragmatickm/task/servlet/TaskUtil.java:324-325 | a task whose own priority is MAX_PRIORITY keeps it |
| EffectivePriority.EffectiveIsMaximum | src/main/java/com/pragmatickm/task/servlet/TaskUtil.java:314-347 | the effective priority is the maximum of the own priority and the effective priorities of the blocked do-afters: it bounds all of them and equals one of them |
| EffectivePriority.EffectiveOfUnblocked | src/main/java/com/pragmatickm/task/servlet/TaskUtil.java:329-335 | do-afters that are completed, ready or future contribute nothing |
| EffectivePriority.PriorityEngine.GetEffectivePriority | src/main/java/com/pragmatickm/task/servlet/TaskUtil.java:314-347 | returns the effective priority; a memo hit returns the stored value and leaves the memo unchanged; otherwise the result is stored; earlier entries are kept, and every entry stays equal to its task's effective priority |
| Prioritize.DateDiff | src/main/java/com/pragmatickm/task/servlet/TaskUtil.java:410-425 | -1, 0 or 1: dated before undated, earlier date before later, 0 for two undated or equal dates |
| Prioritize.Cmp | src/main/java/com/pragmatickm/task/servlet/TaskUtil.java:428-452 | definition: by date first when `dateFirst`, then by effective priority highest first, then by date when not `dateFirst`; 0 when all are equal |
| Prioritize.CmpAntisymmetric | src/main/java/com/pragmatickm/task/servlet/TaskUtil.java:428-452 | the comparator's sign flips when its arguments are swapped |
| Prioritize.CmpTransitive | src/main/java/com/pragmatickm/task/servlet/TaskUtil.java:428-452 | "not after" is transitive, and strictly so when one step is strict |
| Prioritize.CmpEqualAlike | src/main/java/com/pragmatickm/task/servlet/TaskUtil.java:428-452 | tasks that compare equal compare alike against every third task |
| Prioritize.ComparatorValid | src/main/java/com/pragmatickm/task/servlet/TaskUtil.java:428-452 | the comparator meets the contract of a sort comparator for either value of `dateFirst` |
| Prioritize.Insert | src/main/java/com/pragmatickm/task/servlet/TaskUtil.java:406-454 | definition: one stable insertion: the new task moves left past every task that compares strictly greater and stops after the first that does not |
| Prioritize.Sort | src/main/java/com/pragmatickm/task/servlet/TaskUtil.java:406-454 | definition: the stable sort that stands for `Collections.sort` on the copied list: each task in input order inserted into the sort of the tasks before it |
| Prioritize.InsertPermutes | src/main/java/com/pragmatickm/task/servlet/TaskUtil.java:406-407 | one insertion adds exactly the inserted task |
| Prioritize.SortPermutes | src/main/java/com/pragmatickm/task/servlet/TaskUtil.java:406-407 | the sorted list is a permutation of the input |
| Prioritize.InsertSorted | src/main/java/com/pragmatickm/task/servlet/TaskUtil.java:406-455 | inserting into a list in order keeps it in order |
| Prioritize.SortSorted | src/main/java/com/pragmatickm/task/servlet/TaskUtil.java:406-455 | the sorted list is in order under the comparator |
| Prioritize.InsertStable | src/main/java/com/pragmatickm/task/servlet/TaskUtil.java:406-455 | an insertion places the new task after every task that compares equal to it |
| Prioritize.SortStable | src/main/java/com/pragmatickm/task/servlet/TaskUtil.java:406-455 | the sort is stable: tasks that compare equal keep their input order |
| Prioritize.SortOfSorted | src/main/java/com/pragmatickm/task/servlet/TaskUtil.java:406-455 | a list already in order comes out unchanged |
| Prioritize.ShortIsSorted | src/main/java/com/pragmatickm/task/servlet/TaskUtil.java:406-407 | a list of fewer than two tasks is returned as it is, whatever the comparator |
| Prioritize.SortIdempotent | src/main/java/com/pragmatickm/task/servlet/TaskUtil.java:406-455 | sorting a sorted result changes nothing |
| Prioritize.PriorityFirstOrder | src/main/java/com/pragmatickm/task/servlet/TaskUtil.java:435-444 | without `dateFirst`, no task follows one of lower effective priority, and among equal priorities a dated task is preceded only by dated tasks with earlier or equal dates |
| Prioritize.DateFirstOrder | src/main/java/com/pragmatickm/task/servlet/TaskUtil.java:430-439 | with `dateFirst`, dated tasks precede undated ones, earlier dates first, and on equal dates (or none) higher effective priority first |
| Prioritize.Compare | src/main/java/com/pragmatickm/task/servlet/TaskUtil.java:428-452 | the comparator call, with both priorities taken from the memo, agrees with the comparator over effective priorities, and the memo stays consistent |
| Prioritize.SortTasks | src/main/java/com/pragmatickm/task/servlet/TaskUtil.java:406-455 | the array after sorting in place is the stable insertion sort of its old contents |
| Prioritize.InsertAt | src/main/java/com/pragmatickm/task/servlet/TaskUtil.java:406-455 | one insertion step: the prefix up to `i` becomes the insertion of the old `a[i]` into the old prefix, and the rest of the array is untouched |
| Prioritize.ShiftGreater | src/main/java/com/pragmatickm/task/servlet/TaskUtil.java:406-455 | the tasks that compare strictly greater than the new task move one place right, and the returned hole is where insertion puts it |
| Prioritize.PrioritizeTasks | src/main/java/com/pragmatickm/task/servlet/TaskUtil.java:349-456 | a duplicate key is fatal; otherwise an unresolved lookup is fatal, reporting the first; otherwise a list of fewer than two tasks is returned as it is and a longer one is the stable sort of the input list under the comparator with effective priorities over the inverted graph; the input is not changed |
| TaskViews.DelayElapsed | src/main/java/com/pragmatickm/task/servlet/TaskUtil.java:708-722 | definition: a dated task assigned to the user with a positive "after" count is kept only once `now` reaches its date moved forward by that delay |
| TaskViews.IsReady | src/main/java/com/pragmatickm/task/servlet/TaskUtil.java:696-723 | definition: passes the user filter, ready and not completed, not of FUTURE priority, and its delay has elapsed |
| TaskViews.IsBlocked | src/main/java/com/pragmatickm/task/servlet/TaskUtil.java:785-811 | definition: passes the user filter, neither completed, ready nor future, not of FUTURE priority, and its delay has elapsed |
| TaskViews.IsFuture | src/main/java/com/pragmatickm/task/servlet/TaskUtil.java:871-890 | definition: passes the user filter, is not hidden by a positive "after" count, and is scheduled in the future or of FUTURE priority |
| TaskViews.PassesUser | src/main/java/com/pragmatickm/task/servlet/TaskUtil.java:508-511 | definition: the user filter, also at lines 696-700: every task when no user is given, otherwise the tasks assigned to that user |
| TaskViews.Select | src/main/java/com/pragmatickm/task/servlet/TaskUtil.java:484-919 | definition: the traversed tasks that meet a view's condition, in traversal order |
| TaskViews.SelectMembers | src/main/java/com/pragmatickm/task/servlet/TaskUtil.java:484-919 | a view holds exactly the traversed tasks that meet its condition |
| TaskViews.SelectAppend | src/main/java/com/pragmatickm/task/servlet/TaskUtil.java:484-919 | the view of pages visited one after another is the concatenation of their views, in traversal order |
| TaskViews.AllForEveryone | src/main/java/com/pragmatickm/task/servlet/TaskUtil.java:506-514 | with no user, the all-tasks view is the whole traversal, unchanged |
| TaskViews.AllViewIgnoresClock | src/main/java/com/pragmatickm/task/servlet/TaskUtil.java:484-536 | the all-tasks view does not depend on the clock |
| TaskViews.ViewsDisjoint | src/main/java/com/pragmatickm/task/servlet/TaskUtil.java:696-890 | no task is both ready and blocked, or both blocked and future; a task both ready and future has a future schedule |
| TaskViews.SingleStateDisjoint | src/main/java/com/pragmatickm/task/servlet/TaskUtil.java:696-890 | when at most one status flag is set, the ready and future views never share a task |
| TaskViews.ViewsWithinAll | src/main/java/com/pragmatickm/task/servlet/TaskUtil.java:484-919 | every task of the ready, blocked or future view is in the all-tasks view for the same user |
| TaskViews.CollectTasks | src/main/java/com/pragmatickm/task/servlet/TaskUtil.java:693-727 | one pass appends exactly the tasks that meet the view's condition, in traversal order |
| TaskViews.Assigned | src/main/java/com/pragmatickm/task/servlet/TaskUtil.java:565-639 | definition: hasAssignedTask's per-task test: the task meets the ready, the blocked or the future condition |
| TaskViews.HasAssignedTask | src/main/java/com/pragmatickm/task/servlet/TaskUtil.java:540-666 | true exactly when some task meets the ready, blocked or future condition, even though the priority is resolved at most once per task and the scan stops early |
| TaskViews.AssignedIffViews | src/main/java/com/pragmatickm/task/servlet/TaskUtil.java:540-666 | hasAssignedTask is true exactly when the ready, the blocked or the future view is non-empty |
| TaskViews.ViewCache.GetTasks | src/main/java/com/pragmatickm/task/servlet/TaskUtil.java:491-535 | the get, compute and put of each cached view (also at lines 677-680 and 749-751): a cached (view, page, user) list is returned unchanged and the cache does not change; otherwise the view is computed at `now` and stored under that key alone; every cached list is the view at the instant it was computed |
| TaskViews.ViewCache.GetAllTasks | src/main/java/com/pragmatickm/task/servlet/TaskUtil.java:484-536 | holds exactly the tasks under the page that pass the user filter, and with no user the whole traversal; computed once per request for each (page, user); takes no clock, as the source reads none |
| TaskViews.ViewCache.GetReadyTasks | src/main/java/com/pragmatickm/task/servlet/TaskUtil.java:670-753 | the ready view under the page for the user, computed once per request for each (page, user) |
| TaskViews.ViewCache.GetBlockedTasks | src/main/java/com/pragmatickm/task/servlet/TaskUtil.java:757-841 | the blocked view under the page for the user, computed once per request for each (page, user) |
| TaskViews.ViewCache.GetFutureTasks | src/main/java/com/pragmatickm/task/servlet/TaskUtil.java:845-919 | the future view under the page for the user, computed once per request for each (page, user) |
| TaskViews.ViewCache.HasAssigned | src/main/java/com/pragmatickm/task/servlet/TaskUtil.java:540-666 | a cached answer is returned unchanged; otherwise the answer at `now` is stored; the view lists are untouched |
| TaskImpl.StripExtension | src/main/java/com/pragmatickm/task/servlet/impl/TaskImpl.java:214-219 | a path ending in ".jsp" loses exactly those 4 characters; otherwise one ending in ".jspx" loses exactly those 5; any other path is kept whole |
| TaskImpl.GetTaskLogXmlFile | src/main/java/com/pragmatickm/task/servlet/impl/TaskImpl.java:213-222 | same book; the path is the stripped page path, then "-tasklog-", then the task id, then ".xml" |
| TaskImpl.TaskIdRecoverable | src/main/java/com/pragmatickm/task/servlet/impl/TaskImpl.java:220 | the task id can be read back from the log file path, given the page |
| TaskImpl.LogFilesDistinct | src/main/java/com/pragmatickm/task/servlet/impl/TaskImpl.java:213-222 | two different task ids of one page get different log files |
| TaskImpl.JspAndJspxShareLog | src/main/java/com/pragmatickm/task/servlet/impl/TaskImpl.java:214-220 | a ".jsp" page and a ".jspx" page with the same base path share each task id's log file |
| TaskImpl.CheckAttributes | src/main/java/com/pragmatickm/task/servlet/impl/TaskImpl.java:116-131 | passes exactly when the attributes agree. A non-relative recurring task without "on" fails with the "on" message. A recurring task with "on" fails, with the "Task: " prefix, exactly when the schedule check reports. A relative non-recurring task fails with the "relative" message |

## Left out

- Servlet, request and response plumbing, `CacheFilter` and the cache's get-or-create: the cache is one object per request, `TaskViews.ViewCache`.
- `CapturePage` page-tree traversal: the tasks under a page enter as a sequence in depth-first order (`traverse`, or the `universe` and `allTasks` parameters). The edge filter that skips pages in missing books happens inside that traversal. `hasAssignedTask` uses the any-order traversal; the model gives it the same sequence, which only affects which task stops the scan, not the answer.
- `getUser`, `getAllUsers`, `getTaskLogInBook` and `getTaskLog`: cookie handling, page resolution and XML file loading. They are I/O. `getMostRecentEntry` takes the log's entries directly.
- All HTML rendering in the task tag implementation (the rest of `writeBeforeBody`, `writeAfterBody`, `writeTasks`, `writeRow`, `writeTaskLookups`). These are output only.
- `TaskImpl.getPriorityForStatus` is the parameter `resolver`. The Priority enum is not part of this model; it is taken as six ordered values from FUTURE (lowest) to MAX_PRIORITY (highest).
- Calendar arithmetic of an assignment's "after" delay is the parameter `offset` on millisecond timestamps. Dates are integers.
- `Recurring.checkScheduleFrom` is the parameter `checkScheduleFrom`. `StringUtility.splitStringCommaSpace` is not modelled: `getMostRecentEntry` receives the split list.
- `System.currentTimeMillis` is the parameter `now`.
- TaskLog.GetMostRecentEntry: `equalsIgnoreCase` folds ASCII letters only, not the whole of Unicode.
- EffectivePriority.Effective: defined only on a do-after graph with no cycle of blocked do-afters, through a rank that decreases along each blocked do-after edge (`Ranked`). On such a cycle the source recurses without bound in most cases, but not all: a cycle through a MAX_PRIORITY task ends there (TaskUtil.java:325), and a sort of fewer than two tasks never calls the comparator.
- Prioritize.PrioritizeTasks: requires `Ranked` of the inverted graph whenever keys are unique, every lookup resolves and at least two tasks are sorted. This excludes inputs on which the source terminates: a cycle of blocked do-afters that passes through a MAX_PRIORITY task, or one the comparator never reaches.
- DoAfters.Resolve: a lookup (`TaskLookup.getTask`, TaskUtil.java:143 and 220) is modelled as the first traversed task with the lookup's (page, id), and fails with `TaskNotFound` exactly when no traversed task has that key. In the source the lookup resolves the page itself and raises `TaskException`, which is wrapped at TaskUtil.java:153-155 and 239-241; how it resolves a key that is absent from the traversal is not modelled.
- Prioritize.SortTasks: `Collections.sort` is a merge sort. The model uses a stable insertion sort. For a valid comparator (`Prioritize.ComparatorValid`) any stable sort gives the same result.
- The iteration order of `doAftersByTask` (a `LinkedHashMap`) is not modelled: the map is a Dafny `map`. Only the lists it holds are read.
- Exceptions are error results: `Fatal.DuplicateTask` for the duplicate-key assertion and `Fatal.TaskNotFound` for an unresolved lookup. The exception wrapping (`ServletException`, `WrappedException`) and the message texts of these two are not modelled.
- Tasks are values: Java object identity is value equality of the task record. The cache key holds the page's reference, not the page object.
- The unmodifiable wrappers around returned lists and maps are not modelled; the model's results are immutable values anyway.
