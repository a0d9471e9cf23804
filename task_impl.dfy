/**
 * Two pure pieces of the task tag implementation: where a task's log is
 * stored, and the consistency check between the recurring, on and relative
 * attributes made before a task is written.
 */
module TaskImpl {
  import opened TaskModel

  const RemoveJspExtension: string := ".jsp"
  const RemoveJspxExtension: string := ".jspx"
  const TaskLogMid: string := "-tasklog-"
  const TaskLogExtension: string := ".xml"

  predicate EndsWith(s: string, suffix: string) {
    |suffix| <= |s| && s[|s| - |suffix|..] == suffix
  }

  /**
   * The page path without its ".jsp" extension, or else without its ".jspx"
   * extension, or else whole.
   */
  function StripExtension(path: string): (r: string)
    ensures EndsWith(path, RemoveJspExtension) ==> path == r + RemoveJspExtension
    ensures !EndsWith(path, RemoveJspExtension) && EndsWith(path, RemoveJspxExtension) ==> path == r + RemoveJspxExtension
    ensures !EndsWith(path, RemoveJspExtension) && !EndsWith(path, RemoveJspxExtension) ==> r == path
  {
    if EndsWith(path, RemoveJspExtension) then
      SplitSuffix(path, RemoveJspExtension);
      path[..|path| - |RemoveJspExtension|]
    else if EndsWith(path, RemoveJspxExtension) then
      SplitSuffix(path, RemoveJspxExtension);
      path[..|path| - |RemoveJspxExtension|]
    else path
  }

  lemma SplitSuffix(path: string, suffix: string)
    requires EndsWith(path, suffix)
    ensures path == path[..|path| - |suffix|] + suffix
  {
    assert path == path[..|path| - |suffix|] + path[|path| - |suffix|..];
  }

  /**
   * The file holding the XML log of task `taskId` on the page `pageRef`: in the
   * same book, next to the page, named after the page and the task.
   */
  function GetTaskLogXmlFile(pageRef: PageRef, taskId: string): (r: PageRef)
    ensures r.book == pageRef.book
    ensures EndsWith(r.path, TaskLogExtension)
    ensures |r.path| == |StripExtension(pageRef.path)| + |TaskLogMid| + |taskId| + |TaskLogExtension|
    ensures r.path[..|StripExtension(pageRef.path)|] == StripExtension(pageRef.path)
    ensures r.path[|StripExtension(pageRef.path)|..|StripExtension(pageRef.path)| + |TaskLogMid|] == TaskLogMid
  {
    var xmlFilePath := StripExtension(pageRef.path);
    PageRef(pageRef.book, xmlFilePath + TaskLogMid + taskId + TaskLogExtension)
  }

  /**
   * The task id can be read back from the log file name, given the page: it
   * lies between the "-tasklog-" marker and the ".xml" extension.
   */
  lemma TaskIdRecoverable(pageRef: PageRef, taskId: string)
    ensures var path := GetTaskLogXmlFile(pageRef, taskId).path;
      var start := |StripExtension(pageRef.path)| + |TaskLogMid|;
      start <= |path| - |TaskLogExtension| && path[start..|path| - |TaskLogExtension|] == taskId
  {
    var stripped := StripExtension(pageRef.path);
    var path := stripped + TaskLogMid + taskId + TaskLogExtension;
    assert path == GetTaskLogXmlFile(pageRef, taskId).path;
    assert path[|stripped| + |TaskLogMid|..|path| - |TaskLogExtension|] == taskId;
  }

  /** Hence two tasks of one page never share a log file. */
  lemma LogFilesDistinct(pageRef: PageRef, id1: string, id2: string)
    requires id1 != id2
    ensures GetTaskLogXmlFile(pageRef, id1) != GetTaskLogXmlFile(pageRef, id2)
  {
    TaskIdRecoverable(pageRef, id1);
    TaskIdRecoverable(pageRef, id2);
  }

  /**
   * The log file name drops the page's extension, so a ".jsp" page and a
   * ".jspx" page with the same base path share the log file of a task id.
   */
  lemma JspAndJspxShareLog(book: string, base: string, taskId: string)
    ensures GetTaskLogXmlFile(PageRef(book, base + RemoveJspExtension), taskId)
         == GetTaskLogXmlFile(PageRef(book, base + RemoveJspxExtension), taskId)
  {
    var jsp, jspx := base + RemoveJspExtension, base + RemoveJspxExtension;
    assert jsp[|jsp| - |RemoveJspExtension|..] == RemoveJspExtension;
    assert jsp[..|jsp| - |RemoveJspExtension|] == base;
    assert jspx[|jspx| - |RemoveJspExtension|..] != RemoveJspExtension by {
      assert jspx[|jspx| - 1] == 'x';
    }
    assert jspx[|jspx| - |RemoveJspxExtension|..] == RemoveJspxExtension;
    assert jspx[..|jspx| - |RemoveJspxExtension|] == base;
  }

  /**
   * The attribute consistency check: None when the recurring, on and relative
   * attributes agree, else the message of the failure. `checkScheduleFrom`
   * validates a recurring schedule against a start date and a field name.
   */
  function CheckAttributes(task: Task, checkScheduleFrom: (Recurring, int, string) -> Option<string>): (r: Option<string>)
    ensures r.None? <==>
      if task.recurring.Some? then
        (task.on.None? ==> task.relative)
        && (task.on.Some? ==> checkScheduleFrom(task.recurring.value, task.on.value, "on").None?)
      else !task.relative
    ensures task.recurring.Some? && task.on.None? && !task.relative ==>
      r == Some("Task \"on\" attribute required for non-relative recurring tasks.")
    ensures task.recurring.Some? && task.on.Some? && checkScheduleFrom(task.recurring.value, task.on.value, "on").Some? ==>
      r == Some("Task: " + checkScheduleFrom(task.recurring.value, task.on.value, "on").value)
    ensures task.recurring.None? && task.relative ==>
      r == Some("Task \"relative\" attribute only allowed for recurring tasks.")
  {
    if task.recurring.Some? then
      if task.on.None? then
        if !task.relative then Some("Task \"on\" attribute required for non-relative recurring tasks.") else None
      else
        var checkResult := checkScheduleFrom(task.recurring.value, task.on.value, "on");
        if checkResult.Some? then Some("Task: " + checkResult.value) else None
    else if task.relative then Some("Task \"relative\" attribute only allowed for recurring tasks.")
    else None
  }
}
