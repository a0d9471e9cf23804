/**
 * Searching a task log for its most recent entry in one of a list of statuses.
 */
module TaskLog {
  import opened TaskModel

  /** One entry of a task log; only the label of its status is searched. */
  datatype Entry = Entry(statusLabel: string, who: string, comments: string)

  /** ASCII upper-case letters map to lower case; every other character is kept. */
  function LowerAscii(c: char): (r: char)
    ensures 'A' <= c <= 'Z' ==> r as int == c as int + 32
    ensures !('A' <= c <= 'Z') ==> r == c
  {
    if 'A' <= c <= 'Z' then (c as int + 32) as char else c
  }

  /** Two labels that are equal once ASCII letters are folded to one case. */
  predicate EqualsIgnoreCase(a: string, b: string) {
    |a| == |b| && forall i :: 0 <= i < |a| ==> LowerAscii(a[i]) == LowerAscii(b[i])
  }

  /** A status label matches when it equals one of the statuses, ignoring case. */
  predicate MatchesAny(name: string, statuses: seq<string>) {
    exists k :: 0 <= k < |statuses| && EqualsIgnoreCase(name, statuses[k])
  }

  /**
   * Scans the log from newest (last) to oldest and returns the first entry whose
   * status label matches one of `statuses`, together with its index; None when no
   * entry matches. `statuses` is the list already split at commas and spaces.
   */
  method GetMostRecentEntry(entries: seq<Entry>, statuses: seq<string>)
    returns (r: Option<Entry>, ghost index: int)
    ensures r.None? <==> forall i :: 0 <= i < |entries| ==> !MatchesAny(entries[i].statusLabel, statuses)
    ensures r.Some? ==>
      && 0 <= index < |entries|
      && r.value == entries[index]
      && MatchesAny(r.value.statusLabel, statuses)
      && forall j :: index < j < |entries| ==> !MatchesAny(entries[j].statusLabel, statuses)
  {
    var i := |entries| - 1;
    while i >= 0
      invariant -1 <= i < |entries|
      invariant forall j :: i < j < |entries| ==> !MatchesAny(entries[j].statusLabel, statuses)
    {
      var entry := entries[i];
      var name := entry.statusLabel;
      for k := 0 to |statuses|
        invariant forall m :: 0 <= m < k ==> !EqualsIgnoreCase(name, statuses[m])
      {
        if EqualsIgnoreCase(name, statuses[k]) {
          return Some(entry), i;
        }
      }
      i := i - 1;
    }
    return None, -1;
  }
}
