/**
 * The in-memory task list and its operations: add, view, mark completed,
 * delete, save and load. A task's only identity is its 1-based position.
 */
module Collection {
  import opened Wrappers
  import opened Tasks
  import Persistence

  // ---------------------------------------------------------------------------
  // Specification: the operations on the list's value.

  /** True when the user's choice names a position of a list of length n (1-based). */
  predicate InRange(n: int, choice: Option<int>)
  {
    choice.Some? && 1 <= choice.value <= n
  }

  /** The list after adding a task: a new, not completed task at the end. */
  function Added(s: seq<TaskData>, title: string, description: string, category: string): (r: seq<TaskData>)
    ensures |r| == |s| + 1
    ensures r[..|s|] == s
    ensures r[|s|] == TaskData(title, description, category, false)
  {
    s + [TaskData(title, description, category, false)]
  }

  /** The list after marking a choice: only the chosen task changes, and only when the choice is in range. */
  function Marked(s: seq<TaskData>, choice: Option<int>): (r: seq<TaskData>)
    ensures |r| == |s|
    ensures forall i :: 0 <= i < |s| ==>
              r[i] == if InRange(|s|, choice) && i == choice.value - 1 then Completed(s[i]) else s[i]
    ensures !InRange(|s|, choice) ==> r == s
  {
    if InRange(|s|, choice) then s[choice.value - 1 := Completed(s[choice.value - 1])] else s
  }

  /**
   * The list after deleting a choice: the chosen task is gone and every later
   * task moves down one position; an out-of-range choice changes nothing.
   */
  function Deleted(s: seq<TaskData>, choice: Option<int>): (r: seq<TaskData>)
    ensures InRange(|s|, choice) ==>
              && |r| == |s| - 1
              && (forall i :: 0 <= i < choice.value - 1 ==> r[i] == s[i])
              && (forall i :: choice.value - 1 <= i < |r| ==> r[i] == s[i + 1])
    ensures !InRange(|s|, choice) ==> r == s
  {
    if InRange(|s|, choice) then s[..choice.value - 1] + s[choice.value..] else s
  }

  /** What marking or deleting reports to the user. */
  datatype Report =
    | NoTasks              // the list is empty: no number is asked for
    | NotANumber           // the answer did not parse as a number
    | InvalidNumber        // a number outside 1..length
    | Done(title: string)  // the title of the task that was marked or deleted

  /** The report for a choice on a list; Done exactly when the list changes position choice. */
  function Outcome(s: seq<TaskData>, choice: Option<int>): (r: Report)
    ensures r == NoTasks <==> |s| == 0
    ensures r.Done? <==> InRange(|s|, choice)
    ensures r.Done? ==> r.title == s[choice.value - 1].title
    ensures r == NotANumber <==> |s| > 0 && choice.None?
  {
    if |s| == 0 then NoTasks
    else if choice.None? then NotANumber
    else if 1 <= choice.value <= |s| then Done(s[choice.value - 1].title)
    else InvalidNumber
  }

  /** The number of completed tasks in a list. */
  function CompletedCount(s: seq<TaskData>): (n: nat)
    ensures n <= |s|
  {
    if s == [] then 0 else (if s[0].completed then 1 else 0) + CompletedCount(s[1..])
  }

  /** Replacing one task changes the count by the difference of the two flags. */
  lemma {:induction false} CompletedCountUpdate(s: seq<TaskData>, i: nat, t: TaskData)
    requires i < |s|
    ensures CompletedCount(s[i := t]) + (if s[i].completed then 1 else 0)
         == CompletedCount(s) + (if t.completed then 1 else 0)
  {
    if i == 0 {
      assert s[i := t][1..] == s[1..];
    } else {
      assert s[i := t][1..] == s[1..][i - 1 := t];
      CompletedCountUpdate(s[1..], i - 1, t);
    }
  }

  /**
   * Marking never un-completes anything: the completed count grows by one
   * exactly when the choice names a task that was not yet completed.
   */
  lemma MarkedCount(s: seq<TaskData>, choice: Option<int>)
    ensures CompletedCount(Marked(s, choice))
         == CompletedCount(s) + (if InRange(|s|, choice) && !s[choice.value - 1].completed then 1 else 0)
  {
    if InRange(|s|, choice) {
      CompletedCountUpdate(s, choice.value - 1, Completed(s[choice.value - 1]));
    }
  }

  /** Marking the same choice twice gives the same list as marking it once. */
  lemma MarkedIdempotent(s: seq<TaskData>, choice: Option<int>)
    ensures Marked(Marked(s, choice), choice) == Marked(s, choice)
  {
  }

  /** Deleting removes exactly one occurrence of the chosen task and nothing else. */
  lemma DeletedRemovesOne(s: seq<TaskData>, choice: Option<int>)
    requires InRange(|s|, choice)
    ensures multiset(Deleted(s, choice)) + multiset{s[choice.value - 1]} == multiset(s)
  {
    var k := choice.value - 1;
    assert s == s[..k] + [s[k]] + s[k + 1..];
  }

  /** Deleting the last position right after an add gives back the list before the add. */
  lemma DeleteUndoesAdd(s: seq<TaskData>, title: string, description: string, category: string)
    ensures Deleted(Added(s, title, description, category), Some(|s| + 1)) == s
  {
  }

  // ---------------------------------------------------------------------------
  // What viewing shows.

  /** One line of the listing: the 1-based number, the completion marker and the text fields. */
  datatype Row = Row(number: nat, done: bool, title: string, category: string, description: string)

  /** The listing: an empty list has nothing to display. */
  datatype Listing = NothingToDisplay | Rows(rows: seq<Row>)

  function RowOf(number: nat, t: TaskData): (row: Row)
  {
    Row(number, t.completed, t.title, t.category, t.description)
  }

  // ---------------------------------------------------------------------------
  // The list object.

  class TaskList {
    /** The tasks, in display order. */
    var tasks: seq<Task>
    /** The tasks' values, position by position. */
    ghost var Contents: seq<TaskData>
    /** This object and the task objects it holds. */
    ghost var Repr: set<object>

    ghost predicate Valid()
      reads this, Repr
    {
      && this in Repr
      && |tasks| == |Contents|
      && (forall i :: 0 <= i < |tasks| ==> tasks[i] in Repr && tasks[i].Value() == Contents[i])
      && (forall i, j :: 0 <= i < j < |tasks| ==> tasks[i] != tasks[j])
      && (forall o :: o in Repr ==> o == this || o in tasks)
    }

    /** An empty list. */
    constructor ()
      ensures Valid() && fresh(Repr) && Contents == []
    {
      tasks := [];
      Contents := [];
      Repr := {this};
    }

    /** Appends a task object the list does not hold yet. */
    method Append(t: Task)
      requires Valid() && t !in Repr
      modifies this
      ensures Valid() && Repr == old(Repr) + {t}
      ensures tasks == old(tasks) + [t]
      ensures Contents == old(Contents) + [t.Value()]
    {
      tasks := tasks + [t];
      Contents := Contents + [t.Value()];
      Repr := Repr + {t};
    }

    /** Adds a new, not completed task at the end; the tasks already there are untouched. */
    method AddTask(title: string, description: string, category: string)
      requires Valid()
      modifies this
      ensures Valid() && fresh(Repr - old(Repr))
      ensures Contents == Added(old(Contents), title, description, category)
      ensures |tasks| == |old(tasks)| + 1 && tasks[..|old(tasks)|] == old(tasks)
      ensures fresh(tasks[|old(tasks)|]) && Repr == old(Repr) + {tasks[|old(tasks)|]}
    {
      var t := new Task(title, description, category);
      Append(t);
    }

    /** The listing shown to the user, one row per task in order. */
    method ViewTasks() returns (listing: Listing)
      requires Valid()
      ensures listing.NothingToDisplay? <==> |Contents| == 0
      ensures listing.Rows? ==> |listing.rows| == |Contents| &&
                                forall i :: 0 <= i < |Contents| ==> listing.rows[i] == RowOf(i + 1, Contents[i])
    {
      if |tasks| == 0 {
        return NothingToDisplay;
      }
      var rows: seq<Row> := [];
      for i := 0 to |tasks|
        invariant |rows| == i
        invariant forall k :: 0 <= k < i ==> rows[k] == RowOf(k + 1, Contents[k])
      {
        var t := tasks[i];
        rows := rows + [Row(i + 1, t.completed, t.title, t.category, t.description)];
      }
      return Rows(rows);
    }

    /**
     * Marks the chosen task (1-based) completed. An empty list, an answer that
     * is not a number, or one out of range changes nothing.
     */
    method MarkTaskCompleted(choice: Option<int>) returns (report: Report)
      requires Valid()
      modifies Repr
      ensures Valid() && Repr == old(Repr)
      ensures tasks == old(tasks)
      ensures Contents == Marked(old(Contents), choice)
      ensures report == Outcome(old(Contents), choice)
    {
      if |tasks| == 0 {
        return NoTasks;
      }
      if choice.None? {
        return NotANumber;
      }
      var c := choice.value;
      if 1 <= c <= |tasks| {
        var t := tasks[c - 1];
        t.MarkCompleted();
        Contents := Contents[c - 1 := Completed(Contents[c - 1])];
        report := Done(t.title);
      } else {
        report := InvalidNumber;
      }
    }

    /**
     * Removes the chosen task (1-based); later tasks move down one position.
     * An empty list, an answer that is not a number, or one out of range
     * changes nothing.
     */
    method DeleteTask(choice: Option<int>) returns (report: Report)
      requires Valid()
      modifies this
      ensures Valid() && Repr <= old(Repr)
      ensures Contents == Deleted(old(Contents), choice)
      ensures InRange(|old(tasks)|, choice) ==>
                tasks == old(tasks)[..choice.value - 1] + old(tasks)[choice.value..]
      ensures !InRange(|old(tasks)|, choice) ==> tasks == old(tasks) && Repr == old(Repr)
      ensures report == Outcome(old(Contents), choice)
    {
      if |tasks| == 0 {
        return NoTasks;
      }
      if choice.None? {
        return NotANumber;
      }
      var c := choice.value;
      if 1 <= c <= |tasks| {
        var removed := tasks[c - 1];
        tasks := tasks[..c - 1] + tasks[c..];
        Contents := Contents[..c - 1] + Contents[c..];
        Repr := Repr - {removed};
        report := Done(removed.title);
      } else {
        report := InvalidNumber;
      }
    }

    /** The records written to the tasks file: reading them back gives the list's contents. */
    method SaveTasks() returns (records: seq<Record>)
      requires Valid()
      ensures records == Persistence.SaveRecords(Contents)
      ensures Persistence.LoadRecords(records) == Some(Contents)
    {
      records := [];
      for i := 0 to |tasks|
        invariant |records| == i
        invariant forall k :: 0 <= k < i ==> records[k] == ToRecord(Contents[k])
      {
        records := records + [tasks[i].ToDict()];
      }
      Persistence.LoadAfterSave(Contents);
    }

    /**
     * A fresh list of fresh task objects read from the tasks file; None when
     * some record lacks a field. An absent file (None) gives an empty list.
     */
    static method LoadTasks(file: Option<seq<Record>>) returns (r: Option<TaskList>)
      ensures r.None? <==> Persistence.LoadFile(file).None?
      ensures r.Some? ==> r.value.Valid() && fresh(r.value.Repr) &&
                          r.value.Contents == Persistence.LoadFile(file).value
    {
      var list := new TaskList();
      if file.None? {
        return Some(list);
      }
      var records := file.value;
      for i := 0 to |records|
        invariant list.Valid() && fresh(list.Repr)
        invariant |list.Contents| == i
        invariant forall k :: 0 <= k < i ==> FromRecord(records[k]) == Some(list.Contents[k])
      {
        var t := Task.FromDict(records[i]);
        if t.None? {
          return None;
        }
        list.Append(t.value);
      }
      assert list.Contents == Persistence.LoadRecords(records).value;
      return Some(list);
    }
  }
}
