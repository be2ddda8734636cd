/**
 * A single to-do item (the `Task` class) and the four-field record it is
 * stored as.
 */
module Tasks {
  import opened Wrappers

  /** What a Task object holds: its title, description, category and completion flag. */
  datatype TaskData = TaskData(title: string, description: string, category: string, completed: bool)

  /** The one state change a task admits: it becomes completed. */
  function Completed(t: TaskData): (r: TaskData)
    ensures r.completed
    ensures r.title == t.title && r.description == t.description && r.category == t.category
  {
    t.(completed := true)
  }

  /** Completing a task never clears the flag and touches no other field. */
  lemma CompletedIsOneWay(t: TaskData)
    ensures Completed(t).completed
    ensures Completed(t).title == t.title && Completed(t).description == t.description
    ensures Completed(t).category == t.category
    ensures t.completed ==> Completed(t) == t
  {
  }

  /** Completing twice is the same as completing once. */
  lemma CompletedIdempotent(t: TaskData)
    ensures Completed(Completed(t)) == Completed(t)
  {
  }

  // ---------------------------------------------------------------------------
  // The record form: a JSON object, keyed by field name.

  /** A JSON value as far as task records care: a string, a boolean, or anything else. */
  datatype Json = JString(str: string) | JBool(flag: bool) | JOther

  type Record = map<string, Json>

  const FieldNames: set<string> := {"title", "description", "category", "completed"}

  /** The record a task is saved as: exactly the four named fields. */
  function ToRecord(t: TaskData): (r: Record)
    ensures r.Keys == FieldNames
    ensures FromRecord(r) == Some(t)
  {
    map["title" := JString(t.title),
        "description" := JString(t.description),
        "category" := JString(t.category),
        "completed" := JBool(t.completed)]
  }

  /** True when the record has all four fields, each holding a value of the field's kind. */
  predicate HasTaskFields(r: Record)
  {
    && "title" in r && r["title"].JString?
    && "description" in r && r["description"].JString?
    && "category" in r && r["category"].JString?
    && "completed" in r && r["completed"].JBool?
  }

  /**
   * Reads a task back from a record. A missing field is an error: nothing is
   * defaulted. Keys other than the four are ignored.
   */
  function FromRecord(r: Record): (t: Option<TaskData>)
    ensures t.Some? <==> HasTaskFields(r)
    ensures !("title" in r && "description" in r && "category" in r && "completed" in r) ==> t.None?
    ensures t.Some? ==> && JString(t.value.title) == r["title"]
                        && JString(t.value.description) == r["description"]
                        && JString(t.value.category) == r["category"]
                        && JBool(t.value.completed) == r["completed"]
  {
    if HasTaskFields(r) then
      Some(TaskData(r["title"].str, r["description"].str, r["category"].str, r["completed"].flag))
    else
      None
  }

  /**
   * Reading keeps exactly the four fields: saving what was read gives the
   * record back, less any extra keys.
   */
  lemma FromRecordThenToRecord(r: Record)
    requires FromRecord(r).Some?
    ensures ToRecord(FromRecord(r).value) == map k | k in r && k in FieldNames :: r[k]
  {
  }

  /** A record holding exactly the four fields is reproduced by reading then saving it. */
  lemma ExactRecordRoundTrip(r: Record)
    requires HasTaskFields(r) && r.Keys == FieldNames
    ensures ToRecord(FromRecord(r).value) == r
  {
  }

  // ---------------------------------------------------------------------------
  // The mutable task object.

  class Task {
    var title: string
    var description: string
    var category: string
    var completed: bool

    /** The task's current field values. */
    function Value(): TaskData
      reads this
    {
      TaskData(title, description, category, completed)
    }

    /** A new task is not completed. */
    constructor (title: string, description: string, category: string)
      ensures Value() == TaskData(title, description, category, false)
    {
      this.title := title;
      this.description := description;
      this.category := category;
      this.completed := false;
    }

    /** Sets the completion flag; the other fields stay as they were. */
    method MarkCompleted()
      modifies this
      ensures Value() == Completed(old(Value()))
    {
      completed := true;
    }

    /** The record this task is saved as; reading it back gives this task's fields. */
    function ToDict(): (r: Record)
      reads this
      ensures r.Keys == FieldNames
      ensures FromRecord(r) == Some(Value())
    {
      ToRecord(Value())
    }

    /** A fresh task built from a record, or None when a field is missing. */
    static method FromDict(data: Record) returns (r: Option<Task>)
      ensures r.None? <==> FromRecord(data).None?
      ensures r.Some? ==> fresh(r.value) && Some(r.value.Value()) == FromRecord(data)
    {
      var fields := FromRecord(data);
      if fields.None? {
        return None;
      }
      var task := new Task(fields.value.title, fields.value.description, fields.value.category);
      task.completed := fields.value.completed;
      return Some(task);
    }
  }
}
