/**
 * Saving and loading a task list at the level of records: the file holds a
 * JSON array with one record per task, in list order.
 */
module Persistence {
  import opened Wrappers
  import opened Tasks

  /** The records written for a list of tasks: one per task, in order. */
  function SaveRecords(ts: seq<TaskData>): (rs: seq<Record>)
    ensures |rs| == |ts|
    ensures forall i :: 0 <= i < |ts| ==> rs[i].Keys == FieldNames && FromRecord(rs[i]) == Some(ts[i])
  {
    seq(|ts|, i requires 0 <= i < |ts| => ToRecord(ts[i]))
  }

  /** The tasks read from a list of records; None as soon as one record lacks a field. */
  function LoadRecords(rs: seq<Record>): (r: Option<seq<TaskData>>)
    ensures r.Some? <==> forall i :: 0 <= i < |rs| ==> FromRecord(rs[i]).Some?
    ensures r.Some? ==> |r.value| == |rs| && forall i :: 0 <= i < |rs| ==> FromRecord(rs[i]) == Some(r.value[i])
  {
    if rs == [] then
      Some([])
    else
      match (FromRecord(rs[0]), LoadRecords(rs[1..]))
      case (Some(t), Some(ts)) => Some([t] + ts)
      case _ => None
  }

  /** Loading the tasks file: an absent file (None) is an empty list, not an error. */
  function LoadFile(file: Option<seq<Record>>): (r: Option<seq<TaskData>>)
    ensures file.None? ==> r == Some([])
    ensures file.Some? ==> (r.Some? <==> forall i :: 0 <= i < |file.value| ==> FromRecord(file.value[i]).Some?)
    ensures file.Some? && r.Some? ==>
              |r.value| == |file.value| && forall i :: 0 <= i < |file.value| ==> FromRecord(file.value[i]) == Some(r.value[i])
  {
    match file
    case None => Some([])
    case Some(rs) => LoadRecords(rs)
  }

  /** Saving then loading gives back the same tasks, in the same order. */
  lemma LoadAfterSave(ts: seq<TaskData>)
    ensures LoadRecords(SaveRecords(ts)) == Some(ts)
    ensures LoadFile(Some(SaveRecords(ts))) == Some(ts)
  {
    var loaded := LoadRecords(SaveRecords(ts));
    assert loaded.Some?;
    assert |loaded.value| == |ts|;
    forall i | 0 <= i < |ts|
      ensures loaded.value[i] == ts[i]
    {
      assert FromRecord(SaveRecords(ts)[i]) == Some(loaded.value[i]);
    }
    assert loaded.value == ts;
  }

  /** A file whose records all hold exactly the four fields is written back unchanged. */
  lemma SaveAfterLoad(rs: seq<Record>)
    requires forall i :: 0 <= i < |rs| ==> HasTaskFields(rs[i]) && rs[i].Keys == FieldNames
    ensures LoadRecords(rs).Some? && SaveRecords(LoadRecords(rs).value) == rs
  {
    var ts := LoadRecords(rs).value;
    forall i | 0 <= i < |rs|
      ensures SaveRecords(ts)[i] == rs[i]
    {
      ExactRecordRoundTrip(rs[i]);
    }
  }

  /** One record missing the completion flag makes the whole load fail. */
  lemma MissingFlagFailsLoad(rs: seq<Record>, i: nat)
    requires i < |rs| && "completed" !in rs[i]
    ensures LoadRecords(rs).None? && LoadFile(Some(rs)).None?
  {
  }
}
