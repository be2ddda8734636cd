/**
 * The interactive menu: one option per line of input, options 1 to 5.
 * Choosing 5 saves the list and ends the session; it is the only save.
 */
module Shell {
  import opened Wrappers
  import opened Tasks
  import opened Collection
  import Persistence

  // ---------------------------------------------------------------------------
  // Trimming a line of input.

  /** The characters Python's str.isspace accepts. */
  predicate IsSpace(c: char)
  {
    || c == ' ' || c == '\t' || c == '\n' || c == '\r' || c == '\U{B}' || c == '\U{C}'
    || '\U{1C}' <= c <= '\U{1F}' || c == '\U{85}' || c == '\U{A0}' || c == '\U{1680}'
    || '\U{2000}' <= c <= '\U{200A}' || c == '\U{2028}' || c == '\U{2029}' || c == '\U{202F}'
    || c == '\U{205F}' || c == '\U{3000}'
  }

  /** The number of whitespace characters at the start of s. */
  function LeadingSpace(s: string): (n: nat)
    ensures n <= |s|
    ensures forall k :: 0 <= k < n ==> IsSpace(s[k])
    ensures n < |s| ==> !IsSpace(s[n])
  {
    if |s| == 0 || !IsSpace(s[0]) then 0 else 1 + LeadingSpace(s[1..])
  }

  /** The number of whitespace characters at the end of s. */
  function TrailingSpace(s: string): (n: nat)
    ensures n <= |s|
    ensures forall k :: |s| - n <= k < |s| ==> IsSpace(s[k])
    ensures n < |s| ==> !IsSpace(s[|s| - 1 - n])
  {
    if |s| == 0 || !IsSpace(s[|s| - 1]) then 0 else 1 + TrailingSpace(s[..|s| - 1])
  }

  /** r is s[i..i + |r|], and everything of s outside that slice is whitespace. */
  predicate TrimmedAt(s: string, r: string, i: int)
  {
    && 0 <= i <= |s| - |r|
    && r == s[i..i + |r|]
    && (forall k :: 0 <= k < i ==> IsSpace(s[k]))
    && (forall k :: i + |r| <= k < |s| ==> IsSpace(s[k]))
  }

  /**
   * s without its leading and trailing whitespace: a slice of s that neither
   * starts nor ends with whitespace, with only whitespace cut on either side.
   */
  function Strip(s: string): (r: string)
    ensures r == [] || (!IsSpace(r[0]) && !IsSpace(r[|r| - 1]))
    ensures exists i :: TrimmedAt(s, r, i)
  {
    var i := LeadingSpace(s);
    var t := s[i..];
    var n := TrailingSpace(t);
    var r := t[..|t| - n];
    assert |r| > 0 ==> r[0] == s[i] && r[|r| - 1] == t[|t| - 1 - n];
    assert r == s[i..i + |r|];
    assert forall k :: i + |r| <= k < |s| ==> s[k] == t[k - i];
    assert TrimmedAt(s, r, i);
    r
  }

  /** Trimming is idempotent. */
  lemma StripIdempotent(s: string)
    ensures Strip(Strip(s)) == Strip(s)
  {
  }

  // ---------------------------------------------------------------------------
  // One step of the menu loop.

  /** The answers to the prompts that follow the menu choice; each option reads only those it needs. */
  datatype Entry = Entry(title: string, description: string, category: string, number: Option<int>)

  /** A menu choice line and the answers that follow it. */
  datatype Command = Command(line: string, entry: Entry)

  datatype Mode = Running | Exited

  /** The list after one menu choice (already trimmed); unknown choices change nothing. */
  function Apply(s: seq<TaskData>, choice: string, e: Entry): (r: seq<TaskData>)
    ensures choice != "1" && choice != "3" && choice != "4" ==> r == s
    ensures choice == "1" ==> r == Added(s, Strip(e.title), Strip(e.description), Strip(e.category))
    ensures choice == "3" ==> r == Marked(s, e.number)
    ensures choice == "4" ==> r == Deleted(s, e.number)
  {
    if choice == "1" then Added(s, Strip(e.title), Strip(e.description), Strip(e.category))
    else if choice == "3" then Marked(s, e.number)
    else if choice == "4" then Deleted(s, e.number)
    else s
  }

  /**
   * Runs one menu choice against the list. Option 5 returns the records it
   * writes to the tasks file and ends the session; every other choice keeps
   * running and writes nothing.
   */
  method Step(list: TaskList, cmd: Command) returns (mode: Mode, written: Option<seq<Record>>)
    requires list.Valid()
    modifies list.Repr
    ensures list.Valid() && fresh(list.Repr - old(list.Repr))
    ensures list.Contents == Apply(old(list.Contents), Strip(cmd.line), cmd.entry)
    ensures mode == (if Strip(cmd.line) == "5" then Exited else Running)
    ensures written == (if mode == Exited then Some(Persistence.SaveRecords(list.Contents)) else None)
  {
    var choice := Strip(cmd.line);
    var e := cmd.entry;
    mode, written := Running, None;
    if choice == "1" {
      list.AddTask(Strip(e.title), Strip(e.description), Strip(e.category));
    } else if choice == "2" {
      var _ := list.ViewTasks();
    } else if choice == "3" {
      var _ := list.MarkTaskCompleted(e.number);
    } else if choice == "4" {
      var _ := list.DeleteTask(e.number);
    } else if choice == "5" {
      var records := list.SaveTasks();
      mode, written := Exited, Some(records);
    }
  }

  // ---------------------------------------------------------------------------
  // A whole session over a finite script of input.

  /** Line i of the script is the exit choice. */
  predicate ExitAt(script: seq<Command>, i: int)
  {
    0 <= i < |script| && Strip(script[i].line) == "5"
  }

  /** The list at the first exit choice of a script, or None when the script ends without one. */
  function Replay(s: seq<TaskData>, script: seq<Command>): (r: Option<seq<TaskData>>)
    ensures script == [] ==> r.None?
    ensures script != [] && Strip(script[0].line) == "5" ==> r == Some(s)
    decreases |script|
  {
    if script == [] then None
    else if Strip(script[0].line) == "5" then Some(s)
    else Replay(Apply(s, Strip(script[0].line), script[0].entry), script[1..])
  }

  /** One step of a replay: an exit choice stops it, any other choice is applied. */
  lemma ReplayUnfold(s: seq<TaskData>, script: seq<Command>)
    requires script != []
    ensures Strip(script[0].line) == "5" ==> Replay(s, script) == Some(s)
    ensures Strip(script[0].line) != "5" ==>
              Replay(s, script) == Replay(Apply(s, Strip(script[0].line), script[0].entry), script[1..])
  {
  }

  /** How a session ends. */
  datatype Session =
    | LoadFailed                   // the tasks file has a record missing a field
    | Saved(records: seq<Record>)  // the user chose exit; these records were written
    | InputExhausted               // input ran out before exit: nothing is written

  /** Without an exit choice nothing is ever saved. */
  lemma {:induction false} NoExitNoSave(s: seq<TaskData>, script: seq<Command>)
    requires forall i :: 0 <= i < |script| ==> Strip(script[i].line) != "5"
    ensures Replay(s, script) == None
    decreases |script|
  {
    if script != [] {
      NoExitNoSave(Apply(s, Strip(script[0].line), script[0].entry), script[1..]);
    }
  }

  /** A session saves exactly when some line of its script is the exit choice. */
  lemma {:induction false} SavesIffExit(s: seq<TaskData>, script: seq<Command>)
    ensures Replay(s, script).Some? <==> exists i :: ExitAt(script, i)
    decreases |script|
  {
    if script != [] {
      if Strip(script[0].line) == "5" {
        assert ExitAt(script, 0);
      } else {
        var next := Apply(s, Strip(script[0].line), script[0].entry);
        SavesIffExit(next, script[1..]);
        forall i | ExitAt(script, i)
          ensures ExitAt(script[1..], i - 1)
        {
        }
        forall i | ExitAt(script[1..], i)
          ensures ExitAt(script, i + 1)
        {
        }
      }
    }
  }

  /** Input after the first exit choice has no effect on what is saved. */
  lemma {:induction false} ExitIgnoresRest(s: seq<TaskData>, script: seq<Command>, rest: seq<Command>)
    requires Replay(s, script).Some?
    ensures Replay(s, script + rest) == Replay(s, script)
    decreases |script|
  {
    assert script != [];
    assert (script + rest)[0] == script[0];
    if Strip(script[0].line) != "5" {
      assert (script + rest)[1..] == script[1..] + rest;
      ExitIgnoresRest(Apply(s, Strip(script[0].line), script[0].entry), script[1..], rest);
    }
  }

  /**
   * Loads the tasks file, then runs the script's choices in order until the
   * exit choice, which saves the list.
   */
  method Run(file: Option<seq<Record>>, script: seq<Command>) returns (r: Session)
    ensures Persistence.LoadFile(file).None? ==> r == LoadFailed
    ensures Persistence.LoadFile(file).Some? ==>
              r == match Replay(Persistence.LoadFile(file).value, script)
                   case None => InputExhausted
                   case Some(final) => Saved(Persistence.SaveRecords(final))
  {
    var loaded := TaskList.LoadTasks(file);
    if loaded.None? {
      return LoadFailed;
    }
    var list := loaded.value;
    ghost var start := list.Contents;
    var i := 0;
    while i < |script|
      invariant 0 <= i <= |script|
      invariant list.Valid() && fresh(list.Repr)
      invariant Replay(list.Contents, script[i..]) == Replay(start, script)
      decreases |script| - i
    {
      ghost var before := list.Contents;
      var mode, written := Step(list, script[i]);
      ReplayUnfold(before, script[i..]);
      if mode == Exited {
        return Saved(written.value);
      }
      assert script[i..][1..] == script[i + 1..];
      i := i + 1;
    }
    return InputExhausted;
  }
}
