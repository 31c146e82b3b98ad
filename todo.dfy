/** The console to-do list (todo.py): a list of task strings held in memory
    and mirrored, after every change, to the file tasks.txt. User input is a
    parameter of each operation; what the program prints is left out except
    where it is the operation's result. */
module Todo {
  import opened Wrappers
  import opened Text

  /** The content `save_tasks` writes: each task followed by a newline, in
      list order. */
  function Serialize(tasks: seq<string>): string {
    if tasks == [] then "" else tasks[0] + "\n" + Serialize(tasks[1..])
  }

  lemma {:induction false} SerializeSnoc(tasks: seq<string>, t: string)
    ensures Serialize(tasks + [t]) == Serialize(tasks) + t + "\n"
  {
    if tasks == [] {
      assert [t][1..] == [];
    } else {
      assert (tasks + [t])[1..] == tasks[1..] + [t];
      SerializeSnoc(tasks[1..], t);
    }
  }

  /** What one line contributes when tasks are loaded: its stripped form,
      unless that is empty. */
  function LineTask(line: string): seq<string> {
    var task := Strip(line);
    if task != "" then [task] else []
  }

  /** The tasks `load_tasks` appends for the given lines, in file order. */
  function Loaded(lines: seq<string>): seq<string> {
    if lines == [] then [] else LineTask(lines[0]) + Loaded(lines[1..])
  }

  lemma {:induction false} LoadedAppend(a: seq<string>, b: seq<string>)
    ensures Loaded(a + b) == Loaded(a) + Loaded(b)
  {
    if a != [] {
      var head, rest := LineTask(a[0]), a[1..];
      assert (a + b)[0] == a[0] && (a + b)[1..] == rest + b;
      assert Loaded(a + b) == head + Loaded(rest + b);
      assert Loaded(rest + b) == Loaded(rest) + Loaded(b) by {
        LoadedAppend(rest, b);
      }
      assert head + (Loaded(rest) + Loaded(b)) == (head + Loaded(rest)) + Loaded(b);
    } else {
      assert a + b == b;
    }
  }

  /** Every loaded task is non-empty and already stripped, and there are
      no more of them than lines. */
  lemma {:induction false} LoadedWellFormed(lines: seq<string>)
    ensures |Loaded(lines)| <= |lines|
    ensures forall t :: t in Loaded(lines) ==> t != "" && Strip(t) == t
  {
    if lines != [] {
      var head, rest := LineTask(lines[0]), Loaded(lines[1..]);
      assert Loaded(lines) == head + rest;
      assert forall t :: t in head ==> t != "" && Strip(t) == t by {
        StripIdempotent(lines[0]);
      }
      assert |rest| <= |lines[1..]| && forall t :: t in rest ==> t != "" && Strip(t) == t by {
        LoadedWellFormed(lines[1..]);
      }
    }
  }

  /** Every line that is not blank yields its stripped form, and every
      loaded task comes from some line. */
  lemma {:induction false} LoadedFromLines(lines: seq<string>)
    ensures forall t :: t in Loaded(lines) ==> exists l :: l in lines && t == Strip(l)
    ensures forall l :: l in lines && !IsBlank(l) ==> Strip(l) in Loaded(lines)
  {
    if lines != [] {
      var head, tail := lines[0], lines[1..];
      LoadedFromLines(tail);
      StripSpec(head);
      assert lines == [head] + tail;
      forall t | t in Loaded(lines) ensures exists l :: l in lines && t == Strip(l) {
        if t in LineTask(head) {
          assert t == Strip(head);
        } else {
          assert t in Loaded(tail);
          var l :| l in tail && t == Strip(l);
          assert l in lines;
        }
      }
      forall l | l in lines && !IsBlank(l) ensures Strip(l) in Loaded(lines) {
        if l == head {
          assert Strip(l) in LineTask(head);
        } else {
          assert l in tail;
        }
      }
    }
  }

  lemma LoadedSnoc(lines: seq<string>, i: nat)
    requires i < |lines|
    ensures Loaded(lines[..i + 1]) == Loaded(lines[..i]) + LineTask(lines[i])
    ensures LineTask(lines[i]) == if Strip(lines[i]) != "" then [Strip(lines[i])] else []
  {
    var prefix, line := lines[..i], lines[i];
    assert lines[..i + 1] == prefix + [line];
    assert Loaded(prefix + [line]) == Loaded(prefix) + Loaded([line]) by {
      LoadedAppend(prefix, [line]);
    }
    assert [line][1..] == [];
    assert Loaded([line]) == LineTask(line) + Loaded([]);
  }

  /** One loading step, as the loop of `load_tasks` takes it. */
  lemma LoadStep(prev: seq<string>, lines: seq<string>, i: nat)
    requires i < |lines|
    ensures prev + Loaded(lines[..i + 1]) ==
              if Strip(lines[i]) != "" then prev + Loaded(lines[..i]) + [Strip(lines[i])]
              else prev + Loaded(lines[..i])
  {
    LoadedSnoc(lines, i);
  }

  /** Writing the tasks and reading the file back gives each task stripped,
      with the blank ones dropped, provided no task holds a line break. */
  lemma {:induction false} ReloadIsLoadedTasks(tasks: seq<string>)
    requires forall t :: t in tasks ==> HasNoLineBreak(t)
    ensures Loaded(SplitLines(Serialize(tasks))) == Loaded(tasks)
  {
    if tasks == [] {
      assert SplitLines("") == [[]];
      assert Loaded([[]]) == LineTask([]) + Loaded([]);
    } else {
      var rest := Serialize(tasks[1..]);
      SplitLinesLine(tasks[0], '\n', rest);
      assert SplitLines(Serialize(tasks)) == [tasks[0]] + SplitLines(rest);
      assert ([tasks[0]] + SplitLines(rest))[1..] == SplitLines(rest);
      ReloadIsLoadedTasks(tasks[1..]);
    }
  }

  /** A task survives a save and reload unchanged when it is non-empty,
      already stripped and free of line breaks. */
  predicate Reloadable(t: string) {
    t != "" && !IsSpace(t[0]) && !IsSpace(t[|t| - 1]) && HasNoLineBreak(t)
  }

  /** Saving then loading into an empty list gives back the same list when
      every task is reloadable. */
  lemma {:induction false} SaveLoadRoundTrip(tasks: seq<string>)
    requires forall t :: t in tasks ==> Reloadable(t)
    ensures Loaded(SplitLines(Serialize(tasks))) == tasks
  {
    ReloadIsLoadedTasks(tasks);
    LoadedOfReloadable(tasks);
  }

  lemma {:induction false} LoadedOfReloadable(tasks: seq<string>)
    requires forall t :: t in tasks ==> Reloadable(t)
    ensures Loaded(tasks) == tasks
  {
    if tasks != [] {
      assert Reloadable(tasks[0]);
      NoEndSpaceIsStripped(tasks[0]);
      assert LineTask(tasks[0]) == [tasks[0]];
      LoadedOfReloadable(tasks[1..]);
      assert tasks == [tasks[0]] + tasks[1..];
    }
  }

  /** `add_task` accepts a whitespace-only task, but it is lost on the next
      load: the reloaded list is what it was without it. */
  lemma BlankTaskLostOnReload(tasks: seq<string>, t: string)
    requires forall u :: u in tasks ==> HasNoLineBreak(u)
    requires t != "" && IsBlank(t) && HasNoLineBreak(t)
    ensures Loaded(SplitLines(Serialize(tasks + [t]))) == Loaded(SplitLines(Serialize(tasks)))
  {
    ReloadIsLoadedTasks(tasks + [t]);
    ReloadIsLoadedTasks(tasks);
    LoadedAppend(tasks, [t]);
    StripSpec(t);
    assert Loaded([t]) == LineTask(t) + Loaded([]);
  }

  /** What `remove_task` did. */
  datatype RemoveOutcome =
    | NoTasks              // "No tasks to remove!"
    | Removed(task: string)
    | InvalidNumber        // a number outside 1..len
    | NotANumber           // `int(...)` raised ValueError

  class TodoApp {
    /** The in-memory list (the module-level `tasks`). */
    var tasks: seq<string>
    /** The content of tasks.txt; `None` while the file does not exist. */
    var file: Option<string>

    /** A fresh program run: the list starts empty, the file is as found. */
    constructor (file: Option<string>)
      ensures tasks == [] && this.file == file
    {
      tasks := [];
      this.file := file;
    }

    /** `load_tasks`: appends the loaded tasks and reports how many tasks
        the list then holds; a missing file changes nothing. */
    method LoadTasks() returns (count: Option<nat>)
      modifies this`tasks
      ensures file.None? ==> tasks == old(tasks) && count == None
      ensures file.Some? ==> tasks == old(tasks) + Loaded(SplitLines(file.value))
                             && count == Some(|tasks|)
    {
      match file
      case None =>
        count := None;
      case Some(content) =>
        AppendLoaded(SplitLines(content));
        count := Some(|tasks|);
    }

    /** The loop of `load_tasks`: each line's stripped form is appended
        unless it is empty. */
    method AppendLoaded(lines: seq<string>)
      modifies this`tasks
      ensures tasks == old(tasks) + Loaded(lines)
    {
      for i := 0 to |lines|
        invariant tasks == old(tasks) + Loaded(lines[..i])
      {
        var task := Strip(lines[i]);
        LoadStep(old(tasks), lines, i);
        if task != "" {
          tasks := tasks + [task];
        }
      }
      WholeSeq(lines);
    }

    /** `save_tasks`: rewrites tasks.txt with one line per task. */
    method SaveTasks()
      modifies this`file
      ensures file == Some(Serialize(tasks))
    {
      var content := "";
      for i := 0 to |tasks|
        invariant content == Serialize(tasks[..i])
      {
        assert tasks[..i + 1] == tasks[..i] + [tasks[i]];
        SerializeSnoc(tasks[..i], tasks[i]);
        content := content + tasks[i] + "\n";
      }
      assert tasks[..|tasks|] == tasks;
      file := Some(content);
    }

    /** `add_task`: a non-empty input is appended and the file rewritten;
        an empty one changes nothing. */
    method AddTask(input: string) returns (added: bool)
      modifies this
      ensures added <==> input != ""
      ensures added ==> tasks == old(tasks) + [input] && file == Some(Serialize(tasks))
      ensures !added ==> tasks == old(tasks) && file == old(file)
    {
      if input != "" {
        tasks := tasks + [input];
        SaveTasks();
        added := true;
      } else {
        added := false;
      }
    }

    /** `view_tasks`: the lines it prints, the tasks numbered from 1 in list
        order between a heading and a rule. */
    method ViewTasks() returns (output: seq<string>)
      ensures tasks == [] ==> output == ["No tasks found!"]
      ensures tasks != [] ==>
                && |output| == |tasks| + 3
                && output[0] == "" && output[1] == "--- YOUR TO-DO LIST ---"
                && (forall k :: 0 <= k < |tasks| ==> output[k + 2] == NatToString(k + 1) + ". " + tasks[k])
                && output[|tasks| + 2] == Repeat('-', 25)
    {
      if tasks == [] {
        output := ["No tasks found!"];
        return;
      }
      output := ["", "--- YOUR TO-DO LIST ---"];
      for i := 0 to |tasks|
        invariant |output| == i + 2
        invariant output[0] == "" && output[1] == "--- YOUR TO-DO LIST ---"
        invariant forall k :: 0 <= k < i ==> output[k + 2] == NatToString(k + 1) + ". " + tasks[k]
      {
        output := output + [NatToString(i + 1) + ". " + tasks[i]];
      }
      output := output + [Repeat('-', 25)];
    }

    /** `remove_task`, with `number` the parsed input (`None` when `int`
        raised ValueError): a number k in 1..len removes exactly the k-th
        task and rewrites the file; anything else changes nothing. */
    method RemoveTask(number: Option<int>) returns (outcome: RemoveOutcome)
      modifies this
      ensures old(tasks) == [] ==> outcome == NoTasks
      ensures old(tasks) != [] && number.None? ==> outcome == NotANumber
      ensures old(tasks) != [] && number.Some? && !(1 <= number.value <= |old(tasks)|) ==>
                outcome == InvalidNumber
      ensures old(tasks) != [] && number.Some? && 1 <= number.value <= |old(tasks)| ==>
                outcome.Removed?
      ensures !outcome.Removed? ==> tasks == old(tasks) && file == old(file)
      ensures outcome.Removed? ==>
                && old(tasks) != [] && number.Some? && 1 <= number.value <= |old(tasks)|
                && outcome.task == old(tasks)[number.value - 1]
                && tasks == old(tasks)[..number.value - 1] + old(tasks)[number.value..]
                && |tasks| == |old(tasks)| - 1
                && file == Some(Serialize(tasks))
    {
      if tasks == [] {
        return NoTasks;
      }
      var _ := ViewTasks();
      match number
      case None =>
        outcome := NotANumber;
      case Some(k) =>
        if 1 <= k <= |tasks| {
          var removed := tasks[k - 1];
          tasks := tasks[..k - 1] + tasks[k..];
          SaveTasks();
          outcome := Removed(removed);
        } else {
          outcome := InvalidNumber;
        }
    }
  }

  /** A restart after a successful add: a new run that loads tasks.txt
      finds exactly the list the previous run held, when every task in it
      is reloadable. */
  method RestartAfterAdd(app: TodoApp, input: string) returns (reloaded: seq<string>)
    requires forall t :: t in app.tasks ==> Reloadable(t)
    requires Reloadable(input)
    modifies app
    ensures reloaded == app.tasks == old(app.tasks) + [input]
  {
    var added := app.AddTask(input);
    var next := new TodoApp(app.file);
    var _ := next.LoadTasks();
    SaveLoadRoundTrip(app.tasks);
    reloaded := next.tasks;
  }
}
