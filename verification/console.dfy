/** The menu loop `run` and the processing task `_execute_processing_task` around the chunk loop:
    the checks made before any window is sent, and how a menu choice is dispatched. */
module Console {
  import opened Wrappers
  import opened Validation
  import opened Processor

  /** A task profile as `_load_task_profile` builds it; `promptPath` is `None` when the
      profile dictionary has no "prompt_path" key. */
  datatype Profile = Profile(name: string, promptPath: Option<string>, chunkSize: int)

  /** The chunk size of the one shipped profile, in characters. */
  const ShippedChunkSize: int := 60

  /** The profile table `__init__` describes on `main.py` lines 19-21: one entry, under
      key 1, whose prompt file lives in the `text` directory beside the program. */
  function InitialProfiles(baseDir: string): map<int, Profile>
  {
    map[1 := Profile("文段理解处理", Some(baseDir + "/text/text_PUP_Tas.md"), ShippedChunkSize)]
  }

  /** A regular file at the prompt path: one that cannot be read, or its text. */
  datatype PromptFile = Unreadable | Readable(text: string)

  /** What the processing task finds around it: the regular files by path, the result of reading the
      data file, and the completer. */
  datatype Env = Env(files: map<string, PromptFile>, dataFile: DataFile, complete: Completer)

  /** How one run of `_execute_processing_task` ends. Every exception is caught inside
      the processing task, so each ending is a message on the console and a return to the menu. */
  datatype TaskOutcome =
    | MissingPromptPath
    | MissingProfileKey
    | PromptNotAFile(path: string)
    | PromptUnreadable
    | ContentRejected(error: PyException)
    | Completed(run: Run)
    | Aborted(run: Run, error: PyException)

  /** `_execute_processing_task`. The first guard returns whenever the table has at most
      one profile; past it, profile 1 must exist (otherwise the `KeyError` is caught) and
      carry a prompt path naming a readable regular file; the data file must load; then
      the chunk loop runs with profile 1's chunk size, and an exception from it is caught. */
  function ExecuteTask(profiles: map<int, Profile>, env: Env): (r: TaskOutcome)
    ensures |profiles| <= 1 ==> r == MissingPromptPath
    ensures (r.Completed? || r.Aborted?) <==>
      && |profiles| > 1 && 1 in profiles && profiles[1].promptPath.Some?
      && profiles[1].promptPath.value in env.files && env.files[profiles[1].promptPath.value].Readable?
      && LoadUserContent(env.dataFile).Success?
    ensures r.Completed? || r.Aborted? ==>
      r.run == ProcessSpec(LoadUserContent(env.dataFile).value, env.files[profiles[1].promptPath.value].text,
                           profiles[1].chunkSize, env.complete)
    ensures r.Completed? ==> r.run.raised.None?
    ensures r.Aborted? ==> r.run.raised == Some(r.error)
  {
    if |profiles| <= 1 then MissingPromptPath
    else if 1 !in profiles then MissingProfileKey
    else if profiles[1].promptPath.None? then MissingPromptPath
    else
      var path := profiles[1].promptPath.value;
      if path !in env.files then PromptNotAFile(path)
      else match env.files[path]
        case Unreadable => PromptUnreadable
        case Readable(systemPrompt) =>
          match LoadUserContent(env.dataFile)
          case Failure(e) => ContentRejected(e)
          case Success(content) =>
            var run := ProcessSpec(content, systemPrompt, profiles[1].chunkSize, env.complete);
            if run.raised.None? then Completed(run) else Aborted(run, run.raised.value)
  }

  /** With the profile table the program builds, the processing task always stops at its first
      guard: the prompt is never read and no window is ever sent. */
  lemma ShippedTaskNeverProcesses(baseDir: string, env: Env)
    ensures ExecuteTask(InitialProfiles(baseDir), env) == MissingPromptPath
  {
    assert |InitialProfiles(baseDir)| == 1;
  }

  /** What a menu line asks for, after `strip()`. */
  datatype Choice = Quit | Process | Unknown

  function Dispatch(line: string): (c: Choice)
    ensures c == Quit <==> Strip(line) == "0"
    ensures c == Process <==> Strip(line) == "1"
  {
    var choice := Strip(line);
    if choice == "0" then Quit else if choice == "1" then Process else Unknown
  }

  /** Whitespace typed around a choice does not change it. */
  lemma DispatchIgnoresPadding(before: string, line: string, after: string)
    requires forall j :: 0 <= j < |before| ==> IsSpace(before[j])
    requires forall j :: 0 <= j < |after| ==> IsSpace(after[j])
    ensures Dispatch(before + line + after) == Dispatch(line)
  {
    StripIgnoresPadding(before, line, after);
  }

  /** The exception an unknown choice raises: the loop calls a logger method that does
      not exist (`warnning`), and nothing in `run` catches the error. */
  const UnknownChoiceError: PyException := AttributeError("'Logger' object has no attribute 'warnning'")

  /** How the menu loop ends: choice "0"; an unknown choice, whose exception leaves the
      loop; or the end of the input, where `input` raises. */
  datatype SessionEnd = Exited | Crashed(error: PyException) | InputEnded

  datatype Session = Session(tasks: seq<TaskOutcome>, end: SessionEnd)

  /** `run`: reads one line per iteration; "0" ends the loop, "1" runs the processing task
      and shows the menu again, and anything else raises out of the loop. Each run of the
      processing task reads the files and calls the completer afresh, so the j-th run sees
      its own environment `envs(j)`. */
  function RunSession(lines: seq<string>, profiles: map<int, Profile>, envs: nat -> Env): Session
  {
    Turns(lines, profiles, envs, 0)
  }

  /** The rest of the loop once `done` runs of the processing task have happened. */
  function Turns(lines: seq<string>, profiles: map<int, Profile>, envs: nat -> Env, done: nat): Session
  {
    if |lines| == 0 then Session([], InputEnded)
    else match Dispatch(lines[0])
      case Quit => Session([], Exited)
      case Unknown => Session([], Crashed(UnknownChoiceError))
      case Process =>
        var rest := Turns(lines[1..], profiles, envs, done + 1);
        Session([ExecuteTask(profiles, envs(done))] + rest.tasks, rest.end)
  }

  /** The choice each input line makes. */
  function Choices(lines: seq<string>): seq<Choice>
  {
    seq(|lines|, j requires 0 <= j < |lines| => Dispatch(lines[j]))
  }

  /** The number of leading choices that run the processing task. */
  function TaskRun(choices: seq<Choice>): (m: nat)
    ensures m <= |choices|
    ensures forall j :: 0 <= j < m ==> choices[j] == Process
    ensures m < |choices| ==> choices[m] != Process
  {
    if |choices| == 0 || choices[0] != Process then 0 else 1 + TaskRun(choices[1..])
  }

  /** One turn of the loop, phrased over the choice the first line makes. */
  lemma TurnStep(lines: seq<string>, profiles: map<int, Profile>, envs: nat -> Env, done: nat)
    requires |lines| > 0
    ensures Choices(lines[1..]) == Choices(lines)[1..]
    ensures Choices(lines)[0] == Quit ==> Turns(lines, profiles, envs, done) == Session([], Exited)
    ensures Choices(lines)[0] == Unknown ==>
      Turns(lines, profiles, envs, done) == Session([], Crashed(UnknownChoiceError))
    ensures Choices(lines)[0] == Process ==>
      var rest := Turns(lines[1..], profiles, envs, done + 1);
      Turns(lines, profiles, envs, done) == Session([ExecuteTask(profiles, envs(done))] + rest.tasks, rest.end)
  {
  }

  /** The outcomes of the runs numbered `done` .. `done + n - 1`, in order. */
  function TaskOutcomes(profiles: map<int, Profile>, envs: nat -> Env, done: nat, n: nat): (t: seq<TaskOutcome>)
    ensures |t| == n
  {
    seq(n, j requires 0 <= j < n => ExecuteTask(profiles, envs(done + j)))
  }

  /** Run `done` followed by the `n` runs after it are the `n + 1` runs from `done`. */
  lemma TaskOutcomesCons(profiles: map<int, Profile>, envs: nat -> Env, done: nat, n: nat)
    ensures [ExecuteTask(profiles, envs(done))] + TaskOutcomes(profiles, envs, done + 1, n)
         == TaskOutcomes(profiles, envs, done, n + 1)
  {
    var t := TaskOutcomes(profiles, envs, done, n + 1);
    var u := [ExecuteTask(profiles, envs(done))] + TaskOutcomes(profiles, envs, done + 1, n);
    forall i | 0 < i < n + 1
      ensures u[i] == t[i]
    {
      assert done + 1 + (i - 1) == done + i;
    }
  }

  lemma {:induction false} TurnsTasks(lines: seq<string>, profiles: map<int, Profile>, envs: nat -> Env, done: nat)
    ensures var s := Turns(lines, profiles, envs, done);
      && |s.tasks| == TaskRun(Choices(lines))
      && s.tasks == TaskOutcomes(profiles, envs, done, |s.tasks|)
  {
    if |lines| > 0 {
      var cs := Choices(lines);
      var s := Turns(lines, profiles, envs, done);
      TurnStep(lines, profiles, envs, done);
      if cs[0] == Process {
        var rest := Turns(lines[1..], profiles, envs, done + 1);
        TurnsTasks(lines[1..], profiles, envs, done + 1);
        assert TaskRun(cs) == 1 + TaskRun(cs[1..]);
        TaskOutcomesCons(profiles, envs, done, |rest.tasks|);
      } else {
        assert TaskRun(cs) == 0 && s.tasks == [];
      }
    }
  }

  lemma {:induction false} TurnsEnding(lines: seq<string>, profiles: map<int, Profile>, envs: nat -> Env, done: nat)
    ensures var s := Turns(lines, profiles, envs, done);
      var cs := Choices(lines);
      var m := TaskRun(cs);
      && (m == |lines| ==> s.end == InputEnded)
      && (m < |lines| && cs[m] == Quit ==> s.end == Exited)
      && (m < |lines| && cs[m] == Unknown ==> s.end == Crashed(UnknownChoiceError))
  {
    if |lines| > 0 {
      var cs := Choices(lines);
      TurnStep(lines, profiles, envs, done);
      if cs[0] == Process {
        var rest := Turns(lines[1..], profiles, envs, done + 1);
        TurnsEnding(lines[1..], profiles, envs, done + 1);
        var m := TaskRun(cs[1..]);
        assert TaskRun(cs) == 1 + m;
        assert m < |lines[1..]| ==> cs[1 + m] == cs[1..][m];
        assert Turns(lines, profiles, envs, done).end == rest.end;
      }
    }
  }

  /** The loop runs the processing task once for each leading "1"; the j-th run is the
      processing task on the unchanged profile table and on the files and completer it
      finds at that time. */
  lemma SessionTasks(lines: seq<string>, profiles: map<int, Profile>, envs: nat -> Env)
    ensures var s := RunSession(lines, profiles, envs);
      && |s.tasks| == TaskRun(Choices(lines))
      && (forall j: nat :: j < |s.tasks| ==> s.tasks[j] == ExecuteTask(profiles, envs(j)))
  {
    TurnsTasks(lines, profiles, envs, 0);
  }

  /** After the leading "1"s the loop ends as the next line says: "0" exits, any other
      line crashes, and no line at all ends the input. */
  lemma SessionEnding(lines: seq<string>, profiles: map<int, Profile>, envs: nat -> Env)
    ensures var s := RunSession(lines, profiles, envs);
      var cs := Choices(lines);
      var m := TaskRun(cs);
      && (m == |lines| ==> s.end == InputEnded)
      && (m < |lines| && cs[m] == Quit ==> s.end == Exited)
      && (m < |lines| && cs[m] == Unknown ==> s.end == Crashed(UnknownChoiceError))
  {
    TurnsEnding(lines, profiles, envs, 0);
  }

  /** With the profile table the program builds, no session ever reaches the chunk loop:
      every task it runs stops at the first guard. */
  lemma ShippedSessionNeverProcesses(lines: seq<string>, baseDir: string, envs: nat -> Env)
    ensures forall j :: 0 <= j < |RunSession(lines, InitialProfiles(baseDir), envs).tasks| ==>
      RunSession(lines, InitialProfiles(baseDir), envs).tasks[j] == MissingPromptPath
  {
    SessionTasks(lines, InitialProfiles(baseDir), envs);
    forall j: nat | j < |RunSession(lines, InitialProfiles(baseDir), envs).tasks|
      ensures RunSession(lines, InitialProfiles(baseDir), envs).tasks[j] == MissingPromptPath
    {
      ShippedTaskNeverProcesses(baseDir, envs(j));
    }
  }
}
