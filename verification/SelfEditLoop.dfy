/** The editing engine in the form of its source: a workspace whose files the methods overwrite. */
module SelfEditLoop {
  import opened Text
  import opened LineStyle
  import opened Snapshot
  import opened PathRules
  import opened TaskText
  import opened LineEdit
  import opened Transaction

  class Workspace {
    var files: Files
    var clock: nat

    constructor (files: Files)
      ensures this.files == files && clock == 0
    {
      this.files := files;
      clock := 0;
    }

    ghost function State(): World
      reads this
    {
      World(files, clock)
    }

    method WriteTextFile(path: Path, content: string, keepBom: bool)
      modifies this`files
      ensures files == old(files)[path := WriteText(content, keepBom)]
    {
      files := files[path := WriteText(content, keepBom)];
    }

    method WriteWithBackup(env: Env, target: Path, was: TextSnapshot, after: string, tag: string)
      requires target != []
      modifies this
      ensures State() == Overwrite(env, old(State()), target, was, after, tag)
    {
      hide WriteText, BackupPath;
      WriteTextFile(BackupPath(target, tag, env.now(clock)), was.content, was.hadBom);
      WriteTextFile(target, after, false);
      clock := clock + 1;
    }

    method DirectControlledReplace(env: Env, edit: Parsed) returns (status: DirectStatus)
      modifies this
      ensures (State(), status) == DirectReplace(env, old(State()), edit)
    {
      hide ResolveTarget, ReadSnapshot, EditText, Overwrite;
      var resolved := Resolve(env, edit.filePath);
      if resolved.None? { return Unsafe; }
      var target := resolved.value;
      if target !in files { return Refused; }
      var snapshot := ReadSnapshot(files[target]);
      if snapshot.None? { return Unsafe; }
      var before := snapshot.value.content;
      var after := EditText(env.tools, edit.filePath, before, edit.functionName, edit.oldText, edit.newText);
      if after.None? { return Refused; }
      if after.value != before {
        WriteWithBackup(env, target, snapshot.value, after.value, DIRECT_TAG);
      }
      return Applied(target);
    }

    method RepairFirstUnindentedBlock(env: Env, file: string) returns (status: DirectStatus)
      modifies this
      ensures (State(), status) == RepairIndentation(env, old(State()), file)
    {
      hide ResolveTarget, ReadSnapshot, SplitKeepStyle, JoinKeepStyle, AstOk, RepairedLine, Overwrite, Strip, LeadingWs;
      var resolved := Resolve(env, file);
      if resolved.None? { return Unsafe; }
      var target := resolved.value;
      if target !in files { return Refused; }
      var snapshot := ReadSnapshot(files[target]);
      if snapshot.None? { return Unsafe; }
      var k := SplitKeepStyle(snapshot.value.content);
      var i := 0;
      while i + 1 < |k.lines| && !Unindented(env.tools, k.lines, i)
        invariant forall j | 0 <= j < i :: !Unindented(env.tools, k.lines, j)
      {
        i := i + 1;
      }
      if i + 1 >= |k.lines| { return Refused; }
      var lines := k.lines[i + 1 := RepairedLine(k.lines[i], k.lines[i + 1])];
      var after := JoinKeepStyle(lines, k.newline, k.finalNewline);
      if !AstOk(env.tools, IsPython(file), snapshot.value.content, after, i + 2, k.lines[i + 1]) { return Refused; }
      WriteWithBackup(env, target, snapshot.value, after, INDENT_TAG);
      return Applied(target);
    }

    method RunVerifyCommands(env: Env, k: nat) returns (results: seq<VerifyResult>)
      modifies this`clock
      ensures results == env.verify(k, old(clock), files) && State() == Tick(old(State()))
    {
      results := env.verify(k, clock, files);
      clock := clock + 1;
    }

    /** One attempt: edit, verify, and at most one repair with a second verification. */
    method Attempt(env: Env, k: nat, text: string) returns (status: StepStatus, effect: Effect)
      modifies this
      ensures StepResult(State(), effect, status) == RunAttempt(env, k, old(State()), text)
    {
      hide Strip, ParseReplaceTask, DirectReplace, RepairIndentation;
      effect := NoEffect;
      var parsed := ParseReplaceTask(text);
      if parsed.None? { return StepDelegated, effect; }
      var edit := parsed.value;
      var direct := DirectControlledReplace(env, edit);
      if direct.Unsafe? { return StepRaised, effect; }
      if direct.Refused? { return StepFailed, effect; }
      effect := Edited(direct.target, edit, None);
      var results := RunVerifyCommands(env, k);
      if AllOk(results) { return StepOk, effect; }
      var failure := FirstIndentation(results);
      if failure.None? { return StepFailed, effect; }
      var file := failure.value.stderrFile;
      if file == "" { file := edit.filePath; }
      if file == "" { return StepFailed, effect; }
      var correction := RepairFirstUnindentedBlock(env, file);
      if correction.Unsafe? { return StepRaised, effect; }
      if correction.Refused? { return StepFailed, effect; }
      effect := Edited(direct.target, edit, Some(Repair(correction.target, file)));
      results := RunVerifyCommands(env, k);
      status := if AllOk(results) then StepOk else StepFailed;
    }

    /** The loop over attempts. Whatever its limit, and whether or not a failure looks like a mismatch of the old
        text, it is left after the first one: the only text there is to try has been tried. */
    method RunSingleStep(env: Env, k: nat, task: string, maxAttempts: int) returns (status: StepStatus, effect: Effect, attempts: nat)
      modifies this
      ensures StepResult(State(), effect, status) == RunStep(env, k, old(State()), task)
      ensures attempts == if env.validates(Strip(task)) then 1 else 0
    {
      hide Strip, RunAttempt;
      status, effect, attempts := StepFailed, NoEffect, 0;
      var current := Strip(task);
      if !env.validates(current) { return StepRaised, effect, attempts; }
      var used := {current};
      for number := 1 to (if maxAttempts > 1 then maxAttempts else 1) + 1
        invariant attempts == number - 1 == 0 && current == Strip(task) && used == {current}
        invariant State() == old(State())
      {
        attempts := number;
        status, effect := Attempt(env, k, current);
        if !status.StepFailed? { return; }
        var mismatch: bool := *;
        if !mismatch { break; }
        if current in used { break; }
        used := used + {current};
      }
    }

    /** Write every snapshot back, in any order. */
    method RestoreTransactionSnapshots(snaps: Snaps)
      modifies this`files
      ensures files == Restored(old(files), snaps)
    {
      hide WriteText;
      var todo := snaps.Keys;
      while todo != {}
        invariant todo <= snaps.Keys
        invariant files.Keys == old(files).Keys + (snaps.Keys - todo)
        invariant forall p | p in files ::
          files[p] == if p in snaps && p !in todo then WriteText(snaps[p].content, snaps[p].hadBom) else old(files)[p]
        decreases todo
      {
        var p :| p in todo;
        WriteTextFile(p, snaps[p].content, snaps[p].hadBom);
        todo := todo - {p};
      }
    }

    method CaptureSnapshot(env: Env, snaps: Snaps, task: string) returns (r: Option<Snaps>)
      ensures r == Capture(env, files, snaps, task)
    {
      var parsed := ParseReplaceTask(task);
      if parsed.None? || parsed.value.filePath == "" { return Some(snaps); }
      var resolved := Resolve(env, parsed.value.filePath);
      if resolved.None? { return None; }
      var target := resolved.value;
      if target !in files || target in snaps { return Some(snaps); }
      var snapshot := ReadSnapshot(files[target]);
      if snapshot.None? { return None; }
      return Some(snaps[target := Saved(snapshot.value.content, snapshot.value.hadBom)]);
    }

    /** The transaction loop: it computes the specified run, and ends as `EndsWell` says. */
    method RunSelfEditSteps(env: Env, steps: seq<string>, maxAttempts: int) returns (outcome: Outcome, snaps: Snaps, log: seq<Effect>)
      modifies this
      ensures Run(outcome, State(), snaps, log) == RunTransaction(env, old(State()), steps)
      ensures EndsWell(env, old(files), steps, Run(outcome, State(), snaps, log))
    {
      hide RunStep, Capture, Restored, EndsWell, Strip;
      TransactionOutcome(env, State(), steps);
      snaps, log := map[], [];
      var i := 0;
      while i < |steps|
        invariant i <= |steps|
        invariant RunFrom(env, steps, i, State(), snaps, log) == RunTransaction(env, old(State()), steps)
      {
        if !env.validates(Strip(steps[i])) { return Raised(i), snaps, log; }
        var captured := CaptureSnapshot(env, snaps, steps[i]);
        if captured.None? {
          RestoreTransactionSnapshots(snaps);
          return RolledBack(i), snaps, log;
        }
        snaps := captured.value;
        var status, effect, _ := RunSingleStep(env, i, steps[i], maxAttempts);
        log := log + [effect];
        if status.StepRaised? { return Raised(i), snaps, log; }
        if status.StepDelegated? { return Delegated(i), snaps, log; }
        if status.StepFailed? {
          RestoreTransactionSnapshots(snaps);
          return RolledBack(i), snaps, log;
        }
        i := i + 1;
      }
      outcome := Succeeded;
    }
  }
}
