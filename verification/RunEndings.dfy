/** How a run ends that is not rolled back: when it raises, what its files then read as, and what its backups
    hold. */
module RunEndings {
  import opened Text
  import opened Utf8
  import opened Snapshot
  import opened PathRules
  import opened TaskText
  import opened LineEdit
  import opened Transaction

  // ---- What a run without a rollback leaves ----

  /** Some entry of the log wrote the file. */
  ghost predicate Wrote(env: Env, files0: Files, p: Path, log: seq<Effect>) {
    exists j | 0 <= j < |log| :: Wrote1(env, p, FoldOf(env, files0, p, log[..j]), log[j])
  }

  /** Every readable file has kept its mark unless the log wrote it. */
  ghost predicate MarksKept(env: Env, files0: Files, files: Files, log: seq<Effect>) {
    forall p | p in files0 && p in files && !IsBackup(p) && Reading(files0, p).Some? && Reading(files, p).Some? ::
      Reading(files, p).value.hadBom <==> Reading(files0, p).value.hadBom && !Wrote(env, files0, p, log)
  }

  lemma WroteSnoc(env: Env, files0: Files, p: Path, log: seq<Effect>, effect: Effect)
    ensures Wrote(env, files0, p, log + [effect]) <==>
              Wrote(env, files0, p, log) || Wrote1(env, p, FoldOf(env, files0, p, log), effect)
  {
    hide Wrote1, FoldOf;
    var all := log + [effect];
    assert all[..|log|] == log && all[|log|] == effect;
    forall j | 0 <= j < |log| ensures all[..j] == log[..j] && all[j] == log[j] {}
    if Wrote(env, files0, p, log) {
      var j :| 0 <= j < |log| && Wrote1(env, p, FoldOf(env, files0, p, log[..j]), log[j]);
      assert Wrote1(env, p, FoldOf(env, files0, p, all[..j]), all[j]);
    }
  }

  lemma MarksStep(env: Env, files0: Files, files: Files, files': Files, log: seq<Effect>, effect: Effect)
    requires Framed(env, files0, files, log) && MarksKept(env, files0, files, log)
    requires Changed(env, files, files', effect) && Marks(env, files, files', effect)
    ensures MarksKept(env, files0, files', log + [effect])
  {
    hide ReadSnapshot, IsBackup, Wrote, Wrote1, FoldOf, Changed, Framed, TextOf;
    SameNames(env, files, files', effect);
    StillReadable(env, files, files', effect);
    forall p | p in files0 && p in files' && !IsBackup(p) && Reading(files0, p).Some? && Reading(files', p).Some?
      ensures Reading(files', p).value.hadBom <==>
                Reading(files0, p).value.hadBom && !Wrote(env, files0, p, log + [effect])
    {
      ReadFold(env, files0, files, log, p);
      WroteSnoc(env, files0, p, log, effect);
    }
  }

  lemma {:induction false} RunMarks(env: Env, files0: Files, steps: seq<string>, i: nat, w: World, snaps: Snaps, log: seq<Effect>)
    requires i <= |steps| && Framed(env, files0, w.files, log) && MarksKept(env, files0, w.files, log)
    ensures var r := RunFrom(env, steps, i, w, snaps, log);
            !r.outcome.RolledBack? ==> MarksKept(env, files0, r.world.files, r.log)
    decreases |steps| - i
  {
    hide RunStep, Capture, Framed, Changed, Strip, IsBackup, Restored, MarksKept, Marks, TextOf, ParseText, Resolve;
    if i < |steps| && env.validates(Strip(steps[i])) {
      var captured := Capture(env, w.files, snaps, steps[i]);
      if captured.Some? {
        var r := RunStep(env, i, w, steps[i]);
        StepFrame(env, i, w, steps[i]);
        StepMarks(env, i, w, steps[i]);
        MarksStep(env, files0, w.files, r.world.files, log, r.effect);
        FrameStep(env, files0, w.files, r.world.files, log, r.effect);
        if r.status.StepOk? {
          RunMarks(env, files0, steps, i + 1, r.world, captured.value, log + [r.effect]);
        }
      }
    }
  }

  lemma MarksAtStart(env: Env, files: Files)
    ensures MarksKept(env, files, files, [])
  {
    hide ReadSnapshot, IsBackup, Wrote1;
  }

  /** A run that is not rolled back, an exception's above all, leaves in every readable file the fold of what was
      done; the file reads as before exactly when that fold changed nothing and no mark was lost in a write. */
  lemma UnrolledBackIff(env: Env, w: World, steps: seq<string>, p: Path)
    requires var r := RunTransaction(env, w, steps); !r.outcome.RolledBack?
    requires p in w.files && !IsBackup(p) && Reading(w.files, p).Some?
    ensures var r := RunTransaction(env, w, steps);
            && p in r.world.files && TextOf(r.world.files, p) == FoldOf(env, w.files, p, r.log)
            && (BackAsBefore(w.files, r.world.files, p) <==>
                  && FoldOf(env, w.files, p, r.log) == TextOf(w.files, p)
                  && (Reading(w.files, p).value.hadBom ==> !Wrote(env, w.files, p, r.log)))
  {
    hide ReadSnapshot, IsBackup, Fold, Wrote, RunTransaction, TookAll, LeaksStay, Tabled, LogOf;
    TransactionOutcome(env, w, steps);
    InvariantAtStart(env, w.files);
    MarksAtStart(env, w.files);
    RunMarks(env, w.files, steps, 0, w, map[], []);
    RunIs(env, w, steps);
    var r := RunTransaction(env, w, steps);
    assert ReadsAs(env, w.files, r.world.files, p, r.log);
  }

  lemma RunIs(env: Env, w: World, steps: seq<string>)
    ensures RunTransaction(env, w, steps) == RunFrom(env, steps, 0, w, map[], [])
  {}

  // ---- When a run raises ----

  /** The repair of the file would raise: its path does not resolve, or the file is there and cannot be decoded. */
  predicate Unusable(env: Env, files: Files, file: string) {
    var target := Resolve(env, file);
    target.None? || (target.value in files && Reading(files, target.value).None?)
  }

  /** Verification of the edit in `w` fails, and its first indentation failure leads to an unusable file. */
  predicate BlamesUnusable(env: Env, k: nat, w: World, edit: Parsed) {
    var results := env.verify(k, w.clock, w.files);
    var failure := FirstIndentation(results);
    && !AllOk(results) && failure.Some?
    && var file := if failure.value.stderrFile != "" then failure.value.stderrFile else edit.filePath;
       file != "" && Unusable(env, w.files, file)
  }

  lemma VerifyRaisesIff(env: Env, k: nat, w: World, target: Path, edit: Parsed)
    ensures VerifyStep(env, k, w, target, edit).status == StepRaised <==> BlamesUnusable(env, k, w, edit)
  {
    hide Resolve, ReadSnapshot, RepairText, Overwrite;
  }

  /** The step's edit goes in and its verification then raises. */
  predicate StepRaises(env: Env, k: nat, w: World, edit: Parsed) {
    var (w1, status) := DirectReplace(env, w, edit);
    status.Applied? && BlamesUnusable(env, k, w1, edit)
  }

  lemma AcceptedStep(env: Env, k: nat, w: World, snaps: Snaps, task: string)
    requires env.validates(Strip(task)) && ParseReplaceTask(task).Some? && ParseReplaceTask(task).value.filePath != ""
    requires forall p | p in snaps && p in w.files :: Reading(w.files, p).Some?
    ensures var edit := ParseReplaceTask(task).value;
            if Capture(env, w.files, snaps, task).Some? then
              RunStep(env, k, w, task).status == StepRaised <==> StepRaises(env, k, w, edit)
            else !StepRaises(env, k, w, edit)
  {
    hide ReadSnapshot, ParseText, Resolve, StripBy, IsSpace, EditText, VerifyStep, BlamesUnusable, Overwrite;
    var edit := ParseReplaceTask(task).value;
    assert Strip(Strip(task)) == Strip(task);
    var (w1, status) := DirectReplace(env, w, edit);
    if status.Applied? { VerifyRaisesIff(env, k, w1, status.target, edit); }
  }

  /** What is left of a run from step `i` does not end before that step. */
  lemma {:induction false} EndsLater(env: Env, steps: seq<string>, i: nat, w: World, snaps: Snaps, log: seq<Effect>, k: nat)
    requires k < i <= |steps|
    ensures RunFrom(env, steps, i, w, snaps, log).outcome != Raised(k)
    decreases |steps| - i
  {
    hide RunStep, Capture, Strip, Restored;
    if i < |steps| && env.validates(Strip(steps[i])) {
      var captured := Capture(env, w.files, snaps, steps[i]);
      if captured.Some? {
        var r := RunStep(env, i, w, steps[i]);
        if r.status.StepOk? { EndsLater(env, steps, i + 1, r.world, captured.value, log + [r.effect], k); }
      }
    }
  }

  /** Steps that pass screening and parse end in an exception at step `k` exactly when the steps before it succeed,
      its edit goes in, and its verification blames the indentation of a file that does not resolve or cannot be
      decoded. There is no rollback then. */
  lemma RaisedIff(env: Env, w: World, steps: seq<string>, k: nat)
    requires Accepted(env, steps) && k < |steps|
    ensures var before := RunTransaction(env, w, steps[..k]);
            RunTransaction(env, w, steps).outcome == Raised(k) <==>
              before.outcome.Succeeded? && StepRaises(env, k, before.world, ParseReplaceTask(steps[k]).value)
  {
    hide RunStep, Capture, ReadSnapshot, ParseText, Resolve, StripBy, IsSpace, StepRaises, Restored, RunTransaction, EndsWell, RunFrom, IsBackup;
    var before := RunTransaction(env, w, steps[..k]);
    RunIs(env, w, steps);
    RunIs(env, w, steps[..k]);
    RunSplit(env, steps, k, 0, w, map[], []);
    TransactionOutcome(env, w, steps[..k]);
    EndsInside(env, w.files, steps[..k], before, k);
    if before.outcome.Succeeded? {
      ReadableTable(env, w.files, steps[..k], before);
      AcceptedStep(env, k, before.world, before.snaps, steps[k]);
      NextStep(env, steps, k, before.world, before.snaps, before.log);
    }
  }

  lemma EndsInside(env: Env, files0: Files, steps: seq<string>, r: Run, k: nat)
    requires EndsWell(env, files0, steps, r) && |steps| == k
    ensures r.outcome != Raised(k)
  {
    hide Framed, Tabled, TookAll, LogOf, RolledBackTo, LeaksStay;
  }

  lemma ReadableTable(env: Env, files0: Files, steps: seq<string>, r: Run)
    requires EndsWell(env, files0, steps, r) && r.outcome.Succeeded?
    ensures forall p | p in r.snaps && p in r.world.files :: Reading(r.world.files, p).Some?
  {
    hide Framed, Tabled, TookAll, LogOf, RolledBackTo, LeaksStay, ReadSnapshot;
    TabledReads(env, files0, r.world.files, r.snaps, r.log);
  }

  lemma NextStep(env: Env, steps: seq<string>, k: nat, w: World, snaps: Snaps, log: seq<Effect>)
    requires k < |steps| && env.validates(Strip(steps[k]))
    ensures RunFrom(env, steps, k, w, snaps, log).outcome == Raised(k) <==>
              Capture(env, w.files, snaps, steps[k]).Some? && RunStep(env, k, w, steps[k]).status == StepRaised
  {
    hide RunStep, Capture, Strip, Restored;
    var captured := Capture(env, w.files, snaps, steps[k]);
    if captured.Some? {
      var r := RunStep(env, k, w, steps[k]);
      if r.status.StepOk? { EndsLater(env, steps, k + 1, r.world, captured.value, log + [r.effect], k); }
    }
  }

  /** Steps that pass screening and parse go on to success at step `k` exactly when the steps before it succeed, its
      edit goes in, no repair raises, and verification passes on the files the step leaves. */
  lemma SucceedsIff(env: Env, w: World, steps: seq<string>, k: nat)
    requires Accepted(env, steps) && k < |steps|
    ensures var before := RunTransaction(env, w, steps[..k]);
            var edit := ParseReplaceTask(steps[k]).value;
            var after := RunStep(env, k, before.world, steps[k]).world;
            RunTransaction(env, w, steps[..k + 1]).outcome.Succeeded? <==>
              && before.outcome.Succeeded?
              && DirectReplace(env, before.world, edit).1.Applied?
              && !StepRaises(env, k, before.world, edit)
              && Passed(env, k, after)
  {
    hide RunStep, Capture, ReadSnapshot, ParseText, Resolve, StripBy, IsSpace, StepRaises, Restored, RunFrom, DirectReplace, Passed, EndsWell;
    var init := steps[..k + 1];
    assert init[..k] == steps[..k] && init[k] == steps[k];
    RunSplit(env, init, k, 0, w, map[], []);
    var before := RunTransaction(env, w, steps[..k]);
    TransactionOutcome(env, w, steps[..k]);
    if before.outcome.Succeeded? {
      ReadableTable(env, w.files, steps[..k], before);
      AcceptedStep(env, k, before.world, before.snaps, steps[k]);
      StepVerdict(env, k, before.world, steps[k]);
      EditedIff(env, k, before.world, steps[k]);
      LastStep(env, init, before.world, before.snaps, before.log);
      if DirectReplace(env, before.world, ParseReplaceTask(steps[k]).value).1.Applied? {
        AppliedCaptures(env, before.world, before.snaps, steps[k]);
      }
    }
  }

  lemma EditedIff(env: Env, k: nat, w: World, task: string)
    requires env.validates(Strip(task)) && ParseReplaceTask(task).Some?
    ensures var r := RunStep(env, k, w, task);
            r.effect.Edited? <==> DirectReplace(env, w, ParseReplaceTask(task).value).1.Applied?
  {
    hide DirectReplace, RepairIndentation, ParseText, StripBy, IsSpace, AllOk, FirstIndentation;
    assert Strip(Strip(task)) == Strip(task);
  }

  lemma LastStep(env: Env, steps: seq<string>, w: World, snaps: Snaps, log: seq<Effect>)
    requires steps != [] && env.validates(Strip(steps[|steps| - 1]))
    ensures var k := |steps| - 1;
            RunFrom(env, steps, k, w, snaps, log).outcome.Succeeded? <==>
              Capture(env, w.files, snaps, steps[k]).Some? && RunStep(env, k, w, steps[k]).status.StepOk?
  {
    hide RunStep, Capture, Strip, Restored;
  }

  /** When a direct edit is applied, when it is refused and when it raises. */
  lemma DirectVerdict(env: Env, w: World, edit: Parsed)
    ensures var target := Resolve(env, edit.filePath);
            var status := DirectReplace(env, w, edit).1;
            && (status == Unsafe <==> Unusable(env, w.files, edit.filePath))
            && (status == Refused <==>
                  && target.Some? && !Unusable(env, w.files, edit.filePath)
                  && (target.value in w.files ==>
                        EditText(env.tools, edit.filePath, TextOf(w.files, target.value), edit.functionName, edit.oldText, edit.newText).None?))
            && (status.Applied? ==> target == Some(status.target) && status.target in w.files)
  {
    hide ReadSnapshot, EditText, ResolveTarget, Overwrite;
  }

  /** The same for the indentation repair. */
  lemma RepairVerdict(env: Env, w: World, file: string)
    ensures var target := Resolve(env, file);
            var status := RepairIndentation(env, w, file).1;
            && (status == Unsafe <==> Unusable(env, w.files, file))
            && (status == Refused <==>
                  && target.Some? && !Unusable(env, w.files, file)
                  && (target.value in w.files ==> RepairText(env.tools, file, TextOf(w.files, target.value)).None?))
            && (status.Applied? ==> target == Some(status.target) && status.target in w.files)
  {
    hide ReadSnapshot, RepairText, ResolveTarget, Overwrite;
  }

  lemma {:induction false} FirstIsFirst(results: seq<VerifyResult>, i: nat)
    requires i < |results| && results[i].indentation && forall j | 0 <= j < i :: !results[j].indentation
    ensures FirstIndentation(results) == Some(results[i])
  {
    if i > 0 {
      forall j | 0 <= j < i - 1 ensures !results[1..][j].indentation { assert results[1..][j] == results[j + 1]; }
      FirstIsFirst(results[1..], i - 1);
    }
  }

  /** Which repair a step makes. When verification after the edit does not pass and result `i` is the first that
      reports an indentation, the file to repair is the one it names, or else the edited one; it is repaired if it
      can be, with that as the step's repair. Without such a result, or after a verification that passes, none is. */
  lemma RepairIff(env: Env, k: nat, w: World, target: Path, edit: Parsed, i: nat)
    requires var results := env.verify(k, w.clock, w.files);
             i <= |results| && (forall j | 0 <= j < i :: !results[j].indentation) && (i < |results| ==> results[i].indentation)
    ensures var results := env.verify(k, w.clock, w.files);
            var r := VerifyStep(env, k, w, target, edit);
            && r.effect.Edited?
            && ((i == |results| || forall x | x in results :: x.ok) ==> r.effect.repair.None? && r.world.files == w.files)
            && (i < |results| && !(forall x | x in results :: x.ok) ==>
                  var file := if results[i].stderrFile != "" then results[i].stderrFile else edit.filePath;
                  && var (w2, status) := RepairIndentation(env, Tick(w), file);
                  && (file != "" && status.Applied? ==>
                        r.effect.repair == Some(Repair(status.target, file)) && r.world.files == w2.files)
                  && (file == "" || !status.Applied? ==> r.effect.repair.None? && r.world.files == w.files))
  {
    hide RepairIndentation, Resolve, ReadSnapshot, Repair1, IsBackup;
    var results := env.verify(k, w.clock, w.files);
    if i < |results| {
      FirstIsFirst(results, i);
      RepairStepFrame(env, Tick(w), if results[i].stderrFile != "" then results[i].stderrFile else edit.filePath);
    }
  }

  /** How a step ends, in every case: it raises when the screening rejects it, when its target cannot be used, or when
      its repair cannot; what is in no known form is delegated; it is ok when its edit went in, nothing raised and the
      last verification passed; and otherwise it fails. */
  lemma StatusIff(env: Env, k: nat, w: World, task: string)
    ensures var text := Strip(task);
            var edit := ParseReplaceTask(text);
            var r := RunStep(env, k, w, task);
            && (r.status == StepRaised <==>
                  !env.validates(text) || (edit.Some? && (DirectReplace(env, w, edit.value).1.Unsafe? || StepRaises(env, k, w, edit.value))))
            && (r.status == StepDelegated <==> env.validates(text) && edit.None?)
            && (r.status == StepOk <==>
                  && env.validates(text) && edit.Some? && DirectReplace(env, w, edit.value).1.Applied?
                  && !StepRaises(env, k, w, edit.value) && Passed(env, k, r.world))
  {
    hide DirectReplace, VerifyStep, ParseText, StripBy, Passed, BlamesUnusable;
    StepVerdict(env, k, w, task);
    var edit := ParseReplaceTask(Strip(task));
    if edit.Some? {
      var (w1, status) := DirectReplace(env, w, edit.value);
      if status.Applied? {
        VerifyRaisesIff(env, k, w1, status.target, edit.value);
        VerifyVerdict(env, k, w1, status.target, edit.value);
        NeverDelegates(env, k, w1, status.target, edit.value);
      }
    }
  }

  lemma NeverDelegates(env: Env, k: nat, w: World, target: Path, edit: Parsed)
    ensures VerifyStep(env, k, w, target, edit).status != StepDelegated
  {
    hide RepairIndentation, AllOk;
  }

  /** Runs that end so: every verification of a printed edit fails and blames a file that does not resolve, as a
      bare file name outside workspace/ does not. The exception leaves the edit in the file. */
  lemma UnresolvedBlameKeepsEdit(env: Env, w: World, path: string, oldText: string, newText: string, start: nat,
                                 more: seq<string>, file: string)
    requires Printable(path, oldText, newText) && Ready(env, w, path, oldText, newText, start)
    requires file != "" && Resolve(env, file) == None
    requires forall tick: nat, files: Files ::
               && !AllOk(env.verify(0, tick, files))
               && FirstIndentation(env.verify(0, tick, files)).Some?
               && FirstIndentation(env.verify(0, tick, files)).value.stderrFile == file
    ensures var r := RunTransaction(env, w, [MakeReplaceTask(path, oldText, newText)] + more);
            r.outcome == Raised(0) && EditIsIn(env, w, r.world.files, path, oldText, newText, start)
  {
    hide Ready, Printable, RunStep, Strip, EditIsIn, MakeReplaceTask, ReadSnapshot, Resolve, TargetOf, DirectReplace, Capture, RunTransaction, VerifyStep;
    var task := MakeReplaceTask(path, oldText, newText);
    var edit := Parsed(path, "", oldText, newText, Plain);
    ReadyScreens(env, w, path, oldText, newText, start);
    ReadyCaptures(env, w, path, oldText, newText, start);
    PrintedStep(env, 0, w, path, oldText, newText, start);
    var w1 := DirectReplace(env, w, edit).0;
    BlamedUnresolved(env, w1, edit, file);
    VerifyRaisesIff(env, 0, w1, TargetOf(env, path), edit);
    VerifyRaisedWorld(env, 0, w1, TargetOf(env, path), edit);
    RaisingFirst(env, w, task, more);
  }

  lemma BlamedUnresolved(env: Env, w: World, edit: Parsed, file: string)
    requires file != "" && Resolve(env, file) == None
    requires forall tick: nat, files: Files ::
               && !AllOk(env.verify(0, tick, files))
               && FirstIndentation(env.verify(0, tick, files)).Some?
               && FirstIndentation(env.verify(0, tick, files)).value.stderrFile == file
    ensures BlamesUnusable(env, 0, w, edit)
  {
    hide Resolve, ReadSnapshot, AllOk, FirstIndentation;
    var results := env.verify(0, w.clock, w.files);
    assert !AllOk(results) && FirstIndentation(results).Some? && FirstIndentation(results).value.stderrFile == file;
  }

  lemma VerifyRaisedWorld(env: Env, k: nat, w: World, target: Path, edit: Parsed)
    requires VerifyStep(env, k, w, target, edit).status == StepRaised
    ensures VerifyStep(env, k, w, target, edit).world.files == w.files
  {
    hide Resolve, ReadSnapshot, RepairText, Overwrite;
  }

  lemma RaisingFirst(env: Env, w: World, task: string, more: seq<string>)
    requires env.validates(Strip(task)) && Capture(env, w.files, map[], task).Some? && RunStep(env, 0, w, task).status == StepRaised
    ensures var r := RunTransaction(env, w, [task] + more);
            r.outcome == Raised(0) && r.world == RunStep(env, 0, w, task).world
  {
    hide RunStep, Capture, Strip, Restored;
    var steps := [task] + more;
    assert steps[0] == task;
  }

  // ---- Backups ----

  /** The backup that an edit of `target` in `w` leaves. */
  function DirectBackup(env: Env, w: World, target: Path): Path
    requires target != []
  {
    BackupPath(target, DIRECT_TAG, env.now(w.clock))
  }

  /** An edit that changes its file leaves a backup that reads as the file did, mark included; any backup of
      another name is as before. Two such edits of one file in the same second share the name, so the second one
      overwrites what the first one saved. */
  lemma EditIsBackedUp(env: Env, w: World, edit: Parsed)
    requires DirectReplace(env, w, edit).1.Applied? && DirectReplace(env, w, edit).0 != w
    ensures var (w', status) := DirectReplace(env, w, edit);
            && status.target != [] && status.target in w.files && Reading(w.files, status.target).Some?
            && var b := DirectBackup(env, w, status.target);
               && IsBackup(b) && b in w'.files && Reading(w'.files, b).Some?
               && TextOf(w'.files, b) == TextOf(w.files, status.target)
               && (Reading(w'.files, b).value.hadBom <==> Reading(w.files, status.target).value.hadBom)
               && forall p | IsBackup(p) && p != b :: (p in w'.files <==> p in w.files) && (p in w.files ==> w'.files[p] == w.files[p])
  {
    hide ReadSnapshot, WriteText, EditText, ResolveTarget, BackupPath, Settle, IsBackup;
    DirectFrame(env, w, edit);
    var (w', status) := DirectReplace(env, w, edit);
    var target := status.target;
    assert Resolve(env, edit.filePath) == Some(target);
    BackupIsBackup(target, DIRECT_TAG, env.now(w.clock));
    var was := Reading(w.files, target).value;
    SnapshotIsSettled(w.files[target]);
    ReadBack(was.content, was.hadBom);
  }

  /** After a second edit that changes a file, the first one's backup reads as its own file did, unless it is
      the same file in the same second: then it reads as that file did in between, and the older text is gone. */
  lemma BackupUntilOverwritten(env: Env, w: World, edit: Parsed, next: Parsed)
    requires DirectReplace(env, w, edit).1.Applied? && DirectReplace(env, w, edit).0 != w
    requires var w1 := DirectReplace(env, w, edit).0;
             DirectReplace(env, w1, next).1.Applied? && DirectReplace(env, w1, next).0 != w1
    ensures var (w1, first) := DirectReplace(env, w, edit);
            var (w2, second) := DirectReplace(env, w1, next);
            && first.target != []
            && var b := DirectBackup(env, w, first.target);
               TextOf(w2.files, b) ==
                 if second.target == first.target && env.now(w1.clock) == env.now(w.clock) then TextOf(w1.files, first.target)
                 else TextOf(w.files, first.target)
  {
    hide ReadSnapshot, IsBackup, BackupPath, DirectReplace;
    var (w1, first) := DirectReplace(env, w, edit);
    var (w2, second) := DirectReplace(env, w1, next);
    EditIsBackedUp(env, w, edit);
    EditIsBackedUp(env, w1, next);
    if DirectBackup(env, w, first.target) == DirectBackup(env, w1, second.target) {
      BackupInjective(first.target, DIRECT_TAG, env.now(w.clock), second.target, DIRECT_TAG, env.now(w1.clock));
    }
  }

  /** The same for the indentation repair. */
  lemma RepairIsBackedUp(env: Env, w: World, file: string)
    requires RepairIndentation(env, w, file).1.Applied?
    ensures var (w', status) := RepairIndentation(env, w, file);
            && status.target != [] && status.target in w.files && Reading(w.files, status.target).Some?
            && var b := BackupPath(status.target, INDENT_TAG, env.now(w.clock));
               && IsBackup(b) && b in w'.files && Reading(w'.files, b).Some?
               && TextOf(w'.files, b) == TextOf(w.files, status.target)
               && (Reading(w'.files, b).value.hadBom <==> Reading(w.files, status.target).value.hadBom)
               && forall p | IsBackup(p) && p != b :: (p in w'.files <==> p in w.files) && (p in w.files ==> w'.files[p] == w.files[p])
  {
    hide ReadSnapshot, WriteText, RepairText, ResolveTarget, BackupPath, Settle, IsBackup;
    RepairStepFrame(env, w, file);
    var (w', status) := RepairIndentation(env, w, file);
    var target := status.target;
    assert Resolve(env, file) == Some(target);
    BackupIsBackup(target, INDENT_TAG, env.now(w.clock));
    var was := Reading(w.files, target).value;
    SnapshotIsSettled(w.files[target]);
    ReadBack(was.content, was.hadBom);
  }

  // ---- Backups over a whole run ----

  /** No write from this tick on gives its backup the name `b`. */
  ghost predicate Unclaimed(env: Env, clock: nat, b: Path) {
    && IsBackup(b)
    && forall tick: nat, q: Path, tag | clock <= tick && q != [] && tag in {DIRECT_TAG, INDENT_TAG} ::
         BackupPath(q, tag, env.now(tick)) != b
  }

  /** From `w` to `w'` time went on and the file `b` stayed. */
  predicate Stays(w: World, w': World, b: Path) {
    && w.clock <= w'.clock
    && (b in w'.files <==> b in w.files)
    && (b in w.files ==> w'.files[b] == w.files[b])
  }

  lemma UnclaimedLater(env: Env, clock: nat, later: nat, b: Path)
    requires Unclaimed(env, clock, b) && clock <= later
    ensures Unclaimed(env, later, b)
  {
    hide BackupPath, IsBackup;
  }

  lemma DirectStays(env: Env, w: World, edit: Parsed, b: Path)
    requires Unclaimed(env, w.clock, b)
    ensures Stays(w, DirectReplace(env, w, edit).0, b)
  {
    hide ReadSnapshot, WriteText, EditText, ResolveTarget, BackupPath, IsBackup;
  }

  lemma RepairStays(env: Env, w: World, file: string, b: Path)
    requires Unclaimed(env, w.clock, b)
    ensures Stays(w, RepairIndentation(env, w, file).0, b)
  {
    hide ReadSnapshot, WriteText, RepairText, ResolveTarget, BackupPath, IsBackup;
  }

  lemma VerifyStays(env: Env, k: nat, w: World, target: Path, edit: Parsed, b: Path)
    requires Unclaimed(env, w.clock, b)
    ensures Stays(w, VerifyStep(env, k, w, target, edit).world, b)
  {
    hide RepairIndentation, AllOk, Unclaimed;
    var failure := FirstIndentation(env.verify(k, w.clock, w.files));
    if failure.Some? {
      UnclaimedLater(env, w.clock, Tick(w).clock, b);
      RepairStays(env, Tick(w), if failure.value.stderrFile != "" then failure.value.stderrFile else edit.filePath, b);
    }
  }

  lemma StepStays(env: Env, k: nat, w: World, task: string, b: Path)
    requires Unclaimed(env, w.clock, b)
    ensures Stays(w, RunStep(env, k, w, task).world, b)
  {
    hide DirectReplace, VerifyStep, ParseText, StripBy, Unclaimed;
    var edit := ParseReplaceTask(Strip(task));
    if edit.Some? {
      DirectStays(env, w, edit.value, b);
      var (w1, status) := DirectReplace(env, w, edit.value);
      UnclaimedLater(env, w.clock, w1.clock, b);
      if status.Applied? { VerifyStays(env, k, w1, status.target, edit.value, b); }
    }
  }

  ghost predicate NoBackups(snaps: Snaps) { forall p | p in snaps :: !IsBackup(p) }

  lemma CaptureNoBackups(env: Env, files: Files, snaps: Snaps, task: string)
    requires NoBackups(snaps)
    ensures var captured := Capture(env, files, snaps, task); captured.Some? ==> NoBackups(captured.value)
  {
    hide IsBackup, ParseText, ResolveTarget, ReadSnapshot, StripBy;
  }

  lemma RestoreStays(w: World, snaps: Snaps, b: Path)
    requires NoBackups(snaps) && IsBackup(b)
    ensures Stays(w, w.(files := Restored(w.files, snaps)), b)
  {
    hide IsBackup, WriteText;
  }

  /** However a run ends, rolled back or not, a backup whose name no later write takes stays as it is. */
  lemma {:induction false} RunStays(env: Env, steps: seq<string>, i: nat, w: World, snaps: Snaps, log: seq<Effect>, b: Path)
    requires i <= |steps| && NoBackups(snaps) && Unclaimed(env, w.clock, b)
    ensures Stays(w, RunFrom(env, steps, i, w, snaps, log).world, b)
    decreases |steps| - i
  {
    hide RunStep, Capture, Strip, IsBackup, Restored, NoBackups, BackupPath;
    if i < |steps| && env.validates(Strip(steps[i])) {
      RestoreStays(w, snaps, b);
      CaptureNoBackups(env, w.files, snaps, steps[i]);
      var captured := Capture(env, w.files, snaps, steps[i]);
      if captured.Some? {
        var r := RunStep(env, i, w, steps[i]);
        StepStays(env, i, w, steps[i], b);
        UnclaimedLater(env, w.clock, r.world.clock, b);
        RestoreStays(r.world, captured.value, b);
        if r.status.StepOk? { RunStays(env, steps, i + 1, r.world, captured.value, log + [r.effect], b); }
      }
    }
  }

  /** The name of a backup is free again from any tick on at which the clock never shows its second. */
  lemma NeverAgain(env: Env, clock: nat, target: Path, stamp: nat)
    requires target != [] && forall tick: nat | clock <= tick :: env.now(tick) != stamp
    ensures Unclaimed(env, clock, BackupPath(target, DIRECT_TAG, stamp))
  {
    hide BackupPath, IsBackup;
    var b := BackupPath(target, DIRECT_TAG, stamp);
    BackupIsBackup(target, DIRECT_TAG, stamp);
    forall tick: nat, q: Path, tag | clock <= tick && q != [] && tag in {DIRECT_TAG, INDENT_TAG}
      ensures BackupPath(q, tag, env.now(tick)) != b
    {
      if BackupPath(q, tag, env.now(tick)) == b { BackupInjective(q, tag, env.now(tick), target, DIRECT_TAG, stamp); }
    }
  }

  /** Every edit of a run can be taken back by hand: if the clock does not show its second again, then however
      the run ends, its backup reads as the file did when the edit met it. */
  lemma BackupSurvivesRun(env: Env, w: World, steps: seq<string>, k: nat)
    requires k < |steps| && env.validates(Strip(steps[k])) && ParseReplaceTask(steps[k]).Some?
    requires var before := RunTransaction(env, w, steps[..k]);
             var (w1, status) := DirectReplace(env, before.world, ParseReplaceTask(steps[k]).value);
             before.outcome.Succeeded? && status.Applied? && w1 != before.world
    requires var clock := RunTransaction(env, w, steps[..k]).world.clock;
             forall tick: nat | clock < tick :: env.now(tick) != env.now(clock)
    ensures var before := RunTransaction(env, w, steps[..k]);
            var target := DirectReplace(env, before.world, ParseReplaceTask(steps[k]).value).1.target;
            var files := RunTransaction(env, w, steps).world.files;
            && target != []
            && var b := DirectBackup(env, before.world, target);
               b in files && TextOf(files, b) == TextOf(before.world.files, target)
  {
    hide RunStep, Capture, ReadSnapshot, ParseText, Resolve, StripBy, IsSpace, Restored, RunTransaction, RunFrom, IsBackup, DirectReplace, BackupPath, NoBackups, EndsWell;
    var before := RunTransaction(env, w, steps[..k]);
    var edit := ParseReplaceTask(steps[k]).value;
    EditIsBackedUp(env, before.world, edit);
    var (w1, status) := DirectReplace(env, before.world, edit);
    RunIs(env, w, steps);
    RunIs(env, w, steps[..k]);
    RunSplit(env, steps, k, 0, w, map[], []);
    TransactionOutcome(env, w, steps[..k]);
    TableHasNoBackups(env, w.files, steps[..k], before);
    ChangedTicks(env, before.world, edit);
    NeverAgain(env, w1.clock, status.target, env.now(before.world.clock));
    RestStays(env, steps, k, before, edit, DirectBackup(env, before.world, status.target));
  }

  lemma ChangedTicks(env: Env, w: World, edit: Parsed)
    requires DirectReplace(env, w, edit).0 != w
    ensures DirectReplace(env, w, edit).0.clock == w.clock + 1
  {
    hide ReadSnapshot, EditText, Resolve, WriteText;
  }

  lemma TableHasNoBackups(env: Env, files0: Files, steps: seq<string>, r: Run)
    requires EndsWell(env, files0, steps, r) && r.outcome.Succeeded?
    ensures NoBackups(r.snaps)
  {
    hide Framed, TookAll, LogOf, RolledBackTo, LeaksStay, ReadSnapshot, IsBackup;
  }

  /** What follows the edit of step `k` leaves the backup. */
  lemma RestStays(env: Env, steps: seq<string>, k: nat, before: Run, edit: Parsed, b: Path)
    requires k < |steps| && env.validates(Strip(steps[k])) && ParseReplaceTask(steps[k]) == Some(edit)
    requires NoBackups(before.snaps) && DirectReplace(env, before.world, edit).1.Applied?
    requires Unclaimed(env, DirectReplace(env, before.world, edit).0.clock, b)
    ensures var w1 := DirectReplace(env, before.world, edit).0;
            Stays(w1, RunFrom(env, steps, k, before.world, before.snaps, before.log).world, b)
  {
    hide DirectReplace, VerifyStep, Capture, ParseText, StripBy, IsSpace, IsBackup, Restored, NoBackups, Unclaimed;
    var w := before.world;
    var (w1, status) := DirectReplace(env, w, edit);
    assert Strip(Strip(steps[k])) == Strip(steps[k]);
    AppliedCaptures(env, w, before.snaps, steps[k]);
    CaptureNoBackups(env, w.files, before.snaps, steps[k]);
    var snaps := Capture(env, w.files, before.snaps, steps[k]).value;
    var r := RunStep(env, k, w, steps[k]);
    VerifyStays(env, k, w1, status.target, edit, b);
    UnclaimedLater(env, w1.clock, r.world.clock, b);
    UnclaimedIsBackup(env, w1.clock, b);
    RestoreStays(r.world, snaps, b);
    RunStays(env, steps, k + 1, r.world, snaps, before.log + [r.effect], b);
  }

  lemma UnclaimedIsBackup(env: Env, clock: nat, b: Path)
    requires Unclaimed(env, clock, b)
    ensures IsBackup(b)
  {}

  lemma AppliedCaptures(env: Env, w: World, snaps: Snaps, task: string)
    requires ParseReplaceTask(task).Some? && DirectReplace(env, w, ParseReplaceTask(task).value).1.Applied?
    ensures Capture(env, w.files, snaps, task).Some?
  {
    hide ReadSnapshot, ParseText, Resolve, StripBy, EditText, Overwrite;
  }
}
