/** The multi-step transaction: edit, verify, repair once, and roll every touched file back on failure. */
module Transaction {
  import opened Text
  import opened LineStyle
  import opened Utf8
  import opened Snapshot
  import opened PathRules
  import opened TaskText
  import opened LineEdit

  type Files = map<Path, seq<Byte>>

  /** One verification command's outcome: whether it passed, whether its stderr reports a missing
      indented block, and the file that stderr names, if any. */
  datatype VerifyResult = VerifyResult(ok: bool, indentation: bool, stderrFile: string)

  /** Everything a run depends on besides the files. The verification commands may answer differently
      in every step, at every tick of the clock and for every state of the files. */
  datatype Env = Env(
    root: Path,
    allowCore: bool,
    validates: string -> bool,
    tools: Tools,
    verify: (nat, nat, Files) -> seq<VerifyResult>,
    now: nat -> nat)

  datatype World = World(files: Files, clock: nat)

  datatype Repair = Repair(target: Path, file: string)

  /** What one step did to the files, besides backups. */
  datatype Effect = NoEffect | Edited(target: Path, edit: Parsed, repair: Option<Repair>)

  datatype Saved = Saved(content: string, hadBom: bool)

  type Snaps = map<Path, Saved>

  function Resolve(env: Env, file: string): (r: Option<Path>)
    ensures r.Some? ==> r.value != [] && !IsBackup(r.value)
  {
    var r := ResolveTarget(env.root, file, env.allowCore);
    if r.Some? then
      ResolvedIsNoBackup(env.root, file, env.allowCore); r
    else r
  }

  function Reading(files: Files, p: Path): Option<TextSnapshot>
    requires p in files
  {
    ReadSnapshot(files[p])
  }

  /** What the file reads as; empty when it is not there or cannot be decoded. */
  function TextOf(files: Files, p: Path): string {
    if p in files && Reading(files, p).Some? then Reading(files, p).value.content else ""
  }

  // ---- One step ----

  datatype DirectStatus = Applied(target: Path) | Refused | Unsafe

  /** Write the new text, leaving the old one in a backup. */
  function Overwrite(env: Env, w: World, target: Path, was: TextSnapshot, after: string, tag: string): World
    requires target != []
  {
    World(w.files[BackupPath(target, tag, env.now(w.clock)) := WriteText(was.content, was.hadBom)]
                 [target := WriteText(after, false)],
          w.clock + 1)
  }

  function DirectReplace(env: Env, w: World, edit: Parsed): (World, DirectStatus) {
    match Resolve(env, edit.filePath)
    case None => (w, Unsafe)
    case Some(target) =>
      if target !in w.files then (w, Refused)
      else
        match Reading(w.files, target)
        case None => (w, Unsafe)
        case Some(was) =>
          match EditText(env.tools, edit.filePath, was.content, edit.functionName, edit.oldText, edit.newText)
          case None => (w, Refused)
          case Some(after) =>
            if after == was.content then (w, Applied(target))
            else (Overwrite(env, w, target, was, after, DIRECT_TAG), Applied(target))
  }

  function RepairIndentation(env: Env, w: World, file: string): (World, DirectStatus) {
    match Resolve(env, file)
    case None => (w, Unsafe)
    case Some(target) =>
      if target !in w.files then (w, Refused)
      else
        match Reading(w.files, target)
        case None => (w, Unsafe)
        case Some(was) =>
          match RepairText(env.tools, file, was.content)
          case None => (w, Refused)
          case Some(after) => (Overwrite(env, w, target, was, after, INDENT_TAG), Applied(target))
  }

  predicate AllOk(results: seq<VerifyResult>) { forall r | r in results :: r.ok }

  function FirstIndentation(results: seq<VerifyResult>): (r: Option<VerifyResult>)
    ensures r.Some? ==> r.value in results && r.value.indentation
    ensures r.None? ==> forall x | x in results :: !x.indentation
  {
    if results == [] then None
    else if results[0].indentation then Some(results[0])
    else FirstIndentation(results[1..])
  }

  datatype StepStatus = StepOk | StepFailed | StepRaised | StepDelegated

  datatype StepResult = StepResult(world: World, effect: Effect, status: StepStatus)

  function Tick(w: World): World { w.(clock := w.clock + 1) }

  /** Verification after an applied edit, with at most one indentation repair. */
  function VerifyStep(env: Env, k: nat, w: World, target: Path, edit: Parsed): StepResult {
    var results := env.verify(k, w.clock, w.files);
    var w1 := Tick(w);
    if AllOk(results) then StepResult(w1, Edited(target, edit, None), StepOk)
    else
      match FirstIndentation(results)
      case None => StepResult(w1, Edited(target, edit, None), StepFailed)
      case Some(failure) =>
        var file := if failure.stderrFile != "" then failure.stderrFile else edit.filePath;
        if file == "" then StepResult(w1, Edited(target, edit, None), StepFailed)
        else
          var (w2, status) := RepairIndentation(env, w1, file);
          match status
          case Unsafe => StepResult(w2, Edited(target, edit, None), StepRaised)
          case Refused => StepResult(w2, Edited(target, edit, None), StepFailed)
          case Applied(repaired) =>
            StepResult(Tick(w2), Edited(target, edit, Some(Repair(repaired, file))),
                       if AllOk(env.verify(k, w2.clock, w2.files)) then StepOk else StepFailed)
  }

  /** One attempt at a screened text: the edit, and its verification when it was applied. */
  function RunAttempt(env: Env, k: nat, w: World, text: string): StepResult {
    match ParseReplaceTask(text)
    case None => StepResult(w, NoEffect, StepDelegated)
    case Some(edit) =>
      var (w1, status) := DirectReplace(env, w, edit);
      match status
      case Unsafe => StepResult(w1, NoEffect, StepRaised)
      case Refused => StepResult(w1, NoEffect, StepFailed)
      case Applied(target) => VerifyStep(env, k, w1, target, edit)
  }

  function RunStep(env: Env, k: nat, w: World, task: string): StepResult {
    var text := Strip(task);
    if !env.validates(text) then StepResult(w, NoEffect, StepRaised) else RunAttempt(env, k, w, text)
  }

  // ---- The whole run ----

  /** Take a snapshot of a step's target before its first change; None when that raises. */
  function Capture(env: Env, files: Files, snaps: Snaps, task: string): Option<Snaps> {
    match ParseReplaceTask(task)
    case None => Some(snaps)
    case Some(edit) =>
      if edit.filePath == "" then Some(snaps)
      else
        match Resolve(env, edit.filePath)
        case None => None
        case Some(target) =>
          if target !in files || target in snaps then Some(snaps)
          else
            match Reading(files, target)
            case None => None
            case Some(s) => Some(snaps[target := Saved(s.content, s.hadBom)])
  }

  function Restored(files: Files, snaps: Snaps): Files {
    files + map p | p in snaps :: WriteText(snaps[p].content, snaps[p].hadBom)
  }

  /** How a run ends. `Raised`: an exception leaves the run without a rollback. `Delegated`: the step
      is not in the controlled format and is handed to code outside this model. */
  datatype Outcome = Succeeded | RolledBack(step: nat) | Raised(step: nat) | Delegated(step: nat)

  datatype Run = Run(outcome: Outcome, world: World, snaps: Snaps, log: seq<Effect>)

  function RunFrom(env: Env, steps: seq<string>, i: nat, w: World, snaps: Snaps, log: seq<Effect>): Run
    requires i <= |steps|
    decreases |steps| - i
  {
    if i == |steps| then Run(Succeeded, w, snaps, log)
    else if !env.validates(Strip(steps[i])) then Run(Raised(i), w, snaps, log)
    else
      match Capture(env, w.files, snaps, steps[i])
      case None => Run(RolledBack(i), w.(files := Restored(w.files, snaps)), snaps, log)
      case Some(snaps') =>
        var r := RunStep(env, i, w, steps[i]);
        var log' := log + [r.effect];
        match r.status
        case StepOk => RunFrom(env, steps, i + 1, r.world, snaps', log')
        case StepFailed => Run(RolledBack(i), r.world.(files := Restored(r.world.files, snaps')), snaps', log')
        case StepRaised => Run(Raised(i), r.world, snaps', log')
        case StepDelegated => Run(Delegated(i), r.world, snaps', log')
  }

  function RunTransaction(env: Env, w: World, steps: seq<string>): Run {
    RunFrom(env, steps, 0, w, map[], [])
  }

  // ---- The reference: a fold of pure edits over the text of one file ----

  function Edit1(env: Env, text: string, edit: Parsed): string {
    match EditText(env.tools, edit.filePath, text, edit.functionName, edit.oldText, edit.newText)
    case None => text
    case Some(after) => Settle(after)
  }

  function Repair1(env: Env, text: string, file: string): string {
    match RepairText(env.tools, file, text)
    case None => text
    case Some(after) => Settle(after)
  }

  function AfterEdit(env: Env, p: Path, text: string, effect: Effect): string
    requires effect.Edited?
  {
    if effect.target == p then Edit1(env, text, effect.edit) else text
  }

  function Apply1(env: Env, p: Path, text: string, effect: Effect): string {
    match effect
    case NoEffect => text
    case Edited(target, edit, repair) =>
      var edited := AfterEdit(env, p, text, effect);
      if repair.Some? && repair.value.target == p then Repair1(env, edited, repair.value.file) else edited
  }

  /** The text of file `p` after the effects of a log, in order. */
  function Fold(env: Env, p: Path, text: string, log: seq<Effect>): string {
    if log == [] then text
    else Apply1(env, p, Fold(env, p, text, log[..|log| - 1]), log[|log| - 1])
  }

  function FoldOf(env: Env, files: Files, p: Path, log: seq<Effect>): string { Fold(env, p, TextOf(files, p), log) }

  // Where the effect's repair happened; its edit's place when it has none.
  function RepairPath(effect: Effect): Path
    requires effect.Edited?
  {
    if effect.repair.Some? then effect.repair.value.target else effect.target
  }

  /** The edit of the effect was accepted on the first text, and its repair on the second one, which is the
      repaired file's before the edit. */
  predicate Granted(env: Env, effect: Effect, atTarget: string, atRepair: string)
    requires effect.Edited?
  {
    var edit := effect.edit;
    && EditText(env.tools, edit.filePath, atTarget, edit.functionName, edit.oldText, edit.newText).Some?
    && (effect.repair.Some? ==>
          RepairText(env.tools, effect.repair.value.file, AfterEdit(env, RepairPath(effect), atRepair, effect)).Some?)
  }

  /** Entry `j` was accepted on the texts that the entries before it had left. */
  predicate TookAt(env: Env, files0: Files, log: seq<Effect>, j: nat)
    requires j < |log| && log[j].Edited?
  {
    Granted(env, log[j], FoldOf(env, files0, log[j].target, log[..j]), FoldOf(env, files0, RepairPath(log[j]), log[..j]))
  }

  predicate TookAll(env: Env, files0: Files, log: seq<Effect>) {
    forall j | 0 <= j < |log| && log[j].Edited? :: TookAt(env, files0, log, j)
  }

  function Targets(log: seq<Effect>): set<Path> {
    if log == [] then {}
    else
      var last := log[|log| - 1];
      Targets(log[..|log| - 1]) + if last.Edited? then {last.target} else {}
  }

  /** Files that a repair changed although no step so far had them as its target. */
  function Leaks(log: seq<Effect>): set<Path> {
    if log == [] then {}
    else
      var last := log[|log| - 1];
      Leaks(log[..|log| - 1])
      + if last.Edited? && last.repair.Some? && last.repair.value.target !in Targets(log)
        then {last.repair.value.target} else {}
  }

  /** The file reads as `text`, or is a file that cannot be decoded and has not changed. */
  predicate ReadsAs(env: Env, files0: Files, files: Files, p: Path, log: seq<Effect>)
    requires p in files0 && p in files
  {
    match Reading(files0, p)
    case None => files[p] == files0[p]
    case Some(s) => Reading(files, p).Some? && Reading(files, p).value.content == Fold(env, p, s.content, log)
  }

  ghost predicate Framed(env: Env, files0: Files, files: Files, log: seq<Effect>) {
    && (forall p | !IsBackup(p) :: p in files <==> p in files0)
    && (forall p | p in files0 && !IsBackup(p) :: ReadsAs(env, files0, files, p, log))
    && (forall p | p in files0 && !IsBackup(p) && p !in Targets(log) + Leaks(log) :: files[p] == files0[p])
  }

  /** The snapshot table: exactly the targets so far, each as it was before the run. */
  ghost predicate Tabled(files0: Files, snaps: Snaps, log: seq<Effect>) {
    && Targets(log) <= snaps.Keys
    && (forall p | p in snaps :: !IsBackup(p) && p in files0 && Reading(files0, p).Some?)
    && (forall p | p in snaps && p !in Leaks(log) ::
          snaps[p].content == Reading(files0, p).value.content && snaps[p].hadBom == Reading(files0, p).value.hadBom)
  }

  // ---- One step, framed ----

  predicate Touches(effect: Effect, p: Path) {
    effect.Edited? && (effect.target == p || (effect.repair.Some? && effect.repair.value.target == p))
  }

  /** From `files` to `files'` the effect happened, and besides it only backups were written. */
  ghost predicate Changed(env: Env, files: Files, files': Files, effect: Effect) {
    && (forall p | !IsBackup(p) :: p in files' <==> p in files)
    && (effect.Edited? ==> effect.target in files && !IsBackup(effect.target))
    && (forall p | p in files && !IsBackup(p) ::
          if Touches(effect, p) then
            && Reading(files, p).Some? && Reading(files', p).Some?
            && Reading(files', p).value.content == Apply1(env, p, Reading(files, p).value.content, effect)
          else files'[p] == files[p])
  }

  /** A write with backup: the target reads as the new text, no mark, and nothing else but a backup changes. */
  lemma OverwriteFrame(env: Env, w: World, target: Path, was: TextSnapshot, after: string, tag: string)
    requires target in w.files && target != [] && !IsBackup(target) && tag in {DIRECT_TAG, INDENT_TAG}
    ensures var files := Overwrite(env, w, target, was, after, tag).files;
            && (forall p | !IsBackup(p) :: p in files <==> p in w.files)
            && (forall p | p in w.files && !IsBackup(p) && p != target :: files[p] == w.files[p])
            && target in files
            && Reading(files, target).Some? && Reading(files, target).value.content == Settle(after)
            && !Reading(files, target).value.hadBom
  {
    hide ReadSnapshot, WriteText, IsBackup, EditText, RepairText, ResolveTarget, BackupPath, Settle;
    BackupIsBackup(target, tag, env.now(w.clock));
    ReadBack(after, false);
  }

  lemma EmptyPathUnsafe(env: Env)
    ensures Resolve(env, "") == None
  {
    SettledIffUnchanged("");
  }

  lemma NothingChanged(env: Env, files: Files)
    ensures Changed(env, files, files, NoEffect)
  {}

  /** A direct edit changes its target by the one pure edit, or nothing at all. */
  lemma DirectFrame(env: Env, w: World, edit: Parsed)
    ensures var (w', status) := DirectReplace(env, w, edit);
            if status.Applied? then
              && Resolve(env, edit.filePath) == Some(status.target) && edit.filePath != ""
              && Changed(env, w.files, w'.files, Edited(status.target, edit, None))
            else w' == w
  {
    hide ReadSnapshot, WriteText, IsBackup, EditText, RepairText, ResolveTarget, BackupPath, Settle;
    var (w', status) := DirectReplace(env, w, edit);
    EmptyPathUnsafe(env);
    if status.Applied? {
      var target := status.target;
      var was := Reading(w.files, target).value;
      var after := EditText(env.tools, edit.filePath, was.content, edit.functionName, edit.oldText, edit.newText).value;
      if after == was.content {
        SnapshotIsSettled(w.files[target]);
      } else {
        OverwriteFrame(env, w, target, was, after, DIRECT_TAG);
      }
    }
  }

  lemma RepairStepFrame(env: Env, w: World, file: string)
    ensures var (w', status) := RepairIndentation(env, w, file);
            if status.Applied? then
              var q := status.target;
              && Resolve(env, file) == Some(q)
              && (forall p | !IsBackup(p) :: p in w'.files <==> p in w.files)
              && q in w.files && q in w'.files && !IsBackup(q)
              && (forall p | p in w.files && !IsBackup(p) && p != q :: w'.files[p] == w.files[p])
              && Reading(w.files, q).Some? && Reading(w'.files, q).Some?
              && Reading(w'.files, q).value.content == Repair1(env, Reading(w.files, q).value.content, file)
            else w' == w
  {
    hide ReadSnapshot, WriteText, IsBackup, EditText, RepairText, ResolveTarget, BackupPath, Settle;
    var (w', status) := RepairIndentation(env, w, file);
    if status.Applied? {
      var was := Reading(w.files, status.target).value;
      var after := RepairText(env.tools, file, was.content).value;
      OverwriteFrame(env, w, status.target, was, after, INDENT_TAG);
    }
  }

  lemma StepFrame(env: Env, k: nat, w: World, task: string)
    ensures var r := RunStep(env, k, w, task);
            && Changed(env, w.files, r.world.files, r.effect)
            && (r.status.StepOk? ==> r.effect.Edited?)
            && (r.effect.Edited? ==> ParseReplaceTask(Strip(task)) == Some(r.effect.edit)
                                     && Resolve(env, r.effect.edit.filePath) == Some(r.effect.target)
                                     && r.effect.target in w.files && r.effect.edit.filePath != "")
  {
    hide DirectReplace, RepairIndentation, ParseText, VerifyStep, Resolve, Changed, IsBackup, Strip;
    NothingChanged(env, w.files);
    var edit := ParseReplaceTask(Strip(task));
    if env.validates(Strip(task)) && edit.Some? {
      DirectFrame(env, w, edit.value);
      var (w1, status) := DirectReplace(env, w, edit.value);
      if status.Applied? {
        VerifyFrame(env, k, w, w1, status.target, edit.value);
      }
    }
  }

  /** Verification of an edit that went in adds at most one pure repair. */
  lemma VerifyFrame(env: Env, k: nat, w: World, w1: World, target: Path, edit: Parsed)
    requires Changed(env, w.files, w1.files, Edited(target, edit, None))
    ensures var r := VerifyStep(env, k, w1, target, edit);
            && Changed(env, w.files, r.world.files, r.effect)
            && r.effect.Edited? && r.effect.target == target && r.effect.edit == edit && target in w.files
  {
    hide DirectReplace, RepairIndentation, ReadSnapshot, Repair1, Edit1, Settle, IsBackup, ResolveTarget;
    var failure := FirstIndentation(env.verify(k, w1.clock, w1.files));
    if failure.Some? {
      var file := if failure.value.stderrFile != "" then failure.value.stderrFile else edit.filePath;
      RepairStepFrame(env, Tick(w1), file);
      var (w2, status) := RepairIndentation(env, Tick(w1), file);
      if status.Applied? {
        ComposeRepair(env, w.files, w1.files, w2.files, target, edit, Repair(status.target, file));
      }
    }
  }

  lemma ComposeRepair(env: Env, f: Files, f1: Files, f2: Files, target: Path, edit: Parsed, repair: Repair)
    requires Changed(env, f, f1, Edited(target, edit, None))
    requires forall p | !IsBackup(p) :: p in f2 <==> p in f1
    requires repair.target in f1 && repair.target in f2 && !IsBackup(repair.target)
    requires forall p | p in f1 && !IsBackup(p) && p != repair.target :: f2[p] == f1[p]
    requires Reading(f1, repair.target).Some? && Reading(f2, repair.target).Some?
    requires Reading(f2, repair.target).value.content == Repair1(env, Reading(f1, repair.target).value.content, repair.file)
    ensures Changed(env, f, f2, Edited(target, edit, Some(repair)))
  {
    hide ReadSnapshot, IsBackup, Edit1, Repair1;
  }

  // ---- The invariant of the run ----

  lemma FoldSnoc(env: Env, p: Path, text: string, log: seq<Effect>, effect: Effect)
    ensures Fold(env, p, text, log + [effect]) == Apply1(env, p, Fold(env, p, text, log), effect)
    ensures Targets(log + [effect]) == Targets(log) + if effect.Edited? then {effect.target} else {}
    ensures Leaks(log + [effect]) == Leaks(log) +
              if effect.Edited? && effect.repair.Some? && effect.repair.value.target !in Targets(log + [effect])
              then {effect.repair.value.target} else {}
  {
    assert (log + [effect])[..|log|] == log;
  }

  lemma FrameStep(env: Env, files0: Files, files: Files, files': Files, log: seq<Effect>, effect: Effect)
    requires Framed(env, files0, files, log) && Changed(env, files, files', effect)
    ensures Framed(env, files0, files', log + [effect])
  {
    hide ReadSnapshot, IsBackup, Edit1, Repair1, Fold, Targets, Leaks;
    var log' := log + [effect];
    forall p | p in files0 && !IsBackup(p)
      ensures p in files' && ReadsAs(env, files0, files', p, log')
      ensures p !in Targets(log') + Leaks(log') ==> files'[p] == files0[p]
    {
      assert p in files && ReadsAs(env, files0, files, p, log);
      match Reading(files0, p)
      case Some(s) => FoldSnoc(env, p, s.content, log, effect);
      case None => FoldSnoc(env, p, "", log, effect);
    }
  }

  lemma TableStep(env: Env, files0: Files, files: Files, snaps: Snaps, log: seq<Effect>, task: string)
    requires Framed(env, files0, files, log) && Tabled(files0, snaps, log)
    requires Capture(env, files, snaps, task).Some?
    ensures Tabled(files0, Capture(env, files, snaps, task).value, log)
  {
    hide ReadSnapshot, IsBackup, ResolveTarget, ParseText, Fold;
  }

  lemma TableGrows(files0: Files, snaps: Snaps, log: seq<Effect>, effect: Effect)
    requires Tabled(files0, snaps, log) && (effect.Edited? ==> effect.target in snaps)
    ensures Tabled(files0, snaps, log + [effect])
  {
    assert (log + [effect])[..|log|] == log;
  }

  /** A step that edits its target has captured it. */
  lemma CapturedTarget(env: Env, k: nat, w: World, snaps: Snaps, task: string)
    requires Capture(env, w.files, snaps, task).Some?
    ensures var e := RunStep(env, k, w, task).effect;
            e.Edited? ==> e.target in Capture(env, w.files, snaps, task).value
  {
    hide RunStep, ReadSnapshot, ParseText, Changed, IsBackup, StripBy, IsSpace;
    StepFrame(env, k, w, task);
    var e := RunStep(env, k, w, task).effect;
    if e.Edited? {
      assert Strip(Strip(task)) == Strip(task);
    }
  }

  // ---- Rolling back ----

  /** The file reads as before the run: same text, same byte order mark; undecodable files keep their bytes. */
  predicate BackAsBefore(files0: Files, files: Files, p: Path)
    requires p in files0 && p in files
  {
    match Reading(files0, p)
    case None => files[p] == files0[p]
    case Some(s) =>
      var now := Reading(files, p);
      now.Some? && now.value.content == s.content && now.value.hadBom == s.hadBom
  }

  /** Every file outside the leaks is back: untouched files keep their bytes, and a restored file gets
      its bytes back exactly when it had at most one byte order mark and one newline style. */
  ghost predicate RolledBackTo(files0: Files, files: Files, snaps: Snaps, log: seq<Effect>) {
    forall p | p in files0 && !IsBackup(p) && p !in Leaks(log) ::
      && p in files && BackAsBefore(files0, files, p)
      && (p !in snaps ==> files[p] == files0[p])
      && (p in snaps ==> (files[p] == files0[p] <==> RestoresExactly(files0[p])))
  }

  lemma RestoredFile(raw: seq<Byte>, saved: Saved)
    requires ReadSnapshot(raw).Some?
    requires saved.content == ReadSnapshot(raw).value.content && saved.hadBom == ReadSnapshot(raw).value.hadBom
    ensures var raw' := WriteText(saved.content, saved.hadBom);
            && ReadSnapshot(raw').Some?
            && ReadSnapshot(raw').value.content == saved.content && ReadSnapshot(raw').value.hadBom == saved.hadBom
            && (raw' == raw <==> RestoresExactly(raw))
  {
    RestoreReachesFixedPoint(raw);
    RestoreIffExact(raw);
  }

  lemma RollbackRestores(env: Env, files0: Files, files: Files, snaps: Snaps, log: seq<Effect>)
    requires Framed(env, files0, files, log) && Tabled(files0, snaps, log)
    ensures RolledBackTo(files0, Restored(files, snaps), snaps, log)
    ensures forall p | !IsBackup(p) :: p in Restored(files, snaps) <==> p in files0
  {
    hide ReadSnapshot, WriteText, RestoresExactly, IsBackup, Fold;
    var files' := Restored(files, snaps);
    forall p | p in files0 && !IsBackup(p) && p !in Leaks(log)
      ensures p in files' && BackAsBefore(files0, files', p)
      ensures p !in snaps ==> files'[p] == files0[p]
      ensures p in snaps ==> (files'[p] == files0[p] <==> RestoresExactly(files0[p]))
    {
      if p in snaps {
        RestoredFile(files0[p], snaps[p]);
      } else {
        assert p !in Targets(log) + Leaks(log) && files'[p] == files[p] == files0[p];
      }
    }
  }

  // ---- What was accepted ----

  lemma StepGranted(env: Env, k: nat, w: World, task: string)
    ensures var e := RunStep(env, k, w, task).effect;
            e.Edited? ==> Granted(env, e, TextOf(w.files, e.target), TextOf(w.files, RepairPath(e)))
  {
    hide DirectReplace, RepairIndentation, ParseText, VerifyStep, Resolve, Changed, IsBackup, Strip, Granted, TextOf;
    var edit := ParseReplaceTask(Strip(task));
    if env.validates(Strip(task)) && edit.Some? {
      DirectFrame(env, w, edit.value);
      var (w1, status) := DirectReplace(env, w, edit.value);
      if status.Applied? {
        DirectGranted(env, w, edit.value);
        VerifyGranted(env, k, w, w1, status.target, edit.value);
      }
    }
  }

  lemma DirectGranted(env: Env, w: World, edit: Parsed)
    ensures var status := DirectReplace(env, w, edit).1;
            status.Applied? ==>
              EditText(env.tools, edit.filePath, TextOf(w.files, status.target), edit.functionName, edit.oldText, edit.newText).Some?
  {
    hide ReadSnapshot, EditText, Resolve, Overwrite;
  }

  lemma VerifyGranted(env: Env, k: nat, w: World, w1: World, target: Path, edit: Parsed)
    requires Changed(env, w.files, w1.files, Edited(target, edit, None))
    requires EditText(env.tools, edit.filePath, TextOf(w.files, target), edit.functionName, edit.oldText, edit.newText).Some?
    ensures var e := VerifyStep(env, k, w1, target, edit).effect;
            e.Edited? && Granted(env, e, TextOf(w.files, e.target), TextOf(w.files, RepairPath(e)))
  {
    hide DirectReplace, ReadSnapshot, Edit1, Repair1, IsBackup, Resolve, EditText, RepairText, Overwrite;
    var failure := FirstIndentation(env.verify(k, w1.clock, w1.files));
    if failure.Some? {
      var file := if failure.value.stderrFile != "" then failure.value.stderrFile else edit.filePath;
      var status := RepairIndentation(env, Tick(w1), file).1;
      if status.Applied? {
        assert status.target in w1.files && status.target in w.files;
        assert RepairText(env.tools, file, TextOf(w1.files, status.target)).Some?;
        assert TextOf(w1.files, status.target) == AfterEdit(env, status.target, TextOf(w.files, status.target), Edited(target, edit, None));
      }
    }
  }

  lemma ReadFold(env: Env, files0: Files, files: Files, log: seq<Effect>, p: Path)
    requires Framed(env, files0, files, log) && p in files && !IsBackup(p) && Reading(files, p).Some?
    ensures p in files0 && Reading(files0, p).Some? && TextOf(files, p) == FoldOf(env, files0, p, log)
  {
    hide ReadSnapshot, IsBackup, Fold;
    assert ReadsAs(env, files0, files, p, log);
  }

  lemma TookStep(env: Env, files0: Files, files: Files, files': Files, log: seq<Effect>, effect: Effect)
    requires Framed(env, files0, files, log) && TookAll(env, files0, log) && Changed(env, files, files', effect)
    requires effect.Edited? ==> Granted(env, effect, TextOf(files, effect.target), TextOf(files, RepairPath(effect)))
    requires effect.Edited? && effect.repair.Some? ==> RepairPath(effect) in files && !IsBackup(RepairPath(effect))
    ensures TookAll(env, files0, log + [effect])
  {
    hide ReadSnapshot, IsBackup, Granted, Framed, FoldOf, TextOf;
    var all := log + [effect];
    forall j | 0 <= j < |all| && all[j].Edited? ensures TookAt(env, files0, all, j) {
      if j < |log| {
        assert all[..j] == log[..j] && TookAt(env, files0, log, j);
      } else {
        assert all[..j] == log;
        ReadFold(env, files0, files, log, effect.target);
        ReadFold(env, files0, files, log, RepairPath(effect));
      }
    }
  }

  lemma RepairedIsThere(env: Env, k: nat, w: World, task: string)
    ensures var e := RunStep(env, k, w, task).effect;
            e.Edited? && e.repair.Some? ==> RepairPath(e) in w.files && !IsBackup(RepairPath(e))
  {
    hide DirectReplace, RepairIndentation, ParseText, Changed, IsBackup, Strip, Resolve;
    var edit := ParseReplaceTask(Strip(task));
    if env.validates(Strip(task)) && edit.Some? {
      DirectFrame(env, w, edit.value);
      var (w1, status) := DirectReplace(env, w, edit.value);
      var failure := FirstIndentation(env.verify(k, w1.clock, w1.files));
      if status.Applied? && failure.Some? {
        var file := if failure.value.stderrFile != "" then failure.value.stderrFile else edit.value.filePath;
        RepairStepFrame(env, Tick(w1), file);
        SameNames(env, w.files, w1.files, Edited(status.target, edit.value, None));
      }
    }
  }

  lemma SameNames(env: Env, files: Files, files': Files, effect: Effect)
    requires Changed(env, files, files', effect)
    ensures forall p | !IsBackup(p) :: p in files' <==> p in files
  {}

  lemma {:induction false} RunTakes(env: Env, files0: Files, steps: seq<string>, i: nat, w: World, snaps: Snaps, log: seq<Effect>)
    requires i <= |steps| && Framed(env, files0, w.files, log) && TookAll(env, files0, log)
    ensures TookAll(env, files0, RunFrom(env, steps, i, w, snaps, log).log)
    decreases |steps| - i
  {
    hide RunStep, Capture, Framed, Changed, Strip, IsBackup, Restored, TookAll, Granted, Targets, Leaks, TextOf, ParseText, Resolve;
    if i < |steps| && env.validates(Strip(steps[i])) {
      var captured := Capture(env, w.files, snaps, steps[i]);
      if captured.Some? {
        var r := RunStep(env, i, w, steps[i]);
        StepFrame(env, i, w, steps[i]);
        StepGranted(env, i, w, steps[i]);
        RepairedIsThere(env, i, w, steps[i]);
        TookStep(env, files0, w.files, r.world.files, log, r.effect);
        FrameStep(env, files0, w.files, r.world.files, log, r.effect);
        if r.status.StepOk? {
          RunTakes(env, files0, steps, i + 1, r.world, captured.value, log + [r.effect]);
        }
      }
    }
  }

  // ---- Leaked files ----

  function StepTarget(env: Env, task: string): Option<Path> {
    match ParseReplaceTask(task)
    case None => None
    case Some(edit) => Resolve(env, edit.filePath)
  }

  /** Step `j` is the first one whose target is `p`. */
  predicate IsFirstStep(env: Env, steps: seq<string>, p: Path, j: nat) {
    && j < |steps| && StepTarget(env, steps[j]) == Some(p)
    && forall i | 0 <= i < j :: StepTarget(env, steps[i]) != Some(p)
  }

  /** The text is what the file read as before the first step whose target it was. */
  ghost predicate SavedAt(env: Env, files0: Files, steps: seq<string>, log: seq<Effect>, p: Path, text: string) {
    exists j: nat | j <= |log| && IsFirstStep(env, steps, p, j) :: text == FoldOf(env, files0, p, log[..j])
  }

  /** A file in the table that leaked before: its entry has the text from before its own first step. */
  ghost predicate LeakTable(env: Env, files0: Files, steps: seq<string>, snaps: Snaps, log: seq<Effect>) {
    forall p | p in snaps && p in Leaks(log) ::
      && !snaps[p].hadBom && Settle(snaps[p].content) == snaps[p].content
      && SavedAt(env, files0, steps, log, p, snaps[p].content)
  }

  /** Every leaked file can be read, before and now, and has no byte order mark now. */
  ghost predicate LeakFiles(files0: Files, files: Files, log: seq<Effect>) {
    forall p | p in Leaks(log) ::
      && !IsBackup(p) && p in files0 && p in files
      && Reading(files0, p).Some? && Reading(files, p).Some? && !Reading(files, p).value.hadBom
  }

  /** After a rollback a leaked file is not back: without its mark, it reads as its repairs left it, or, when a
      later step had it as its target, as before that step. */
  ghost predicate LeaksStay(env: Env, files0: Files, steps: seq<string>, files: Files, snaps: Snaps, log: seq<Effect>) {
    forall p | p in Leaks(log) ::
      && !IsBackup(p) && p in files0 && p in files && Reading(files0, p).Some? && Reading(files, p).Some?
      && (p !in snaps ==> TextOf(files, p) == FoldOf(env, files0, p, log))
      && (p in snaps ==> SavedAt(env, files0, steps, log, p, TextOf(files, p)))
      && (BackAsBefore(files0, files, p) <==>
            TextOf(files, p) == TextOf(files0, p) && !Reading(files0, p).value.hadBom)
  }

  lemma NothingLeaked(env: Env, files: Files, steps: seq<string>)
    ensures LeakTable(env, files, steps, map[], []) && LeakFiles(files, files, [])
    ensures LogOf(env, steps, []) && AllEdited([]) && Targets([]) == {}
  {}

  /** The effect wrote file `p`, which read as `text`: its edit changed the text, or its repair was there. */
  predicate Wrote1(env: Env, p: Path, text: string, effect: Effect) {
    && effect.Edited?
    && ((effect.target == p && EditChanges(env, text, effect.edit))
        || (effect.repair.Some? && effect.repair.value.target == p))
  }

  predicate EditChanges(env: Env, text: string, edit: Parsed) {
    var after := EditText(env.tools, edit.filePath, text, edit.functionName, edit.oldText, edit.newText);
    after.Some? && after.value != text
  }

  /** Each readable file's mark, from `files` to `files'`: kept unless the effect wrote the file. */
  ghost predicate Marks(env: Env, files: Files, files': Files, effect: Effect) {
    forall p | p in files && p in files' && !IsBackup(p) && Reading(files, p).Some? && Reading(files', p).Some? ::
      Reading(files', p).value.hadBom <==> Reading(files, p).value.hadBom && !Wrote1(env, p, TextOf(files, p), effect)
  }

  /** A step takes away the mark of what it writes, and no other. */
  lemma StepMarks(env: Env, k: nat, w: World, task: string)
    ensures var r := RunStep(env, k, w, task); Marks(env, w.files, r.world.files, r.effect)
  {
    hide DirectReplace, RepairIndentation, ParseText, Changed, IsBackup, Strip, Resolve, ReadSnapshot, EditChanges, Marks;
    NoMarks(env, w.files);
    var edit := ParseReplaceTask(Strip(task));
    if env.validates(Strip(task)) && edit.Some? {
      DirectFrame(env, w, edit.value);
      DirectMarks(env, w, edit.value);
      var (w1, status) := DirectReplace(env, w, edit.value);
      if status.Applied? {
        SameNames(env, w.files, w1.files, Edited(status.target, edit.value, None));
        StillReadable(env, w.files, w1.files, Edited(status.target, edit.value, None));
        VerifyMarks(env, k, w.files, w1, status.target, edit.value);
      }
    }
  }

  lemma NoMarks(env: Env, files: Files)
    ensures Marks(env, files, files, NoEffect)
  {
    hide ReadSnapshot, IsBackup;
  }

  lemma StillReadable(env: Env, files: Files, files': Files, effect: Effect)
    requires Changed(env, files, files', effect)
    ensures forall p | p in files && p in files' && !IsBackup(p) :: Reading(files, p).Some? <==> Reading(files', p).Some?
  {
    hide ReadSnapshot, IsBackup, Apply1;
  }

  lemma DirectMarks(env: Env, w: World, edit: Parsed)
    ensures var (w', status) := DirectReplace(env, w, edit);
            status.Applied? ==> Marks(env, w.files, w'.files, Edited(status.target, edit, None))
  {
    hide ReadSnapshot, IsBackup, EditText, Resolve, Overwrite;
    var (w', status) := DirectReplace(env, w, edit);
    if status.Applied? {
      var target := status.target;
      var was := Reading(w.files, target).value;
      var after := EditText(env.tools, edit.filePath, was.content, edit.functionName, edit.oldText, edit.newText).value;
      if after != was.content { OverwriteFrame(env, w, target, was, after, DIRECT_TAG); }
    }
  }

  lemma VerifyMarks(env: Env, k: nat, files: Files, w1: World, target: Path, edit: Parsed)
    requires Marks(env, files, w1.files, Edited(target, edit, None))
    requires forall p | !IsBackup(p) :: p in w1.files <==> p in files
    requires forall p | p in files && p in w1.files && !IsBackup(p) :: Reading(files, p).Some? <==> Reading(w1.files, p).Some?
    ensures var r := VerifyStep(env, k, w1, target, edit); Marks(env, files, r.world.files, r.effect)
  {
    hide ReadSnapshot, IsBackup, RepairText, Resolve, Overwrite, EditChanges;
    var failure := FirstIndentation(env.verify(k, w1.clock, w1.files));
    if failure.Some? {
      var file := if failure.value.stderrFile != "" then failure.value.stderrFile else edit.filePath;
      var (w2, status) := RepairIndentation(env, Tick(w1), file);
      if status.Applied? {
        var was := Reading(w1.files, status.target).value;
        OverwriteFrame(env, Tick(w1), status.target, was, RepairText(env.tools, file, was.content).value, INDENT_TAG);
      }
    }
  }

  lemma {:induction false} TargetInLog(log: seq<Effect>, j: nat)
    requires j < |log| && log[j].Edited?
    ensures log[j].target in Targets(log)
  {
    if j < |log| - 1 { TargetInLog(log[..|log| - 1], j); }
  }

  /** A file that the table does not have yet was no earlier step's target. */
  lemma FirstTime(env: Env, steps: seq<string>, i: nat, snaps: Snaps, log: seq<Effect>, p: Path)
    requires i < |steps| && |log| == i && AllEdited(log) && LogOf(env, steps, log) && Targets(log) <= snaps.Keys
    requires p !in snaps && StepTarget(env, steps[i]) == Some(p)
    ensures IsFirstStep(env, steps, p, i)
  {
    hide Resolve, ParseReplaceTask;
    forall j | 0 <= j < i ensures StepTarget(env, steps[j]) != Some(p) {
      assert log[j] in log;
      TargetInLog(log, j);
    }
  }

  lemma LeakCapture(env: Env, files0: Files, files: Files, steps: seq<string>, i: nat, snaps: Snaps, log: seq<Effect>)
    requires i < |steps| && |log| == i && AllEdited(log) && LogOf(env, steps, log)
    requires Framed(env, files0, files, log) && Tabled(files0, snaps, log) && snaps.Keys <= Targets(log)
    requires LeakTable(env, files0, steps, snaps, log) && LeakFiles(files0, files, log)
    requires Capture(env, files, snaps, steps[i]).Some?
    ensures var snaps' := Capture(env, files, snaps, steps[i]).value;
            && LeakTable(env, files0, steps, snaps', log)
            && forall p | p in snaps' :: p in Targets(log) || StepTarget(env, steps[i]) == Some(p)
  {
    hide ReadSnapshot, IsBackup, Resolve, ParseText, Fold, Settle, Targets, Leaks, Framed, LogOf;
    var snaps' := Capture(env, files, snaps, steps[i]).value;
    forall p | p in snaps' && p !in snaps && p in Leaks(log)
      ensures !snaps'[p].hadBom && Settle(snaps'[p].content) == snaps'[p].content
      ensures SavedAt(env, files0, steps, log, p, snaps'[p].content)
    {
      FirstTime(env, steps, i, snaps, log, p);
      ReadFold(env, files0, files, log, p);
      SnapshotIsSettled(files[p]);
      assert log[..i] == log;
    }
  }

  lemma LeakEffect(env: Env, files0: Files, steps: seq<string>, snaps: Snaps, log: seq<Effect>, effect: Effect)
    requires LeakTable(env, files0, steps, snaps, log)
    requires forall p | p in snaps :: p in Targets(log) || (effect.Edited? ==> p == effect.target)
    ensures LeakTable(env, files0, steps, snaps, log + [effect])
  {
    hide FoldOf, Settle, IsFirstStep, Targets, Leaks;
    var all := log + [effect];
    FoldSnoc(env, [], "", log, effect);
    forall p | p in snaps && p in Leaks(all) ensures SavedAt(env, files0, steps, all, p, snaps[p].content) && p in Leaks(log) {
      var j: nat :| j <= |log| && IsFirstStep(env, steps, p, j) && snaps[p].content == FoldOf(env, files0, p, log[..j]);
      assert all[..j] == log[..j];
    }
  }

  lemma LeakFilesStep(env: Env, files0: Files, w: World, k: nat, task: string, log: seq<Effect>)
    requires Framed(env, files0, w.files, log) && LeakFiles(files0, w.files, log)
    ensures var r := RunStep(env, k, w, task); LeakFiles(files0, r.world.files, log + [r.effect])
  {
    hide RunStep, ReadSnapshot, IsBackup, Targets, Leaks, Changed, Framed;
    var r := RunStep(env, k, w, task);
    StepFrame(env, k, w, task);
    StepMarks(env, k, w, task);
    RepairedIsThere(env, k, w, task);
    SameNames(env, w.files, r.world.files, r.effect);
    StillReadable(env, w.files, r.world.files, r.effect);
    FoldSnoc(env, [], "", log, r.effect);
    forall p | p in Leaks(log + [r.effect])
      ensures && !IsBackup(p) && p in files0 && p in r.world.files
              && Reading(files0, p).Some? && Reading(r.world.files, p).Some? && !Reading(r.world.files, p).value.hadBom
    {
      if p !in Leaks(log) { TouchedReads(env, w.files, r.world.files, r.effect, p); }
      ReadFold(env, files0, w.files, log, p);
    }
  }

  lemma TouchedReads(env: Env, files: Files, files': Files, effect: Effect, p: Path)
    requires Changed(env, files, files', effect) && p in files && !IsBackup(p) && Touches(effect, p)
    ensures Reading(files, p).Some?
  {}

  lemma LeaksAfterRollback(env: Env, files0: Files, steps: seq<string>, files: Files, snaps: Snaps, log: seq<Effect>)
    requires Framed(env, files0, files, log)
    requires LeakTable(env, files0, steps, snaps, log) && LeakFiles(files0, files, log)
    ensures LeaksStay(env, files0, steps, Restored(files, snaps), snaps, log)
  {
    hide ReadSnapshot, WriteText, IsBackup, Fold, Settle, SavedAt, Framed, Leaks;
    var files' := Restored(files, snaps);
    forall p | p in Leaks(log)
      ensures && p in files' && Reading(files', p).Some? && !Reading(files', p).value.hadBom
              && (p !in snaps ==> TextOf(files', p) == FoldOf(env, files0, p, log))
              && (p in snaps ==> TextOf(files', p) == snaps[p].content)
    {
      if p in snaps {
        ReadBack(snaps[p].content, false);
      } else {
        ReadFold(env, files0, files, log, p);
      }
    }
  }

  lemma {:induction false} RunLeaves(env: Env, files0: Files, steps: seq<string>, i: nat, w: World, snaps: Snaps, log: seq<Effect>)
    requires i <= |steps| && |log| == i && AllEdited(log) && LogOf(env, steps, log)
    requires Framed(env, files0, w.files, log) && Tabled(files0, snaps, log) && snaps.Keys <= Targets(log)
    requires LeakTable(env, files0, steps, snaps, log) && LeakFiles(files0, w.files, log)
    ensures var r := RunFrom(env, steps, i, w, snaps, log);
            r.outcome.RolledBack? ==> LeaksStay(env, files0, steps, r.world.files, r.snaps, r.log)
    decreases |steps| - i
  {
    hide RunStep, Capture, ReadSnapshot, Framed, Tabled, Changed, ParseText, Resolve, Restored, StripBy, IsSpace, IsBackup, Targets, Leaks, LeakTable, LeakFiles, LeaksStay, Fold;
    if i < |steps| && env.validates(Strip(steps[i])) {
      var captured := Capture(env, w.files, snaps, steps[i]);
      if captured.None? {
        LeaksAfterRollback(env, files0, steps, w.files, snaps, log);
      } else {
        var r := RunStep(env, i, w, steps[i]);
        var log' := log + [r.effect];
        StepFrame(env, i, w, steps[i]);
        assert Strip(Strip(steps[i])) == Strip(steps[i]);
        LeakCapture(env, files0, w.files, steps, i, snaps, log);
        LeakEffect(env, files0, steps, captured.value, log, r.effect);
        LeakFilesStep(env, files0, w, i, steps[i], log);
        FrameStep(env, files0, w.files, r.world.files, log, r.effect);
        LeaksAfterRollback(env, files0, steps, r.world.files, captured.value, log');
        if r.status.StepOk? {
          TableStep(env, files0, w.files, snaps, log, steps[i]);
          CapturedTarget(env, i, w, snaps, steps[i]);
          TableGrows(files0, captured.value, log, r.effect);
          FoldSnoc(env, [], "", log, r.effect);
          RunLeaves(env, files0, steps, i + 1, r.world, captured.value, log');
        }
      }
    }
  }

  // ---- Main results ----

  /** The log tells the steps' own edits, in order. */
  predicate LogOf(env: Env, steps: seq<string>, log: seq<Effect>) {
    && |log| <= |steps|
    && forall j | 0 <= j < |log| && log[j].Edited? ::
         && ParseReplaceTask(steps[j]) == Some(log[j].edit)
         && Resolve(env, log[j].edit.filePath) == Some(log[j].target)
  }

  predicate AllEdited(log: seq<Effect>) { forall e | e in log :: e.Edited? }

  /** How a run leaves the files, for each way it can end. */
  ghost predicate EndsWell(env: Env, files0: Files, steps: seq<string>, r: Run) {
    && EndsFramed(env, files0, steps, r)
    && TookAll(env, files0, r.log)
    && (r.outcome.RolledBack? ==> LeaksStay(env, files0, steps, r.world.files, r.snaps, r.log))
  }

  ghost predicate EndsFramed(env: Env, files0: Files, steps: seq<string>, r: Run) {
    && LogOf(env, steps, r.log)
    && Tabled(files0, r.snaps, r.log)
    && (forall p | !IsBackup(p) :: p in r.world.files <==> p in files0)
    && match r.outcome
       case Succeeded => |r.log| == |steps| && AllEdited(r.log) && Framed(env, files0, r.world.files, r.log)
       case RolledBack(k) => k < |steps| && RolledBackTo(files0, r.world.files, r.snaps, r.log)
       case Raised(k) => k < |steps| && Framed(env, files0, r.world.files, r.log)
       case Delegated(k) => k < |steps| && Framed(env, files0, r.world.files, r.log)
  }

  lemma {:induction false} RunKeepsInvariant(env: Env, files0: Files, steps: seq<string>, i: nat, w: World,
                                             snaps: Snaps, log: seq<Effect>)
    requires i <= |steps| && |log| == i && AllEdited(log) && LogOf(env, steps, log)
    requires Framed(env, files0, w.files, log) && Tabled(files0, snaps, log)
    ensures EndsFramed(env, files0, steps, RunFrom(env, steps, i, w, snaps, log))
    decreases |steps| - i
  {
    hide RunStep, Capture, ReadSnapshot, Framed, Tabled, Changed, ParseText, Resolve, Restored, StripBy, IsSpace, IsBackup, RolledBackTo, Targets, Leaks;
    FramedNames(env, files0, w.files, log);
    if i < |steps| && env.validates(Strip(steps[i])) {
      var captured := Capture(env, w.files, snaps, steps[i]);
      if captured.None? {
        RollbackRestores(env, files0, w.files, snaps, log);
      } else {
        var r := RunStep(env, i, w, steps[i]);
        var log' := log + [r.effect];
        StepFrame(env, i, w, steps[i]);
        FrameStep(env, files0, w.files, r.world.files, log, r.effect);
        TableStep(env, files0, w.files, snaps, log, steps[i]);
        CapturedTarget(env, i, w, snaps, steps[i]);
        TableGrows(files0, captured.value, log, r.effect);
        FramedNames(env, files0, r.world.files, log');
        assert Strip(Strip(steps[i])) == Strip(steps[i]);
        RollbackRestores(env, files0, r.world.files, captured.value, log');
        if r.status.StepOk? {
          RunKeepsInvariant(env, files0, steps, i + 1, r.world, captured.value, log');
        }
      }
    }
  }

  lemma FramedNames(env: Env, files0: Files, files: Files, log: seq<Effect>)
    requires Framed(env, files0, files, log)
    ensures forall p | !IsBackup(p) :: p in files <==> p in files0
  {}

  /** Every run, on every file system and with every verifier: a success leaves in each file the fold
      of the steps' pure edits; a rollback leaves every file outside the leaks as it was, and a leaked one as
      its repairs left it; and a run cut short by an exception leaves the fold of the steps made so far. Every
      edit and repair in the log was accepted on the text it met. Nothing but backups appears. */
  lemma TransactionOutcome(env: Env, w: World, steps: seq<string>)
    ensures EndsWell(env, w.files, steps, RunTransaction(env, w, steps))
  {
    hide Framed, Tabled, EndsFramed, TookAll, LeaksStay, RunFrom;
    InvariantAtStart(env, w.files);
    RunKeepsInvariant(env, w.files, steps, 0, w, map[], []);
    NothingTaken(env, w.files);
    RunTakes(env, w.files, steps, 0, w, map[], []);
    NothingLeaked(env, w.files, steps);
    RunLeaves(env, w.files, steps, 0, w, map[], []);
  }

  // ---- Success means that verification passed ----

  /** The commands that were run last on these files, just before the clock's last tick, all passed. */
  ghost predicate Passed(env: Env, k: nat, w: World) {
    w.clock > 0 && forall x | x in env.verify(k, w.clock - 1, w.files) :: x.ok
  }

  /** A step whose edit went in, and which does not raise, is ok exactly when the last verification of the files
      it leaves has passed, before or after a repair; without an edit no step is ok. */
  lemma StepVerdict(env: Env, k: nat, w: World, task: string)
    ensures var r := RunStep(env, k, w, task);
            && (r.effect.Edited? && !r.status.StepRaised? ==> (r.status.StepOk? <==> Passed(env, k, r.world)))
            && (r.status.StepOk? ==> r.effect.Edited?)
  {
    hide DirectReplace, VerifyStep, ParseText, StripBy, Resolve, Passed;
    var edit := ParseReplaceTask(Strip(task));
    if edit.Some? {
      var (w1, status) := DirectReplace(env, w, edit.value);
      if status.Applied? { VerifyVerdict(env, k, w1, status.target, edit.value); }
    }
  }

  lemma VerifyVerdict(env: Env, k: nat, w: World, target: Path, edit: Parsed)
    ensures var r := VerifyStep(env, k, w, target, edit);
            && r.effect.Edited?
            && (!r.status.StepRaised? ==> (r.status.StepOk? <==> Passed(env, k, r.world)))
  {
    hide RepairIndentation, Resolve, AllOk, Passed, ReadSnapshot, IsBackup, Repair1;
    PassedWhen(env, k, w);
    var failure := FirstIndentation(env.verify(k, w.clock, w.files));
    if failure.Some? {
      var file := if failure.value.stderrFile != "" then failure.value.stderrFile else edit.filePath;
      RepairStepFrame(env, Tick(w), file);
      PassedWhen(env, k, RepairIndentation(env, Tick(w), file).0);
    }
  }

  lemma PassedWhen(env: Env, k: nat, w: World)
    ensures Passed(env, k, Tick(w)) <==> AllOk(env.verify(k, w.clock, w.files))
  {}

  /** In a run of the first steps, step `k` has passed verification on the files it left. */
  ghost predicate PassedAt(env: Env, w: World, steps: seq<string>, k: nat)
    requires k < |steps|
  {
    Passed(env, k, RunTransaction(env, w, steps[..k + 1]).world)
  }

  lemma LastStepPassed(env: Env, steps: seq<string>, w: World, snaps: Snaps, log: seq<Effect>)
    requires steps != []
    ensures var k := |steps| - 1;
            var r := RunFrom(env, steps, k, w, snaps, log);
            r.outcome.Succeeded? ==> r.world == RunStep(env, k, w, steps[k]).world && Passed(env, k, r.world)
  {
    hide RunStep, Capture, Strip, Restored, Passed;
    StepVerdict(env, |steps| - 1, w, steps[|steps| - 1]);
  }

  /** In a run that succeeds every step has passed verification on the files it left. */
  lemma SuccessIsVerified(env: Env, w: World, steps: seq<string>, k: nat)
    requires RunTransaction(env, w, steps).outcome.Succeeded? && k < |steps|
    ensures var r := RunTransaction(env, w, steps[..k + 1]); r.outcome.Succeeded? && Passed(env, k, r.world)
  {
    hide RunFrom, Passed;
    RunSplit(env, steps, k + 1, 0, w, map[], []);
    var init := steps[..k + 1];
    assert init[..k] == steps[..k];
    RunSplit(env, init, k, 0, w, map[], []);
    var before := RunTransaction(env, w, init[..k]);
    LastStepPassed(env, init, before.world, before.snaps, before.log);
  }

  lemma NothingTaken(env: Env, files: Files)
    ensures TookAll(env, files, []) && LogOf(env, [], [])
  {}

  lemma InvariantAtStart(env: Env, files: Files)
    ensures Framed(env, files, files, []) && Tabled(files, map[], [])
  {
    forall p | p in files && !IsBackup(p) ensures ReadsAs(env, files, files, p, []) {}
  }

  /** Steps that pass the screening and are in the controlled format. */
  predicate Accepted(env: Env, steps: seq<string>) {
    forall k | 0 <= k < |steps| ::
      env.validates(Strip(steps[k])) && ParseReplaceTask(steps[k]).Some? && ParseReplaceTask(steps[k]).value.filePath != ""
  }

  /** The file is the target of one of the steps up to `k`. */
  predicate IsTargetSoFar(env: Env, steps: seq<string>, k: nat, file: string) {
    exists j | 0 <= j <= k && j < |steps| ::
      StepTarget(env, steps[j]).Some? && Resolve(env, file) == StepTarget(env, steps[j])
  }

  /** While step `k` is verified, no file is blamed but the targets so far. */
  ghost predicate BlamesTargets(env: Env, steps: seq<string>, k: nat) {
    forall tick: nat, files: Files, r | r in env.verify(k, tick, files) && r.indentation && r.stderrFile != "" ::
      IsTargetSoFar(env, steps, k, r.stderrFile)
  }

  lemma BlamedIsTarget(env: Env, steps: seq<string>, i: nat, log: seq<Effect>, file: string)
    requires i < |steps| && |log| == i && AllEdited(log) && LogOf(env, steps, log)
    requires IsTargetSoFar(env, steps, i, file)
    ensures Resolve(env, file).Some?
    ensures Resolve(env, file).value in Targets(log) || Resolve(env, file) == StepTarget(env, steps[i])
  {
    hide Resolve, ParseReplaceTask;
    var j :| 0 <= j <= i && j < |steps| && StepTarget(env, steps[j]).Some? && Resolve(env, file) == StepTarget(env, steps[j]);
    if j < i {
      assert log[j] in log;
      TargetInLog(log, j);
    }
  }

  /** A step whose verification blames only known files neither raises nor leaks. */
  lemma OwnRepair(env: Env, k: nat, w: World, snaps: Snaps, task: string, known: set<Path>)
    requires env.validates(Strip(task)) && ParseReplaceTask(task).Some? && ParseReplaceTask(task).value.filePath != ""
    requires Capture(env, w.files, snaps, task).Some?
    requires forall p | p in snaps && p in w.files :: Reading(w.files, p).Some?
    requires forall p | p in known :: p in w.files && !IsBackup(p) && Reading(w.files, p).Some?
    requires BlamesKnown(env, k, task, known)
    ensures var r := RunStep(env, k, w, task);
            && (r.status.StepOk? || r.status.StepFailed?)
            && (r.effect.Edited? && r.effect.repair.Some? ==> RepairPath(r.effect) in known || RepairPath(r.effect) == r.effect.target)
  {
    hide ReadSnapshot, ParseText, ResolveTarget, StripBy, IsSpace, RepairIndentation, IsBackup, Changed, EditText, BlamesKnown;
    var edit := ParseReplaceTask(task).value;
    assert Strip(Strip(task)) == Strip(task);
    DirectFrame(env, w, edit);
    var (w1, status) := DirectReplace(env, w, edit);
    if status.Applied? {
      SameNames(env, w.files, w1.files, Edited(status.target, edit, None));
      StillReadable(env, w.files, w1.files, Edited(status.target, edit, None));
      OwnVerify(env, k, w.files, w1, status.target, edit, task, known);
    }
  }

  /** Every file that is blamed while `task` is verified is known or its own target. */
  ghost predicate BlamesKnown(env: Env, k: nat, task: string, known: set<Path>) {
    forall tick: nat, files: Files, r | r in env.verify(k, tick, files) && r.indentation && r.stderrFile != "" ::
      && Resolve(env, r.stderrFile).Some?
      && (Resolve(env, r.stderrFile).value in known || Resolve(env, r.stderrFile) == StepTarget(env, task))
  }

  lemma OwnVerify(env: Env, k: nat, files: Files, w1: World, target: Path, edit: Parsed, task: string, known: set<Path>)
    requires Changed(env, files, w1.files, Edited(target, edit, None))
    requires Resolve(env, edit.filePath) == Some(target) && StepTarget(env, task) == Some(target)
    requires BlamesKnown(env, k, task, known)
    requires forall p | p in known :: p in w1.files && Reading(w1.files, p).Some?
    ensures var r := VerifyStep(env, k, w1, target, edit);
            && (r.status.StepOk? || r.status.StepFailed?)
            && r.effect.Edited? && r.effect.target == target
            && (r.effect.repair.Some? ==> RepairPath(r.effect) in known || RepairPath(r.effect) == target)
  {
    hide ReadSnapshot, ResolveTarget, RepairText, IsBackup, Edit1, Settle, StepTarget;
    assert target in w1.files && Reading(w1.files, target).Some?;
  }

  /** All or nothing: when every step passes screening and parses, and verification blames no file but the
      targets so far, a run ends in one of two ways. It succeeds: every step's edit, and every repair, was
      accepted on the text it met, no repair left the targets, and every file reads as the fold of the pure
      edits; and verification passed after every step. Or it fails, and every file reads as before. Only backups
      are ever added. */
  lemma AllOrNothing(env: Env, w: World, steps: seq<string>)
    requires Accepted(env, steps)
    requires forall k | 0 <= k < |steps| :: BlamesTargets(env, steps, k)
    ensures var r := RunTransaction(env, w, steps);
            && (forall p | !IsBackup(p) :: p in r.world.files <==> p in w.files)
            && match r.outcome
               case Succeeded =>
                 && |r.log| == |steps| && AllEdited(r.log) && LogOf(env, steps, r.log)
                 && TookAll(env, w.files, r.log) && Leaks(r.log) == {}
                 && (forall k | 0 <= k < |steps| :: PassedAt(env, w, steps, k))
                 && forall p | p in w.files && !IsBackup(p) :: ReadsAs(env, w.files, r.world.files, p, r.log)
               case RolledBack(_) =>
                 && forall p | p in w.files && !IsBackup(p) ::
                      && BackAsBefore(w.files, r.world.files, p)
                      && (r.world.files[p] == w.files[p] <==> p !in r.snaps || RestoresExactly(w.files[p]))
               case _ => false
  {
    hide TookAll, LeaksStay, Passed;
    InvariantAtStart(env, w.files);
    TransactionOutcome(env, w, steps);
    NoLeaks(env, w.files, steps, 0, w, map[], []);
    if RunTransaction(env, w, steps).outcome.Succeeded? {
      forall k | 0 <= k < |steps| ensures PassedAt(env, w, steps, k) {
        SuccessIsVerified(env, w, steps, k);
      }
    }
  }

  lemma {:induction false} NoLeaks(env: Env, files0: Files, steps: seq<string>, i: nat, w: World,
                                   snaps: Snaps, log: seq<Effect>)
    requires i <= |steps| && |log| == i && AllEdited(log) && LogOf(env, steps, log) && Accepted(env, steps)
    requires forall k | 0 <= k < |steps| :: BlamesTargets(env, steps, k)
    requires Framed(env, files0, w.files, log) && Tabled(files0, snaps, log) && Leaks(log) == {}
    ensures var r := RunFrom(env, steps, i, w, snaps, log);
            Leaks(r.log) == {} && (r.outcome.Succeeded? || r.outcome.RolledBack?)
    decreases |steps| - i
  {
    hide RunStep, Capture, ReadSnapshot, Framed, Tabled, Changed, ParseText, Resolve, Restored, StripBy, IsSpace, IsBackup, BlamesTargets, BlamesKnown, Targets, Leaks, Fold;
    if i < |steps| {
      assert env.validates(Strip(steps[i]));
      var captured := Capture(env, w.files, snaps, steps[i]);
      if captured.Some? {
        var r := RunStep(env, i, w, steps[i]);
        var log' := log + [r.effect];
        TabledReads(env, files0, w.files, snaps, log);
        TargetsAreKnown(env, files0, w.files, snaps, log);
        BlamesAreKnown(env, steps, i, log);
        OwnRepair(env, i, w, snaps, steps[i], Targets(log));
        FoldSnoc(env, [], "", log, r.effect);
        if r.status.StepOk? {
          StepFrame(env, i, w, steps[i]);
          assert Strip(Strip(steps[i])) == Strip(steps[i]);
          FrameStep(env, files0, w.files, r.world.files, log, r.effect);
          TableStep(env, files0, w.files, snaps, log, steps[i]);
          CapturedTarget(env, i, w, snaps, steps[i]);
          TableGrows(files0, captured.value, log, r.effect);
          NoLeaks(env, files0, steps, i + 1, r.world, captured.value, log');
        }
      }
    }
  }

  lemma TargetsAreKnown(env: Env, files0: Files, files: Files, snaps: Snaps, log: seq<Effect>)
    requires Framed(env, files0, files, log) && Tabled(files0, snaps, log)
    ensures forall p | p in Targets(log) :: p in files && !IsBackup(p) && Reading(files, p).Some?
  {
    hide Targets, Leaks, Fold, ReadSnapshot, IsBackup;
    forall p | p in Targets(log) ensures p in files && !IsBackup(p) && Reading(files, p).Some? {
      assert p in snaps && ReadsAs(env, files0, files, p, log);
    }
  }

  lemma BlamesAreKnown(env: Env, steps: seq<string>, i: nat, log: seq<Effect>)
    requires i < |steps| && |log| == i && AllEdited(log) && LogOf(env, steps, log) && BlamesTargets(env, steps, i)
    ensures BlamesKnown(env, i, steps[i], Targets(log))
  {
    hide Resolve, ParseReplaceTask, Targets, IsTargetSoFar;
    forall tick: nat, files: Files, r | r in env.verify(i, tick, files) && r.indentation && r.stderrFile != ""
      ensures Resolve(env, r.stderrFile).Some?
      ensures Resolve(env, r.stderrFile).value in Targets(log) || Resolve(env, r.stderrFile) == StepTarget(env, steps[i])
    {
      BlamedIsTarget(env, steps, i, log, r.stderrFile);
    }
  }

  lemma TabledReads(env: Env, files0: Files, files: Files, snaps: Snaps, log: seq<Effect>)
    requires Framed(env, files0, files, log) && Tabled(files0, snaps, log)
    ensures forall p | p in snaps && p in files :: Reading(files, p).Some?
  {
    forall p | p in snaps && p in files ensures Reading(files, p).Some? {
      assert ReadsAs(env, files0, files, p, log);
    }
  }

  // ---- When a run is neither ----

  /** A run is the run of its first steps, continued from where that ends when it succeeds. */
  lemma {:induction false} RunSplit(env: Env, steps: seq<string>, k: nat, i: nat, w: World, snaps: Snaps, log: seq<Effect>)
    requires i <= k <= |steps|
    ensures var before := RunFrom(env, steps[..k], i, w, snaps, log);
            RunFrom(env, steps, i, w, snaps, log) ==
            if before.outcome.Succeeded? then RunFrom(env, steps, k, before.world, before.snaps, before.log) else before
    decreases k - i
  {
    hide RunStep, Capture, Strip, Restored;
    if i < k && env.validates(Strip(steps[i])) {
      assert steps[..k][i] == steps[i];
      var captured := Capture(env, w.files, snaps, steps[i]);
      if captured.Some? {
        var r := RunStep(env, i, w, steps[i]);
        if r.status.StepOk? {
          RunSplit(env, steps, k, i + 1, r.world, captured.value, log + [r.effect]);
        }
      }
    }
  }

  /** A step that fails the screening ends the run exactly as if the earlier steps were all there is, except
      that success turns into an exception: what those steps wrote stays, with no rollback. */
  lemma RejectedStep(env: Env, w: World, steps: seq<string>, k: nat)
    requires k < |steps| && !env.validates(Strip(steps[k]))
    ensures var before := RunTransaction(env, w, steps[..k]);
            RunTransaction(env, w, steps) ==
            if before.outcome.Succeeded? then before.(outcome := Raised(k)) else before
  {
    hide RunStep, Capture, Strip, Restored;
    RunSplit(env, steps, k, 0, w, map[], []);
    var before := RunTransaction(env, w, steps[..k]);
    assert RunFrom(env, steps, k, before.world, before.snaps, before.log) == Run(Raised(k), before.world, before.snaps, before.log);
  }

  // ---- A single step is not a transaction ----

  /** A plan of at most one step runs alone, without snapshots and without a rollback. */
  datatype PlanRun = Alone(step: StepResult) | Together(run: Run)

  function RunPlan(env: Env, w: World, task: string, steps: seq<string>): PlanRun {
    if |steps| <= 1 then Alone(RunStep(env, 0, w, if steps == [] then task else steps[0]))
    else Together(RunTransaction(env, w, steps))
  }

  /** Whatever the verdict on a single step, its own edit, where it was accepted, stays: the files read as the
      fold of what was done. */
  lemma SingleStepKeepsItsEdit(env: Env, w: World, task: string, steps: seq<string>)
    requires |steps| <= 1
    ensures var text := if steps == [] then task else steps[0];
            var r := RunPlan(env, w, task, steps);
            && r.Alone?
            && Framed(env, w.files, r.step.world.files, [r.step.effect])
            && LogOf(env, [text], [r.step.effect]) && TookAll(env, w.files, [r.step.effect])
            && LeakFiles(w.files, r.step.world.files, [r.step.effect])
  {
    hide RunStep, Framed, TookAll, ParseText, Resolve, StripBy, IsSpace, Changed, IsBackup, Granted, LeakFiles, TextOf;
    var text := if steps == [] then task else steps[0];
    var r := RunStep(env, 0, w, text);
    InvariantAtStart(env, w.files);
    NothingTaken(env, w.files);
    NothingLeaked(env, w.files, steps);
    StepFrame(env, 0, w, text);
    StepGranted(env, 0, w, text);
    RepairedIsThere(env, 0, w, text);
    FrameStep(env, w.files, w.files, r.world.files, [], r.effect);
    TookStep(env, w.files, w.files, r.world.files, [], r.effect);
    LeakFilesStep(env, w.files, w, 0, text, []);
    assert [] + [r.effect] == [r.effect];
    assert Strip(Strip(text)) == Strip(text);
  }

  // ---- One printed edit, from its sentence to the file ----

  function TargetOf(env: Env, path: string): Path { env.root + Components(Split(path, '/')) }

  /** The file's text with the one occurrence of the old block, at line `start`, replaced. */
  function Replaced(before: string, oldText: string, newText: string, start: nat): string
    requires InLines(At(start, |TextLines(oldText)|, ExactBlock), SplitKeepStyle(before).lines)
  {
    var k := SplitKeepStyle(before);
    JoinKeepStyle(Rewrite(k.lines, At(start, |TextLines(oldText)|, ExactBlock), newText), k.newline, k.finalNewline)
  }

  ghost predicate Printable(path: string, oldText: string, newText: string) {
    PlainSubject(path) && Settled(path) && PlainText(oldText) && PlainText(newText)
  }

  /** The target is safe and readable, the old block stands in it once, and neither the screening, nor the
      size limit, nor the parser objects. */
  ghost predicate Ready(env: Env, w: World, path: string, oldText: string, newText: string, start: nat) {
    var target := TargetOf(env, path);
    var before := TextOf(w.files, target);
    var lines := SplitKeepStyle(before).lines;
    && env.validates(Strip(MakeReplaceTask(path, oldText, newText)))
    && IsSafeTarget(path, env.allowCore)
    && target in w.files && Reading(w.files, target).Some?
    && TextLines(oldText) != [""] && UniqueBlock(lines, TextLines(oldText), Whole, start)
    && InLines(At(start, |TextLines(oldText)|, ExactBlock), lines)
    && env.tools.sizeOk(lines, Rewrite(lines, At(start, |TextLines(oldText)|, ExactBlock), newText))
    && AstOk(env.tools, IsPython(path), before, Replaced(before, oldText, newText, start), start + 1, oldText)
  }

  /** Whether writing the text, without a mark, leaves the file reading as it did; an equal text is not written. */
  predicate LooksTheSame(files: Files, p: Path, after: string)
    requires p in files && Reading(files, p).Some?
  {
    after == TextOf(files, p) || (Settle(after) == TextOf(files, p) && !Reading(files, p).value.hadBom)
  }

  /** The edit is in the file, nothing else but a backup has changed, and the file reads as before exactly when
      the replaced text looks the same. */
  ghost predicate EditIsIn(env: Env, w: World, files: Files, path: string, oldText: string, newText: string, start: nat)
    requires Ready(env, w, path, oldText, newText, start)
  {
    var target := TargetOf(env, path);
    var after := Replaced(TextOf(w.files, target), oldText, newText, start);
    && target in files && TextOf(files, target) == Settle(after)
    && (BackAsBefore(w.files, files, target) <==> LooksTheSame(w.files, target, after))
    && (forall p | !IsBackup(p) :: p in files <==> p in w.files)
    && (forall p | p in w.files && !IsBackup(p) && p != target :: files[p] == w.files[p])
  }

  lemma PrintedResolves(env: Env, path: string)
    requires Settled(path) && IsSafeTarget(path, env.allowCore)
    ensures Resolve(env, path) == Some(TargetOf(env, path)) && TargetOf(env, path) != [] && !IsBackup(TargetOf(env, path))
  {
    hide Settled, NormalizePath, IsSafeTarget, Split, Components, ResolveTarget, IsBackup;
    SettledIffUnchanged(path);
    ResolveSettled(env.root, path, env.allowCore);
    var r := Resolve(env, path);
    assert r.Some?;
  }

  lemma DirectPrinted(env: Env, w: World, path: string, oldText: string, newText: string, start: nat)
    requires Settled(path) && Ready(env, w, path, oldText, newText, start)
    ensures var (w', status) := DirectReplace(env, w, Parsed(path, "", oldText, newText, Plain));
            status == Applied(TargetOf(env, path)) && EditIsIn(env, w, w'.files, path, oldText, newText, start)
  {
    hide ReadSnapshot, SplitKeepStyle, UniqueBlock, EditText, IsSafeTarget, Rewrite, TextLines, AstOk, Settled, Resolve, IsPython, Overwrite, Settle, IsBackup, InLines;
    PrintedResolves(env, path);
    var target := TargetOf(env, path);
    var before := TextOf(w.files, target);
    UniqueIsEdited(env.tools, path, before, oldText, newText, start);
    var after := Replaced(before, oldText, newText, start);
    if after == before {
      SnapshotIsSettled(w.files[target]);
    } else {
      OverwriteFrame(env, w, target, Reading(w.files, target).value, after, DIRECT_TAG);
    }
  }

  lemma PrintedParses(path: string, oldText: string, newText: string)
    requires Printable(path, oldText, newText)
    ensures var task := MakeReplaceTask(path, oldText, newText);
            && ParseReplaceTask(Strip(task)) == Some(Parsed(path, "", oldText, newText, Plain))
            && ParseReplaceTask(task) == ParseReplaceTask(Strip(task))
  {
    hide Settled, PlainText, Reads, ParseText, StripBy, IsSpace, MakeReplaceTask;
    ParseUndoesPrintIff(path, oldText, newText);
    var task := MakeReplaceTask(path, oldText, newText);
    assert Strip(Strip(task)) == Strip(task);
  }

  lemma ReadyScreens(env: Env, w: World, path: string, oldText: string, newText: string, start: nat)
    requires Printable(path, oldText, newText) && Ready(env, w, path, oldText, newText, start)
    ensures env.validates(Strip(MakeReplaceTask(path, oldText, newText))) && Settled(path)
    ensures IsSafeTarget(path, env.allowCore)
  {
    hide Settled, IsSafeTarget, UniqueBlock, AstOk, InLines, Reading;
  }

  /** The step of a printed edit is that edit, followed by its verification. */
  lemma PrintedStep(env: Env, k: nat, w: World, path: string, oldText: string, newText: string, start: nat)
    requires Printable(path, oldText, newText) && Ready(env, w, path, oldText, newText, start)
    ensures var edit := Parsed(path, "", oldText, newText, Plain);
            var w1 := DirectReplace(env, w, edit).0;
            && RunStep(env, k, w, MakeReplaceTask(path, oldText, newText)) == VerifyStep(env, k, w1, TargetOf(env, path), edit)
            && EditIsIn(env, w, w1.files, path, oldText, newText, start)
  {
    hide ReadSnapshot, Ready, Printable, DirectReplace, ParseReplaceTask, MakeReplaceTask, Strip, EditIsIn, VerifyStep;
    PrintedParses(path, oldText, newText);
    ReadyScreens(env, w, path, oldText, newText, start);
    DirectPrinted(env, w, path, oldText, newText, start);
  }

  /** A printed edit of a block that stands once in a safe file does what it says: when verification passes,
      its step succeeds, and the file reads as its text with that block replaced, indented as it was. */
  lemma PrintedEditRuns(env: Env, k: nat, w: World, path: string, oldText: string, newText: string, start: nat)
    requires Printable(path, oldText, newText) && Ready(env, w, path, oldText, newText, start)
    requires forall tick: nat, files: Files :: AllOk(env.verify(k, tick, files))
    ensures var r := RunStep(env, k, w, MakeReplaceTask(path, oldText, newText));
            r.status == StepOk && EditIsIn(env, w, r.world.files, path, oldText, newText, start)
  {
    hide Ready, Printable, DirectReplace, MakeReplaceTask, EditIsIn, AllOk, RunStep;
    PrintedStep(env, k, w, path, oldText, newText, start);
    var w1 := DirectReplace(env, w, Parsed(path, "", oldText, newText, Plain)).0;
    assert AllOk(env.verify(k, w1.clock, w1.files));
  }

  /** The same edit as a plan of its own, when verification fails without blaming an indentation: the verdict is
      a failure, and the edit is in the file all the same. */
  lemma FailedPlanKeepsEdit(env: Env, w: World, path: string, oldText: string, newText: string, start: nat)
    requires Printable(path, oldText, newText) && Ready(env, w, path, oldText, newText, start)
    requires forall tick: nat, files: Files ::
               !AllOk(env.verify(0, tick, files)) && FirstIndentation(env.verify(0, tick, files)) == None
    ensures var task := MakeReplaceTask(path, oldText, newText);
            var r := RunPlan(env, w, task, [task]);
            r.Alone? && r.step.status == StepFailed && EditIsIn(env, w, r.step.world.files, path, oldText, newText, start)
  {
    hide Ready, Printable, DirectReplace, MakeReplaceTask, EditIsIn, AllOk, RunStep, FirstIndentation;
    PrintedStep(env, 0, w, path, oldText, newText, start);
    var w1 := DirectReplace(env, w, Parsed(path, "", oldText, newText, Plain)).0;
    assert !AllOk(env.verify(0, w1.clock, w1.files));
  }

  /** Where all-or-nothing fails: the same edit followed by a step that fails the screening ends in an
      exception with the edit in the file, which so reads as before only if the edit looks the same. */
  lemma RejectionKeepsEdit(env: Env, w: World, path: string, oldText: string, newText: string, start: nat, rejected: string)
    requires Printable(path, oldText, newText) && Ready(env, w, path, oldText, newText, start)
    requires forall tick: nat, files: Files :: AllOk(env.verify(0, tick, files))
    requires !env.validates(Strip(rejected))
    ensures var r := RunTransaction(env, w, [MakeReplaceTask(path, oldText, newText), rejected]);
            r.outcome == Raised(1) && EditIsIn(env, w, r.world.files, path, oldText, newText, start)
  {
    hide Ready, Printable, RunStep, Strip, EditIsIn, Capture, MakeReplaceTask, AllOk, RunTransaction, TargetOf, TextOf, ReadSnapshot;
    var task := MakeReplaceTask(path, oldText, newText);
    PrintedEditRuns(env, 0, w, path, oldText, newText, start);
    ReadyScreens(env, w, path, oldText, newText, start);
    ReadyCaptures(env, w, path, oldText, newText, start);
    ThenRejected(env, w, task, rejected);
  }

  lemma ThenRejected(env: Env, w: World, task: string, rejected: string)
    requires env.validates(Strip(task)) && Capture(env, w.files, map[], task).Some? && RunStep(env, 0, w, task).status == StepOk
    requires !env.validates(Strip(rejected))
    ensures var r := RunTransaction(env, w, [task, rejected]);
            r.outcome == Raised(1) && r.world == RunStep(env, 0, w, task).world
  {
    hide RunStep, Strip, Capture, RunTransaction;
    OneStepRun(env, w, task);
    RejectedStep(env, w, [task, rejected], 1);
    assert [task, rejected][..1] == [task];
  }

  lemma ReadyCaptures(env: Env, w: World, path: string, oldText: string, newText: string, start: nat)
    requires Printable(path, oldText, newText) && Ready(env, w, path, oldText, newText, start)
    ensures var target := TargetOf(env, path);
            && target in w.files && Reading(w.files, target).Some?
            && var s := Reading(w.files, target).value;
               Capture(env, w.files, map[], MakeReplaceTask(path, oldText, newText)) == Some(map[target := Saved(s.content, s.hadBom)])
  {
    hide Settled, IsSafeTarget, UniqueBlock, AstOk, InLines, ParseReplaceTask, MakeReplaceTask, ReadSnapshot, Resolve, Strip, TargetOf, PlainText, PlainSubject;
    PrintedParses(path, oldText, newText);
    ReadyScreens(env, w, path, oldText, newText, start);
    PrintedResolves(env, path);
    EmptyPathUnsafe(env);
    CaptureOf(env, w.files, MakeReplaceTask(path, oldText, newText), Parsed(path, "", oldText, newText, Plain), TargetOf(env, path));
  }

  lemma CaptureOf(env: Env, files: Files, task: string, edit: Parsed, target: Path)
    requires ParseReplaceTask(task) == Some(edit) && edit.filePath != "" && Resolve(env, edit.filePath) == Some(target)
    requires target in files && Reading(files, target).Some?
    ensures var s := Reading(files, target).value;
            Capture(env, files, map[], task) == Some(map[target := Saved(s.content, s.hadBom)])
  {
    hide ParseReplaceTask, ReadSnapshot, Resolve;
    var s := Reading(files, target).value;
    assert map[][target := Saved(s.content, s.hadBom)] == map[target := Saved(s.content, s.hadBom)];
  }

  lemma OneStepRun(env: Env, w: World, task: string)
    requires env.validates(Strip(task)) && Capture(env, w.files, map[], task).Some? && RunStep(env, 0, w, task).status == StepOk
    ensures RunTransaction(env, w, [task]).outcome == Succeeded
    ensures RunTransaction(env, w, [task]).world == RunStep(env, 0, w, task).world
  {
    hide RunStep, Capture, Strip;
    var r := RunStep(env, 0, w, task);
    var snaps := Capture(env, w.files, map[], task).value;
    assert [task][0] == task && |[task]| == 1;
    assert RunFrom(env, [task], 1, r.world, snaps, [r.effect]) == Run(Succeeded, r.world, snaps, [r.effect]);
    assert [] + [r.effect] == [r.effect];
    assert RunFrom(env, [task], 0, w, map[], []) == RunFrom(env, [task], 1, r.world, snaps, [r.effect]);
  }

  // ---- A leak ----

  /** The verifier keeps failing and blames the indentation of `file`, which is another file than the edit's
      and whose repair is accepted. */
  ghost predicate BlamesOther(env: Env, w: World, target: Path, file: string, other: Path) {
    && file != "" && Resolve(env, file) == Some(other) && other != target
    && other in w.files && Reading(w.files, other).Some?
    && RepairText(env.tools, file, TextOf(w.files, other)).Some?
    && forall tick: nat, files: Files ::
         && !AllOk(env.verify(0, tick, files))
         && FirstIndentation(env.verify(0, tick, files)).Some?
         && FirstIndentation(env.verify(0, tick, files)).value.stderrFile == file
  }

  /** Such a run of several steps fails at its first one and is rolled back: the edited file reads as before, and
      the other file as repaired, so as before exactly when the repair changes nothing that reading shows. */
  lemma RollbackLeavesLeak(env: Env, w: World, path: string, oldText: string, newText: string, start: nat,
                           more: seq<string>, file: string, other: Path)
    requires Printable(path, oldText, newText) && Ready(env, w, path, oldText, newText, start)
    requires BlamesOther(env, w, TargetOf(env, path), file, other)
    ensures var r := RunTransaction(env, w, [MakeReplaceTask(path, oldText, newText)] + more);
            && r.outcome == RolledBack(0) && Leaks(r.log) == {other}
            && TargetOf(env, path) in r.world.files && BackAsBefore(w.files, r.world.files, TargetOf(env, path))
            && other in r.world.files && TextOf(r.world.files, other) == Repair1(env, TextOf(w.files, other), file)
            && (BackAsBefore(w.files, r.world.files, other) <==>
                  Repair1(env, TextOf(w.files, other), file) == TextOf(w.files, other) && !Reading(w.files, other).value.hadBom)
  {
    hide Ready, Printable, RunStep, Strip, EditIsIn, MakeReplaceTask, ReadSnapshot, Resolve, TargetOf, Repair1, IsBackup, DirectReplace, Capture, RunTransaction, Restored, BlamesOther, BackAsBefore;
    var task, target := MakeReplaceTask(path, oldText, newText), TargetOf(env, path);
    ReadyScreens(env, w, path, oldText, newText, start);
    ReadyCaptures(env, w, path, oldText, newText, start);
    LeakingStep(env, w, path, oldText, newText, start, file, other);
    var r := RunStep(env, 0, w, task);
    var saved := Saved(Reading(w.files, target).value.content, Reading(w.files, target).value.hadBom);
    FailingFirst(env, w, task, more, map[target := saved]);
    OtherIsOther(env, w, target, file, other);
    OneEffect(r.effect);
    OneRestored(w.files, r.world.files, target, saved, other);
  }

  lemma OtherIsOther(env: Env, w: World, target: Path, file: string, other: Path)
    requires BlamesOther(env, w, target, file, other)
    ensures other != target && other in w.files && Reading(w.files, other).Some?
  {
    hide ReadSnapshot, RepairText, Resolve, AllOk, FirstIndentation;
  }

  lemma FailingFirst(env: Env, w: World, task: string, more: seq<string>, snaps: Snaps)
    requires env.validates(Strip(task)) && Capture(env, w.files, map[], task) == Some(snaps)
    requires RunStep(env, 0, w, task).status == StepFailed
    ensures var r := RunStep(env, 0, w, task);
            RunTransaction(env, w, [task] + more) ==
            Run(RolledBack(0), r.world.(files := Restored(r.world.files, snaps)), snaps, [r.effect])
  {
    hide RunStep, Capture, Strip, Restored;
    var steps := [task] + more;
    assert steps[0] == task && [] + [RunStep(env, 0, w, task).effect] == [RunStep(env, 0, w, task).effect];
  }

  // The rollback of one recorded file, and what it leaves of another one.
  lemma OneRestored(files0: Files, files: Files, target: Path, saved: Saved, other: Path)
    requires target in files0 && Reading(files0, target).Some? && other in files0 && Reading(files0, other).Some?
    requires saved == Saved(Reading(files0, target).value.content, Reading(files0, target).value.hadBom)
    requires other in files && other != target && Reading(files, other).Some? && !Reading(files, other).value.hadBom
    ensures var files' := Restored(files, map[target := saved]);
            && target in files' && BackAsBefore(files0, files', target)
            && other in files' && TextOf(files', other) == TextOf(files, other)
            && (BackAsBefore(files0, files', other) <==>
                  TextOf(files, other) == TextOf(files0, other) && !Reading(files0, other).value.hadBom)
  {
    hide ReadSnapshot, WriteText, RestoresExactly;
    RestoredFile(files0[target], saved);
  }

  lemma OneEffect(effect: Effect)
    requires effect.Edited? && effect.repair.Some? && effect.repair.value.target != effect.target
    ensures Leaks([effect]) == {effect.repair.value.target}
  {
    assert [effect][..0] == [];
    assert Targets([effect]) == {effect.target};
  }

  lemma LeakingStep(env: Env, w: World, path: string, oldText: string, newText: string, start: nat, file: string, other: Path)
    requires Printable(path, oldText, newText) && Ready(env, w, path, oldText, newText, start)
    requires BlamesOther(env, w, TargetOf(env, path), file, other)
    ensures var r := RunStep(env, 0, w, MakeReplaceTask(path, oldText, newText));
            && r.status == StepFailed
            && r.effect == Edited(TargetOf(env, path), Parsed(path, "", oldText, newText, Plain), Some(Repair(other, file)))
            && other in r.world.files && Reading(r.world.files, other).Some? && !Reading(r.world.files, other).value.hadBom
            && TextOf(r.world.files, other) == Repair1(env, TextOf(w.files, other), file)
  {
    hide Ready, Printable, RunStep, MakeReplaceTask, ReadSnapshot, Resolve, TargetOf, IsBackup, DirectReplace, RepairText, Settle, Overwrite, AllOk, FirstIndentation;
    PrintedStep(env, 0, w, path, oldText, newText, start);
    var w1 := DirectReplace(env, w, Parsed(path, "", oldText, newText, Plain)).0;
    OtherIsKept(env, w, w1.files, path, oldText, newText, start, file, other);
    var failing := env.verify(0, w1.clock, w1.files);
    assert !AllOk(failing) && FirstIndentation(failing).Some? && FirstIndentation(failing).value.stderrFile == file;
    var (w2, status) := RepairIndentation(env, Tick(w1), file);
    assert status == Applied(other);
    assert !AllOk(env.verify(0, w2.clock, w2.files));
    OverwriteFrame(env, Tick(w1), other, Reading(w1.files, other).value, RepairText(env.tools, file, TextOf(w.files, other)).value, INDENT_TAG);
  }

  lemma OtherIsKept(env: Env, w: World, files: Files, path: string, oldText: string, newText: string, start: nat, file: string, other: Path)
    requires Ready(env, w, path, oldText, newText, start) && EditIsIn(env, w, files, path, oldText, newText, start)
    requires BlamesOther(env, w, TargetOf(env, path), file, other)
    ensures other != [] && !IsBackup(other) && other in files && files[other] == w.files[other]
  {
    hide Ready, ReadSnapshot, TargetOf, IsBackup, RepairText, ResolveTarget, AllOk, FirstIndentation;
    var r := Resolve(env, file);
    assert r == Some(other);
  }

  // ---- First touch ----

  /** Recording a step's target keeps every entry there is and adds at most that target, as it reads now; once
      recorded, no later spelling of it, in whatever state of the files, changes the table. */
  lemma CaptureKeepsFirst(env: Env, files: Files, snaps: Snaps, task: string, later: Files, again: string)
    requires Capture(env, files, snaps, task).Some?
    ensures var snaps' := Capture(env, files, snaps, task).value;
            && (forall p | p in snaps :: p in snaps' && snaps'[p] == snaps[p])
            && (forall p | p in snaps' && p !in snaps ::
                  && StepTarget(env, task) == Some(p) && p in files
                  && Reading(files, p).Some? && snaps'[p].content == TextOf(files, p) && snaps'[p].hadBom == Reading(files, p).value.hadBom)
            && (StepTarget(env, task).Some? && StepTarget(env, task).value in files ==> StepTarget(env, task).value in snaps')
            && (StepTarget(env, again).Some? && StepTarget(env, again).value in snaps' ==>
                  Capture(env, later, snaps', again) == Some(snaps'))
  {
    hide ReadSnapshot, Resolve, ParseReplaceTask;
    EmptyPathUnsafe(env);
  }

  /** When recording fails, and what is recorded. */
  lemma CaptureIff(env: Env, files: Files, snaps: Snaps, task: string)
    ensures var edit := ParseReplaceTask(task);
            var r := Capture(env, files, snaps, task);
            && (r.None? <==>
                  && edit.Some? && edit.value.filePath != ""
                  && var target := Resolve(env, edit.value.filePath);
                     target.None? || (target.value in files && target.value !in snaps && Reading(files, target.value).None?))
            && (r.Some? ==> r.value.Keys == snaps.Keys + set p | p in files && StepTarget(env, task) == Some(p))
  {
    hide ReadSnapshot, ResolveTarget, ParseReplaceTask;
    EmptyPathUnsafe(env);
  }

  // ---- A target outside the root ----

  lemma FirstOf(pat: string, s: string)
    requires pat != ""
    ensures pat <= s ==> s != "" && s[0] == pat[0]
  {}

  lemma SpelledSubject()
    ensures PlainSubject("./" + RESOLVED)
  {
    var s := "./" + RESOLVED;
    assert forall i | 0 <= i < |s| :: s[i] != 'f';
    FirstOf("function", s);
    forall i | 0 <= i < |s| && IsSpace(s[i]) ensures !("function" <= s[i + 1..]) { FirstOf("function", s[i + 1..]); }
    NoFunctionWord(s);
  }

  /** The sentence that spells such a path is parsed like any other, and its edit is applied there. */
  lemma EditOutsideRoot(env: Env, w: World, oldText: string, newText: string, after: string)
    requires env.root == ["home", "u", "work"] && !env.allowCore && PlainText(oldText) && PlainText(newText)
    requires var t := ["home", "u", "workspace", "x.py"];
             && t in w.files && Reading(w.files, t).Some? && after != TextOf(w.files, t)
             && EditText(env.tools, RESOLVED, TextOf(w.files, t), "", oldText, newText) == Some(after)
    ensures var t := ["home", "u", "workspace", "x.py"];
            var edit := ParseReplaceTask(MakeReplaceTask("./" + RESOLVED, oldText, newText));
            && edit == Some(Parsed(RESOLVED, "", oldText, newText, Plain))
            && var (w', status) := DirectReplace(env, w, edit.value);
               && status == Applied(t) && !(env.root <= t)
               && t in w'.files && TextOf(w'.files, t) == Settle(after)
  {
    hide ReadSnapshot, EditText, ResolveTarget, Overwrite, Settle, IsBackup, ParseReplaceTask, MakeReplaceTask, PlainText, NormalizePath, PlainSubject;
    TargetCanLeaveRoot();
    SpelledSubject();
    ParseOfPrint("./" + RESOLVED, oldText, newText);
    DecodeIffPlain(oldText);
    DecodeIffPlain(newText);
    var t: Path := ["home", "u", "workspace", "x.py"];
    assert Resolve(env, RESOLVED) == Some(t);
    OverwriteFrame(env, w, t, Reading(w.files, t).value, after, DIRECT_TAG);
  }
}
