/** The inventory of tasks: which queued tasks are invalid, stale or runnable, how the others are archived, and
    which one is picked to run. */
module TaskInventory {
  import opened Text

  /** `okFalse` and `mismatch`: the route says `ok` is false, `component_contract_mismatch` is true. */
  datatype Route = NoRoute | Route(okFalse: bool, mismatch: bool, error: string)

  /** An entry of the index of tasks. `progressed`: it has results, step results or an execution log.
      `created`: the creation time as a number, 0 when there is none. */
  datatype Task =
    | NotRecord
    | Task(id: string, status: string, goal: string, title: string, prompt: string, route: Route,
           fast: bool, resultExists: bool, progressed: bool, created: real,
           history: seq<string>, cleanup: map<string, string>)

  // ---- Classification ----

  function FirstOf(a: string, b: string): string { if a != "" then a else b }

  function Words(s: string): seq<string>
    decreases |s|
  {
    var t := LStrip(s, IsSpace);
    if t == "" then []
    else
      var rest := LStrip(t, c => !IsSpace(c));
      [t[..|t| - |rest|]] + if |rest| < |t| then Words(rest) else []
  }

  function CollapseSpace(s: string): string { Join(Words(s), " ") }

  function TaskStatus(t: Task): string { if t.Task? then Lower(Strip(t.status)) else "" }

  function TaskGoal(t: Task): string
    requires t.Task?
  {
    Strip(FirstOf(FirstOf(t.goal, t.title), t.prompt))
  }

  function QueuedStatus(t: Task): string
    requires t.Task?
  {
    Lower(Strip(FirstOf(TaskStatus(t), t.status)))
  }

  predicate IsActive(status: string) {
    status == "queued" || status == "ready" || status == "retry" || status == "retrying"
  }

  function RouteReason(r: Route): string {
    if r.NoRoute? then ""
    else
      var error := CollapseSpace(r.error);
      var tail := if error == "" then "" else ": " + error;
      if r.okFalse then "route failed" + tail
      else if r.mismatch then "router contract mismatch" + tail
      else ""
  }

  function GoalReason(t: Task): string
    requires t.Task?
  {
    var goal := CollapseSpace(FirstOf(FirstOf(TaskGoal(t), t.goal), t.title));
    var low := Lower(goal);
    if goal == "" then "missing goal"
    else if low == "task name:" || low == "task name" || low == "untitled task" || low == "new task" then
      "placeholder goal: " + goal
    else ""
  }

  /** Why a queued task cannot run; empty when it can, or when it is not queued. */
  function InvalidReason(t: Task): string {
    if t.NotRecord? then "not a task record"
    else if !IsActive(QueuedStatus(t)) then ""
    else if RouteReason(t.route) != "" then RouteReason(t.route)
    else if GoalReason(t) != "" then GoalReason(t)
    else if t.resultExists && !t.progressed && !t.fast then "queued task already has result snapshot but no execution progress"
    else ""
  }

  predicate IsInvalid(t: Task) { t.Task? && InvalidReason(t) != "" }

  predicate IsStale(t: Task) { t.Task? && InvalidReason(t) == "" && IsActive(QueuedStatus(t)) && !t.fast }

  predicate IsFastRunnable(t: Task) { t.Task? && IsActive(QueuedStatus(t)) && InvalidReason(t) == "" && t.fast }

  predicate IsLegacyRunnable(t: Task) {
    t.Task? && (IsActive(QueuedStatus(t)) || QueuedStatus(t) == "running") && !t.fast
  }

  /** Invalid, stale and fast-runnable split the active queued tasks: each is exactly one of them, and
      nothing else is any of them. */
  lemma QueuedPartition(t: Task)
    ensures (IsInvalid(t) || IsStale(t) || IsFastRunnable(t)) <==> (t.Task? && IsActive(QueuedStatus(t)))
    ensures (IsStale(t) ==> !t.fast) && (IsFastRunnable(t) ==> t.fast)
    ensures !(IsInvalid(t) && IsStale(t)) && !(IsInvalid(t) && IsFastRunnable(t)) && !(IsStale(t) && IsFastRunnable(t))
  {
    hide QueuedStatus, RouteReason, GoalReason, IsActive;
  }

  // ---- When a task is invalid ----

  predicate AllSpaces(s: string) { forall i | 0 <= i < |s| :: IsSpace(s[i]) }

  predicate IsWord(w: string) { w != "" && forall i | 0 <= i < |w| :: !IsSpace(w[i]) }

  /** Words are what white space parts, however much there is of it. */
  lemma WordsMean(gap: string, word: string, rest: string)
    requires AllSpaces(gap)
    ensures Words(gap) == []
    ensures IsWord(word) && (rest == "" || IsSpace(rest[0])) ==> Words(gap + word + rest) == [word] + Words(rest)
  {
    hide IsSpace;
    assert gap + "" == gap;
    LStripPast(gap, "", IsSpace);
    if IsWord(word) && (rest == "" || IsSpace(rest[0])) {
      var tail := word + rest;
      assert gap + word + rest == gap + tail && tail[0] == word[0];
      LStripPast(gap, tail, IsSpace);
      LStripPast(word, rest, c => !IsSpace(c));
      assert tail[..|tail| - |rest|] == word;
      assert Words(gap + tail) == [tail[..|tail| - |LStrip(tail, c => !IsSpace(c))|]]
                                  + if |LStrip(tail, c => !IsSpace(c))| < |tail| then Words(LStrip(tail, c => !IsSpace(c))) else [];
    }
  }

  lemma NoWordsIff(s: string)
    ensures CollapseSpace(s) == "" <==> Strip(s) == ""
  {
    hide IsSpace;
    var t := LStrip(s, IsSpace);
    if t != "" {
      var rest := LStrip(t, c => !IsSpace(c));
      assert |rest| < |t| by { if |rest| == |t| { WholeRest(t); } }
      assert Words(s)[0] == t[..|t| - |rest|] != "";
      LastInk(t);
    }
  }

  lemma WholeRest(t: string)
    requires t != "" && !IsSpace(t[0])
    ensures |LStrip(t, c => !IsSpace(c))| < |t|
  {}

  lemma {:induction false} LastInk(t: string)
    requires t != "" && !IsSpace(t[0])
    ensures RStrip(t, IsSpace) != ""
  {
    if IsSpace(t[|t| - 1]) { LastInk(t[..|t| - 1]); }
  }

  /** The first of goal, title and prompt that is not empty. */
  function GivenGoal(t: Task): string
    requires t.Task?
  {
    if t.goal != "" then t.goal else if t.title != "" then t.title else t.prompt
  }

  predicate IsPlaceholder(goal: string) {
    Lower(CollapseSpace(goal)) in {"task name:", "task name", "untitled task", "new task"}
  }

  predicate BadRoute(t: Task)
    requires t.Task?
  {
    t.route.Route? && (t.route.okFalse || t.route.mismatch)
  }

  lemma GoalReasonMeans(t: Task)
    requires t.Task?
    ensures GoalReason(t) == if Strip(GivenGoal(t)) == "" then "missing goal"
                             else if IsPlaceholder(Strip(GivenGoal(t))) then "placeholder goal: " + CollapseSpace(Strip(GivenGoal(t)))
                             else ""
  {
    hide CollapseSpace, Strip, Lower;
    NoWordsIff(t.goal);
    NoWordsIff(t.title);
    NoWordsIff("");
    StripNothing();
    NoWordsIff(Strip(GivenGoal(t)));
    StripStrip(GivenGoal(t));
  }

  lemma StripStrip(s: string)
    ensures Strip(Strip(s)) == Strip(s)
  {}

  lemma StripNothing()
    ensures Strip("") == ""
  {}

  lemma RouteReasonMeans(r: Route)
    ensures var reason := RouteReason(r);
            && (reason != "" <==> r.Route? && (r.okFalse || r.mismatch))
            && (r.Route? && r.okFalse ==> "route failed" <= reason)
            && (r.Route? && !r.okFalse && r.mismatch ==> "router contract mismatch" <= reason)
  {
    hide CollapseSpace;
  }

  /** A task is invalid exactly when its status is an active one, in any case and spacing, and its route failed or
      did not match, or the first of goal, title and prompt that is given is blank or a placeholder, or it has a
      result without any progress and is not fast. The reason names the first of these that holds. */
  lemma InvalidIff(t: Task)
    requires t.Task?
    ensures var active := Lower(Strip(t.status)) in {"queued", "ready", "retry", "retrying"};
            var goal := Strip(GivenGoal(t));
            var stuck := t.resultExists && !t.progressed && !t.fast;
            && (IsInvalid(t) <==> active && (BadRoute(t) || goal == "" || IsPlaceholder(goal) || stuck))
            && (active && BadRoute(t) ==> (if t.route.okFalse then "route failed" else "router contract mismatch") <= InvalidReason(t))
            && (active && !BadRoute(t) && goal == "" ==> InvalidReason(t) == "missing goal")
            && (active && !BadRoute(t) && goal != "" && IsPlaceholder(goal) ==> "placeholder goal: " <= InvalidReason(t))
  {
    hide Strip, Lower, CollapseSpace, GoalReason, RouteReason, IsPlaceholder, GivenGoal;
    QueuedIsTaskStatus(t);
    GoalReasonMeans(t);
    RouteReasonMeans(t.route);
    PlaceholderReason(CollapseSpace(Strip(GivenGoal(t))));
  }

  lemma PlaceholderReason(s: string)
    ensures "placeholder goal: " <= "placeholder goal: " + s && "placeholder goal: " + s != "" && "missing goal" != ""
  {}

  // ---- Cleanup ----

  predicate IsTarget(t: Task, includeStale: bool) { IsInvalid(t) || (includeStale && IsStale(t)) }

  function Targets(tasks: seq<Task>, includeStale: bool): (r: seq<Task>)
    ensures forall t :: t in r <==> t in tasks && IsTarget(t, includeStale)
  {
    if tasks == [] then []
    else
      var last := tasks[|tasks| - 1];
      Targets(tasks[..|tasks| - 1], includeStale) + if IsTarget(last, includeStale) then [last] else []
  }

  lemma TargetsSnoc(tasks: seq<Task>, includeStale: bool, i: nat)
    requires i < |tasks|
    ensures Targets(tasks[..i + 1], includeStale) ==
              if IsTarget(tasks[i], includeStale) then Targets(tasks[..i], includeStale) + [tasks[i]] else Targets(tasks[..i], includeStale)
  {
    hide IsTarget;
    assert tasks[..i + 1][..i] == tasks[..i];
    assert Targets(tasks[..i], includeStale) + [] == Targets(tasks[..i], includeStale);
  }

  lemma TargetsNone(includeStale: bool)
    ensures Targets([], includeStale) == []
  {}

  lemma IsTargetWhen(t: Task, includeStale: bool)
    ensures IsTarget(t, includeStale) <==> t.Task? && (InvalidReason(t) != "" || (includeStale && IsStale(t)))
  {
    hide InvalidReason, QueuedStatus, IsActive;
  }

  method CleanupTargets(tasks: seq<Task>, includeStale: bool) returns (targets: seq<Task>)
    ensures targets == Targets(tasks, includeStale)
  {
    hide InvalidReason, IsStale, IsTarget, Targets;
    targets := [];
    TargetsNone(includeStale);
    var i := 0;
    assert tasks[..0] == [];
    while i < |tasks|
      invariant i <= |tasks|
      invariant targets == Targets(tasks[..i], includeStale)
    {
      var task := tasks[i];
      TargetsSnoc(tasks, includeStale, i);
      IsTargetWhen(task, includeStale);
      if task.Task? {
        if InvalidReason(task) != "" {
          targets := targets + [task];
        } else if includeStale && IsStale(task) {
          targets := targets + [task];
        }
      }
      i := i + 1;
    }
    assert tasks[..i] == tasks;
  }

  const ARCHIVED_INVALID: string := "archived_invalid"
  const ARCHIVED_STALE: string := "archived_stale"

  function ArchiveStatus(t: Task): string { if InvalidReason(t) != "" then ARCHIVED_INVALID else ARCHIVED_STALE }

  function CleanupMeta(t: Task): map<string, string> {
    map["archived_by" := "task cleanup",
        "archive_reason" := FirstOf(InvalidReason(t), "stale/non-fast queued task"),
        "previous_status" := TaskStatus(t),
        "cleanup_schema" := "zero.task_cleanup.v1"]
  }

  function Archived(t: Task): Task
    requires t.Task?
  {
    t.(status := ArchiveStatus(t), history := t.history + [ArchiveStatus(t)], cleanup := t.cleanup + CleanupMeta(t))
  }

  ghost predicate InIds(t: Task, targets: seq<Task>) { t.Task? && exists u | u in targets :: u.Task? && u.id == t.id }

  /** Every task whose id is a target's id is archived, whether or not it is a target itself. */
  ghost function CleanedTask(t: Task, targets: seq<Task>): Task { if InIds(t, targets) then Archived(t) else t }

  ghost function Cleaned(tasks: seq<Task>, targets: seq<Task>): (r: seq<Task>)
    ensures |r| == |tasks| && forall i | 0 <= i < |r| :: r[i] == CleanedTask(tasks[i], targets)
  {
    seq(|tasks|, i requires 0 <= i < |tasks| => CleanedTask(tasks[i], targets))
  }

  ghost function Cleanup(tasks: seq<Task>, includeStale: bool): seq<Task> {
    Cleaned(tasks, Targets(tasks, includeStale))
  }

  function Differing(a: seq<Task>, b: seq<Task>): nat
    requires |a| == |b|
  {
    if a == [] then 0
    else Differing(a[..|a| - 1], b[..|b| - 1]) + if a[|a| - 1] == b[|b| - 1] then 0 else 1
  }

  /** Archiving always changes a task. */
  lemma ArchivedDiffers(t: Task)
    requires t.Task?
    ensures Archived(t) != t
  {
    assert |Archived(t).history| == |t.history| + 1;
  }

  lemma DifferingSnoc(a: seq<Task>, b: seq<Task>, i: nat)
    requires i < |a| && |b| == i
    ensures forall t :: Differing(a[..i + 1], b + [t]) == Differing(a[..i], b) + if a[i] == t then 0 else 1
  {
    forall t ensures Differing(a[..i + 1], b + [t]) == Differing(a[..i], b) + if a[i] == t then 0 else 1 {
      assert a[..i + 1][..i] == a[..i] && (b + [t])[..i] == b;
    }
  }

  lemma CleanedStep(tasks: seq<Task>, targets: seq<Task>, i: nat)
    requires i < |tasks|
    ensures Cleaned(tasks[..i + 1], targets) == Cleaned(tasks[..i], targets) + [CleanedTask(tasks[i], targets)]
    ensures CleanedTask(tasks[i], targets) == if InIds(tasks[i], targets) then Archived(tasks[i]) else tasks[i]
  {
    hide CleanedTask;
    CleanedIs(tasks[i], targets);
  }

  lemma CleanedIs(t: Task, targets: seq<Task>)
    ensures CleanedTask(t, targets) == if InIds(t, targets) then Archived(t) else t
  {}

  /** `changed` counts exactly the entries that differ. */
  method ApplyTaskCleanup(tasks: seq<Task>, includeStale: bool) returns (updated: seq<Task>, changed: nat)
    ensures updated == Cleanup(tasks, includeStale)
    ensures changed == Differing(tasks, updated)
  {
    hide IsTarget, Archived, Differing, Cleaned, CleanedTask, Targets;
    updated, changed := [], 0;
    var targets := CleanupTargets(tasks, includeStale);
    var targetIds := set u | u in targets && u.Task? :: u.id;
    DifferingNone();
    var i := 0;
    while i < |tasks|
      invariant i <= |tasks|
      invariant updated == Cleaned(tasks[..i], targets)
      invariant changed == Differing(tasks[..i], updated)
    {
      var task := tasks[i];
      DifferingSnoc(tasks, updated, i);
      CleanedStep(tasks, targets, i);
      if task.NotRecord? || task.id !in targetIds {
        updated := updated + [task];
      } else {
        ArchivedDiffers(task);
        updated := updated + [Archived(task)];
        changed := changed + 1;
      }
      i := i + 1;
    }
    assert tasks[..i] == tasks;
  }

  lemma DifferingNone()
    ensures forall a: seq<Task> :: Differing(a[..0], []) == 0
  {}

  lemma Quiet()
    ensures Lower(Strip(ARCHIVED_INVALID)) == ARCHIVED_INVALID && Lower(Strip(ARCHIVED_STALE)) == ARCHIVED_STALE
    ensures !IsActive(ARCHIVED_INVALID) && ARCHIVED_INVALID != "running" && ARCHIVED_INVALID != ""
    ensures !IsActive(ARCHIVED_STALE) && ARCHIVED_STALE != "running" && ARCHIVED_STALE != ""
  {
    hide Strip, StripBy, Lower;
    assert !IsSpace('a') && !IsSpace('d') && !IsSpace('e');
    assert ARCHIVED_INVALID[0] == 'a' && ARCHIVED_INVALID[15] == 'd' && |ARCHIVED_INVALID| == 16;
    assert ARCHIVED_STALE[0] == 'a' && ARCHIVED_STALE[13] == 'e' && |ARCHIVED_STALE| == 14;
    forall i | 0 <= i < 16 ensures Lower(ARCHIVED_INVALID)[i] == ARCHIVED_INVALID[i] {}
    forall i | 0 <= i < 14 ensures Lower(ARCHIVED_STALE)[i] == ARCHIVED_STALE[i] {}
  }

  /** An archived task is neither queued nor running: no later step of the inventory takes it up. */
  lemma ArchivedIsQuiet(t: Task)
    requires t.Task?
    ensures var a := Archived(t);
            && a.id == t.id && a.status == ArchiveStatus(t)
            && InvalidReason(a) == "" && !IsStale(a) && !IsFastRunnable(a) && !IsLegacyRunnable(a)
            && (forall s :: !IsTarget(a, s))
  {
    hide Strip, Lower, InvalidReason, IsActive, CleanupMeta;
    Quiet();
    var a := Archived(t);
    assert QueuedStatus(a) == a.status;
    NotQueued(a);
  }

  lemma NotQueued(t: Task)
    requires t.Task? && !IsActive(QueuedStatus(t))
    ensures InvalidReason(t) == ""
  {
    hide QueuedStatus, IsActive;
  }

  lemma LowerIsLower(s: string)
    ensures Lower(Lower(s)) == Lower(s)
    ensures forall i | 0 <= i < |s| :: IsSpace(Lower(s)[i]) <==> IsSpace(s[i])
  {
    hide Lower, LowerChar, IsSpace;
    forall i | 0 <= i < |s|
      ensures Lower(Lower(s))[i] == Lower(s)[i]
      ensures IsSpace(Lower(s)[i]) <==> IsSpace(s[i])
    {
      LowerOnce(s[i]);
    }
  }

  lemma LowerOnce(c: char)
    ensures LowerChar(LowerChar(c)) == LowerChar(c) && (IsSpace(LowerChar(c)) <==> IsSpace(c))
  {}

  /** Normalising a status twice is normalising it once. */
  lemma QueuedIsTaskStatus(t: Task)
    requires t.Task?
    ensures QueuedStatus(t) == TaskStatus(t)
  {
    hide Strip, Lower, IsSpace;
    var s := Strip(t.status);
    LowerIsLower(s);
    if TaskStatus(t) == "" { LowerNone(); }
  }

  lemma LowerNone()
    ensures Strip("") == "" && Lower("") == ""
  {}

  /** What archiving a target leaves on record: that it was active, why it was archived and under which
      status, behind everything the record already held. */
  lemma ArchivedRecords(t: Task)
    requires IsTarget(t, true)
    ensures var a := Archived(t);
            && a.cleanup["previous_status"] == Lower(Strip(t.status)) && IsActive(a.cleanup["previous_status"])
            && a.cleanup["archive_reason"] == (if IsInvalid(t) then InvalidReason(t) else "stale/non-fast queued task")
            && a.cleanup["archive_reason"] != ""
            && (a.status == ARCHIVED_INVALID <==> IsInvalid(t)) && (a.status == ARCHIVED_STALE <==> IsStale(t))
            && a.history == t.history + [a.status]
            && (forall k | k in t.cleanup && k !in CleanupMeta(t) :: k in a.cleanup && a.cleanup[k] == t.cleanup[k])
            && a == t.(status := a.status, history := a.history, cleanup := a.cleanup)
  {
    hide QueuedStatus, Lower, Strip, IsActive, RouteReason, GoalReason;
    QueuedIsTaskStatus(t);
    assert ARCHIVED_INVALID[9] != ARCHIVED_STALE[9];
  }

  // ---- What cleanup does ----

  ghost predicate Shares(t: Task, tasks: seq<Task>, includeStale: bool) {
    t.Task? && exists u | u in tasks :: IsTarget(u, includeStale) && u.id == t.id
  }

  /** Cleanup archives exactly those tasks that share an id with a target, in place. */
  lemma CleanupAt(tasks: seq<Task>, includeStale: bool)
    ensures var r := Cleanup(tasks, includeStale);
            && |r| == |tasks|
            && forall i | 0 <= i < |tasks| ::
                 r[i] == if Shares(tasks[i], tasks, includeStale) then Archived(tasks[i]) else tasks[i]
  {
    hide IsTarget, Archived;
    var targets := Targets(tasks, includeStale);
    forall t ensures InIds(t, targets) <==> Shares(t, tasks, includeStale) {
      AreTargets(tasks, includeStale);
    }
  }

  lemma AreTargets(tasks: seq<Task>, includeStale: bool)
    ensures forall t | IsTarget(t, includeStale) :: t.Task?
  {
    hide InvalidReason, QueuedStatus;
  }

  /** Exactly the targets change if and only if no other task has a target's id. */
  lemma ChangesTargetsIff(tasks: seq<Task>, includeStale: bool)
    ensures (forall i | 0 <= i < |tasks| :: Cleanup(tasks, includeStale)[i] != tasks[i] <==> IsTarget(tasks[i], includeStale))
        <==> (forall i | 0 <= i < |tasks| :: Shares(tasks[i], tasks, includeStale) ==> IsTarget(tasks[i], includeStale))
  {
    hide IsTarget, Archived, Cleanup, Shares;
    CleanupAt(tasks, includeStale);
    AreTargets(tasks, includeStale);
    forall i | 0 <= i < |tasks|
      ensures Cleanup(tasks, includeStale)[i] != tasks[i] <==> Shares(tasks[i], tasks, includeStale)
      ensures IsTarget(tasks[i], includeStale) ==> Shares(tasks[i], tasks, includeStale)
    {
      SharesOwn(tasks, includeStale, i);
      if Shares(tasks[i], tasks, includeStale) { SharesTask(tasks[i], tasks, includeStale); ArchivedDiffers(tasks[i]); }
    }
  }

  lemma SharesOwn(tasks: seq<Task>, includeStale: bool, i: nat)
    requires i < |tasks|
    ensures IsTarget(tasks[i], includeStale) ==> Shares(tasks[i], tasks, includeStale)
  {
    hide IsTarget;
    AreTargets(tasks, includeStale);
  }

  lemma SharesTask(t: Task, tasks: seq<Task>, includeStale: bool)
    requires Shares(t, tasks, includeStale)
    ensures t.Task?
  {}

  ghost predicate DistinctIds(tasks: seq<Task>) {
    forall i, j | 0 <= i < j < |tasks| && tasks[i].Task? && tasks[j].Task? :: tasks[i].id != tasks[j].id
  }

  /** Distinct ids are enough. */
  lemma DistinctIdsSuffice(tasks: seq<Task>, includeStale: bool)
    requires DistinctIds(tasks)
    ensures forall i | 0 <= i < |tasks| :: Shares(tasks[i], tasks, includeStale) <==> IsTarget(tasks[i], includeStale)
  {
    hide IsTarget;
    AreTargets(tasks, includeStale);
    forall i | 0 <= i < |tasks| && Shares(tasks[i], tasks, includeStale) ensures IsTarget(tasks[i], includeStale) {
      var u :| u in tasks && IsTarget(u, includeStale) && u.id == tasks[i].id;
      var j :| 0 <= j < |tasks| && tasks[j] == u;
    }
  }

  /** A finished task without an id is archived along with a queued one that has no goal and no id either. */
  lemma SharedIdIsArchived()
    ensures var queued := Task("", "queued", "", "", "", NoRoute, false, false, false, 0.0, [], map[]);
            var done := Task("", "finished", "", "", "", NoRoute, false, true, true, 0.0, [], map[]);
            !IsTarget(done, true) && Cleanup([queued, done], false)[1].status == ARCHIVED_STALE
  {
    hide Strip, StripBy, Lower, CollapseSpace;
    var queued := Task("", "queued", "", "", "", NoRoute, false, false, false, 0.0, [], map[]);
    var done := Task("", "finished", "", "", "", NoRoute, false, true, true, 0.0, [], map[]);
    LowerWord("queued");
    LowerWord("finished");
    NoWords();
    assert IsInvalid(queued);
    NotQueued(done);
    CleanupAt([queued, done], false);
    assert queued in [queued, done] && Shares(done, [queued, done], false);
  }

  lemma NoWords()
    ensures CollapseSpace("") == "" && Strip("") == ""
  {}

  lemma LowerWord(w: string)
    requires w != "" && forall i | 0 <= i < |w| :: 'a' <= w[i] <= 'z'
    ensures Lower(Strip(w)) == w
  {
    hide Strip, StripBy, Lower;
    assert !IsSpace(w[0]) && !IsSpace(w[|w| - 1]);
  }

  /** Afterwards no target is left, so a second cleanup changes nothing. */
  lemma CleanupIdempotent(tasks: seq<Task>, includeStale: bool)
    ensures var r := Cleanup(tasks, includeStale);
            (forall t | t in r :: !IsTarget(t, includeStale)) && Cleanup(r, includeStale) == r
  {
    hide IsTarget, Archived, Cleanup;
    var r := Cleanup(tasks, includeStale);
    CleanupAt(tasks, includeStale);
    forall i | 0 <= i < |r| ensures !IsTarget(r[i], includeStale) { NotTargetAfter(tasks, includeStale, i); }
    CleanupAt(r, includeStale);
  }

  lemma NotTargetAfter(tasks: seq<Task>, includeStale: bool, i: nat)
    requires i < |tasks|
    ensures !IsTarget(Cleanup(tasks, includeStale)[i], includeStale)
  {
    hide IsTarget, Archived, Cleanup, Shares;
    CleanupAt(tasks, includeStale);
    SharesOwn(tasks, includeStale, i);
    if Shares(tasks[i], tasks, includeStale) {
      SharesTask(tasks[i], tasks, includeStale);
      ArchivedIsQuiet(tasks[i]);
    }
  }

  /** Cleaning up the invalid tasks first and the stale ones afterwards is cleaning up both at once. */
  lemma StagedCleanup(tasks: seq<Task>)
    ensures Cleanup(Cleanup(tasks, false), true) == Cleanup(tasks, true)
  {
    hide IsTarget, Archived, Cleanup, Shares;
    var mid := Cleanup(tasks, false);
    CleanupAt(tasks, false);
    CleanupAt(mid, true);
    CleanupAt(tasks, true);
    forall i | 0 <= i < |tasks|
      ensures Cleanup(mid, true)[i] == Cleanup(tasks, true)[i]
    {
      if Shares(tasks[i], tasks, false) {
        SharesMore(tasks[i], tasks);
        ArchivedStays(tasks, i);
      } else {
        UnsharedStays(tasks, i);
      }
    }
  }

  lemma SharesMore(t: Task, tasks: seq<Task>)
    requires Shares(t, tasks, false)
    ensures Shares(t, tasks, true)
  {
    hide InvalidReason, QueuedStatus;
    AreTargets(tasks, false);
    var u :| u in tasks && IsTarget(u, false) && u.id == t.id;
    assert IsTarget(u, true);
  }

  /** The target that an entry of the half-cleaned list shares its id with was left alone by the first pass. */
  lemma SharerStays(tasks: seq<Task>, t: Task, j: nat)
    requires j < |tasks|
    requires t.Task? && Cleanup(tasks, false)[j].Task? && Cleanup(tasks, false)[j].id == t.id && IsTarget(Cleanup(tasks, false)[j], true)
    ensures Cleanup(tasks, false)[j] == tasks[j] && !Shares(tasks[j], tasks, false)
  {
    hide IsTarget, Archived, Cleanup, Shares;
    CleanupAt(tasks, false);
    if Shares(tasks[j], tasks, false) {
      SharesTask(tasks[j], tasks, false);
      ArchivedIsQuiet(tasks[j]);
    }
  }

  lemma SameIdShares(t: Task, u: Task, tasks: seq<Task>, includeStale: bool)
    requires t.Task? && u.Task? && t.id == u.id
    ensures Shares(t, tasks, includeStale) <==> Shares(u, tasks, includeStale)
  {
    hide IsTarget;
  }

  lemma SharerInMid(tasks: seq<Task>, t: Task) returns (j: nat)
    requires Shares(t, Cleanup(tasks, false), true)
    ensures j < |tasks| && tasks[j].Task? && tasks[j].id == t.id && IsTarget(tasks[j], true) && !Shares(tasks[j], tasks, false)
  {
    hide IsTarget, Cleanup;
    var mid := Cleanup(tasks, false);
    AreTargets(mid, true);
    var u :| u in mid && IsTarget(u, true) && u.id == t.id;
    j :| 0 <= j < |mid| && mid[j] == u;
    CleanupLength(tasks, false);
    SharerStays(tasks, t, j);
  }

  lemma CleanupLength(tasks: seq<Task>, includeStale: bool)
    ensures |Cleanup(tasks, includeStale)| == |tasks|
  {}

  lemma ArchivedStays(tasks: seq<Task>, i: nat)
    requires i < |tasks| && Shares(tasks[i], tasks, false)
    ensures var mid := Cleanup(tasks, false); |mid| == |tasks| && !Shares(mid[i], mid, true)
  {
    hide IsTarget, Archived, Cleanup, Shares;
    var mid := Cleanup(tasks, false);
    CleanupAt(tasks, false);
    SharesTask(tasks[i], tasks, false);
    ArchivedIsQuiet(tasks[i]);
    if Shares(mid[i], mid, true) {
      var j := SharerInMid(tasks, mid[i]);
      SameIdShares(tasks[i], tasks[j], tasks, false);
    }
  }

  lemma UnsharedStays(tasks: seq<Task>, i: nat)
    requires i < |tasks| && !Shares(tasks[i], tasks, false)
    ensures var mid := Cleanup(tasks, false);
            |mid| == |tasks| && mid[i] == tasks[i] && (Shares(mid[i], mid, true) <==> Shares(tasks[i], tasks, true))
  {
    hide IsTarget, Archived, Cleanup, Shares;
    var mid := Cleanup(tasks, false);
    CleanupAt(tasks, false);
    var t := tasks[i];
    if Shares(t, mid, true) {
      SharesTask(t, mid, true);
      var j := SharerInMid(tasks, t);
      SharesOwn(tasks, true, j);
      SameIdShares(t, tasks[j], tasks, true);
    }
    if Shares(t, tasks, true) { SharedStays(tasks, t); }
  }

  lemma SharedStays(tasks: seq<Task>, t: Task)
    requires Shares(t, tasks, true) && !Shares(t, tasks, false)
    ensures Shares(t, Cleanup(tasks, false), true)
  {
    hide IsTarget, Archived, Cleanup;
    AreTargets(tasks, true);
    var u :| u in tasks && IsTarget(u, true) && u.id == t.id;
    var j :| 0 <= j < |tasks| && tasks[j] == u;
    SameIdShares(t, u, tasks, false);
    CleanupAt(tasks, false);
    assert Cleanup(tasks, false)[j] == u;
  }

  // ---- Selection ----

  function FindById(tasks: seq<Task>, id: string): Option<Task> {
    if tasks == [] then None
    else if tasks[0].Task? && tasks[0].id == id then Some(tasks[0])
    else FindById(tasks[1..], id)
  }

  /** The sort key: creation time, then id. */
  predicate KeyLess(a: Task, b: Task) {
    a.Task? && b.Task? && (a.created < b.created || (a.created == b.created && LessText(a.id, b.id)))
  }

  /** A stable sort by key. */
  function Insert(sorted: seq<Task>, t: Task): (r: seq<Task>)
    ensures |r| == |sorted| + 1
  {
    if sorted != [] && KeyLess(t, sorted[|sorted| - 1]) then Insert(sorted[..|sorted| - 1], t) + [sorted[|sorted| - 1]]
    else sorted + [t]
  }

  function Sorted(tasks: seq<Task>): (r: seq<Task>)
    ensures |r| == |tasks|
  {
    if tasks == [] then [] else Insert(Sorted(tasks[..|tasks| - 1]), tasks[|tasks| - 1])
  }

  function FastRunnable(tasks: seq<Task>): (r: seq<Task>)
    ensures forall t :: t in r <==> t in tasks && IsFastRunnable(t)
  {
    if tasks == [] then []
    else
      var last := tasks[|tasks| - 1];
      FastRunnable(tasks[..|tasks| - 1]) + if IsFastRunnable(last) then [last] else []
  }

  predicate MeansNewest(low: string) { low == "latest" || low == "newest" || low == "last" }

  predicate MeansOldest(low: string) { low == "next" || low == "oldest" || low == "first" }

  function Exact(tasks: seq<Task>, id: string): Option<Task> {
    var exact := FindById(tasks, id);
    if exact.Some? && IsFastRunnable(exact.value) then exact else None
  }

  function Select(tasks: seq<Task>, selector: string): Option<Task> {
    var low := Lower(selector);
    if !MeansNewest(low) && !MeansOldest(low) then Exact(tasks, selector)
    else
      var candidates := Sorted(FastRunnable(tasks));
      if candidates == [] then None
      else if MeansNewest(low) then Some(candidates[|candidates| - 1])
      else Some(candidates[0])
  }

  lemma KeyOrder(a: Task, b: Task, c: Task)
    requires a.Task? && b.Task? && c.Task?
    ensures !KeyLess(a, a)
    ensures KeyLess(a, b) && KeyLess(b, c) ==> KeyLess(a, c)
    ensures !KeyLess(a, b) && !KeyLess(b, c) ==> !KeyLess(a, c)
    ensures !KeyLess(a, b) && !KeyLess(b, a) ==> a.id == b.id && a.created == b.created
    ensures KeyLess(a, b) ==> !KeyLess(b, a)
  {
    hide LessText;
    LessTextOrder(a.id, b.id, c.id);
    LessTextOrder(a.id, b.id, a.id);
  }

  // ---- The ends of the sorted list ----

  function Better(newest: bool, a: Option<Task>, b: Option<Task>): Option<Task> {
    if a.None? then b
    else if b.None? then a
    else if KeyLess(b.value, a.value) == newest then a else b
  }

  function Candidate(t: Task): Option<Task> { if IsFastRunnable(t) then Some(t) else None }

  /** The newest, or oldest, fast-runnable task, the later, or earlier, one in the list where keys are equal. */
  function Extreme(newest: bool, tasks: seq<Task>): (r: Option<Task>)
    ensures r.Some? ==> r.value in tasks && IsFastRunnable(r.value)
  {
    if tasks == [] then None
    else Better(newest, Extreme(newest, tasks[..|tasks| - 1]), Candidate(tasks[|tasks| - 1]))
  }

  ghost predicate Ordered(s: seq<Task>) {
    && (forall i | 0 <= i < |s| :: s[i].Task?)
    && (forall i, j | 0 <= i < j < |s| :: !KeyLess(s[j], s[i]))
  }

  function End(newest: bool, s: seq<Task>): Option<Task> {
    if s == [] then None else if newest then Some(s[|s| - 1]) else Some(s[0])
  }

  lemma {:induction false} InsertOrdered(s: seq<Task>, t: Task)
    requires Ordered(s) && t.Task?
    ensures Ordered(Insert(s, t)) && multiset(Insert(s, t)) == multiset(s) + multiset{t}
  {
    hide KeyLess;
    if s != [] {
      var init, last := s[..|s| - 1], s[|s| - 1];
      assert s == init + [last];
      if KeyLess(t, last) {
        InsertOrdered(init, t);
        InsertBelow(init, t, last);
      } else {
        forall i | 0 <= i < |s| ensures !KeyLess(t, s[i]) { KeyOrder(t, last, s[i]); KeyOrder(last, last, last); }
      }
    }
  }

  lemma InsertLast(s: seq<Task>, t: Task)
    ensures End(true, Insert(s, t)) == Better(true, End(true, s), Some(t))
  {
    hide KeyLess;
  }

  lemma {:induction false} InsertFirst(s: seq<Task>, t: Task)
    requires Ordered(s) && t.Task?
    ensures End(false, Insert(s, t)) == Better(false, End(false, s), Some(t))
  {
    hide KeyLess;
    if s != [] {
      var init, last := s[..|s| - 1], s[|s| - 1];
      if KeyLess(t, last) {
        InsertFirst(init, t);
        assert (Insert(init, t) + [last])[0] == Insert(init, t)[0];
      } else {
        KeyOrder(t, last, s[0]);
        KeyOrder(last, last, last);
      }
    }
  }

  /** Everything in the longer list stays below its last element. */
  lemma InsertBelow(init: seq<Task>, t: Task, last: Task)
    requires Ordered(init + [last]) && t.Task? && KeyLess(t, last)
    requires Ordered(Insert(init, t)) && multiset(Insert(init, t)) == multiset(init) + multiset{t}
    ensures Ordered(Insert(init, t) + [last])
  {
    hide KeyLess, Insert;
    var r := Insert(init, t);
    assert (init + [last])[|init|].Task?;
    forall i | 0 <= i < |r| ensures !KeyLess(last, r[i]) {
      assert r[i] in multiset(r);
      if r[i] in init {
        var k :| 0 <= k < |init| && init[k] == r[i];
        assert (init + [last])[k] == r[i] && (init + [last])[|init|] == last;
      } else {
        assert r[i] == t;
        KeyOrder(t, last, t);
      }
    }
  }

  /** Sorting keeps the candidates, and its ends are the extremes of the list. */
  lemma {:induction false} SortedEnds(tasks: seq<Task>)
    ensures var s := Sorted(FastRunnable(tasks));
            && Ordered(s) && multiset(s) == multiset(FastRunnable(tasks))
            && forall newest :: End(newest, s) == Extreme(newest, tasks)
  {
    hide KeyLess, Insert, Better, End, Ordered, IsFastRunnable;
    if tasks == [] {
      NoEnd();
    } else {
      var init, last := tasks[..|tasks| - 1], tasks[|tasks| - 1];
      SortedEnds(init);
      if IsFastRunnable(last) {
        FastIsTask(last);
        var c := FastRunnable(init);
        assert (c + [last])[..|c|] == c && (c + [last])[|c|] == last;
        InsertOrdered(Sorted(c), last);
        InsertLast(Sorted(c), last);
        InsertFirst(Sorted(c), last);
      } else {
        BetterNone(Extreme(true, init), Extreme(false, init));
        assert FastRunnable(init) + [] == FastRunnable(init);
      }
    }
  }

  lemma NoEnd()
    ensures Ordered([]) && forall newest :: End(newest, []) == None
  {}

  lemma FastIsTask(t: Task)
    requires IsFastRunnable(t)
    ensures t.Task?
  {}

  lemma BetterNone(a: Option<Task>, b: Option<Task>)
    ensures Better(true, a, None) == a && Better(false, b, None) == b
  {}

  /** The keyword selectors pick the newest, or oldest, of the fast-runnable tasks; any other selector the
      first task with that id, if it can run. Nothing else is ever picked. */
  lemma SelectMeans(tasks: seq<Task>, selector: string)
    ensures var low := Lower(selector);
            Select(tasks, selector) ==
              if MeansNewest(low) || MeansOldest(low) then Extreme(MeansNewest(low), tasks) else Exact(tasks, selector)
  {
    hide IsFastRunnable, Lower, Ordered, Exact;
    SortedEnds(tasks);
    var s := Sorted(FastRunnable(tasks));
    var newest := MeansNewest(Lower(selector));
    assert End(newest, s) == Extreme(newest, tasks);
  }

  /** No fast-runnable task is newer, or older, than the extreme, and there is one unless no task can run. */
  lemma {:induction false} ExtremeIsBest(newest: bool, tasks: seq<Task>, t: Task)
    requires t in tasks && IsFastRunnable(t)
    ensures var best := Extreme(newest, tasks);
            best.Some? && if newest then !KeyLess(best.value, t) else !KeyLess(t, best.value)
  {
    hide KeyLess, IsFastRunnable;
    var init, last := tasks[..|tasks| - 1], tasks[|tasks| - 1];
    assert tasks == init + [last];
    var best := Extreme(newest, init);
    FastIsTask(t);
    if t in init { ExtremeIsBest(newest, init, t); }
    if best.Some? { FastIsTask(best.value); }
    if IsFastRunnable(last) {
      FastIsTask(last);
      KeyOrder(last, last, last);
      if best.Some? {
        KeyOrder(best.value, last, t);
        KeyOrder(t, last, best.value);
        KeyOrder(last, best.value, t);
        KeyOrder(t, best.value, last);
      }
    }
  }

  lemma {:induction false} FindsAt(tasks: seq<Task>, id: string, i: nat)
    requires i < |tasks| && tasks[i].Task? && tasks[i].id == id
    requires forall j | 0 <= j < i :: !(tasks[j].Task? && tasks[j].id == id)
    ensures FindById(tasks, id) == Some(tasks[i])
  {
    if i > 0 {
      forall j | 0 <= j < i - 1 ensures !(tasks[1..][j].Task? && tasks[1..][j].id == id) { assert tasks[1..][j] == tasks[j + 1]; }
      FindsAt(tasks[1..], id, i - 1);
    }
  }

  lemma {:induction false} FindsNone(tasks: seq<Task>, id: string)
    requires forall t | t in tasks && t.Task? :: t.id != id
    ensures FindById(tasks, id) == None
  {
    if tasks != [] {
      assert tasks[0] in tasks;
      FindsNone(tasks[1..], id);
    }
  }

  /** A selector that is none of the words is an id: it picks the first task with that id if that one can run, and
      none otherwise, even when a later task with the same id could run. */
  lemma SelectById(tasks: seq<Task>, selector: string)
    requires Lower(selector) !in {"latest", "newest", "last", "next", "oldest", "first"}
    ensures forall i | 0 <= i < |tasks| && tasks[i].Task? && tasks[i].id == selector
                       && (forall j | 0 <= j < i :: !(tasks[j].Task? && tasks[j].id == selector)) ::
              Select(tasks, selector) == if IsFastRunnable(tasks[i]) then Some(tasks[i]) else None
    ensures (forall t | t in tasks && t.Task? :: t.id != selector) ==> Select(tasks, selector) == None
  {
    hide IsFastRunnable, Lower, FindById;
    forall i | 0 <= i < |tasks| && tasks[i].Task? && tasks[i].id == selector
               && (forall j | 0 <= j < i :: !(tasks[j].Task? && tasks[j].id == selector))
      ensures FindById(tasks, selector) == Some(tasks[i])
    {
      FindsAt(tasks, selector, i);
    }
    if forall t | t in tasks && t.Task? :: t.id != selector { FindsNone(tasks, selector); }
  }

  /** No candidate beats the one at `i`; of equal keys the last one wins for the newest, the first for the oldest. */
  predicate Beats(newest: bool, tasks: seq<Task>, i: nat, j: nat)
    requires i < |tasks| && j < |tasks|
  {
    if newest then (if j < i then !KeyLess(tasks[i], tasks[j]) else KeyLess(tasks[j], tasks[i]))
    else (if j < i then KeyLess(tasks[i], tasks[j]) else !KeyLess(tasks[j], tasks[i]))
  }

  lemma {:induction false} ExtremeAt(newest: bool, tasks: seq<Task>) returns (i: nat)
    requires Extreme(newest, tasks).Some?
    ensures i < |tasks| && Extreme(newest, tasks) == Some(tasks[i])
    ensures forall j | 0 <= j < |tasks| && j != i && IsFastRunnable(tasks[j]) :: Beats(newest, tasks, i, j)
  {
    hide KeyLess, IsFastRunnable;
    var n := |tasks| - 1;
    var init, last := tasks[..n], tasks[n];
    var before := Extreme(newest, init);
    if before.None? {
      i := n;
      forall j | 0 <= j < n ensures !IsFastRunnable(tasks[j]) {
        assert tasks[j] == init[j] && tasks[j] in init;
        if IsFastRunnable(init[j]) { ExtremeIsBest(newest, init, init[j]); }
      }
    } else {
      i := ExtremeAt(newest, init);
      forall j | 0 <= j < n && j != i && IsFastRunnable(tasks[j]) ensures Beats(newest, tasks, i, j) {
        assert tasks[j] == init[j] && Beats(newest, init, i, j);
      }
      FastIsTask(before.value);
      if IsFastRunnable(last) {
        FastIsTask(last);
        if KeyLess(last, before.value) != newest {
          LastBeats(newest, tasks, i);
          i := n;
        }
      }
    }
  }

  /** What the best one so far beats, a better one behind it beats. */
  lemma LastBeats(newest: bool, tasks: seq<Task>, i: nat)
    requires var n := |tasks| - 1; 0 <= i < n && tasks[i].Task? && tasks[n].Task? && KeyLess(tasks[n], tasks[i]) != newest
    requires forall j | 0 <= j < |tasks| - 1 && j != i && IsFastRunnable(tasks[j]) :: Beats(newest, tasks, i, j)
    ensures forall j | 0 <= j < |tasks| - 1 && IsFastRunnable(tasks[j]) :: Beats(newest, tasks, |tasks| - 1, j)
  {
    hide KeyLess, IsFastRunnable;
    var n := |tasks| - 1;
    var a, last := tasks[i], tasks[n];
    forall j | 0 <= j < n && IsFastRunnable(tasks[j]) ensures Beats(newest, tasks, n, j) {
      var t := tasks[j];
      FastIsTask(t);
      KeyOrder(a, t, a);
      KeyOrder(t, a, t);
      KeyOrder(last, a, t);
      KeyOrder(last, t, a);
      KeyOrder(a, last, a);
    }
  }

  /** Not created later, and of two created at once not the one with the greater id. */
  predicate NoLater(a: Task, b: Task) {
    a.Task? && b.Task? && (a.created < b.created || (a.created == b.created && !LessText(b.id, a.id)))
  }

  predicate SameKey(a: Task, b: Task) { a.Task? && b.Task? && a.created == b.created && a.id == b.id }

  lemma BeatsMeans(a: Task, b: Task)
    requires a.Task? && b.Task?
    ensures !KeyLess(b, a) ==> NoLater(a, b)
    ensures KeyLess(a, b) ==> NoLater(a, b) && !SameKey(a, b)
  {
    hide LessText;
    LessTextOrder(a.id, b.id, a.id);
  }

  /** What the words mean, in upper or lower case. "latest", "newest" and "last" pick a fast-runnable task than which
      none was created later, with the id to decide between equal times and the place in the list after that;
      "next", "oldest" and "first" one than which none was created earlier. They pick none only when there is none. */
  lemma SelectorPicks(tasks: seq<Task>, selector: string) returns (i: nat)
    requires Lower(selector) in {"latest", "newest", "last", "next", "oldest", "first"}
    ensures Select(tasks, selector).None? ==> forall t | t in tasks :: !IsFastRunnable(t)
    ensures Select(tasks, selector).Some? ==>
              && i < |tasks| && Select(tasks, selector) == Some(tasks[i]) && IsFastRunnable(tasks[i])
              && forall j | 0 <= j < |tasks| && j != i && IsFastRunnable(tasks[j]) ::
                   var newest := Lower(selector) in {"latest", "newest", "last"};
                   if newest then NoLater(tasks[j], tasks[i]) && (SameKey(tasks[j], tasks[i]) ==> j < i)
                   else NoLater(tasks[i], tasks[j]) && (SameKey(tasks[j], tasks[i]) ==> i < j)
  {
    hide IsFastRunnable, KeyLess, NoLater, Extreme, Select, Lower;
    SelectMeans(tasks, selector);
    var newest := Lower(selector) in {"latest", "newest", "last"};
    WordsApart();
    assert MeansNewest(Lower(selector)) == newest;
    i := 0;
    if Select(tasks, selector).Some? {
      i := ExtremeAt(newest, tasks);
      FastIsTask(tasks[i]);
      forall j | 0 <= j < |tasks| && j != i && IsFastRunnable(tasks[j])
        ensures if newest then NoLater(tasks[j], tasks[i]) && (SameKey(tasks[j], tasks[i]) ==> j < i)
                else NoLater(tasks[i], tasks[j]) && (SameKey(tasks[j], tasks[i]) ==> i < j)
      {
        FastIsTask(tasks[j]);
        assert Beats(newest, tasks, i, j);
        BeatsMeans(tasks[i], tasks[j]);
        BeatsMeans(tasks[j], tasks[i]);
      }
    } else {
      forall t | t in tasks ensures !IsFastRunnable(t) {
        if IsFastRunnable(t) { ExtremeIsBest(newest, tasks, t); }
      }
    }
  }

  lemma WordsApart()
    ensures {"latest", "newest", "last"} !! {"next", "oldest", "first"}
  {
    assert "latest"[0] == 'l' && "newest"[0] == "next"[0] == 'n' && "last"[0] == 'l' && "oldest"[0] == 'o' && "first"[0] == 'f';
    assert |"newest"| == 6 && |"next"| == 4;
  }

  // ---- Selection and cleanup ----

  lemma CleanedSnoc(tasks: seq<Task>, targets: seq<Task>)
    requires tasks != []
    ensures var n := |tasks| - 1;
            Cleaned(tasks, targets) == Cleaned(tasks[..n], targets) + [CleanedTask(tasks[n], targets)]
  {
    hide CleanedTask;
  }

  lemma {:induction false} FastCleaned(tasks: seq<Task>, targets: seq<Task>)
    requires forall t | t in tasks && IsFastRunnable(t) :: !InIds(t, targets)
    ensures FastRunnable(Cleaned(tasks, targets)) == FastRunnable(tasks)
  {
    hide IsFastRunnable, Archived, InIds, Cleaned;
    if tasks != [] {
      var init, last := tasks[..|tasks| - 1], tasks[|tasks| - 1];
      CleanedSnoc(tasks, targets);
      FastCleaned(init, targets);
      var c := Cleaned(init, targets);
      assert (c + [CleanedTask(last, targets)])[..|c|] == c;
      if InIds(last, targets) { InIdsTask(last, targets); ArchivedIsQuiet(last); assert !IsFastRunnable(last); }
    }
  }

  lemma InIdsTask(t: Task, targets: seq<Task>)
    requires InIds(t, targets)
    ensures t.Task?
  {}

  lemma CleanedCons(tasks: seq<Task>, targets: seq<Task>)
    requires tasks != []
    ensures Cleaned(tasks, targets) == [CleanedTask(tasks[0], targets)] + Cleaned(tasks[1..], targets)
  {
    hide CleanedTask;
  }

  lemma CleanedId(t: Task, targets: seq<Task>)
    ensures var c := CleanedTask(t, targets); (c.Task? <==> t.Task?) && (t.Task? ==> c.id == t.id)
  {
    hide ArchiveStatus, CleanupMeta;
  }

  lemma {:induction false} FindCleaned(tasks: seq<Task>, targets: seq<Task>, id: string)
    ensures var found := FindById(tasks, id);
            FindById(Cleaned(tasks, targets), id) == if found.None? then None else Some(CleanedTask(found.value, targets))
  {
    hide CleanedTask, Cleaned;
    if tasks != [] {
      FindCleaned(tasks[1..], targets, id);
      CleanedCons(tasks, targets);
      CleanedId(tasks[0], targets);
      assert ([CleanedTask(tasks[0], targets)] + Cleaned(tasks[1..], targets))[1..] == Cleaned(tasks[1..], targets);
    }
  }

  lemma {:induction false} FoundIsThere(tasks: seq<Task>, id: string)
    requires FindById(tasks, id).Some?
    ensures var t := FindById(tasks, id).value; t in tasks && t.Task? && t.id == id
  {
    if !(tasks[0].Task? && tasks[0].id == id) { FoundIsThere(tasks[1..], id); }
  }

  lemma {:induction false} Findable(tasks: seq<Task>, t: Task)
    requires t in tasks && t.Task?
    ensures FindById(tasks, t.id).Some?
  {
    if !(tasks[0].Task? && tasks[0].id == t.id) { Findable(tasks[1..], t); }
  }

  /** The candidates of the selector are the same after cleanup if and only if no fast-runnable task shares
      its id with a target. */
  lemma CandidatesKeptIff(tasks: seq<Task>, includeStale: bool)
    ensures FastRunnable(Cleanup(tasks, includeStale)) == FastRunnable(tasks)
        <==> (forall t | t in tasks && IsFastRunnable(t) :: !Shares(t, tasks, includeStale))
  {
    hide IsFastRunnable, Archived, Shares, IsTarget;
    var targets := Targets(tasks, includeStale);
    SharesIsInIds(tasks, includeStale);
    if forall t | t in tasks && IsFastRunnable(t) :: !Shares(t, tasks, includeStale) {
      FastCleaned(tasks, targets);
    }
    if FastRunnable(Cleanup(tasks, includeStale)) == FastRunnable(tasks) {
      forall t | t in tasks && IsFastRunnable(t) ensures !Shares(t, tasks, includeStale) { KeptUnshared(tasks, includeStale, t); }
    }
  }

  lemma SharesIsInIds(tasks: seq<Task>, includeStale: bool)
    ensures forall t :: InIds(t, Targets(tasks, includeStale)) <==> Shares(t, tasks, includeStale)
  {
    hide IsTarget;
    AreTargets(tasks, includeStale);
  }

  lemma KeptUnshared(tasks: seq<Task>, includeStale: bool, t: Task)
    requires IsFastRunnable(t) && t in Cleanup(tasks, includeStale)
    ensures !Shares(t, tasks, includeStale)
  {
    hide IsFastRunnable, Archived, Shares, IsTarget, Cleanup;
    CleanupAt(tasks, includeStale);
    var i :| 0 <= i < |tasks| && Cleanup(tasks, includeStale)[i] == t;
    if Shares(tasks[i], tasks, includeStale) { SharesTask(tasks[i], tasks, includeStale); ArchivedIsQuiet(tasks[i]); }
  }

  lemma FastInCleaned(tasks: seq<Task>, targets: seq<Task>, t: Task)
    requires t in Cleaned(tasks, targets) && IsFastRunnable(t)
    ensures t in tasks && !InIds(t, targets)
  {
    hide IsFastRunnable, Archived, InIds;
    var i :| 0 <= i < |tasks| && Cleaned(tasks, targets)[i] == t;
    if InIds(tasks[i], targets) {
      InIdsTask(tasks[i], targets);
      ArchivedIsQuiet(tasks[i]);
    }
  }

  lemma CleanedCandidate(t: Task, targets: seq<Task>)
    ensures Candidate(CleanedTask(t, targets)) == if InIds(t, targets) then None else Candidate(t)
  {
    hide IsFastRunnable, Archived, InIds;
    if InIds(t, targets) {
      InIdsTask(t, targets);
      ArchivedIsQuiet(t);
    }
  }

  lemma BetterStays(newest: bool, a: Option<Task>, a': Option<Task>, c: Option<Task>)
    requires Proper(a) && Proper(a') && Proper(c)
    requires a.None? ==> a'.None?
    requires a.Some? && a'.Some? ==> if newest then !KeyLess(a.value, a'.value) else !KeyLess(a'.value, a.value)
    ensures c.Some? && a != c && Better(newest, a, c) == c ==> Better(newest, a', c) == c
  {
    hide KeyLess;
    if a.Some? && a'.Some? && c.Some? {
      KeyOrder(c.value, a'.value, a.value);
      KeyOrder(c.value, a.value, a'.value);
    }
  }

  /** An extreme that is not archived stays the extreme; where there was none, none appears. */
  lemma {:induction false} ExtremeCleaned(newest: bool, tasks: seq<Task>, targets: seq<Task>)
    ensures var best, after := Extreme(newest, tasks), Extreme(newest, Cleaned(tasks, targets));
            && (best.Some? && !InIds(best.value, targets) ==> after == best)
            && (best.None? ==> after.None?)
  {
    hide IsFastRunnable, InIds, Cleaned, CleanedTask, Candidate, KeyLess;
    if tasks == [] {
      assert Cleaned(tasks, targets) == [];
    } else {
      var init, last := tasks[..|tasks| - 1], tasks[|tasks| - 1];
      CleanedSnoc(tasks, targets);
      var c := Cleaned(init, targets);
      assert (c + [CleanedTask(last, targets)])[..|c|] == c;
      ExtremeCleaned(newest, init, targets);
      CleanedCandidate(last, targets);
      var a, a', k := Extreme(newest, init), Extreme(newest, c), Candidate(last);
      ProperExtreme(newest, init);
      ProperExtreme(newest, c);
      ProperCandidate(last);
      if a'.Some? {
        FastInCleaned(init, targets, a'.value);
        ExtremeIsBest(newest, init, a'.value);
      }
      BetterStays(newest, a, a', k);
      CandidateIs(last);
    }
  }

  lemma CandidateIs(t: Task)
    ensures Candidate(t).Some? ==> Candidate(t).value == t
  {}

  /** A selector picks the same task before and after a cleanup if and only if its pick, when it makes one, shares
      no target's id. */
  lemma SelectionKeptIff(tasks: seq<Task>, includeStale: bool, selector: string)
    ensures Select(Cleanup(tasks, includeStale), selector) == Select(tasks, selector)
        <==> (Select(tasks, selector).Some? ==> !Shares(Select(tasks, selector).value, tasks, includeStale))
  {
    hide IsFastRunnable, Shares, InIds, Select, Lower, Extreme, Exact, Cleaned, Targets;
    var targets := Targets(tasks, includeStale);
    var newest := MeansNewest(Lower(selector));
    SharesIsInIds(tasks, includeStale);
    SelectMeans(tasks, selector);
    SelectMeans(Cleanup(tasks, includeStale), selector);
    ExtremeCleaned(newest, tasks, targets);
    ExactKept(tasks, targets, selector);
    var after := Select(Cleanup(tasks, includeStale), selector);
    if after.Some? {
      PickedIsFast(Cleanup(tasks, includeStale), selector);
      FastInCleaned(tasks, targets, after.value);
    }
  }

  lemma ExactKept(tasks: seq<Task>, targets: seq<Task>, id: string)
    ensures var before, after := Exact(tasks, id), Exact(Cleaned(tasks, targets), id);
            && (before.Some? && !InIds(before.value, targets) ==> after == before)
            && (before.None? ==> after.None?)
  {
    hide IsFastRunnable, InIds, FindById, Cleaned, CleanedTask;
    FindCleaned(tasks, targets, id);
    var found := FindById(tasks, id);
    if found.Some? { CleanedCandidate(found.value, targets); }
    ExactIs(tasks, id);
    ExactIs(Cleaned(tasks, targets), id);
  }

  lemma ExactIs(tasks: seq<Task>, id: string)
    ensures var found := FindById(tasks, id); Exact(tasks, id) == if found.None? then None else Candidate(found.value)
  {
    hide IsFastRunnable, FindById;
  }

  lemma PickedIsFast(tasks: seq<Task>, selector: string)
    requires Select(tasks, selector).Some?
    ensures Select(tasks, selector).value in tasks && IsFastRunnable(Select(tasks, selector).value)
  {
    hide IsFastRunnable, Select, Extreme, FindById, Lower;
    SelectMeans(tasks, selector);
    if FindById(tasks, selector).Some? { FoundIsThere(tasks, selector); }
  }

  /** With distinct ids the condition always holds. */
  lemma SelectionKeptByDistinctIds(tasks: seq<Task>, includeStale: bool, selector: string)
    requires DistinctIds(tasks)
    ensures Select(Cleanup(tasks, includeStale), selector) == Select(tasks, selector)
  {
    hide DistinctIds, Select, Cleanup, IsFastRunnable, IsTarget, Shares;
    DistinctIdsSuffice(tasks, includeStale);
    forall t | t in tasks && IsFastRunnable(t) ensures !Shares(t, tasks, includeStale) {
      var i :| 0 <= i < |tasks| && tasks[i] == t;
      FastIsNoTarget(t, includeStale);
    }
    SelectionKeptIff(tasks, includeStale, selector);
    if Select(tasks, selector).Some? { PickedIsFast(tasks, selector); }
  }

  lemma FastIsNoTarget(t: Task, includeStale: bool)
    requires IsFastRunnable(t)
    ensures !IsTarget(t, includeStale)
  {}

  // ---- The fall-through to the scheduler ----

  ghost predicate HasLegacyRunnable(tasks: seq<Task>) { exists t | t in tasks :: IsLegacyRunnable(t) }

  /** The loop of the original. */
  method HasLegacySchedulerRunnableTasks(tasks: seq<Task>) returns (r: bool)
    ensures r <==> HasLegacyRunnable(tasks)
  {
    hide QueuedStatus, IsActive;
    var i := 0;
    while i < |tasks|
      invariant i <= |tasks|
      invariant forall k | 0 <= k < i :: !IsLegacyRunnable(tasks[k])
    {
      var task := tasks[i];
      if task.Task? && (IsActive(QueuedStatus(task)) || QueuedStatus(task) == "running") {
        if !task.fast {
          assert task in tasks && IsLegacyRunnable(task);
          return true;
        }
      }
      i := i + 1;
    }
    return false;
  }

  /** A task for the scheduler is one with an active or running status, in any case and spacing, that is not fast. */
  lemma LegacyMeans(t: Task)
    ensures IsLegacyRunnable(t) <==>
              t.Task? && Lower(Strip(t.status)) in {"queued", "ready", "retry", "retrying", "running"} && !t.fast
  {
    hide Lower, Strip;
    if t.Task? { QueuedIsTaskStatus(t); }
  }

  /** After a cleanup that includes stale tasks, only a running task can cause the fall-through: one that is
      not fast and does not share its id with a target. */
  lemma LegacyAfterCleanup(tasks: seq<Task>)
    ensures HasLegacyRunnable(Cleanup(tasks, true))
        <==> exists t | t in tasks :: t.Task? && QueuedStatus(t) == "running" && !t.fast && !Shares(t, tasks, true)
  {
    hide QueuedStatus, IsTarget, Shares, Archived, Cleanup, IsLegacyRunnable;
    CleanupAt(tasks, true);
    var r := Cleanup(tasks, true);
    forall i | 0 <= i < |tasks|
      ensures IsLegacyRunnable(r[i]) <==>
                tasks[i].Task? && QueuedStatus(tasks[i]) == "running" && !tasks[i].fast && !Shares(tasks[i], tasks, true)
    {
      SharesOwn(tasks, true, i);
      LegacyIsRunning(tasks[i]);
      if Shares(tasks[i], tasks, true) { SharesTask(tasks[i], tasks, true); ArchivedIsQuiet(tasks[i]); }
    }
    if HasLegacyRunnable(r) {
      var t :| t in r && IsLegacyRunnable(t);
      var i :| 0 <= i < |r| && r[i] == t;
      assert tasks[i] in tasks;
    }
  }

  /** A task that is no target is left to the scheduler exactly when it is running and not fast. */
  lemma LegacyIsRunning(t: Task)
    ensures !IsTarget(t, true) ==> (IsLegacyRunnable(t) <==> t.Task? && QueuedStatus(t) == "running" && !t.fast)
  {
    hide QueuedStatus, InvalidReason;
  }

  // ---- Putting the picked task first ----

  function WithId(tasks: seq<Task>, id: string, wanted: bool): seq<Task> {
    if tasks == [] then []
    else
      var last := tasks[|tasks| - 1];
      WithId(tasks[..|tasks| - 1], id, wanted) + if (last.Task? && last.id == id) == wanted then [last] else []
  }

  function Reordered(tasks: seq<Task>, id: string): seq<Task> { WithId(tasks, id, true) + WithId(tasks, id, false) }

  method ReorderSelectedTaskFirst(tasks: seq<Task>, id: string) returns (r: seq<Task>)
    ensures r == Reordered(tasks, id)
  {
    var selected: seq<Task>, rest: seq<Task> := [], [];
    var i := 0;
    while i < |tasks|
      invariant i <= |tasks|
      invariant selected == WithId(tasks[..i], id, true) && rest == WithId(tasks[..i], id, false)
    {
      assert tasks[..i + 1][..i] == tasks[..i] && selected + [] == selected && rest + [] == rest;
      if tasks[i].Task? && tasks[i].id == id {
        selected := selected + [tasks[i]];
      } else {
        rest := rest + [tasks[i]];
      }
      i := i + 1;
    }
    assert tasks[..i] == tasks;
    r := selected + rest;
  }

  lemma {:induction false} ReorderKeepsTasks(tasks: seq<Task>, id: string)
    ensures multiset(Reordered(tasks, id)) == multiset(tasks)
    ensures forall t | t in WithId(tasks, id, true) :: t.Task? && t.id == id
    ensures forall t | t in WithId(tasks, id, false) :: !(t.Task? && t.id == id)
  {
    if tasks != [] {
      ReorderKeepsTasks(tasks[..|tasks| - 1], id);
      assert tasks == tasks[..|tasks| - 1] + [tasks[|tasks| - 1]];
    }
  }

  /** Within each of its two parts the reordered list keeps the order of the list. */
  lemma {:induction false} PartsInOrder(a: seq<Task>, b: seq<Task>, id: string, wanted: bool)
    ensures WithId(a + b, id, wanted) == WithId(a, id, wanted) + WithId(b, id, wanted)
    ensures |b| == 1 ==> WithId(b, id, wanted) == if (b[0].Task? && b[0].id == id) == wanted then b else []
  {
    if b == [] {
      assert a + b == a && WithId(a, id, wanted) + [] == WithId(a, id, wanted);
    } else {
      var init, last := b[..|b| - 1], b[|b| - 1];
      assert (a + b)[..|a + b| - 1] == a + init && (a + b)[|a + b| - 1] == last;
      PartsInOrder(a, init, id, wanted);
      var tail := if (last.Task? && last.id == id) == wanted then [last] else [];
      assert WithId(a, id, wanted) + (WithId(init, id, wanted) + tail) == (WithId(a, id, wanted) + WithId(init, id, wanted)) + tail;
      if |b| == 1 { assert init == [] && WithId(init, id, wanted) == [] && b == [last]; }
    }
  }

  // Two tasks compared when their ids differ: the order of comparison does not matter.
  ghost predicate Apart(a: Option<Task>, b: Option<Task>) {
    a.Some? && b.Some? ==> a.value.Task? && b.value.Task? && a.value.id != b.value.id
  }

  ghost predicate Proper(a: Option<Task>) { a.Some? ==> a.value.Task? }

  lemma BetterLaws(newest: bool, a: Option<Task>, b: Option<Task>, c: Option<Task>)
    requires Proper(a) && Proper(b) && Proper(c)
    ensures Better(newest, Better(newest, a, b), c) == Better(newest, a, Better(newest, b, c))
    ensures Apart(b, c) ==> Better(newest, b, c) == Better(newest, c, b)
  {
    hide KeyLess;
    if b.Some? && c.Some? {
      KeyOrder(b.value, c.value, b.value);
      KeyOrder(c.value, b.value, c.value);
      if a.Some? {
        KeyOrder(a.value, b.value, c.value);
        KeyOrder(c.value, b.value, a.value);
        KeyOrder(b.value, a.value, c.value);
        KeyOrder(b.value, c.value, a.value);
        KeyOrder(c.value, a.value, b.value);
        KeyOrder(a.value, c.value, b.value);
      }
    }
  }

  lemma {:induction false} ExtremeAppend(newest: bool, a: seq<Task>, b: seq<Task>)
    ensures Extreme(newest, a + b) == Better(newest, Extreme(newest, a), Extreme(newest, b))
  {
    hide IsFastRunnable, Better, KeyLess;
    ProperExtreme(newest, a);
    if b == [] {
      assert a + b == a;
      BetterNone(Extreme(newest, a), Extreme(newest, a));
    } else {
      var init, last := b[..|b| - 1], b[|b| - 1];
      assert (a + b)[..|a + b| - 1] == a + init && (a + b)[|a + b| - 1] == last;
      ExtremeAppend(newest, a, init);
      ProperExtreme(newest, init);
      ProperCandidate(last);
      BetterLaws(newest, Extreme(newest, a), Extreme(newest, init), Candidate(last));
    }
  }

  lemma ProperExtreme(newest: bool, tasks: seq<Task>)
    ensures Proper(Extreme(newest, tasks))
  {
    hide Extreme;
  }

  lemma ProperCandidate(t: Task)
    ensures Proper(Candidate(t))
  {}

  /** The extreme of a list is the better of the extremes of its two parts, however they interleave. */
  lemma {:induction false} ExtremeOfParts(newest: bool, tasks: seq<Task>, id: string)
    ensures var a, b := Extreme(newest, WithId(tasks, id, true)), Extreme(newest, WithId(tasks, id, false));
            Extreme(newest, tasks) == Better(newest, a, b)
  {
    hide IsFastRunnable, Better, KeyLess, Candidate;
    if tasks == [] {
      BetterNone(None, None);
    } else {
      var init, last := tasks[..|tasks| - 1], tasks[|tasks| - 1];
      var mine, others := WithId(init, id, true), WithId(init, id, false);
      var a, b, c := Extreme(newest, mine), Extreme(newest, others), Candidate(last);
      ExtremeOfParts(newest, init, id);
      ProperExtreme(newest, mine);
      ProperExtreme(newest, others);
      ProperCandidate(last);
      assert mine + [] == mine && others + [] == others;
      if last.Task? && last.id == id {
        assert (mine + [last])[..|mine|] == mine;
        PartsApart(newest, init, id, last);
        BetterLaws(newest, a, b, c);
        BetterLaws(newest, a, c, b);
      } else {
        assert (others + [last])[..|others|] == others;
        BetterLaws(newest, a, b, c);
      }
    }
  }

  lemma PartsApart(newest: bool, tasks: seq<Task>, id: string, t: Task)
    requires t.Task? && t.id == id
    ensures Apart(Extreme(newest, WithId(tasks, id, false)), Candidate(t))
  {
    hide Extreme, WithId;
    ReorderKeepsTasks(tasks, id);
    ProperExtreme(newest, WithId(tasks, id, false));
  }

  lemma {:induction false} FindAppend(a: seq<Task>, b: seq<Task>, x: string)
    ensures FindById(a + b, x) == if FindById(a, x).Some? then FindById(a, x) else FindById(b, x)
  {
    if a == [] {
      assert a + b == b;
    } else {
      assert (a + b)[1..] == a[1..] + b;
      FindAppend(a[1..], b, x);
    }
  }

  lemma {:induction false} FindPart(tasks: seq<Task>, id: string, wanted: bool, x: string)
    ensures FindById(WithId(tasks, id, wanted), x) == if (x == id) == wanted then FindById(tasks, x) else None
  {
    if tasks != [] {
      var init, last := tasks[..|tasks| - 1], tasks[|tasks| - 1];
      assert tasks == init + [last];
      FindPart(init, id, wanted, x);
      FindAppend(init, [last], x);
      FindAppend(WithId(init, id, wanted), [last], x);
      FindOne(last, x);
      assert WithId(init, id, wanted) + [] == WithId(init, id, wanted);
    }
  }

  lemma FindOne(t: Task, x: string)
    ensures FindById([t], x) == if t.Task? && t.id == x then Some(t) else None
  {}

  lemma FindReordered(tasks: seq<Task>, id: string, x: string)
    ensures FindById(Reordered(tasks, id), x) == FindById(tasks, x)
  {
    FindAppend(WithId(tasks, id, true), WithId(tasks, id, false), x);
    FindPart(tasks, id, true, x);
    FindPart(tasks, id, false, x);
  }

  /** Putting a task first changes no later selection, whatever the ids. */
  lemma ReorderKeepsSelection(tasks: seq<Task>, id: string, selector: string)
    ensures Select(Reordered(tasks, id), selector) == Select(tasks, selector)
  {
    hide Select, Better, Extreme, FindById, WithId, IsFastRunnable, Lower;
    var r := Reordered(tasks, id);
    SelectMeans(tasks, selector);
    SelectMeans(r, selector);
    FindReordered(tasks, id, selector);
    var newest := MeansNewest(Lower(selector));
    ExtremeOfParts(newest, tasks, id);
    ExtremeAppend(newest, WithId(tasks, id, true), WithId(tasks, id, false));
  }

  /** What then stands first is the first task with the id of the one that was picked: the picked
      task itself unless another one before it has its id. */
  lemma PickedComesFirst(tasks: seq<Task>, selector: string)
    requires Select(tasks, selector).Some?
    ensures var t := Select(tasks, selector).value;
            t in tasks && t.Task? && Reordered(tasks, t.id) != [] && FindById(tasks, t.id) == Some(Reordered(tasks, t.id)[0])
  {
    hide Select, Extreme, FindById, WithId, IsFastRunnable, Lower;
    PickedIsFast(tasks, selector);
    var t := Select(tasks, selector).value;
    FastIsTask(t);
    Findable(tasks, t);
    FindPart(tasks, t.id, true, t.id);
    ReorderKeepsTasks(tasks, t.id);
    FindsFirst(WithId(tasks, t.id, true), t.id);
  }

  lemma FindsFirst(tasks: seq<Task>, id: string)
    requires FindById(tasks, id).Some? && forall t | t in tasks :: t.Task? && t.id == id
    ensures tasks != [] && FindById(tasks, id) == Some(tasks[0])
  {}
}
