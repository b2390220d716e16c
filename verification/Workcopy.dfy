/** The isolated workcopy: copying the live tree into it, the difference between the two, and carrying
    reviewed differences back. */
module Workcopy {
  import opened Text
  import opened PathRules

  type Content = seq<int>

  /** A directory tree: files and directories by their path components relative to its root. */
  datatype Tree = Tree(files: map<Path, Content>, dirs: set<Path>)

  const EXCLUDE_DIR_NAMES: set<string> :=
    {".git", ".venv", "venv", "__pycache__", ".pytest_cache", ".mypy_cache", ".ruff_cache", "node_modules",
     ".test_tmp", "tmp", "temp", "logs", ".cache"}
  const EXCLUDE_FILE_NAMES: set<string> := {"persona_command_console.py", "persona_workcopy_executor.py"}
  const EXCLUDE_FILE_SUFFIXES: set<string> := {".pyc", ".pyo", ".log", ".tmp"}
  const SELF_EDIT: Path := ["workspace", "self_edit"]
  const RUNTIME_DIRS: set<string> :=
    {"zero_ai_workcopy", "review", "persona_inbox", "persona_outbox", "persona_execution"}

  ghost predicate WellFormed(t: Tree) {
    && (forall p | p in t.files :: p != [] && p !in t.dirs)
    && (forall p, k | (p in t.files || p in t.dirs) && 0 < k < |p| :: p[..k] in t.dirs)
    && [] !in t.dirs
  }

  // ---- Exclusion ----

  predicate ExcludedPart(p: Path) { exists part | part in p :: part in EXCLUDE_DIR_NAMES }

  predicate ExcludedName(p: Path, isFile: bool) {
    p != [] && (Last(p) in EXCLUDE_FILE_NAMES || (isFile && Lower(Suffix(Last(p))) in EXCLUDE_FILE_SUFFIXES))
  }

  predicate IsExcludedLive(p: Path, isFile: bool) {
    SELF_EDIT <= p || ExcludedPart(p) || ExcludedName(p, isFile)
  }

  predicate RuntimeInternal(p: Path) { |p| >= 3 && SELF_EDIT <= p && p[2] in RUNTIME_DIRS }

  predicate IsExcludedWorkcopy(p: Path, isFile: bool) {
    ExcludedPart(p) || p == SELF_EDIT || RuntimeInternal(p) || ExcludedName(p, isFile)
  }

  // ---- The difference ----

  datatype Status = Added | Modified | Deleted

  datatype Change = Change(path: Path, status: Status)

  function LiveFiles(live: Tree): map<Path, Content> {
    map p | p in live.files && !IsExcludedLive(p, true) :: live.files[p]
  }

  function WorkFiles(work: Tree): map<Path, Content> {
    map p | p in work.files && !IsExcludedWorkcopy(p, true) :: work.files[p]
  }

  /** How one path differs between the two scans. */
  function StatusOf(live: map<Path, Content>, work: map<Path, Content>, p: Path): Option<Status> {
    if p !in live && p in work then Some(Added)
    else if p in live && p !in work then Some(Deleted)
    else if p in live && p in work && live[p] != work[p] then Some(Modified)
    else None
  }

  /** The relative path as the manifest spells it. */
  function PosixName(p: Path): string { Join(p, "/") }

  /** In the order of the names, as the original sorts it. */
  ghost predicate Sorted(order: seq<Path>) {
    forall i, j | 0 <= i < j < |order| :: !LessText(PosixName(order[j]), PosixName(order[i]))
  }

  /** A listing of all scanned paths without repetition. */
  ghost predicate Listing(order: seq<Path>, live: map<Path, Content>, work: map<Path, Content>) {
    && (forall p :: p in order <==> p in live || p in work)
    && forall i, j | 0 <= i < j < |order| :: order[i] != order[j]
  }

  function Changes(live: map<Path, Content>, work: map<Path, Content>, order: seq<Path>): (r: seq<Change>)
    ensures forall c :: c in r <==> c.path in order && StatusOf(live, work, c.path) == Some(c.status)
  {
    if order == [] then []
    else
      match StatusOf(live, work, order[|order| - 1])
      case None => Changes(live, work, order[..|order| - 1])
      case Some(s) => Changes(live, work, order[..|order| - 1]) + [Change(order[|order| - 1], s)]
  }

  function Count(changes: seq<Change>, s: Status): nat {
    if changes == [] then 0
    else Count(changes[..|changes| - 1], s) + if changes[|changes| - 1].status == s then 1 else 0
  }

  function Counts(changes: seq<Change>): (r: map<Status, nat>)
    ensures Added in r && Modified in r && Deleted in r
  {
    map[Added := Count(changes, Added), Modified := Count(changes, Modified), Deleted := Count(changes, Deleted)]
  }

  lemma ChangesNone(live: map<Path, Content>, work: map<Path, Content>)
    ensures Changes(live, work, []) == [] && Counts([]) == map[Added := 0, Modified := 0, Deleted := 0]
  {}

  lemma ChangesSnoc(live: map<Path, Content>, work: map<Path, Content>, order: seq<Path>, i: nat)
    requires i < |order|
    ensures Changes(live, work, order[..i + 1]) ==
            match StatusOf(live, work, order[i])
            case None => Changes(live, work, order[..i])
            case Some(s) => Changes(live, work, order[..i]) + [Change(order[i], s)]
  {
    assert order[..i + 1][..i] == order[..i];
  }

  lemma CountsSnoc(changes: seq<Change>, c: Change)
    ensures c.status.Added? || c.status.Modified? || c.status.Deleted?
    ensures Counts(changes + [c]) == Counts(changes)[c.status := Counts(changes)[c.status] + 1]
  {
    assert (changes + [c])[..|changes|] == changes;
  }

  lemma ScansAreFiltered(live: Tree, work: Tree)
    ensures LiveFiles(live) == map p | p in live.files && !((q: Path) => IsExcludedLive(q, true))(p) :: live.files[p]
    ensures WorkFiles(work) == map p | p in work.files && !((q: Path) => IsExcludedWorkcopy(q, true))(p) :: work.files[p]
  {}

  /** Scan a tree, dropping excluded files. */
  method CollectFileMap(files: map<Path, Content>, excluded: Path -> bool) returns (r: map<Path, Content>)
    ensures r == map p | p in files && !excluded(p) :: files[p]
  {
    r := map[];
    var todo := files.Keys;
    while todo != {}
      invariant todo <= files.Keys
      invariant r == map p | p in files && p !in todo && !excluded(p) :: files[p]
      decreases todo
    {
      var p :| p in todo;
      todo := todo - {p};
      if !excluded(p) { r := r[p := files[p]]; }
    }
  }

  method CollectChanges(live: Tree, work: Tree, order: seq<Path>) returns (changes: seq<Change>, counts: map<Status, nat>)
    requires Listing(order, LiveFiles(live), WorkFiles(work))
    ensures changes == Changes(LiveFiles(live), WorkFiles(work), order)
    ensures counts == Counts(changes)
    ensures PathsOf(changes, Added) == OnlyInWork(live, work) && counts[Added] == |OnlyInWork(live, work)|
    ensures PathsOf(changes, Deleted) == OnlyInLive(live, work) && counts[Deleted] == |OnlyInLive(live, work)|
    ensures PathsOf(changes, Modified) == InBothDiffering(live, work) && counts[Modified] == |InBothDiffering(live, work)|
  {
    hide LiveFiles, WorkFiles, IsExcludedLive, IsExcludedWorkcopy, Changes, Counts, StatusOf, PathsOf, OnlyInWork, OnlyInLive, InBothDiffering, Listing;
    ChangesNone(LiveFiles(live), WorkFiles(work));
    var liveFiles := CollectFileMap(live.files, p => IsExcludedLive(p, true));
    var workFiles := CollectFileMap(work.files, p => IsExcludedWorkcopy(p, true));
    ScansAreFiltered(live, work);
    changes := [];
    counts := map[Added := 0, Modified := 0, Deleted := 0];
    var i := 0;
    while i < |order|
      invariant i <= |order|
      invariant changes == Changes(liveFiles, workFiles, order[..i])
      invariant counts == Counts(changes)
    {
      var name := order[i];
      ChangesSnoc(liveFiles, workFiles, order, i);
      var status := StatusOf(liveFiles, workFiles, name);
      if status.Some? {
        CountsSnoc(changes, Change(name, status.value));
        changes := changes + [Change(name, status.value)];
        counts := counts[status.value := counts[status.value] + 1];
      }
      i := i + 1;
    }
    assert order[..i] == order;
    ManifestMeans(live, work, order);
  }

  /** The manifest's paths of one status. */
  function PathsOf(changes: seq<Change>, s: Status): set<Path> {
    set c | c in changes && c.status == s :: c.path
  }

  ghost predicate DistinctPaths(changes: seq<Change>) {
    forall i, j | 0 <= i < j < |changes| :: changes[i].path != changes[j].path
  }

  lemma PathsSnoc(init: seq<Change>, c: Change, s: Status)
    ensures PathsOf(init + [c], s) == PathsOf(init, s) + if c.status == s then {c.path} else {}
    ensures Count(init + [c], s) == Count(init, s) + if c.status == s then 1 else 0
  {
    assert (init + [c])[..|init|] == init;
    forall p ensures p in PathsOf(init + [c], s) <==> p in PathsOf(init, s) || (c.status == s && p == c.path) {
      assert c in init + [c];
      if p in PathsOf(init, s) {
        var d :| d in init && d.status == s && d.path == p;
        assert d in init + [c];
      }
    }
  }

  lemma {:induction false} CountDistinct(changes: seq<Change>, s: Status)
    requires DistinctPaths(changes)
    ensures Count(changes, s) == |PathsOf(changes, s)|
  {
    if changes != [] {
      var init, c := changes[..|changes| - 1], changes[|changes| - 1];
      CountDistinct(init, s);
      PathsSnoc(init, c, s);
      assert changes == init + [c];
      assert c.path !in PathsOf(init, s);
    }
  }

  lemma {:induction false} ChangesDistinct(live: map<Path, Content>, work: map<Path, Content>, order: seq<Path>)
    requires forall i, j | 0 <= i < j < |order| :: order[i] != order[j]
    ensures DistinctPaths(Changes(live, work, order))
  {
    hide StatusOf;
    if order != [] {
      var init, p := order[..|order| - 1], order[|order| - 1];
      ChangesDistinct(live, work, init);
      assert forall c | c in Changes(live, work, init) :: c.path != p;
    }
  }

  lemma ChangesPaths(live: map<Path, Content>, work: map<Path, Content>, order: seq<Path>, s: Status)
    requires Listing(order, live, work)
    ensures Count(Changes(live, work, order), s) == |PathsOf(Changes(live, work, order), s)|
    ensures forall p :: p in PathsOf(Changes(live, work, order), s) <==> StatusOf(live, work, p) == Some(s)
  {
    hide StatusOf, Count, PathsOf;
    var changes := Changes(live, work, order);
    ChangesDistinct(live, work, order);
    CountDistinct(changes, s);
    forall p ensures p in PathsOf(changes, s) <==> StatusOf(live, work, p) == Some(s) {
      InPaths(changes, p, s);
      StatusListed(live, work, p);
    }
  }

  lemma StatusListed(live: map<Path, Content>, work: map<Path, Content>, p: Path)
    ensures StatusOf(live, work, p).Some? ==> p in live || p in work
  {}

  lemma InPaths(changes: seq<Change>, p: Path, s: Status)
    ensures p in PathsOf(changes, s) <==> Change(p, s) in changes
  {
    if Change(p, s) in changes { assert Change(p, s).path in PathsOf(changes, s); }
  }

  predicate InLive(live: Tree, p: Path) { p in live.files && !IsExcludedLive(p, true) }

  predicate InWork(work: Tree, p: Path) { p in work.files && !IsExcludedWorkcopy(p, true) }

  function OnlyInWork(live: Tree, work: Tree): set<Path> { set p | p in work.files && InWork(work, p) && !InLive(live, p) }

  function OnlyInLive(live: Tree, work: Tree): set<Path> { set p | p in live.files && InLive(live, p) && !InWork(work, p) }

  function InBothDiffering(live: Tree, work: Tree): set<Path> {
    set p | p in live.files && InLive(live, p) && InWork(work, p) && live.files[p] != work.files[p]
  }

  lemma StatusMeans(live: Tree, work: Tree, p: Path)
    ensures var status := StatusOf(LiveFiles(live), WorkFiles(work), p);
            && (status == Some(Added) <==> p in OnlyInWork(live, work))
            && (status == Some(Deleted) <==> p in OnlyInLive(live, work))
            && (status == Some(Modified) <==> p in InBothDiffering(live, work))
  {
    hide IsExcludedLive, IsExcludedWorkcopy;
  }

  /** What the manifest says: added is what only the workcopy's scan has, deleted what only the live scan has,
      modified what both have with different contents; and each count is the number of such paths. */
  lemma ManifestMeans(live: Tree, work: Tree, order: seq<Path>)
    requires Listing(order, LiveFiles(live), WorkFiles(work))
    ensures var changes := Changes(LiveFiles(live), WorkFiles(work), order);
            && PathsOf(changes, Added) == OnlyInWork(live, work)
            && PathsOf(changes, Deleted) == OnlyInLive(live, work)
            && PathsOf(changes, Modified) == InBothDiffering(live, work)
            && Counts(changes)[Added] == |OnlyInWork(live, work)|
            && Counts(changes)[Deleted] == |OnlyInLive(live, work)|
            && Counts(changes)[Modified] == |InBothDiffering(live, work)|
  {
    hide LiveFiles, WorkFiles, PathsOf, Changes, Count, Listing, StatusOf, OnlyInWork, OnlyInLive, InBothDiffering;
    var l, w := LiveFiles(live), WorkFiles(work);
    ChangesPaths(l, w, order, Added);
    ChangesPaths(l, w, order, Deleted);
    ChangesPaths(l, w, order, Modified);
    forall p { StatusMeans(live, work, p); }
  }

  // ---- Carrying changes back ----

  datatype Applied = Done(live: Tree) | Stopped(live: Tree)

  /** Neither absolute, nor with a parent component, nor under workspace/. */
  predicate SafeTarget(p: Path) { ".." !in p && (p == [] || (p[0] != "/" && p[0] != "workspace")) }

  predicate HasFileAbove(t: Tree, p: Path) { exists k | 0 < k < |p| :: p[..k] in t.files }

  function Above(p: Path): (r: set<Path>)
    ensures forall q :: q in r <==> exists k | 0 < k < |p| :: q == p[..k]
  {
    set k | 0 < k < |p| :: p[..k]
  }

  /** One manifest entry. Copying onto a directory drops the file inside it under its own name. */
  function ApplyEntry(live: Tree, work: Tree, c: Change): Applied {
    var p := c.path;
    if p == [] || !SafeTarget(p) then Stopped(live)
    else
      match c.status
      case Deleted =>
        if p in live.files then Done(live.(files := live.files - {p}))
        else if p in live.dirs then Stopped(live)
        else Done(live)
      case _ =>
        if (p !in work.files && p !in work.dirs) || HasFileAbove(live, p) then Stopped(live)
        else
          var made := live.(dirs := live.dirs + Above(p));
          if p !in work.files then Stopped(made)
          else if p !in live.dirs then Done(made.(files := made.files[p := work.files[p]]))
          else if p + [Last(p)] in live.dirs then Stopped(made)
          else Done(made.(files := made.files[p + [Last(p)] := work.files[p]]))
  }

  function ApplyAll(live: Tree, work: Tree, changes: seq<Change>): Applied
    decreases |changes|
  {
    if changes == [] then Done(live)
    else
      match ApplyEntry(live, work, changes[0])
      case Done(next) => ApplyAll(next, work, changes[1..])
      case Stopped(next) => Stopped(next)
  }

  /** The live repository, which applying overwrites file by file. */
  class LiveRepo {
    var tree: Tree

    constructor (tree: Tree)
      ensures this.tree == tree
    {
      this.tree := tree;
    }

    /** Apply a manifest; the applied entries are those before the first refusal. */
    method ApplyBack(work: Tree, changes: seq<Change>) returns (ok: bool, applied: seq<Change>)
      modifies this
      ensures ok == ApplyAll(old(tree), work, changes).Done?
      ensures tree == ApplyAll(old(tree), work, changes).live
      ensures applied <= changes && (ok ==> applied == changes)
      ensures ApplyAll(old(tree), work, applied).Done?
      ensures !ok ==> |applied| < |changes| && ApplyEntry(ApplyAll(old(tree), work, applied).live, work, changes[|applied|]).Stopped?
    {
      hide ApplyEntry, ApplyAll;
      applied := [];
      ApplyNone(tree, work);
      while |applied| < |changes|
        invariant applied <= changes
        invariant ApplyAll(old(tree), work, applied) == Done(tree)
        decreases |changes| - |applied|
      {
        assert changes == applied + ([changes[|applied|]] + changes[|applied| + 1..]);
        ApplyNext(old(tree), work, tree, applied, changes[|applied|], changes[|applied| + 1..]);
        var r := ApplyEntry(tree, work, changes[|applied|]);
        tree := r.live;
        if r.Stopped? { return false, applied; }
        applied := applied + [changes[|applied|]];
      }
      assert applied == changes;
      ok := true;
    }
  }

  lemma ApplyNone(live: Tree, work: Tree)
    ensures ApplyAll(live, work, []) == Done(live)
  {}

  lemma ApplyNext(live: Tree, work: Tree, t: Tree, applied: seq<Change>, c: Change, rest: seq<Change>)
    requires ApplyAll(live, work, applied) == Done(t)
    ensures ApplyAll(live, work, applied + [c]) == ApplyEntry(t, work, c)
    ensures ApplyEntry(t, work, c).Stopped? ==> ApplyAll(live, work, applied + ([c] + rest)) == ApplyEntry(t, work, c)
  {
    hide ApplyEntry, ApplyAll;
    ApplyAppend(live, work, applied, [c] + rest);
    ApplyAppend(live, work, applied, [c]);
    ApplyCons(t, work, c, rest);
  }

  lemma ApplyCons(live: Tree, work: Tree, c: Change, rest: seq<Change>)
    ensures ApplyAll(live, work, [c]) == ApplyEntry(live, work, c)
    ensures ApplyEntry(live, work, c).Stopped? ==> ApplyAll(live, work, [c] + rest) == ApplyEntry(live, work, c)
  {
    hide ApplyEntry;
    assert [c][1..] == [];
  }

  lemma {:induction false} ApplyAppend(live: Tree, work: Tree, a: seq<Change>, b: seq<Change>)
    ensures ApplyAll(live, work, a + b) ==
            match ApplyAll(live, work, a) case Done(next) => ApplyAll(next, work, b) case Stopped(t) => Stopped(t)
    decreases |a|
  {
    if a == [] {
      assert a + b == b;
    } else {
      assert (a + b)[1..] == a[1..] + b;
      match ApplyEntry(live, work, a[0])
      case Done(next) => ApplyAppend(next, work, a[1..], b);
      case Stopped(_) =>
    }
  }

  // ---- Exclusion on the two sides ----

  /** Whatever the workcopy scan excludes, the live scan excludes too; the live scan excludes more only under
      workspace/self_edit, and there exactly what is in none of the runtime's own directories and has no excluded
      directory, name or suffix. */
  lemma WorkcopyExclusionIsLive(p: Path, isFile: bool)
    ensures IsExcludedWorkcopy(p, isFile) ==> IsExcludedLive(p, isFile)
    ensures IsExcludedLive(p, isFile) && !IsExcludedWorkcopy(p, isFile) <==>
              && |p| > 2 && p[0] == "workspace" && p[1] == "self_edit"
              && p[2] !in {"zero_ai_workcopy", "review", "persona_inbox", "persona_outbox", "persona_execution"}
              && (forall part | part in p :: part !in EXCLUDE_DIR_NAMES)
              && Last(p) !in EXCLUDE_FILE_NAMES
              && (isFile ==> Lower(Suffix(Last(p))) !in EXCLUDE_FILE_SUFFIXES)
  {
    hide Lower, Suffix;
    if |p| >= 2 && p[0] == "workspace" && p[1] == "self_edit" { assert p[..2] == SELF_EDIT; }
    if SELF_EDIT <= p {
      assert p[..2] == SELF_EDIT;
      assert p[0] == SELF_EDIT[0] && p[1] == SELF_EDIT[1];
      assert |p| == 2 ==> p == SELF_EDIT;
    }
  }

  // ---- A fresh workcopy ----

  /** The walk reaches a file when no directory above it is pruned. */
  predicate Walked(p: Path) { forall k | 0 < k < |p| :: !IsExcludedLive(p[..k], false) }

  function Copied(live: Tree): map<Path, Content> {
    map p | p in live.files && Walked(p) && !IsExcludedLive(p, true) :: live.files[p]
  }

  /** What the walk copies: exactly the files outside workspace/self_edit no part of whose path is an excluded
      directory or file name, and whose suffix is not excluded; with their contents. */
  lemma CopiedIff(live: Tree, p: Path)
    ensures p in Copied(live) <==>
              && p in live.files
              && !(|p| >= 2 && p[0] == "workspace" && p[1] == "self_edit")
              && (forall part | part in p :: part !in EXCLUDE_DIR_NAMES && part !in EXCLUDE_FILE_NAMES)
              && (p != [] ==> Lower(Suffix(Last(p))) !in EXCLUDE_FILE_SUFFIXES)
    ensures p in Copied(live) ==> Copied(live)[p] == live.files[p]
  {
    hide Lower, Suffix;
    UnderSelfEdit(p);
    if p in live.files {
      if Walked(p) && !IsExcludedLive(p, true) {
        forall i | 0 <= i < |p| ensures p[i] !in EXCLUDE_FILE_NAMES {
          if i + 1 < |p| { assert !IsExcludedLive(p[..i + 1], false) && Last(p[..i + 1]) == p[i]; }
        }
      }
      if !IsExcludedLive(p, true) && forall part | part in p :: part !in EXCLUDE_FILE_NAMES {
        forall k | 0 < k < |p| ensures !IsExcludedLive(p[..k], false) {
          UnderSelfEdit(p[..k]);
          assert Last(p[..k]) == p[k - 1];
          assert forall part | part in p[..k] :: part in p;
        }
      }
    }
  }

  lemma UnderSelfEdit(p: Path)
    ensures SELF_EDIT <= p <==> |p| >= 2 && p[0] == "workspace" && p[1] == "self_edit"
  {
    assert |SELF_EDIT| == 2 && SELF_EDIT[0] == "workspace" && SELF_EDIT[1] == "self_edit";
    if |p| >= 2 && p[0] == "workspace" && p[1] == "self_edit" { assert p[..2] == SELF_EDIT; }
    if SELF_EDIT <= p { assert p[..2] == SELF_EDIT; }
  }

  function Parent(p: Path): Path { if p == [] then [] else p[..|p| - 1] }

  /** The files that the walk has copied once it has visited the directories in `done`. */
  function Gathered(live: Tree, done: set<Path>): map<Path, Content> {
    map p | p in live.files && Parent(p) in done && !IsExcludedLive(p, true) :: live.files[p]
  }

  function FilesIn(live: Tree, dir: Path): map<Path, Content> {
    map p | p in live.files && Parent(p) == dir && !IsExcludedLive(p, true) :: live.files[p]
  }

  lemma GatheredStep(live: Tree, done: set<Path>, dir: Path)
    ensures Gathered(live, {}) == map[]
    ensures Gathered(live, done + {dir}) == Gathered(live, done) + FilesIn(live, dir)
  {
    hide IsExcludedLive;
  }

  /** The top-down walk of the original, pruning excluded directories. */
  method CopyRepoToWorkcopy(live: Tree) returns (work: map<Path, Content>)
    requires WellFormed(live)
    ensures work == Copied(live)
  {
    hide IsExcludedLive, KeptDir, Gathered, FilesIn, WellFormed, Walked, Copied;
    GatheredStep(live, {}, []);
    RootIsNoDirectory(live);
    work := map[];
    var todo: set<Path> := {[]};
    ghost var done: set<Path> := {};
    while todo != {}
      invariant done !! todo && done + todo <= live.dirs + {[]}
      invariant [] in done + todo
      invariant forall d | d in done + todo && d != [] :: KeptDir(d)
      invariant forall d | d in live.dirs && Parent(d) in done && !IsExcludedLive(d, false) :: d in done + todo
      invariant forall d | d in done + todo && d != [] :: Parent(d) in done
      invariant work == Gathered(live, done)
      decreases live.dirs + {[]} - done
    {
      var current :| current in todo;
      var kept := set d | d in live.dirs && Parent(d) == current && !IsExcludedLive(d, false);
      forall d | d in kept ensures KeptDir(d) && d !in done {
        KeptBelow(d);
      }
      GatheredStep(live, done, current);
      work := work + FilesIn(live, current);
      done, todo := done + {current}, todo - {current} + kept;
    }
    GatheredAll(live, done);
  }

  lemma RootIsNoDirectory(live: Tree)
    requires WellFormed(live)
    ensures [] !in live.dirs
  {}

  lemma GatheredAll(live: Tree, done: set<Path>)
    requires WellFormed(live) && [] in done
    requires forall d | d in done && d != [] :: KeptDir(d)
    requires forall d | d in live.dirs && Parent(d) in done && !IsExcludedLive(d, false) :: d in done
    ensures Gathered(live, done) == Copied(live)
  {
    hide IsExcludedLive, KeptDir, Walked;
    forall p | p in live.files ensures Parent(p) in done <==> Walked(p) {
      if Walked(p) { WalkReaches(live, done, Parent(p), p); }
      if Parent(p) in done { WalkedParent(p); }
    }
  }

  /** Neither the directory nor any directory above it is pruned. */
  predicate KeptDir(d: Path) { forall k | 0 < k <= |d| :: !IsExcludedLive(d[..k], false) }

  lemma KeptBelow(d: Path)
    requires d != [] && !IsExcludedLive(d, false) && (Parent(d) == [] || KeptDir(Parent(d)))
    ensures KeptDir(d)
  {
    hide IsExcludedLive;
    forall k | 0 < k <= |d| ensures !IsExcludedLive(d[..k], false) {
      if k == |d| {
        assert d[..k] == d;
      } else {
        assert d[..k] == Parent(d)[..k];
      }
    }
  }

  lemma WalkedParent(p: Path)
    requires p != [] && (Parent(p) == [] || KeptDir(Parent(p)))
    ensures Walked(p)
  {
    hide IsExcludedLive;
    forall k | 0 < k < |p| ensures !IsExcludedLive(p[..k], false) {
      assert p[..k] == Parent(p)[..k];
    }
  }

  lemma {:induction false} WalkReaches(live: Tree, done: set<Path>, d: Path, p: Path)
    requires WellFormed(live) && p in live.files && d < p && Walked(p)
    requires [] in done
    requires forall e | e in live.dirs && Parent(e) in done && !IsExcludedLive(e, false) :: e in done
    ensures d in done
    decreases |d|
  {
    hide IsExcludedLive;
    if d != [] {
      assert d == p[..|d|] && Parent(d) == p[..|d| - 1];
      WalkReaches(live, done, Parent(d), p);
    }
  }

  /** No directory above the path carries the name of an excluded file. */
  predicate PlainAbove(p: Path) { forall k | 0 < k < |p| :: Last(p[..k]) !in EXCLUDE_FILE_NAMES }

  /** Above a file that is not excluded itself, pruning happens only by such a name. */
  lemma PruningDropsOnlyNamed(p: Path)
    requires !IsExcludedLive(p, true)
    ensures Walked(p) <==> PlainAbove(p)
  {
    forall k | 0 < k < |p| ensures IsExcludedLive(p[..k], false) <==> Last(p[..k]) in EXCLUDE_FILE_NAMES {
      assert SELF_EDIT <= p[..k] ==> SELF_EDIT <= p;
      forall part | part in p[..k] ensures part in p {}
    }
  }

  /** A freshly prepared workcopy shows no difference exactly when no scanned live file lies below a
      directory that carries the name of an excluded file. */
  lemma FreshWorkcopyIff(live: Tree, work: Tree, order: seq<Path>)
    requires WellFormed(live) && work.files == Copied(live)
    requires Listing(order, LiveFiles(live), WorkFiles(work))
    ensures Changes(LiveFiles(live), WorkFiles(work), order) == []
            <==> forall p | p in live.files && !IsExcludedLive(p, true) :: PlainAbove(p)
  {
    hide IsExcludedLive, IsExcludedWorkcopy, Walked, PlainAbove;
    var l, w := LiveFiles(live), WorkFiles(work);
    forall p ensures p in w <==> p in l && Walked(p) {
      WorkcopyExclusionIsLive(p, true);
    }
    forall p | p in l ensures (StatusOf(l, w, p) == None <==> PlainAbove(p)) && p in order {
      PruningDropsOnlyNamed(p);
    }
    ChangesEmpty(l, w, order);
    assert forall p | p in live.files && !IsExcludedLive(p, true) :: p in l;
    assert forall p | p in order :: p in l;
  }

  /** Nothing is reported exactly when no listed path differs. */
  lemma {:induction false} ChangesEmpty(live: map<Path, Content>, work: map<Path, Content>, order: seq<Path>)
    ensures Changes(live, work, order) == [] <==> forall p | p in order :: StatusOf(live, work, p) == None
  {
    if order != [] {
      hide StatusOf;
      var init, last := order[..|order| - 1], order[|order| - 1];
      ChangesEmpty(live, work, init);
      assert order == init + [last];
    }
  }

  // ---- Patching after a difference ----

  predicate Genuine(live: Tree, work: Tree, c: Change) {
    StatusOf(LiveFiles(live), WorkFiles(work), c.path) == Some(c.status)
  }

  /** No scanned workcopy file is a live directory. */
  ghost predicate NoDirectoryClash(live: Tree, work: Tree) { forall p | p in WorkFiles(work) :: p !in live.dirs }

  /** Every live file above a scanned workcopy file is scanned itself, and so deleted before. */
  ghost predicate FilesAboveGo(live: Tree, work: Tree) {
    forall p, k | p in WorkFiles(work) && 0 < k < |p| && p[..k] in live.files :: p[..k] in LiveFiles(live)
  }

  /** No live file at all is above a scanned workcopy file. */
  ghost predicate NoFileAbove(live: Tree, work: Tree) { forall p | p in WorkFiles(work) :: !HasFileAbove(live, p) }

  /** What path `p` holds once the changes in `made` have been applied, and no others. */
  function Want(live: Tree, work: Tree, made: set<Change>, p: Path): Option<Content> {
    if Change(p, Deleted) in made then None
    else if (Change(p, Added) in made || Change(p, Modified) in made) && p in work.files then Some(work.files[p])
    else if p in live.files then Some(live.files[p])
    else None
  }

  predicate Holds(t: Tree, p: Path, want: Option<Content>) {
    if want.Some? then p in t.files && t.files[p] == want.value else p !in t.files
  }

  ghost predicate Agrees(live: Tree, work: Tree, made: set<Change>, t: Tree) {
    forall p :: Holds(t, p, Want(live, work, made, p))
  }

  ghost predicate Patched(live: Tree, work: Tree, made: set<Change>, t: Tree) {
    && Agrees(live, work, made, t)
    && live.dirs <= t.dirs
    && (forall d | d in t.dirs :: d in live.dirs || exists b | b in made && !b.status.Deleted? :: d in Above(b.path))
    && (forall b | b in made && !b.status.Deleted? :: Above(b.path) <= t.dirs)
  }

  /** Once `made` is done, nothing stands in the way of `c`: a file that is written is no directory and every
      live file above it has been deleted; a file that is deleted has not been replaced by a directory. */
  ghost predicate Ready(live: Tree, made: set<Change>, c: Change) {
    var p := c.path;
    if c.status.Deleted? then forall b | b in made && !b.status.Deleted? :: p !in Above(b.path)
    else p !in live.dirs && forall k | 0 < k < |p| && p[..k] in live.files :: Change(p[..k], Deleted) in made
  }

  lemma PatchStep(live: Tree, work: Tree, made: set<Change>, t: Tree, c: Change)
    requires WellFormed(live) && WellFormed(work) && Ready(live, made, c)
    requires forall b | b in made :: Genuine(live, work, b)
    requires Genuine(live, work, c) && SafeTarget(c.path) && Patched(live, work, made, t)
    ensures var r := ApplyEntry(t, work, c); r.Done? && Patched(live, work, made + {c}, r.live)
  {
    hide IsExcludedLive, IsExcludedWorkcopy, Ready, Agrees, Genuine, Above, WellFormed;
    NotADirectory(live, work, made, t, c);
    if !c.status.Deleted? { NothingAbove(live, work, made, t, c); }
    GenuineExists(live, work, c);
    StepAgrees(live, work, made, t, c);
    StepDirs(live, made, t, ApplyEntry(t, work, c).live, c);
  }

  // The directories of a patched tree, after one more change.
  lemma StepDirs(live: Tree, made: set<Change>, t: Tree, next: Tree, c: Change)
    requires live.dirs <= t.dirs && next.dirs == t.dirs + (if c.status.Deleted? then {} else Above(c.path))
    requires forall d | d in t.dirs :: d in live.dirs || exists b | b in made && !b.status.Deleted? :: d in Above(b.path)
    requires forall b | b in made && !b.status.Deleted? :: Above(b.path) <= t.dirs
    ensures live.dirs <= next.dirs
    ensures forall d | d in next.dirs :: d in live.dirs || exists b | b in made + {c} && !b.status.Deleted? :: d in Above(b.path)
    ensures forall b | b in made + {c} && !b.status.Deleted? :: Above(b.path) <= next.dirs
  {
    hide Above;
    forall d | d in next.dirs
      ensures d in live.dirs || exists b | b in made + {c} && !b.status.Deleted? :: d in Above(b.path)
    {
      if d in t.dirs && d !in live.dirs {
        var b :| b in made && !b.status.Deleted? && d in Above(b.path);
        assert b in made + {c};
      } else if d !in t.dirs {
        assert c in made + {c} && d in Above(c.path);
      }
    }
  }

  lemma StepAgrees(live: Tree, work: Tree, made: set<Change>, t: Tree, c: Change)
    requires forall b | b in made :: Genuine(live, work, b)
    requires Genuine(live, work, c) && SafeTarget(c.path) && Agrees(live, work, made, t)
    requires c.path != [] && c.path !in t.dirs && (c.status.Deleted? || (c.path in work.files && !HasFileAbove(t, c.path)))
    ensures var r := ApplyEntry(t, work, c);
            r.Done? && Agrees(live, work, made + {c}, r.live) && r.live.dirs == t.dirs + (if c.status.Deleted? then {} else Above(c.path))
  {
    hide Genuine, Above, Want;
    var r := ApplyEntry(t, work, c);
    forall q ensures Holds(r.live, q, Want(live, work, made + {c}, q)) {
      assert Holds(t, q, Want(live, work, made, q));
      OneChange(live, work, made, c, q);
    }
  }

  /** A path has at most one genuine change. */
  lemma OneChange(live: Tree, work: Tree, made: set<Change>, c: Change, q: Path)
    requires forall b | b in made :: Genuine(live, work, b)
    requires Genuine(live, work, c)
    ensures q != c.path ==> Want(live, work, made + {c}, q) == Want(live, work, made, q)
    ensures Want(live, work, made + {c}, c.path) ==
            if c.status.Deleted? then None else if c.path in work.files then Some(work.files[c.path]) else None
  {
    hide LiveFiles, WorkFiles;
    var p := c.path;
    forall s | Change(p, s) in made + {c} ensures s == c.status {
      assert Genuine(live, work, Change(p, s));
    }
    assert Change(p, c.status) in made + {c};
    GenuineExists(live, work, c);
  }

  lemma GenuineExists(live: Tree, work: Tree, c: Change)
    requires Genuine(live, work, c)
    ensures c.status.Deleted? ==> c.path in live.files && c.path !in WorkFiles(work)
    ensures !c.status.Deleted? ==> c.path in WorkFiles(work) && c.path in work.files
  {}

  lemma NotADirectory(live: Tree, work: Tree, made: set<Change>, t: Tree, c: Change)
    requires WellFormed(live) && WellFormed(work) && Ready(live, made, c)
    requires forall b | b in made :: Genuine(live, work, b)
    requires Genuine(live, work, c) && Patched(live, work, made, t)
    ensures c.path != [] && c.path !in t.dirs
  {
    hide IsExcludedLive, IsExcludedWorkcopy, Agrees, Genuine, LiveFiles, WorkFiles;
    GenuineExists(live, work, c);
    forall b | b in made && !b.status.Deleted? && !c.status.Deleted? ensures c.path !in Above(b.path) {
      GenuineExists(live, work, b);
      assert c.path in Above(b.path) ==> c.path in work.dirs;
    }
  }

  lemma NothingAbove(live: Tree, work: Tree, made: set<Change>, t: Tree, c: Change)
    requires WellFormed(work) && Ready(live, made, c)
    requires Genuine(live, work, c) && !c.status.Deleted? && Patched(live, work, made, t)
    ensures !HasFileAbove(t, c.path)
  {
    hide IsExcludedLive, IsExcludedWorkcopy, LiveFiles;
    GenuineExists(live, work, c);
    var p := c.path;
    forall k | 0 < k < |p| ensures p[..k] !in t.files {
      assert p[..k] in work.dirs;
      assert Holds(t, p[..k], Want(live, work, made, p[..k]));
    }
  }

  /** Without any clash, every change is ready at any time. */
  lemma AlwaysReady(live: Tree, work: Tree, made: set<Change>, c: Change)
    requires WellFormed(live) && NoDirectoryClash(live, work) && NoFileAbove(live, work)
    requires (forall b | b in made :: Genuine(live, work, b)) && Genuine(live, work, c)
    ensures Ready(live, made, c)
  {
    hide LiveFiles, WorkFiles, Genuine;
    GenuineExists(live, work, c);
    if c.status.Deleted? {
      forall b | b in made && !b.status.Deleted? ensures c.path !in Above(b.path) {
        GenuineExists(live, work, b);
        assert c.path in Above(b.path) && c.path in live.files ==> HasFileAbove(live, b.path);
      }
    } else {
      forall k | 0 < k < |c.path| ensures c.path[..k] !in live.files {
        assert c.path[..k] in live.files ==> HasFileAbove(live, c.path);
      }
    }
  }

  /** Without a clash, applying genuine changes, in any order and with any repetition, never stops, and
      patches exactly the paths that were named. */
  lemma {:induction false} ApplyAnyOrder(live: Tree, work: Tree, made: set<Change>, t: Tree, run: seq<Change>)
    requires WellFormed(live) && WellFormed(work) && NoDirectoryClash(live, work) && NoFileAbove(live, work)
    requires forall b | b in made :: Genuine(live, work, b)
    requires forall c | c in run :: Genuine(live, work, c) && SafeTarget(c.path)
    requires Patched(live, work, made, t)
    ensures var r := ApplyAll(t, work, run);
            r.Done? && Patched(live, work, made + (set c | c in run), r.live)
    decreases |run|
  {
    hide Patched, Genuine, NoDirectoryClash, NoFileAbove, WellFormed, ApplyEntry, Ready;
    if run == [] {
      assert made + (set c | c in run) == made;
    } else {
      assert run[0] in run;
      AlwaysReady(live, work, made, run[0]);
      PatchStep(live, work, made, t, run[0]);
      var next := ApplyEntry(t, work, run[0]).live;
      ApplyAnyOrder(live, work, made + {run[0]}, next, run[1..]);
      assert made + {run[0]} + (set c | c in run[1..]) == made + (set c | c in run);
    }
  }

  lemma NothingPatched(live: Tree, work: Tree)
    ensures Patched(live, work, {}, live)
  {}

  // ---- Main results ----

  /** The scanned live files are the workcopy's, and excluded live files are as they were. */
  ghost predicate CarriedOver(live: Tree, work: Tree, r: Applied) {
    && r.Done?
    && LiveFiles(r.live) == WorkFiles(work)
    && forall p | IsExcludedLive(p, true) ::
         (p in r.live.files <==> p in live.files) && (p in live.files ==> r.live.files[p] == live.files[p])
  }

  /** Patch after diff: applying the sorted manifest makes the scanned live files equal to the workcopy's and
      leaves excluded ones alone if and only if no manifest path lies under workspace/, no scanned workcopy file
      is a live directory, and every live file above a scanned workcopy file is scanned itself. A second
      comparison then reports nothing. */
  lemma PatchAfterDiff(live: Tree, work: Tree, order: seq<Path>)
    requires WellFormed(live) && WellFormed(work)
    requires Listing(order, LiveFiles(live), WorkFiles(work)) && Sorted(order)
    ensures var changes := Changes(LiveFiles(live), WorkFiles(work), order);
            CarriedOver(live, work, ApplyAll(live, work, changes)) <==>
              (forall c | c in changes :: SafeTarget(c.path)) && NoDirectoryClash(live, work) && FilesAboveGo(live, work)
    ensures var r := ApplyAll(live, work, Changes(LiveFiles(live), WorkFiles(work), order));
            CarriedOver(live, work, r) ==> forall again :: Changes(LiveFiles(r.live), WorkFiles(work), again) == []
  {
    hide WellFormed, Changes, LiveFiles, WorkFiles, IsExcludedLive, NoDirectoryClash, FilesAboveGo, Sorted, Listing, ApplyAll;
    var changes := Changes(LiveFiles(live), WorkFiles(work), order);
    var r := ApplyAll(live, work, changes);
    if (forall c | c in changes :: SafeTarget(c.path)) && NoDirectoryClash(live, work) && FilesAboveGo(live, work) {
      SortedIsCarried(live, work, order);
    }
    if CarriedOver(live, work, r) {
      DoneIsSafe(live, work, changes);
      CarriedHasNoDirectory(live, work, changes);
      CarriedHasFilesGone(live, work, order);
      EqualScansAgree(WorkFiles(work));
    }
  }

  // ---- The conditions suffice ----

  lemma {:induction false} JoinAppend(a: seq<string>, b: seq<string>, sep: string)
    requires a != [] && b != []
    ensures Join(a + b, sep) == Join(a, sep) + (sep + Join(b, sep))
  {
    if |a| == 1 {
      assert (a + b)[1..] == b;
    } else {
      assert (a + b)[1..] == a[1..] + b;
      JoinAppend(a[1..], b, sep);
    }
  }

  lemma {:induction false} LongerIsGreater(a: string, more: string)
    requires more != ""
    ensures LessText(a, a + more)
  {
    if a != "" {
      assert (a + more)[1..] == a[1..] + more;
      LongerIsGreater(a[1..], more);
    }
  }

  /** In the order of names, what lies above a path comes before it. */
  lemma SortedIsParentsFirst(order: seq<Path>, i: nat, j: nat)
    requires Sorted(order) && i < |order| && j < |order|
    requires order[i] != [] && order[i] < order[j]
    ensures i < j
  {
    hide LessText, Join;
    var p, q := order[i], order[j];
    assert q == p + q[|p|..];
    JoinAppend(p, q[|p|..], "/");
    LongerIsGreater(PosixName(p), "/" + PosixName(q[|p|..]));
  }

  lemma ReadyInOrder(live: Tree, work: Tree, order: seq<Path>, n: nat, s: Status)
    requires WellFormed(live) && WellFormed(work) && NoDirectoryClash(live, work) && FilesAboveGo(live, work)
    requires Listing(order, LiveFiles(live), WorkFiles(work)) && Sorted(order) && n < |order|
    requires Genuine(live, work, Change(order[n], s))
    ensures Ready(live, (set c | c in Changes(LiveFiles(live), WorkFiles(work), order[..n])), Change(order[n], s))
  {
    hide IsExcludedLive, IsExcludedWorkcopy, LiveFiles, WorkFiles, Sorted, Changes;
    var l, w := LiveFiles(live), WorkFiles(work);
    var p := order[n];
    GenuineExists(live, work, Change(p, s));
    if s.Deleted? {
      forall b | b in Changes(l, w, order[..n]) && !b.status.Deleted? ensures p !in Above(b.path) {
        var m :| 0 <= m < n && order[m] == b.path;
        if p in Above(b.path) { SortedIsParentsFirst(order, n, m); }
      }
    } else {
      forall k | 0 < k < |p| && p[..k] in live.files ensures Change(p[..k], Deleted) in Changes(l, w, order[..n]) {
        assert p[..k] in work.dirs;
        DeletedAbove(live, work, p[..k]);
        var m :| 0 <= m < |order| && order[m] == p[..k];
        SortedIsParentsFirst(order, m, n);
        assert order[..n][m] == p[..k];
      }
    }
  }

  lemma DeletedAbove(live: Tree, work: Tree, a: Path)
    requires WellFormed(work) && a in LiveFiles(live) && a in work.dirs
    ensures StatusOf(LiveFiles(live), WorkFiles(work), a) == Some(Deleted)
  {
    hide IsExcludedLive, IsExcludedWorkcopy;
  }

  /** No path that `run` deletes has become a directory above a path that `made` has written. */
  ghost predicate NoneReplaced(made: set<Change>, run: seq<Change>) {
    forall b, c | b in made && c in run && !b.status.Deleted? && c.status.Deleted? :: c.path !in Above(b.path)
  }

  lemma ReadyGrows(live: Tree, made0: set<Change>, made: set<Change>, c: Change)
    requires Ready(live, made, c)
    requires c.status.Deleted? ==> forall b | b in made0 && !b.status.Deleted? :: c.path !in Above(b.path)
    ensures Ready(live, made0 + made, c)
  {
    hide Above;
  }

  /** The sorted manifest goes through on the live tree, and on any tree that some of it has patched already,
      unless that has put a directory where a file is to be deleted. */
  lemma {:induction false} ApplySortedOn(live: Tree, work: Tree, order: seq<Path>, n: nat, made0: set<Change>, t0: Tree)
    requires WellFormed(live) && WellFormed(work) && NoDirectoryClash(live, work) && FilesAboveGo(live, work)
    requires Listing(order, LiveFiles(live), WorkFiles(work)) && Sorted(order) && n <= |order|
    requires forall c | c in Changes(LiveFiles(live), WorkFiles(work), order[..n]) :: SafeTarget(c.path)
    requires (forall b | b in made0 :: Genuine(live, work, b)) && Patched(live, work, made0, t0)
    requires NoneReplaced(made0, Changes(LiveFiles(live), WorkFiles(work), order[..n]))
    ensures var changes := Changes(LiveFiles(live), WorkFiles(work), order[..n]);
            var r := ApplyAll(t0, work, changes);
            r.Done? && Patched(live, work, made0 + (set c | c in changes), r.live)
  {
    hide WellFormed, NoDirectoryClash, FilesAboveGo, Listing, Sorted, LiveFiles, WorkFiles, Changes, Patched, Ready, StatusOf, ApplyEntry, Above;
    var l, w := LiveFiles(live), WorkFiles(work);
    if n == 0 {
      ChangesNone(l, w);
      assert order[..0] == [] && made0 + (set c | c in Changes(l, w, [])) == made0;
    } else {
      ChangesSnoc(l, w, order, n - 1);
      var before, changes := Changes(l, w, order[..n - 1]), Changes(l, w, order[..n]);
      forall c | c in before ensures SafeTarget(c.path) && c in changes { assert c in changes; }
      ApplySortedOn(live, work, order, n - 1, made0, t0);
      match StatusOf(l, w, order[n - 1]) {
        case None =>
        case Some(s) =>
          var c := Change(order[n - 1], s);
          var t := ApplyAll(t0, work, before).live;
          var made := set b | b in before;
          assert changes[|before|] == c;
          ReadyInOrder(live, work, order, n - 1, s);
          ReadyGrows(live, made0, made, c);
          PatchStep(live, work, made0 + made, t, c);
          ApplyAppend(t0, work, before, [c]);
          assert made0 + (set b | b in changes) == made0 + made + {c};
      }
    }
  }

  lemma ApplySorted(live: Tree, work: Tree, order: seq<Path>, n: nat)
    requires WellFormed(live) && WellFormed(work) && NoDirectoryClash(live, work) && FilesAboveGo(live, work)
    requires Listing(order, LiveFiles(live), WorkFiles(work)) && Sorted(order) && n <= |order|
    requires forall c | c in Changes(LiveFiles(live), WorkFiles(work), order[..n]) :: SafeTarget(c.path)
    ensures var changes := Changes(LiveFiles(live), WorkFiles(work), order[..n]);
            var r := ApplyAll(live, work, changes);
            r.Done? && Patched(live, work, (set c | c in changes), r.live)
  {
    hide WellFormed, NoDirectoryClash, FilesAboveGo, Listing, Sorted, LiveFiles, WorkFiles, Changes, Patched;
    NothingPatched(live, work);
    ApplySortedOn(live, work, order, n, {}, live);
    var all := set c | c in Changes(LiveFiles(live), WorkFiles(work), order[..n]);
    assert {} + all == all;
  }

  lemma SortedIsCarried(live: Tree, work: Tree, order: seq<Path>)
    requires WellFormed(live) && WellFormed(work) && NoDirectoryClash(live, work) && FilesAboveGo(live, work)
    requires Listing(order, LiveFiles(live), WorkFiles(work)) && Sorted(order)
    requires forall c | c in Changes(LiveFiles(live), WorkFiles(work), order) :: SafeTarget(c.path)
    ensures CarriedOver(live, work, ApplyAll(live, work, Changes(LiveFiles(live), WorkFiles(work), order)))
  {
    hide IsExcludedLive, IsExcludedWorkcopy, NoDirectoryClash, FilesAboveGo, WellFormed, LiveFiles, WorkFiles, Changes, Patched, Sorted, ApplyAll;
    assert order[..|order|] == order;
    ApplySorted(live, work, order, |order|);
    var t := ApplyAll(live, work, Changes(LiveFiles(live), WorkFiles(work), order)).live;
    forall p
      ensures IsExcludedLive(p, true) ==>
                (p in t.files <==> p in live.files) && (p in live.files ==> t.files[p] == live.files[p])
      ensures p in LiveFiles(t) <==> p in WorkFiles(work)
      ensures p in LiveFiles(t) ==> LiveFiles(t)[p] == WorkFiles(work)[p]
    {
      FullyPatched(live, work, order, t, p);
    }
    assert LiveFiles(t) == WorkFiles(work);
  }

  // ---- The conditions are needed ----

  lemma {:induction false} DoneIsSafe(t: Tree, work: Tree, run: seq<Change>)
    requires ApplyAll(t, work, run).Done?
    ensures forall c | c in run :: SafeTarget(c.path)
    decreases |run|
  {
    if run != [] { DoneIsSafe(ApplyEntry(t, work, run[0]).live, work, run[1..]); }
  }

  /** A directory stays one: nothing is ever written or deleted at its own path. */
  lemma {:induction false} DirectoryStays(t: Tree, work: Tree, run: seq<Change>, d: Path)
    requires d in t.dirs && d !in t.files
    ensures var next := ApplyAll(t, work, run).live; d in next.dirs && d !in next.files
    decreases |run|
  {
    if run != [] {
      DirectoryEntry(t, work, run[0], d);
      match ApplyEntry(t, work, run[0])
      case Done(next) => DirectoryStays(next, work, run[1..], d);
      case Stopped(_) =>
    }
  }

  lemma DirectoryEntry(t: Tree, work: Tree, c: Change, d: Path)
    requires d in t.dirs && d !in t.files
    ensures var next := ApplyEntry(t, work, c).live; d in next.dirs && d !in next.files
  {
    hide Above;
  }

  lemma CarriedHasNoDirectory(live: Tree, work: Tree, changes: seq<Change>)
    requires WellFormed(live) && CarriedOver(live, work, ApplyAll(live, work, changes))
    ensures NoDirectoryClash(live, work)
  {
    hide IsExcludedLive, IsExcludedWorkcopy, ApplyAll, WorkFiles;
    var t := ApplyAll(live, work, changes).live;
    forall p | p in WorkFiles(work) ensures p !in live.dirs {
      if p in live.dirs { DirectoryStays(live, work, changes, p); }
    }
  }

  /** A file that no entry names stays in the way of everything below it. */
  lemma {:induction false} FileAboveStops(t: Tree, work: Tree, run: seq<Change>, a: Path, c: Change)
    requires a in t.files && forall b | b in run :: b.path != a
    requires c in run && !c.status.Deleted? && a in Above(c.path)
    ensures ApplyAll(t, work, run).Stopped?
    decreases |run|
  {
    FileEntry(t, work, run[0], a);
    if run[0] != c {
      match ApplyEntry(t, work, run[0])
      case Done(next) => FileAboveStops(next, work, run[1..], a, c);
      case Stopped(_) =>
    }
  }

  lemma FileEntry(t: Tree, work: Tree, c: Change, a: Path)
    requires a in t.files && c.path != a
    ensures a in ApplyEntry(t, work, c).live.files
    ensures !c.status.Deleted? && a in Above(c.path) ==> ApplyEntry(t, work, c).Stopped?
  {
    if a in Above(c.path) { assert HasFileAbove(t, c.path); }
  }

  lemma CarriedHasFilesGone(live: Tree, work: Tree, order: seq<Path>)
    requires WellFormed(live) && WellFormed(work) && Listing(order, LiveFiles(live), WorkFiles(work))
    requires ApplyAll(live, work, Changes(LiveFiles(live), WorkFiles(work), order)).Done?
    ensures FilesAboveGo(live, work)
  {
    hide IsExcludedLive, IsExcludedWorkcopy, ApplyAll, Changes;
    var changes := Changes(LiveFiles(live), WorkFiles(work), order);
    forall p, k | p in WorkFiles(work) && 0 < k < |p| && p[..k] in live.files ensures p[..k] in LiveFiles(live) {
      if p[..k] !in LiveFiles(live) {
        assert p[..k] in work.dirs && p in work.files;
        assert p[..k] !in live.dirs;
        assert p !in live.files;
        assert p in order && Change(p, Added) in changes;
        FileAboveStops(live, work, changes, p[..k], Change(p, Added));
      }
    }
  }

  // ---- Further results ----

  lemma EqualScansAgree(scan: map<Path, Content>)
    ensures forall order :: Changes(scan, scan, order) == []
  {
    forall order ensures Changes(scan, scan, order) == [] {
      ChangesEmpty(scan, scan, order);
    }
  }

  lemma FullyPatched(live: Tree, work: Tree, order: seq<Path>, t: Tree, p: Path)
    requires Listing(order, LiveFiles(live), WorkFiles(work))
    requires forall c | c in Changes(LiveFiles(live), WorkFiles(work), order) :: SafeTarget(c.path)
    requires Patched(live, work, (set c | c in Changes(LiveFiles(live), WorkFiles(work), order)), t)
    ensures IsExcludedLive(p, true) ==>
              (p in t.files <==> p in live.files) && (p in live.files ==> t.files[p] == live.files[p])
    ensures p in LiveFiles(t) <==> p in WorkFiles(work)
    ensures p in LiveFiles(t) ==> LiveFiles(t)[p] == WorkFiles(work)[p]
  {
    hide IsExcludedLive, IsExcludedWorkcopy;
    var l, w := LiveFiles(live), WorkFiles(work);
    var changes := Changes(l, w, order);
    WorkcopyExclusionIsLive(p, true);
    assert Holds(t, p, Want(live, work, (set c | c in changes), p));
    forall s ensures Change(p, s) in changes <==> StatusOf(l, w, p) == Some(s) {}
    assert IsExcludedLive(p, true) && p in w ==> Change(p, Added) in changes;
  }

  /** Convergence: an interrupted run patches exactly the entries it made; running the whole manifest
      again, in any order, gives the same files as one uninterrupted run. */
  lemma RerunConverges(live: Tree, work: Tree, changes: seq<Change>, k: nat, again: seq<Change>)
    requires WellFormed(live) && WellFormed(work) && NoDirectoryClash(live, work) && NoFileAbove(live, work)
    requires forall c | c in changes :: Genuine(live, work, c) && SafeTarget(c.path)
    requires k <= |changes| && forall c :: c in again <==> c in changes
    ensures var partial := ApplyAll(live, work, changes[..k]);
            && partial.Done?
            && Agrees(live, work, (set c | c in changes[..k]), partial.live)
            && ApplyAll(partial.live, work, again).Done?
            && ApplyAll(live, work, changes).Done?
            && ApplyAll(partial.live, work, again).live.files == ApplyAll(live, work, changes).live.files
  {
    hide IsExcludedLive, IsExcludedWorkcopy, NoDirectoryClash, NoFileAbove, WellFormed, Genuine, ApplyEntry, Want;
    NothingPatched(live, work);
    forall c | c in changes[..k] ensures c in changes {}
    ApplyAnyOrder(live, work, {}, live, changes[..k]);
    ApplyAnyOrder(live, work, {}, live, changes);
    var some, all := set c | c in changes[..k], set c | c in changes;
    assert {} + some == some && {} + all == all;
    var partial := ApplyAll(live, work, changes[..k]).live;
    ApplyAnyOrder(live, work, some, partial, again);
    assert some + (set c | c in again) == all;
    SameFiles(live, work, all, ApplyAll(partial, work, again).live, ApplyAll(live, work, changes).live);
  }

  lemma SameFiles(live: Tree, work: Tree, made: set<Change>, s: Tree, t: Tree)
    requires Patched(live, work, made, s) && Patched(live, work, made, t)
    ensures s.files == t.files
  {
    hide Want;
    forall p ensures (p in s.files <==> p in t.files) && (p in s.files ==> s.files[p] == t.files[p]) {
      assert Holds(s, p, Want(live, work, made, p)) && Holds(t, p, Want(live, work, made, p));
    }
  }

  /** When no scanned workcopy file is a live directory, the sorted manifest goes through exactly when none of
      its paths lies under workspace/ and every live file above a scanned workcopy file is scanned itself. */
  lemma AppliesIff(live: Tree, work: Tree, order: seq<Path>)
    requires WellFormed(live) && WellFormed(work) && NoDirectoryClash(live, work)
    requires Listing(order, LiveFiles(live), WorkFiles(work)) && Sorted(order)
    ensures var changes := Changes(LiveFiles(live), WorkFiles(work), order);
            ApplyAll(live, work, changes).Done? <==> (forall c | c in changes :: SafeTarget(c.path)) && FilesAboveGo(live, work)
  {
    hide WellFormed, Changes, LiveFiles, WorkFiles, NoDirectoryClash, FilesAboveGo, Sorted, Listing, ApplyAll;
    var changes := Changes(LiveFiles(live), WorkFiles(work), order);
    if ApplyAll(live, work, changes).Done? {
      DoneIsSafe(live, work, changes);
      CarriedHasFilesGone(live, work, order);
    } else if (forall c | c in changes :: SafeTarget(c.path)) && FilesAboveGo(live, work) {
      PatchAfterDiff(live, work, order);
    }
  }

  /** A safe entry's file lies below the root, at its own components, and not under workspace/. */
  lemma SafeStaysInside(root: Path, p: Path)
    requires SafeTarget(p)
    ensures Walk(root, p) == root + Components(p)
  {
    WalkWithoutParents(root, p);
  }

  /** An unsafe entry, an absolute one for example or one under workspace/, stops a run with exactly the entries before it applied. */
  lemma UnsafeStops(live: Tree, work: Tree, changes: seq<Change>, k: nat)
    requires k < |changes| && !SafeTarget(changes[k].path) && ApplyAll(live, work, changes[..k]).Done?
    ensures ApplyAll(live, work, changes) == Stopped(ApplyAll(live, work, changes[..k]).live)
  {
    assert changes == changes[..k] + changes[k..];
    ApplyAppend(live, work, changes[..k], changes[k..]);
  }

  /** So does an added or modified entry whose source is missing; a deleted one whose file is gone does nothing. */
  lemma MissingStops(live: Tree, work: Tree, changes: seq<Change>, k: nat)
    requires k < |changes| && SafeTarget(changes[k].path) && ApplyAll(live, work, changes[..k]).Done?
    requires var p := changes[k].path; p != [] && p !in work.files && p !in work.dirs
    ensures var before := ApplyAll(live, work, changes[..k]).live;
            && (!changes[k].status.Deleted? ==> ApplyAll(live, work, changes) == Stopped(before))
            && (changes[k].status.Deleted? && changes[k].path !in before.files && changes[k].path !in before.dirs ==>
                  ApplyAll(live, work, changes) == ApplyAll(before, work, changes[k + 1..]))
  {
    assert changes == changes[..k] + changes[k..] && changes[k..][1..] == changes[k + 1..];
    ApplyAppend(live, work, changes[..k], changes[k..]);
  }

  /** Running the sorted manifest a second time goes through exactly when no live file was above a scanned
      workcopy file: where one was, a directory has taken its place, and deleting it again stops the run. */
  lemma RerunIff(live: Tree, work: Tree, order: seq<Path>)
    requires WellFormed(live) && WellFormed(work)
    requires Listing(order, LiveFiles(live), WorkFiles(work)) && Sorted(order)
    requires CarriedOver(live, work, ApplyAll(live, work, Changes(LiveFiles(live), WorkFiles(work), order)))
    ensures var changes := Changes(LiveFiles(live), WorkFiles(work), order);
            ApplyAll(ApplyAll(live, work, changes).live, work, changes).Done? <==> NoFileAbove(live, work)
  {
    hide WellFormed, Changes, LiveFiles, WorkFiles, NoDirectoryClash, FilesAboveGo, Sorted, ApplyAll, IsExcludedLive, NoFileAbove;
    var changes := Changes(LiveFiles(live), WorkFiles(work), order);
    PatchAfterDiff(live, work, order);
    assert order[..|order|] == order;
    ApplySorted(live, work, order, |order|);
    if NoFileAbove(live, work) {
      RerunConverges(live, work, changes, |changes|, changes);
      assert changes[..|changes|] == changes;
    } else {
      ClearedClash(live, work, order);
    }
  }

  lemma {:induction false} PrefixOfChanges(l: map<Path, Content>, w: map<Path, Content>, order: seq<Path>, k: nat) returns (m: nat)
    requires k <= |Changes(l, w, order)|
    ensures m <= |order| && Changes(l, w, order[..m]) == Changes(l, w, order)[..k]
  {
    hide Changes, StatusOf;
    if k == |Changes(l, w, order)| {
      m := |order|;
      assert order[..m] == order;
    } else {
      var n := |order| - 1;
      if order == [] { ChangesNone(l, w); }
      ChangesSnoc(l, w, order, n);
      assert order[..n + 1] == order;
      m := PrefixOfChanges(l, w, order[..n], k);
      assert order[..n][..m] == order[..m];
    }
  }

  /** Running the sorted manifest again after an interruption goes through exactly when none of the entries made
      so far has put a directory where one of its entries deletes a file; then the files are those of an
      uninterrupted run. */
  lemma RerunAfterIff(live: Tree, work: Tree, order: seq<Path>, k: nat)
    requires WellFormed(live) && WellFormed(work)
    requires Listing(order, LiveFiles(live), WorkFiles(work)) && Sorted(order)
    requires CarriedOver(live, work, ApplyAll(live, work, Changes(LiveFiles(live), WorkFiles(work), order)))
    requires k <= |Changes(LiveFiles(live), WorkFiles(work), order)|
    ensures var changes := Changes(LiveFiles(live), WorkFiles(work), order);
            var partial := ApplyAll(live, work, changes[..k]);
            var again := ApplyAll(partial.live, work, changes);
            && partial.Done?
            && (again.Done? <==> NoneReplaced((set c | c in changes[..k]), changes))
            && (again.Done? ==> again.live.files == ApplyAll(live, work, changes).live.files)
  {
    hide WellFormed, Changes, LiveFiles, WorkFiles, NoDirectoryClash, FilesAboveGo, Sorted, ApplyAll, CarriedOver, Patched, NoneReplaced, Listing;
    var l, w := LiveFiles(live), WorkFiles(work);
    var changes := Changes(l, w, order);
    PatchAfterDiff(live, work, order);
    var m := PrefixOfChanges(l, w, order, k);
    assert order[..|order|] == order;
    forall c | c in changes[..k] ensures c in changes {}
    ApplySorted(live, work, order, m);
    ApplySorted(live, work, order, |order|);
    var some, all := set c | c in changes[..k], set c | c in changes;
    var partial := ApplyAll(live, work, changes[..k]).live;
    if NoneReplaced(some, changes) {
      ApplySortedOn(live, work, order, |order|, some, partial);
      assert some + all == all;
      SameFiles(live, work, all, ApplyAll(partial, work, changes).live, ApplyAll(live, work, changes).live);
    } else {
      ReplacedStops(live, work, order, m, partial);
    }
  }

  lemma ReplacedStops(live: Tree, work: Tree, order: seq<Path>, m: nat, t: Tree)
    requires Sorted(order) && m <= |order| && WellFormed(live)
    requires Listing(order, LiveFiles(live), WorkFiles(work))
    requires var some := set c | c in Changes(LiveFiles(live), WorkFiles(work), order[..m]);
             Patched(live, work, some, t) && !NoneReplaced(some, Changes(LiveFiles(live), WorkFiles(work), order))
    ensures ApplyAll(t, work, Changes(LiveFiles(live), WorkFiles(work), order)).Stopped?
  {
    hide IsExcludedLive, IsExcludedWorkcopy, ApplyAll, Changes, LiveFiles, WorkFiles, Sorted;
    var l, w := LiveFiles(live), WorkFiles(work);
    var some := set c | c in Changes(l, w, order[..m]);
    var b, c :| b in some && c in Changes(l, w, order) && !b.status.Deleted? && c.status.Deleted? && c.path in Above(b.path);
    var j :| 0 <= j < m && order[j] == b.path;
    var i :| 0 <= i < |order| && order[i] == c.path;
    SortedIsParentsFirst(order, i, j);
    assert order[..m][i] == c.path;
    assert c in some && c == Change(c.path, Deleted);
    assert Holds(t, c.path, Want(live, work, some, c.path));
    DeletingDirectoryStops(t, work, Changes(l, w, order), c.path);
  }

  lemma ClearedClash(live: Tree, work: Tree, order: seq<Path>)
    requires WellFormed(live) && WellFormed(work) && FilesAboveGo(live, work) && !NoFileAbove(live, work)
    requires Listing(order, LiveFiles(live), WorkFiles(work))
    requires var changes := Changes(LiveFiles(live), WorkFiles(work), order);
             Patched(live, work, (set c | c in changes), ApplyAll(live, work, changes).live)
    ensures var changes := Changes(LiveFiles(live), WorkFiles(work), order);
            ApplyAll(ApplyAll(live, work, changes).live, work, changes).Stopped?
  {
    hide IsExcludedLive, IsExcludedWorkcopy, ApplyAll, Changes, LiveFiles, WorkFiles;
    var l, w := LiveFiles(live), WorkFiles(work);
    var changes := Changes(l, w, order);
    var t := ApplyAll(live, work, changes).live;
    var p :| p in w && HasFileAbove(live, p);
    var k :| 0 < k < |p| && p[..k] in live.files;
    var a := p[..k];
    InScans(live, work, p);
    assert a in work.dirs;
    DeletedAbove(live, work, a);
    assert a !in live.dirs;
    assert p !in live.files;
    assert StatusOf(l, w, p) == Some(Added);
    assert Change(p, Added) in changes && Change(a, Deleted) in changes;
    assert a in Above(p);
    assert Holds(t, a, Want(live, work, (set c | c in changes), a));
    DeletingDirectoryStops(t, work, changes, a);
  }

  lemma InScans(live: Tree, work: Tree, p: Path)
    requires p in WorkFiles(work)
    ensures p in work.files && (p in LiveFiles(live) ==> p in live.files)
  {}

  lemma {:induction false} DeletingDirectoryStops(t: Tree, work: Tree, run: seq<Change>, d: Path)
    requires d in t.dirs && d !in t.files && Change(d, Deleted) in run
    ensures ApplyAll(t, work, run).Stopped?
    decreases |run|
  {
    if run[0] != Change(d, Deleted) {
      DirectoryEntry(t, work, run[0], d);
      match ApplyEntry(t, work, run[0])
      case Done(next) => DeletingDirectoryStops(next, work, run[1..], d);
      case Stopped(_) =>
    }
  }

  /** A live file that is not scanned, for one a log file, blocks every workcopy file below its path. */
  lemma UnscannedFileBlocks(live: Tree, work: Tree, order: seq<Path>, p: Path, k: nat)
    requires WellFormed(live) && WellFormed(work) && Listing(order, LiveFiles(live), WorkFiles(work))
    requires p in WorkFiles(work) && 0 < k < |p| && p[..k] in live.files && IsExcludedLive(p[..k], true)
    ensures ApplyAll(live, work, Changes(LiveFiles(live), WorkFiles(work), order)).Stopped?
  {
    hide IsExcludedLive, IsExcludedWorkcopy, ApplyAll, Changes;
    if ApplyAll(live, work, Changes(LiveFiles(live), WorkFiles(work), order)).Done? {
      CarriedHasFilesGone(live, work, order);
      assert false;
    }
  }

  /** Such a file and such a path below it exist: the suffix of a directory's name excludes nothing. */
  lemma LogFileAbove()
    ensures IsExcludedLive(["run.log"], true) && !IsExcludedWorkcopy(["run.log", "notes"], true)
  {
    hide Suffix, Lower;
    LogSuffix();
  }

  lemma LogSuffix()
    ensures Lower(Suffix("run.log")) == ".log" && Lower(Suffix("notes")) == ""
  {
    assert LastDot("run.log") == 3;
    assert "run.log"[3..] == ".log";
    forall i | 0 <= i < 4 ensures Lower(".log")[i] == ".log"[i] {}
    assert LastDot("notes") == -1;
  }

  /** The clash that the theorems above rule out is real: copying a workcopy file onto a live directory
      puts it inside that directory, and the path itself stays unpatched. */
  lemma CopyLandsInside(live: Tree, work: Tree, p: Path, s: Status)
    requires WellFormed(live) && p in work.files && p in live.dirs && !s.Deleted?
    requires SafeTarget(p) && p + [Last(p)] !in live.dirs
    ensures var r := ApplyEntry(live, work, Change(p, s));
            r.Done? && p !in r.live.files && r.live.files == live.files[p + [Last(p)] := work.files[p]]
  {
    forall k | 0 < k < |p| ensures p[..k] !in live.files {
      assert p[..k] in live.dirs;
    }
  }
}
