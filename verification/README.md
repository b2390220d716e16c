# Verified model of the self-edit engine, its workcopy and its task inventory

This project models the parts of the repository that change files under control and decide what runs next, and
proves what they promise.

- **Self-edit engine** (`self_edit_loop.py`). An edit is written as one sentence, parsed back, located in a file,
  indented, spliced in, verified, repaired at most once, and rolled back when it belongs to a plan of several steps.
  The file system is a map from absolute paths to bytes. Python's parser, the limit on the size of a difference, the
  pattern of a block header, the screening of a sentence and the verification commands are arbitrary functions: the
  commands may answer differently in every step, at every tick of the clock and for every state of the files.
- **JSON scanner** (`self_edit_loop.py`). The state machine that finds objects in noisy model output.
- **Workcopy** (`self_edit_zero.py`, `self_edit_apply_back.py`). Copying the live tree, comparing two trees under two
  different exclusion rules, and carrying the differences back.
- **Retry loop** (`persona_workcopy_executor.py`). Repairing broken files strategy by strategy under an arbitrary
  validator.
- **Task inventory** (`cli/task_cli.py`). Classifying, archiving, selecting and reordering queued tasks.

Modules, lowest first: `Text`, `LineStyle`, `Utf8`, `Snapshot`, `PathRules`, `Pattern`, `TaskText`, `LineEdit`,
`Transaction`, `RunEndings`, `SelfEditLoop`, `AgentSteps`; beside them `JsonScan`, `Workcopy`, `LineRepair`,
`RetryLoop` and `TaskInventory`. Where the source loops or updates an object, the model has a method or a class
(`SelfEditLoop.Workspace`, `Workcopy.LiveRepo`, `RetryLoop.Executor`, `RetryLoop.EditOperation`) whose contract
equates it with a specification function; the lemmas are about that function.

## Where a promise holds only under a condition

Each of these is a property that the code does not meet on every input, with the condition under which it does.

- An edit's target can lie outside the repository root: the path that is checked is normalised once more than the one
  that is joined, and the test on the joined path compares names as text. `PathRules.ContainedIff` says for every
  spelling when the target lies below the root, `PathRules.NeverFurtherThanSibling` how far outside it can lie, and
  `PathRules.TargetCanLeaveRoot` and `Transaction.EditOutsideRoot` give a spelling for which it does, from its sentence
  to the file. `PathRules.ResolveSettled` says when the two paths agree.
- A rejected step is not rolled back: by `Transaction.RejectedStep` what the steps before it wrote stays unless one of
  them had failed, and `Transaction.RejectionKeepsEdit` gives runs whose file then reads differently, with the exact
  condition.
- A repair may follow a file name in the verifier's output to a file that is no step's target so far. A rollback leaves
  such a leaked file as repaired: `Transaction.TransactionOutcome` says what it reads as after any run, and
  `Transaction.RollbackLeavesLeak` gives runs with a leak.
- A verification failure may name a file whose path does not resolve, or one that cannot be decoded
  (self_edit_loop.py:2864-2878, 1525-1535). The repair then raises inside the step and nothing is rolled back:
  `RunEndings.RaisedIff` says at which step a run ends so, `RunEndings.UnrolledBackIff` when a file reads as before all
  the same, and `RunEndings.UnresolvedBlameKeepsEdit` gives runs that leave an edit behind, as a bare file name in the
  verifier's output does when only files under workspace/ are allowed.
- A backup survives the run, whatever its ending, when the clock does not show its second again
  (`RunEndings.BackupSurvivesRun`); a second edit of the same file in that second overwrites it
  (`RunEndings.BackupUntilOverwritten`).
- A plan of one step is not a transaction: `Transaction.SingleStepKeepsItsEdit`, and `Transaction.FailedPlanKeepsEdit`
  for plans that fail with the edit in the file.
- A rollback gives a file its bytes back exactly when it has at most one byte order mark and one newline style
  (`Snapshot.RestoreIffExact`).
- A printed edit that contains the word "then" between white space, or one of the two other step separators, is cut
  into several steps, quoted or not (`AgentSteps.PrintedStaysWholeIff`, `AgentSteps.ThenIsCut`).
- Printing and parsing an edit, for a path that does not begin with white space, is the identity exactly when the path is
  settled and reads neither as "function f in p" nor as "p function f", and the texts spell out no line break and no tab
  (`TaskText.ParseUndoesPrintIff`). The path "function f in p.py" comes back as function f of p.py
  (`TaskText.ParseOfFunctionPrint`).
- Carrying a workcopy over makes the trees agree exactly under the three conditions of `Workcopy.PatchAfterDiff`.
  Copying onto a live directory lands inside it (`Workcopy.CopyLandsInside`), and a live file that is not scanned
  blocks every workcopy file below its path (`Workcopy.UnscannedFileBlocks`). Carrying the same manifest over twice
  fails exactly when a live file gave way to a directory (`Workcopy.RerunIff`), and after an interruption exactly when
  one of the entries made so far put a directory there (`Workcopy.RerunAfterIff`).
- A fresh workcopy shows differences when a live directory has the name of an excluded file
  (`Workcopy.FreshWorkcopyIff`).
- Cleanup archives every task that has a target's id, target or not; tasks without an id all share the empty one
  (`TaskInventory.ChangesTargetsIff`, `TaskInventory.SharedIdIsArchived`).
- The number of attempts of one step is documented as configurable (self_edit_loop.py:2812); whatever it is, the loop is
  left after the first attempt, because the only text to try counts as tried from the start
  (`SelfEditLoop.Workspace.RunSingleStep`).

## Model

| member | source | states |
|---|---|---|
| Transaction.AllOrNothing | self_edit_loop.py:3321-3436 | For every file system, verifier and list of steps that pass screening and parse, when verification blames no file but the targets so far: a run succeeds, every edit and repair was accepted on the text it met, verification passed after every step, no repair left the targets, and every file reads as the in-order fold of the pure edits; or it is rolled back and every file reads as before; nothing but backups is added |
| Transaction.TransactionOutcome | self_edit_loop.py:3321-3436 | Without any assumption: how each of the four ways a run can end leaves every file, leaked ones included, the snapshot table and the log, whose edits and repairs were all accepted on the text they met |
| Transaction.RunKeepsInvariant | self_edit_loop.py:3326-3338 | Over every prefix of steps the table holds each resolved target as it was before the first step that touched it, and every other file that is not a backup or a leak keeps its bytes |
| Transaction.RollbackRestores | self_edit_loop.py:2749-2769 | Writing the table back undoes everything outside the leaks; bytes come back exactly for files with one newline style and at most one mark |
| Transaction.StepFrame | self_edit_loop.py:2807-2943 | One step changes at most its own target, the repaired file and backups, each by the one pure edit and the one pure repair |
| Transaction.StepVerdict | self_edit_loop.py:2844-2889 | A step whose edit went in, and which does not raise, is ok exactly when every command of the last verification of the files it leaves passed; without an edit no step is ok |
| Transaction.SuccessIsVerified | self_edit_loop.py:3345-3436 | In a run that succeeds every step has passed verification on the files it left |
| RunEndings.SucceedsIff | self_edit_loop.py:3326-3436 | Steps that pass screening and parse get past a step exactly when the steps before it succeed, its edit goes in, no repair raises and verification passes on the files it leaves |
| RunEndings.StatusIff | self_edit_loop.py:2807-2943 | How a step ends, in every case: exactly when it raises, is delegated, is ok, and fails otherwise |
| RunEndings.RepairIff | self_edit_loop.py:2852-2887 | Which file a step repairs: the first result that reports an indentation decides, by the file it names or else the edited one, after a verification that failed only; and what the step's files then are |
| RunEndings.DirectVerdict | self_edit_loop.py:1240-1437 | Exactly when a direct edit is applied, refused or raises |
| RunEndings.RepairVerdict | self_edit_loop.py:1525-1607 | The same for the indentation repair |
| Transaction.RejectedStep | self_edit_loop.py:3326-3327 | A step that fails screening ends the run exactly as the earlier steps alone would, with success turned into an exception and no rollback |
| Transaction.RejectionKeepsEdit | self_edit_loop.py:3326-3327 | Runs on which all-or-nothing fails: a printed edit that goes through, followed by a rejected step, ends in an exception with the edit in the file, which reads as before exactly when the edit does not show |
| Transaction.RollbackLeavesLeak | self_edit_loop.py:2864-2867 | Runs with a leak: the rollback brings the edited file back and leaves the other one as repaired, so as before exactly when the repair does not show |
| RunEndings.RaisedIff | self_edit_loop.py:2850-2878 | Steps that pass screening and parse end in an exception at a step exactly when the steps before it succeed, its edit goes in, and its first indentation failure leads to a file that does not resolve or is there and cannot be decoded |
| RunEndings.UnrolledBackIff | self_edit_loop.py:3321-3436 | After any run that is not rolled back every readable file reads as the fold of what was done, and reads as before exactly when that fold is the old text and no write dropped its mark |
| RunEndings.UnresolvedBlameKeepsEdit | self_edit_loop.py:2864-2878 | Runs that end so: every verification blames a file that does not resolve, and the exception leaves a printed edit in the file, which reads as before exactly when the edit does not show |
| RunEndings.EditIsBackedUp | self_edit_loop.py:1439-1445 | An edit that changes its file leaves a backup that reads as the file did, mark included, and no other backup changes |
| RunEndings.BackupUntilOverwritten | self_edit_loop.py:1439-1445 | After a second edit the first one's backup reads as its file did before the first, except when both edit the same file in the same second: then as it did between the two |
| RunEndings.BackupSurvivesRun | self_edit_loop.py:3321-3436 | Over a whole run, however it ends: when the clock does not show the second of an edit again, the edit's backup still reads as the file did when the edit met it |
| RunEndings.RepairIsBackedUp | self_edit_loop.py:1578-1580 | The same backup for the indentation repair, under a name of its own |
| Transaction.PrintedEditRuns | self_edit_loop.py:2807-2943 | From sentence to file: a printed edit of a block that stands once in a safe file succeeds when verification passes, the file reads as its text with that block replaced, and every other file that is no backup keeps its bytes |
| Transaction.DirectPrinted | self_edit_loop.py:1240-1445 | Such an edit is applied to exactly the target its path names, and the file reads as before exactly when the edit does not show |
| Transaction.EditOutsideRoot | self_edit_loop.py:552-563 | A sentence whose path resolves outside the root is parsed and applied there like any other |
| Transaction.CaptureKeepsFirst | self_edit_loop.py:3329-3338 | Recording a target keeps every entry there is and adds at most that target as it reads now; no later spelling of a recorded path changes the table, whatever the files have become |
| Transaction.CaptureIff | self_edit_loop.py:3329-3338 | Exactly when recording fails, and exactly which file is recorded |
| Transaction.SingleStepKeepsItsEdit | self_edit_loop.py:3306-3319 | A plan of at most one step leaves the files as the fold of its own accepted edit and repair, whatever the verdict |
| Transaction.FailedPlanKeepsEdit | self_edit_loop.py:3306-3319 | Plans of one step that fail verification with the edit in the file |
| Transaction.OverwriteFrame | self_edit_loop.py:1439-1445 | After a write with backup the target reads as the settled new text without a mark, and every other file that is no backup keeps its bytes |
| Transaction.DirectFrame | self_edit_loop.py:1240-1514 | A direct edit that is applied changes its resolved target by the one pure edit and nothing else but backups; one that is refused changes nothing |
| SelfEditLoop.Workspace.RepairFirstUnindentedBlock | self_edit_loop.py:1525-1607 | The search for the first unindented body repairs that one or refuses |
| Transaction.VerifyFrame | self_edit_loop.py:2850-2902 | Verifying an edit that went in adds at most one pure repair of one file, and keeps the edit |
| SelfEditLoop.Workspace.RunSingleStep | self_edit_loop.py:2807-2943 | For every limit on attempts and every answer of the mismatch test the loop makes exactly one attempt, and none on a rejected text; its verdict is the specified one, which is ok only after verification |
| SelfEditLoop.Workspace.RestoreTransactionSnapshots | self_edit_loop.py:2749-2769 | The loop writes exactly the table, in whatever order it is listed |
| SelfEditLoop.Workspace.RunSelfEditSteps | self_edit_loop.py:3321-3436 | The imperative loop computes the specified run and ends as the invariant says |
| AgentSteps.StepsRoundTripIff | self_edit_loop.py:2710-2733 | Splitting undoes joining two or more trimmed steps exactly when no separator begins inside a step |
| AgentSteps.SemiRoundTripIff | self_edit_loop.py:2725-2727 | The same for the separator with semicolons, in a text without the first one |
| AgentSteps.ThenRoundTrip | self_edit_loop.py:2728-2730 | Trimmed steps parted by the word "then", in upper or lower case and with any white space around it, come back as those steps when no such separator begins in one of them and neither other one stands anywhere |
| AgentSteps.BlankHasNoSteps | self_edit_loop.py:2721-2733 | Only a blank task has no steps, and white space around a task makes no difference |
| AgentSteps.WholeIff | self_edit_loop.py:2710-2733 | A trimmed text is the one step it spells exactly when none of the three separators stands in it, or nothing but separators and white space does |
| AgentSteps.CutInside | self_edit_loop.py:2710-2733 | A separator inside a text cuts it in two or more steps |
| AgentSteps.PrintedStaysWholeIff | self_edit_loop.py:2671-2688 | A printed edit is the one step it spells exactly when it contains no separator, and is cut in two or more otherwise |
| AgentSteps.PrintedPlanRuns | self_edit_loop.py:3305-3319 | Then its plan runs as that one edit and succeeds with it in the file when verification passes |
| AgentSteps.ThenIsCut | self_edit_loop.py:2729-2730 | Every edit of a text with the word "then" in it is cut in two or more |
| AgentSteps.PlannedTransaction | self_edit_loop.py:3305-3327 | A text of clean steps runs as the transaction of those steps |
| LineEdit.EditFrame | self_edit_loop.py:1295-1394 | A successful edit rewrites the unique accepted match, inside the requested function, keeps all lines around it and changes the line count by the difference in width |
| LineEdit.UniqueIsLocated | self_edit_loop.py:673-683 | A block that occurs once in range is what is located |
| LineEdit.AmbiguousIsRefused | self_edit_loop.py:1295-1394 | A block that stands twice in range is refused, with no fallback |
| LineEdit.FallbackIff | self_edit_loop.py:1310-1371 | Without an exact block in range the place is the one line that agrees when stripped; else, for an edit of a return statement, the only one in range that the parser reports; else there is none |
| LineEdit.FunctionTargetIff | self_edit_loop.py:981-1062 | A name is a target exactly when the file is Python, parses and has one function of that name; the range is that function's lines |
| LineEdit.EditStaysInFunction | self_edit_loop.py:981-1085 | An edit inside a named function changes lines of the one function of that name only: everything before and behind it is kept |
| LineEdit.EditTextIff | self_edit_loop.py:1175-1437 | An edit is accepted exactly when it can be made within the size limit and, in a Python file, the result parses and an edit of a return statement hits one |
| LineEdit.UniqueIsEdited | self_edit_loop.py:1240-1437 | A block that stands once in the file is replaced there unless the size limit or the parser objects |
| LineEdit.ReindentKeepsText | self_edit_loop.py:648-670 | Every line of the replacement keeps its text; a line that already begins with the old line's indentation, or has nothing to indent, is as it was, and any other begins with exactly that indentation |
| LineEdit.ReindentIdempotent | self_edit_loop.py:648-670 | Re-indenting an already re-indented replacement changes nothing |
| LineEdit.ReindentUnchangedIff | self_edit_loop.py:648-670 | Which blocks re-indenting leaves alone |
| LineEdit.ReverseEditIff | self_edit_loop.py:648-683 | The reverse replacement finds the new block and restores the original lines exactly when the old block carries the indentation of the new block's first line |
| LineEdit.EditedText | self_edit_loop.py:1371-1445 | The edited text keeps one newline style and splits into exactly the edited lines |
| LineEdit.RepairTextIff | self_edit_loop.py:1543-1597 | The indentation repair goes to the first block header whose next line has text but no indentation, and is done exactly when there is one and the parser agrees |
| LineEdit.RepairFrame | self_edit_loop.py:1543-1607 | The indentation repair changes one line, and only the white space in front of it, which becomes the header's and four blanks |
| LineStyle.CanonicalIffUniform | self_edit_loop.py:585-605 | Joining a split is the identity on exactly the texts with one newline style |
| LineStyle.CanonicalIdempotent | self_edit_loop.py:585-605 | One split and join reaches a fixed point on every text |
| LineStyle.SplitOfJoinKeepStyle | self_edit_loop.py:591-605 | Splitting a join gives the lines and the final break back except for several lines ending in an empty one without a final break |
| LineStyle.SplitDropsNothing | self_edit_loop.py:591-598 | A split never produces that one list |
| Utf8.DecodeOfEncode | self_edit_loop.py:566-582 | Decoding undoes encoding (RFC 3629) |
| Utf8.EncodeOfDecode | self_edit_loop.py:566-582 | A decodable byte string has one spelling |
| Utf8.EncodeCharMeans | self_edit_loop.py:608-645 | How many bytes a character takes, their marks and the bits in them (section 3 of RFC 3629) |
| Utf8.DecodeBom | self_edit_loop.py:566-582 | A byte order mark in the bytes is a leading mark in the text and the other way round |
| Snapshot.FallbackIsIdle | self_edit_loop.py:566-582 | The second codec never succeeds where the first one fails |
| Snapshot.ReadBack | self_edit_loop.py:608-645 | A written text reads back settled, with the mark that was asked for |
| Snapshot.RestoreIffExact | self_edit_loop.py:566-645 | Reading and writing back gives the original bytes exactly for files with at most one mark and one newline style |
| Snapshot.RestoreReachesFixedPoint | self_edit_loop.py:2740-2753 | For every decodable file one pass reaches bytes that no further pass changes |
| PathRules.NormalizePathText | self_edit_loop.py:172-177 | The slash loop ends and computes the specified normal form |
| PathRules.SettledIffUnchanged | self_edit_loop.py:172-177 | Which spellings normalisation leaves unchanged |
| PathRules.NormalizedForm | self_edit_loop.py:172-177 | No normal form has a backslash, a double slash or a leading dot or slash |
| PathRules.NormalizedNames | self_edit_loop.py:172-177 | For every input the normal form names what stands between slashes of either kind, once white space and quotes around it and the dots and slashes it begins with are gone |
| PathRules.SuffixIff | self_edit_loop.py:541-543 | The suffix is the last dot and what follows, when something stands on either side of it |
| Text.LowerMeans | self_edit_loop.py:538 | Lower case maps each capital to the small letter at its place in the alphabet and keeps texts without capitals |
| PathRules.AcceptedTarget | self_edit_loop.py:533-549 | Every accepted spelling has no parent component and no leading slash or dot, and names a path strictly below any root |
| PathRules.SafeTargetMeans | self_edit_loop.py:533-549 | For every input the check accepts exactly the spellings whose components exist, have no parent among them, end in a safe suffix in any case, and begin with workspace in any case unless other files are allowed |
| PathRules.ResolveSettled | self_edit_loop.py:552-563 | The checked path is the joined one exactly when the joined spelling is settled; then resolving succeeds exactly when the check does, and the result lies below the root |
| PathRules.ContainedIff | self_edit_loop.py:552-563 | For every spelling that resolves, the target lies strictly below the root exactly when the names left re-enter the components climbed out of; always when the joined spelling never climbs above the root |
| PathRules.NeverFurtherThanSibling | self_edit_loop.py:558-561 | Every resolved target keeps all of the root but the last component, and what stands in that one's place begins with it |
| PathRules.ResolvedIsNoBackup | self_edit_loop.py:552-563 | No resolved target carries a backup's name, whatever the spelling |
| PathRules.BackupIsBackup | self_edit_loop.py:1441-1443 | Every backup name is one, so no backup write can hit a target |
| PathRules.BackupInjective | self_edit_loop.py:1441-1443 | A backup's name determines its file, its kind and its second |
| PathRules.DecimalMeans | self_edit_loop.py:1441 | The second is written in decimal, without leading zeros |
| PathRules.TargetCanLeaveRoot | self_edit_loop.py:552-563 | A spelling that is checked as workspace/x.py and resolves outside the root |
| Pattern.EndsAreAccepted | self_edit_loop.py:464-525 | Each pattern item is tried at exactly the prefixes it accepts |
| Pattern.MatchSound | self_edit_loop.py:464-525 | A match is a decomposition of the text that every item accepts |
| Pattern.MatchComplete | self_edit_loop.py:464-525 | Backtracking finds a match whenever there is one |
| Pattern.MatchIsFirst | self_edit_loop.py:478-495 | Of all ways to cut a text the match is the first in the order of backtracking: item by item, paths as short and everything else as long as the items before leave them |
| TaskText.QuoteShape | self_edit_loop.py:441-446 | Unquoting undoes quoting for every text |
| TaskText.DecodeIffPlain | self_edit_loop.py:449-454 | Which texts the literal decoder leaves alone |
| TaskText.DecodeOfSpelled | self_edit_loop.py:449-454 | Spelling out every line break, either way, and every tab is undone on texts without a backslash |
| TaskText.ParseOfPrint | self_edit_loop.py:457-525 | What parsing any printed edit gives, for every path that is not of a function form and all texts |
| TaskText.ParseUndoesPrintIff | self_edit_loop.py:441-525 | For every path that does not begin with white space, parsing returns exactly the path and texts printed if and only if the path is settled and of neither function form, and the texts spell out no break or tab |
| TaskText.ParseOfFunctionPrint | self_edit_loop.py:1651-1667 | The planner's "function f in p" form comes back as function f with path p |
| TaskText.ParseOfPathThenFunctionIff | self_edit_loop.py:464-525 | The documented form "p function f" comes back as function f of path p, for every p that neither begins nor ends with white space, exactly when it is not of the form "function f in p" as well |
| TaskText.NotFunctionFirst | self_edit_loop.py:478-485 | It is not for one word p, nor for any p that does not begin with "function" |
| TaskText.ParseOfColonTask | self_edit_loop.py:464-525 | The documented form "p: in function f" comes back as function f of path p, for every p that does not begin with white space and all texts |
| TaskText.FunctionFirstIff | self_edit_loop.py:478-481 | The first pattern takes a printed sentence exactly when its subject reads "function", an identifier, "in" and a path, with white space between |
| TaskText.PathThenFunctionIff | self_edit_loop.py:482-485 | The second takes it exactly when the subject reads a path, "function" and an identifier |
| TaskText.NoFunctionWord | self_edit_loop.py:478-485 | Neither does for one word, or for words of which none begins with "function" |
| TaskText.NotPathColonInFunction | self_edit_loop.py:486-489 | The third takes no printed sentence |
| JsonScan.ExtractCandidates | self_edit_loop.py:1993-2024 | The loop over two flags, a depth and a start index computes the specified candidates |
| JsonScan.CandidatesAreObjects | self_edit_loop.py:1993-2024 | For every input the candidates are disjoint, in order, brace to brace, balanced outside strings, with no balanced proper prefix |
| JsonScan.ReportedIffTop | self_edit_loop.py:1993-2024 | An object is reported at its place exactly when the scanner reaches that place at top level |
| JsonScan.ObjectRecovered | self_edit_loop.py:1993-2024 | The candidates around an object at top level are those before it, itself, and those after it |
| JsonScan.CandidatesConcat | self_edit_loop.py:1993-2024 | From a top-level position the scanner starts afresh |
| JsonScan.PrintedObjectRecovered | self_edit_loop.py:1993-2024 | After any text without quotation marks and opening braces the first candidate is exactly the printed object |
| JsonScan.RfcLayoutIsGood | self_edit_loop.py:1993-2024 | The escapes of section 7 of RFC 8259 with any white space of section 2 meet what that needs |
| Workcopy.CopyRepoToWorkcopy | self_edit_zero.py:260-297 | The pruned walk copies exactly the files that are not excluded and lie below no pruned directory |
| Workcopy.CopiedIff | self_edit_zero.py:276-297 | What that is: the files outside workspace/self_edit no part of whose path is an excluded directory or file name and whose suffix is not excluded |
| Workcopy.CollectChanges | self_edit_zero.py:377-427 | The loop lists as added exactly what only the workcopy's scan has, as deleted what only the live scan has, as modified what both have with different contents, in the order of the listing, and its counts are the numbers of those paths |
| Workcopy.ManifestMeans | self_edit_zero.py:389-405 | The same of the specified manifest |
| Workcopy.WorkcopyExclusionIsLive | self_edit_zero.py:103-179 | What the workcopy scan leaves out the live scan leaves out too, and what the live scan leaves out in addition is exactly what lies under workspace/self_edit outside the runtime's own directories and has no excluded directory, name or suffix |
| Workcopy.PruningDropsOnlyNamed | self_edit_zero.py:276-297 | Above a scanned file only a directory with the name of an excluded file is pruned |
| Workcopy.FreshWorkcopyIff | self_edit_zero.py:260-367 | A fresh workcopy shows no difference exactly when no scanned file lies below such a directory |
| Workcopy.PatchAfterDiff | self_edit_zero.py:377-427 | Applying the sorted manifest makes the scanned live files equal to the workcopy's and leaves excluded ones alone if and only if every manifest path is safe, no scanned workcopy file is a live directory, and every live file above a scanned workcopy file is scanned; a second comparison then reports nothing |
| Workcopy.SortedIsParentsFirst | self_edit_zero.py:389 | In the order of the sorted names, what lies above a path comes before it |
| Workcopy.ApplyAnyOrder | self_edit_apply_back.py:58-79 | Where nothing clashes, genuine entries in any order and with repetition never stop and patch exactly the named paths |
| Workcopy.RerunConverges | self_edit_apply_back.py:58-79 | Where nothing clashes, an interrupted run has patched exactly its entries, and a rerun in any order gives the files of an uninterrupted one |
| Workcopy.RerunIff | self_edit_apply_back.py:58-79 | The sorted manifest goes through a second time exactly when no live file was above a scanned workcopy file |
| Workcopy.RerunAfterIff | self_edit_apply_back.py:58-79 | After the first k entries, for every k, the sorted manifest goes through from the start exactly when no entry made so far lies below a deleted path, and then gives the files of an uninterrupted run |
| Workcopy.AppliesIff | self_edit_apply_back.py:40-79 | When no scanned workcopy file is a live directory, the sorted manifest goes through exactly when every path is safe and every live file above a scanned workcopy file is scanned |
| Workcopy.UnsafeStops | self_edit_apply_back.py:40-79 | A path that is absolute, has a parent component or lies under workspace/ stops the run with exactly the entries before it applied |
| Workcopy.SafeStaysInside | self_edit_apply_back.py:40-48 | A safe path resolves below any root, at its own components |
| Workcopy.MissingStops | self_edit_apply_back.py:58-79 | So does an added or modified entry without a source; a deleted one whose file is gone does nothing |
| Workcopy.UnscannedFileBlocks | self_edit_apply_back.py:66-71 | A live file that is not scanned stops the manifest of any workcopy file below its path |
| Workcopy.LogFileAbove | self_edit_zero.py:103-179 | Such a file and a scanned path below it exist |
| Workcopy.CopyLandsInside | self_edit_apply_back.py:66-71 | Copying onto a live directory puts the file inside it and leaves the path itself unpatched |
| Workcopy.LiveRepo.ApplyBack | self_edit_apply_back.py:51-79 | The loop computes the specified tree, and the applied list is what was applied before the first refusal |
| LineRepair.RepairLonelyBackslash | persona_workcopy_executor.py:344-358 | The loop computes the specified repair and reports a change exactly when a line was replaced |
| LineRepair.RemoveLonelyKeepsLines | persona_workcopy_executor.py:344-358 | On text as it is read, with line feeds only, the repair changes exactly the lonely-backslash lines and keeps every other one |
| LineRepair.RemoveLonelyFrame | persona_workcopy_executor.py:344-358 | The same for every string, with the one kind of last line, ended by a carriage return, that such text never has |
| LineRepair.RemoveLonelyIdempotent | persona_workcopy_executor.py:344-358 | A second pass finds nothing to do |
| LineRepair.CommentMeans | persona_workcopy_executor.py:361-372 | Commenting puts the mark in front of exactly the line that is named, keeps every other line and the end of the text, and changes nothing when no line is named |
| LineRepair.UnescapeMeans | persona_workcopy_executor.py:336-341 | Unescaping deletes backslashes and nothing else, and changes a text exactly when a triple quote stands behind a backslash |
| LineRepair.FaultIsUndone | persona_workcopy_executor.py:758-768 | Repairing the injected fault gives the right-trimmed content and one comment line, exactly as it was when it has no carriage return, as generated content has none |
| RetryLoop.Candidates | persona_workcopy_executor.py:408-422 | The strategies for an error class are distinct, include commenting the line, and include the rebuild exactly for the bridge |
| RetryLoop.PickStrategy | persona_workcopy_executor.py:447-455 | A spent strategy is picked only when all are spent, and then it is commenting the line |
| RetryLoop.RetryRun | persona_workcopy_executor.py:446-470 | The loop makes at most MAX_RETRY repairs, ends valid or at that bound, chains its validations and touches one file |
| RetryLoop.NoStrategyTwice | persona_workcopy_executor.py:447-457 | No strategy is used twice before all candidates are spent |
| RetryLoop.PathRunShape | persona_workcopy_executor.py:430-489 | One file: the bound with the bridge's extra repair, no rewrite of a file that is valid at first, no other file touched |
| RetryLoop.BridgeEndsValid | persona_workcopy_executor.py:472-486 | The generated bridge ends valid when its generated source validates in whatever style of line breaks |
| RetryLoop.InjectedFaultIsRepaired | persona_workcopy_executor.py:446-470 | End to end: an injected fault that is reported as a line continuation is undone by one repair |
| RetryLoop.BatchPath | persona_workcopy_executor.py:425-489 | Over a whole batch each path has the final validation and the records of its own run, from the text it had at first |
| RetryLoop.OneFinalEach | persona_workcopy_executor.py:425-489 | Each processed path has exactly one final validation |
| RetryLoop.Failed | persona_workcopy_executor.py:506-510 | The failed list holds exactly the final validations that are not ok |
| RetryLoop.FailedInOrder | persona_workcopy_executor.py:506-510 | They stand in the order of the final validations, each as often as there |
| RetryLoop.RetriesAreRecords | persona_workcopy_executor.py:457-489 | The retry count of a path's first operation is the number of records for that path over the whole batch |
| RetryLoop.OthersStay | persona_workcopy_executor.py:425-489 | An operation whose path an earlier one has is left alone, and one whose file needs no repair keeps its count |
| RetryLoop.ApplyFrame | persona_workcopy_executor.py:375-405 | One repair touches no file but its own, and keeps that one in place |
| RetryLoop.FailingLineIsCommented | persona_workcopy_executor.py:375-405 | On the file: the line that the parser names, or else the compiler, gets the mark and every other line reads as before; a file of which neither names a line is not touched |
| RetryLoop.OtherRepairs | persona_workcopy_executor.py:375-405 | What unescaping, removing lonely backslashes and rebuilding the bridge make of the file |
| RetryLoop.RepairIsValidated | persona_workcopy_executor.py:394-397 | Every repair is followed by a validation of the file as it then stands |
| RetryLoop.ClassifyMeans | persona_workcopy_executor.py:308-333 | The class of an error is that of the first known message that stands in the parser's or the compiler's text, in upper or lower case, and unknown without one |
| RetryLoop.FirstStrategy | persona_workcopy_executor.py:408-422 | Which strategy comes first for each class, and that the bridge's rebuild comes last |
| RetryLoop.PickedInOrder | persona_workcopy_executor.py:447-455 | Strategies are tried in their order |
| RetryLoop.SkippedPath | persona_workcopy_executor.py:436-444 | What is no Python file, or not there, is neither validated nor touched |
| RetryLoop.Executor.RepairFile | persona_workcopy_executor.py:446-489 | The loop computes one file's run; the operation's retries are the number of its records |
| RetryLoop.Executor.ValidateAndRetry | persona_workcopy_executor.py:425-510 | The loop computes the batch and the outcome of every operation; later operations on a path are left alone |
| TaskInventory.QueuedPartition | cli/task_cli.py:1047-1059 | Invalid, stale and fast-runnable split the active queued tasks, and nothing else is any of them |
| TaskInventory.InvalidIff | cli/task_cli.py:192-236 | Exactly which tasks are invalid, from their fields: an active status, and a failed or mismatched route, a goal that is blank or a placeholder, or a result without progress; and which reason comes first |
| TaskInventory.WordsMean | cli/task_cli.py:113-114 | Words are what white space parts, however much there is of it |
| TaskInventory.CleanupTargets | cli/task_cli.py:1179-1189 | The loop collects exactly the targets |
| TaskInventory.ApplyTaskCleanup | cli/task_cli.py:1220-1255 | The loop computes the cleaned list; its counter is the number of entries that differ |
| TaskInventory.CleanupAt | cli/task_cli.py:1220-1255 | In place, exactly those entries that share an id with a target are archived; order and length stay |
| TaskInventory.ChangesTargetsIff | cli/task_cli.py:1220-1255 | Exactly the targets change if and only if no other task has a target's id |
| TaskInventory.DistinctIdsSuffice | cli/task_cli.py:1220-1255 | Distinct ids are enough for that |
| TaskInventory.SharedIdIsArchived | cli/task_cli.py:1220-1229 | Two tasks without ids where a finished one is archived along with a queued one |
| TaskInventory.ArchivedIsQuiet | cli/task_cli.py:1192-1195 | An archived task is no target, no candidate and no cause of a fall-through |
| TaskInventory.ArchivedRecords | cli/task_cli.py:1234-1251 | An archived target keeps everything it held and records its status, normalised, and the reason why it is invalid or that it is stale |
| TaskInventory.QueuedIsTaskStatus | cli/task_cli.py:175-176 | The second normalisation of a status changes nothing |
| TaskInventory.CleanupIdempotent | cli/task_cli.py:1220-1255 | After a cleanup no target is left, so a second one changes nothing |
| TaskInventory.StagedCleanup | cli/task_cli.py:1220-1255 | Cleaning up invalid tasks first and stale ones afterwards is cleaning up both at once, for every list |
| TaskInventory.SortedEnds | cli/task_cli.py:152-158 | The stable sort keeps the candidates, and its two ends are the extremes of the list |
| TaskInventory.SelectMeans | cli/task_cli.py:1413-1431 | What each selector picks: an extreme of the fast-runnable tasks, or the first task with the id |
| TaskInventory.SelectorPicks | cli/task_cli.py:1413-1431 | What the words pick, in upper or lower case: "latest", "newest" and "last" a fast-runnable task than which none was created later, "next", "oldest" and "first" one than which none was created earlier, with id and place to decide between equals |
| TaskInventory.SelectById | cli/task_cli.py:1413-1420 | Any other selector picks the first task with that id if it can run, and none otherwise |
| TaskInventory.ExtremeIsBest | cli/task_cli.py:1413-1431 | No fast-runnable task is newer, or older, than the one picked |
| TaskInventory.CandidatesKeptIff | cli/task_cli.py:1402-1431 | The candidates are the same before and after cleanup if and only if no fast-runnable task shares its id with a target |
| TaskInventory.SelectionKeptIff | cli/task_cli.py:1413-1431 | A selector picks the same task before and after cleanup if and only if its pick, when it makes one, shares no target's id |
| TaskInventory.SelectionKeptByDistinctIds | cli/task_cli.py:1413-1431 | With distinct ids that always holds |
| TaskInventory.HasLegacySchedulerRunnableTasks | cli/task_cli.py:1354-1399 | The loop finds a task for the scheduler exactly when there is one |
| TaskInventory.LegacyMeans | cli/task_cli.py:1373-1397 | Such a task has an active or running status, in any case and spacing, and is not fast |
| TaskInventory.LegacyAfterCleanup | cli/task_cli.py:1354-1399 | After a cleanup with stale tasks only a running task that is not fast and shares no target's id causes the fall-through |
| TaskInventory.ReorderSelectedTaskFirst | cli/task_cli.py:1434-1442 | The loop computes the specified order |
| TaskInventory.ReorderKeepsTasks | cli/task_cli.py:1434-1442 | Reordering is a permutation with everything of that id in front |
| TaskInventory.PartsInOrder | cli/task_cli.py:1434-1442 | Each part keeps the order of the list |
| TaskInventory.ReorderKeepsSelection | cli/task_cli.py:1434-1442 | No later selection changes, whatever the ids |
| TaskInventory.PickedComesFirst | cli/task_cli.py:1604-1608 | What stands first after reordering is the first task with the picked id |

## Left out

- The scheduler-backed executor and the repo-edit bridge (self_edit_loop.py:2835-2837, 3006-3207): they call code outside this model; a step handed to them ends the model's run as `Delegated`.
- The screening of a sentence (self_edit_loop.py:210-251): any predicate on its text.
- Python's `ast`, `difflib` and the block-header pattern: arbitrary functions; the line numbers of returns and functions are their results.
- Verification commands, `py_compile` and the clock: arbitrary functions that change no file.
- Reading the file name out of a verifier's stderr (self_edit_loop.py:1517-1522): a field of the verifier's answer.
- LLM planning, prompts and HTTP, and the planner's three natural-language patterns (self_edit_loop.py:1629-1666): only the sentence the planner prints is modelled.
- Operating-system details: symbolic links, permissions, failing writes, directories in the self-edit file system, Windows paths.
- Line separators other than carriage return and line feed in `splitlines`, and lower case outside ASCII beyond the Kelvin sign; no comparison in the model depends on the latter.
- Reports, manifests as text, diffs, hashes, sizes, printing and argument parsing.
- Files skipped because copying them failed (self_edit_zero.py:245-257), and reading text with decoding errors in the retry loop.
- Loading a candidate with `json.loads` and the two attempts before the scan (self_edit_loop.py:1978-1991): library code decides them.
- Building a persona plan and the other operations on workcopy files (persona_workcopy_executor.py:637-880): they would add only easy members.
- Creation times that are not numbers count as 0, as in the source; a time that is not a number in the floating-point sense is left out.
- Fields of task records are read as text; alternative names of the id field (core/tasks/task_index.py:79-80) are one field.
