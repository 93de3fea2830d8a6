# Henka, modelled and proved in Dafny

Henka drives language servers. One warm server answers for every working copy of
a repository: a request overlays its working copy's changed files on the shared
index, runs, and restores the base view; the edit an operation produces is moved
onto the working copy, checked and applied. This project models that path, and the
layers it stands on, and proves what each promises.

| file | what it models |
|---|---|
| `Requests.dfy`, `Finish.dfy`, `Moving.dfy`, `Abandon.dfy` | any number of interleaved requests as a system of steps, one request from end to end, moving its edit to another checkout, and a request dropped part way |
| `Session.dfy`, `LspSession.dfy`, `Protocol.dfy`, `Sync.dfy`, `Cases.dfy` | the session as functions and as the object that changes in place, the document rules of LSP 3.17, keeping up with applied edits, and concrete sessions that fall short |
| `Text.dfy`, `Rewrite.dfy`, `Applier.dfy` | positions in three encodings, rewriting one file, planning and writing many |
| `Merge.dfy`, `Search.dfy`, `Dispatch.dfy` | combining several backends' answers, the symbol search they give together, and choosing whom to ask |
| `Framing.dfy`, `Client.dfy`, `Uri.dfy` | framed messages, requests and responses with an arbitrary server, document names on the wire |
| `PathMap.dfy`, `Registry.dfy`, `Paths.dfy` | prefix rewriting and its inverse, the project registry, path arithmetic |

How to read it. Code that changes state step by step is a class or a method with a
loop, and its contract equates the new state with a function of the old one; the
lemmas are about those functions. Concurrency is a relation of atomic steps, and
`Legal` and `After` quantify over all finite runs. A disk is a map from absolute
path to text, a path a sequence of components, a document a string of Unicode
scalar values. The language server is a map of open documents driven by the
notifications. Randomness of hash-set order is a parameter (`Enumerates`).

Where the code does less than one might expect, the exact condition is proved, with a
concrete input on which it fails:

- A range that runs backwards passes every check of `rewrite_file` and panics
  (`Rewrite.PanicsExactly`, `Rewrite.BackwardsRangePanics`).
- `restore_overlay` cannot undo a document it changed whose base file has become
  unreadable (`Session.RestoreCleansExactly`, `Cases.VanishedFileIsNotRestored`).
- A rename reports only where a file went, so an open source without a text edit
  stays open on a file that is gone (`Sync.SyncKeepsCleanExactly`,
  `Cases.RenameLeavesStaleDocument`).
- A file operation that fails after text edits were written, or after other operations
  ran, skips the sync, as does an edit of a working copy nested in the base checkout
  (`Sync.UnsyncedKeepsCleanExactly`, `Cases.FailedOperationLeavesStaleDocument`,
  `Cases.HalfDoneRenamesLeaveStaleDocument`). The run theorems hold all the same: they
  except the documents such edits, and other writers to the base checkout, leave stale
  (`Requests.FinishStalesExactly`).
- A file deleted or committed in a working copy is not in its delta's readable
  files, and shows its base text (`Finish.ViewIsWorkingCopyExactly`,
  `Cases.DeletedFileShowsBase`).
- A request dropped between a notification and its bookkeeping, or while it restores,
  can leave its text for the next one (`Abandon.NextRequestIsCleanExactly`,
  `Abandon.DroppedRestoreIsCleanExactly`, `Cases.DroppedAfterNotification`,
  `Cases.DroppedRestoreIsNotUndone`).
- One dropped between the notification that opens a document and the open set makes the
  next open of that file break the document rules (`Abandon.DroppedOpenIsCleanExactly`,
  `Abandon.OpeningAgainKeepsRulesExactly`, `Cases.DroppedOpenOpensTwice`).
- Versions wrap at 32 bits (`Requests.EveryRunKeepsTheProtocolExactly`,
  `Protocol.WrappingChangeBreaksRules`).
- A single carriage return is not a line end to `resolve_offset`, though LSP 3.17
  counts it as one (`Text.LinesAreLspLinesExactly`, `Text.LoneReturnStartsNoLine`).
- A `limit` that is not an unsigned integer is the default for each backend but no
  cap for the merge (`Search.SearchIsOneSearch`, `Search.NegativeLimitIsNoCap`);
  adding counts wraps at 64 bits (`Search.CountIsRightExactly`, `Merge.CountsWrap`).
- A percent sign in a path can be read back as an escape, and two paths can share a
  URI (`Uri.RoundTripsExactly`, `Uri.SharesUriExactly`,
  `Uri.SpelledOutEscapeCollides`); open together they break the document rules on the
  wire (`UriTrace.EveryRunOnTheWireExactly`, `UriTrace.TwinsBreakTheRules`).
- A container mounted below another can lead a path astray on its way back
  (`PathMap.ReverseUndoesMapExactly`, `PathMap.NestedContainerMisleads`).
- A call registered after the reader's drain is never answered
  (`Client.DrainReleasesExactly`, `Client.LateCallHangs`).
- A project whose save fails stays registered in memory
  (`Registry.RefusalChangesNothingExactly`, `Registry.FailedSaveKeepsProject`), one whose
  removal is not saved comes back after a restart (`Registry.FailedRemovalExactly`,
  `Registry.FailedSaveRevivesProject`), and a tree can be registered by hand under a
  second id
  (`Registry.RegisterSharesRootExactly`, `Registry.OneTreeTwice`).

`dafny verify dfyconfig.toml` checks the whole project.

## Model

| member | source | states |
|---|---|---|
| Requests.EveryRequestSeesItsOwnCopy | crates/henka-server/src/mcp.rs:499-536 | in every run of any number of interleaved requests, dropped ones included, whatever edits are applied and whatever else writes to the disk, the server's view of every path the request presents, or that is not stale, is the base checkout with that request's own readable, indexed delta files |
| Requests.NothingGoesStale | crates/henka-server/src/mcp.rs:499-573 | in a run whose edits all keep the view, and without outside writes to the base checkout, no document is ever stale |
| Requests.FinishStalesExactly | crates/henka-server/src/mcp.rs:557-568 | an applied edit leaves a stale document where there was none if and only if it succeeds on the base checkout, and so is synced, but renames away an open file it does not report, or is not synced and does not leave every open file its text |
| Requests.AppliedViewExactly | crates/henka-server/src/mcp.rs:557-568 | applying any edit, synced or not as the program decides, keeps a clean session clean if and only if the edit meets that condition, which is one on the disk and the edit before the call |
| Requests.BaseViewBetweenOperations | crates/henka-lsp/src/session.rs:351-376 | in every run the open set is the server's open documents, and with no overlay flagged, or once a request has restored, every open document under the root that is not stale holds its base text |
| Requests.EveryRunKeepsTheProtocolExactly | crates/henka-lsp/src/session.rs:136-206 | in every run of these steps the notifications keep the open/change/close and version rules of LSP 3.17 if and only if the 32-bit counter has not wrapped; a request dropped inside `ensure_open` is judged in `Abandon.DroppedOpenAfterAnyRun` |
| Requests.RunKeepsInv | crates/henka-server/src/mcp.rs:499-573 | the system invariant (server and session agree, every open document is overlaid, stale or true to its file, the lock holder shows exactly its own overlay) holds after every legal run |
| Requests.StepKeepsInv | crates/henka-lsp/src/session.rs:300-376 | each of the ten steps (arrive, acquire, show a file, start, open, restore, finish, release, drop, outside write) keeps the invariant |
| Requests.StaleMeansChanged | crates/henka-server/src/mcp.rs:557-568 | a step makes a document stale only by changing its file while it is open |
| Session.OverlaidViewIsSimpleView | crates/henka-lsp/src/session.rs:312-346 | while a delta is overlaid, what the server has for a path is the working copy's text for a shown delta file and the base file otherwise |
| Session.OverlayEachKeeps | crates/henka-lsp/src/session.rs:319-343 | overlaying a whole delta on a clean session, repetitions included, presents exactly its shown files and keeps versions increasing |
| Session.OverlayOneKeeps | crates/henka-lsp/src/session.rs:319-343 | overlaying one more file keeps the overlay exactly the files done so far |
| Session.RestoreCleansExactly | crates/henka-lsp/src/session.rs:351-376 | restoring any record in any order brings the base view back if and only if every document it changed and did not open is readable in the base checkout; one that is not keeps the overlay's text |
| Session.RestoreEffect | crates/henka-lsp/src/session.rs:351-376 | restoring closes what the overlay opened, changes back what the base still has, and leaves every other open document alone |
| Session.SyncChangedEffect | crates/henka-lsp/src/session.rs:271-295 | syncing closes exactly the open documents among the changed files, once each |
| Session.SyncAnnounces | crates/henka-lsp/src/session.rs:271-295 | what a sync tells the server: a close for each open document among the changed files, once each, and then one announcement of all of them, resolved, in order |
| Sync.SyncAnnouncesChanges | crates/henka-lsp/src/session.rs:271-295 | after a successful application to the base checkout the server is told of every path whose file differs but a rename source not otherwise reported, and of exactly the paths the texts change and the operations report |
| Session.RestoreTells | crates/henka-lsp/src/session.rs:351-376 | what a restore tells the server: its file's text for each document it changed and can read, once, and then a close for each it opened, once |
| Session.OpenAllOpens | crates/henka-lsp/src/session.rs:223-238 | opening several documents succeeds if and only if each is open or readable, and then opens those and no others |
| Session.IndexesExactly | crates/henka-lsp/src/session.rs:403-408 | the sources are the files named something, a dot, and one of the session's extensions |
| Session.EnsureOpenKeepsIdle | crates/henka-lsp/src/session.rs:136-151 | opening a document never breaks the agreement of session and server, overlaid or not |
| Session.EnsureOpenKeepsOverlaid | crates/henka-lsp/src/session.rs:136-151 | an operation that opens more documents still sees exactly its own overlay |
| Sync.SyncKeepsCleanExactly | crates/henka-lsp/src/session.rs:271-295 | applying an edit to the base checkout and syncing keeps the session's view true if and only if every open file that a rename moves away is also changed by a text edit or reported by another operation |
| Sync.ReportsExactly | crates/henka-core/src/edit.rs:199-249 | the changed files reported are those whose text the edit changes and those its operations report |
| Cases.FailedOperationLeavesStaleDocument | crates/henka-server/src/mcp.rs:561-568 | a concrete edit whose file operation fails after its text was written, which is not synced and leaves the view stale |
| Cases.RenameLeavesStaleDocument | crates/henka-core/src/edit.rs:230-238 | a concrete rename of an open file without a text edit, which leaves the session holding a document whose file is gone |
| Sync.UnsyncedKeepsCleanExactly | crates/henka-server/src/mcp.rs:561-568 | an application that is not synced keeps the view true if and only if it rewrote nothing or every open document keeps its text: what the operations that ran bring to its path is that very file without a text edit, or one of the same text |
| Sync.KeepsTextExactly | crates/henka-core/src/edit.rs:216-245 | a document that nothing is created at or renamed to keeps its text if and only if no text edit changes it and no operation that ran deletes it or renames it away |
| Cases.HalfDoneRenamesLeaveStaleDocument | crates/henka-server/src/mcp.rs:561-568 | two concrete renames of which the second fails: nothing is synced, and the session holds a document whose file is gone |
| Sync.AppliedPath | crates/henka-core/src/edit.rs:199-249 | after a successful application a path not reported as changed is as it was, unless a rename moved it away |
| Abandon.NextRequestIsCleanExactly | crates/henka-lsp/src/session.rs:319-343 | a request dropped between any two of the three actions that present a file leaves the next request a clean session if and only if the point is safe: before the notification, after the record, or where record or equal texts make it so |
| Abandon.PartialEffect | crates/henka-lsp/src/session.rs:328-338 | what a partly presented file has done to the server and the open set |
| Abandon.DroppedRestoreIsCleanExactly | crates/henka-lsp/src/session.rs:351-376 | a request dropped at any point of a restore leaves the next one a clean session if and only if it is not between a close and its bookkeeping and every document of the record was dealt with or never differed from the base |
| Abandon.DroppedSyncAgreesExactly | crates/henka-lsp/src/session.rs:271-295 | a sync dropped after some closes leaves session and server in agreement if and only if all were sent |
| Abandon.DroppedOpenIsCleanExactly | crates/henka-lsp/src/session.rs:136-151 | a request dropped at any point of opening a document leaves the next one a clean session if and only if the notification was not sent or the open set knows of it |
| Abandon.OpeningAgainKeepsRulesExactly | crates/henka-lsp/src/session.rs:136-151 | opening the file again then keeps the document rules if and only if the counter has not wrapped and the drop was at such a point |
| Abandon.DroppedOpenAfterAnyRun | crates/henka-lsp/src/session.rs:146-149 | after any run, a running request dropped between the two leaves a trace that the next open of that file breaks |
| Cases.DroppedOpenOpensTwice | crates/henka-lsp/src/session.rs:146-149 | a concrete file opened twice that way |
| Cases.DroppedAfterNotification | crates/henka-lsp/src/session.rs:333-336 | a concrete request dropped right after opening a file of its copy: the next one starts with that text |
| Cases.DroppedRestoreIsNotUndone | crates/henka-lsp/src/session.rs:355-362 | a concrete restore dropped once the record was taken, which the next request cannot undo |
| Cases.VanishedFileIsNotRestored | crates/henka-lsp/src/session.rs:363-369 | a concrete base file removed under its overlay: the session goes on holding the copy's text |
| Protocol.AcceptedExactly | crates/henka-lsp/src/session.rs:136-206 | the server automaton accepts a trace if and only if, read as a whole, opens and closes alternate, changes occur while open, and versions increase in each open period |
| Protocol.TraceKeepsRulesExactly | crates/henka-lsp/src/session.rs:184-197 | a session's trace keeps those rules if and only if the shared counter has not wrapped; opens, changes and closes alternate even then, and its open documents are those the trace has open |
| Protocol.WrappingChangeBreaksRules | crates/henka-lsp/src/session.rs:184-186 | the change that wraps the 32-bit counter breaks them |
| LspSessions.LspSession.constructor | crates/henka-lsp/src/session.rs:81-97 | a new session has nothing open and its counter at 1 |
| Session.NewSessionIsClean | crates/henka-lsp/src/session.rs:81-97 | a new session is clean whatever the disk holds |
| LspSessions.LspSession.EnsureOpen | crates/henka-lsp/src/session.rs:136-151 | opens a document once, from its file, and fails only when it cannot be read |
| LspSessions.LspSession.OpenAndReconcile | crates/henka-lsp/src/session.rs:223-238 | opens documents in order, stopping at the first that cannot be read and naming it |
| LspSessions.LspSession.EnsureIndexed | crates/henka-lsp/src/session.rs:213-219 | opens the sources once per session, even when that fails part way |
| LspSessions.LspSession.DidChangeFull | crates/henka-lsp/src/session.rs:184-197 | sends a full change under the next version, wrapping at 32 bits |
| LspSessions.LspSession.BeginRequest | crates/henka-lsp/src/session.rs:300-306 | clears a leaked overlay: from any idle session the request starts clean |
| LspSessions.LspSession.OverlayWorkspace | crates/henka-lsp/src/session.rs:312-346 | on a clean session, presents exactly the readable, indexed delta files; nothing for the base checkout itself |
| LspSessions.LspSession.RestoreOverlay | crates/henka-lsp/src/session.rs:351-376 | undoes the record, walking its sets in any order, and is clean afterwards if and only if the record was restorable |
| LspSessions.LspSession.SyncChanged | crates/henka-lsp/src/session.rs:271-295 | takes the changed files out of the open set, closes those and announces all of them |
| Finish.EditLandsAsSeen | crates/henka-server/src/mcp.rs:540-573 | end to end: from a running operation, restore, retarget, check and apply leave the rewrite of the text the server saw for an edited file at the working copy's counterpart of the path that the edit's own file operations take it to, gone from where it was if renamed, every path outside the working copy unchanged, and every open document that is not stale true to its file |
| Finish.RunOperation | crates/henka-server/src/mcp.rs:499-536 | the driver around an operation that opens documents and then answers or fails: what it sees is the simple view, its outcome is passed on, and the session is clean afterwards either way |
| Finish.FinishOperation | crates/henka-server/src/mcp.rs:540-573 | refuses an edit that escapes, previews without writing, or applies and syncs only the session's own checkout; the base view stays true exactly when the edit meets the condition of `Requests.AppliedViewExactly` |
| Finish.StaysInsideExactly | crates/henka-server/src/mcp.rs:877-892 | the escape check passes if and only if every path the edit names resolves into the workspace |
| Finish.NothingOutsideChanges | crates/henka-server/src/mcp.rs:877-892 | an edit that passes the check changes nothing outside the workspace, whether or not it succeeds |
| Finish.SiblingEditsKeepView | crates/henka-server/src/mcp.rs:877-892 | editing a checkout that neither contains nor lies in the base checkout never disturbs the session's view |
| Finish.ViewIsWorkingCopyExactly | crates/henka-server/src/mcp.rs:512-519 | an indexed file's overlaid view is the working copy's own file if and only if it is a readable member of the delta or both checkouts agree on it |
| Cases.DeletedFileShowsBase | crates/henka-lsp/src/session.rs:319-325 | a concrete file deleted in the working copy, which still shows its base text |
| Finish.QuotedTextIsViewedText | crates/henka-lsp/src/session.rs:113-119 | for a delta file, the text quoted from the content root is the text the server answered from |
| Moving.RetargetEdit | crates/henka-core/src/edit.rs:134-159 | re-roots every path of an edit in place, both sides of a rename included |
| Moving.RetargetedPath | crates/henka-core/src/edit.rs:154-159 | a path under the old root resolves to the same relative place under the new one |
| Moving.MovedEditMirrors | crates/henka-core/src/edit.rs:134-159 | applying a moved edit, texts and file operations, does to a working copy, file by file, what applying the edit does to a base checkout that holds the same, succeeds if and only if that does, and reports the same files |
| Moving.MovedOpMirrors | crates/henka-core/src/edit.rs:139-148 | so for each operation: moved and run below the working copy it does to every relative path what it does at home |
| Moving.RetargetResolves | crates/henka-core/src/edit.rs:154-159 | a path below the old root, relative or absolute, is moved below the new one; any other is left as it is |
| Finish.EscapesExactly | crates/henka-server/src/mcp.rs:877-892 | a moved edit passes the escape check if and only if every path it named lay below the base root or the working copy |
| Rewrite.RewriteFile | crates/henka-core/src/edit.rs:253-295 | resolve, stable sort, window check and splicing from the back compute the simultaneous substitution |
| Rewrite.SpliceFromEnd | crates/henka-core/src/edit.rs:289-293 | splicing from the last edit to the first equals the forward reading of untouched gaps and new texts |
| Rewrite.SpliceExtends | crates/henka-core/src/edit.rs:289-293 | one splice in front of edits already spliced extends the substitution by exactly that edit |
| Rewrite.SucceedsExactly | crates/henka-core/src/edit.rs:253-295 | a rewrite succeeds if and only if every position exists, every range is in order and the edits are compatible two by two in the order given |
| Rewrite.FirstMissingIsReported | crates/henka-core/src/edit.rs:264-278 | a rewrite is out of range if and only if some position of the list is on no line, and reports the first such position, start before end |
| Rewrite.StartingAtJoins | crates/henka-core/src/edit.rs:282 | the edits that share a start, in list order, list after list |
| Rewrite.AcceptsExactlyCompatible | crates/henka-core/src/edit.rs:281-287 | the adjacent check after sorting accepts exactly the lists without overlap, pair by pair |
| Rewrite.AdjacentIsPairwise | crates/henka-core/src/edit.rs:283-287 | checking neighbours is checking all pairs when ranges are in order |
| Rewrite.PanicsExactly | crates/henka-core/src/edit.rs:281-293 | the program panics if and only if all resolves, the check passes and a range runs backwards; ordered ranges never do |
| Rewrite.BackwardsRangePanics | crates/henka-core/src/edit.rs:289-293 | a concrete backwards range that passes every check and panics |
| Rewrite.SortIsStable | crates/henka-core/src/edit.rs:282 | sorting orders by start, is a permutation, and keeps edits sharing a start in list order |
| Rewrite.StableSortIsUnique | crates/henka-core/src/edit.rs:282 | there is only one such order, so the result does not depend on how the sort works |
| Rewrite.LengthConserved | crates/henka-core/src/edit.rs:289-294 | new length in bytes is the old one less what the ranges covered plus what the edits brought |
| Rewrite.InsertsKeepListOrder | crates/henka-core/src/edit.rs:281-293 | in every accepted list the edits sharing a start land there together in array order, as LSP 3.17 asks of TextEdit[], behind the original as the earlier edits change it and before the rest as the later ones do |
| Rewrite.OrderOfListIsIrrelevant | crates/henka-core/src/edit.rs:281-293 | with distinct starts, permuting the list changes neither acceptance nor result |
| Rewrite.ResolveAllLoop | crates/henka-core/src/edit.rs:261-279 | resolves the ranges in order and reports the first failure |
| Rewrite.ResolveEditLoop | crates/henka-core/src/edit.rs:264-278 | resolves one range, start before end |
| Rewrite.CheckAdjacent | crates/henka-core/src/edit.rs:283-287 | looks at each window of two |
| Rewrite.TextInRange | crates/henka-core/src/edit.rs:382-386 | the text a range covers, or none when an end is missing or the range runs backwards |
| Rewrite.GuardedSelectionIsReplaced | crates/henka-core/src/edit.rs:382-386 | one edit over a range is accepted if and only if the guard can quote the range, and then replaces exactly the quoted text |
| Text.NthLineStart | crates/henka-core/src/edit.rs:322-336 | scanning the UTF-8 bytes for newlines finds the offset of the line's first character |
| Text.ResolveOffsetLoop | crates/henka-core/src/edit.rs:300-319 | counting units along the line's content gives the byte offset of the position |
| Text.ResolvesToLeastBoundary | crates/henka-core/src/edit.rs:300-319 | a position means the first character boundary covering its units, clamped to the content, and nothing if and only if the line does not exist |
| Text.UnitsAreEncodedLength | crates/henka-core/src/edit.rs:338-345 | the units of a stretch of text are its bytes in UTF-8, its code units in UTF-16, its characters in UTF-32 |
| Text.PositionsCountUnits | crates/henka-core/src/edit.rs:300-319 | a position on a boundary means in UTF-8 the byte so many behind the line's start, in UTF-16 where so many code units end, in UTF-32 so many characters on |
| Text.Utf8CharReadsBack | crates/henka-core/src/edit.rs:322-336 | the bytes of a character stand for it |
| Text.BytesAreNotCodeUnits | crates/henka-core/src/edit.rs:338-345 | a concrete position that is one place in UTF-8 and another in UTF-16 |
| Text.CodeUnitsAreNotCharacters | crates/henka-core/src/edit.rs:338-345 | and one that is one place in UTF-16 and another in UTF-32 |
| Text.ResolveInvertsPositionOf | crates/henka-core/src/edit.rs:300-345 | resolving the position of a boundary gives it back, in all three encodings, if and only if it is not inside a line terminator |
| Text.PositionOfInvertsResolve | crates/henka-core/src/edit.rs:300-345 | the position of a resolved offset is on the same line, and is the given one if and only if that named a boundary of the content |
| Text.ResolveMonotone | crates/henka-core/src/edit.rs:300-319 | resolving keeps the lexicographic order of positions |
| Text.LinesAreLspLinesExactly | crates/henka-core/src/edit.rs:300-336 | lines are those of LSP 3.17 if and only if no lone carriage return comes before |
| Text.LoneReturnStartsNoLine | crates/henka-core/src/edit.rs:300-336 | a concrete text on which they differ |
| Applier.WorkingTree.Apply | crates/henka-core/src/edit.rs:199-249 | plans every rewrite, writes, then runs the file operations up to the first that fails, reporting each path |
| Applier.WorkingTree.PlanEdits | crates/henka-core/src/edit.rs:200-208 | plans a write for each file whose text changes, or stops at the first failure |
| Applier.WorkingTree.Preview | crates/henka-core/src/edit.rs:183-195 | reports every entry and writes nothing |
| Applier.WorkingTree.RewriteOne | crates/henka-core/src/edit.rs:253-295 | reads one file and rewrites it in memory |
| Applier.PlanningFailureChangesNothing | crates/henka-core/src/edit.rs:200-208 | if any file cannot be read or rewritten, the tree is untouched and the preview fails with the same error |
| Applier.EveryRewriteLands | crates/henka-core/src/edit.rs:199-249 | every entry's rewrite is what its file ends up holding if and only if entries naming one path agree; distinct paths always do |
| Applier.LaterEntryWins | crates/henka-core/src/edit.rs:210-214 | a path ends with the text of the last entry that changes it, computed from what was there before the call |
| Applier.PreviewShowsWhatApplyWrites | crates/henka-core/src/edit.rs:183-214 | a preview succeeds if and only if planning does, and shows a text difference for exactly the files an application would write |
| Applier.PreviewShowsEachEntry | crates/henka-core/src/edit.rs:183-195 | each entry of a preview shows, under its file's path, the text on disk and what the edit makes of it, and behind them each file operation with what it does to which path |
| Applier.ReportsInOrder | crates/henka-core/src/edit.rs:199-249 | a successful application reports the files whose text changed, in the order of the edit, and then one path for each file operation, a rename's being where the file went |
| Applier.ApplyFrame | crates/henka-core/src/edit.rs:199-249 | whatever the outcome, paths the edit does not name are unchanged |
| Applier.AppliedExactly | crates/henka-core/src/edit.rs:199-249 | an application succeeds if and only if every file can be read and rewritten and every rename finds its file when its turn comes, and whether or not it does, every path ends with the edited text of the file the operations brought there, an empty file, or nothing |
| Applier.OpsRunExactly | crates/henka-core/src/edit.rs:216-245 | file operations run up to the first rename that does not find its file, and only ever move texts: what is at a path is what was at the path it came from |
| Applier.OpDoes | crates/henka-core/src/edit.rs:218-245 | what one operation does to each path, and that only a rename without its file fails |
| Applier.EditedThenRenamed | crates/henka-core/src/edit.rs:216-238 | a file edited and renamed, among any other operations, arrives at its new path with the edited text and is gone from the old one |
| Paths.LastDot | crates/henka-lsp/src/session.rs:404-408 | the extension starts at the last dot |
| Paths.ResolveRelativize | crates/henka-core/src/edit.rs:389-401 | reporting a path relative to the root and resolving it again names the same file |
| Paths.RelativizeExactly | crates/henka-core/src/edit.rs:398-401 | a path below the root is reported as the way down from it, any other as it is |
| Paths.ExtensionExactly | crates/henka-lsp/src/session.rs:404-408 | a name has an extension if and only if it is something, a dot, and that extension, which has no dot |
| Merge.MergeInto | crates/henka-server/src/ops.rs:288-313 | moving the right object's entries into the left one key by key computes the recursive merge |
| Merge.RegroupsExactly | crates/henka-server/src/ops.rs:288-313 | merging three answers is associative if and only if no value stands between two of another kind whose third would add something |
| Merge.SameShapeIsMonoid | crates/henka-server/src/ops.rs:258-313 | answers of one shape merge associatively with the empty object as identity |
| Merge.AbsorbsExactly | crates/henka-server/src/ops.rs:288-313 | when merging leaves the left answer as it is |
| Merge.CountsWrap | crates/henka-server/src/ops.rs:301-306 | a concrete sum that wraps |
| Merge.TextBetweenCounts | crates/henka-server/src/ops.rs:296-311 | a concrete grouping that matters: a text between two counts |
| Merge.CapLists | crates/henka-server/src/ops.rs:269-286 | cuts every top-level list in place and flags when one was shortened |
| Merge.MergeQueryResults | crates/henka-server/src/ops.rs:258-264 | merges first to last, the empty object for none, then caps |
| Merge.CappingEarlyIsHarmless | crates/henka-server/src/ops.rs:269-313 | capping the left answer before merging never changes the capped result, whatever the shapes |
| Merge.CapOnceIsEnough | crates/henka-server/src/ops.rs:258-286 | capping after every merge equals capping once at the end |
| Merge.NoAnswersAddNothing | crates/henka-server/src/ops.rs:258-264 | merging no answers gives what adds nothing to any answer, merging one gives it |
| Search.MergedAnswersAreOneAnswer | crates/henka-lsp/src/convert.rs:743-789 | merging the backends' capped answers and capping is the answer of one backend holding every symbol, same count, prefix and flag, if and only if somebody answered and the added counts do not wrap |
| Search.SearchShowsExactly | crates/henka-lsp/src/convert.rs:730-789 | member by member, what a caller sees that asks for m matches, two hundred unless it says: how many matched in all, the first m of them, and a flag if and only if some are not shown |
| Search.MatchedInTurn | crates/henka-lsp/src/convert.rs:743-754 | what matched comes server after server; one without an answer adds nothing |
| Search.SearchIsOneSearch | crates/henka-server/src/ops.rs:237-243 | the caller sees one backend's answer if and only if `limit` is absent or a whole number, or the cap does not matter; any other `limit` caps each backend but not the merge |
| Search.ListedOne | crates/henka-lsp/src/convert.rs:749-754 | a symbol without a range is dropped, one with a range kept |
| Search.ListedTogether | crates/henka-lsp/src/convert.rs:749-754 | and this list after list, in order |
| Search.CountIsRightExactly | crates/henka-server/src/ops.rs:301-306 | the merged count is the total if and only if one backend answered or the sum does not wrap |
| Search.LimitsAgree | crates/henka-server/src/ops.rs:237-243 | when the merge's limit is the one the backends used |
| Search.UncutExactly | crates/henka-server/src/ops.rs:258-264 | without the final cap, list and flag are right if and only if nothing was cut or one backend alone matched |
| Search.NegativeLimitIsNoCap | crates/henka-server/src/ops.rs:237-243 | a concrete search with `limit` -1 that shows more than one backend would |
| Framing.FramesReadBack | crates/henka-lsp/src/framing.rs:9-45 | reading the concatenated frames of any messages gives their bodies in order and then the end of the stream |
| Framing.ReadsOneFrame | crates/henka-lsp/src/framing.rs:9-45 | a read takes exactly the first frame and leaves the rest |
| Framing.ReadsAmongOtherHeaders | crates/henka-lsp/src/framing.rs:23-38 | a message is read whole among any other header lines |
| Framing.HeaderBlockDecides | crates/henka-lsp/src/framing.rs:23-44 | what any header block reads as: the last length line decides, none or an unreadable one refuses |
| Framing.LastLengthDecides | crates/henka-lsp/src/framing.rs:34-37 | the announced length is what the last `Content-Length` line says |
| Framing.NoLengthIsRefused | crates/henka-lsp/src/framing.rs:34-41 | a header naming no length, such as one in another case, is refused |
| Framing.CutFrame | crates/henka-lsp/src/framing.rs:23-44 | what a frame cut after any number of bytes reads as |
| Framing.CutStreamReadsPrefix | crates/henka-lsp/src/framing.rs:19-45 | however a stream of frames is cut, only whole written messages are read, in order |
| Framing.SizeReadsBack | crates/henka-lsp/src/framing.rs:11-35 | the printed length parses back, up to the machine word |
| Framing.PaddedLengthReads | crates/henka-lsp/src/framing.rs:34-36 | a length is read with or without a plus sign, and with blanks around it |
| Framing.OnlyDigitsAreRead | crates/henka-lsp/src/framing.rs:35 | only digits are read as a number |
| Framing.Utf8Exactly | crates/henka-lsp/src/framing.rs:26-30 | bytes are text if and only if they are the UTF-8 form of some characters |
| Framing.BlanksAreWhite | crates/henka-lsp/src/framing.rs:35 | the blanks trimmed are the white space characters of Unicode |
| Framing.BadLineIsRefused | crates/henka-lsp/src/framing.rs:26-30 | a header line that is not text is an error, and reading goes on behind it |
| Framing.UnfinishedHeaderEnds | crates/henka-lsp/src/framing.rs:26-29 | a stream that ends within its header block is the end of the stream |
| Framing.BareFeedsRead | crates/henka-lsp/src/framing.rs:30-33 | lines may also end in a line feed alone |
| Framing.FrameLooksLike | crates/henka-lsp/src/framing.rs:9-16 | a concrete frame |
| Framing.Pipe.WriteMessage | crates/henka-lsp/src/framing.rs:9-16 | appends exactly one frame |
| Framing.Pipe.ReadMessage | crates/henka-lsp/src/framing.rs:19-45 | the header loop and body read compute the reading of the stream, errors for a header that is not UTF-8 and a body that is not JSON included, consuming exactly that much |
| Client.RequestIdsAreUnique | crates/henka-lsp/src/client.rs:119-123 | over every run two calls never share an id and no id is written twice |
| Client.AnsweredByOwnResponse | crates/henka-lsp/src/client.rs:164-184 | over every run a caller is told a result or an error only when the server sent it in a response under the caller's own id, an error taking precedence, and told `Closed` only after the drain |
| Client.CompletesAtMostOnce | crates/henka-lsp/src/client.rs:114-131 | the first answer on a call's channel is never replaced and what its caller was told never changes |
| Client.DuplicateChangesNothing | crates/henka-lsp/src/client.rs:164-172 | after a call was answered, a further response under its id changes nothing at any later time |
| Client.ResponseReachesItsCaller | crates/henka-lsp/src/client.rs:164-184 | a response whose id is that of a waiting call completes that call, with that very response, and changes nothing else |
| Client.ResponseActsExactly | crates/henka-lsp/src/client.rs:164-172 | a response is acted on if and only if its id is that of a call still waiting, below the 64th bit |
| Client.EveryServerRequestIsAnsweredOnce | crates/henka-lsp/src/client.rs:187-203 | over every run and for every id, as many replies were sent as the server sent requests, in the order of the requests, and every reply answers one |
| Client.NamedMessageIsHandled | crates/henka-lsp/src/client.rs:187-212 | a message the server sends under a name is passed on with its parameters, and answered under its own id when it has one |
| Client.NamelessMessageIsDropped | crates/henka-lsp/src/client.rs:187-212 | one that is no response and has no name is dropped |
| Client.EachSettingIsNull | crates/henka-lsp/src/client.rs:215-227 | a concrete request for two settings, given two nulls |
| Client.DrainReleasesExactly | crates/henka-lsp/src/client.rs:232-237 | once the reader stopped, a written call has an answer if and only if it was in the table before the drain |
| Client.LateCallHangs | crates/henka-lsp/src/client.rs:114-131 | a concrete call that registers after the drain and has nothing to return |
| Client.RegisteredIsNotLate | crates/henka-lsp/src/client.rs:119-123 | a call that put itself in the table while the reader ran is never late |
| Client.LateIsNeverAnswered | crates/henka-lsp/src/client.rs:232-237 | a call registered after the drain is never told anything |
| Client.StepKeepsInv | crates/henka-lsp/src/client.rs:114-237 | every atomic step of callers, reader and drain keeps the invariant |
| Client.RunKeepsInv | crates/henka-lsp/src/client.rs:114-237 | so does every run |
| Client.DefaultServerResponse | crates/henka-lsp/src/client.rs:213-228 | a configuration request is answered with one null for each item it asks for, an edit is accepted, and nothing else gets anything but null |
| Client.LspClient.constructor | crates/henka-lsp/src/client.rs:97-104 | ids start at 1 with an empty table |
| Client.LspClient.FetchId | crates/henka-lsp/src/client.rs:119 | takes the next id |
| Client.LspClient.Insert | crates/henka-lsp/src/client.rs:120-121 | registers the call under its id |
| Client.LspClient.RemoveAfterFailure | crates/henka-lsp/src/client.rs:124-127 | a failed write takes the entry out again |
| Client.LspClient.HandleIncoming | crates/henka-lsp/src/client.rs:156-210 | routes one message: response, server request, or notification |
| Client.LspClient.FailPending | crates/henka-lsp/src/client.rs:232-237 | empties the table, telling every waiting call the connection closed |
| Uri.RoundTripsExactly | crates/henka-lsp/src/convert.rs:856-882 | the path decoded from a path's URI is that path if and only if no percent sign in it can be mistaken for an escape |
| Uri.FaithfulPathsHaveOwnUris | crates/henka-lsp/src/session.rs:413-424 | paths without a percent sign, and all faithful ones, have distinct URIs |
| Uri.SharesUriExactly | crates/henka-lsp/src/session.rs:413-424 | some other path has the same URI if and only if the path holds a character that is escaped or the spelled-out escape of one |
| Uri.SpelledOutEscapeCollides | crates/henka-lsp/src/session.rs:413-424 | a name with a space and the same name with the escape spelled out share a URI |
| Uri.DecodeThenEncodeShrinks | crates/henka-lsp/src/convert.rs:856-882 | decoding then encoding never lengthens a string without raw escapes |
| Uri.ByteReadsBack | crates/henka-lsp/src/convert.rs:864-866 | every byte is read back from its two digits, in either case |
| Uri.OtherBytesAreNone | crates/henka-lsp/src/convert.rs:864-866 | what is no digit is not read, but for a plus sign in front |
| Uri.UriLooksLike | crates/henka-lsp/src/session.rs:413-424 | a concrete path and its URI |
| Uri.EncodeLoop | crates/henka-lsp/src/session.rs:413-424 | the pushing loop encodes character by character |
| Uri.DecodeLoop | crates/henka-lsp/src/convert.rs:856-882 | the iterator loop decodes, keeping an unreadable triple whole |
| UriTrace.RulesOnTheWireExactly | crates/henka-lsp/src/session.rs:136-206 | notifications that alternate by path keep the document rules for the URIs on the wire if and only if they keep them by path and never open a document while another one of its URI is open |
| UriTrace.EveryRunOnTheWireExactly | crates/henka-lsp/src/session.rs:136-206 | so in every run the rules hold on the wire if and only if the counter has not wrapped and no document was opened while another one of its URI was open |
| UriTrace.RulesLiftToUris | crates/henka-lsp/src/session.rs:136-206 | for any trace at all, when no two of its documents share a URI, the rules hold on the wire if and only if they hold by path |
| UriTrace.EveryRunKeepsTheRulesOnTheWire | crates/henka-lsp/src/session.rs:136-206 | so in every run with distinct URIs only the counter matters |
| UriTrace.PercentFreePathsAreDistinguished | crates/henka-lsp/src/session.rs:413-424 | documents whose paths hold no percent sign have distinct URIs |
| UriTrace.TwinsBreakTheRules | crates/henka-lsp/src/session.rs:413-424 | two documents sharing a URI keep the rules by path and break them on the wire |
| PathMap.MapUsesTheLongestHost | crates/henka-server/src/pathmap.rs:63-74 | with distinct hosts the rewrite is that of the one strictly longest match, or none |
| PathMap.MapSwapsThePrefix | crates/henka-server/src/pathmap.rs:63-74 | the host's prefix becomes the container's and the rest stays; a path below no host stays as it is |
| PathMap.ReverseSwapsThePrefix | crates/henka-server/src/pathmap.rs:80-91 | the same on the way back, by the longest container, and nothing if and only if there is none |
| PathMap.MapIgnoresOrder | crates/henka-server/src/pathmap.rs:63-74 | the order of the entries does not matter |
| PathMap.ReverseUndoesMapExactly | crates/henka-server/src/pathmap.rs:63-91 | every mapped path is found again if and only if containers are distinct and every container below another is guarded by a host below its host |
| PathMap.ReverseUndoesMapAt | crates/henka-server/src/pathmap.rs:80-91 | the same for one path: exactly when no other container takes the mapped path |
| PathMap.SeparateContainersReverse | crates/henka-server/src/pathmap.rs:80-91 | in particular when no container is a prefix of another |
| PathMap.NestedContainerMisleads | crates/henka-server/src/pathmap.rs:80-91 | two concrete mounts, one container inside the other, that lead a path astray |
| PathMap.MapLoop | crates/henka-server/src/pathmap.rs:63-74 | the loop keeping the deepest match so far |
| PathMap.ReverseLoop | crates/henka-server/src/pathmap.rs:80-91 | the same from container to host |
| Registry.SecondScanDoesNothing | crates/henka-core/src/registry.rs:95-122 | a second scan of an unchanged disk adds, writes and changes nothing, whichever saves failed the first time |
| Registry.ScanNeverSharesARoot | crates/henka-core/src/registry.rs:95-130 | a scan never adds a second project on one root, keeps every project under its own valid id and leaves the others alone |
| Registry.ScanCoversTheRoots | crates/henka-core/src/registry.rs:95-122 | after a scan every directory directly below a readable root is registered or cannot be, and whatever was added is such a directory |
| Registry.ScansReportAdded | crates/henka-core/src/registry.rs:112-121 | the ids returned were added, and are all that were unless a save failed |
| Registry.ScansReportInOrder | crates/henka-core/src/registry.rs:103-121 | in the order in which their directories were visited |
| Registry.RegisterSharesRootExactly | crates/henka-core/src/registry.rs:57-86 | registering by hand keeps roots distinct if and only if it adds nothing or the root is new |
| Registry.OneTreeTwice | crates/henka-core/src/registry.rs:57-86 | one concrete directory registered under two ids |
| Registry.RegisterKeepsKeys | crates/henka-core/src/registry.rs:57-86 | key and id agree, ids are valid, other projects are kept, and after a success a restart finds the same registry |
| Registry.RegisteredExactly | crates/henka-core/src/registry.rs:57-86 | what a registration makes, and what it refuses for which reason, in order |
| Registry.UnregisterKeepsKeys | crates/henka-core/src/registry.rs:133-140 | the same for removing |
| Registry.RefusalChangesNothingExactly | crates/henka-core/src/registry.rs:57-86 | a registration that returns an error changes nothing if and only if it was refused before the save |
| Registry.FailedRemovalExactly | crates/henka-core/src/registry.rs:133-140 | a removal that returns an error changes nothing if and only if the project is unknown; otherwise it is gone from memory, and still in a file whose write never began |
| Registry.FailedSaveRevivesProject | crates/henka-core/src/registry.rs:138 | a concrete removal whose save fails, and that a restart undoes |
| Registry.FailedSaveKeepsProject | crates/henka-core/src/registry.rs:83-84 | a concrete registration whose save fails: refused, yet listed until the restart |
| Registry.StoredReadsBackExactly | crates/henka-core/src/registry.rs:256-286 | the file read back is the registry if and only if every project is stored under its own id |
| Registry.DerivedIdIsValid | crates/henka-core/src/registry.rs:218-239 | the id derived from any name is valid |
| Registry.DerivedIdIsTheName | crates/henka-core/src/registry.rs:218-239 | the id is the directory's name with a dash for every other character, less the dashes at both ends, or `project` when nothing is left |
| Registry.NamesBecomeIds | crates/henka-core/src/registry.rs:218-239 | two concrete names |
| Registry.ValidIdsAreFixed | crates/henka-core/src/project.rs:34-41 | the names that are their own id are exactly the valid ids |
| Registry.ProjectRegistry.Load | crates/henka-core/src/registry.rs:26-44 | starts from what the file holds, empty when there is none, and fails when it is not a registry or cannot be read |
| Registry.ProjectRegistry.Register | crates/henka-core/src/registry.rs:57-86 | checks in order, inserts, then saves |
| Registry.ProjectRegistry.AutoRegister | crates/henka-core/src/registry.rs:95-122 | visits every directory of every readable root |
| Registry.ProjectRegistry.Unregister | crates/henka-core/src/registry.rs:133-140 | removes, then saves |
| Registry.ProjectRegistry.Save | crates/henka-core/src/registry.rs:165-173 | replaces the file, leaves it, or tears it |
| Dispatch.EveryAskIsPaired | crates/henka-server/src/mcp.rs:455-486 | no provider is asked twice, each is asked for a language it serves with an operation registered for it, and that operation is its own when providers register only for their languages |
| Dispatch.ProjectQueryAsksEveryProvider | crates/henka-server/src/mcp.rs:587-623 | an unrouted project query that ends has asked the provider of every candidate language |
| Dispatch.AskedInOrder | crates/henka-server/src/mcp.rs:455-470 | providers are asked in the order of the languages, each for the first of its own |
| Dispatch.AnEditAsksOne | crates/henka-server/src/mcp.rs:452-483 | an edit that is not refused is asked once, of the provider of the language that serves the one it names, or of the first that offers the operation |
| Dispatch.NamedLanguageIsAsked | crates/henka-server/src/mcp.rs:587-623 | a request that names a language the project has and that offers the operation runs there once, on that language's provider, with the first operation registered for it |
| Dispatch.OtherLanguageSharesOrIsRefused | crates/henka-server/src/mcp.rs:597-608 | one that names another language runs on that language's provider when one of the project's shares it, and is refused under that language otherwise |
| Dispatch.UnnamedRequestAsksFirst | crates/henka-server/src/mcp.rs:619-623 | one that names nothing, and is no project query, runs for the first of the project's languages that offers the operation |
| Dispatch.UnknownIsRefused | crates/henka-server/src/mcp.rs:418-424 | one for an operation none of the project's languages offers is refused |
| Dispatch.EndsAsRuns | crates/henka-server/src/mcp.rs:455-483 | every answer is that of its own ask, and dispatch ends early only with the first edit, the first failed run, or a language without a provider or an operation |
| Dispatch.DispatchedExactly | crates/henka-server/src/mcp.rs:587-623 | where a request goes, from what it names, file before route: to the candidate that serves that language, or refused when none does; refused when it carries only a handle that cannot be placed; else to every candidate for a project query and to the first for anything else |
| Dispatch.ServedExactly | crates/henka-server/src/mcp.rs:631-645 | a language is served if and only if it is a candidate or shares a provider with one, and then by itself, or by the first that shares it |
| Dispatch.OnlyRunsStop | crates/henka-server/src/mcp.rs:457-483 | once languages were chosen, only a failed run stops dispatch |
| Dispatch.AskLoop | crates/henka-server/src/mcp.rs:455-483 | the loop over languages with its list of providers already asked |
| Dispatch.Resolve | crates/henka-core/src/operation.rs:252-259 | the first operation under the id for the language, none if and only if there is none |
| Dispatch.LanguagesFor | crates/henka-core/src/operation.rs:262-272 | exactly the languages with an operation under the id |
| Dispatch.LanguagesForJoins | crates/henka-core/src/operation.rs:262-272 | they come in the order given |
| Dispatch.SearchAcrossBackends | crates/henka-server/src/mcp.rs:455-486 | a symbol search over several backends answers as one backend holding, once, the symbols of each provider asked |

## Left out

- Requests.EveryRequestSeesItsOwnCopy: a request is dropped while waiting, between two overlaid files, while running but not inside `ensure_open`, or after restoring. The points inside one file's actions, inside an open, inside a restore and inside a sync are judged one by one in `Abandon` and are not steps of a run. Notifications are taken to arrive, and nobody else writes to the lock holder's working copy during its request.
- Requests.EveryRunKeepsTheProtocolExactly: the same steps. A request dropped inside `ensure_open`, after its notification, is not one of them; `Abandon.DroppedOpenAfterAnyRun` says what it does after any run, and the next open of that file breaks the rules before any wrap. `UriTrace.EveryRunOnTheWireExactly` is about the same runs.
- Requests.FinishStalesExactly: for paths that mention the root component at most at their front, as every path of the program does.
- Finish.EditLandsAsSeen: for edits that name only paths below the base root, as a server that answers from it does, and for files the request presents, or on which the base and the working copy agree. A target file given as an absolute path in a sibling worktree is opened as it is, not under the base root, and so is outside this statement.
- Client.RequestIdsAreUnique: ids are unbounded; the wrap of the 64-bit counter is not modelled, nor is a caller dropped in the middle of writing a message.
- Client.EveryServerRequestIsAnsweredOnce: a reply is an attempt to write it; the program ignores a failed one, and so does the model.
- Client.AnsweredByOwnResponse: the code and message read out of a server's error are not told apart from the error itself.
- Merge.MergeInto: counts wrap at 64 bits, as in a release build; a build with overflow checks panics there. Numbers other than unsigned integers are only told apart.
- Framing.Pipe.ReadMessage: a length too large to allocate is read like any other.
- Registry.ProjectRegistry.AutoRegister: a listing is taken in the order the program sorts it to, and lower-casing a name is a parameter.
- Text.ResolveOffsetLoop: line and unit counters are unbounded; the program's wrap after four thousand million.
- Rewrite.SortIsStable: the library sort is modelled by a function that `Rewrite.StableSortIsUnique` shows is the only stable sort.
- Paths with `..`, directories as rename sources, `create_dir_all`, and disk errors after planning: file operations fail only when the file to rename is missing.
- The text of a unified diff, abstract but for being empty exactly when nothing changed; the `expect` guard on an identifier.
- Readiness and reconcile waits, `languageId`, timeouts, process launch, handshakes, tracing, transports and MCP schemas.
- Deltas and revisions from git and jj: a delta is any list of relative paths, repetitions allowed. Deciding whether two checkouts belong to one repository is not part of this model.
- Parsing `HENKA_PATH_MAP`, grouping document changes into a workspace edit, quoting source lines, hover, outline and call-hierarchy fields: easy members.
