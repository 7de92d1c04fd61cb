# YuqueSync core, modelled in Dafny

YuqueSync mirrors the documents of Yuque knowledge bases ("books") into a
local directory of Markdown files. This project models the core of
`yuque.py` and proves properties of it:

- `sanitize_filename`, which turns titles into file-name components (`sanitize.dfy`);
- the version watermark store. It holds the `"{book.id}_{doc.id}"` dictionary,
  `check_document_updates`, `update_document_version`, and loading and saving
  `document_versions.json` (`versions.dfy`);
- `docs_export` (`export.dfy`). It covers:
  - the retry state machine, with its unpublished / 404 / malformed / not-ready
    branches;
  - the metadata header and the `<font style="…">` unwrapping regex (`normalize.dfy`);
  - the temp / backup / replace commit on disk (`files.dfy`);
- the two passes:
  - `download_all`: per book, the export batch is built, exported and applied,
    and a checkpoint is written (`sync.dfy`);
  - `monitor_updates`: per book, the listing is sorted newest first, and stale
    documents are exported one by one (`monitor.dfy`).

`text.dfy` gives Python's meaning to the primitives the core relies on:
- `str.isspace`;
- `<` on `str`;
- `str(int)`.

`entities.dfy` holds the book, document and contributor records, reduced to
the fields the core reads. `option.dfy` holds the usual `Option` type.

The outside world becomes data:
- The remote server is a script `server: nat -> Attempt`. It gives the outcome
  of the k-th export request. An outcome says:
  - whether the request raised;
  - the reply's status, its "message" field and whether it carries `data.url`;
  - the download's status and whether its body decodes;
  - whether the overview call raised, and if not, the contributors;
  - the outcome of each disk call of the save stage.
- The disk is a map from path to content, in the `FileSystem` class. Its ghost
  `history` records every state it passes through, so crash safety is stated
  about every intermediate state.
- The listings are parameters:
  - `books: Option<seq<Book>>` is `None` when `books()` raises;
  - `docsOf: Book -> Option<seq<Doc>>`.
- The current time is the parameter `now`.

Each method is proved against a specification function of the old state:
- `DocsExport` against `Resolve` / `ExportTrace`;
- `Commit` against `CommitTrace`;
- `DownloadAll` against `Pass`;
- `MonitorUpdates` against `MonitorPass`.

Lemmas then prove what the source promises about those functions.

Where the code does not keep what its own names, comments and log messages
suggest, the model follows the code and proves what it actually does:
- **Sanitizing is not idempotent.** The strip (yuque.py:31-32) runs before the
  200-character cut (yuque.py:38-40). So a cut that ends in whitespace gives a
  name that a second pass changes. `SanitizeIdempotentIff` gives the exact
  condition and `SanitizeNotIdempotentWitness` an input.
- **An unpublished document counts as a failure.** Its log message at
  yuque.py:153 calls it skipped. But `docs_export` returns False (yuque.py:154),
  and the results loop of `download_all` counts every False as a failure
  (yuque.py:389-390). See `UnpublishedScenario`.
- **The version file is written in place.** `save_document_versions` opens it
  with mode "w" (yuque.py:447-448). The document files, by contrast, go through
  a temp file and a rename, which the comment at yuque.py:218 says avoids a
  corrupted file. A dump that fails part-way leaves a file that the next load
  reads as empty (`Saved`, `Loaded`). So the per-book save, which the comment
  at yuque.py:393 says keeps an interruption from losing information, can
  itself lose every record.
- **The total counts every listed document.** `total_docs_count` adds the whole
  listing (yuque.py:321-322), so folders and other non-"Doc" kinds are in it
  too, counted as skipped (yuque.py:328-331). See `BookStepBalanced`.
- **`download_all` can move a watermark back.** A document whose file is missing
  is queued whatever its stored watermark (yuque.py:341-353). On success the
  record takes the listing's timestamp, which can be older
  (`MissingFileRewindsWatermark`). `monitor_updates` exports only stale
  documents (yuque.py:510), and it never moves a watermark back
  (`MonitorPassAdvances`).
- **A failed replace leaves the target absent.** The save stage never leaves a
  corrupted target, as the comment at yuque.py:218 promises
  (`CommitCrashSafe`). But if the backup rename worked and the final
  `os.replace` fails (yuque.py:229-235), no file is at the target path. The old
  text is only in `.bak` and the new text only in `.temp`
  (`ReplaceFailureAfterBackup`). Nothing restores the backup. The next
  `download_all` re-exports the document because its file is missing, and the
  target comes back only when that export succeeds.

## Model

| member | source | states |
|---|---|---|
| Text.IsSpace | yuque.py:31-32 | the characters Python's `str.isspace` and the regex class `\s` treat as whitespace |
| Text.StrLess | yuque.py:462 | Python's `<` on `str`: the first differing code point decides, and a proper prefix is smaller; its order properties are the four lemmas below |
| Text.StrLessIrreflexive | yuque.py:462 | no timestamp is newer than itself, so an equal timestamp is never stale |
| Text.StrLessAsymmetric | yuque.py:462 | if `a < b` on Python strings then not `b < a` |
| Text.StrLessTransitive | yuque.py:462 | string `<` is transitive |
| Text.StrLessTotal | yuque.py:462 | any two timestamps are equal or ordered one way |
| Text.EmptyStrLess | yuque.py:459-462 | the empty default watermark is below exactly the non-empty timestamps |
| Text.IntToString | yuque.py:457 | `str(i)` for an integer id: decimal, with a minus sign when negative; `IntToStringRoundTrip` and `IntToStringInjective` state its meaning |
| Text.NatToStringRoundTrip | yuque.py:457 | the decimal rendering of a natural number parses back to it |
| Text.IntToStringRoundTrip | yuque.py:457 | `str(i)` of an id, sign included, parses back to `i` |
| Text.IntToStringInjective | yuque.py:457 | different ids render differently |
| Versions.DocKeyInjective | yuque.py:457 | two `"{book.id}_{doc.id}"` keys are equal if and only if both ids are |
| Versions.Watermark | yuque.py:459-461 | `versions.get(key, {}).get("updated_at", "")`: the stored timestamp, or "" without a record |
| Versions.CheckDocumentUpdates | yuque.py:455-467 | a stale document has a non-empty remote timestamp |
| Versions.UpToDateIff | yuque.py:455-467 | a document is not stale exactly when its timestamp is at most the stored one |
| Versions.MissingRecordIsStale | yuque.py:458-465 | without a record, a document is stale exactly when its timestamp is non-empty |
| Versions.Recorded | yuque.py:470-481 | the update adds exactly the document's key, stores its listing timestamp, and leaves every other entry as it was |
| Versions.RecordedIsUpToDate | yuque.py:470-481 | right after its update a document is not stale |
| Versions.RecordedKeepsOthers | yuque.py:470-481 | an update leaves the staleness of every other (book, document) pair unchanged |
| Versions.RecordedStaleAdvances | yuque.py:462-476 | recording a stale document loses no entry and moves no watermark back |
| Versions.RecordedOlderRewinds | yuque.py:476 | recording a timestamp below the stored one moves that watermark back |
| Versions.VersionStore.UpdateDocumentVersion | yuque.py:470-481 | updates the dictionary in place to `Recorded(old, …)` and returns the same dictionary |
| Versions.Loaded | yuque.py:431-440 | a missing or unreadable version file loads as the empty dictionary |
| Versions.Saved | yuque.py:443-452 | a completed dump stores the dictionary; a failed open keeps the old file; a dump that fails part-way leaves a file that loads as empty |
| Versions.VersionFile.LoadDocumentVersions | yuque.py:431-440 | returns a fresh store holding `Loaded(file)` |
| Versions.VersionFile.SaveDocumentVersions | yuque.py:443-452 | returns True exactly when the dump completes; the file becomes `Saved(old, versions, fault)` |
| Sanitize.ReplaceChar | yuque.py:28-29 | `replace(c, '_')` keeps the length and changes exactly the positions holding `c` |
| Sanitize.ReplaceEach | yuque.py:24-29 | the source's loop: one `replace(c, '_')` per forbidden character, in the source's order; `ReplaceEachPointwise` states its effect |
| Sanitize.ReplaceInvalid | yuque.py:24-29 | keeps the length and puts `_` exactly at the positions of forbidden characters |
| Sanitize.ReplaceEachPointwise | yuque.py:24-29 | the nine `replace` calls in a row turn every forbidden character into `_`, position by position |
| Sanitize.ReplaceEachIsReplaceInvalid | yuque.py:24-29 | the source's loop equals the single-pass replacement the model uses |
| Sanitize.StripLeft | yuque.py:31-32 | `lstrip` returns a suffix, drops only whitespace, and does not start with whitespace |
| Sanitize.StripRight | yuque.py:31-32 | `rstrip` returns a prefix, drops only whitespace, and does not end with whitespace |
| Sanitize.Strip | yuque.py:31-32 | `strip` returns an infix that neither starts nor ends with whitespace |
| Sanitize.StripRemovesOnlySpace | yuque.py:31-32 | strip removes only whitespace, and gives "" exactly when the text is all whitespace |
| Sanitize.StripTrimmed | yuque.py:31-32 | strip leaves a trimmed string alone |
| Sanitize.Cleaned | yuque.py:24-32 | the title after replacement and strip, before the fallback and the cut; `CleanedValid` and `CleanedEmptyIff` state its properties |
| Sanitize.CleanedValid | yuque.py:24-32 | after replacement and strip, no forbidden character is left |
| Sanitize.ReplacedSpaces | yuque.py:24-29 | replacement neither creates nor removes whitespace |
| Sanitize.Named | yuque.py:24-36 | before the cut, the name is non-empty, has no forbidden character and does not start with whitespace |
| Sanitize.SanitizeFilename | yuque.py:16-42 | the result is non-empty, at most 200 characters, has no forbidden character, and does not start with whitespace |
| Sanitize.CleanedEmptyIff | yuque.py:24-35 | the cleaned title is empty exactly when the title is blank |
| Sanitize.SanitizeFallbackIff | yuque.py:34-36 | the result is "untitled_document" exactly when the title is blank or cleans to that very name |
| Sanitize.ReplaceKeepsValid | yuque.py:24-29 | replacement leaves a name without forbidden characters unchanged |
| Sanitize.SanitizeKeepsValidName | yuque.py:16-42 | a valid, trimmed name of at most 200 characters comes back unchanged |
| Sanitize.SanitizeIdempotentIff | yuque.py:31-40 | sanitizing twice equals sanitizing once exactly when the first result does not end in whitespace |
| Sanitize.SanitizeDropsTrailingSpace | yuque.py:31-40 | a second pass shortens a name that the cut left ending in whitespace |
| Sanitize.SanitizeNotIdempotentWitness | yuque.py:38-40 | 199 letters, a space and a letter: the cut keeps the space and a second pass changes the name |
| Normalize.LeadingSpaces | yuque.py:209 | `\s+` consumes the maximal run of whitespace |
| Normalize.LazyClose | yuque.py:209 | `(.*?)</font>` stops at a closing tag with no newline before it |
| Normalize.LazyCloseFinds | yuque.py:209 | the lazy group ends at the first `</font>` when no newline comes before it |
| Normalize.MatchGroup | yuque.py:209 | a matched group followed by `</font>` is a prefix of the text, and the lengths add up |
| Normalize.MatchFont | yuque.py:209 | a match consumes at least the 22 characters of the tag syntax |
| Normalize.StripFontTags | yuque.py:208-209 | the substitution never makes the body longer |
| Normalize.NoTagUnchanged | yuque.py:208-209 | a body without `<font` is left unchanged |
| Normalize.FirstCloseAfter | yuque.py:209 | inside a group without `</font>`, no closing tag can start before the one that follows it |
| Normalize.UnwrapFont | yuque.py:208-209 | `<font␣…style="s">inner</font>rest` becomes `inner` followed by the substituted rest |
| Normalize.UnwrapExample | yuque.py:208-209 | `<font style="color:red">Hi</font>!` becomes `Hi!` |
| Normalize.ContributorList | yuque.py:202-203 | the contributor text: `name(login) ` for each contributor, in order; `AppendContributors` is the loop that builds it |
| Normalize.HeaderLines | yuque.py:184-196 | the book, document and link lines of the f-string header, with the ids rendered by `str` |
| Normalize.Header | yuque.py:183-209 | the whole header: opening fence, the f-string lines, the contributor line only when the overview call returned, closing fence; `HeaderFenced` states its framing |
| Normalize.BuildHeader | yuque.py:183-209 | the built header is the f-string block, then the contributor line only when the overview call returned, then the closing fence |
| Normalize.AppendContributors | yuque.py:202-203 | the loop appends `name(login) ` for each contributor, in order |
| Normalize.ExportedText | yuque.py:220-221 | the written text starts with the header and is no longer than the header plus the body |
| Normalize.HeaderFenced | yuque.py:183-209 | every header opens the `meta_data` fence and ends with the closing fence |
| Files.SideFilesDistinct | yuque.py:218-225 | `.temp` and `.bak` differ from each other and from the target |
| Files.Rename | yuque.py:229-235 | `os.rename`/`os.replace` moves the content to the destination, removes the source, and changes nothing else |
| Files.TempContent | yuque.py:219-221 | the temp file holds a prefix of the text, the whole text when the write completes |
| Files.BackupTrace | yuque.py:223-232 | every state of the backup block agrees with the start everywhere except at the target and its backup |
| Files.CommitTrace | yuque.py:211-242 | the save stage's state sequence starts at the state before it |
| Files.LastAppend | yuque.py:211-242 | a history extended by a trace ends in the trace's last state |
| Files.CommitSucceeds | yuque.py:211-242 | the save stage returns True exactly when the directory is created, the temp file is fully written and the final replace works; a failed backup is only logged |
| Files.CommitSuccessContent | yuque.py:211-239 | after a successful save the target holds exactly the new text and no temp file is left |
| Files.CommitFrame | yuque.py:211-242 | no state of the save stage touches any path but the target, its temp file and its backup |
| Files.CommitCrashSafe | yuque.py:215-235 | in every intermediate state the target holds its old content or the full new text, or is absent with the old content in `.bak` |
| Files.BackupRecoverable | yuque.py:223-232 | every state of the backup block keeps the old target content in the target or in `.bak` |
| Files.CommitFailureKeepsPrevious | yuque.py:211-242 | a failed save leaves the target as it was or moved to `.bak`, never new or partial text |
| Files.BackupKeepsTarget | yuque.py:223-232 | the backup block leaves the target in place or moves it to `.bak` |
| Files.TempFailureKeepsTarget | yuque.py:215-221 | a failed directory creation, open or write leaves the target exactly as it was, and a partial write stays in `.temp` |
| Files.BackupHoldsPrevious | yuque.py:223-235 | when the backup works, `.bak` holds the previous content whether or not the replace succeeds |
| Files.ReplaceFailureAfterBackup | yuque.py:223-242 | a replace that fails after the backup worked leaves no target; the old text is only in `.bak`, the new only in `.temp` |
| Files.StaleBackupOnRemoveFailure | yuque.py:226-235 | when the old `.bak` cannot be removed the save still succeeds, and the previous target content is lost |
| Files.FileSystem.WriteFile | yuque.py:219-221 | `open("w")` + `write`: nothing on a failed open, otherwise the path holds the written prefix, recorded in the history |
| Files.FileSystem.Remove | yuque.py:227-228 | `os.remove` deletes the path unless it fails; the history records the change |
| Files.FileSystem.Move | yuque.py:229-235 | `os.rename`/`os.replace` becomes `Rename` unless it fails; the history records the change |
| Files.BackUp | yuque.py:223-232 | the backup block appends exactly `BackupTrace` to the history |
| Files.Commit | yuque.py:211-242 | returns `CommitSucceeds(f)`, appends exactly the states of `CommitTrace` to the history, and ends in its last state |
| Export.Classify | yuque.py:150-253 | an attempt is refused exactly when a non-200 reply has a readable message that is the unpublished text or comes with 404; it reaches the save stage exactly when the reply is 200 with a URL and the download is 200 |
| Export.Resolve | yuque.py:128-259 | at most `retry` requests are made; the budget ends only after `retry` of them; the deciding request is the last one made and is no retry |
| Export.ResolveRetriedBefore | yuque.py:150-259 | every request before the deciding one asked for a retry |
| Export.ResolveExhaustedIff | yuque.py:128-259 | the export runs out of retries exactly when each of the `retry` attempts asks for a retry |
| Export.RefusedAtOnce | yuque.py:151-156 | an unpublished reply, or a 404 with a readable body, ends the export after one request whatever the budget |
| Export.NotFoundWithoutMessageRetries | yuque.py:151-162 | a 404 whose message cannot be read is retried, because reading the message raises first |
| Export.SaveTrace | yuque.py:208-242 | the save stage's state sequence starts at the state before it |
| Export.ExportTrace | yuque.py:118-259 | the export's state sequence starts at the state before it |
| Export.ExportOk | yuque.py:118-259 | the value `docs_export` returns: an attempt reaches the save stage within the budget, its body decodes, and the save succeeds |
| Export.ExportSuccessContent | yuque.py:183-239 | an export that returns True leaves the header followed by the font-unwrapped body at the target |
| Export.ExportFailureKeepsPrevious | yuque.py:118-259 | an export that returns False leaves the target as it was or moved to `.bak` |
| Export.ExportFrame | yuque.py:118-259 | an export changes nothing but its target, the target's `.temp` and its `.bak` |
| Export.RetryStep | yuque.py:150-259 | a retried attempt hands the whole export on to the next request with one retry less |
| Export.Yuque.DocsExport | yuque.py:118-259 | makes `Resolve(…).used` requests, returns `ExportOk`, and takes the disk through exactly `ExportTrace` |
| Export.Yuque.Again | yuque.py:162-259 | the recursive call `docs_export(…, retry-1)` completes the export that the failed attempt began |
| Export.Yuque.Save | yuque.py:183-242 | the header is built first; a body that does not decode fails before any write; otherwise the text is committed |
| Sync.Join | yuque.py:335-339 | POSIX `os.path.join`: an absolute name replaces the directory, otherwise a `/` is inserted when missing; `JoinEndsWith` states its effect |
| Sync.SavePath | yuque.py:333-339 | `<root>/<sanitized book name>/<sanitized title>.md`; `SavePathIsMarkdown` and `SideFilesAreNotTargets` state its properties |
| Sync.FileName | yuque.py:338-339 | a document's file name is not absolute and ends in `.md` |
| Sync.JoinEndsWith | yuque.py:335-339 | `os.path.join` with a relative name ends with that name |
| Sync.SavePathIsMarkdown | yuque.py:333-339 | every save path ends with the `d` of its `.md` name, which tells it apart from `.temp` and `.bak` files |
| Sync.SideFilesAreNotTargets | yuque.py:218-225 | no `.temp` or `.bak` file is ever the save path of a document |
| Sync.MaxWorkers | yuque.py:356-359 | the pool has at most 3 workers and at most one per task, and none exactly when the batch is empty |
| Sync.Queued | yuque.py:328-350 | the queue test: a "Doc" whose file is missing, or which exists and is stale |
| Sync.Queue | yuque.py:327-353 | every queued task is a "Doc" whose file is missing or stale, saved at its path |
| Sync.QueueFromListing | yuque.py:327-353 | every task of the batch is a document of the listing |
| Sync.QueueComplete | yuque.py:327-353 | every document that meets the test is queued |
| Sync.MissingFileQueued | yuque.py:341-353 | a missing file is queued even when the stored watermark says the document is up to date |
| Sync.MissingFileRewindsWatermark | yuque.py:341-388 | a missing file's successful export records the listing timestamp whatever was stored, moving a newer watermark back |
| Sync.RunExport | yuque.py:363-379 | one export makes at most one request with the default budget |
| Sync.RunBatch | yuque.py:363-379 | the batch has one result per task and makes at most one request per task |
| Sync.CountTrue | yuque.py:382-391 | the success count is at most the number of results |
| Sync.Apply | yuque.py:382-391 | the dictionary after the results loop: for each result in queue order, True writes that document's record and False leaves the dictionary; `ApplyRecordsSuccesses` and `ApplyKeepsOthers` state its effect |
| Sync.LastSuccess | yuque.py:382-388 | the i-th export returned True and no later export of the same document did |
| Sync.ApplyRecordsSuccesses | yuque.py:382-388 | every export that returned True has its record after the results loop, and the last success of each document leaves exactly that document's new record: its listing timestamp and the time of the pass |
| Sync.ApplyKeepsOthers | yuque.py:382-391 | a record changes only for a document whose export returned True |
| Sync.BookStep | yuque.py:319-394 | one book: a listing that raises skips the book; otherwise the batch is queued, exported in queue order and applied, the counters move, and the version file is saved only when the batch is not empty |
| Sync.Pass | yuque.py:318-402 | the loop over the books, in listing order, each through `BookStep` with its documents placed by `SavePath` |
| Sync.BookStepBalanced | yuque.py:319-394 | a book keeps success + skip + fail equal to the total |
| Sync.PassBalanced | yuque.py:318-402 | a whole pass counts every listed document exactly once |
| Sync.BookStepCheckpoints | yuque.py:393-394 | after a book that exported something, the version file holds the dictionary as it then is |
| Sync.EmptyBatchTouchesNothing | yuque.py:356-359 | a book with nothing to export makes no request, writes nothing and counts every document as skipped |
| Sync.ThreeDocumentQueue | yuque.py:327-353 | never downloaded, unchanged, changed: the first and the last are queued |
| Sync.ThreeDocumentScenario | yuque.py:319-394 | with every export succeeding: 2 successes, 1 skip, both records take the listing timestamps |
| Sync.UnpublishedScenario | yuque.py:151-154 | an unpublished document: one request, no file, no record, counted as a failure |
| Sync.Decide | yuque.py:328-350 | a document is queued exactly when it is a "Doc" whose file is missing or which is stale |
| Sync.BookStepSingle | yuque.py:319-394 | a book listing one queued document: its export's result decides the disk, the request count, whether its record is added, and whether it counts as a success or a failure |
| Sync.RefusedExportEffect | yuque.py:151-154 | an export refused at the first request makes one request, returns False and writes nothing |
| Sync.BuildQueue | yuque.py:327-353 | the loop builds `Queue(…)` and counts the skipped documents |
| Sync.RunExports | yuque.py:363-379 | the batch returns `RunBatch` results and leaves the disk and request count as `RunBatch` says |
| Sync.ApplyResults | yuque.py:382-391 | the results loop turns the dictionary into `Apply(…)` and counts successes and failures |
| Sync.DownloadBook | yuque.py:319-400 | one book takes the state to `BookStep(…)` |
| Sync.DownloadAll | yuque.py:297-419 | returns False only when the book listing raises, and then changes nothing; otherwise the pass is `Pass(…)`, the file ends with its dictionary, and the counters balance |
| Monitor.Insert | yuque.py:503 | one insertion step: the document goes after every document at least as new; `InsertPermutes`, `InsertNewestFirst` and `InsertStable` state its effect |
| Monitor.SortByTime | yuque.py:503 | `docs.sort(key=updated_at, reverse=True)` as a stable insertion sort; `SortPermutes`, `SortNewestFirst` and `SortStable` state its meaning |
| Monitor.SortPermutes | yuque.py:503 | the sort neither drops nor adds a document |
| Monitor.SortNewestFirst | yuque.py:503 | after the sort no document is followed by a newer one |
| Monitor.SortStable | yuque.py:503 | documents with equal timestamps keep their listing order |
| Monitor.InsertPermutes | yuque.py:503 | one insertion step adds exactly the inserted document |
| Monitor.InsertNewestFirst | yuque.py:503 | one insertion step keeps the list newest first |
| Monitor.InsertStable | yuque.py:503 | one insertion step puts the document after all others with its timestamp |
| Monitor.DocStep | yuque.py:505-529 | one document: exported only when it is a "Doc" and stale, and its record written when the export returns True |
| Monitor.DocsStep | yuque.py:505-529 | the loop over a book's sorted documents, in order |
| Monitor.MonitorBookStep | yuque.py:500-532 | one book: a listing that raises skips it; otherwise the listing is sorted newest first and walked |
| Monitor.MonitorPass | yuque.py:499-532 | the loop over the books, in listing order, with documents placed by `SavePath` |
| Monitor.DocStepAdvances | yuque.py:505-525 | one document step loses no record and moves no watermark back |
| Monitor.DocsStepAdvances | yuque.py:505-529 | the loop over a book's documents loses no record and moves no watermark back |
| Monitor.MonitorPassAdvances | yuque.py:484-535 | a whole monitor pass loses no record and moves no watermark back |
| Monitor.UpToDateDocsUntouched | yuque.py:505-512 | documents that are up to date or not "Doc" cause no request and no change |
| Monitor.UpToDateBookUntouched | yuque.py:500-512 | a book with no stale "Doc" leaves disk, requests and records as they were |
| Monitor.DocStepRecords | yuque.py:509-525 | a stale document makes the export's requests; on True it records its listing timestamp, on False the dictionary stays |
| Monitor.MonitorDoc | yuque.py:505-529 | the body of the document loop takes the state to `DocStep(…)` |
| Monitor.MonitorBook | yuque.py:500-532 | one book takes the state to `MonitorBookStep(…)` |
| Monitor.MonitorUpdates | yuque.py:484-540 | when the book listing raises nothing changes; otherwise the pass is `MonitorPass(…)`, saved once, and no watermark in the file moves back |

## Left out

- HTTP, the session cookies and headers: they become the server script, one `Attempt` per export request. The overview request is folded into the attempt that uses it and is not counted as a request.
- `books()` and `docs()` are parameters (`None` when they raise). `quick_links`, `groups`, `_test`, the configuration, the command line and logging are not part of this model.
- `download_and_monitor`'s endless loop, its sleeps and its cooldown are not modelled. The model covers one pass of each kind.
- The thread pool in `download_all`: the exports of a batch run one after another in queue order. `MaxWorkers` is computed, but concurrency and interleaving are not modelled.
- `datetime.datetime.now()` is the parameter `now`. `os.path.abspath` of the save root is the parameter `root`.
- `apparent_encoding` and the bytes of the download: the body is text, or `None` when it is not valid UTF-8.
- `str()` of the user and last-editor objects in the header: they are strings in `Doc`.
- The JSON encoding of `document_versions.json`: the file is `NoFile`, `Readable(dictionary)` or `Unreadable`. It is a separate object, not a path in the document file system.
- `list.sort` is a library call: `SortByTime` models its result as a pure function, and the in-place mutation of the listing is not modelled.
- The counters `update_count` and `fail_count` of `monitor_updates`: they are never incremented and only logged.
- Export.Yuque.DocsExport: `retry` is a natural number. A negative budget would recurse without end in the source.
- Sync.DownloadAll: assumes that `os.makedirs` for the book directory succeeds and that every version-file flush completes. A `makedirs` failure would abort the book through the per-book `except`; the failure modes of a flush are modelled by `Versions.VersionFile.SaveDocumentVersions` alone.
- Monitor.MonitorUpdates: assumes that `os.makedirs` succeeds and that the final flush completes, as for `DownloadAll`.
- Sync.Pass and Monitor.MonitorPass place the documents with `SavePath`. The per-book steps take the placement `target` as a parameter, so their lemmas hold for any placement.
