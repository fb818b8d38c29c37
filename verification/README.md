# kindle-sender sync pass, modelled in Dafny

`index.js` checks a GitHub folder page for `.epub` issues of a magazine,
downloads each issue it has not sent before, mails it to a Kindle address and
records its filename in a tracking file (`downloaded_files.json`) so that the
next run skips it. This project models that reconcile-and-record pass:

- `text.dfy` (module `Text`): JavaScript's `String.prototype.replace` with a
  string pattern and a replacement holding no `$` (only the leftmost match is
  replaced) and Node's POSIX `path.basename`.
- `listing.dfy` (module `Listing`): an anchor href becomes an `Item` with a
  filename and a raw-content URL; `NewFiles` selects the items whose filename
  is not yet tracked.
- `ledger.dfy` (module `Ledger`): the tracking list as a `Store` holding the
  in-memory list and the last persisted copy; start-up creates a missing file.
- `sync.dfy` (module `Sync`): one run. The network, the mailer and the disk
  are replaced by an oracle `nat -> Attempt` that says, for the k-th new item,
  whether its download, its mail submission and its tracking-file rewrite
  succeed. `Step` is one pass of the loop body, `Loop` the fold over the new
  items, `Reconcile` everything after the listing request, `Run` the whole of
  `main`. The methods `ProcessItem`, `LoopOnce`, `ReconcileOnce` and `SyncOnce`
  are the same code written as statements: `LoopOnce` holds the `while` loop
  over a mutable list, and each method is proved equal to its function.
- `sync_properties.dfy` (module `SyncProperties`): what a run promises about
  the tracking list.

Two behaviours of the code are kept as written:

- A filename listed twice in one run is not collapsed. The filter runs once,
  before the loop, so both copies are fetched, mailed and appended
  (`SyncProperties.DuplicateItemSentTwice`).
- A failed write of the tracking file is neither rolled back nor fatal. The
  name is pushed to the in-memory list before the write, both sit in the
  per-item `try`, and the loop goes on to the next item
  (`SyncProperties.LoopDiskSnapshot`, `SyncProperties.FailedWriteRetriedNextProcess`).

## Model

| member | source | states |
|---|---|---|
| `Text.IndexOfFrom` | index.js:33 | the result is -1 or the leftmost index at or after `from` where the pattern occurs; no occurrence lies between `from` and it |
| `Text.ReplaceFirst` | index.js:33 | without an occurrence of the pattern the string comes back unchanged; otherwise exactly the leftmost occurrence is replaced and the rest is kept |
| `Text.TrimTrailingSlashes` | index.js:34 | the result is a prefix of the input that does not end in '/', and everything cut off is '/' |
| `Text.AfterLastSlash` | index.js:34 | the result is a suffix of the input with no '/' in it, and it is either the whole input or preceded by a '/' |
| `Text.Basename` | index.js:34 | the basename holds no '/'; it is the segment after the last '/' of the path with its trailing '/' characters ignored, and for a path not ending in '/' the segment after the last '/' of the path itself |
| `Text.LastSegmentKeepsSuffix` | index.js:28-34 | a slash-free suffix of a path is also a suffix of its last segment |
| `Text.BasenameOfEpub` | index.js:28-34 | for an href ending in ".epub" (all the selector matches) the filename is the segment after the last '/' and ends in ".epub" |
| `Text.BasenameOfSegment` | index.js:34 | for a directory path joined by '/' to a non-empty name without '/', the filename is exactly that name |
| `Listing.RawUrl` | index.js:33 | the URL starts with the raw-content host, followed by the href with only its leftmost "/blob/" turned into "/", or the href itself when it has none |
| `Listing.NonEmptyHrefs` | index.js:29-30 | no kept href is empty, and when no href is empty all are kept, in page order |
| `Listing.NonEmptyHrefsSelects` | index.js:28-30 | the kept hrefs keep page order, are exactly the non-empty ones, and each non-empty href is kept as often as it occurs |
| `Listing.ToItems` | index.js:28-37 | one item per href that passes the guard, in page order, each built from its own href |
| `Listing.ToItemsWhenNoneEmpty` | index.js:28-37 | when no href is empty there is one item per href, and item k's filename is href k's basename and its URL href k's raw URL |
| `Listing.NewFilesOrdered` | index.js:39 | the new items keep the listing order |
| `Listing.NewFilesCounts` | index.js:39 | a link whose filename is untracked is new as often as it is listed; a link whose filename is tracked is never new |
| `Listing.NewFilesMembers` | index.js:39 | an item is new exactly when it is listed and its filename is not tracked |
| `Listing.NewFilesUnique` | index.js:39 | any order-preserving selection with those counts is the result of NewFiles, so ordering and counts determine it exactly |
| `Listing.AllTrackedNothingNew` | index.js:39-44 | when every listed filename is tracked, nothing is new, so the run takes the early return |
| `Ledger.Startup` | index.js:11-16 | an existing file is read as is; a missing one is created and the list starts empty; a failed creation ends the process before any sync; memory and disk agree after start-up |
| `Sync.Step` | index.js:59-81 | one item: a failed download or send changes nothing; otherwise the name is appended in memory, and the file copy becomes the whole list only if its write succeeds; disk never runs ahead of memory |
| `Sync.Loop` | index.js:57-82 | one log outcome per item, the in-memory list only grows at its end, and disk stays a prefix of memory |
| `Sync.Reconcile` | index.js:39-82 | with no new item nothing is logged and nothing changes; otherwise one outcome per new item; the list only grows at its end |
| `Sync.Run` | index.js:21-86 | a failed listing request is reported and leaves both copies of the list untouched; a listed run only grows the in-memory list at its end and keeps disk a prefix of it |
| `Sync.ProcessItem` | index.js:59-81 | the `try` block as written, with the push before the write, computes the same state and log outcome as Step |
| `Sync.LoopOnce` | index.js:57-82 | the `for` loop as written, pushing to a mutable list and rewriting the file after each delivered item, computes the same result as Loop |
| `Sync.ReconcileOnce` | index.js:39-82 | the filter, the early return and the `for` loop as written compute the same result as Reconcile |
| `Sync.SyncOnce` | index.js:21-86 | `main` with its top-level handler computes the same result as Run |
| `SyncProperties.LoopRecordsDelivered` | index.js:57-78 | the in-memory list ends as the initial list followed by the filenames of the items that were both fetched and mailed, in loop order |
| `SyncProperties.LoopEventsPerItem` | index.js:57-81 | item k's outcome depends only on its own download, send and write: an earlier failure neither stops nor alters a later item |
| `SyncProperties.LoopUnchangedWithoutDelivery` | index.js:59-81 | when no item is both fetched and mailed, neither the in-memory list nor the file changes |
| `SyncProperties.LoopAllWritten` | index.js:77-78 | when every write succeeds and the run started from the persisted list, the file ends equal to the in-memory list |
| `SyncProperties.LoopDiskUntouchedWithoutSave` | index.js:77-81 | when no item's write succeeds, the file is never rewritten |
| `SyncProperties.LoopLastSave` | index.js:77-81 | the file ends as the initial in-memory list plus the names delivered up to and including the last item whose write succeeded |
| `SyncProperties.LoopDiskSnapshot` | index.js:77-81 | the file is untouched when no write succeeded, and otherwise is the full in-memory list as it stood right after the last item whose write succeeded; failed writes are not rolled back |
| `SyncProperties.ReconcileRecordsDelivered` | index.js:39-82 | the list grows by exactly the fetched-and-mailed new items' filenames in listing order, the k-th log outcome belongs to the k-th new item, and nothing changes when none got through |
| `SyncProperties.AllListedTracked` | index.js:39-77 | after a pass in which every new item was fetched and mailed, every listed filename is in the in-memory list |
| `SyncProperties.ReconcileAllWritten` | index.js:57-78 | with every write succeeding, the file and the in-memory list agree after the pass |
| `SyncProperties.ReconcileRerunIdempotent` | index.js:39-78 | after a pass where every new item succeeded, every listed filename is tracked and a second pass over the same links does nothing |
| `SyncProperties.RerunIdempotent` | index.js:16-78 | after a fully successful run, the next process reads back the same list and a run over the same listing sends nothing and changes nothing |
| `SyncProperties.DuplicateItemSentTwice` | index.js:39-78 | an untracked item listed twice is sent twice and appended twice |
| `SyncProperties.DuplicateLinkSentTwice` | index.js:28-78 | the same for an href that appears twice on the page |
| `SyncProperties.FailedWriteRetriedNextProcess` | index.js:77-81 | after a failed write the name stays in memory but the file lacks it, so the next process reads the old file and sends it again |
| `SyncProperties.FailedWriteThenDuplicateSent` | index.js:39-81 | within the one pass, a later copy of an item whose write failed is not skipped: it is sent and appended again, and its successful write saves both names |
| `SyncProperties.BlobLinkUrl` | index.js:32-33 | "/u/r/blob/m/x.epub" maps to "https://raw.githubusercontent.com/u/r/m/x.epub" |

## Left out

- The HTTP request for the page (axios), HTML parsing and the `a[href$=".epub"]` selector (cheerio): the run takes the matched hrefs, in page order, as input, or a failure of the request.
- The download of each issue and its bytes: only whether it succeeded is modelled.
- Mail transport, Gmail configuration, credentials and `process.env`/dotenv: the mail submission is an ok/err answer of the oracle. Building the transporter does not contact the server and is taken to succeed.
- File-system semantics: the tracking file is a persisted list plus an ok/err answer per write; `writeFileSync` rewrites it in place, not by an atomic replace. A write that fails part-way and leaves a truncated file, and a tracking file that `JSON.parse` rejects or that holds non-strings, are not modelled.
- Text.ReplaceFirst: the `$` patterns JavaScript expands in a replacement string (`$$`, `$&`, `` $` ``, `$'`) are not expanded; `rep` is inserted as is, which is exact for the one call, whose replacement is "/".
- Node's `path` module is not part of this model: `Text.Basename` follows the documented POSIX behaviour, and Windows separators are not modelled.
- Console logging: the log lines are represented by one `Event` per new item; the "No new issues found." and "Error:" lines by an empty event list and the `failed` flag.
- Async/await scheduling: the calls complete one after another, so the run is a sequential fold.
- The oracle answers by the position of the item among the new items, not by its URL, which also covers a world that answers differently for two copies of one link.
