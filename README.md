# PDF page watcher: checkpointed conversion

This project models the core of a folder watcher. It converts each PDF
dropped into `books/` into one text artifact per page, stored under
`books_processed/<stem>/content_NN.txt`.

The conversion can be resumed. After writing each page's artifact, it
overwrites a single shared lock file, `books_processed/lock.json`, with
`{file, page}`. When it finishes, it removes the lock and marks the
document as processed in a database.

The model has four modules:

- `Naming` (naming.dfy) covers the pure name computations:
  - `os.path.basename`, and the stem `os.path.splitext(name)[0]` with its leading-dots rule;
  - the page file name `content_{i+1:02d}.txt`, including how Python formats a negative number;
  - the `.pdf` filter of the event handler.
- `Durable` (durable.dfy) defines the values of the durable state:
  - the subfolders and their files;
  - the lock file, which may be missing a key, carry a page that is not an integer, or not be a JSON object at all;
  - the log of `mark_as_processed` calls;
  - the four ways a call ends (skipped, raised by the guard, failed inside the `try`, completed).
- `ProcessPdf` (process.dfy) defines one call of `process_pdf` as a pure function `Process` from the state before the call to the state after it, and proves properties of it:
  - the guard;
  - where the resume point comes from;
  - which pages get artifacts;
  - that within a call the lock claims only pages written from the resume point on, including at the crash point between the two writes of a loop pass;
  - that across calls, whatever documents arrive, a lock `{file: f, page: k}` never claims a page from 0 up to `k` whose artifact is missing in the subfolder of `f`;
  - completion and failure;
  - that a resumed run ends exactly like an uninterrupted one;
  - two ways a document can be stranded.
- `Handler` (handler.dfy) holds the `Workspace` class. Its fields are the folders and the lock file. Its methods change them step by step, as the source does:
  - `ProcessPdf`, `ConvertPdf`, `WritePages` (the page loop, with its loop invariants) and `WritePage` (one pass of it);
  - `OnCreated`, which also keeps the lock covered by the artifacts.

  Each method is proved to leave exactly the state and outcome that `Process` gives.

Inputs that come from outside the repository's code are parameters:

- The document is a `Source`: unreadable, or a sequence of pages. Each page yields text, yields nothing (read as `""`), or raises.
  `reader.pages[i]` is taken to follow Python list indexing (`PageAt`): a negative index counts from the end, and an index outside `-len..len-1` raises.
- The text encoding (UTF-8 then base64) is a function `enc` passed in.

Facts about the code that the model keeps:

- Artifacts are named `content_<i+1:02d>.txt`; page 100 is `content_100.txt`.
- There is one lock file for the watcher; a failed call leaves it in place.
- The lock's `page` is the number of pages completed, which is the 0-based index of the next page; a resumed call starts there. When a crash falls between an artifact and its lock update after the lock already names the file, that one page is written again on resume.
- A call whose subfolder already exists is skipped unless the lock names its file. So a document stays unconverted for good in three cases:
  - a first call for a document that no lock names fails before its first page completes (`EarlyFailureStrandsDocument`);
  - a first call crashes after writing its first artifact and before its first lock write (`CrashBeforeFirstLockStrandsDocument`);
  - an interrupted document's lock is overwritten by another document's call (`OtherDocumentStrandsInterrupted`).

## Model

| member | source | states |
|---|---|---|
| Naming.LastIndexOf | main.py:50 | the result is -1 or an index holding `c`, and no later index holds `c` (the `rfind` behind `basename`) |
| Naming.Basename | main.py:50 | the file name is the longest suffix of the path without '/': it holds no '/', and the character before it is '/' |
| Naming.Stem | main.py:51 | the stem is a prefix of the name; when shorter, it ends at the last dot that has a non-dot before it; when equal, no dot splits the name |
| Naming.PadRoundTrip | main.py:76 | `{n:02d}` formatting loses nothing: the text reads back as `n`, negative numbers included |
| Naming.ArtifactRoundTrip | main.py:76 | the page index can be read back from the artifact name |
| Naming.ArtifactNameInjective | main.py:76-77 | two pages share an artifact file exactly when they are the same page |
| Naming.ArtifactNameExamples | main.py:76 | loop indices 0, 4, 9 and 99 give content_01, content_05, content_10 and content_100; indices -1 and -2 give content_00 and content_-1 |
| Naming.IsPdfPathByCharacters | main.py:100 | `lower().endswith(".pdf")` holds exactly when the last four characters are '.', p, d, f in either case |
| Handler.HandlesExactlyPdfFiles | main.py:100 | an event is handled exactly when it is not a directory and the path ends in one of the eight case variants of ".pdf" |
| ProcessPdf.FirstFault | main.py:72-74 | the loop stops at the first page that raises, or at the end of the range; every page before it converts |
| ProcessPdf.FirstFaultIs | main.py:72-74 | any index before which all pages convert, and which is the end of the range or a raising page, is where the loop stops |
| ProcessPdf.StartPage | main.py:65-70 | reading the resume point raises exactly for a malformed lock, or for a lock naming the file with a non-integer page; a lock naming the file with page n resumes at n; any other nonzero start comes from such a lock |
| ProcessPdf.WrittenContents | main.py:72-79 | the loop adds exactly the artifacts of its indices, each with the encoded text of its page, and leaves every other file unchanged |
| ProcessPdf.LoopLockCovers | main.py:72-84 | after the passes from the resume point up to `i`, the lock (the last completed page, or its old value when none completed) claims only written pages |
| ProcessPdf.CoverageAfterPage | main.py:76-84 | when the artifact is written before the lock is updated, the lock's claim stays covered both between the two writes and after the second |
| ProcessPdf.LockFirstWouldClaimMissingPage | main.py:78-84 | with the writes in the opposite order, the lock would name a page whose artifact is missing |
| ProcessPdf.WrittenSplit | main.py:72-79 | writing pages lo..m and then m..hi is writing lo..hi |
| ProcessPdf.WrittenRewrite | main.py:72-79 | rewriting pages that are already written changes nothing |
| ProcessPdf.WrittenResume | main.py:72-79 | resuming at any page up to the last one written gives the folder that writing every page once gives |
| ProcessPdf.SkipLeavesStateUnchanged | main.py:54-57 | when the subfolder exists and the lock does not name the file, the call changes nothing; it is skipped, or it raises when the lock is malformed |
| ProcessPdf.NotSkippedCreatesFolder | main.py:55-62 | a call that is not skipped completes or fails, leaves the subfolder in place, and touches no other subfolder |
| ProcessPdf.RunWritesResumeRange | main.py:65-79 | the subfolder gains exactly the artifacts from the resume point up to the first raising page, with their contents; other files are unchanged; a resume point past the end writes nothing |
| ProcessPdf.LockCoversAfterRun | main.py:72-84 | whenever the lock after a call names the file at page k, the artifacts from the resume point up to k exist |
| ProcessPdf.CoveredAfterGrowth | main.py:59-79 | adding subfolders or files, with the lock unchanged, keeps every page the lock claims covered (the crash point between an artifact and its lock update included) |
| ProcessPdf.RunPagesKeepsCoverage | main.py:65-84 | the page loop, started from a resume point a covered lock allows, leaves a lock that claims only pages 0 up to k that have artifacts |
| ProcessPdf.ProcessKeepsCoverage | main.py:49-95 | every call of `process_pdf` preserves coverage from page 0: a lock `{file: f, page: k}` before the call with pages 0..k written implies the same of the lock after it |
| ProcessPdf.CompletionCommits | main.py:86-92 | a call completes exactly when it is not skipped, the document opens, the resume point can be read and no page from it raises; it then removes the lock, appends the file name once to the processed log, and every page from the resume point has its artifact; any other outcome leaves the log unchanged |
| ProcessPdf.FailureKeepsPartialWork | main.py:61-95 | a page that raises is caught: the call fails, existing and newly written artifacts stay, the lock holds the last completed page (or its old value when none completed), and nothing is logged |
| ProcessPdf.ProcessEntersLoop | main.py:55-72 | a call that is not skipped and can read its resume point runs the page loop from it over the existing or new subfolder |
| ProcessPdf.ProcessResumesAt | main.py:55-72 | a call whose lock names its file at page k, with the subfolder present, runs the loop from k over that subfolder |
| ProcessPdf.ResumedLoopCompletes | main.py:72-92 | resuming at page k over a subfolder holding pages 0..m, with k <= m, completes with every page written once, the lock removed and the file logged |
| ProcessPdf.FreshRunCompletes | main.py:49-92 | a first call on a document whose pages all convert completes, with every page in a new subfolder |
| ProcessPdf.InterruptedRunCompletes | main.py:49-92 | a call on a document interrupted after k pages, with m >= k artifacts present, completes with every page written |
| ProcessPdf.ResumeMatchesUninterruptedRun | main.py:49-92 | a first run interrupted after k >= 1 pages, including one that crashed between an artifact and its lock update, resumes to exactly the state and outcome of a run that was never interrupted |
| ProcessPdf.CompletedIsSkippedAfterwards | main.py:55-57 | after a completed call, every later call for the same path is skipped and changes nothing |
| ProcessPdf.EarlyFailureStrandsDocument | main.py:55-62 | a first call, for a document that no lock names, that fails before any page completes leaves the subfolder but no lock naming the file, so every later call is skipped |
| ProcessPdf.CrashBeforeFirstLockStrandsDocument | main.py:55-84 | a first run that crashes after its first artifact and before its first lock write leaves the artifact and no lock naming the file, so every later call is skipped |
| ProcessPdf.OtherDocumentStrandsInterrupted | main.py:55 | another document's call overwrites the shared lock, after which the interrupted document is skipped for good |
| Handler.Workspace.constructor | main.py:13-16 | the watcher starts on the existing output folder and lock file, with an empty processed log |
| Handler.Workspace.ProcessPdf | main.py:49-59 | the guard, the creation of the subfolder and the conversion leave exactly the state and outcome of `Process` |
| Handler.Workspace.ConvertPdf | main.py:61-95 | the `try` block leaves exactly the state and outcome of `Convert`: open, read the resume point, loop, remove the lock, log |
| Handler.Workspace.WritePages | main.py:72-84 | the page loop writes exactly the pages from the resume point to the first raising page and leaves the lock at the last completed page; the lock is covered by the artifacts after the loop and, inside each pass, at the crash point between the two writes |
| Handler.Workspace.WritePage | main.py:76-84 | one pass adds exactly the artifact of page i with the given contents and leaves the lock at page i + 1 |
| Handler.Workspace.OnCreated | main.py:99-102 | a directory or non-PDF event changes nothing; any other event behaves as `Process` on its path; a lock covered by the artifacts before the event still is after it |

## Left out

- The watchdog `Observer`, its scheduling and the `while True` sleep loop (main.py:104-125) are left out. They are threading and process supervision; the model starts at the event handler.
- `mark_as_processed` (main.py:19-46) is a PostgreSQL update. It is modelled as an append to a ghost log `processed`. It catches all of its own exceptions, so it needs no error path.
- `PdfReader` and `extract_text` (main.py:62-74) are an external library. They are given as the `Source` input: unreadable, or a sequence of pages that each yield text, yield none, or raise.
- The UTF-8 and base64 encoding (main.py:75) is library code. It is the parameter `enc` and is not modelled further.
- The `print` diagnostics (main.py:56, 89, 95, 101) have no effect on state and are left out.
- Filesystem semantics are left out:
  - paths are strings, and folders are maps from file name to contents;
  - `os.makedirs` and artifact writes are assumed never to fail part way;
  - a document whose stem is `lock.json` would make its subfolder collide with the lock file, and this is not modelled.
- `str.lower` is modelled on ASCII letters only.
- A lock whose `page` is a JSON boolean or float is treated as `NotInt`, so `range` raises. Python would accept `true`/`false` as 1/0.
- Crashes of the process are modelled only through the states they leave at the two write points inside a loop pass. No exceptions from `open` or `json.dump` are modelled.
- Handler.Workspace.WritePages: the lock after a crash is stated only at the loop's write points, not for crashes part way through a file write.
- ProcessPdf.ResumeMatchesUninterruptedRun: the interrupted state (lock at page k >= 1, artifacts of pages 0 up to m with k <= m) is given as a precondition rather than derived from a modelled crash of an earlier call; no model of a process crash mid-call exists beyond the states at the loop's write points.
