/** The meaning of one call `process_pdf(path)` as a function from the
    durable state before the call to the durable state after it, and the
    properties of the checkpoint/resume procedure proved about it. */
module ProcessPdf {
  import opened Naming
  import opened Durable

  /** What the PDF library reports for one page. */
  datatype PdfPage =
    | Text(s: string)  // `extract_text()` returns this text
    | NoText           // `extract_text()` returns None, read as ""
    | Corrupt          // `extract_text()` raises

  /** The document at `path`, as the PDF library sees it. */
  datatype Source =
    | Unreadable                   // `PdfReader(path)` raises
    | Document(pages: seq<PdfPage>)

  /** `reader.pages[i]`: Python indexing, where a negative index counts
      from the end; None is an IndexError. */
  function PageAt(pages: seq<PdfPage>, i: int): (p: Option<PdfPage>)
    ensures p.Some? <==> -|pages| <= i < |pages|
    ensures 0 <= i < |pages| ==> p == Some(pages[i])
    ensures -|pages| <= i < 0 ==> p == Some(pages[|pages| + i])
  {
    if 0 <= i < |pages| then Some(pages[i])
    else if -|pages| <= i < 0 then Some(pages[|pages| + i])
    else None
  }

  /** `reader.pages[i].extract_text() or ""`; None when that raises. */
  function ExtractText(pages: seq<PdfPage>, i: int): Option<string> {
    match PageAt(pages, i)
    case None => None
    case Some(Corrupt) => None
    case Some(NoText) => Some("")
    case Some(Text(s)) => Some(s)
  }

  /** The loop index at which `for i in range(lo, hi)` stops: the first
      index whose page raises, or `hi` when none does (or `lo` when the
      range is empty). */
  function FirstFault(pages: seq<PdfPage>, lo: int, hi: int): (stop: int)
    decreases hi - lo
    ensures lo <= stop
    ensures lo <= hi ==> stop <= hi
    ensures forall j :: lo <= j < stop ==> ExtractText(pages, j).Some?
    ensures stop < hi ==> ExtractText(pages, stop).None?
  {
    if lo >= hi then lo
    else if ExtractText(pages, lo).None? then lo
    else FirstFault(pages, lo + 1, hi)
  }

  /** `FirstFault` is the index where the loop stops: every page before
      `i` converts, and `i` is the end of the range or a page that raises. */
  lemma {:induction false} FirstFaultIs(pages: seq<PdfPage>, lo: int, hi: int, i: int)
    requires lo <= i && (i <= hi || i == lo)
    requires forall j :: lo <= j < i ==> ExtractText(pages, j).Some?
    requires i >= hi || ExtractText(pages, i).None?
    ensures FirstFault(pages, lo, hi) == i
    decreases i - lo
  {
    if lo < i {
      assert ExtractText(pages, lo).Some?;
      FirstFaultIs(pages, lo + 1, hi, i);
    }
  }

  /** `folder` after the loop has written the pages with loop indices
      `lo` up to `hi` (exclusive), each as the encoding of its text. */
  function Written(folder: map<string, string>, pages: seq<PdfPage>, enc: string -> string,
                   lo: int, hi: int): map<string, string>
    requires forall j :: lo <= j < hi ==> ExtractText(pages, j).Some?
    decreases hi - lo
  {
    if hi <= lo then folder
    else Written(folder, pages, enc, lo, hi - 1)[ArtifactName(hi - 1) := enc(ExtractText(pages, hi - 1).value)]
  }

  /** The lock names `filename`, so the document is being resumed. */
  predicate LockNames(lock: Option<LockFile>, filename: string) {
    lock.Some? && lock.value.Record? && lock.value.file == Some(filename)
  }

  /** The page the loop starts from; None when reading it raises. */
  function StartPage(lock: Option<LockFile>, filename: string): (start: Option<int>)
    ensures start.None? <==> lock == Some(Malformed) || (LockNames(lock, filename) && lock.value.page.NotInt?)
    ensures LockNames(lock, filename) && lock.value.page.IntPage? ==> start == Some(lock.value.page.n)
    ensures start.Some? && start.value != 0 ==> LockNames(lock, filename) && lock.value.page == IntPage(start.value)
  {
    match lock
    case None => Some(0)
    case Some(Malformed) => None
    case Some(Record(file, page)) =>
      if file == Some(filename) then
        match page
        case Absent => Some(0)
        case IntPage(n) => Some(n)
        case NotInt => None
      else Some(0)
  }

  /** The skip guard: the subfolder exists and the lock does not name the
      file. (When the lock cannot be read, the guard raises instead.) */
  predicate Skips(s: State, filename: string) {
    Stem(filename) in s.folders && !LockNames(s.lock, filename)
  }

  /** The artifacts already in the document's subfolder, or none when the
      subfolder is about to be created. */
  function Existing(s: State, stem: string): map<string, string> {
    if stem in s.folders then s.folders[stem] else map[]
  }

  /** Replacing a subfolder twice keeps only the second replacement. */
  lemma ReplaceFolderTwice(folders: map<string, map<string, string>>, stem: string,
                           first: map<string, string>, second: map<string, string>)
    ensures folders[stem := first][stem := second] == folders[stem := second]
  {
  }

  /** Replacing a subfolder leaves every other subfolder as it was. */
  lemma ReplaceFolderElsewhere(folders: map<string, map<string, string>>, stem: string, folder: map<string, string>)
    ensures folders[stem := folder] - {stem} == folders - {stem}
  {
  }

  /** Every page the checkpoint claims from `start` on has its artifact:
      a lock `{file: filename, page: k}` means the pages with loop indices
      `start` up to `k` (exclusive) are in `folder`. */
  ghost predicate LockCovers(lock: Option<LockFile>, folder: map<string, string>, filename: string, start: int) {
    LockNames(lock, filename) && lock.value.page.IntPage? ==>
      ArtifactNames(start, lock.value.page.n) <= folder.Keys
  }

  datatype Step = Step(state: State, outcome: Outcome)

  /** One call `process_pdf(path)` against the durable state `s`, with the
      document at `path` read as `src` and page text encoded by `enc`:
      the skip guard, then the creation of the subfolder and `Convert`. */
  function Process(s: State, path: string, src: Source, enc: string -> string): Step {
    var filename := Basename(path);
    var stem := Stem(filename);
    if stem in s.folders && s.lock == Some(Malformed) then Step(s, Raised)
    else if Skips(s, filename) then Step(s, AlreadyProcessed)
    else Convert(s.(folders := s.folders[stem := Existing(s, stem)]), filename, stem, src, enc)
  }

  /** The `try` block of `process_pdf`, once the subfolder `stem` exists:
      open the document, read the resume point, run the page loop. */
  function Convert(s: State, filename: string, stem: string, src: Source, enc: string -> string): Step
    requires stem in s.folders
  {
    if src.Unreadable? then Step(s, Failed)
    else
      match StartPage(s.lock, filename)
      case None => Step(s, Failed)
      case Some(start) => RunPages(s, filename, stem, src.pages, enc, start)
  }

  /** The page loop from `start` and what follows it: on a failing page
      the exception is caught with the lock at the last completed page;
      otherwise the lock is removed and the file marked as processed. */
  function RunPages(s: State, filename: string, stem: string, pages: seq<PdfPage>, enc: string -> string,
                    start: int): Step
    requires stem in s.folders
  {
    var stop := FirstFault(pages, start, |pages|);
    var folders := s.folders[stem := Written(s.folders[stem], pages, enc, start, stop)];
    if stop < |pages| then
      Step(State(folders, if start < stop then Some(Record(Some(filename), IntPage(stop))) else s.lock, s.processed), Failed)
    else
      Step(State(folders, None, s.processed + [filename]), Completed)
  }

  // ----- The artifacts a run leaves -----

  /** The loop adds exactly the artifacts of its indices, each holding the
      encoding of its page, and leaves every other file as it was. */
  lemma {:induction false} WrittenContents(folder: map<string, string>, pages: seq<PdfPage>,
                                           enc: string -> string, lo: int, hi: int)
    requires forall j :: lo <= j < hi ==> ExtractText(pages, j).Some?
    ensures Written(folder, pages, enc, lo, hi).Keys == folder.Keys + ArtifactNames(lo, hi)
    ensures forall j :: lo <= j < hi ==>
      Written(folder, pages, enc, lo, hi)[ArtifactName(j)] == enc(ExtractText(pages, j).value)
    ensures forall k :: k in folder && k !in ArtifactNames(lo, hi) ==>
      Written(folder, pages, enc, lo, hi)[k] == folder[k]
    decreases hi - lo
  {
    if hi <= lo {
      assert ArtifactNames(lo, hi) == {};
    } else {
      WrittenContents(folder, pages, enc, lo, hi - 1);
      assert ArtifactNames(lo, hi) == ArtifactNames(lo, hi - 1) + {ArtifactName(hi - 1)};
      forall j | lo <= j < hi - 1
        ensures ArtifactName(j) != ArtifactName(hi - 1)
      {
        ArtifactNameInjective(j, hi - 1);
      }
    }
  }

  /** A longer range of pages has more artifact names. */
  lemma ArtifactNamesGrow(lo: int, hi: int, hi': int)
    requires hi <= hi'
    ensures ArtifactNames(lo, hi) <= ArtifactNames(lo, hi')
  {
  }

  /** The order of the two writes of one loop pass: with the artifact of
      page `i` written first, the checkpoint covers the artifacts both
      between the two writes (lock still at the old page) and after the
      lock moves to page `i + 1`. */
  lemma CoverageAfterPage(lock: Option<LockFile>, base: map<string, string>, pages: seq<PdfPage>,
                          enc: string -> string, filename: string, start: int, i: int)
    requires start <= i
    requires forall j :: start <= j <= i ==> ExtractText(pages, j).Some?
    requires LockCovers(lock, Written(base, pages, enc, start, i), filename, start)
    ensures LockCovers(lock, Written(base, pages, enc, start, i + 1), filename, start)
    ensures LockCovers(Some(Record(Some(filename), IntPage(i + 1))), Written(base, pages, enc, start, i + 1), filename, start)
  {
    WrittenContents(base, pages, enc, start, i);
    WrittenContents(base, pages, enc, start, i + 1);
    ArtifactNamesGrow(start, i, i + 1);
  }

  /** After the loop passes from `start` up to `i`, the lock (the last
      completed page, or its value before the loop when none completed)
      claims only pages whose artifacts were written. */
  lemma LoopLockCovers(lock0: Option<LockFile>, base: map<string, string>, pages: seq<PdfPage>,
                       enc: string -> string, filename: string, start: int, i: int)
    requires StartPage(lock0, filename) == Some(start)
    requires start <= i
    requires forall j :: start <= j < i ==> ExtractText(pages, j).Some?
    ensures LockCovers(if start < i then Some(Record(Some(filename), IntPage(i))) else lock0,
                       Written(base, pages, enc, start, i), filename, start)
  {
    WrittenContents(base, pages, enc, start, i);
    if i == start {
      assert ArtifactNames(start, start) == {};
    }
  }

  /** The opposite order would not be safe: a lock moved to page `i + 1`
      before the artifact of page `i` is written claims a page that is not
      in the folder. */
  lemma LockFirstWouldClaimMissingPage(base: map<string, string>, pages: seq<PdfPage>,
                                       enc: string -> string, filename: string, start: int, i: int)
    requires start <= i
    requires forall j :: start <= j < i ==> ExtractText(pages, j).Some?
    requires ArtifactName(i) !in base
    ensures !LockCovers(Some(Record(Some(filename), IntPage(i + 1))), Written(base, pages, enc, start, i), filename, start)
  {
    WrittenContents(base, pages, enc, start, i);
    ArtifactNameInjective(i, i);
    assert ArtifactName(i) in ArtifactNames(start, i + 1);
    forall j | start <= j < i ensures ArtifactName(j) != ArtifactName(i) {
      ArtifactNameInjective(j, i);
    }
  }

  /** Writing `lo` up to `m` and then `m` up to `hi` is writing `lo` up to `hi`. */
  lemma {:induction false} WrittenSplit(folder: map<string, string>, pages: seq<PdfPage>,
                                        enc: string -> string, lo: int, m: int, hi: int)
    requires lo <= m <= hi
    requires forall j :: lo <= j < hi ==> ExtractText(pages, j).Some?
    ensures Written(Written(folder, pages, enc, lo, m), pages, enc, m, hi) == Written(folder, pages, enc, lo, hi)
    decreases hi - m
  {
    if m < hi {
      WrittenSplit(folder, pages, enc, lo, m, hi - 1);
    }
  }

  /** Writing again pages that are already written, with the same
      contents, changes nothing. */
  lemma WrittenRewrite(folder: map<string, string>, pages: seq<PdfPage>,
                       enc: string -> string, lo: int, k: int, m: int)
    requires lo <= k <= m
    requires forall j :: lo <= j < m ==> ExtractText(pages, j).Some?
    ensures Written(Written(folder, pages, enc, lo, m), pages, enc, k, m) == Written(folder, pages, enc, lo, m)
  {
    var w := Written(folder, pages, enc, lo, m);
    var again := Written(w, pages, enc, k, m);
    WrittenContents(folder, pages, enc, lo, m);
    WrittenContents(w, pages, enc, k, m);
    assert ArtifactNames(k, m) <= ArtifactNames(lo, m);
    forall name | name in w
      ensures again[name] == w[name]
    {
      if name in ArtifactNames(k, m) {
        var j :| k <= j < m && name == ArtifactName(j);
        assert again[name] == enc(ExtractText(pages, j).value);
      }
    }
  }

  /** Resuming from any page `k` up to the last page `m` already written
      gives the same folder as writing each page once: pages written
      twice get the same contents. */
  lemma WrittenResume(folder: map<string, string>, pages: seq<PdfPage>,
                      enc: string -> string, lo: int, k: int, m: int, hi: int)
    requires lo <= k <= m <= hi
    requires forall j :: lo <= j < hi ==> ExtractText(pages, j).Some?
    ensures Written(Written(folder, pages, enc, lo, m), pages, enc, k, hi) == Written(folder, pages, enc, lo, hi)
  {
    var w := Written(folder, pages, enc, lo, m);
    WrittenSplit(w, pages, enc, k, m, hi);
    WrittenRewrite(folder, pages, enc, lo, k, m);
    WrittenSplit(folder, pages, enc, lo, m, hi);
  }

  // ----- Properties of one call -----

  /** The skip guard: when the subfolder exists and the lock is absent or
      names another file, the call changes neither the folders, nor the
      lock, nor the processed log. */
  lemma SkipLeavesStateUnchanged(s: State, path: string, src: Source, enc: string -> string)
    requires Skips(s, Basename(path))
    ensures Process(s, path, src, enc).state == s
    ensures Process(s, path, src, enc).outcome == if s.lock == Some(Malformed) then Raised else AlreadyProcessed
  {
  }

  /** A call that is not skipped ends in Completed or Failed and leaves the
      document's subfolder in place; other subfolders are not touched. */
  lemma NotSkippedCreatesFolder(s: State, path: string, src: Source, enc: string -> string)
    requires !Skips(s, Basename(path))
    ensures var r := Process(s, path, src, enc);
      && r.outcome in {Completed, Failed}
      && Stem(Basename(path)) in r.state.folders
      && r.state.folders - {Stem(Basename(path))} == s.folders - {Stem(Basename(path))}
  {
    var filename := Basename(path);
    var stem := Stem(filename);
    var r := Process(s, path, src, enc);
    var created := s.(folders := s.folders[stem := Existing(s, stem)]);
    if src.Document? && StartPage(s.lock, filename).Some? {
      var start := StartPage(s.lock, filename).value;
      var w := Written(Existing(s, stem), src.pages, enc, start, FirstFault(src.pages, start, |src.pages|));
      ProcessEntersLoop(s, path, src.pages, enc, start);
      assert r.state.folders == created.folders[stem := w];
      ReplaceFolderTwice(s.folders, stem, Existing(s, stem), w);
      ReplaceFolderElsewhere(s.folders, stem, w);
    } else {
      assert r == Step(created, Failed);
      ReplaceFolderElsewhere(s.folders, stem, Existing(s, stem));
    }
  }

  /** Which pages get an artifact: exactly the loop indices from the
      resume point up to the first page that raises (all pages from the
      resume point when none does); every other file of the subfolder is
      unchanged, and a resume point at or beyond the last page writes
      nothing. */
  lemma RunWritesResumeRange(s: State, path: string, pages: seq<PdfPage>, enc: string -> string, start: int)
    requires !Skips(s, Basename(path))
    requires StartPage(s.lock, Basename(path)) == Some(start)
    ensures var stem := Stem(Basename(path));
      var stop := FirstFault(pages, start, |pages|);
      var folder := Existing(s, stem);
      var after := Process(s, path, Document(pages), enc).state.folders[stem];
      && after.Keys == folder.Keys + ArtifactNames(start, stop)
      && (forall j :: start <= j < stop ==> after[ArtifactName(j)] == enc(ExtractText(pages, j).value))
      && (forall k :: k in folder && k !in ArtifactNames(start, stop) ==> after[k] == folder[k])
      && (start >= |pages| ==> after == folder)
  {
    var filename := Basename(path);
    var stem := Stem(filename);
    var created := s.(folders := s.folders[stem := Existing(s, stem)]);
    assert Process(s, path, Document(pages), enc) == RunPages(created, filename, stem, pages, enc, start);
    var stop := FirstFault(pages, start, |pages|);
    WrittenContents(Existing(s, stem), pages, enc, start, stop);
  }

  /** The checkpoint never runs ahead of the artifacts: whenever the lock
      after the call reads `{file: filename, page: k}`, the artifacts for the
      loop indices from the resume point up to `k` exist. */
  lemma LockCoversAfterRun(s: State, path: string, src: Source, enc: string -> string, start: int)
    requires StartPage(s.lock, Basename(path)) == Some(start)
    ensures var r := Process(s, path, src, enc).state;
      var stem := Stem(Basename(path));
      LockNames(r.lock, Basename(path)) ==> stem in r.folders && LockCovers(r.lock, r.folders[stem], Basename(path), start)
  {
    var filename := Basename(path);
    var stem := Stem(filename);
    if !Skips(s, filename) && src.Document? {
      var stop := FirstFault(src.pages, start, |src.pages|);
      WrittenContents(Existing(s, stem), src.pages, enc, start, stop);
    }
  }

  /** Completion: the call completes exactly when no page from the resume
      point on raises; it then removes the lock, appends exactly one entry,
      the full file name, to the processed log, and every page from the
      resume point has its artifact. Every other outcome leaves the log as
      it was. */
  lemma CompletionCommits(s: State, path: string, src: Source, enc: string -> string)
    ensures var r := Process(s, path, src, enc);
      var filename := Basename(path);
      && (r.outcome == Completed <==>
            && !Skips(s, filename) && src.Document?
            && StartPage(s.lock, filename).Some?
            && FirstFault(src.pages, StartPage(s.lock, filename).value, |src.pages|) >= |src.pages|)
      && (r.outcome == Completed ==>
            && r.state.lock == None
            && r.state.processed == s.processed + [filename]
            && forall j :: StartPage(s.lock, filename).value <= j < |src.pages| ==>
                 ArtifactName(j) in r.state.folders[Stem(filename)])
      && (r.outcome != Completed ==> r.state.processed == s.processed)
  {
    var filename := Basename(path);
    var stem := Stem(filename);
    if !Skips(s, filename) && src.Document? && StartPage(s.lock, filename).Some? {
      var start := StartPage(s.lock, filename).value;
      var stop := FirstFault(src.pages, start, |src.pages|);
      var created := s.(folders := s.folders[stem := Existing(s, stem)]);
      ProcessEntersLoop(s, path, src.pages, enc, start);
      assert Process(s, path, src, enc) == RunPages(created, filename, stem, src.pages, enc, start);
      WrittenContents(Existing(s, stem), src.pages, enc, start, stop);
    }
  }

  /** Failure inside the `try`: the exception is caught, the subfolder and
      the artifacts written before the failing page stay, the lock holds
      the last completed page (or its value before the call when no page
      completed), and nothing is recorded as processed. */
  lemma FailureKeepsPartialWork(s: State, path: string, pages: seq<PdfPage>, enc: string -> string, start: int)
    requires !Skips(s, Basename(path))
    requires StartPage(s.lock, Basename(path)) == Some(start)
    requires FirstFault(pages, start, |pages|) < |pages|
    ensures var r := Process(s, path, Document(pages), enc);
      var filename := Basename(path);
      var stop := FirstFault(pages, start, |pages|);
      && r.outcome == Failed
      && r.state.processed == s.processed
      && Stem(filename) in r.state.folders
      && (forall k :: k in Existing(s, Stem(filename)) ==> k in r.state.folders[Stem(filename)])
      && (forall j :: start <= j < stop ==> ArtifactName(j) in r.state.folders[Stem(filename)])
      && r.state.lock == if start < stop then Some(Record(Some(filename), IntPage(stop))) else s.lock
  {
    var stop := FirstFault(pages, start, |pages|);
    WrittenContents(Existing(s, Stem(Basename(path))), pages, enc, start, stop);
  }

  // ----- The checkpoint across calls -----

  /** The checkpoint claims no missing page: a lock `{file: f, page: k}`
      has the artifacts of the pages with indices 0 up to `k` in the
      subfolder of `f`. */
  ghost predicate Covered(s: State) {
    s.lock.Some? && s.lock.value.Record? && s.lock.value.file.Some? && s.lock.value.page.IntPage? ==>
      && Stem(s.lock.value.file.value) in s.folders
      && ArtifactNames(0, s.lock.value.page.n) <= s.folders[Stem(s.lock.value.file.value)].Keys
  }

  /** Adding subfolders or files keeps the checkpoint covered; in particular
      the crash point between an artifact and its lock update is covered. */
  lemma CoveredAfterGrowth(s: State, t: State)
    requires Covered(s)
    requires t.lock == s.lock
    requires forall x :: x in s.folders ==> x in t.folders && s.folders[x].Keys <= t.folders[x].Keys
    ensures Covered(t)
  {
  }

  /** The page loop, started at a resume point that a covered state
      allows, leaves a covered state. */
  lemma RunPagesKeepsCoverage(s: State, created: State, filename: string, stem: string,
                              pages: seq<PdfPage>, enc: string -> string, start: int)
    requires Covered(s) && stem == Stem(filename)
    requires StartPage(s.lock, filename) == Some(start)
    requires created == s.(folders := s.folders[stem := Existing(s, stem)])
    ensures Covered(RunPages(created, filename, stem, pages, enc, start).state)
  {
    var stop := FirstFault(pages, start, |pages|);
    var w := Written(Existing(s, stem), pages, enc, start, stop);
    var t := RunPages(created, filename, stem, pages, enc, start).state;
    WrittenContents(Existing(s, stem), pages, enc, start, stop);
    assert t.folders == created.folders[stem := w];
    if stop < |pages| && start < stop {
      assert t.lock == Some(Record(Some(filename), IntPage(stop)));
      forall name | name in ArtifactNames(0, stop)
        ensures name in w
      {
        var j :| 0 <= j < stop && name == ArtifactName(j);
        if j < start {
          assert LockNames(s.lock, filename) && s.lock.value.page == IntPage(start);
          assert name in ArtifactNames(0, start);
        } else {
          assert name in ArtifactNames(start, stop);
        }
      }
    } else if stop < |pages| {
      assert t.lock == s.lock;
      CoveredAfterGrowth(s, t);
    }
  }

  /** Coverage is an invariant of the watcher: a call that starts from a
      state whose lock claims only written pages leaves such a state, so
      the lock never claims a page without its artifact, counted from
      page 0, whatever documents arrive in between. */
  lemma ProcessKeepsCoverage(s: State, path: string, src: Source, enc: string -> string)
    requires Covered(s)
    ensures Covered(Process(s, path, src, enc).state)
  {
    var filename := Basename(path);
    var stem := Stem(filename);
    if !(stem in s.folders && s.lock == Some(Malformed)) && !Skips(s, filename) {
      var created := s.(folders := s.folders[stem := Existing(s, stem)]);
      CoveredAfterGrowth(s, created);
      if src.Document? && StartPage(s.lock, filename).Some? {
        var start := StartPage(s.lock, filename).value;
        ProcessEntersLoop(s, path, src.pages, enc, start);
        RunPagesKeepsCoverage(s, created, filename, stem, src.pages, enc, start);
      } else {
        assert Process(s, path, src, enc).state == created;
      }
    }
  }

  // ----- Properties of several calls -----

  /** A call that is not skipped and finds a usable resume point runs the
      page loop from it over the (possibly new) subfolder. */
  lemma ProcessEntersLoop(s: State, path: string, pages: seq<PdfPage>, enc: string -> string, start: int)
    requires !Skips(s, Basename(path))
    requires StartPage(s.lock, Basename(path)) == Some(start)
    ensures var stem := Stem(Basename(path));
      Process(s, path, Document(pages), enc)
        == RunPages(s.(folders := s.folders[stem := Existing(s, stem)]), Basename(path), stem, pages, enc, start)
  {
  }

  /** The page loop resumed from page `k` over a subfolder that holds the
      first `m >= k` pages completes with every page written once. */
  lemma ResumedLoopCompletes(t: State, filename: string, stem: string, pages: seq<PdfPage>,
                             enc: string -> string, k: int, m: int)
    requires 0 <= k <= m <= |pages|
    requires forall j :: 0 <= j < |pages| ==> ExtractText(pages, j).Some?
    requires stem in t.folders && t.folders[stem] == Written(map[], pages, enc, 0, m)
    ensures RunPages(t, filename, stem, pages, enc, k)
         == Step(State(t.folders[stem := Written(map[], pages, enc, 0, |pages|)], None, t.processed + [filename]), Completed)
  {
    FirstFaultIs(pages, k, |pages|, |pages|);
    WrittenResume(map[], pages, enc, 0, k, m, |pages|);
  }

  /** A call whose lock names the file at page `k` and whose subfolder
      exists runs the page loop from `k` over that subfolder. */
  lemma ProcessResumesAt(t: State, path: string, pages: seq<PdfPage>, enc: string -> string, k: int)
    requires Stem(Basename(path)) in t.folders
    requires t.lock == Some(Record(Some(Basename(path)), IntPage(k)))
    ensures Process(t, path, Document(pages), enc) == RunPages(t, Basename(path), Stem(Basename(path)), pages, enc, k)
  {
    var stem := Stem(Basename(path));
    ProcessEntersLoop(t, path, pages, enc, k);
    assert t.folders[stem := Existing(t, stem)] == t.folders;
  }

  /** A first call on a document whose pages all convert completes with
      every page written into a new subfolder. */
  lemma FreshRunCompletes(s: State, path: string, pages: seq<PdfPage>, enc: string -> string)
    requires forall j :: 0 <= j < |pages| ==> ExtractText(pages, j).Some?
    requires Stem(Basename(path)) !in s.folders && s.lock == None
    ensures Process(s, path, Document(pages), enc)
         == Step(State(s.folders[Stem(Basename(path)) := Written(map[], pages, enc, 0, |pages|)],
                       None, s.processed + [Basename(path)]), Completed)
  {
    var filename := Basename(path);
    var stem := Stem(filename);
    var created := s.(folders := s.folders[stem := map[]]);
    ProcessEntersLoop(s, path, pages, enc, 0);
    ResumedLoopCompletes(created, filename, stem, pages, enc, 0, 0);
    ReplaceFolderTwice(s.folders, stem, map[], Written(map[], pages, enc, 0, |pages|));
  }

  /** A call that finds the document interrupted after `k` pages, with the
      artifacts of the first `m >= k` pages in place, completes with every
      page written. */
  lemma InterruptedRunCompletes(s: State, path: string, pages: seq<PdfPage>, enc: string -> string, k: int, m: int)
    requires 0 <= k <= m <= |pages|
    requires forall j :: 0 <= j < |pages| ==> ExtractText(pages, j).Some?
    ensures var filename := Basename(path);
      var stem := Stem(filename);
      Process(State(s.folders[stem := Written(map[], pages, enc, 0, m)], Some(Record(Some(filename), IntPage(k))), s.processed),
              path, Document(pages), enc)
        == Step(State(s.folders[stem := Written(map[], pages, enc, 0, |pages|)], None, s.processed + [filename]), Completed)
  {
    var filename := Basename(path);
    var stem := Stem(filename);
    var interrupted := State(s.folders[stem := Written(map[], pages, enc, 0, m)],
                             Some(Record(Some(filename), IntPage(k))), s.processed);
    ProcessResumesAt(interrupted, path, pages, enc, k);
    ResumedLoopCompletes(interrupted, filename, stem, pages, enc, k, m);
    ReplaceFolderTwice(s.folders, stem, Written(map[], pages, enc, 0, m), Written(map[], pages, enc, 0, |pages|));
  }

  /** Resume: a first run that was interrupted after `k >= 1` pages, leaving
      the artifacts of the first `m` pages (`m` may be `k + 1` when the
      interruption fell between an artifact and its lock update) and the
      lock at page `k`, is resumed from page `k` and ends with the same
      output as a run that was never interrupted. (An interruption before
      the first lock write strands the document instead:
      `CrashBeforeFirstLockStrandsDocument`.) */
  lemma ResumeMatchesUninterruptedRun(s: State, path: string, pages: seq<PdfPage>, enc: string -> string, k: int, m: int)
    requires 1 <= k <= m <= |pages|
    requires forall j :: 0 <= j < |pages| ==> ExtractText(pages, j).Some?
    requires Stem(Basename(path)) !in s.folders && s.lock == None
    ensures var filename := Basename(path);
      var stem := Stem(filename);
      var interrupted := State(s.folders[stem := Written(map[], pages, enc, 0, m)],
                               Some(Record(Some(filename), IntPage(k))), s.processed);
      var resumed := Process(interrupted, path, Document(pages), enc);
      var uninterrupted := Process(s, path, Document(pages), enc);
      && uninterrupted.outcome == Completed && resumed.outcome == Completed
      && resumed.state == uninterrupted.state
  {
    FreshRunCompletes(s, path, pages, enc);
    InterruptedRunCompletes(s, path, pages, enc, k, m);
  }

  /** After a completed call, another call for the same path is skipped:
      the document is not processed twice. */
  lemma CompletedIsSkippedAfterwards(s: State, path: string, src: Source, src2: Source, enc: string -> string)
    requires Process(s, path, src, enc).outcome == Completed
    ensures var after := Process(s, path, src, enc).state;
      Process(after, path, src2, enc) == Step(after, AlreadyProcessed)
  {
  }

  /** A call that fails before its first page completes, on a document
      first seen without a lock, leaves the subfolder but no lock that
      names the file; every later call for it is then skipped, so it is
      never converted and never marked as processed. */
  lemma EarlyFailureStrandsDocument(s: State, path: string, src: Source, src2: Source, enc: string -> string)
    requires Stem(Basename(path)) !in s.folders && s.lock == None
    requires src.Unreadable? || (|src.pages| > 0 && ExtractText(src.pages, 0).None?)
    ensures var first := Process(s, path, src, enc);
      && first.outcome == Failed
      && first.state.processed == s.processed
      && Process(first.state, path, src2, enc) == Step(first.state, AlreadyProcessed)
  {
    var first := Process(s, path, src, enc);
    if src.Document? {
      ProcessEntersLoop(s, path, src.pages, enc, 0);
      FirstFaultIs(src.pages, 0, |src.pages|, 0);
    }
    assert first.state.lock == None && Stem(Basename(path)) in first.state.folders;
    SkipLeavesStateUnchanged(first.state, path, src2, enc);
  }

  /** A first run that crashes between the artifact of its first page and
      the first lock write leaves the subfolder with that artifact but no
      lock naming the file; every later call for it is then skipped. */
  lemma CrashBeforeFirstLockStrandsDocument(s: State, path: string, pages: seq<PdfPage>, src2: Source,
                                            enc: string -> string)
    requires Stem(Basename(path)) !in s.folders && s.lock == None
    requires |pages| > 0 && ExtractText(pages, 0).Some?
    ensures var crash := State(s.folders[Stem(Basename(path)) := Written(map[], pages, enc, 0, 1)], None, s.processed);
      && ArtifactName(0) in crash.folders[Stem(Basename(path))]
      && Process(crash, path, src2, enc) == Step(crash, AlreadyProcessed)
  {
  }

  /** The lock is shared by all documents: a call for another document
      that writes a page or completes replaces the lock of an interrupted
      document, and a later call for the interrupted one, whose subfolder
      exists, is then skipped, leaving its remaining pages unwritten. */
  lemma OtherDocumentStrandsInterrupted(s: State, path: string, other: string, pages: seq<PdfPage>,
                                        src2: Source, enc: string -> string)
    requires Basename(path) != Basename(other)
    requires Stem(Basename(path)) in s.folders && LockNames(s.lock, Basename(path))
    requires forall j :: 0 <= j < |pages| ==> ExtractText(pages, j).Some?
    requires !Skips(s, Basename(other))
    ensures var mid := Process(s, other, Document(pages), enc).state;
      && !LockNames(mid.lock, Basename(path))
      && Process(mid, path, src2, enc) == Step(mid, AlreadyProcessed)
  {
    var filename := Basename(other);
    var stem := Stem(filename);
    FirstFaultIs(pages, 0, |pages|, |pages|);
    var created := s.(folders := s.folders[stem := Existing(s, stem)]);
    assert Process(s, other, Document(pages), enc) == RunPages(created, filename, stem, pages, enc, 0);
  }
}
