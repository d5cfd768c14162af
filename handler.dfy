/** The running watcher: the output folder and the lock file that
    `process_pdf` changes step by step, and the handler that the directory
    observer calls when a file appears. */
module Handler {
  import opened Naming
  import opened Durable
  import opened ProcessPdf

  /** A creation event from the directory observer. */
  datatype FileEvent = FileEvent(isDirectory: bool, srcPath: string)

  /** `on_created` hands an event to `process_pdf` exactly when it is not a
      directory and its path ends in ".pdf", ignoring case. */
  predicate Handles(event: FileEvent) {
    !event.isDirectory && IsPdfPath(event.srcPath)
  }

  lemma HandlesExactlyPdfFiles(event: FileEvent)
    ensures Handles(event) <==>
      && !event.isDirectory
      && |event.srcPath| >= 4
      && event.srcPath[|event.srcPath| - 4..] in {".pdf", ".PDF", ".Pdf", ".pDf", ".pdF", ".PDf", ".PdF", ".pDF"}
  {
    var p := event.srcPath;
    IsPdfPathByCharacters(p);
    if |p| >= 4 {
      var t := p[|p| - 4..];
      assert t == [p[|p| - 4], p[|p| - 3], p[|p| - 2], p[|p| - 1]];
    }
  }

  /** The durable state of the watcher: the subfolders of `books_processed`
      with their artifacts, the lock file `books_processed/lock.json`, and
      (as a ghost log) every `mark_as_processed` call made so far. */
  class Workspace {
    var folders: map<string, map<string, string>>
    var lock: Option<LockFile>
    ghost var processed: seq<string>

    ghost function Snapshot(): State
      reads this
    {
      State(folders, lock, processed)
    }

    /** The watcher starts on whatever the output folder already holds. */
    constructor (folders: map<string, map<string, string>>, lock: Option<LockFile>)
      ensures Snapshot() == State(folders, lock, [])
    {
      this.folders := folders;
      this.lock := lock;
      this.processed := [];
    }

    /** `process_pdf(path)`, with the document at `path` read as `src` and
        each page's text encoded by `enc`. The outcome says which way the
        call ended; the new state is the one `Process` gives. */
    method ProcessPdf(path: string, src: Source, enc: string -> string) returns (outcome: Outcome)
      modifies this
      ensures Snapshot() == Process(old(Snapshot()), path, src, enc).state
      ensures outcome == Process(old(Snapshot()), path, src, enc).outcome
    {
      ghost var s0 := Snapshot();
      var filename := Basename(path);
      var pdfName := Stem(filename);

      // Already processed?
      if pdfName in folders {
        if lock == None {
          return AlreadyProcessed;
        }
        match lock.value
        case Malformed =>
          return Raised;
        case Record(file, _) =>
          if file != Some(filename) {
            return AlreadyProcessed;
          }
      }

      if pdfName !in folders {
        folders := folders[pdfName := map[]];
      }
      assert !Skips(s0, filename) && !(pdfName in s0.folders && s0.lock == Some(Malformed));
      assert Snapshot() == s0.(folders := s0.folders[pdfName := Existing(s0, pdfName)]);
      outcome := ConvertPdf(filename, pdfName, src, enc);
    }

    /** The `try` block of `process_pdf`: open the document, read the resume
        point from the lock, write the pages, then remove the lock and mark
        the file as processed. Any exception ends it with Failed. */
    method ConvertPdf(filename: string, pdfName: string, src: Source, enc: string -> string) returns (outcome: Outcome)
      requires pdfName in folders
      modifies this
      ensures Snapshot() == Convert(old(Snapshot()), filename, pdfName, src, enc).state
      ensures outcome == Convert(old(Snapshot()), filename, pdfName, src, enc).outcome
    {
      if src.Unreadable? {
        return Failed;
      }
      var pages := src.pages;

      // Resume from the lock if it names this file.
      var startPage := 0;
      if lock.Some? {
        match lock.value
        case Malformed =>
          return Failed;
        case Record(file, page) =>
          if file == Some(filename) {
            match page
            case Absent =>
              startPage := 0;
            case IntPage(n) =>
              startPage := n;
            case NotInt =>
              return Failed;
          }
      }

      var completed := WritePages(filename, pdfName, pages, enc, startPage);
      if !completed {
        return Failed;
      }

      // Finished: remove the lock and record the document.
      if lock.Some? {
        lock := None;
      }
      processed := processed + [filename];
      return Completed;
    }

    /** The page loop `for i in range(startPage, len(pages))` of
        `process_pdf`: each page's artifact is written into the subfolder
        `pdfName`, then the lock is overwritten with the page just
        completed. It stops at the first page that raises (`completed` is
        then false). */
    method WritePages(filename: string, pdfName: string, pages: seq<PdfPage>, enc: string -> string,
                      startPage: int) returns (completed: bool)
      requires pdfName in folders
      requires StartPage(lock, filename) == Some(startPage)
      modifies this
      ensures var stop := FirstFault(pages, startPage, |pages|);
        && completed == (stop >= |pages|)
        && folders == old(folders)[pdfName := Written(old(folders)[pdfName], pages, enc, startPage, stop)]
        && lock == (if startPage < stop then Some(Record(Some(filename), IntPage(stop))) else old(lock))
        && processed == old(processed)
      ensures LockCovers(lock, folders[pdfName], filename, startPage)
    {
      var totalPages := |pages|;
      var i := startPage;
      while i < totalPages
        invariant startPage <= i && (i <= totalPages || i == startPage)
        invariant forall j :: startPage <= j < i ==> ExtractText(pages, j).Some?
        invariant folders == old(folders)[pdfName := Written(old(folders)[pdfName], pages, enc, startPage, i)]
        invariant lock == if startPage < i then Some(Record(Some(filename), IntPage(i))) else old(lock)
        invariant processed == old(processed)
        decreases totalPages - i
      {
        var text := ExtractText(pages, i);
        LoopLockCovers(old(lock), old(folders)[pdfName], pages, enc, filename, startPage, i);
        if text.None? {
          FirstFaultIs(pages, startPage, totalPages, i);
          return false;
        }
        CoverageAfterPage(lock, old(folders)[pdfName], pages, enc, filename, startPage, i);
        ghost var next := Written(old(folders)[pdfName], pages, enc, startPage, i + 1);
        assert next == folders[pdfName][ArtifactName(i) := enc(text.value)];
        ReplaceFolderTwice(old(folders), pdfName, Written(old(folders)[pdfName], pages, enc, startPage, i), next);
        // A crash inside this pass, after the artifact of page i is written
        // and before the lock moves, leaves a state that is still covered.
        assert LockCovers(lock, next, filename, startPage);
        WritePage(filename, pdfName, i, enc(text.value));
        i := i + 1;
      }
      FirstFaultIs(pages, startPage, totalPages, i);
      LoopLockCovers(old(lock), old(folders)[pdfName], pages, enc, filename, startPage, i);
      return true;
    }

    /** One pass of the page loop: write the artifact of page `i` into the
        subfolder `pdfName`, then overwrite the lock with page `i + 1`. */
    method WritePage(filename: string, pdfName: string, i: int, contents: string)
      requires pdfName in folders
      modifies this
      ensures folders == old(folders)[pdfName := old(folders)[pdfName][ArtifactName(i) := contents]]
      ensures lock == Some(Record(Some(filename), IntPage(i + 1)))
      ensures processed == old(processed)
    {
      var outputFilename := ArtifactName(i);
      folders := folders[pdfName := folders[pdfName][outputFilename := contents]];
      lock := Some(Record(Some(filename), IntPage(i + 1)));
    }

    /** `PDFHandler.on_created`: None when the event is filtered out,
        otherwise the outcome of `process_pdf` on its path. Either way a
        lock that claimed only written pages still does. */
    method OnCreated(event: FileEvent, src: Source, enc: string -> string) returns (handled: Option<Outcome>)
      modifies this
      ensures !Handles(event) ==> handled == None && Snapshot() == old(Snapshot())
      ensures Handles(event) ==>
        && handled == Some(Process(old(Snapshot()), event.srcPath, src, enc).outcome)
        && Snapshot() == Process(old(Snapshot()), event.srcPath, src, enc).state
      ensures Covered(old(Snapshot())) ==> Covered(Snapshot())
    {
      if !event.isDirectory && EndsWith(Lower(event.srcPath), ".pdf") {
        var outcome := ProcessPdf(event.srcPath, src, enc);
        if Covered(old(Snapshot())) {
          ProcessKeepsCoverage(old(Snapshot()), event.srcPath, src, enc);
        }
        handled := Some(outcome);
      } else {
        handled := None;
      }
    }
  }
}
