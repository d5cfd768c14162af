/** The durable state that `process_pdf` reads and writes, as values. */
module Durable {

  datatype Option<T> = None | Some(value: T)

  /** The value stored under "page" in the lock record. */
  datatype PageField =
    | Absent          // no "page" key: `lock.get("page", 0)` gives 0
    | IntPage(n: int) // an integer
    | NotInt          // any other JSON value: `range` rejects it

  /** The contents of `books_processed/lock.json`. */
  datatype LockFile =
    | Malformed  // not JSON, or JSON that is not an object: reading it raises
    | Record(file: Option<string>, page: PageField)  // `file` is None when the key is absent or not a string

  /** Everything that outlives one call of `process_pdf`:
      - `folders`: the subfolders of `books_processed`, each a map from
        artifact file name to its contents;
      - `lock`: the lock file, when it exists;
      - `processed`: the arguments of the `mark_as_processed` calls so far. */
  datatype State = State(
    folders: map<string, map<string, string>>,
    lock: Option<LockFile>,
    processed: seq<string>)

  /** How a call of `process_pdf` ended. */
  datatype Outcome =
    | AlreadyProcessed  // the skip guard returned early
    | Raised            // the skip guard raised while reading the lock (outside the `try`)
    | Failed            // an exception inside the `try` was caught
    | Completed         // every page written, lock removed, document marked
}
