/** Pure name computations of the watcher: the file name and stem of an
    incoming path, the name of a page's artifact, and the `.pdf` filter
    of the directory-event handler. Paths are POSIX paths ('/' separates
    components). */
module Naming {

  /** Index of the last occurrence of `c` in `s`, or -1 when there is none
      (the behaviour of Python's `str.rfind`). */
  function LastIndexOf(s: string, c: char): (r: int)
    ensures -1 <= r < |s|
    ensures r >= 0 ==> s[r] == c
    ensures forall j :: r < j < |s| ==> s[j] != c
  {
    if s == [] then -1
    else if s[|s| - 1] == c then |s| - 1
    else LastIndexOf(s[..|s| - 1], c)
  }

  /** `os.path.basename`: everything after the last '/'. The result is the
      longest suffix of `path` that holds no '/'. */
  function Basename(path: string): (name: string)
    ensures forall j :: 0 <= j < |name| ==> name[j] != '/'
    ensures |name| <= |path| && name == path[|path| - |name|..]
    ensures |name| < |path| ==> path[|path| - |name| - 1] == '/'
  {
    path[LastIndexOf(path, '/') + 1..]
  }

  predicate AllDots(s: string) {
    forall j :: 0 <= j < |s| ==> s[j] == '.'
  }

  /** `d` is the dot at which `os.path.splitext` cuts `name`: the last dot,
      provided some character before it is not a dot (leading dots belong
      to the stem). */
  ghost predicate SplitsAt(name: string, d: int) {
    && 0 <= d < |name| && name[d] == '.'
    && (forall j :: d < j < |name| ==> name[j] != '.')
    && !AllDots(name[..d])
  }

  /** `os.path.splitext(name)[0]` for a name without '/': the name without
      its extension. */
  function Stem(name: string): (stem: string)
    ensures |stem| <= |name| && stem == name[..|stem|]
    ensures |stem| < |name| ==> SplitsAt(name, |stem|)
    ensures |stem| == |name| ==> forall d :: 0 <= d < |name| ==> !SplitsAt(name, d)
  {
    var d := LastIndexOf(name, '.');
    if d >= 0 && !AllDots(name[..d]) then name[..d] else name
  }

  /** The decimal digit for `d`. */
  function DigitChar(d: int): char
    requires 0 <= d < 10
  {
    (48 + d) as char
  }

  predicate IsDigit(c: char) {
    '0' <= c <= '9'
  }

  /** Decimal representation of a natural number, without leading zeros. */
  function Digits(n: nat): (s: string)
    ensures |s| >= 1
    ensures forall i :: 0 <= i < |s| ==> IsDigit(s[i])
    ensures n >= 10 ==> |s| >= 2
  {
    if n < 10 then [DigitChar(n)] else Digits(n / 10) + [DigitChar(n % 10)]
  }

  /** The value of a string of decimal digits. */
  function DigitsValue(s: string): int {
    if s == [] then 0 else DigitsValue(s[..|s| - 1]) * 10 + (s[|s| - 1] as int - 48)
  }

  /** Python's `f"{n:02d}"`: the decimal form of `n` zero-padded to at least
      two characters. A negative number already has two characters
      ("-1"), so it is never padded. */
  function Pad2(n: int): (s: string)
    ensures |s| >= 2
  {
    if n < 0 then "-" + Digits(-n)
    else if n < 10 then "0" + Digits(n)
    else Digits(n)
  }

  /** Reads back a string produced by `Pad2`. */
  function ParsePadded(s: string): int {
    if |s| > 0 && s[0] == '-' then -DigitsValue(s[1..]) else DigitsValue(s)
  }

  lemma {:induction false} DigitsRoundTrip(n: nat)
    ensures DigitsValue(Digits(n)) == n
  {
    if n >= 10 {
      DigitsRoundTrip(n / 10);
      var s := Digits(n);
      assert s[..|s| - 1] == Digits(n / 10);
    }
  }

  /** `Pad2` loses no information: its output reads back as its input. */
  lemma {:induction false} PadRoundTrip(n: int)
    ensures ParsePadded(Pad2(n)) == n
  {
    var s := Pad2(n);
    if n < 0 {
      DigitsRoundTrip(-n);
      assert s[0] == '-' && s[1..] == Digits(-n);
    } else if n < 10 {
      assert s == ['0', DigitChar(n)];
      assert s[..1] == ['0'];
      assert DigitsValue(s[..1]) == 0;
      assert DigitsValue(s) == DigitsValue(s[..1]) * 10 + (s[1] as int - 48);
    } else {
      DigitsRoundTrip(n);
      assert s == Digits(n) && s[0] != '-';
    }
  }

  /** The file that holds the encoded text of the page with 0-based
      index `i`: "content_", the 1-based page number formatted as
      `Pad2`, and ".txt". */
  function ArtifactName(i: int): string {
    "content_" + Pad2(i + 1) + ".txt"
  }

  /** The 0-based page index that an artifact name stands for. */
  function ArtifactIndex(name: string): int
    requires |name| >= 12
  {
    ParsePadded(name[8..|name| - 4]) - 1
  }

  lemma ArtifactRoundTrip(i: int)
    ensures |ArtifactName(i)| >= 12 && ArtifactIndex(ArtifactName(i)) == i
  {
    var name := ArtifactName(i);
    assert name[8..|name| - 4] == Pad2(i + 1);
    PadRoundTrip(i + 1);
  }

  /** Distinct page indices are written to distinct files. */
  lemma ArtifactNameInjective(i: int, j: int)
    ensures ArtifactName(i) == ArtifactName(j) <==> i == j
  {
    ArtifactRoundTrip(i);
    ArtifactRoundTrip(j);
  }

  /** The names of the first pages, and of the page that a lock page of 0
      or of -1 makes the loop start from. */
  lemma ArtifactNameExamples()
    ensures ArtifactName(0) == "content_01.txt"
    ensures ArtifactName(4) == "content_05.txt"
    ensures ArtifactName(9) == "content_10.txt"
    ensures ArtifactName(99) == "content_100.txt"
    ensures ArtifactName(-1) == "content_00.txt"
    ensures ArtifactName(-2) == "content_-1.txt"
  {
  }

  /** The artifact names for 0-based indices `lo` up to `hi` (exclusive). */
  function ArtifactNames(lo: int, hi: int): set<string> {
    set j | lo <= j < hi :: ArtifactName(j)
  }

  function LowerChar(c: char): char {
    if 'A' <= c <= 'Z' then (c as int + 32) as char else c
  }

  /** `str.lower`, on ASCII letters. */
  function Lower(s: string): string {
    seq(|s|, i requires 0 <= i < |s| => LowerChar(s[i]))
  }

  predicate EndsWith(s: string, suffix: string) {
    |suffix| <= |s| && s[|s| - |suffix|..] == suffix
  }

  /** The test of the event handler: `path.lower().endswith(".pdf")`. */
  predicate IsPdfPath(path: string) {
    EndsWith(Lower(path), ".pdf")
  }

  /** A path passes the filter exactly when its last four characters are
      '.', 'p', 'd', 'f' in either case. */
  lemma IsPdfPathByCharacters(path: string)
    ensures IsPdfPath(path) <==>
      && |path| >= 4
      && path[|path| - 4] == '.'
      && path[|path| - 3] in "pP"
      && path[|path| - 2] in "dD"
      && path[|path| - 1] in "fF"
  {
    var n := |path|;
    var low := Lower(path);
    if n >= 4 {
      var tail := low[n - 4..];
      assert tail == [low[n - 4], low[n - 3], low[n - 2], low[n - 1]];
    }
  }
}
