/** The scan of test files for test-case references, `src/fs/covered.ts`. */
module Covered {
  import opened Strings
  import opened Utils
  import Seqs

  /** One call of the custom method in a test file: the test-case id, its 1-based line and the file. */
  datatype Coverage = Coverage(id: string, line: nat, file: string)

  /** A file matched by the `testFiles` glob, with its text. */
  datatype TestFile = TestFile(name: string, content: string)

  /** `content.split("\n")`. */
  function Lines(content: string): seq<string> {
    Split(content, '\n')
  }

  /** A line is scanned when its trimmed text starts with the custom method. */
  predicate Mentions(line: string, m: string) {
    m <= Trim(line)
  }

  /** The test-case id of a scanned line: the whole argument, or its last `-` segment. */
  function TestCaseId(line: string, m: string, idOnly: bool): string {
    var arg := GetCustomMethodArgument(Trim(line), m);
    if idOnly then arg else LastSegment(arg, '-')
  }

  /** Which lines are scanned, as a function the scan is parameterised by. */
  function ScannedBy(m: string): string -> bool {
    line => Mentions(line, m)
  }

  /** The id each scanned line yields, as a function the scan is parameterised by. */
  function IdOf(m: string, idOnly: bool): string -> string {
    line => TestCaseId(line, m, idOnly)
  }

  /** The records the inner reduce collects from the first `n` lines of a file. */
  function ScanLines(name: string, lines: seq<string>, scanned: string -> bool, id: string -> string, n: nat): seq<Coverage>
    requires n <= |lines|
  {
    if n == 0 then []
    else
      ScanLines(name, lines, scanned, id, n - 1) +
      (if scanned(lines[n - 1]) then [Coverage(id(lines[n - 1]), n, name)] else [])
  }

  function FileRecords(f: TestFile, scanned: string -> bool, id: string -> string): seq<Coverage> {
    var lines := Lines(f.content);
    ScanLines(f.name, lines, scanned, id, |lines|)
  }

  /** The records the outer reduce collects from the first `n` files. */
  function ScanFiles(files: seq<TestFile>, scanned: string -> bool, id: string -> string, n: nat): seq<Coverage>
    requires n <= |files|
  {
    if n == 0 then [] else ScanFiles(files, scanned, id, n - 1) + FileRecords(files[n - 1], scanned, id)
  }

  predicate HasId(c: Coverage) {
    c.id != ""
  }

  /** What `getCoveredTestCases` returns for the given files. */
  function CoveredTestCases(cfg: Config, files: seq<TestFile>): seq<Coverage> {
    var m := cfg.autocompletion.customMethod;
    if m == "" then [] else Seqs.Filter(HasId, ScanFiles(files, ScannedBy(m), IdOf(m, cfg.autocompletion.provideIdOnly), |files|))
  }

  /** The inner reduce of `getCoveredTestCases`: the records of one file, line by line, for the line test
      and the id the callback computes (`ScannedBy` and `IdOf`). */
  method ScanFile(file: TestFile, scanned: string -> bool, id: string -> string) returns (fileTestCases: seq<Coverage>)
    ensures fileTestCases == FileRecords(file, scanned, id)
  {
    var lines := Lines(file.content);
    fileTestCases := [];
    var index := 0;
    while index < |lines|
      invariant index <= |lines|
      invariant fileTestCases == ScanLines(file.name, lines, scanned, id, index)
    {
      var line := lines[index];
      if scanned(line) {
        var testCaseId := id(line);
        fileTestCases := fileTestCases + [Coverage(testCaseId, index + 1, file.name)];
      }
      index := index + 1;
    }
  }

  /** `getCoveredTestCases` once the glob has been expanded and the files read. */
  method GetCoveredTestCases(cfg: Config, files: seq<TestFile>) returns (result: seq<Coverage>)
    ensures result == CoveredTestCases(cfg, files)
  {
    var m := cfg.autocompletion.customMethod;
    var idOnly := cfg.autocompletion.provideIdOnly;
    if m == "" {
      return [];
    }
    var testCases: seq<Coverage> := [];
    var n := 0;
    while n < |files|
      invariant n <= |files|
      invariant testCases == ScanFiles(files, ScannedBy(m), IdOf(m, idOnly), n)
    {
      var fileTestCases := ScanFile(files[n], ScannedBy(m), IdOf(m, idOnly));
      testCases := testCases + fileTestCases;
      n := n + 1;
    }
    result := Seqs.Filter(HasId, testCases);
  }

  /** Each record of a file stands for a scanned line. */
  lemma {:induction false} ScanLinesSound(name: string, lines: seq<string>, scanned: string -> bool, id: string -> string, n: nat)
    requires n <= |lines|
    ensures forall c :: c in ScanLines(name, lines, scanned, id, n) ==>
      c.file == name && 1 <= c.line <= n && scanned(lines[c.line - 1]) && c.id == id(lines[c.line - 1])
  {
    if n > 0 {
      ScanLinesSound(name, lines, scanned, id, n - 1);
    }
  }

  predicate LinesIncrease(s: seq<Coverage>) {
    forall i, j :: 0 <= i < j < |s| ==> s[i].line < s[j].line
  }

  /** The records of a file come in increasing line order. */
  lemma {:induction false} ScanLinesOrdered(name: string, lines: seq<string>, scanned: string -> bool, id: string -> string, n: nat)
    requires n <= |lines|
    ensures LinesIncrease(ScanLines(name, lines, scanned, id, n))
  {
    if n > 0 {
      ScanLinesOrdered(name, lines, scanned, id, n - 1);
      ScanLinesSound(name, lines, scanned, id, n - 1);
      var prev := ScanLines(name, lines, scanned, id, n - 1);
      var s := ScanLines(name, lines, scanned, id, n);
      assert s == prev + (if scanned(lines[n - 1]) then [Coverage(id(lines[n - 1]), n, name)] else []);
      forall i, j | 0 <= i < j < |s| ensures s[i].line < s[j].line {
        if j >= |prev| {
          assert s[i] == prev[i] && prev[i] in prev;
          assert prev[i].line <= n - 1;
          assert s[j].line == n;
        } else {
          assert s[i] == prev[i] && s[j] == prev[j];
          assert prev[i].line < prev[j].line;
        }
      }
    }
  }

  /** Every scanned line of a file yields its record. */
  lemma {:induction false} ScanLinesComplete(name: string, lines: seq<string>, scanned: string -> bool, id: string -> string, n: nat, k: nat)
    requires k < n <= |lines| && scanned(lines[k])
    ensures Coverage(id(lines[k]), k + 1, name) in ScanLines(name, lines, scanned, id, n)
  {
    if k < n - 1 {
      ScanLinesComplete(name, lines, scanned, id, n - 1, k);
    }
  }

  lemma {:induction false} ScanFilesOrigin(files: seq<TestFile>, scanned: string -> bool, id: string -> string, n: nat, c: Coverage)
    requires n <= |files| && c in ScanFiles(files, scanned, id, n)
    ensures exists k :: 0 <= k < n && c in FileRecords(files[k], scanned, id)
  {
    if c !in FileRecords(files[n - 1], scanned, id) {
      ScanFilesOrigin(files, scanned, id, n - 1, c);
    }
  }

  lemma {:induction false} ScanFilesHas(files: seq<TestFile>, scanned: string -> bool, id: string -> string, n: nat, k: nat, c: Coverage)
    requires k < n <= |files| && c in FileRecords(files[k], scanned, id)
    ensures c in ScanFiles(files, scanned, id, n)
  {
    var before := ScanFiles(files, scanned, id, n - 1);
    var last := FileRecords(files[n - 1], scanned, id);
    assert ScanFiles(files, scanned, id, n) == before + last;
    if k < n - 1 {
      ScanFilesHas(files, scanned, id, n - 1, k, c);
      assert c in before;
    } else {
      assert c in last;
    }
  }

  /** Each record of the scan stands for a scanned line of one of the files. */
  lemma ScanFilesSound(files: seq<TestFile>, scanned: string -> bool, id: string -> string, c: Coverage)
    requires c in ScanFiles(files, scanned, id, |files|)
    ensures exists k :: (0 <= k < |files| && files[k].name == c.file &&
      1 <= c.line <= |Lines(files[k].content)| &&
      scanned(Lines(files[k].content)[c.line - 1]) && c.id == id(Lines(files[k].content)[c.line - 1]))
  {
    ScanFilesOrigin(files, scanned, id, |files|, c);
    var k :| 0 <= k < |files| && c in FileRecords(files[k], scanned, id);
    var lines := Lines(files[k].content);
    ScanLinesSound(files[k].name, lines, scanned, id, |lines|);
  }

  /** Every returned record has an id and stands for a scanned line of one of the files. */
  lemma CoveredSound(cfg: Config, files: seq<TestFile>, c: Coverage)
    requires c in CoveredTestCases(cfg, files)
    ensures cfg.autocompletion.customMethod != "" && c.id != ""
    ensures !cfg.autocompletion.provideIdOnly ==> '-' !in c.id
    ensures exists k :: (0 <= k < |files| && files[k].name == c.file &&
      1 <= c.line <= |Lines(files[k].content)| &&
      Mentions(Lines(files[k].content)[c.line - 1], cfg.autocompletion.customMethod) &&
      c.id == TestCaseId(Lines(files[k].content)[c.line - 1], cfg.autocompletion.customMethod,
                         cfg.autocompletion.provideIdOnly))
  {
    var m := cfg.autocompletion.customMethod;
    var idOnly := cfg.autocompletion.provideIdOnly;
    var scanned, id := ScannedBy(m), IdOf(m, idOnly);
    var all := ScanFiles(files, scanned, id, |files|);
    assert m != "";
    var r := Seqs.Filter(HasId, all);
    var i :| 0 <= i < |r| && r[i] == c;
    assert c in all && HasId(c);
    ScanFilesSound(files, scanned, id, c);
    var k :| 0 <= k < |files| && files[k].name == c.file &&
      1 <= c.line <= |Lines(files[k].content)| &&
      scanned(Lines(files[k].content)[c.line - 1]) && c.id == id(Lines(files[k].content)[c.line - 1]);
    var line := Lines(files[k].content)[c.line - 1];
    assert Mentions(line, m) && c.id == TestCaseId(line, m, idOnly);
  }

  /** Every scanned line that yields a non-empty id is reported. */
  lemma CoveredComplete(cfg: Config, files: seq<TestFile>, k: nat, line: nat)
    requires cfg.autocompletion.customMethod != ""
    requires k < |files| && line < |Lines(files[k].content)|
    requires Mentions(Lines(files[k].content)[line], cfg.autocompletion.customMethod)
    requires TestCaseId(Lines(files[k].content)[line], cfg.autocompletion.customMethod,
                        cfg.autocompletion.provideIdOnly) != ""
    ensures Coverage(TestCaseId(Lines(files[k].content)[line], cfg.autocompletion.customMethod,
                                cfg.autocompletion.provideIdOnly),
                     line + 1, files[k].name) in CoveredTestCases(cfg, files)
  {
    var m := cfg.autocompletion.customMethod;
    var idOnly := cfg.autocompletion.provideIdOnly;
    var lines := Lines(files[k].content);
    var scanned, id := ScannedBy(m), IdOf(m, idOnly);
    var c := Coverage(TestCaseId(lines[line], m, idOnly), line + 1, files[k].name);
    ScanLinesComplete(files[k].name, lines, scanned, id, |lines|, line);
    ScanFilesHas(files, scanned, id, |files|, k, c);
    var all := ScanFiles(files, scanned, id, |files|);
    var i :| 0 <= i < |all| && all[i] == c;
    assert HasId(all[i]);
  }

  /** With an empty custom method nothing is scanned. */
  lemma CoveredWithoutMethod(cfg: Config, files: seq<TestFile>)
    requires cfg.autocompletion.customMethod == ""
    ensures CoveredTestCases(cfg, files) == []
  {
  }

  /** The position of the first file called `name` (the glob lists each path once). */
  function FileIndex(files: seq<TestFile>, name: string): nat {
    if |files| == 0 || files[0].name == name then 0 else 1 + FileIndex(files[1..], name)
  }

  predicate DistinctNames(files: seq<TestFile>) {
    forall i, j :: 0 <= i < j < |files| ==> files[i].name != files[j].name
  }

  lemma {:induction false} FileIndexOf(files: seq<TestFile>, k: nat)
    requires DistinctNames(files) && k < |files|
    ensures FileIndex(files, files[k].name) == k
  {
    if k > 0 {
      assert files[0].name != files[k].name;
      assert DistinctNames(files[1..]) by {
        forall i, j | 0 <= i < j < |files[1..]| ensures files[1..][i].name != files[1..][j].name {
          assert files[1..][i] == files[i + 1] && files[1..][j] == files[j + 1];
        }
      }
      FileIndexOf(files[1..], k - 1);
    }
  }

  /** Record `a` comes before record `b`: an earlier file, or the same file and an earlier line. */
  predicate Precedes(files: seq<TestFile>, a: Coverage, b: Coverage) {
    var fa, fb := FileIndex(files, a.file), FileIndex(files, b.file);
    fa < fb || (fa == fb && a.line < b.line)
  }

  /** Records come file by file, in the order the files were listed, and line by line within a file. */
  ghost predicate InFileOrder(files: seq<TestFile>, s: seq<Coverage>) {
    forall i, j :: 0 <= i < j < |s| ==> Precedes(files, s[i], s[j])
  }

  lemma {:induction false} ScanFilesOrdered(files: seq<TestFile>, scanned: string -> bool, id: string -> string, n: nat)
    requires DistinctNames(files) && n <= |files|
    ensures InFileOrder(files, ScanFiles(files, scanned, id, n))
    ensures forall c :: c in ScanFiles(files, scanned, id, n) ==> FileIndex(files, c.file) < n
  {
    if n > 0 {
      ScanFilesOrdered(files, scanned, id, n - 1);
      var prev := ScanFiles(files, scanned, id, n - 1);
      var f := files[n - 1];
      var lines := Lines(f.content);
      var cur := FileRecords(f, scanned, id);
      ScanLinesSound(f.name, lines, scanned, id, |lines|);
      ScanLinesOrdered(f.name, lines, scanned, id, |lines|);
      FileIndexOf(files, n - 1);
      var s := prev + cur;
      assert s == ScanFiles(files, scanned, id, n);
      forall i, j | 0 <= i < j < |s| ensures Precedes(files, s[i], s[j]) {
        if j < |prev| {
          assert s[i] == prev[i] && s[j] == prev[j];
        } else if i < |prev| {
          assert s[i] == prev[i] && prev[i] in prev;
          assert s[j] == cur[j - |prev|] && cur[j - |prev|] in cur;
        } else {
          assert s[i] == cur[i - |prev|] && s[j] == cur[j - |prev|];
          assert cur[i - |prev|] in cur && cur[j - |prev|] in cur;
        }
      }
    }
  }

  /** The returned records keep the scan order: by file, then by line. */
  lemma CoveredOrdered(cfg: Config, files: seq<TestFile>)
    requires DistinctNames(files)
    ensures InFileOrder(files, CoveredTestCases(cfg, files))
  {
    var m := cfg.autocompletion.customMethod;
    if m != "" {
      var before := (a, b) => Precedes(files, a, b);
      var all := ScanFiles(files, ScannedBy(m), IdOf(m, cfg.autocompletion.provideIdOnly), |files|);
      ScanFilesOrdered(files, ScannedBy(m), IdOf(m, cfg.autocompletion.provideIdOnly), |files|);
      assert Seqs.Ordered(before, all);
      Seqs.FilterOrdered(HasId, before, ScanFiles(files, ScannedBy(m), IdOf(m, cfg.autocompletion.provideIdOnly), |files|));
    }
  }
}
