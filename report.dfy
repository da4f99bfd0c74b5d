/** The coverage report of `src/report/report.ts`: which catalog test cases are covered, the rounded
    percentages, the epics read from summaries and the table rows, with the HTML markup left out. */
module Report {
  import opened Options
  import opened Strings
  import opened Utils
  import opened Covered
  import opened Client
  import Seqs

  /** A record covers a test case when the project key, a dash and the record's id spell the test case's key. */
  predicate Matches(project: string, c: Coverage, tc: JiraTestCase) {
    project + "-" + c.id == tc.key
  }

  /** `covered.some(...)`. */
  predicate IsCovered(project: string, covered: seq<Coverage>, tc: JiraTestCase) {
    |covered| > 0 && (Matches(project, covered[0], tc) || IsCovered(project, covered[1..], tc))
  }

  /** `covered.find(...)`: the first record that covers the test case. */
  function FindCoverage(project: string, covered: seq<Coverage>, tc: JiraTestCase): Option<Coverage> {
    if |covered| == 0 then None
    else if Matches(project, covered[0], tc) then Some(covered[0])
    else FindCoverage(project, covered[1..], tc)
  }

  /** A test case is covered exactly when some record matches it. */
  lemma {:induction false} IsCoveredSpec(project: string, covered: seq<Coverage>, tc: JiraTestCase)
    ensures IsCovered(project, covered, tc) <==> exists i :: 0 <= i < |covered| && Matches(project, covered[i], tc)
  {
    if |covered| > 0 {
      IsCoveredSpec(project, covered[1..], tc);
      if IsCovered(project, covered[1..], tc) {
        var i :| 0 <= i < |covered[1..]| && Matches(project, covered[1..][i], tc);
        assert Matches(project, covered[i + 1], tc);
      }
      if exists i :: 0 <= i < |covered| && Matches(project, covered[i], tc) {
        var i :| 0 <= i < |covered| && Matches(project, covered[i], tc);
        if i > 0 {
          assert Matches(project, covered[1..][i - 1], tc);
        }
      }
    }
  }

  /** `find` returns the first matching record, and finds one exactly when `some` holds. */
  lemma {:induction false} FindCoverageSpec(project: string, covered: seq<Coverage>, tc: JiraTestCase)
    ensures FindCoverage(project, covered, tc).Some? <==> IsCovered(project, covered, tc)
    ensures FindCoverage(project, covered, tc).Some? ==>
      exists i :: 0 <= i < |covered| && covered[i] == FindCoverage(project, covered, tc).value &&
        Matches(project, covered[i], tc) && forall j :: 0 <= j < i ==> !Matches(project, covered[j], tc)
  {
    if |covered| > 0 && !Matches(project, covered[0], tc) {
      FindCoverageSpec(project, covered[1..], tc);
      if FindCoverage(project, covered, tc).Some? {
        var i :| 0 <= i < |covered[1..]| && covered[1..][i] == FindCoverage(project, covered, tc).value &&
          Matches(project, covered[1..][i], tc) && forall j :: 0 <= j < i ==> !Matches(project, covered[1..][j], tc);
        assert covered[i + 1] == covered[1..][i];
        forall j | 0 <= j < i + 1 ensures !Matches(project, covered[j], tc) {
          if j > 0 {
            assert covered[j] == covered[1..][j - 1];
          }
        }
      }
    } else if |covered| > 0 {
      assert covered[0] == FindCoverage(project, covered, tc).value;
    }
  }

  /** The test cases some record covers, in catalog order. */
  function CoveredCases(project: string, testCases: seq<JiraTestCase>, covered: seq<Coverage>): seq<JiraTestCase> {
    Seqs.Filter((tc: JiraTestCase) => IsCovered(project, covered, tc), testCases)
  }

  /** A percentage as the report prints it: `NaN` for an empty set, otherwise a whole number. */
  datatype Percent = NaN | Rounded(value: nat)

  /** `Math.round(count / total * 100)`, with the quotient taken exactly: the whole number nearest to
      100·count/total, halves rounded up, and `NaN` when there is nothing to divide by. */
  function Percentage(count: nat, total: nat): (p: Percent)
    ensures p == NaN <==> total == 0
    ensures p.Rounded? ==> 2 * total * p.value <= 200 * count + total < 2 * total * (p.value + 1)
    ensures p.Rounded? && count <= total ==> p.value <= 100
  {
    if total == 0 then NaN
    else
      var v := (200 * count + total) / (2 * total);
      RoundingBounds(200 * count + total, 2 * total, v);
      if count <= total then
        assert 2 * total * v <= 200 * count + total <= 201 * total < 2 * total * 101;
        UpperBound(2 * total, v, 101);
        Rounded(v)
      else Rounded(v)
  }

  lemma RoundingBounds(x: nat, d: nat, v: nat)
    requires d > 0 && v == x / d
    ensures d * v <= x < d * (v + 1)
  {
  }

  lemma UpperBound(d: nat, v: nat, b: nat)
    requires d > 0 && d * v < d * b
    ensures v < b
  {
  }

  /** `\[(.*?)\]` matches at `i` capturing `x`: the lazy `.*?` stops at the first `]`, and `.` matches no
      line terminator. */
  ghost predicate BracketAt(s: string, i: nat, x: string) {
    i + |x| + 2 <= |s| && s[i] == '[' && s[i + 1..i + 1 + |x|] == x && s[i + 1 + |x|] == ']' &&
    forall k :: 0 <= k < |x| ==> x[k] != ']' && !IsLineTerminator(x[k])
  }

  /** The first `]` from `k` on, when no line terminator comes before it. */
  function CloseAt(s: string, k: nat): (r: Option<nat>)
    requires k <= |s|
    ensures r.Some? ==> k <= r.value < |s| && s[r.value] == ']'
    ensures r.Some? ==> forall j :: k <= j < r.value ==> s[j] != ']' && !IsLineTerminator(s[j])
    decreases |s| - k
  {
    if k == |s| then None
    else if s[k] == ']' then Some(k)
    else if IsLineTerminator(s[k]) then None
    else CloseAt(s, k + 1)
  }

  lemma {:induction false} CloseAtOf(s: string, k: nat, e: nat)
    requires k <= e < |s| && s[e] == ']'
    requires forall j :: k <= j < e ==> s[j] != ']' && !IsLineTerminator(s[j])
    ensures CloseAt(s, k) == Some(e)
    decreases e - k
  {
    if k < e {
      CloseAtOf(s, k + 1, e);
    }
  }

  /** The matcher of `\[(.*?)\]` at one position. */
  function BracketMatchAt(s: string, i: nat): Option<string>
    requires i <= |s|
  {
    if i < |s| && s[i] == '[' then
      match CloseAt(s, i + 1)
      case Some(e) => Some(s[i + 1..e])
      case None => None
    else None
  }

  /** The matcher at one position agrees with the pattern. */
  lemma BracketMatchAtSpec(s: string, i: nat)
    requires i <= |s|
    ensures forall x :: BracketAt(s, i, x) <==> BracketMatchAt(s, i) == Some(x)
  {
    forall x | BracketAt(s, i, x) ensures BracketMatchAt(s, i) == Some(x) {
      var e := i + 1 + |x|;
      forall j | i + 1 <= j < e ensures s[j] != ']' && !IsLineTerminator(s[j]) {
        assert s[j] == x[j - i - 1];
      }
      CloseAtOf(s, i + 1, e);
    }
    if BracketMatchAt(s, i).Some? {
      var e := CloseAt(s, i + 1).value;
      var x := s[i + 1..e];
      assert x == BracketMatchAt(s, i).value;
      assert s[i + 1..i + 1 + |x|] == x;
      assert BracketAt(s, i, x);
    }
  }

  /** `s.match(/\[(.*?)\]/)` from position `i` on: the leftmost match. */
  function FirstBracket(s: string, i: nat): (r: Option<Match>)
    requires i <= |s|
    ensures r.Some? ==> i <= r.value.at && BracketAt(s, r.value.at, r.value.capture)
    ensures r.Some? ==> forall j, y :: i <= j < r.value.at ==> !BracketAt(s, j, y)
    ensures r.None? ==> forall j, y :: i <= j ==> !BracketAt(s, j, y)
    decreases |s| - i
  {
    BracketMatchAtSpec(s, i);
    match BracketMatchAt(s, i)
    case Some(x) => Some(Match(i, x))
    case None => if i == |s| then None else FirstBracket(s, i + 1)
  }

  /** `matches?.at(1) ?? ""`: the capture of the leftmost bracket pair of a summary, or `""`. */
  function EpicOf(summary: string): (r: string)
    ensures ']' !in r
  {
    match FirstBracket(summary, 0)
    case None => ""
    case Some(found) =>
      assert forall k :: 0 <= k < |found.capture| ==> found.capture[k] != ']';
      found.capture
  }

  /** A summary whose leftmost match is at `i` capturing `x` names the epic `x`; one without a match names none. */
  lemma EpicOfSpec(summary: string, i: nat, x: string)
    ensures (forall j, y :: !BracketAt(summary, j, y)) ==> EpicOf(summary) == ""
    ensures BracketAt(summary, i, x) && (forall j: nat, y :: j < i ==> !BracketAt(summary, j, y)) ==> EpicOf(summary) == x
  {
    if BracketAt(summary, i, x) && (forall j: nat, y :: j < i ==> !BracketAt(summary, j, y)) {
      var r := FirstBracket(summary, 0);
      assert r.Some?;
      assert r.value.at == i;
      BracketMatchAtSpec(summary, i);
    }
  }

  /** The capture of every summary, in catalog order. */
  function Captures(testCases: seq<JiraTestCase>): (r: seq<string>)
    ensures |r| == |testCases|
  {
    seq(|testCases|, i requires 0 <= i < |testCases| => EpicOf(testCases[i].summary))
  }

  predicate IsNamed(s: string) {
    s != ""
  }

  /** The non-empty strings of `caps`, trimmed, with repetitions. */
  function TrimmedNames(caps: seq<string>): seq<string> {
    var named := Seqs.Filter(IsNamed, caps);
    seq(|named|, i requires 0 <= i < |named| => Trim(named[i]))
  }

  lemma TrimmedNamesSpec(caps: seq<string>)
    ensures forall e :: e in TrimmedNames(caps) <==> exists i :: 0 <= i < |caps| && caps[i] != "" && Trim(caps[i]) == e
  {
    var named := Seqs.Filter(IsNamed, caps);
    var all := TrimmedNames(caps);
    forall e ensures e in all <==> exists i :: 0 <= i < |caps| && caps[i] != "" && Trim(caps[i]) == e {
      if e in all {
        var k :| 0 <= k < |all| && all[k] == e;
        assert named[k] in caps && IsNamed(named[k]);
        var i :| 0 <= i < |caps| && caps[i] == named[k];
        assert caps[i] != "" && Trim(caps[i]) == e;
      }
      if exists i :: 0 <= i < |caps| && caps[i] != "" && Trim(caps[i]) == e {
        var i :| 0 <= i < |caps| && caps[i] != "" && Trim(caps[i]) == e;
        assert IsNamed(caps[i]);
        assert caps[i] in named;
        var k :| 0 <= k < |named| && named[k] == caps[i];
        assert all[k] == e;
      }
    }
  }

  /** `allEpics`: the non-empty captures, trimmed, with repetitions. */
  function AllEpics(testCases: seq<JiraTestCase>): seq<string> {
    TrimmedNames(Captures(testCases))
  }

  /** `Array.from(new Set(allEpics))`: each epic once, in order of first appearance. */
  function Epics(testCases: seq<JiraTestCase>): seq<string> {
    Seqs.Dedup(AllEpics(testCases))
  }

  /** Each epic is listed once; an epic is listed exactly when some test case's capture is non-empty and
      trims to it; and epics come in the order their first mention appears. */
  lemma EpicsSpec(testCases: seq<JiraTestCase>)
    ensures Seqs.Distinct(Epics(testCases))
    ensures forall e :: e in Epics(testCases) <==>
      exists i :: 0 <= i < |testCases| && Captures(testCases)[i] != "" && Trim(Captures(testCases)[i]) == e
    ensures forall e :: e in Epics(testCases) <==> e in AllEpics(testCases)
    ensures forall i, j :: 0 <= i < j < |Epics(testCases)| ==>
      Seqs.FirstIndex(AllEpics(testCases), Epics(testCases)[i]) < Seqs.FirstIndex(AllEpics(testCases), Epics(testCases)[j])
  {
    var caps := Captures(testCases);
    Seqs.DedupSpec(AllEpics(testCases));
    TrimmedNamesSpec(caps);
  }

  /** The syntax characters of a regular expression, the ones `treatSpecialCharactersAsSymbols` escapes. */
  predicate IsSyntaxChar(c: char) {
    c in ".*+?^${}()|[]\\"
  }

  /** `treatSpecialCharactersAsSymbols(s)`: a backslash before every syntax character. */
  function Escape(s: string): string {
    if |s| == 0 then ""
    else (if IsSyntaxChar(s[0]) then ['\\', s[0]] else [s[0]]) + Escape(s[1..])
  }

  /** How a regular-expression parser reads a pattern made of plain characters and escaped syntax
      characters: the text it matches literally, or `None` when the pattern uses any other syntax. */
  function Unescape(p: string): Option<string>
    decreases |p|
  {
    if |p| == 0 then Some("")
    else if p[0] == '\\' then
      if |p| >= 2 && IsSyntaxChar(p[1]) then
        match Unescape(p[2..])
        case Some(rest) => Some([p[1]] + rest)
        case None => None
      else None
    else if IsSyntaxChar(p[0]) then None
    else
      match Unescape(p[1..])
      case Some(rest) => Some([p[0]] + rest)
      case None => None
  }

  /** An escaped name is read back as exactly that name: the pattern matches the epic literally. */
  lemma {:induction false} EscapeRoundTrip(s: string)
    ensures Unescape(Escape(s)) == Some(s)
  {
    if |s| > 0 {
      EscapeRoundTrip(s[1..]);
      var p := Escape(s);
      if IsSyntaxChar(s[0]) {
        assert p[2..] == Escape(s[1..]);
      } else {
        assert p[1..] == Escape(s[1..]);
      }
      assert [s[0]] + s[1..] == s;
    }
  }

  /** Every character of `s` from `lo` up to `hi` is whitespace. */
  ghost predicate SpaceBetween(s: string, lo: nat, hi: nat)
    requires lo <= hi <= |s|
  {
    forall x :: lo <= x < hi ==> IsSpace(s[x])
  }

  /** `\s*\]` at the start of `v`; the greedy `\s*` never needs to give a character back, as `]` is no space. */
  predicate ClosesAfterSpace(v: string) {
    var w := TrimStart(v);
    |w| > 0 && w[0] == ']'
  }

  /** `\s*E\s*\]` at the start of `u`, for the literal epic `E`: the first `\s*` backtracks one
      whitespace character at a time. */
  predicate EpicThenClose(u: string, e: string)
    decreases |u|
  {
    (e <= u && ClosesAfterSpace(u[|e|..])) || (|u| > 0 && IsSpace(u[0]) && EpicThenClose(u[1..], e))
  }

  /** `^\s*\[\s*E\s*\]` tested on a summary; the leading `\s*` is decided by the first non-space, as `[` is no space. */
  predicate HeaderMatch(summary: string, e: string) {
    var t := TrimStart(summary);
    |t| > 0 && t[0] == '[' && EpicThenClose(t[1..], e)
  }

  /** `\s*E\s*\]` matches `u` with the epic at `a` and the bracket at `b`. */
  ghost predicate TailAt(u: string, e: string, a: nat, b: nat) {
    a + |e| <= b < |u| && SpaceBetween(u, 0, a) && u[a..a + |e|] == e && SpaceBetween(u, a + |e|, b) && u[b] == ']'
  }

  /** The summary opens, after whitespace, with `[` at `i`, then whitespace, the epic at `j`, whitespace and `]` at `k`. */
  ghost predicate HeaderAt(s: string, e: string, i: nat, j: nat, k: nat) {
    i + 1 <= j && j + |e| <= k < |s| && SpaceBetween(s, 0, i) && s[i] == '[' && SpaceBetween(s, i + 1, j) &&
    s[j..j + |e|] == e && SpaceBetween(s, j + |e|, k) && s[k] == ']'
  }

  ghost predicate EpicHeader(s: string, e: string) {
    exists i: nat, j: nat, k: nat :: HeaderAt(s, e, i, j, k)
  }

  lemma LeadingSpaceIs(s: string, n: nat)
    requires n < |s| && SpaceBetween(s, 0, n) && !IsSpace(s[n])
    ensures LeadingSpace(s) == n
  {
  }

  lemma ClosesAfterSpaceOf(v: string, b: nat)
    requires b < |v| && SpaceBetween(v, 0, b) && v[b] == ']'
    ensures ClosesAfterSpace(v)
  {
    LeadingSpaceIs(v, b);
  }

  lemma ClosesAfterSpaceWitness(v: string)
    requires ClosesAfterSpace(v)
    ensures LeadingSpace(v) < |v| && SpaceBetween(v, 0, LeadingSpace(v)) && v[LeadingSpace(v)] == ']'
  {
  }

  lemma {:induction false} EpicThenCloseOf(u: string, e: string, a: nat, b: nat)
    requires TailAt(u, e, a, b)
    ensures EpicThenClose(u, e)
    decreases a
  {
    if a == 0 {
      assert u[..|e|] == e;
      var v := u[|e|..];
      assert SpaceBetween(v, 0, b - |e|) by {
        forall x | 0 <= x < b - |e| ensures IsSpace(v[x]) {
          assert v[x] == u[|e| + x];
        }
      }
      ClosesAfterSpaceOf(v, b - |e|);
    } else {
      var u' := u[1..];
      assert IsSpace(u[0]);
      assert u'[a - 1..a - 1 + |e|] == u[a..a + |e|];
      assert TailAt(u', e, a - 1, b - 1);
      EpicThenCloseOf(u', e, a - 1, b - 1);
    }
  }

  /** The first alternative of the matcher: the epic right at the start. */
  lemma TailAtStart(u: string, e: string)
    requires e <= u && ClosesAfterSpace(u[|e|..])
    ensures TailAt(u, e, 0, |e| + LeadingSpace(u[|e|..]))
  {
    var v := u[|e|..];
    ClosesAfterSpaceWitness(v);
    assert u[0..|e|] == e;
    forall x | |e| <= x < |e| + LeadingSpace(v) ensures u[x] == v[x - |e|] {
    }
  }

  /** The second alternative: one more whitespace character before a tail match. */
  lemma TailAfterSpace(u: string, e: string, a: nat, b: nat)
    requires |u| > 0 && IsSpace(u[0]) && TailAt(u[1..], e, a, b)
    ensures TailAt(u, e, a + 1, b + 1)
  {
    var u' := u[1..];
    assert u[a + 1..a + 1 + |e|] == u'[a..a + |e|];
    forall x | 1 <= x < b + 1 ensures u[x] == u'[x - 1] {
    }
  }

  lemma {:induction false} EpicThenCloseWitness(u: string, e: string)
    requires EpicThenClose(u, e)
    ensures exists a: nat, b: nat :: TailAt(u, e, a, b)
    decreases |u|
  {
    if e <= u && ClosesAfterSpace(u[|e|..]) {
      TailAtStart(u, e);
    } else {
      EpicThenCloseWitness(u[1..], e);
      var a: nat, b: nat :| TailAt(u[1..], e, a, b);
      TailAfterSpace(u, e, a, b);
    }
  }

  /** The matcher, with the leading whitespace counted out. */
  lemma HeaderMatchAt(s: string, e: string)
    ensures var i := LeadingSpace(s);
      HeaderMatch(s, e) <==> i < |s| && s[i] == '[' && EpicThenClose(s[i + 1..], e)
  {
    var i := LeadingSpace(s);
    if i < |s| {
      assert TrimStart(s)[1..] == s[i + 1..];
    }
  }

  /** A tail match after the `[` at `i` is a header match of the whole summary. */
  lemma TailHeader(s: string, e: string, i: nat, a: nat, b: nat)
    requires i < |s| && SpaceBetween(s, 0, i) && s[i] == '[' && TailAt(s[i + 1..], e, a, b)
    ensures HeaderAt(s, e, i, i + 1 + a, i + 1 + b)
  {
    var u := s[i + 1..];
    var j, k := i + 1 + a, i + 1 + b;
    assert s[j..j + |e|] == u[a..a + |e|];
    forall x | i + 1 <= x < k ensures s[x] == u[x - i - 1] {
    }
  }

  /** A header match, seen from just after its `[`. */
  lemma HeaderTail(s: string, e: string, i: nat, j: nat, k: nat)
    requires HeaderAt(s, e, i, j, k)
    ensures TailAt(s[i + 1..], e, j - i - 1, k - i - 1)
  {
    var u := s[i + 1..];
    var a, b := j - i - 1, k - i - 1;
    assert u[a..a + |e|] == s[j..j + |e|];
    forall x | 0 <= x < b ensures u[x] == s[x + i + 1] {
    }
  }

  lemma HeaderMatchSound(s: string, e: string)
    requires HeaderMatch(s, e)
    ensures EpicHeader(s, e)
  {
    HeaderMatchAt(s, e);
    var i := LeadingSpace(s);
    EpicThenCloseWitness(s[i + 1..], e);
    var a: nat, b: nat :| TailAt(s[i + 1..], e, a, b);
    TailHeader(s, e, i, a, b);
  }

  lemma HeaderMatchFrom(s: string, e: string, i: nat, j: nat, k: nat)
    requires HeaderAt(s, e, i, j, k)
    ensures HeaderMatch(s, e)
  {
    LeadingSpaceIs(s, i);
    var u := s[i + 1..];
    HeaderTail(s, e, i, j, k);
    EpicThenCloseOf(u, e, j - i - 1, k - i - 1);
    HeaderMatchAt(s, e);
  }

  lemma HeaderMatchComplete(s: string, e: string)
    requires EpicHeader(s, e)
    ensures HeaderMatch(s, e)
  {
    var i: nat, j: nat, k: nat :| HeaderAt(s, e, i, j, k);
    HeaderMatchFrom(s, e, i, j, k);
  }

  /** The matcher agrees with the pattern's meaning: a test belongs to the epic's group exactly when its
      summary starts, after optional whitespace, with `[`, optional whitespace, the epic, optional
      whitespace and `]`. */
  lemma HeaderMatchSpec(s: string, e: string)
    ensures HeaderMatch(s, e) <==> EpicHeader(s, e)
  {
    if HeaderMatch(s, e) {
      HeaderMatchSound(s, e);
    }
    if EpicHeader(s, e) {
      HeaderMatchComplete(s, e);
    }
  }

  /** `getTestsPerEpic(testCases, epicName)`: the tests whose summary matches the pattern built from the
      escaped name, in catalog order. A pattern the literal reading rejects would match nothing;
      `EscapeRoundTrip` shows an escaped name is never rejected. */
  function TestsPerEpic(testCases: seq<JiraTestCase>, epicName: string): seq<JiraTestCase> {
    match Unescape(Escape(epicName))
    case Some(literal) => Seqs.Filter((tc: JiraTestCase) => HeaderMatch(tc.summary, literal), testCases)
    case None => []
  }

  /** An epic's group holds exactly the tests whose summary opens with the bracketed epic, in catalog order. */
  lemma TestsPerEpicSpec(testCases: seq<JiraTestCase>, epic: string)
    ensures TestsPerEpic(testCases, epic) == Seqs.Filter((tc: JiraTestCase) => HeaderMatch(tc.summary, epic), testCases)
    ensures forall tc :: tc in TestsPerEpic(testCases, epic) <==> tc in testCases && EpicHeader(tc.summary, epic)
  {
    EscapeRoundTrip(epic);
    var group := TestsPerEpic(testCases, epic);
    forall tc ensures tc in group <==> tc in testCases && EpicHeader(tc.summary, epic) {
      HeaderMatchSpec(tc.summary, epic);
      if tc in testCases && EpicHeader(tc.summary, epic) {
        var i :| 0 <= i < |testCases| && testCases[i] == tc;
      }
    }
  }

  /** A link of the coverage cell: the file and line of one record. */
  datatype Link = Link(file: string, line: nat)

  /** A coverage cell: `-`, or the list of links. */
  datatype Cell = Dash | Links(links: seq<Link>)

  /** A table row: the key with its browse link, the title shown, and the coverage cell. */
  datatype Row = Row(key: string, href: string, title: string, coverage: Cell)

  /** `coverage(testCase)`: one link per record that covers the test case, in record order. */
  function CoverageLinks(project: string, covered: seq<Coverage>, tc: JiraTestCase): seq<Link> {
    if |covered| == 0 then []
    else
      (if Matches(project, covered[0], tc) then [Link(covered[0].file, covered[0].line)] else []) +
      CoverageLinks(project, covered[1..], tc)
  }

  /** The links of two runs of records are the links of each, in turn. */
  lemma {:induction false} CoverageLinksConcat(project: string, a: seq<Coverage>, b: seq<Coverage>, tc: JiraTestCase)
    ensures CoverageLinks(project, a + b, tc) == CoverageLinks(project, a, tc) + CoverageLinks(project, b, tc)
  {
    if |a| > 0 {
      assert (a + b)[0] == a[0] && (a + b)[1..] == a[1..] + b;
      CoverageLinksConcat(project, a[1..], b, tc);
    } else {
      assert a + b == b;
    }
  }

  /** There is a link for a record exactly when it covers the test case, and links exist exactly when
      the test case is covered. */
  lemma {:induction false} CoverageLinksSpec(project: string, covered: seq<Coverage>, tc: JiraTestCase)
    ensures forall i :: 0 <= i < |covered| && Matches(project, covered[i], tc) ==>
      Link(covered[i].file, covered[i].line) in CoverageLinks(project, covered, tc)
    ensures forall l :: l in CoverageLinks(project, covered, tc) ==>
      exists i :: 0 <= i < |covered| && Matches(project, covered[i], tc) && l == Link(covered[i].file, covered[i].line)
    ensures |CoverageLinks(project, covered, tc)| == 0 <==> !IsCovered(project, covered, tc)
  {
    if |covered| > 0 {
      var rest := covered[1..];
      CoverageLinksSpec(project, rest, tc);
      var links := CoverageLinks(project, covered, tc);
      forall i | 0 <= i < |covered| && Matches(project, covered[i], tc)
        ensures Link(covered[i].file, covered[i].line) in links
      {
        if i > 0 {
          assert covered[i] == rest[i - 1];
        }
      }
      forall l | l in links
        ensures exists i :: 0 <= i < |covered| && Matches(project, covered[i], tc) && l == Link(covered[i].file, covered[i].line)
      {
        if l !in CoverageLinks(project, rest, tc) {
          assert Matches(project, covered[0], tc) && l == Link(covered[0].file, covered[0].line);
        } else {
          var i :| 0 <= i < |rest| && Matches(project, rest[i], tc) && l == Link(rest[i].file, rest[i].line);
          assert covered[i + 1] == rest[i];
        }
      }
    }
  }

  /** The coverage cell: the links, or `-` when there are none. */
  function CellOf(links: seq<Link>): (c: Cell)
    ensures c == Dash <==> |links| == 0
    ensures c.Links? ==> c.links == links
  {
    if |links| > 0 then Links(links) else Dash
  }

  /** `${domain}/browse/${key}`. */
  function BrowseUrl(domain: string, key: string): string {
    domain + "/browse/" + key
  }

  /** The title of a row in an epic's group: `summary.split("]").pop()?.trim()`. */
  function EpicTitle(summary: string): (r: string)
    ensures ']' !in r
  {
    var t := Trim(LastSegment(summary, ']'));
    assert ']' !in t by {
      var seg := LastSegment(summary, ']');
      forall x | 0 <= x < |t| ensures t[x] != ']' {
        TrimIsInfix(seg);
        assert t[x] == seg[LeadingSpace(seg) + x];
      }
    }
    t
  }

  /** `Trim(s)` is the slice of `s` between its leading and trailing whitespace. */
  lemma TrimIsInfix(s: string)
    ensures LeadingSpace(s) + |Trim(s)| <= |s|
    ensures forall x :: 0 <= x < |Trim(s)| ==> Trim(s)[x] == s[LeadingSpace(s) + x]
  {
    var t := s[LeadingSpace(s)..];
    assert TrimStart(s) == t;
    assert Trim(s) == t[..|t| - TrailingSpace(t)];
  }

  /** The title is the trimmed text after the last `]`, or the whole trimmed summary when there is none. */
  lemma EpicTitleSpec(head: string, tail: string)
    requires ']' !in tail
    ensures EpicTitle(head + "]" + tail) == Trim(tail)
    ensures ']' !in head ==> EpicTitle(head) == Trim(head)
  {
    LastSegmentAfter(head, tail, ']');
    if ']' !in head {
      SplitFree(head, ']');
    }
  }

  /** A row of the flat table. */
  function TableRow(cfg: Config, covered: seq<Coverage>, tc: JiraTestCase): Row {
    Row(tc.key, BrowseUrl(cfg.atlassian.domain, tc.key), tc.summary,
      CellOf(CoverageLinks(cfg.atlassian.project, covered, tc)))
  }

  /** A row of an epic's group: its title is the text after the last `]`. */
  function EpicRow(cfg: Config, covered: seq<Coverage>, tc: JiraTestCase): Row {
    Row(tc.key, BrowseUrl(cfg.atlassian.domain, tc.key), EpicTitle(tc.summary),
      CellOf(CoverageLinks(cfg.atlassian.project, covered, tc)))
  }

  /** An epic's panel: its name, its own percentage and its rows. */
  datatype Section = Section(epic: string, percentage: Percent, rows: seq<Row>)

  /** The body of the report: one table with every test case, or one panel per epic. */
  datatype Body =
    | Table(percentage: Percent, rows: seq<Row>)
    | Grouped(percentage: Percent, sections: seq<Section>)

  /** One epic's panel: the tests of its group, the share of them `find` reports covered, and their rows. */
  function EpicSection(cfg: Config, testCases: seq<JiraTestCase>, covered: seq<Coverage>, epic: string): Section {
    var project := cfg.atlassian.project;
    var group := TestsPerEpic(testCases, epic);
    var coveredInGroup := Seqs.Filter((tc: JiraTestCase) => FindCoverage(project, covered, tc).Some?, group);
    Section(epic, Percentage(|coveredInGroup|, |group|),
      seq(|group|, i requires 0 <= i < |group| => EpicRow(cfg, covered, group[i])))
  }

  /** `generateTestCoverageHtmlReport(testCases, covered)`, with the markup around the body left out. */
  function GenerateReport(cfg: Config, testCases: seq<JiraTestCase>, covered: seq<Coverage>): Body {
    var percentage := Percentage(|CoveredCases(cfg.atlassian.project, testCases, covered)|, |testCases|);
    if cfg.atlassian.shouldGroupByEpic then
      var epics := Epics(testCases);
      Grouped(percentage, seq(|epics|, i requires 0 <= i < |epics| => EpicSection(cfg, testCases, covered, epics[i])))
    else
      Table(percentage, seq(|testCases|, i requires 0 <= i < |testCases| => TableRow(cfg, covered, testCases[i])))
  }

  /** Both layouts head the report with the same overall percentage. */
  lemma OverallPercentage(cfg: Config, testCases: seq<JiraTestCase>, covered: seq<Coverage>)
    ensures GenerateReport(cfg, testCases, covered).percentage ==
      Percentage(|CoveredCases(cfg.atlassian.project, testCases, covered)|, |testCases|)
  {
  }

  /** The overall percentage counts the test cases some record covers: `NaN` for an empty catalog, at
      most 100, and the nearest whole number to the exact share otherwise. */
  lemma ReportPercentage(cfg: Config, testCases: seq<JiraTestCase>, covered: seq<Coverage>)
    ensures var p := GenerateReport(cfg, testCases, covered).percentage;
      var count := |CoveredCases(cfg.atlassian.project, testCases, covered)|;
      count <= |testCases| &&
      (p == NaN <==> testCases == []) &&
      (p.Rounded? ==> p.value <= 100 && 2 * |testCases| * p.value <= 200 * count + |testCases| < 2 * |testCases| * (p.value + 1))
  {
    OverallPercentage(cfg, testCases, covered);
    var count := |CoveredCases(cfg.atlassian.project, testCases, covered)|;
    var p := Percentage(count, |testCases|);
    assert count <= |testCases|;
  }

  /** A test case is counted as covered exactly when some record matches its key. */
  lemma CoveredCasesSpec(project: string, testCases: seq<JiraTestCase>, covered: seq<Coverage>)
    ensures forall tc :: tc in CoveredCases(project, testCases, covered) <==>
      tc in testCases && exists i :: 0 <= i < |covered| && Matches(project, covered[i], tc)
  {
    forall tc ensures tc in CoveredCases(project, testCases, covered) <==>
      tc in testCases && exists i :: 0 <= i < |covered| && Matches(project, covered[i], tc)
    {
      IsCoveredSpec(project, covered, tc);
      if tc in testCases && IsCovered(project, covered, tc) {
        var i :| 0 <= i < |testCases| && testCases[i] == tc;
      }
    }
  }

  /** Without grouping, the table has one row per test case, in catalog order: the key, its browse link,
      the full summary, and `-` exactly when no record covers it, else one link per covering record. */
  lemma FlatReportRows(cfg: Config, testCases: seq<JiraTestCase>, covered: seq<Coverage>)
    requires !cfg.atlassian.shouldGroupByEpic
    ensures GenerateReport(cfg, testCases, covered).Table?
    ensures |GenerateReport(cfg, testCases, covered).rows| == |testCases|
    ensures forall n :: 0 <= n < |testCases| ==>
      var row := GenerateReport(cfg, testCases, covered).rows[n];
      row.key == testCases[n].key && row.title == testCases[n].summary &&
      row.href == cfg.atlassian.domain + "/browse/" + testCases[n].key &&
      (row.coverage == Dash <==> forall i :: 0 <= i < |covered| ==> !Matches(cfg.atlassian.project, covered[i], testCases[n])) &&
      (row.coverage.Links? ==> row.coverage.links == CoverageLinks(cfg.atlassian.project, covered, testCases[n]))
  {
    var rows := GenerateReport(cfg, testCases, covered).rows;
    forall n | 0 <= n < |testCases|
      ensures rows[n].coverage == Dash <==> forall i :: 0 <= i < |covered| ==> !Matches(cfg.atlassian.project, covered[i], testCases[n])
    {
      CoverageLinksSpec(cfg.atlassian.project, covered, testCases[n]);
      IsCoveredSpec(cfg.atlassian.project, covered, testCases[n]);
    }
  }

  /** With grouping, there is one panel per epic, in the order of `Epics`; each panel's rows are the tests
      whose summary opens with the bracketed epic, titled by the text after their last `]`; and the panel's
      percentage, computed with `find`, is the share of its tests some record covers. */
  lemma GroupedReportSections(cfg: Config, testCases: seq<JiraTestCase>, covered: seq<Coverage>)
    requires cfg.atlassian.shouldGroupByEpic
    ensures GenerateReport(cfg, testCases, covered).Grouped?
    ensures |GenerateReport(cfg, testCases, covered).sections| == |Epics(testCases)|
    ensures forall n :: 0 <= n < |Epics(testCases)| ==>
      var section := GenerateReport(cfg, testCases, covered).sections[n];
      var group := TestsPerEpic(testCases, Epics(testCases)[n]);
      section.epic == Epics(testCases)[n] &&
      (forall tc :: tc in group <==> tc in testCases && EpicHeader(tc.summary, section.epic)) &&
      |section.rows| == |group| &&
      (forall r :: 0 <= r < |group| ==> EpicRowCells(cfg, covered, group[r], section.rows[r])) &&
      section.percentage == Percentage(|CoveredCases(cfg.atlassian.project, group, covered)|, |group|)
  {
    var epics := Epics(testCases);
    var project := cfg.atlassian.project;
    forall n | 0 <= n < |epics|
      ensures var group := TestsPerEpic(testCases, epics[n]);
        (forall tc :: tc in group <==> tc in testCases && EpicHeader(tc.summary, epics[n])) &&
        (forall r :: 0 <= r < |group| ==>
          EpicRowCells(cfg, covered, group[r], GenerateReport(cfg, testCases, covered).sections[n].rows[r])) &&
        GenerateReport(cfg, testCases, covered).sections[n].percentage ==
          Percentage(|CoveredCases(project, group, covered)|, |group|)
    {
      var group := TestsPerEpic(testCases, epics[n]);
      TestsPerEpicSpec(testCases, epics[n]);
      FindAgreesWithSome(project, covered, group);
      forall r | 0 <= r < |group|
        ensures EpicRowCells(cfg, covered, group[r], GenerateReport(cfg, testCases, covered).sections[n].rows[r])
      {
        CoverageLinksSpec(project, covered, group[r]);
      }
    }
  }

  /** What an epic panel shows for one of its tests: the key with its browse link, the text after the
      last `]` as title, and `-` exactly when no record covers the test, else the test's links. */
  predicate EpicRowCells(cfg: Config, covered: seq<Coverage>, tc: JiraTestCase, row: Row) {
    row.key == tc.key && row.title == EpicTitle(tc.summary) &&
    row.href == cfg.atlassian.domain + "/browse/" + tc.key &&
    (row.coverage == Dash <==> !IsCovered(cfg.atlassian.project, covered, tc)) &&
    (row.coverage.Links? ==> row.coverage.links == CoverageLinks(cfg.atlassian.project, covered, tc))
  }

  /** Filtering with `find` keeps the same test cases as filtering with `some`. */
  lemma {:induction false} FindAgreesWithSome(project: string, covered: seq<Coverage>, group: seq<JiraTestCase>)
    ensures Seqs.Filter((tc: JiraTestCase) => FindCoverage(project, covered, tc).Some?, group) == CoveredCases(project, group, covered)
  {
    if |group| > 0 {
      FindCoverageSpec(project, covered, group[0]);
      FindAgreesWithSome(project, covered, group[1..]);
    }
  }

  lemma LoginEpicCapture()
    ensures EpicOf("Login [Auth]") == "Auth"
  {
    var summary := "Login [Auth]";
    assert BracketAt(summary, 6, "Auth");
    forall j: nat, y | j < 6 ensures !BracketAt(summary, j, y) {
      assert summary[j] != '[';
    }
    EpicOfSpec(summary, 6, "Auth");
  }

  lemma LoginCaptures()
    ensures Captures([JiraTestCase("P-1", "Login [Auth]", "")]) == ["Auth"]
  {
    LoginEpicCapture();
  }

  lemma AuthTrimmed()
    ensures TrimmedNames(["Auth"]) == ["Auth"]
  {
    assert Seqs.Filter(IsNamed, ["Auth"]) == ["Auth"];
    TrimPadded("", "Auth", "");
    assert "" + "Auth" + "" == "Auth";
  }

  lemma LoginEpics()
    ensures Epics([JiraTestCase("P-1", "Login [Auth]", "")]) == ["Auth"]
  {
    LoginCaptures();
    AuthTrimmed();
    assert ["Auth"][..0] == [];
  }

  lemma LoginGroup(cfg: Config, covered: seq<Coverage>)
    ensures EpicSection(cfg, [JiraTestCase("P-1", "Login [Auth]", "")], covered, "Auth") == Section("Auth", NaN, [])
  {
    var summary := "Login [Auth]";
    var testCases := [JiraTestCase("P-1", summary, "")];
    LeadingSpaceIs(summary, 0);
    assert !HeaderMatch(summary, "Auth");
    TestsPerEpicSpec(testCases, "Auth");
    assert TestsPerEpic(testCases, "Auth") == [];
  }

  /** A bracket that does not open the summary, as in `Login [Auth]`, still names the epic `Auth`, but the
      grouping pattern is anchored at the start, so that epic's panel has no rows and a `NaN` percentage. */
  lemma NonLeadingBracketEpic(cfg: Config, covered: seq<Coverage>)
    requires cfg.atlassian.shouldGroupByEpic
    ensures var testCases := [JiraTestCase("P-1", "Login [Auth]", "")];
      Epics(testCases) == ["Auth"] &&
      GenerateReport(cfg, testCases, covered) ==
        Grouped(Percentage(|CoveredCases(cfg.atlassian.project, testCases, covered)|, 1), [Section("Auth", NaN, [])])
  {
    var testCases := [JiraTestCase("P-1", "Login [Auth]", "")];
    LoginEpics();
    LoginGroup(cfg, covered);
    SingleEpicReport(cfg, testCases, covered, "Auth");
  }

  /** A grouped report whose catalog names one epic consists of that epic's section alone. */
  lemma SingleEpicReport(cfg: Config, testCases: seq<JiraTestCase>, covered: seq<Coverage>, epic: string)
    requires cfg.atlassian.shouldGroupByEpic && Epics(testCases) == [epic]
    ensures GenerateReport(cfg, testCases, covered) ==
      Grouped(Percentage(|CoveredCases(cfg.atlassian.project, testCases, covered)|, |testCases|),
              [EpicSection(cfg, testCases, covered, epic)])
  {
    GroupedSectionsOf(cfg, testCases, covered, [epic]);
    var sections := seq(1, i requires 0 <= i < 1 => EpicSection(cfg, testCases, covered, [epic][i]));
    assert sections == [EpicSection(cfg, testCases, covered, epic)];
  }

  /** The grouped report of a catalog whose epics are known: one section per epic, in order. */
  lemma GroupedSectionsOf(cfg: Config, testCases: seq<JiraTestCase>, covered: seq<Coverage>, epics: seq<string>)
    requires cfg.atlassian.shouldGroupByEpic && Epics(testCases) == epics
    ensures GenerateReport(cfg, testCases, covered) ==
      Grouped(Percentage(|CoveredCases(cfg.atlassian.project, testCases, covered)|, |testCases|),
              seq(|epics|, i requires 0 <= i < |epics| => EpicSection(cfg, testCases, covered, epics[i])))
  {
  }

  lemma BlankCaptures()
    ensures Captures([JiraTestCase("P-1", "[ ] Login", "")]) == [" "]
  {
    var summary := "[ ] Login";
    assert BracketAt(summary, 0, " ");
    EpicOfSpec(summary, 0, " ");
  }

  lemma BlankTrimmed()
    ensures TrimmedNames([" "]) == [""]
  {
    assert Seqs.Filter(IsNamed, [" "]) == [" "];
    assert AllSpace(" ");
    TrimPadded(" ", "", "");
    assert " " + "" + "" == " ";
  }

  /** Empty captures are dropped before trimming, so a summary opening with `[ ]` names the epic `""`. */
  lemma BlankBracketEpic()
    ensures Epics([JiraTestCase("P-1", "[ ] Login", "")]) == [""]
  {
    BlankCaptures();
    BlankTrimmed();
    assert [""][..0] == [];
  }
}
