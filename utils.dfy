/** The settings record and the custom-method argument extractor of `src/utils.ts`. */
module Utils {
  import opened Options
  import opened Strings
  import Seqs

  datatype Atlassian = Atlassian(
    domain: string, username: string, apiKey: string, project: string, query: string,
    shouldGroupByEpic: bool, sanitizeTitles: seq<string>)

  datatype Autocompletion = Autocompletion(enable: bool, customMethod: string, provideIdOnly: bool)

  /** The extension's settings as `config()` returns them: every unset entry already replaced by its default. */
  datatype Config = Config(atlassian: Atlassian, testFiles: string, autocompletion: Autocompletion)

  /** The text `m("x")`. */
  function CallText(m: string, x: string): string {
    m + "(\"" + x + "\")"
  }

  /** The pattern `m\("([^"]+)"\)` matches `t` at position `i` with capture `x`. */
  ghost predicate CallAt(t: string, m: string, i: nat, x: string) {
    x != [] && '"' !in x && OccursAt(t, CallText(m, x), i)
  }

  /** The length of the longest run of characters other than `"` that starts at `k`. */
  function QuoteFreeRun(t: string, k: nat): (n: nat)
    requires k <= |t|
    ensures k + n <= |t|
    ensures forall j :: k <= j < k + n ==> t[j] != '"'
    ensures k + n < |t| ==> t[k + n] == '"'
    decreases |t| - k
  {
    if k == |t| || t[k] == '"' then 0 else 1 + QuoteFreeRun(t, k + 1)
  }

  /** The pattern tried at one position: `[^"]+` takes the whole quote-free run, then `")` must follow. */
  function MatchAt(t: string, m: string, i: nat): Option<string> {
    var open := m + "(\"";
    if !OccursAt(t, open, i) then None
    else
      var k := i + |open|;
      var n := QuoteFreeRun(t, k);
      if n > 0 && k + n + 1 < |t| && t[k + n + 1] == ')' then Some(t[k..k + n]) else None
  }

  /** A quote-free stretch that ends at a `"` is exactly the run `QuoteFreeRun` measures. */
  lemma {:induction false} QuoteFreeRunOf(t: string, k: nat, len: nat)
    requires k + len < |t| && t[k + len] == '"'
    requires forall j :: k <= j < k + len ==> t[j] != '"'
    ensures QuoteFreeRun(t, k) == len
    decreases len
  {
    if len > 0 {
      QuoteFreeRunOf(t, k + 1, len - 1);
    }
  }

  /** Whenever the pattern matches at `i`, the matcher finds that capture. */
  lemma CallAtFound(t: string, m: string, i: nat, x: string)
    requires CallAt(t, m, i, x)
    ensures MatchAt(t, m, i) == Some(x)
  {
    var open := m + "(\"";
    var k := i + |open|;
    var c := CallText(m, x);
    assert c == open + x + "\")" && |c| == |open| + |x| + 2;
    assert t[i..i + |c|] == c;
    assert OccursAt(t, open, i) by {
      assert t[i..i + |open|] == t[i..i + |c|][..|open|];
    }
    forall j | 0 <= j < |x| ensures t[k + j] == x[j] {
      assert t[k + j] == t[i..i + |c|][|open| + j] == c[|open| + j];
    }
    assert t[k..k + |x|] == x;
    assert t[k + |x|] == c[|open| + |x|] == '"';
    assert t[k + |x| + 1] == c[|open| + |x| + 1] == ')';
    forall j | k <= j < k + |x| ensures t[j] != '"' {
      assert t[j] == x[j - k];
    }
    QuoteFreeRunOf(t, k, |x|);
  }

  /** Whatever the matcher finds at `i` is a match of the pattern there. */
  lemma FoundIsCallAt(t: string, m: string, i: nat)
    requires MatchAt(t, m, i).Some?
    ensures CallAt(t, m, i, MatchAt(t, m, i).value)
  {
    var open := m + "(\"";
    var k := i + |open|;
    var x := MatchAt(t, m, i).value;
    var n := QuoteFreeRun(t, k);
    assert x == t[k..k + n];
    assert '"' !in x by {
      forall j | 0 <= j < |x| ensures x[j] != '"' {
        assert x[j] == t[k + j];
      }
    }
    var c := CallText(m, x);
    assert c == open + x + "\")" && |c| == |open| + n + 2;
    assert t[i..k] == open;
    assert t[k + n] == '"' && t[k + n + 1] == ')';
    forall j | 0 <= j < |c| ensures t[i + j] == c[j] {
      if j < |open| {
        assert t[i + j] == t[i..k][j];
      } else if j < |open| + n {
        assert t[i + j] == x[j - |open|];
      }
    }
    assert t[i..i + |c|] == c;
  }

  /** The matcher at one position agrees with the pattern: it finds a capture exactly when there is one. */
  lemma MatchAtSpec(t: string, m: string, i: nat)
    ensures forall x :: CallAt(t, m, i, x) <==> MatchAt(t, m, i) == Some(x)
  {
    forall x | CallAt(t, m, i, x) ensures MatchAt(t, m, i) == Some(x) {
      CallAtFound(t, m, i, x);
    }
    if MatchAt(t, m, i).Some? {
      FoundIsCallAt(t, m, i);
    }
  }

  /** The leftmost match of the pattern in `t`: where it starts and what it captures. */
  datatype Match = Match(at: nat, capture: string)

  /** `t.match(pattern)` from position `i` on: the first position where the pattern matches. */
  function FirstMatch(t: string, m: string, i: nat): (r: Option<Match>)
    requires i <= |t|
    ensures r.Some? ==> i <= r.value.at && CallAt(t, m, r.value.at, r.value.capture)
    ensures r.Some? ==> forall j, y :: i <= j < r.value.at ==> !CallAt(t, m, j, y)
    ensures r.None? ==> forall j, y :: i <= j ==> !CallAt(t, m, j, y)
    decreases |t| - i
  {
    MatchAtSpec(t, m, i);
    match MatchAt(t, m, i)
    case Some(x) => Some(Match(i, x))
    case None =>
      if i == |t| then
        NoCallPastEnd(t, m, i);
        None
      else FirstMatch(t, m, i + 1)
  }

  lemma NoCallPastEnd(t: string, m: string, i: nat)
    requires i >= |t|
    ensures forall j, y :: i <= j ==> !CallAt(t, m, j, y)
  {
  }

  /** `s.replace(/['"]/g, "")`. */
  function RemoveQuotes(s: string): (r: string)
    ensures '"' !in r && '\'' !in r
  {
    var q := Seqs.Filter((c: char) => c != '\'' && c != '"', s);
    assert forall i :: 0 <= i < |q| ==> q[i] != '"' && q[i] != '\'';
    q
  }

  /** `getCustomMethodArgument(text, method)`: the capture of the leftmost `method("x")` in the trimmed
      text with its quotes removed, or `""` when there is none. */
  function GetCustomMethodArgument(text: string, m: string): (r: string)
    ensures '"' !in r && '\'' !in r
  {
    match FirstMatch(Trim(text), m, 0)
    case None => ""
    case Some(found) => RemoveQuotes(found.capture)
  }

  /** No call in the text: the argument is empty. */
  lemma ArgumentOfNoCall(text: string, m: string)
    requires forall i, x :: !CallAt(Trim(text), m, i, x)
    ensures GetCustomMethodArgument(text, m) == ""
  {
  }

  /** With calls present, the argument comes from the leftmost one. */
  lemma ArgumentOfLeftmostCall(text: string, m: string, i: nat, x: string)
    requires CallAt(Trim(text), m, i, x)
    requires forall j: nat, y :: j < i ==> !CallAt(Trim(text), m, j, y)
    ensures GetCustomMethodArgument(text, m) == RemoveQuotes(x)
  {
    var t := Trim(text);
    var r := FirstMatch(t, m, 0);
    assert r.Some?;
    assert r.value.at == i;
    MatchAtSpec(t, m, i);
  }

  /** A text without double quotes, such as a single-quoted `m('X')`, has no argument. */
  lemma ArgumentNeedsDoubleQuotes(text: string, m: string)
    requires '"' !in text
    ensures GetCustomMethodArgument(text, m) == ""
  {
    var t := Trim(text);
    var u := TrimStart(text);
    assert t == u[..|t|];
    assert '"' !in t;
    assert forall i: nat, x :: !CallAt(t, m, i, x) by {
      forall i: nat, x ensures !CallAt(t, m, i, x) {
        var c := CallText(m, x);
        assert c[|m| + 1] == '"';
      }
    }
  }

  /** A line that is a single call `m("x")`, with `x` free of quotes, has the argument `x`. */
  lemma LoneCallTrimmed(m: string, x: string)
    requires m != "" && !IsSpace(m[0])
    ensures Trim(CallText(m, x)) == CallText(m, x)
  {
    var line := CallText(m, x);
    assert line[|line| - 1] == ')';
    TrimPadded("", line, "");
    assert "" + line + "" == line;
  }

  lemma ArgumentOfLoneCall(m: string, x: string)
    requires m != "" && !IsSpace(m[0])
    requires x != "" && '"' !in x && '\'' !in x
    ensures Trim(CallText(m, x)) == CallText(m, x)
    ensures GetCustomMethodArgument(CallText(m, x), m) == x
  {
    var line := CallText(m, x);
    LoneCallTrimmed(m, x);
    assert CallAt(line, m, 0, x) by {
      assert line[0..|line|] == line;
    }
    ArgumentOfLeftmostCall(line, m, 0, x);
    Seqs.FilterKeepsAll((c: char) => c != '\'' && c != '"', x);
  }
}
