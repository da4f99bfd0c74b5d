/** The Jira search client of `src/jira/client.ts`: the query URL, the settings guard and the paging loop. */
module Client {
  import opened Options
  import opened Strings
  import opened Utils
  import Seqs

  /** A test case of the catalog: its key, its (sanitised) summary and its REST url.
      The source declares it in `src/jira/storage.ts`; it lives here because Dafny modules cannot import each other in a cycle. */
  datatype JiraTestCase = JiraTestCase(key: string, summary: string, url: string)

  /** The client's settings, copied from the configuration when it is constructed and never changed. */
  datatype JiraClient = JiraClient(
    domain: string, username: string, apiKey: string, project: string, query: Option<string>,
    shouldGroupByEpic: bool, sanitizeTitles: seq<string>)

  /** `new JiraClient()`. `config()` always supplies a string for the query, `""` when it is unset. */
  function FromConfig(cfg: Config): (c: JiraClient)
    ensures c.query == Some(cfg.atlassian.query)
  {
    var a := cfg.atlassian;
    JiraClient(a.domain, a.username, a.apiKey, a.project, Some(a.query), a.shouldGroupByEpic, a.sanitizeTitles)
  }

  /** A link of an issue; `outwardIssueType` is the linked issue's type name when there is an outward issue. */
  datatype IssueLink = IssueLink(outwardIssueType: Option<string>, key: string, self: string, summary: string)

  /** The fields of a search hit the client reads. */
  datatype Issue = Issue(key: string, self: string, summary: string, issueLinks: Option<seq<IssueLink>>)

  /** One page of a search response. */
  datatype Page = Page(total: nat, maxResults: nat, issues: seq<Issue>)

  /** An epic an issue is linked to. */
  datatype Parent = Parent(title: string, key: string, url: string)

  function DefaultQuery(project: string): string {
    "project = " + project + " AND type=test"
  }

  /** `this.query ?? default`: the default only stands in for a missing query, not for an empty one. */
  function EffectiveQuery(c: JiraClient): string {
    c.query.GetOr(DefaultQuery(c.project))
  }

  const SEARCH := "/rest/api/3/search?jql="
  const START_AT := "&startAt="

  /** `jiraQuery(offset)`. */
  function JiraQuery(c: JiraClient, offset: nat): string {
    c.domain + SEARCH + EffectiveQuery(c) + START_AT + NatToString(offset)
  }

  /** The url names the search endpoint and the query, and its `startAt` digits read back as the offset. */
  lemma JiraQueryParts(c: JiraClient, offset: nat)
    ensures var url := JiraQuery(c, offset); var n := |NatToString(offset)|;
      n <= |url| && IsDigits(url[|url| - n..]) && DecimalValue(url[|url| - n..]) == offset &&
      url[..|url| - n] == c.domain + SEARCH + EffectiveQuery(c) + START_AT
  {
    var d := NatToString(offset);
    var url := JiraQuery(c, offset);
    var head := c.domain + SEARCH + EffectiveQuery(c) + START_AT;
    assert url == head + d;
    assert url[|url| - |d|..] == d;
    assert url[..|url| - |d|] == head;
    DecimalRoundTrip(offset);
  }

  /** A client built from the configuration never falls back to the default query: an unset query is sent as `jql=`. */
  lemma ConfiguredQueryIsVerbatim(cfg: Config)
    ensures EffectiveQuery(FromConfig(cfg)) == cfg.atlassian.query
    ensures cfg.atlassian.query == "" ==>
      JiraQuery(FromConfig(cfg), 0) == cfg.atlassian.domain + SEARCH + START_AT + "0"
  {
    if cfg.atlassian.query == "" {
      var c := FromConfig(cfg);
      assert NatToString(0) == "0";
      assert c.domain + SEARCH + "" == c.domain + SEARCH;
    }
  }

  /** The settings a request needs: domain, username, API key and project. */
  predicate HasRequiredFields(c: JiraClient) {
    c.domain != "" && c.username != "" && c.apiKey != "" && c.project != ""
  }

  /** The request `getTestCases(offset)` sends, or none when a required setting is empty. */
  function Request(c: JiraClient, offset: nat): (r: Option<string>)
    ensures r.None? <==> (c.domain == "" || c.username == "" || c.apiKey == "" || c.project == "")
    ensures r.Some? ==> r.value == JiraQuery(c, offset)
  {
    if HasRequiredFields(c) then Some(JiraQuery(c, offset)) else None
  }

  /** `sanitized(title)`: every configured string, in order, deletes its first occurrence. */
  function Sanitized(patterns: seq<string>, title: string): string {
    if |patterns| == 0 then title else DeleteAll(patterns, title)
  }

  /** The reduce of `sanitized`, accumulating from the first pattern to the last. */
  function DeleteAll(patterns: seq<string>, title: string): string {
    if |patterns| == 0 then title
    else DeleteFirst(DeleteAll(patterns[..|patterns| - 1], title), patterns[|patterns| - 1])
  }

  /** The first configured string is applied first, to the unchanged title. */
  lemma {:induction false} SanitizedFirstPatternFirst(p: string, rest: seq<string>, title: string)
    ensures Sanitized([p] + rest, title) == Sanitized(rest, DeleteFirst(title, p))
  {
    DeleteAllFirst(p, rest, title);
  }

  lemma {:induction false} DeleteAllFirst(p: string, rest: seq<string>, title: string)
    ensures DeleteAll([p] + rest, title) == DeleteAll(rest, DeleteFirst(title, p))
    decreases |rest|
  {
    var ps := [p] + rest;
    if |rest| == 0 {
      assert ps[..0] == [];
    } else {
      assert ps[..|ps| - 1] == [p] + rest[..|rest| - 1];
      DeleteAllFirst(p, rest[..|rest| - 1], title);
    }
  }

  /** Sanitising never lengthens a title, and with no patterns it leaves the title alone. */
  lemma {:induction false} SanitizedShortens(patterns: seq<string>, title: string)
    ensures |Sanitized(patterns, title)| <= |title|
    ensures patterns == [] ==> Sanitized(patterns, title) == title
  {
    DeleteAllShortens(patterns, title);
  }

  lemma {:induction false} DeleteAllShortens(patterns: seq<string>, title: string)
    ensures |DeleteAll(patterns, title)| <= |title|
  {
    if |patterns| > 0 {
      var init := DeleteAll(patterns[..|patterns| - 1], title);
      DeleteAllShortens(patterns[..|patterns| - 1], title);
      DeleteFirstSpec(init, patterns[|patterns| - 1]);
    }
  }

  predicate IsEpicLink(link: IssueLink) {
    link.outwardIssueType == Some("Epic")
  }

  function ParentOf(link: IssueLink): Parent {
    Parent(link.summary, link.key, link.self)
  }

  /** `getIssueParents(issue)`: one parent per link to an epic, in link order, or nothing when there is none. */
  function IssueParents(issue: Issue): Option<seq<Parent>> {
    var parents := Seqs.Filter(IsEpicLink, issue.issueLinks.GetOr([]));
    if |parents| == 0 then None else Some(seq(|parents|, i requires 0 <= i < |parents| => ParentOf(parents[i])))
  }

  /** There are parents exactly when some link is to an epic, and then each epic link gives one, in order. */
  lemma IssueParentsSpec(issue: Issue)
    ensures var links := issue.issueLinks.GetOr([]);
      IssueParents(issue).None? <==> forall i :: 0 <= i < |links| ==> !IsEpicLink(links[i])
    ensures var links := issue.issueLinks.GetOr([]);
      IssueParents(issue).Some? ==>
        (var parents := Seqs.Filter(IsEpicLink, links);
         IssueParents(issue).value == seq(|parents|, i requires 0 <= i < |parents| => ParentOf(parents[i])))
    ensures var links := issue.issueLinks.GetOr([]);
      forall i :: 0 <= i < |links| && IsEpicLink(links[i]) ==>
        IssueParents(issue).Some? && ParentOf(links[i]) in IssueParents(issue).value
  {
    var links := issue.issueLinks.GetOr([]);
    var parents := Seqs.Filter(IsEpicLink, links);
    forall i | 0 <= i < |links| && IsEpicLink(links[i])
      ensures IssueParents(issue).Some? && ParentOf(links[i]) in IssueParents(issue).value
    {
      assert links[i] in parents;
      var k :| 0 <= k < |parents| && parents[k] == links[i];
      assert IssueParents(issue).value[k] == ParentOf(links[i]);
    }
    if |parents| > 0 {
      assert parents[0] in links;
    }
  }

  /** The test case the loop keeps for an issue: its key, its sanitised summary and its url. */
  function ToTestCase(c: JiraClient, issue: Issue): JiraTestCase {
    JiraTestCase(issue.key, Sanitized(c.sanitizeTitles, issue.summary), issue.self)
  }

  function PageTestCases(c: JiraClient, issues: seq<Issue>): (r: seq<JiraTestCase>)
    ensures |r| == |issues|
  {
    seq(|issues|, i requires 0 <= i < |issues| => ToTestCase(c, issues[i]))
  }

  /** What `getAllTestCases` produced: the collected test cases and the urls it requested, in order. */
  datatype Fetched = Fetched(testCases: seq<JiraTestCase>, queries: seq<string>)

  /** The loop condition `offset < total || total === 0`. */
  predicate Continues(offset: nat, total: nat) {
    offset < total || total == 0
  }

  /** The answer to the `k`-th request: the oracle's page, or `undefined` once it has none left. */
  function Response(pages: seq<Option<Page>>, k: nat): Option<Page> {
    if k < |pages| then pages[k] else None
  }

  /** A page the loop goes on with: defined and with at least one issue. */
  predicate Usable(p: Option<Page>) {
    p.Some? && |p.value.issues| > 0
  }

  /** The loop of `getAllTestCases` from its `k`-th request on, with the given offset and total. */
  function Loop(c: JiraClient, pages: seq<Option<Page>>, k: nat, offset: nat, total: nat, acc: Fetched): Fetched
    decreases |pages| - k
  {
    if !Continues(offset, total) then acc
    else match Request(c, offset)
      case None => acc
      case Some(url) =>
        var asked := Fetched(acc.testCases, acc.queries + [url]);
        var page := Response(pages, k);
        if !Usable(page) then asked
        else
          Loop(c, pages, k + 1, offset + page.value.maxResults, page.value.total,
            Fetched(asked.testCases + PageTestCases(c, page.value.issues), asked.queries))
  }

  /** What `getAllTestCases` returns when the successive requests are answered by `pages`. */
  function AllTestCases(c: JiraClient, pages: seq<Option<Page>>): Fetched {
    Loop(c, pages, 0, 0, 0, Fetched([], []))
  }

  /** `getAllTestCases`, with the HTTP requests answered by the oracle `pages`. */
  method GetAllTestCases(c: JiraClient, pages: seq<Option<Page>>) returns (testCases: seq<JiraTestCase>, queries: seq<string>)
    ensures Fetched(testCases, queries) == AllTestCases(c, pages)
  {
    testCases, queries := [], [];
    var offset: nat := 0;
    var total: nat := 0;
    var k := 0;
    while offset < total || total == 0
      invariant k <= |pages|
      invariant Loop(c, pages, k, offset, total, Fetched(testCases, queries)) == AllTestCases(c, pages)
      decreases |pages| - k
    {
      var request := Request(c, offset);
      if request.None? {
        return;
      }
      queries := queries + [request.value];
      var cases := Response(pages, k);
      if cases.None? || |cases.value.issues| == 0 {
        return;
      }
      var currentPage := PageTestCases(c, cases.value.issues);
      total := cases.value.total;
      offset := offset + cases.value.maxResults;
      testCases := testCases + currentPage;
      k := k + 1;
    }
  }

  /** The offset after the first `j` pages: the sum of their `maxResults`. */
  function OffsetAfter(pages: seq<Option<Page>>, j: nat): nat
    requires j <= |pages|
  {
    if j == 0 then 0 else OffsetAfter(pages, j - 1) + (if pages[j - 1].Some? then pages[j - 1].value.maxResults else 0)
  }

  /** The total after the first `j` pages: the last page's `total`, 0 before any page. */
  function TotalAfter(pages: seq<Option<Page>>, j: nat): nat
    requires j <= |pages|
  {
    if j == 0 || pages[j - 1].None? then 0 else pages[j - 1].value.total
  }

  /** The test cases of the first `n` pages, concatenated in page order. */
  function Collected(c: JiraClient, pages: seq<Option<Page>>, n: nat): seq<JiraTestCase>
    requires n <= |pages|
  {
    if n == 0 then []
    else Collected(c, pages, n - 1) + (if pages[n - 1].Some? then PageTestCases(c, pages[n - 1].value.issues) else [])
  }

  /** The requests for the first `n` pages, each at the offset reached before it. */
  function Queries(c: JiraClient, pages: seq<Option<Page>>, n: nat): (r: seq<string>)
    requires n <= |pages| + 1
    ensures |r| == n
  {
    seq(n, j requires 0 <= j < n => JiraQuery(c, OffsetAfter(pages, j)))
  }

  /** The loop, having gone on through the first `j` pages, goes on with page `j` too: it is still
      short of the total (or the total is 0) and the answer is a usable page. */
  predicate GoesOnAt(pages: seq<Option<Page>>, j: nat)
    requires j <= |pages|
  {
    Continues(OffsetAfter(pages, j), TotalAfter(pages, j)) && Usable(Response(pages, j))
  }

  /** The loop went on through the first `n` pages and stopped at page `n`. */
  ghost predicate StoppedAfter(pages: seq<Option<Page>>, n: nat) {
    n <= |pages| && (forall j :: 0 <= j < n ==> GoesOnAt(pages, j)) && !GoesOnAt(pages, n)
  }

  /** Without the required settings nothing is requested and nothing is collected. */
  lemma AllTestCasesGuard(c: JiraClient, pages: seq<Option<Page>>)
    requires !HasRequiredFields(c)
    ensures AllTestCases(c, pages) == Fetched([], [])
  {
  }

  /** The loop from page `k` on, in the state it reaches after going on through the first `k` pages. */
  ghost function LoopAt(c: JiraClient, pages: seq<Option<Page>>, k: nat): Fetched
    requires k <= |pages|
  {
    Loop(c, pages, k, OffsetAfter(pages, k), TotalAfter(pages, k), Fetched(Collected(c, pages, k), Queries(c, pages, k)))
  }

  /** What the loop has produced when it stops at page `n`: the pages before `n`, and one more request
      when it stopped because page `n` was not usable. */
  ghost function Outcome(c: JiraClient, pages: seq<Option<Page>>, n: nat): Fetched
    requires n <= |pages|
  {
    Fetched(Collected(c, pages, n),
            Queries(c, pages, if Continues(OffsetAfter(pages, n), TotalAfter(pages, n)) then n + 1 else n))
  }

  /** One turn of the loop on a usable page, for any state. */
  lemma LoopTurn(c: JiraClient, pages: seq<Option<Page>>, k: nat, offset: nat, total: nat, acc: Fetched)
    requires HasRequiredFields(c) && k < |pages| && Continues(offset, total) && Usable(pages[k])
    ensures Loop(c, pages, k, offset, total, acc) ==
      Loop(c, pages, k + 1, offset + pages[k].value.maxResults, pages[k].value.total,
           Fetched(acc.testCases + PageTestCases(c, pages[k].value.issues), acc.queries + [JiraQuery(c, offset)]))
  {
  }

  /** The last request, answered by a page the loop does not go on with, for any state. */
  lemma LoopLastRequest(c: JiraClient, pages: seq<Option<Page>>, k: nat, offset: nat, total: nat, acc: Fetched)
    requires HasRequiredFields(c) && Continues(offset, total) && !Usable(Response(pages, k))
    ensures Loop(c, pages, k, offset, total, acc) == Fetched(acc.testCases, acc.queries + [JiraQuery(c, offset)])
  {
  }

  lemma LoopStep(c: JiraClient, pages: seq<Option<Page>>, k: nat)
    requires HasRequiredFields(c) && k <= |pages| && GoesOnAt(pages, k)
    ensures k < |pages|
    ensures LoopAt(c, pages, k) == LoopAt(c, pages, k + 1)
  {
    var offset := OffsetAfter(pages, k);
    LoopTurn(c, pages, k, offset, TotalAfter(pages, k), Fetched(Collected(c, pages, k), Queries(c, pages, k)));
    assert Queries(c, pages, k) + [JiraQuery(c, offset)] == Queries(c, pages, k + 1);
  }

  lemma LoopEnd(c: JiraClient, pages: seq<Option<Page>>, k: nat)
    requires HasRequiredFields(c) && k <= |pages| && !GoesOnAt(pages, k)
    ensures LoopAt(c, pages, k) == Outcome(c, pages, k)
  {
    var offset, total := OffsetAfter(pages, k), TotalAfter(pages, k);
    if Continues(offset, total) {
      LoopLastRequest(c, pages, k, offset, total, Fetched(Collected(c, pages, k), Queries(c, pages, k)));
      assert Queries(c, pages, k) + [JiraQuery(c, offset)] == Queries(c, pages, k + 1);
    }
  }

  /** The page at which the loop, having gone on through the first `k` pages, stops. */
  ghost function StopIndex(pages: seq<Option<Page>>, k: nat): (n: nat)
    requires k <= |pages|
    ensures k <= n <= |pages|
    decreases |pages| - k
  {
    if GoesOnAt(pages, k) then StopIndex(pages, k + 1) else k
  }

  /** The loop goes on through every page before the stop index and stops there. */
  lemma {:induction false} StopIndexStops(pages: seq<Option<Page>>, k: nat)
    requires k <= |pages|
    requires forall j :: 0 <= j < k ==> GoesOnAt(pages, j)
    ensures StoppedAfter(pages, StopIndex(pages, k))
    decreases |pages| - k
  {
    if GoesOnAt(pages, k) {
      assert forall j :: 0 <= j < k + 1 ==> GoesOnAt(pages, j);
      StopIndexStops(pages, k + 1);
    }
  }

  /** Run from page `k`, the loop produces what it has when it stops at the stop index. */
  lemma {:induction false} LoopFrom(c: JiraClient, pages: seq<Option<Page>>, k: nat)
    requires HasRequiredFields(c) && k <= |pages|
    ensures LoopAt(c, pages, k) == Outcome(c, pages, StopIndex(pages, k))
    decreases |pages| - k
  {
    if GoesOnAt(pages, k) {
      assert StopIndex(pages, k) == StopIndex(pages, k + 1);
      LoopStep(c, pages, k);
      LoopFrom(c, pages, k + 1);
    } else {
      LoopEnd(c, pages, k);
    }
  }

  /** The loop reads pages while they are usable and the offset has not reached the total (or the total is 0),
      collects their test cases in page order, and requests each page at the offset reached before it. */
  lemma AllTestCasesSpec(c: JiraClient, pages: seq<Option<Page>>)
    requires HasRequiredFields(c)
    ensures exists n: nat :: StoppedAfter(pages, n) && AllTestCases(c, pages) == Outcome(c, pages, n)
  {
    assert Queries(c, pages, 0) == [];
    assert AllTestCases(c, pages) == LoopAt(c, pages, 0);
    LoopFrom(c, pages, 0);
    StopIndexStops(pages, 0);
  }
}
