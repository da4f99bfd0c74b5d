/** The completion provider of `src/providers/JiraCompletionProvider.ts`: after the custom method, one
    completion item per cached test case. */
module CompletionProvider {
  import opened Options
  import opened Strings
  import opened Utils
  import opened Client
  import Report
  import Covered

  /** The `kind` the provider gives every item. */
  const ITEM_KIND := 12

  /** A completion item: what the list shows, what it inserts, whether it is preselected, and its kind. */
  datatype CompletionItem = CompletionItem(labelText: string, insertText: string, preselect: bool, kind: nat)

  /** The text a test case inserts: the part of the key after its last `-`, or the key's browse url. */
  function InsertText(cfg: Config, key: string): string {
    if cfg.autocompletion.provideIdOnly then LastSegment(key, '-')
    else Report.BrowseUrl(cfg.atlassian.domain, key)
  }

  function Item(cfg: Config, tc: JiraTestCase, index: nat): CompletionItem {
    CompletionItem(tc.key + " | " + tc.summary, InsertText(cfg, tc.key), index == 0, ITEM_KIND)
  }

  /** `provideCompletionItems`, given the text of the line up to the cursor and the list the cache returned;
      `None` stands for the provider returning nothing. */
  function ProvideCompletionItems(cfg: Config, linePrefix: string, testCases: seq<JiraTestCase>): Option<seq<CompletionItem>> {
    var m := cfg.autocompletion.customMethod;
    if !cfg.autocompletion.enable || m == "" then None
    else if !(m <= Trim(linePrefix)) then None
    else if |testCases| == 0 then None
    else Some(seq(|testCases|, i requires 0 <= i < |testCases| => Item(cfg, testCases[i], i)))
  }

  /** Items are offered exactly when completion is enabled with a custom method, the trimmed line starts
      with it and the cache holds test cases; then there is one item per test case, in cache order, the
      first one alone preselected, each labelled with key and summary and inserting its `InsertText`. */
  lemma CompletionItemsSpec(cfg: Config, linePrefix: string, testCases: seq<JiraTestCase>)
    ensures var m := cfg.autocompletion.customMethod;
      ProvideCompletionItems(cfg, linePrefix, testCases).Some? <==>
        cfg.autocompletion.enable && m != "" && m <= Trim(linePrefix) && testCases != []
    ensures var r := ProvideCompletionItems(cfg, linePrefix, testCases);
      r.Some? ==>
        (|r.value| == |testCases| &&
         (forall i :: 0 <= i < |r.value| ==> (r.value[i].preselect <==> i == 0)) &&
         (forall i :: 0 <= i < |r.value| ==>
           r.value[i].labelText == testCases[i].key + " | " + testCases[i].summary && r.value[i].kind == ITEM_KIND &&
           r.value[i].insertText == InsertText(cfg, testCases[i].key)))
  {
  }

  /** With `provideIdOnly`, a key made of a dash-free project, a dash and a dash-free number inserts the
      number alone; otherwise it inserts the browse url of the key. */
  lemma InsertTextSpec(cfg: Config, project: string, id: string)
    requires '-' !in id
    ensures cfg.autocompletion.provideIdOnly ==> InsertText(cfg, project + "-" + id) == id
    ensures !cfg.autocompletion.provideIdOnly ==>
      InsertText(cfg, project + "-" + id) == cfg.atlassian.domain + "/browse/" + project + "-" + id
  {
    LastSegmentAfter(project, id, '-');
    assert project + "-" + id == project + ['-'] + id;
  }
  lemma InsertedTextHasNoQuotes(cfg: Config, id: string)
    requires id != "" && '-' !in id
    requires var a := cfg.atlassian; NoQuotes(a.domain) && NoQuotes(a.project) && NoQuotes(id)
    ensures var x := InsertText(cfg, cfg.atlassian.project + "-" + id); NoQuotes(x) && x != ""
  {
    InsertTextSpec(cfg, cfg.atlassian.project, id);
    if !cfg.autocompletion.provideIdOnly {
      var x := InsertText(cfg, cfg.atlassian.project + "-" + id);
      assert x == cfg.atlassian.domain + ("/browse/" + cfg.atlassian.project + "-") + id;
      NoQuotesConcat(cfg.atlassian.domain, "/browse/" + cfg.atlassian.project + "-", id);
    }
  }

  /** No quote of either kind. */
  predicate NoQuotes(s: string) {
    '"' !in s && '\'' !in s
  }

  lemma NoQuotesConcat(a: string, b: string, c: string)
    requires NoQuotes(a) && NoQuotes(b) && NoQuotes(c)
    ensures NoQuotes(a + b + c)
  {
  }

  /** A line that calls the method on the text a completion item inserted, `m("…")`, is scanned, and the
      record it yields covers that item's test case, with or without `provideIdOnly`. */
  lemma ScannedCompletionCovers(cfg: Config, id: string, summary: string, url: string, line: nat, file: string)
    requires var m := cfg.autocompletion.customMethod; m != "" && !IsSpace(m[0])
    requires id != "" && '-' !in id
    requires var a := cfg.atlassian; NoQuotes(a.domain) && NoQuotes(a.project) && NoQuotes(id)
    ensures var m := cfg.autocompletion.customMethod; var key := cfg.atlassian.project + "-" + id;
      var text := CallText(m, InsertText(cfg, key));
      Covered.Mentions(text, m) && Covered.TestCaseId(text, m, cfg.autocompletion.provideIdOnly) == id &&
      Report.Matches(cfg.atlassian.project, Covered.Coverage(id, line, file), JiraTestCase(key, summary, url))
  {
    var m := cfg.autocompletion.customMethod;
    var key := cfg.atlassian.project + "-" + id;
    var x := InsertText(cfg, key);
    InsertTextSpec(cfg, cfg.atlassian.project, id);
    InsertedTextHasNoQuotes(cfg, id);
    ArgumentOfLoneCall(m, x);
    assert m <= CallText(m, x);
    if !cfg.autocompletion.provideIdOnly {
      var head := cfg.atlassian.domain + "/browse/" + cfg.atlassian.project;
      assert x == head + ['-'] + id;
      LastSegmentAfter(head, id, '-');
    }
  }
}
