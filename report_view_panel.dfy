/** The coverage panel of `src/providers/ReportViewPanel.ts`: what the panel shows for the cached test
    cases and the scanned records, and the life cycle of the single panel and its subscriptions. */
module ReportViewPanel {
  import opened Options
  import opened Strings
  import opened Utils
  import opened Covered
  import opened Client
  import Seqs
  import Report

  /** The marker the panel shows for each record that covers a test case. */
  const MARKER := "&#127774;"

  /** A row of the panel's table: the key with its browse link, the summary and the coverage text. */
  datatype PanelRow = PanelRow(key: string, href: string, summary: string, coverage: string)

  /** The panel's content: the percentage in its heading and the rows of its table. */
  datatype View = View(percentage: Report.Percent, rows: seq<PanelRow>)

  /** `coverage(testCase)`: one marker per record that covers the test case. */
  function Markers(project: string, covered: seq<Coverage>, tc: JiraTestCase): seq<string> {
    var matching := Seqs.Filter((c: Coverage) => Report.Matches(project, c, tc), covered);
    seq(|matching|, _ => MARKER)
  }

  /** The coverage text: the markers as a template string prints an array, joined by commas, or `-`. */
  function CoverageText(markers: seq<string>): string {
    if |markers| > 0 then Join(markers, ",") else "-"
  }

  function Row(cfg: Config, covered: seq<Coverage>, tc: JiraTestCase): PanelRow {
    PanelRow(tc.key, Report.BrowseUrl(cfg.atlassian.domain, tc.key), tc.summary,
      CoverageText(Markers(cfg.atlassian.project, covered, tc)))
  }

  /** `_getHtmlForWebview(webview, testCases, covered)`, with the markup left out. */
  function PanelView(cfg: Config, testCases: seq<JiraTestCase>, covered: seq<Coverage>): View {
    var project := cfg.atlassian.project;
    var coveredTestCases := Seqs.Filter((tc: JiraTestCase) => Report.FindCoverage(project, covered, tc).Some?, testCases);
    View(Report.Percentage(|coveredTestCases|, |testCases|),
      seq(|testCases|, i requires 0 <= i < |testCases| => Row(cfg, covered, testCases[i])))
  }

  /** The panel's percentage, computed with `find`, is the report's overall percentage, computed with `some`. */
  lemma PanelPercentageIsReportPercentage(cfg: Config, testCases: seq<JiraTestCase>, covered: seq<Coverage>)
    ensures PanelView(cfg, testCases, covered).percentage == Report.GenerateReport(cfg, testCases, covered).percentage
  {
    Report.FindAgreesWithSome(cfg.atlassian.project, covered, testCases);
  }

  /** There are as many markers as the report has links for the test case. */
  lemma {:induction false} MarkersCountLinks(project: string, covered: seq<Coverage>, tc: JiraTestCase)
    ensures |Markers(project, covered, tc)| == |Report.CoverageLinks(project, covered, tc)|
  {
    if |covered| > 0 {
      MarkersCountLinks(project, covered[1..], tc);
      Seqs.FilterConcat((c: Coverage) => Report.Matches(project, c, tc), [covered[0]], covered[1..]);
      assert [covered[0]] + covered[1..] == covered;
    }
  }

  /** The coverage text reads back as its markers: `-` for none, and splitting at the commas gives back
      one marker per covering record. */
  lemma CoverageTextSpec(project: string, covered: seq<Coverage>, tc: JiraTestCase)
    ensures var text := CoverageText(Markers(project, covered, tc));
      (text == "-" <==> !Report.IsCovered(project, covered, tc)) &&
      (text != "-" ==> Split(text, ',') == Markers(project, covered, tc))
    ensures |Markers(project, covered, tc)| == |Report.CoverageLinks(project, covered, tc)|
  {
    var markers := Markers(project, covered, tc);
    MarkersCountLinks(project, covered, tc);
    Report.CoverageLinksSpec(project, covered, tc);
    if |markers| > 0 {
      assert forall i :: 0 <= i < |markers| ==> ',' !in markers[i];
      SplitJoin(markers, ',');
      assert Split(Join(markers, ","), ',') == markers;
    }
  }

  /** One row per test case, in cache order: its key, browse link and summary, and `-` exactly when no
      record covers it. */
  lemma PanelRowsSpec(cfg: Config, testCases: seq<JiraTestCase>, covered: seq<Coverage>)
    ensures |PanelView(cfg, testCases, covered).rows| == |testCases|
    ensures forall n :: 0 <= n < |testCases| ==>
      var row := PanelView(cfg, testCases, covered).rows[n];
      row.key == testCases[n].key && row.summary == testCases[n].summary &&
      row.href == cfg.atlassian.domain + "/browse/" + testCases[n].key &&
      (row.coverage == "-" <==> forall i :: 0 <= i < |covered| ==> !Report.Matches(cfg.atlassian.project, covered[i], testCases[n]))
  {
    var rows := PanelView(cfg, testCases, covered).rows;
    forall n | 0 <= n < |testCases|
      ensures rows[n].coverage == "-" <==>
        forall i :: 0 <= i < |covered| ==> !Report.Matches(cfg.atlassian.project, covered[i], testCases[n])
    {
      CoverageTextSpec(cfg.atlassian.project, covered, testCases[n]);
      Report.IsCoveredSpec(cfg.atlassian.project, covered, testCases[n]);
    }
  }

  /** A listener registration held by the panel, disposed with it. */
  class Subscription {
    var disposed: bool

    constructor ()
      ensures !disposed
    {
      disposed := false;
    }

    method Dispose()
      modifies this
      ensures disposed
    {
      disposed := true;
    }
  }

  /** The editor's panel object: disposed or not, how often it was revealed, its title and content. */
  class WebviewPanel {
    var disposed: bool
    var revealCount: nat
    var title: string
    var content: Option<View>

    /** `vscode.window.createWebviewPanel(viewType, "Test Coverage", …)`. */
    constructor ()
      ensures !disposed && revealCount == 0 && title == "Test Coverage" && content == None
    {
      disposed := false;
      revealCount := 0;
      title := "Test Coverage";
      content := None;
    }

    method Reveal()
      modifies this
      ensures revealCount == old(revealCount) + 1
      ensures disposed == old(disposed) && title == old(title) && content == old(content)
    {
      revealCount := revealCount + 1;
    }

    method Dispose()
      modifies this
      ensures disposed
      ensures revealCount == old(revealCount) && title == old(title) && content == old(content)
    {
      disposed := true;
    }
  }

  /** `CoverageReportPanel`: the editor panel it drives and the subscriptions it holds. */
  class CoverageReportPanel {
    const panel: WebviewPanel
    var disposables: seq<Subscription>

    /** The private constructor: the content is computed once, from the test cases `ticketStorage.get()`
        gave and the records `getCoveredTestCases()` gave, and three listeners are registered. */
    constructor (panel: WebviewPanel, cfg: Config, testCases: seq<JiraTestCase>, covered: seq<Coverage>)
      modifies panel
      ensures this.panel == panel
      ensures panel.title == "Test Coverage" && panel.content == Some(PanelView(cfg, testCases, covered))
      ensures panel.disposed == old(panel.disposed) && panel.revealCount == old(panel.revealCount)
      ensures |disposables| == 3 && forall i :: 0 <= i < 3 ==> fresh(disposables[i]) && !disposables[i].disposed
    {
      this.panel := panel;
      var onDispose := new Subscription();
      var onViewState := new Subscription();
      var onMessage := new Subscription();
      disposables := [onDispose, onViewState, onMessage];
      new;
      UpdateStats(cfg, testCases, covered);
    }

    /** `_updateStats(webview, testCases, covered)`: the title is reset and the content recomputed. */
    method UpdateStats(cfg: Config, testCases: seq<JiraTestCase>, covered: seq<Coverage>)
      modifies panel
      ensures panel.title == "Test Coverage" && panel.content == Some(PanelView(cfg, testCases, covered))
      ensures panel.disposed == old(panel.disposed) && panel.revealCount == old(panel.revealCount)
    {
      panel.title := "Test Coverage";
      panel.content := Some(PanelView(cfg, testCases, covered));
    }

    /** `dispose()`: the registry forgets its panel, the editor panel is disposed and every subscription
        is popped and disposed, last registered first. */
    method Dispose(registry: PanelRegistry)
      modifies this, registry, panel, disposables
      ensures registry.currentPanel == null
      ensures panel.disposed
      ensures disposables == []
      ensures forall i :: 0 <= i < |old(disposables)| ==> old(disposables)[i].disposed
    {
      registry.currentPanel := null;
      panel.Dispose();
      ghost var all := disposables;
      while |disposables| > 0
        invariant disposables == all[..|disposables|]
        invariant forall i :: |disposables| <= i < |all| ==> all[i].disposed
        invariant registry.currentPanel == null && panel.disposed
        decreases |disposables|
      {
        var x := disposables[|disposables| - 1];
        disposables := disposables[..|disposables| - 1];
        x.Dispose();
      }
    }
  }

  /** The static `CoverageReportPanel.currentPanel`: at most one panel is current. */
  class PanelRegistry {
    var currentPanel: CoverageReportPanel?

    constructor ()
      ensures currentPanel == null
    {
      currentPanel := null;
    }

    /** `createOrShow(extensionUri)`: a current panel is revealed and no panel is created; otherwise a new
        editor panel is created and becomes the current one. */
    method CreateOrShow(cfg: Config, testCases: seq<JiraTestCase>, covered: seq<Coverage>)
      modifies this, if currentPanel != null then {currentPanel.panel} else {}
      ensures old(currentPanel) != null ==>
        currentPanel == old(currentPanel) && currentPanel.panel.revealCount == old(currentPanel.panel.revealCount) + 1 &&
        currentPanel.panel.content == old(currentPanel.panel.content)
      ensures old(currentPanel) == null ==>
        currentPanel != null && fresh(currentPanel) && fresh(currentPanel.panel) &&
        currentPanel.panel.content == Some(PanelView(cfg, testCases, covered)) && !currentPanel.panel.disposed
    {
      if currentPanel != null {
        currentPanel.panel.Reveal();
        return;
      }
      var panel := new WebviewPanel();
      currentPanel := new CoverageReportPanel(panel, cfg, testCases, covered);
    }

    /** `revive(panel, extensionUri)`: a panel the editor restored becomes the current one, whatever was current. */
    method Revive(panel: WebviewPanel, cfg: Config, testCases: seq<JiraTestCase>, covered: seq<Coverage>)
      modifies this, panel
      ensures currentPanel != null && fresh(currentPanel) && currentPanel.panel == panel
      ensures panel.content == Some(PanelView(cfg, testCases, covered))
    {
      currentPanel := new CoverageReportPanel(panel, cfg, testCases, covered);
    }
  }
}
