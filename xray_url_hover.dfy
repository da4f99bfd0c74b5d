/** The hover of `src/providers/xrayUrlHover.ts`: on a line that starts with the custom method, the url
    of the test case named by the method's argument. */
module XrayUrlHover {
  import opened Options
  import opened Strings
  import opened Utils
  import Report
  import CompletionProvider

  /** `provideXrayUrlHover` on a line; `None` stands for no hover. */
  function ProvideXrayUrlHover(cfg: Config, line: string): Option<string> {
    var m := cfg.autocompletion.customMethod;
    if !cfg.autocompletion.enable then None
    else if !(m <= Trim(line)) then None
    else
      var arg := GetCustomMethodArgument(line, m);
      if arg == "" then None
      else
        var url := if cfg.autocompletion.provideIdOnly
          then Report.BrowseUrl(cfg.atlassian.domain, cfg.atlassian.project + "-" + arg)
          else arg;
        if url == "" then None else Some(url)
  }

  /** There is a hover exactly when hovering is enabled, the trimmed line starts with the method and the
      method has a non-empty argument; the hover is never empty, links the id under the project with
      `provideIdOnly` and is the argument itself otherwise. */
  lemma HoverSpec(cfg: Config, line: string)
    ensures var m := cfg.autocompletion.customMethod;
      ProvideXrayUrlHover(cfg, line).Some? <==>
        cfg.autocompletion.enable && m <= Trim(line) && GetCustomMethodArgument(line, m) != ""
    ensures var h := ProvideXrayUrlHover(cfg, line); var arg := GetCustomMethodArgument(line, cfg.autocompletion.customMethod);
      h.Some? ==>
        (h.value != "" && '"' !in arg &&
         (cfg.autocompletion.provideIdOnly ==> h.value == cfg.atlassian.domain + "/browse/" + cfg.atlassian.project + "-" + arg) &&
         (!cfg.autocompletion.provideIdOnly ==> h.value == arg))
  {
  }

  /** A line that calls the method on the text a completion item inserted, `m("…")`, hovers the browse
      url of that item's test case, with or without `provideIdOnly`. */
  lemma HoverOfInsertedItem(cfg: Config, id: string)
    requires cfg.autocompletion.enable
    requires var m := cfg.autocompletion.customMethod; m != "" && !IsSpace(m[0])
    requires id != "" && '-' !in id
    requires CompletionProvider.NoQuotes(cfg.atlassian.domain) && CompletionProvider.NoQuotes(cfg.atlassian.project)
    requires CompletionProvider.NoQuotes(id)
    ensures var key := cfg.atlassian.project + "-" + id;
      var line := CallText(cfg.autocompletion.customMethod, CompletionProvider.InsertText(cfg, key));
      ProvideXrayUrlHover(cfg, line) == Some(Report.BrowseUrl(cfg.atlassian.domain, key))
  {
    var m := cfg.autocompletion.customMethod;
    var key := cfg.atlassian.project + "-" + id;
    var x := CompletionProvider.InsertText(cfg, key);
    CompletionProvider.InsertTextSpec(cfg, cfg.atlassian.project, id);
    CompletionProvider.InsertedTextHasNoQuotes(cfg, id);
    ArgumentOfLoneCall(m, x);
    assert m <= CallText(m, x);
  }
}
