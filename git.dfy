/** `GitRangeGit.get_filtered_files`: ask git which files changed in a
    revision range below the docs directory, and keep the site's pages whose
    repository-relative path is among them. */
module Git {
  import opened Common
  import opened PosixPath
  import opened Text
  import opened Utils

  /** A page of the site; only its `src_uri` (the path relative to the docs
      directory) takes part. */
  datatype DocFile = DocFile(srcUri: string)

  /** The plugin's `from` and `to` settings. */
  datatype PluginConfig = PluginConfig(fromRef: string, toRef: string)

  /** The MkDocs configuration; only `docs_dir` takes part. */
  datatype SiteConfig = SiteConfig(docsDir: string)

  /** The arguments of one `git diff` call. */
  datatype DiffRequest = DiffRequest(revisionRange: string, options: seq<string>, pathspec: string)

  /** What a `git diff` call gives: its standard output, or the text of the
      exception it raises. */
  datatype DiffOutcome = Output(text: string) | Failure(message: string)

  /** The repository: its root directory and the `git diff` command, as a
      function of the request. */
  datatype Repo = Repo(workingDir: string, diff: DiffRequest -> DiffOutcome)

  datatype Plugin = Plugin(config: PluginConfig, repo: Repo)

  /** The pages kept, and the message given to `logging.error`, if any. */
  datatype Filtered = Filtered(files: seq<DocFile>, log: Option<string>)

  /** Names only, and the `--diff-filter` letters `dux`, passed to git as written. */
  const DiffOptions: seq<string> := ["--name-only", "--diff-filter=dux"]

  const ErrorPrefix: string := "Error getting filtered files: "

  // ---------------------------------------------------------------------------
  // The git diff request

  /** The request `get_filtered_files` sends: the range `from..to`, where an
      argument that is given overrides the plugin's setting. */
  function Request(plugin: Plugin, site: SiteConfig, fromRef: Option<string>, toRef: Option<string>): DiffRequest {
    var from := fromRef.GetOr(plugin.config.fromRef);
    var to := toRef.GetOr(plugin.config.toRef);
    DiffRequest(from + ".." + to, DiffOptions, site.docsDir)
  }

  predicate DotsAt(s: string, i: int) {
    0 <= i && i + 1 < |s| && s[i] == '.' && s[i + 1] == '.'
  }

  /** The position of the first `..` in `s`, or `|s|` when there is none. */
  function FindDots(s: string, from: nat): (k: nat)
    requires from <= |s|
    ensures from <= k <= |s|
    ensures k < |s| ==> DotsAt(s, k)
    ensures forall i :: from <= i < k ==> !DotsAt(s, i)
    decreases |s| - from
  {
    if from + 1 >= |s| then |s|
    else if DotsAt(s, from) then from
    else FindDots(s, from + 1)
  }

  /** The text before and after the first `..` of `s`. This is how a range
      `A..B` splits when `A` is a reference name; git's symmetric form
      `A...B` is not modelled. */
  function ParseRange(s: string): Option<(string, string)> {
    var k := FindDots(s, 0);
    if k == |s| then None else Some((s[..k], s[k + 2..]))
  }

  /** A reference that may stand on the left of a range: git's reference
      names neither contain `..` nor end with `.`. */
  predicate RangeEnd(a: string) {
    (forall i :: 0 <= i < |a| ==> !DotsAt(a, i)) && (a == [] || a[|a| - 1] != '.')
  }

  /** The range text names both references unambiguously. */
  lemma RangeRoundTrip(a: string, b: string)
    requires RangeEnd(a)
    ensures ParseRange(a + ".." + b) == Some((a, b))
  {
    var s := a + ".." + b;
    forall i | 0 <= i < |a| ensures !DotsAt(s, i) {
      if i + 1 < |a| {
        assert s[i] == a[i] && s[i + 1] == a[i + 1];
        assert !DotsAt(a, i);
      } else {
        assert s[i] == a[i];
      }
    }
    assert DotsAt(s, |a|);
    assert s[..|a|] == a;
    assert s[|a| + 2..] == b;
  }

  /** The request asks for names only, below the docs directory, over the
      range whose ends are the arguments given or else the plugin's
      settings; with a left end git can read back, the range splits into
      exactly those two ends. */
  lemma RequestNamesRange(plugin: Plugin, site: SiteConfig, fromRef: Option<string>, toRef: Option<string>)
    ensures var req := Request(plugin, site, fromRef, toRef);
            var from := if fromRef.Some? then fromRef.value else plugin.config.fromRef;
            var to := if toRef.Some? then toRef.value else plugin.config.toRef;
            && req.revisionRange == from + ".." + to
            && (RangeEnd(from) ==> ParseRange(req.revisionRange) == Some((from, to)))
            && req.options == DiffOptions && req.pathspec == site.docsDir
  {
    var from := fromRef.GetOr(plugin.config.fromRef);
    if RangeEnd(from) {
      RangeRoundTrip(from, toRef.GetOr(plugin.config.toRef));
    }
  }

  // ---------------------------------------------------------------------------
  // Selecting the pages

  /** Page `f` converts to a path that is one of the entries. */
  predicate Listed(f: DocFile, entries: seq<string>, convert: string -> Result<string>) {
    convert(f.srcUri).Ok? && convert(f.srcUri).value in entries
  }

  /** The selection so far, extended by page `f`: an earlier error stays;
      a conversion error replaces the selection; otherwise `f` is added when
      its converted path is an entry. */
  function SelectNext(acc: Result<seq<DocFile>>, f: DocFile, entries: seq<string>, convert: string -> Result<string>)
    : Result<seq<DocFile>>
  {
    if acc.Err? then acc
    else
      var c := convert(f.srcUri);
      if c.Err? then Err(c.error)
      else Ok(if c.value in entries then acc.value + [f] else acc.value)
  }

  /** The pages of `files`, in order, whose converted path is among the
      entries; the first page whose conversion raises stops the selection
      with that error. */
  function Selected(files: seq<DocFile>, entries: seq<string>, convert: string -> Result<string>)
    : Result<seq<DocFile>>
    decreases |files|
  {
    if files == [] then Ok([])
    else SelectNext(Selected(files[..|files| - 1], entries, convert), files[|files| - 1], entries, convert)
  }

  /** The selection fails exactly when some page's path cannot be converted,
      and then with the error of such a page. */
  lemma {:induction false} SelectedOkIff(files: seq<DocFile>, entries: seq<string>, convert: string -> Result<string>)
    ensures Selected(files, entries, convert).Ok? <==> forall f :: f in files ==> convert(f.srcUri).Ok?
    ensures Selected(files, entries, convert).Err? ==>
            exists f :: f in files && convert(f.srcUri) == Err(Selected(files, entries, convert).error)
    decreases |files|
  {
    if files != [] {
      var init := files[..|files| - 1];
      var f := files[|files| - 1];
      SelectedOkIff(init, entries, convert);
      assert files == init + [f];
      var r := Selected(files, entries, convert);
      if Selected(init, entries, convert).Err? {
        var g :| g in init && convert(g.srcUri) == Err(Selected(init, entries, convert).error);
        assert g in files && convert(g.srcUri) == Err(r.error);
      } else if convert(f.srcUri).Err? {
        assert f in files && convert(f.srcUri) == Err(r.error);
      }
    }
  }

  /** A page is selected exactly when it is one of `files` and is listed. */
  lemma {:induction false} SelectedMembers(files: seq<DocFile>, entries: seq<string>, convert: string -> Result<string>)
    requires Selected(files, entries, convert).Ok?
    ensures forall f :: f in Selected(files, entries, convert).value <==> f in files && Listed(f, entries, convert)
    decreases |files|
  {
    if files != [] {
      var init := files[..|files| - 1];
      var last := files[|files| - 1];
      var ri := Selected(init, entries, convert).value;
      SelectedMembers(init, entries, convert);
      assert files == init + [last];
      assert Selected(files, entries, convert).value == if Listed(last, entries, convert) then ri + [last] else ri;
    }
  }

  /** The selected pages keep their order in `files`. */
  /** A selection that went through keeps exactly the listed pages, in
      order and with repeats: the appends of the loop. */
  lemma {:induction false} SelectedIsFilter(files: seq<DocFile>, entries: seq<string>, convert: string -> Result<string>)
    requires Selected(files, entries, convert).Ok?
    ensures Selected(files, entries, convert).value == Filter((f: DocFile) => Listed(f, entries, convert), files)
    decreases |files|
  {
    if files != [] {
      SelectedIsFilter(files[..|files| - 1], entries, convert);
    }
  }

  lemma {:induction false} SelectedSubseq(files: seq<DocFile>, entries: seq<string>, convert: string -> Result<string>)
    requires Selected(files, entries, convert).Ok?
    ensures IsSubseq(Selected(files, entries, convert).value, files)
    decreases |files|
  {
    if files != [] {
      var init := files[..|files| - 1];
      var r := Selected(files, entries, convert).value;
      var ri := Selected(init, entries, convert).value;
      SelectedSubseq(init, entries, convert);
      if r != ri {
        assert r[..|r| - 1] == ri;
      }
    }
  }

  /** Only which paths the diff lists matters, not their order or repeats. */
  lemma {:induction false} SelectedEntrySet(files: seq<DocFile>, e1: seq<string>, e2: seq<string>, convert: string -> Result<string>)
    requires forall x :: x in e1 <==> x in e2
    ensures Selected(files, e1, convert) == Selected(files, e2, convert)
    decreases |files|
  {
    if files != [] {
      SelectedEntrySet(files[..|files| - 1], e1, e2, convert);
    }
  }

  /** One more page: the step the loop of `get_filtered_files` takes. */
  lemma SelectedStep(files: seq<DocFile>, i: nat, entries: seq<string>, convert: string -> Result<string>)
    requires i < |files|
    ensures Selected(files[..i + 1], entries, convert) ==
            SelectNext(Selected(files[..i], entries, convert), files[i], entries, convert)
  {
    assert files[..i + 1][..i] == files[..i];
  }

  /** A selection that has failed on a prefix of the pages fails, with the
      same error, on all of them: the loop may stop at the first error. */
  lemma {:induction false} SelectedPrefixErr(files: seq<DocFile>, k: nat, entries: seq<string>, convert: string -> Result<string>)
    requires k <= |files|
    requires Selected(files[..k], entries, convert).Err?
    ensures Selected(files, entries, convert) == Selected(files[..k], entries, convert)
    decreases |files| - k
  {
    if k < |files| {
      var init := files[..|files| - 1];
      assert init[..k] == files[..k];
      SelectedPrefixErr(init, k, entries, convert);
    } else {
      assert files[..k] == files;
    }
  }

  // ---------------------------------------------------------------------------
  // The whole operation

  /** What `get_filtered_files` returns and logs for one outcome of the
      `git diff` call: on an exception from git, or from a conversion, no
      page and an error message; on blank output, no page and no message;
      otherwise the selected pages. */
  function FilteredFiles(outcome: DiffOutcome, files: seq<DocFile>, convert: string -> Result<string>): Filtered {
    match outcome
    case Failure(m) => Filtered([], Some(ErrorPrefix + m))
    case Output(text) =>
      if Strip(text) == "" then Filtered([], None)
      else Report(Selected(files, ParseDiff(text), convert))
  }

  /** The `return modified_files` of a selection that went through, or the
      `except` branch of one that raised. */
  function Report(selection: Result<seq<DocFile>>): Filtered {
    match selection
    case Ok(fs) => Filtered(fs, None)
    case Err(e) => Filtered([], Some(ErrorPrefix + e))
  }

  /** A message is logged exactly when git fails, or when the diff lists
      something and some page's path cannot be converted; a run that logs
      keeps no page. */
  lemma FilteredLogs(outcome: DiffOutcome, files: seq<DocFile>, convert: string -> Result<string>)
    ensures var r := FilteredFiles(outcome, files, convert);
            (r.log.Some? <==>
               outcome.Failure? ||
               (Strip(outcome.text) != "" && exists f :: f in files && convert(f.srcUri).Err?)) &&
            (r.log.Some? ==> r.files == []) &&
            (outcome.Failure? ==> r.log == Some(ErrorPrefix + outcome.message)) &&
            (outcome.Output? && r.log.Some? ==>
               exists f :: f in files && convert(f.srcUri).Err? &&
                           r.log == Some(ErrorPrefix + convert(f.srcUri).error))
  {
    if outcome.Output? {
      SelectedOkIff(files, ParseDiff(outcome.text), convert);
    }
  }

  /** With a converter that, like the plugin's (`Utils.ConverterErr`), fails
      only on an empty path and then with relpath's message, a logged
      conversion error always reads the same and comes from a page whose
      `src_uri` is empty. */
  lemma ConversionErrorMessage(outcome: DiffOutcome, files: seq<DocFile>, convert: string -> Result<string>)
    requires outcome.Output?
    requires forall p :: convert(p).Err? ==> p == "" && convert(p).error == NoPathSpecified
    ensures var r := FilteredFiles(outcome, files, convert);
            r.log.Some? ==> r.log == Some(ErrorPrefix + NoPathSpecified) && DocFile("") in files
  {
    var r := FilteredFiles(outcome, files, convert);
    FilteredLogs(outcome, files, convert);
    if r.log.Some? {
      var f :| f in files && convert(f.srcUri).Err? && r.log == Some(ErrorPrefix + convert(f.srcUri).error);
      assert f == DocFile("");
    }
  }

  /** No entry, no page. */
  lemma {:induction false} SelectedNoEntries(files: seq<DocFile>, convert: string -> Result<string>)
    ensures Selected(files, [], convert).Ok? ==> Selected(files, [], convert).value == []
    decreases |files|
  {
    if files != [] {
      SelectedNoEntries(files[..|files| - 1], convert);
    }
  }

  /** The early return on blank output changes no result: with or without
      it, such output keeps no page (it only keeps a conversion error from
      being logged). */
  lemma EarlyReturnAgrees(text: string, files: seq<DocFile>, convert: string -> Result<string>)
    requires Strip(text) == ""
    ensures FilteredFiles(Output(text), files, convert) == Filtered([], None)
    ensures ParseDiff(text) == []
    ensures Selected(files, ParseDiff(text), convert).Ok? ==>
              Selected(files, ParseDiff(text), convert).value == FilteredFiles(Output(text), files, convert).files
  {
    ParseDiffEmptyIffBlank(text);
    SelectedNoEntries(files, convert);
  }

  /** When nothing is logged, a page is kept exactly when its converted path
      is, once stripped, a line of git's output; the kept pages are in the
      order of `files`. */
  lemma FilteredMembers(text: string, files: seq<DocFile>, convert: string -> Result<string>)
    requires forall f :: f in files && convert(f.srcUri).Ok? ==> convert(f.srcUri).value != ""
    ensures var r := FilteredFiles(Output(text), files, convert);
            IsSubseq(r.files, files) && |r.files| <= |files| &&
            (r.log.None? ==>
               forall f :: f in r.files <==>
                 f in files && convert(f.srcUri).Ok? &&
                 exists l :: l in SplitLines(text) && Strip(l) == convert(f.srcUri).value)
  {
    var entries := ParseDiff(text);
    var r := FilteredFiles(Output(text), files, convert);
    forall f | f in files && convert(f.srcUri).Ok?
      ensures convert(f.srcUri).value in entries <==>
              exists l :: l in SplitLines(text) && Strip(l) == convert(f.srcUri).value
    {
      EntryIsLine(text, convert(f.srcUri).value);
    }
    if Strip(text) == "" {
      ParseDiffEmptyIffBlank(text);
    } else if Selected(files, entries, convert).Ok? {
      SelectedSubseq(files, entries, convert);
      SelectedMembers(files, entries, convert);
      SubseqBounds(r.files, files);
    }
  }

  /** Two outputs of git that list the same paths, in any order and with any
      repeats or blank lines, give the same pages and the same message. */
  lemma FilteredEntrySet(t1: string, t2: string, files: seq<DocFile>, convert: string -> Result<string>)
    requires forall x :: x in ParseDiff(t1) <==> x in ParseDiff(t2)
    ensures FilteredFiles(Output(t1), files, convert) == FilteredFiles(Output(t2), files, convert)
  {
    ParseDiffEmptyIffBlank(t1);
    ParseDiffEmptyIffBlank(t2);
    SameElementsEmpty(ParseDiff(t1), ParseDiff(t2));
    if Strip(t1) != "" {
      assert Strip(t2) != "";
      SelectedEntrySet(files, ParseDiff(t1), ParseDiff(t2), convert);
      var s := Selected(files, ParseDiff(t1), convert);
      assert FilteredFiles(Output(t1), files, convert) == Report(s);
      assert FilteredFiles(Output(t2), files, convert) == Report(s);
    }
  }

  // ---------------------------------------------------------------------------
  // The method

  /** The `for file in files` loop of `get_filtered_files`: an exception
      raised by a conversion leaves the loop as an error. */
  method SelectPages(files: seq<DocFile>, diffFiles: seq<string>, convert: string -> Result<string>)
    returns (selection: Result<seq<DocFile>>)
    ensures selection == Selected(files, diffFiles, convert)
  {
    var modified := [];
    var i := 0;
    while i < |files|
      invariant 0 <= i <= |files|
      invariant Selected(files[..i], diffFiles, convert) == Ok(modified)
    {
      var rel := convert(files[i].srcUri);
      SelectedStep(files, i, diffFiles, convert);
      if rel.Err? {
        SelectedPrefixErr(files, i + 1, diffFiles, convert);
        return Err(rel.error);
      }
      if rel.value in diffFiles {
        modified := modified + [files[i]];
      }
      i := i + 1;
    }
    assert files[..i] == files;
    return Ok(modified);
  }

  /** `get_filtered_files(plugin, files, config, from_ref, to_ref)`: the
      pages returned and the error logged, if any. */
  method GetFilteredFiles(plugin: Plugin, files: seq<DocFile>, site: SiteConfig, fromRef: Option<string>,
                          toRef: Option<string>, cwd: AbsPath)
    returns (modified: seq<DocFile>, log: Option<string>)
    ensures Filtered(modified, log) ==
            FilteredFiles(plugin.repo.diff(Request(plugin, site, fromRef, toRef)), files,
                          Converter(plugin.repo.workingDir, site.docsDir, cwd))
  {
    var from := if fromRef.None? then plugin.config.fromRef else fromRef.value;
    var to := if toRef.None? then plugin.config.toRef else toRef.value;
    var docsDirPath := site.docsDir;
    var outcome := plugin.repo.diff(DiffRequest(from + ".." + to, DiffOptions, docsDirPath));
    if outcome.Failure? {
      return [], Some(ErrorPrefix + outcome.message);
    }
    var diffOutput := outcome.text;
    if Strip(diffOutput) == "" {
      return [], None;
    }
    var diffFiles := ParseDiff(diffOutput);
    var selection := SelectPages(files, diffFiles, Converter(plugin.repo.workingDir, docsDirPath, cwd));
    if selection.Err? {
      return [], Some(ErrorPrefix + selection.error);
    }
    return selection.value, None;
  }
}
