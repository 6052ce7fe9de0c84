/** The two path converters of `GitRangeUtils`: documentation-relative paths
    (a page's `src_uri`, relative to the `docs_dir` setting) to
    repository-relative paths (relative to the repository's `working_dir`, the
    form `git diff --name-only` prints), and back. */
module Utils {
  import opened Common
  import opened PosixPath

  /** `convert_rel_docs_to_repo`: `relpath(join(docs_dir, path), working_dir)`. */
  function DocsToRepo(path: string, workingDir: string, docsDir: string, cwd: string): (r: Result<string>)
    requires IsAbs(cwd)
    ensures r.Err? <==> Join(docsDir, path) == ""
    ensures r.Err? ==> r.error == NoPathSpecified
  {
    RelPath(Join(docsDir, path), workingDir, cwd)
  }

  /** `convert_rel_repo_to_docs`: `relpath(join(working_dir, path), docs_dir)`. */
  function RepoToDocs(path: string, workingDir: string, docsDir: string, cwd: string): (r: Result<string>)
    requires IsAbs(cwd)
    ensures r.Err? <==> Join(workingDir, path) == ""
    ensures r.Err? ==> r.error == NoPathSpecified
  {
    RelPath(Join(workingDir, path), docsDir, cwd)
  }

  /** `convert_rel_docs_to_repo` for one repository and one docs directory,
      with the process's working directory `cwd`. */
  function Converter(workingDir: string, docsDir: string, cwd: AbsPath): string -> Result<string> {
    p => DocsToRepo(p, workingDir, docsDir, cwd)
  }

  /** The converter raises only on an empty path in an empty docs
      directory, and when it returns, it returns a path that is not empty. */
  lemma ConverterErr(workingDir: string, docsDir: string, cwd: AbsPath, p: string)
    ensures Converter(workingDir, docsDir, cwd)(p).Err? <==> docsDir == "" && p == ""
    ensures Converter(workingDir, docsDir, cwd)(p).Err? ==>
              Converter(workingDir, docsDir, cwd)(p).error == NoPathSpecified
    ensures Converter(workingDir, docsDir, cwd)(p).Ok? ==> Converter(workingDir, docsDir, cwd)(p).value != ""
  {
    DocsToRepoDefined(p, workingDir, docsDir, cwd);
    if docsDir != "" || p != "" {
      RelPathShape(Join(docsDir, p), workingDir, cwd);
    }
  }

  lemma ConverterErrors(workingDir: string, docsDir: string, cwd: AbsPath)
    ensures forall p :: Converter(workingDir, docsDir, cwd)(p).Err? ==>
                        p == "" && Converter(workingDir, docsDir, cwd)(p).error == NoPathSpecified
  {
    forall p | Converter(workingDir, docsDir, cwd)(p).Err?
      ensures p == "" && Converter(workingDir, docsDir, cwd)(p).error == NoPathSpecified
    {
      ConverterErr(workingDir, docsDir, cwd, p);
    }
  }

  /** The conversion raises (relpath's "no path specified") exactly when both
      the docs directory and the path are empty. */
  lemma DocsToRepoDefined(path: string, workingDir: string, docsDir: string, cwd: string)
    requires IsAbs(cwd)
    ensures DocsToRepo(path, workingDir, docsDir, cwd).Ok? <==> docsDir != "" || path != ""
    ensures DocsToRepo(path, workingDir, docsDir, cwd).Err? ==>
              DocsToRepo(path, workingDir, docsDir, cwd).error == NoPathSpecified
  {
    if docsDir == "" && !IsAbs(path) {
      assert Join(docsDir, path) == path;
    }
  }

  /** The converted path is relative and normalized: not empty, no leading
      slash, no `.` or empty piece, and exactly `.` when the page's path is
      the repository root itself. */
  lemma DocsToRepoNormal(path: string, workingDir: string, docsDir: string, cwd: string)
    requires IsAbs(cwd)
    requires DocsToRepo(path, workingDir, docsDir, cwd).Ok?
    ensures var r := DocsToRepo(path, workingDir, docsDir, cwd).value;
            && r != "" && !IsAbs(r)
            && (r == CurDir <==> Resolve(Join(docsDir, path), cwd) == Resolve(workingDir, cwd))
            && (r != CurDir ==> forall piece :: piece in Split(r) ==> piece != "" && piece != CurDir)
  {
    RelPathShape(Join(docsDir, path), workingDir, cwd);
  }

  /** The same holds for the conversion the other way. */
  lemma RepoToDocsNormal(path: string, workingDir: string, docsDir: string, cwd: string)
    requires IsAbs(cwd)
    requires RepoToDocs(path, workingDir, docsDir, cwd).Ok?
    ensures var r := RepoToDocs(path, workingDir, docsDir, cwd).value;
            && r != "" && !IsAbs(r)
            && (r == CurDir <==> Resolve(Join(workingDir, path), cwd) == Resolve(docsDir, cwd))
            && (r != CurDir ==> forall piece :: piece in Split(r) ==> piece != "" && piece != CurDir)
  {
    RelPathShape(Join(workingDir, path), docsDir, cwd);
  }

  /** Wherever the docs directory lies, the conversion succeeds (given a
      docs directory or a path) and its pieces are one `..` for each
      component of the repository root beyond the part it shares with the
      page's location, followed by the rest of that location. */
  lemma DocsToRepoClimbs(path: string, workingDir: string, docsDir: string, cwd: string)
    requires IsAbs(cwd) && (docsDir != "" || path != "")
    ensures DocsToRepo(path, workingDir, docsDir, cwd).Ok?
    ensures var target := Resolve(Join(docsDir, path), cwd);
            var root := Resolve(workingDir, cwd);
            var n := CommonPrefixLen(root, target);
            var r := DocsToRepo(path, workingDir, docsDir, cwd).value;
            root[..n] == target[..n] &&
            (r != CurDir ==> Split(r) == Parents(|root| - n) + target[n..] && AllNames(target[n..]))
  {
    DocsToRepoDefined(path, workingDir, docsDir, cwd);
    RelPathShape(Join(docsDir, path), workingDir, cwd);
  }

  /** Read from the repository root, the converted path names the same place
      as the page's path read from the docs directory. */
  lemma DocsToRepoLocates(path: string, workingDir: string, docsDir: string, cwd: string)
    requires IsAbs(cwd)
    requires DocsToRepo(path, workingDir, docsDir, cwd).Ok?
    ensures Resolve(Join(workingDir, DocsToRepo(path, workingDir, docsDir, cwd).value), cwd)
         == Resolve(Join(docsDir, path), cwd)
  {
    RelPathResolves(Join(docsDir, path), workingDir, cwd);
  }

  /** Read from the docs directory, the converted path names the same place
      as the repository path read from the repository root. */
  lemma RepoToDocsLocates(path: string, workingDir: string, docsDir: string, cwd: string)
    requires IsAbs(cwd)
    requires RepoToDocs(path, workingDir, docsDir, cwd).Ok?
    ensures Resolve(Join(docsDir, RepoToDocs(path, workingDir, docsDir, cwd).value), cwd)
         == Resolve(Join(workingDir, path), cwd)
  {
    RelPathResolves(Join(workingDir, path), docsDir, cwd);
  }

  /** Converting a normalized docs-relative path to the repository frame and
      back gives it back, whether or not the docs directory lies inside the
      repository. */
  lemma DocsRoundTrip(p: string, workingDir: string, docsDir: string, cwd: string)
    requires IsAbs(cwd) && IsNormalRelative(p)
    ensures DocsToRepo(p, workingDir, docsDir, cwd).Ok?
    ensures RepoToDocs(DocsToRepo(p, workingDir, docsDir, cwd).value, workingDir, docsDir, cwd) == Ok(p)
  {
    RelPathRoundTrip(p, docsDir, workingDir, cwd);
  }

  /** Symmetrically, a normalized repository-relative path survives the trip
      through the docs frame. */
  lemma RepoRoundTrip(p: string, workingDir: string, docsDir: string, cwd: string)
    requires IsAbs(cwd) && IsNormalRelative(p)
    ensures RepoToDocs(p, workingDir, docsDir, cwd).Ok?
    ensures DocsToRepo(RepoToDocs(p, workingDir, docsDir, cwd).value, workingDir, docsDir, cwd) == Ok(p)
  {
    RelPathRoundTrip(p, workingDir, docsDir, cwd);
  }

  /** Descending into `x` and then into `y` resolves like descending into
      `x/y` in one step. */
  lemma ResolveJoinJoin(a: string, x: string, y: string, cwd: string)
    requires IsAbs(cwd) && IsNormalRelative(x) && IsNormalRelative(y)
    ensures Join(Join(a, x), y) != "" && Join(a, x + [Sep] + y) != ""
    ensures Resolve(Join(Join(a, x), y), cwd) == Resolve(Join(a, x + [Sep] + y), cwd)
  {
    NormalRelativeConcat(x, y);
    JoinNonEmpty(Join(a, x), y);
    JoinNonEmpty(a, x + [Sep] + y);
    ResolveJoinTwice(a, x, y, cwd);
    ResolveJoinConcat(a, x, y, cwd);
  }

  lemma ResolveJoinTwice(a: string, x: string, y: string, cwd: string)
    requires IsAbs(cwd) && IsNormalRelative(x) && IsNormalRelative(y)
    ensures Resolve(Join(Join(a, x), y), cwd) == Resolve(a, cwd) + (Components(x) + Components(y))
  {
    ResolveJoinOuter(a, x, y, cwd);
    ResolveJoinNormal(a, x, cwd);
    ConcatAssoc(Resolve(a, cwd), Components(x), Components(y));
  }

  lemma ResolveJoinOuter(a: string, x: string, y: string, cwd: string)
    requires IsAbs(cwd) && IsNormalRelative(x) && IsNormalRelative(y)
    ensures Resolve(Join(Join(a, x), y), cwd) == Resolve(Join(a, x), cwd) + Components(y)
  {
    ResolveJoinNormal(Join(a, x), y, cwd);
  }

  lemma ResolveJoinConcat(a: string, x: string, y: string, cwd: string)
    requires IsAbs(cwd) && IsNormalRelative(x) && IsNormalRelative(y)
    ensures Resolve(Join(a, x + [Sep] + y), cwd) == Resolve(a, cwd) + (Components(x) + Components(y))
  {
    NormalRelativeConcat(x, y);
    ResolveJoinNormal(a, x + [Sep] + y, cwd);
  }

  /** With the docs directory at `join(working_dir, sub)`, a page's path
      converts to `sub/path`: the form of the lines `git diff --name-only`
      prints for it. */
  lemma DocsToRepoUnderRoot(p: string, workingDir: string, sub: string, cwd: string)
    requires IsAbs(cwd) && IsNormalRelative(p) && IsNormalRelative(sub)
    ensures DocsToRepo(p, workingDir, Join(workingDir, sub), cwd) == Ok(sub + "/" + p)
  {
    var q := sub + "/" + p;
    ResolveJoinJoin(workingDir, sub, p, cwd);
    NormalRelativeConcat(sub, p);
    RelPathSameTarget(Join(Join(workingDir, sub), p), Join(workingDir, q), workingDir, cwd);
    RelPathOfJoin(workingDir, q, cwd);
  }

  /** The conversion the plugin's tests exercise: with `docs_dir` at
      `<repo>/docs`, the page `guide.md` becomes `docs/guide.md`. The two
      names are parameters fixed by the precondition because, written as
      literals inside the postcondition, they make the solver unfold the
      string constants and the proof runs out of resource. */
  lemma GuidePageExample(workingDir: string, cwd: string, page: string, docs: string)
    requires IsAbs(cwd) && page == "guide.md" && docs == "docs"
    ensures DocsToRepo(page, workingDir, Join(workingDir, docs), cwd) == Ok("docs/guide.md")
  {
    GuideNames(page, docs);
    NameIsNormalRelative(page);
    NameIsNormalRelative(docs);
    DocsToRepoUnderRoot(page, workingDir, docs, cwd);
  }

  lemma GuideNames(page: string, docs: string)
    requires page == "guide.md" && docs == "docs"
    ensures IsName(page) && IsName(docs) && docs + "/" + page == "docs/guide.md"
  {
  }
}
