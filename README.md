# mkdocs-git-range: a verified model of the page selection

mkdocs-git-range is an MkDocs plugin. It renders only the pages whose source
changed within a git revision range. Its core is `GitRangeGit.get_filtered_files`:

1. It fills in the range ends from the plugin's `from` and `to` settings
   unless they are passed in.
2. It runs `git diff from..to --name-only --diff-filter=dux <docs_dir>`.
3. It turns the output into a list of stripped, non-blank lines.
4. It keeps, in order, each page whose `src_uri`, converted from the docs
   directory's frame to the repository's frame, is one of those lines.

An exception from the git call or from a conversion (steps 2-4) is logged
as `Error getting filtered files: <message>`, and the result is then `[]`.
The conversion is `GitRangeUtils.convert_rel_docs_to_repo`, which is
`os.path.relpath(os.path.join(docs_dir, path), working_dir)`.
Its counterpart `convert_rel_repo_to_docs` goes the other way.

The project has five modules:

- `Common` (`common.dfy`): `Result`, `Option` and a subsequence predicate.
- `PosixPath` (`posix_path.dfy`): the lexical part of Python's `posixpath`
  on string paths. It covers `split('/')`, `'/'.join`, `join`, the
  `normpath` loop (`.` and empty components vanish, `..` drops one, and is
  itself dropped at the root), `abspath` and `relpath`. `relpath` raises
  `ValueError("no path specified")` on an empty path, and the model returns
  that as an `Err`. The process's working directory is a parameter `cwd`,
  which the OS keeps absolute.
- `Utils` (`utils.dfy`): the two converters. Each is proved to locate the
  same file as its input, to give a relative, normalized result, and to
  round-trip with the other. The round trip holds whether or not the docs
  directory lies inside the repository.
- `Text` (`text.dfy`): `str.isspace`, `str.strip` and `str.splitlines`,
  with Python's full set of white-space and line-break characters (`\r\n`
  is one break). It also holds the list comprehension that turns git's
  output into entries.
- `Git` (`git.dfy`): the rest of `get_filtered_files`.
  - Git is a function field `diff` of the `Repo` datatype, from the request
    to either the printed text or the exception's message.
  - The logger is the out-parameter `log`.
  - The selection loop is the method `SelectPages`, proved equal to the
    function `Selected`.
  - `GetFilteredFiles` is proved equal to the function `FilteredFiles`,
    and the lemmas are about those functions.
  - Every selection lemma holds for any converter. `Utils.Converter`
    plugs in the plugin's own.

Two further points about the code:

- `relpath`'s `ValueError` is raised inside the same `try` as the git call
  (git.py:50-82), so it is logged and gives `[]`, like a git failure.
- The page exclusion in `on_files`, the allow-list and the `git_range` page
  macro are exercised by tests/test_plugin.py:45-103, but `plugin.py`
  contains only a stub. They are not modelled.

## Model

| member | source | states |
|---|---|---|
| Git.Request | src/mkdocs_git_range/git.py:43-59 | the `git diff` request `get_filtered_files` sends, with each range end taken from the argument when given and else from the setting; its properties are stated by Git.RequestNamesRange and Git.RangeRoundTrip |
| Git.RangeRoundTrip | src/mkdocs_git_range/git.py:55 | the text `from..to` splits at its first `..` back into exactly `from` and `to` when `from` is a valid left end (no `..`, not ending in `.`) |
| Git.RequestNamesRange | src/mkdocs_git_range/git.py:43-59 | the diff request's range is `from..to`, where `from` is the given `from_ref`, else the `from` setting, and `to` the given `to_ref`, else the `to` setting; when `from` is a valid left end the range reads back as exactly that pair; its options are `--name-only`, `--diff-filter=dux`; its path filter is `docs_dir` |
| Git.SelectNext | src/mkdocs_git_range/git.py:68-75 | one turn of the `for file in files` loop: an earlier error stays, a conversion error replaces the selection, and otherwise the page is appended when its converted path is an entry; Git.SelectPages takes this step in each turn of its loop |
| Git.Selected | src/mkdocs_git_range/git.py:67-77 | the loop over all pages, stopping at the first conversion error; its properties are stated by Git.SelectedOkIff, Git.SelectedMembers, Git.SelectedSubseq, Git.SelectedEntrySet, Git.SelectedNoEntries and Git.SelectedPrefixErr, and Git.SelectPages is proved equal to it |
| Git.Report | src/mkdocs_git_range/git.py:76-82 | the `return modified_files` of a selection that went through, or the logged `[]` of the `except` branch |
| Git.FilteredFiles | src/mkdocs_git_range/git.py:50-82 | the pages returned and the message logged for one outcome of `git diff`: a failure, blank output, or the selection over the parsed entries; its properties are stated by Git.FilteredLogs, Git.FilteredMembers, Git.FilteredEntrySet and Git.EarlyReturnAgrees, and Git.GetFilteredFiles is proved equal to it |
| Git.SelectedOkIff | src/mkdocs_git_range/git.py:67-82 | the selection fails exactly when some page's conversion fails, and then with that page's error |
| Git.SelectedMembers | src/mkdocs_git_range/git.py:67-75 | a page is selected iff it is one of `files` and its converted path is among the diff entries |
| Git.SelectedIsFilter | src/mkdocs_git_range/git.py:67-75 | a successful selection is exactly the pages of `files` whose converted path is an entry, in order and with repeats |
| Git.SelectedSubseq | src/mkdocs_git_range/git.py:67-77 | the selected pages are a subsequence of `files`, in their original order |
| Git.SelectedEntrySet | src/mkdocs_git_range/git.py:73 | the selection depends only on the set of entries, not their order or repeats |
| Git.SelectedNoEntries | src/mkdocs_git_range/git.py:67-77 | with no entry, a successful selection is empty |
| Git.SelectedPrefixErr | src/mkdocs_git_range/git.py:68-82 | once a prefix of the pages has failed, the whole selection fails with the same error, so leaving the loop early is sound |
| Git.FilteredLogs | src/mkdocs_git_range/git.py:50-82 | a message is logged iff git fails, or the output is not blank and some page fails to convert; a logging run returns `[]`; a git failure logs `Error getting filtered files: ` + its message; a logged conversion error carries a failing page's message |
| Git.ConversionErrorMessage | src/mkdocs_git_range/git.py:70-82 | with a converter that fails only on an empty path, with relpath's message, a logged conversion error reads `Error getting filtered files: no path specified` and some page has an empty `src_uri` |
| Git.EarlyReturnAgrees | src/mkdocs_git_range/git.py:61-77 | blank output gives `[]` and no message; it parses to no entry; the general path would have selected nothing from it either |
| Text.EntryIsLine | src/mkdocs_git_range/git.py:65 | a non-empty string is an entry iff it is the strip of some output line |
| Git.FilteredMembers | src/mkdocs_git_range/git.py:65-77 | for a converter that never returns `""` on success (Utils.ConverterErr shows the plugin's does not), the result is a subsequence of `files`, so no longer; when nothing is logged, a page is kept iff its path converts and equals the strip of some output line |
| Git.FilteredEntrySet | src/mkdocs_git_range/git.py:65-77 | two outputs listing the same paths, in any order, with repeats or blank lines, give the same pages and the same message |
| Git.SelectPages | src/mkdocs_git_range/git.py:67-77 | the `for file in files` loop returns exactly `Selected(files, entries, convert)`, including its first conversion error |
| Git.GetFilteredFiles | src/mkdocs_git_range/git.py:42-82 | the pages returned and the message logged are exactly `FilteredFiles` of git's outcome for the request built from the refs, with the plugin's converter |
| Text.IsSpace | src/mkdocs_git_range/git.py:61 | the characters `str.isspace` accepts and `str.strip()` removes; Text.Strip, Text.StripIsMiddle and Text.StripBlank state what stripping them gives |
| Text.IsLineBreak | src/mkdocs_git_range/git.py:65 | the characters at which `str.splitlines` ends a line; Text.SplitLinesBreak, Text.SplitLinesCrLf and Text.SplitLinesLast state how the lines are cut |
| Text.LStrip | src/mkdocs_git_range/git.py:61 | the result is a suffix of the input after an all-space prefix, and does not start with white space |
| Text.RStrip | src/mkdocs_git_range/git.py:61 | the result is a prefix of the input before an all-space suffix, and does not end with white space |
| Text.Strip | src/mkdocs_git_range/git.py:61 | the result is empty iff the input is all white space; otherwise it starts and ends with non-space; it holds only characters of the input |
| Text.StripIsMiddle | src/mkdocs_git_range/git.py:65 | `strip()` is a contiguous slice of its input with only white space on either side |
| Text.StripBlank | src/mkdocs_git_range/git.py:61 | stripping from both ends leaves nothing iff the input is all white space |
| Text.SplitLines | src/mkdocs_git_range/git.py:65 | no line holds a line break |
| Text.SplitLinesBreak | src/mkdocs_git_range/git.py:65 | a break-free text followed by one break character (other than a `\r` before `\n`) is one line, and the rest is split on its own |
| Text.SplitLinesCrLf | src/mkdocs_git_range/git.py:65 | a break-free text followed by `\r\n` is one line: the pair is a single break |
| Text.SplitLinesLast | src/mkdocs_git_range/git.py:65 | a final non-empty line without a break is kept, and an empty text has no lines, so no empty line follows a final break |
| Text.SplitLinesKeepsText | src/mkdocs_git_range/git.py:65 | run together, the lines are the input without its line breaks |
| Text.RemoveBreaks | src/mkdocs_git_range/git.py:65 | a character is in the result iff it is in the input and is not a line break |
| Text.RemoveBreaksNone | src/mkdocs_git_range/git.py:65 | a text without line breaks is left unchanged |
| Text.RemoveBreaksConcat | src/mkdocs_git_range/git.py:65 | removing breaks from two texts run together is removing them from each, in order; with the two rows above this fixes the result |
| Text.ParseLines | src/mkdocs_git_range/git.py:65 | every entry is non-empty and trimmed at both ends; it holds no line break when the lines hold none |
| Text.ParseLinesIsFilter | src/mkdocs_git_range/git.py:65 | the entries are exactly the stripped lines that are not empty, in order and with repeats |
| Text.ParseDiff | src/mkdocs_git_range/git.py:65 | every entry of git's output is non-empty, trimmed at both ends, and free of line breaks |
| Text.ParseLinesEmpty | src/mkdocs_git_range/git.py:65 | no entry is parsed iff every line is all white space |
| Text.ParseLinesOrder | src/mkdocs_git_range/git.py:65 | the entries are a subsequence of the stripped lines |
| Text.ParseLinesComplete | src/mkdocs_git_range/git.py:65 | every line that does not strip to empty gives an entry |
| Text.ParseDiffOrder | src/mkdocs_git_range/git.py:65 | the entries of git's output keep the order of its lines, and every non-blank line's strip is one of them |
| Text.ParseDiffEmptyIffBlank | src/mkdocs_git_range/git.py:61-65 | the output parses to no entry iff its `strip()` is empty, so the early return and the comprehension agree |
| Utils.DocsToRepo | src/mkdocs_git_range/utils.py:11-15 | `convert_rel_docs_to_repo`: relpath of `join(docs_dir, path)` from `working_dir`; it raises, with relpath's `no path specified`, exactly when that join is empty; Utils.DocsToRepoDefined, Utils.DocsToRepoNormal, Utils.DocsToRepoClimbs, Utils.DocsToRepoLocates and Utils.DocsRoundTrip state the rest |
| Utils.RepoToDocs | src/mkdocs_git_range/utils.py:17-21 | `convert_rel_repo_to_docs`: relpath of `join(working_dir, path)` from `docs_dir`; it raises, with `no path specified`, exactly when that join is empty; Utils.RepoToDocsNormal, Utils.RepoToDocsLocates and Utils.RepoRoundTrip state the rest |
| Utils.Converter | src/mkdocs_git_range/git.py:70-72 | the conversion the loop applies to each page's `src_uri`, for the repository root and `docs_dir`; Utils.ConverterErr and Utils.ConverterErrors state when and how it fails |
| Utils.ConverterErr | src/mkdocs_git_range/utils.py:11-15 | the converter fails iff the docs directory and the path are both empty, with relpath's message; otherwise its result is not empty |
| Utils.ConverterErrors | src/mkdocs_git_range/utils.py:11-15 | every failure of the converter is on the empty path, with relpath's message |
| Utils.DocsToRepoDefined | src/mkdocs_git_range/utils.py:11-15 | `convert_rel_docs_to_repo` returns iff `docs_dir` or the path is not empty; it otherwise raises `no path specified` |
| Utils.DocsToRepoNormal | src/mkdocs_git_range/utils.py:11-15 | the result is not empty and not absolute; it is `.` iff the page's location is the repository root; otherwise no piece is empty or `.` |
| Utils.RepoToDocsNormal | src/mkdocs_git_range/utils.py:17-21 | the same shape for `convert_rel_repo_to_docs`, relative to `docs_dir` |
| Utils.DocsToRepoClimbs | src/mkdocs_git_range/utils.py:11-15 | for any docs directory, the result's pieces are one `..` per component of the repository root beyond the prefix it shares with the page's location, then the rest of that location |
| Utils.DocsToRepoLocates | src/mkdocs_git_range/utils.py:11-15 | joining `working_dir` with the result resolves to the same absolute path as `join(docs_dir, path)` |
| Utils.RepoToDocsLocates | src/mkdocs_git_range/utils.py:17-21 | joining `docs_dir` with the result resolves to the same absolute path as `join(working_dir, path)` |
| Utils.DocsRoundTrip | src/mkdocs_git_range/utils.py:11-21 | for a normalized relative page path `p`, repo→docs of docs→repo of `p` is `p`, for any two roots |
| Utils.RepoRoundTrip | src/mkdocs_git_range/utils.py:11-21 | for a normalized relative repository path `p`, docs→repo of repo→docs of `p` is `p`, for any two roots |
| Utils.ResolveJoinJoin | src/mkdocs_git_range/utils.py:13 | for normalized relative `x` and `y`, joining `x` and then `y` resolves like joining `x/y` at once |
| Utils.DocsToRepoUnderRoot | src/mkdocs_git_range/utils.py:11-15 | with `docs_dir = join(working_dir, sub)` for a normalized relative `sub`, a normalized page path `p` converts to `sub/p`, the form of git's output lines |
| Utils.GuidePageExample | src/mkdocs_git_range/utils.py:11-15 | with `docs_dir` at `<working_dir>/docs`, `guide.md` converts to `docs/guide.md` |
| PosixPath.Join | src/mkdocs_git_range/utils.py:13 | `os.path.join` on POSIX: an absolute second path replaces the first, otherwise one slash is put between them unless the first is empty or ends with one; PosixPath.ComponentsOfJoin, PosixPath.JoinAbs and PosixPath.ResolveJoinNormal state its properties |
| PosixPath.Step | src/mkdocs_git_range/utils.py:12-14 | one turn of normpath's loop inside `relpath`: empty and `.` components vanish, `..` drops the last kept component (nothing at the root), a name is kept; PosixPath.FoldNames, PosixPath.FoldParents and PosixPath.FoldCurDir state its effect on each kind |
| PosixPath.Fold | src/mkdocs_git_range/utils.py:12-14 | normpath's loop over a list of components keeps proper names proper; PosixPath.FoldConcat, PosixPath.FoldNames and PosixPath.FoldParents state the rest |
| PosixPath.Resolve | src/mkdocs_git_range/utils.py:12-14 | the components of `abspath(p)` are all proper names (no empty, `.`, `..` or slash) |
| PosixPath.RelParts | src/mkdocs_git_range/utils.py:12-15 | each piece of the relative path is `..` or a proper name; there are none iff both paths resolve to the same place |
| PosixPath.RelPath | src/mkdocs_git_range/utils.py:12-15 | `relpath` raises iff its path is empty |
| PosixPath.RelPathShape | src/mkdocs_git_range/utils.py:12-15 | relpath's result is not empty and not absolute; it is `.` iff the two paths resolve alike; otherwise it splits into the relative pieces, none empty or `.` |
| PosixPath.RelPathResolves | src/mkdocs_git_range/utils.py:12-15 | `join(start, relpath(path, start))` resolves to where `path` resolves |
| PosixPath.RelPathBelow | src/mkdocs_git_range/utils.py:12-15 | for a path strictly below `start`, relpath is the remaining components joined by `/` |
| PosixPath.RelPathSameTarget | src/mkdocs_git_range/utils.py:12-15 | paths that resolve alike have the same relpath |
| PosixPath.RelPathOfJoin | src/mkdocs_git_range/utils.py:12-15 | `relpath(join(a, q), a) == q` for a normalized relative `q` |
| PosixPath.RelPathRoundTrip | src/mkdocs_git_range/utils.py:11-21 | `relpath(join(b, relpath(join(a, p), b)), a) == p` for a normalized relative `p` and any `a`, `b` |
| PosixPath.ResolveJoinNormal | src/mkdocs_git_range/utils.py:13 | joining a normalized relative `b` appends its components to the resolved base |
| PosixPath.Split | src/mkdocs_git_range/utils.py:12-15 | `str.split('/')` gives at least one piece, none holding a slash |
| PosixPath.SplitSepJoin | src/mkdocs_git_range/utils.py:12-15 | splitting `'/'.join(parts)` gives back `parts` when no part holds a slash |
| PosixPath.SepJoinSplit | src/mkdocs_git_range/utils.py:12-15 | `'/'.join(s.split('/')) == s` |
| PosixPath.ComponentsOfJoin | src/mkdocs_git_range/utils.py:13 | the components of `join(a, b)`, for a relative `b`, are those of `a` followed by those of `b` |
| PosixPath.FoldConcat | src/mkdocs_git_range/utils.py:12-15 | the normpath loop over `xs + ys` is the loop over `ys` run after the loop over `xs` |
| PosixPath.FoldParents | src/mkdocs_git_range/utils.py:12-15 | `k` components `..` drop the last `k` kept components |
| PosixPath.CommonPrefixLen | src/mkdocs_git_range/utils.py:12-15 | the result is the length of the longest common prefix: both agree up to it and differ right after it, unless one ends there |

## Left out

- `GitRangeRepo` and `get_tail` (git.py:5-29): they run `git rev-list` as a subprocess and build a GitPython `Commit`. That is foreign I/O.
- `GitRangeGit.get_repo` (git.py:33-40): a wrapper around the GitPython constructor.
- What `git diff` computes, and the meaning of `--diff-filter=dux`: git is an input function from the request to its output or its exception's message. Neither reading of the lower-case filter letters is encoded.
- Logging (`GitRangeLogger.setup_logger`, utils.py:3-8, and the logger of git.py:81): the logged message is returned as the out-parameter `log`.
- `plugin.py`: a stub whose `on_files` only logs. The page exclusion, allow-list and page macro described for the plugin are not in its code.
- Pages are reduced to their `src_uri`, and the MkDocs configuration to `docs_dir`. An absent `docs_dir` is not modelled; MkDocs always sets one, made absolute.
- Paths are POSIX and lexical. Windows drive letters and separators, symlinks, and `os.fspath` of path-like objects are not modelled.
- `cwd`: the working directory that `abspath` reads is a parameter, assumed absolute.
- A missing `from` or `to` setting: git.py:43-48 read the settings before the `try` block, so a `KeyError` there escapes unlogged. The model's `PluginConfig` always holds both settings, so that error path is not modelled.
- Git.ParseRange: splits at the first `..`. Git's symmetric-difference form `A...B` is not modelled.
- Git.RequestNamesRange: the read-back of the range into its two ends is proved only when the `from` end is a valid left end (no `..`, not ending in `.`), as for Git.RangeRoundTrip. The text of the range and the override of the settings by given refs hold without that condition.
- Git.RangeRoundTrip: proved only for a left end without `..` that does not end in `.`. Git's reference names meet that. For other texts the split is ambiguous.
- Git.SelectedOkIff: names some failing page, not specifically the first. `Selected` and `SelectPages` do fail on the first one and carry its error, and for the plugin's converter every failure carries the same message.
