# Subversion status and branch adapter

A Dafny model of the Subversion adapter of powerline's VCS prompt segment
(`powerline/lib/vcs/svn.py`). The adapter asks a working copy two things:

- **status**: it folds the lines of `svn status` into a two-character code.
  The first character is `D` when any tracked file changed; the second is `U`
  when any unversioned file is present. The code is `None` when both are blank.
- **branch**: it pulls the `<url>` and `<root>` values out of `svn info --xml`
  and turns them into a short label (`b/foo` for a branch, `t/v1` for a tag).

The model takes the output of `svn` as a list of lines. Construction takes
whether the `svn` executable was found as a boolean.

Files:

- `wrappers.dfy`: `Option` (Python's `None`) and `Result` (a raised exception).
- `pystr.dfy`, module `PyStr`: Python's `str.replace` as `ReplaceAll`. Also
  `re.match` of a pattern `open(.+)close` as `MatchGroup`: anchored at the
  start, `.` excludes a newline, and the greedy group takes the longest capture.
- `svn.dfy`, module `Svn`: the repository handle and its construction guard,
  status routing through the guards of `status` and `do_status` (`StatusEntry`,
  `DoStatusEntry`), the status fold (`Scan`, `Status`) with its loop `DoStatus`,
  the info fold (`ScanInfo`) with its loop `Branch`, and the label (`Label`).

The two loops of the source stay loops. `DoStatus` keeps the early `break`.
It is proved equal to the pure fold `Status` over all lines. A ghost out-parameter counts
how many lines it examined, which shows that it stops at the first line where
both flags are already set. `Branch` is proved equal to `Label` applied to
the fold `ScanInfo`.

Two behaviours of the code are easy to misread, and the model keeps both as written:

- The code keeps the **last** `<url>` line and the **last** `<root>` line that
  is not also a url line, because every match reassigns (svn.py:88, 92). A
  "first match wins" reading is wrong; `LaterUrlOverwrites` shows this.
- `root + "/"` is removed **everywhere** in the url, not only as a prefix
  (svn.py:36). With the default empty root, every `/` of the url is removed
  (`EmptyRootDropsEverySlash`).

## Model

| member | source | states |
|---|---|---|
| `PyStr.ReplaceAll` | powerline/lib/vcs/svn.py:36 | Python's `str.replace` with a non-empty pattern; replacing by text of the same length keeps the length, and by shorter text never lengthens it |
| `PyStr.ReplaceAllAbsent` | powerline/lib/vcs/svn.py:36 | a pattern that does not occur leaves the text unchanged |
| `PyStr.ReplaceCharByNothing` | powerline/lib/vcs/svn.py:36 | replacing one character by `""` deletes every occurrence of it |
| `PyStr.ReplaceAllAtStart` | powerline/lib/vcs/svn.py:36 | an occurrence at the start is replaced and the scan resumes right after it |
| `PyStr.LongestCapture` | powerline/lib/vcs/svn.py:12-13 | greedy backtracking: the result is a capture length that matches, and no longer length up to the bound matches |
| `PyStr.MatchGroup` | powerline/lib/vcs/svn.py:12-13 | `re.match(...).group(1)`: defined exactly when some capture matches; the group follows the opening tag, and is the longest capture that matches |
| `PyStr.MatchWhole` | powerline/lib/vcs/svn.py:12-13 | a line `open + c + close` with newline-free non-empty `c` yields `c`, even when `c` contains `close` |
| `Svn.NewRepository` | powerline/lib/vcs/svn.py:19-21 | fails with `OSError('svn executable is not available')` exactly when svn is unavailable; otherwise keeps the directory and watcher factory |
| `Svn.StatusRouting` | powerline/lib/vcs/svn.py:23-56 | composing `StatusEntry` (the `if path:` guard of `status`) with `DoStatusEntry` (the `if path is not None:` guard of `do_status`): only a missing path reaches the whole-tree scan; a non-empty path reaches the per-file cache with the `.svn/nofile` markers, and `""` reaches it through `do_status` without markers |
| `Svn.Step` | powerline/lib/vcs/svn.py:72-75 | one loop step only sets a flag (`D` or `U`), never resets one, sets at most one of them, and leaves the flags alone for a line that is neither dirty nor untracked |
| `Svn.Scan` | powerline/lib/vcs/svn.py:69-75 | the fold of the loop body over all lines; its flags stay within space/`D` and space/`U` |
| `Svn.Code` | powerline/lib/vcs/svn.py:76-77 | both flags blank give `None`; a set flag gives the two-character string `dirtied + untracked` |
| `Svn.Status` | powerline/lib/vcs/svn.py:57-77 | the status of the whole-tree output: `None` or one of `"D "`, `" U"`, `"DU"` |
| `Svn.ScanFlags` | powerline/lib/vcs/svn.py:69-75 | `dirtied` is `D` iff some line of length > 1 starts with one of `ADRMC!~`, else a space; `untracked` is `U` iff some such line starts with `?`, else a space |
| `Svn.SaturatedStays` | powerline/lib/vcs/svn.py:69-75 | once both flags are set after a prefix of the lines, the full scan ends with `D` and `U` too, so the `break` loses nothing |
| `Svn.StatusIsNone` | powerline/lib/vcs/svn.py:69-77 | the status is `None` iff no line of length > 1 starts with one of `ADRMC!~?` |
| `Svn.StatusCharacters` | powerline/lib/vcs/svn.py:72-77 | a non-`None` status has length 2, is one of `"D "`, `" U"`, `"DU"`; its first character is `D` iff a dirty line exists, and its second is `U` iff an untracked line exists |
| `Svn.IgnoredLine` | powerline/lib/vcs/svn.py:72-75 | inserting a line that is neither dirty nor untracked (length ≤ 1 or another first character) anywhere does not change the status |
| `Svn.DoStatus` | powerline/lib/vcs/svn.py:57-77 | the loop with its early `break` returns the full-scan status; a ghost counter shows it examines lines only while the flags are not both set, and stops at the first point where they are |
| `Svn.UrlMatch` | powerline/lib/vcs/svn.py:12 | `_ref_url.match(line)`: a match means the line starts with `<url>`, the group is the non-empty text right after it, and `</url>` follows the group |
| `Svn.RootMatch` | powerline/lib/vcs/svn.py:13 | `_ref_root.match(line)`: a match means the line starts with `<root>`, the group is the non-empty text right after it, and `</root>` follows the group |
| `Svn.InfoStep` | powerline/lib/vcs/svn.py:86-92 | one loop step changes at most one of url and root; a new url is the group of a url match, a new root the group of a root match on a line that is not a url match |
| `Svn.ScanInfo` | powerline/lib/vcs/svn.py:85-92 | the fold of the loop body over all lines: the url is `<unknown>` or the group of some url line; the root is `""` or the group of some root line that is not a url line |
| `Svn.Label` | powerline/lib/vcs/svn.py:35-36 | `SvnRepository.branch`: the three replacements in order; the label is never longer than the url |
| `Svn.Branch` | powerline/lib/vcs/svn.py:82-93 | the info loop returns the label of the url and root left by the fold over all lines |
| `Svn.InfoDefaults` | powerline/lib/vcs/svn.py:83-92 | with no url line the url stays `<unknown>`; with no root line outside the url lines the root stays `""` |
| `Svn.LastUrlWins` | powerline/lib/vcs/svn.py:85-88 | the url is the capture of the last line matching `<url>(.+)</url>` |
| `Svn.LastRootWins` | powerline/lib/vcs/svn.py:85-92 | the root is the capture of the last line that matches `<root>(.+)</root>` and does not match the url pattern |
| `Svn.LaterUrlOverwrites` | powerline/lib/vcs/svn.py:85-88 | of two url lines, the second one's url is kept |
| `Svn.GreedyUrlCapture` | powerline/lib/vcs/svn.py:12 | `<url>x</url>y</url>` captures `x</url>y` |
| `Svn.LabelUnchanged` | powerline/lib/vcs/svn.py:36 | a url holding none of `root/`, `branches/`, `tags/` is its own label |
| `Svn.LabelDropsRoot` | powerline/lib/vcs/svn.py:36 | a url `root/rest` (with `root/` absent from `rest`) loses `root/`; only the branch and tag rewrites act on `rest` |
| `Svn.EmptyRootDropsEverySlash` | powerline/lib/vcs/svn.py:36 | with root `""` the first replacement deletes every `/` of the url |
| `Svn.UnknownLabel` | powerline/lib/vcs/svn.py:36 | the placeholder url `<unknown>` is its own label for every root |
| `Svn.UnknownWithoutUrl` | powerline/lib/vcs/svn.py:83-93 | info output without any url line gives the label `<unknown>`, whatever the root lines say |
| `Svn.BranchLabel` | powerline/lib/vcs/svn.py:36 | url `https://host/repo/branches/foo` with root `https://host/repo` gives `b/foo` |
| `Svn.TagLabel` | powerline/lib/vcs/svn.py:36 | url `https://host/repo/tags/v1` with root `https://host/repo` gives `t/v1` |

## Left out

- Running `svn` (`_svncmd`/`readlines`, svn.py:79-80) is external I/O. The lines it prints are an input. The argument lists of the two commands (svn.py:67-68, 85) are not modelled.
- The `which('svn')` lookup (svn.py:41) is external. Its answer is the `svnAvailable` input of `NewRepository`.
- `os.path.abspath` (svn.py:20) is a host path utility. `NewRepository` stores the directory as given.
- The per-file status cache and watcher `get_file_status` (svn.py:24-32, 46-56) is not part of this model. `StatusEntry` and `DoStatusEntry` record only which requests reach it and with which marker files. `join` is a host path utility: `SvnNoFile` only names `<directory>/.svn/nofile`.
- The `if path:` branch of `do_status` (svn.py:64-65) is unreachable: `do_status` gets there only with `path` equal to `None`. `DoStatus` models the whole-tree command.
- The regexes are byte patterns (svn.py:12-13); the model matches them against lines of text.
- `IsBlank` knows the ten ASCII characters that `str.strip()` removes: space, tab, line feed, carriage return, `\x0b`, `\x0c` and `\x1c`-`\x1f`. `str.strip()` also removes Unicode whitespace such as `\x85` and `\xa0`, which `IsBlank` does not know. The code only ever strips spaces, `D` and `U`, so nothing depends on this.
- A backend through native Subversion bindings is not in svn.py and is not modelled. Concurrency control belongs to the external cache.
