/** The Subversion adapter of powerline's VCS segment: a two-character
    dirty/untracked code folded from `svn status`, and a short branch label
    derived from the `<url>` and `<root>` lines of `svn info --xml`.
    Running `svn` is outside the model: each operation receives the lines
    the command printed, and the construction guard receives whether the
    executable was found on the search path. */
module Svn {
  import opened Wrappers
  import opened PyStr

  // ---------------------------------------------------------------------
  // The repository handle

  /** One working copy: its directory and the watcher factory handed on to
      the per-file status cache. Neither changes after construction. */
  datatype Repository<W> = Repository(directory: string, createWatcher: W)

  datatype OSError = OSError(message: string)

  const SvnMissing: string := "svn executable is not available"

  /** `Repository(directory, create_watcher)`: refuses to exist unless `svn`
      is on the search path; otherwise keeps both arguments as they are. */
  function NewRepository<W>(svnAvailable: bool, directory: string, createWatcher: W)
    : (r: Result<Repository<W>, OSError>)
    ensures r.Failure? <==> !svnAvailable
    ensures r.Failure? ==> r.error == OSError(SvnMissing)
    ensures r.Success? ==> r.value.directory == directory && r.value.createWatcher == createWatcher
  {
    if !svnAvailable then Failure(OSError(SvnMissing))
    else Success(Repository(directory, createWatcher))
  }

  /** The marker files a per-file cache request names: `status()` passes
      `<directory>/.svn/nofile` as both its dirstate file and its ignore
      file, `do_status()` passes `None` for both. */
  datatype Markers = SvnNoFile | NoMarkers

  /** Where a status request ends up: the whole-tree `svn status` scan, or
      the external per-file cache (which is not part of this model) with
      the markers and the path of the request. */
  datatype StatusRoute = WholeTree | FileCache(markers: Markers, path: string)

  /** `do_status(directory, path)`: any path that is not `None` goes to the
      per-file cache without markers; only `None` runs the whole-tree scan. */
  function DoStatusEntry(path: Option<string>): StatusRoute
  {
    if path.Some? then FileCache(NoMarkers, path.value)
    else WholeTree
  }

  /** `status(path)`: a non-empty path goes to the per-file cache with the
      `.svn/nofile` markers; anything else, `None` and `""`, is passed on
      to `do_status(directory, path)` unchanged. */
  function StatusEntry(path: Option<string>): StatusRoute
  {
    if path.Some? && path.value != "" then FileCache(SvnNoFile, path.value)
    else DoStatusEntry(path)
  }

  /** Through both guards, only a missing path reaches the whole-tree scan;
      every given path reaches the per-file cache, and the empty one gets
      there through `do_status`, without markers. */
  lemma StatusRouting(path: Option<string>)
    ensures StatusEntry(path).WholeTree? <==> path.None?
    ensures path.Some? ==> StatusEntry(path).FileCache? && StatusEntry(path).path == path.value
    ensures StatusEntry(Some("")) == FileCache(NoMarkers, "")
    ensures path.Some? && path.value != "" ==> StatusEntry(path).markers == SvnNoFile
  {
  }

  // ---------------------------------------------------------------------
  // Status: folding `svn status` lines into a two-character code

  /** The leading status letters that mark a tracked change: added,
      deleted, replaced, modified, conflicted, missing, obstructed. */
  const DirtyMarks: string := "ADRMC!~"

  predicate IsDirtyLine(line: string)
  {
    |line| > 1 && line[0] in DirtyMarks
  }

  predicate IsUntrackedLine(line: string)
  {
    |line| > 1 && line[0] == '?'
  }

  /** The loop's two local variables, `dirtied` and `untracked`. */
  datatype Flags = Flags(dirtied: char, untracked: char)

  const Clean: Flags := Flags(' ', ' ')

  predicate Saturated(f: Flags)
  {
    f.dirtied == 'D' && f.untracked == 'U'
  }

  /** One pass of the loop body over one line: a flag is only ever set,
      never reset, and a line sets at most one of the two. */
  function Step(f: Flags, line: string): (r: Flags)
    ensures r.dirtied in {f.dirtied, 'D'} && r.untracked in {f.untracked, 'U'}
    ensures r.dirtied == f.dirtied || r.untracked == f.untracked
    ensures !IsDirtyLine(line) && !IsUntrackedLine(line) ==> r == f
  {
    if IsDirtyLine(line) then f.(dirtied := 'D')
    else if IsUntrackedLine(line) then f.(untracked := 'U')
    else f
  }

  /** The flags after the loop body has run over every line of `lines`, in order. */
  function Scan(lines: seq<string>): (r: Flags)
    ensures r.dirtied in " D" && r.untracked in " U"
  {
    if lines == [] then Clean
    else Step(Scan(lines[..|lines| - 1]), lines[|lines| - 1])
  }

  /** Python's `str.strip()` leaves nothing: every character is one of the
      ASCII characters Python counts as whitespace (the Unicode ones are left out). */
  predicate IsBlank(s: string)
  {
    forall i | 0 <= i < |s| :: s[i] in " \t\n\r\U{000B}\U{000C}\U{001C}\U{001D}\U{001E}\U{001F}"
  }

  /** `ans = dirtied + untracked; return ans if ans.strip() else None`. */
  function Code(f: Flags): (r: Option<string>)
    ensures f == Clean ==> r.None?
    ensures f.dirtied == 'D' || f.untracked == 'U' ==> r == Some([f.dirtied, f.untracked])
  {
    var ans := [f.dirtied, f.untracked];
    assert ans[0] == f.dirtied && ans[1] == f.untracked;
    if IsBlank(ans) then None else Some(ans)
  }

  /** The status of a working copy whose `svn status` printed `lines`. */
  function Status(lines: seq<string>): (r: Option<string>)
    ensures r.Some? ==> r.value in {"D ", " U", "DU"}
  {
    Code(Scan(lines))
  }

  /** Each flag of the fold says whether some line of its kind occurred. */
  lemma {:induction false} ScanFlags(lines: seq<string>)
    ensures Scan(lines).dirtied == if exists i | 0 <= i < |lines| :: IsDirtyLine(lines[i]) then 'D' else ' '
    ensures Scan(lines).untracked == if exists i | 0 <= i < |lines| :: IsUntrackedLine(lines[i]) then 'U' else ' '
  {
    if lines != [] {
      var init := lines[..|lines| - 1];
      ScanFlags(init);
      assert forall i | 0 <= i < |init| :: init[i] == lines[i];
      assert forall i | 0 <= i < |lines| :: i == |lines| - 1 || lines[i] == init[i];
    }
  }

  /** Once both flags are set they stay set, so stopping there gives the
      same flags as the full scan. */
  lemma SaturatedStays(lines: seq<string>, n: nat)
    requires n <= |lines| && Saturated(Scan(lines[..n]))
    ensures Scan(lines) == Flags('D', 'U')
  {
    var init := lines[..n];
    ScanFlags(init);
    ScanFlags(lines);
    var i :| 0 <= i < |init| && IsDirtyLine(init[i]);
    var j :| 0 <= j < |init| && IsUntrackedLine(init[j]);
    assert IsDirtyLine(lines[i]) && IsUntrackedLine(lines[j]);
  }

  /** The status is None exactly when no line of length above one starts
      with a dirty mark or with `?`. */
  lemma StatusIsNone(lines: seq<string>)
    ensures Status(lines).None? <==>
      forall i | 0 <= i < |lines| :: !IsDirtyLine(lines[i]) && !IsUntrackedLine(lines[i])
  {
    ScanFlags(lines);
    var f := Scan(lines);
    if f.dirtied != ' ' || f.untracked != ' ' {
      assert !IsBlank([f.dirtied, f.untracked]) by {
        if f.dirtied != ' ' { assert [f.dirtied, f.untracked][0] == 'D'; }
        else { assert [f.dirtied, f.untracked][1] == 'U'; }
      }
    }
  }

  /** A status that is not None is one of "D ", " U" and "DU": its first
      character is D exactly when some line is dirty, its second U exactly
      when some line is untracked. */
  lemma StatusCharacters(lines: seq<string>)
    requires Status(lines).Some?
    ensures var s := Status(lines).value;
      |s| == 2 && s in {"D ", " U", "DU"}
      && (s[0] == 'D' <==> exists i | 0 <= i < |lines| :: IsDirtyLine(lines[i]))
      && (s[1] == 'U' <==> exists i | 0 <= i < |lines| :: IsUntrackedLine(lines[i]))
  {
    ScanFlags(lines);
    StatusIsNone(lines);
  }

  /** A line that is neither dirty nor untracked (one of length at most one,
      or with any other leading character) never changes the status. */
  lemma IgnoredLine(before: seq<string>, line: string, after: seq<string>)
    requires !IsDirtyLine(line) && !IsUntrackedLine(line)
    ensures Status(before + [line] + after) == Status(before + after)
  {
    var with, without := before + [line] + after, before + after;
    ScanFlags(with);
    ScanFlags(without);
    forall i | 0 <= i < |with|
      ensures IsDirtyLine(with[i]) ==> exists j | 0 <= j < |without| :: IsDirtyLine(without[j])
      ensures IsUntrackedLine(with[i]) ==> exists j | 0 <= j < |without| :: IsUntrackedLine(without[j])
    {
      if i < |before| { assert with[i] == without[i]; }
      else if i > |before| { assert with[i] == without[i - 1]; }
    }
    forall j | 0 <= j < |without|
      ensures IsDirtyLine(without[j]) ==> exists i | 0 <= i < |with| :: IsDirtyLine(with[i])
      ensures IsUntrackedLine(without[j]) ==> exists i | 0 <= i < |with| :: IsUntrackedLine(with[i])
    {
      if j < |before| { assert with[j] == without[j]; }
      else { assert with[j + 1] == without[j]; }
    }
  }

  /** `do_status(directory, None)` over the lines `svn status` printed.
      `inspected` is how many lines the loop looked at: it leaves the loop
      at the first line it meets with both flags already set. */
  method DoStatus(lines: seq<string>) returns (r: Option<string>, ghost inspected: nat)
    ensures r == Status(lines)
    ensures inspected <= |lines|
    ensures inspected < |lines| ==> Saturated(Scan(lines[..inspected]))
    ensures forall n | 0 <= n < inspected :: !Saturated(Scan(lines[..n]))
  {
    var dirtied, untracked := ' ', ' ';
    var i := 0;
    while i < |lines|
      invariant i <= |lines|
      invariant Flags(dirtied, untracked) == Scan(lines[..i])
      invariant forall n | 0 <= n < i :: !Saturated(Scan(lines[..n]))
    {
      if dirtied == 'D' && untracked == 'U' {
        break;
      }
      var line := lines[i];
      assert lines[..i + 1][..i] == lines[..i];
      if |line| > 1 && line[0] in DirtyMarks {
        dirtied := 'D';
      } else if |line| > 1 && line[0] == '?' {
        untracked := 'U';
      }
      i := i + 1;
    }
    inspected := i;
    if i < |lines| {
      SaturatedStays(lines, i);
    } else {
      assert lines[..i] == lines;
    }
    var ans := [dirtied, untracked];
    r := if IsBlank(ans) then None else Some(ans);
  }

  // ---------------------------------------------------------------------
  // Branch: the url and root of `svn info --xml`, and the label made of them

  const UnknownUrl: string := "<unknown>"

  /** `_ref_url` and `_ref_root`: `<url>(.+)</url>` and `<root>(.+)</root>`. */
  function UrlMatch(line: string): (r: Option<string>)
    ensures r.Some? ==> (|line| >= 11 + |r.value| && |r.value| >= 1 && line[..5] == "<url>"
                         && line[5..5 + |r.value|] == r.value
                         && line[5 + |r.value|..11 + |r.value|] == "</url>")
  {
    MatchGroup(line, "<url>", "</url>")
  }

  function RootMatch(line: string): (r: Option<string>)
    ensures r.Some? ==> (|line| >= 13 + |r.value| && |r.value| >= 1 && line[..6] == "<root>"
                         && line[6..6 + |r.value|] == r.value
                         && line[6 + |r.value|..13 + |r.value|] == "</root>")
  {
    MatchGroup(line, "<root>", "</root>")
  }

  /** The loop's two local variables. */
  datatype Info = Info(url: string, root: string)

  const NoInfo: Info := Info(UnknownUrl, "")

  /** One pass of the loop body: a url line overwrites `url`; only a line
      that is not a url line may overwrite `root`. */
  function InfoStep(info: Info, line: string): (r: Info)
    ensures r.url == info.url || UrlMatch(line) == Some(r.url)
    ensures r.root == info.root || (UrlMatch(line).None? && RootMatch(line) == Some(r.root))
    ensures r.url == info.url || r.root == info.root
  {
    match UrlMatch(line)
    case Some(u) => info.(url := u)
    case None =>
      match RootMatch(line)
      case Some(t) => info.(root := t)
      case None => info
  }

  /** The url and root after the loop has run over every line, in order. */
  function ScanInfo(lines: seq<string>): (r: Info)
    ensures r.url == UnknownUrl || exists i | 0 <= i < |lines| :: UrlMatch(lines[i]) == Some(r.url)
    ensures r.root == "" || exists i | 0 <= i < |lines| ::
              UrlMatch(lines[i]).None? && RootMatch(lines[i]) == Some(r.root)
  {
    if lines == [] then NoInfo
    else InfoStep(ScanInfo(lines[..|lines| - 1]), lines[|lines| - 1])
  }

  /** `SvnRepository.branch(url, root)`: drop every `root/`, then shorten
      every `branches/` to `b/` and every `tags/` to `t/`. */
  function Label(url: string, root: string): (r: string)
    ensures |r| <= |url|
  {
    ReplaceAll(ReplaceAll(ReplaceAll(url, root + "/", ""), "branches/", "b/"), "tags/", "t/")
  }

  /** `Repository.branch()` over the lines `svn info --xml` printed. */
  method Branch(lines: seq<string>) returns (name: string)
    ensures name == Label(ScanInfo(lines).url, ScanInfo(lines).root)
  {
    var url, root := UnknownUrl, "";
    var i := 0;
    while i < |lines|
      invariant i <= |lines|
      invariant Info(url, root) == ScanInfo(lines[..i])
    {
      var line := lines[i];
      assert lines[..i + 1][..i] == lines[..i];
      var mUrl := UrlMatch(line);
      if mUrl.Some? {
        url := mUrl.value;
      } else {
        var mRoot := RootMatch(line);
        if mRoot.Some? {
          root := mRoot.value;
        }
      }
      i := i + 1;
    }
    assert lines[..i] == lines;
    name := Label(url, root);
  }

  /** With no url line the url keeps its placeholder; with no root line
      (outside the url lines) the root stays empty. */
  lemma {:induction false} InfoDefaults(lines: seq<string>)
    ensures (forall i | 0 <= i < |lines| :: UrlMatch(lines[i]).None?) ==> ScanInfo(lines).url == UnknownUrl
    ensures (forall i | 0 <= i < |lines| :: UrlMatch(lines[i]).Some? || RootMatch(lines[i]).None?)
            ==> ScanInfo(lines).root == ""
  {
    if lines != [] {
      var init := lines[..|lines| - 1];
      InfoDefaults(init);
      assert forall i | 0 <= i < |init| :: init[i] == lines[i];
    }
  }

  /** A url line later than every other url line decides the url. */
  lemma {:induction false} LastUrlWins(lines: seq<string>, j: nat)
    requires j < |lines| && UrlMatch(lines[j]).Some?
    requires forall i | j < i < |lines| :: UrlMatch(lines[i]).None?
    ensures ScanInfo(lines).url == UrlMatch(lines[j]).value
  {
    var init := lines[..|lines| - 1];
    if j < |lines| - 1 {
      assert forall i | j < i < |init| :: init[i] == lines[i];
      LastUrlWins(init, j);
    }
  }

  /** The last line that matches the root pattern but not the url pattern
      decides the root. */
  lemma {:induction false} LastRootWins(lines: seq<string>, j: nat)
    requires j < |lines| && UrlMatch(lines[j]).None? && RootMatch(lines[j]).Some?
    requires forall i | j < i < |lines| :: UrlMatch(lines[i]).Some? || RootMatch(lines[i]).None?
    ensures ScanInfo(lines).root == RootMatch(lines[j]).value
  {
    var init := lines[..|lines| - 1];
    if j < |lines| - 1 {
      assert forall i | j < i < |init| :: init[i] == lines[i];
      LastRootWins(init, j);
    }
  }

  /** Two url lines: the second one's url is kept, not the first one's. */
  lemma LaterUrlOverwrites()
    ensures ScanInfo(["<url>https://a</url>", "<url>https://b</url>"]).url == "https://b"
  {
    var lines := ["<url>https://a</url>", "<url>https://b</url>"];
    assert lines[0] == "<url>" + "https://a" + "</url>";
    assert lines[1] == "<url>" + "https://b" + "</url>";
    MatchWhole("<url>", "https://a", "</url>");
    MatchWhole("<url>", "https://b", "</url>");
    LastUrlWins(lines, 1);
  }

  /** The greedy group runs to the last closing tag of the line. */
  lemma GreedyUrlCapture()
    ensures UrlMatch("<url>x</url>y</url>") == Some("x</url>y")
  {
    assert "<url>x</url>y</url>" == "<url>" + "x</url>y" + "</url>";
    MatchWhole("<url>", "x</url>y", "</url>");
  }

  /** The label is the url itself when it holds none of `root/`,
      `branches/` and `tags/`. */
  lemma LabelUnchanged(url: string, root: string)
    requires !Occurs(url, root + "/") && !Occurs(url, "branches/") && !Occurs(url, "tags/")
    ensures Label(url, root) == url
  {
    ReplaceAllAbsent(url, root + "/", "");
    ReplaceAllAbsent(url, "branches/", "b/");
    ReplaceAllAbsent(url, "tags/", "t/");
  }

  /** A url under the root loses the root and its slash. */
  lemma LabelDropsRoot(root: string, rest: string)
    requires !Occurs(rest, root + "/")
    ensures Label(root + "/" + rest, root) ==
      ReplaceAll(ReplaceAll(rest, "branches/", "b/"), "tags/", "t/")
  {
    assert root + "/" + rest == (root + "/") + rest;
    ReplaceAllAtStart(root + "/", "", rest);
    ReplaceAllAbsent(rest, root + "/", "");
    assert ReplaceAll(root + "/" + rest, root + "/", "") == rest;
  }

  /** With the empty default root, `root + "/"` is a lone slash, so every
      slash of the url is removed, not only a leading one. */
  lemma EmptyRootDropsEverySlash(url: string)
    ensures Label(url, "") == ReplaceAll(ReplaceAll(Without(url, '/'), "branches/", "b/"), "tags/", "t/")
  {
    assert "" + "/" == ['/'];
    ReplaceCharByNothing(url, '/');
  }

  /** A text without a slash holds no pattern that ends in one. */
  lemma NoSlash(s: string, pat: string)
    requires '/' !in s && |pat| > 0 && pat[|pat| - 1] == '/'
    ensures !Occurs(s, pat)
  {
    forall i: nat | i <= |s|
      ensures !OccursAt(s, pat, i)
    {
      if i + |pat| <= |s| {
        assert s[i..i + |pat|][|pat| - 1] == s[i + |pat| - 1];
      }
    }
  }

  /** The placeholder url holds no slash, so no root changes it. */
  lemma UnknownLabel(root: string)
    ensures Label(UnknownUrl, root) == UnknownUrl
  {
    NoSlash(UnknownUrl, root + "/");
    NoSlash(UnknownUrl, "branches/");
    NoSlash(UnknownUrl, "tags/");
    LabelUnchanged(UnknownUrl, root);
  }

  /** Without any url line the label is the placeholder, whatever the root. */
  lemma UnknownWithoutUrl(lines: seq<string>)
    requires forall i | 0 <= i < |lines| :: UrlMatch(lines[i]).None?
    ensures Label(ScanInfo(lines).url, ScanInfo(lines).root) == UnknownUrl
  {
    InfoDefaults(lines);
    UnknownLabel(ScanInfo(lines).root);
  }

  /** A branch checkout is labelled `b/<name>`. */
  lemma BranchLabel()
    ensures Label("https://host/repo/branches/foo", "https://host/repo") == "b/foo"
  {
    var root, rest := "https://host/repo", "branches/foo";
    var url := "https://host/repo/branches/foo";
    assert url == root + "/" + rest by {
      assert url[..17] == root;
      assert url[17..18] == "/";
      assert url[18..] == rest;
      assert url == url[..17] + url[17..18] + url[18..];
    }
    assert !Occurs(rest, root + "/");
    LabelDropsRoot(root, rest);
    ReplaceAllAtStart("branches/", "b/", "foo");
    assert rest == "branches/" + "foo";
    ReplaceAllAbsent("foo", "branches/", "b/");
    ReplaceAllAbsent("b/foo", "tags/", "t/");
  }

  /** A tag checkout is labelled `t/<name>`. */
  lemma TagLabel()
    ensures Label("https://host/repo/tags/v1", "https://host/repo") == "t/v1"
  {
    var root, rest := "https://host/repo", "tags/v1";
    var url := "https://host/repo/tags/v1";
    assert url == root + "/" + rest by {
      assert url[..17] == root;
      assert url[17..18] == "/";
      assert url[18..] == rest;
      assert url == url[..17] + url[17..18] + url[18..];
    }
    assert !Occurs(rest, root + "/");
    LabelDropsRoot(root, rest);
    ReplaceAllAbsent(rest, "branches/", "b/");
    assert rest == "tags/" + "v1";
    ReplaceAllAtStart("tags/", "t/", "v1");
    ReplaceAllAbsent("v1", "tags/", "t/");
  }
}
