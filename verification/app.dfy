/** The `/analyze_repo` handler (main.py): the repository-URL recogniser,
    the ordered status decisions, the per-file summary list and the fields
    of the response. */
module App {
  import opened Wrappers
  import opened Text
  import opened Summarizer
  import opened Fetcher

  const Prefix: string := "https://github.com/"

  /** `[\w\-]`, with `\w` taken as ASCII letters, digits and `_`. */
  predicate IsNameChar(c: char)
  {
    ('a' <= c <= 'z') || ('A' <= c <= 'Z') || ('0' <= c <= '9') || c == '_' || c == '-'
  }

  predicate IsName(s: string)
  {
    |s| > 0 && forall i :: 0 <= i < |s| ==> IsNameChar(s[i])
  }

  /** `re.match(GITHUB_REGEX, url)` succeeds with groups `owner` and `repo`:
      the prefix, two names separated by "/", an optional "/", and the end of
      the text, where `$` also accepts one final newline. */
  predicate MatchesRepoUrl(url: string, owner: string, repo: string)
  {
    && IsName(owner) && IsName(repo)
    && var base := Prefix + owner + "/" + repo;
       url == base || url == base + "/" || url == base + "\n" || url == base + "/\n"
  }

  /** The endings `(/)?$` allows after the second name. */
  predicate IsEnding(tail: string)
  {
    tail == "" || tail == "/" || tail == "\n" || tail == "/\n"
  }

  /** The recogniser, left to right: the prefix, then the two names. */
  function ParseRepoUrl(url: string): Option<(string, string)>
  {
    if !StartsWith(url, Prefix) then None else ParseNames(url[|Prefix|..])
  }

  /** A run of name characters, "/", another run, then an allowed ending. */
  function ParseNames(rest: string): Option<(string, string)>
  {
    var n := Span(rest, IsNameChar);
    if n == 0 || n == |rest| || rest[n] != '/' then None
    else
      var rest2 := rest[n + 1..];
      var m := Span(rest2, IsNameChar);
      if m > 0 && IsEnding(rest2[m..]) then Some((rest[..n], rest2[..m])) else None
  }

  lemma {:induction false} ParseNamesSound(rest: string, owner: string, repo: string)
    requires ParseNames(rest) == Some((owner, repo))
    ensures IsName(owner) && IsName(repo)
    ensures |owner| + 1 + |repo| <= |rest|
    ensures rest == owner + "/" + repo + rest[|owner| + 1 + |repo|..]
    ensures IsEnding(rest[|owner| + 1 + |repo|..])
  {
    var n := Span(rest, IsNameChar);
    var m := Span(rest[n + 1..], IsNameChar);
    SpanIsName(rest);
    SpanIsName(rest[n + 1..]);
    SplitNames(rest, n, m);
  }

  /** `rest` cut at `n` (a "/") and `m` characters further. */
  lemma {:induction false} SplitNames(rest: string, n: nat, m: nat)
    requires n < |rest| && rest[n] == '/' && m <= |rest| - n - 1
    ensures rest[n + 1..][m..] == rest[n + 1 + m..]
    ensures rest == rest[..n] + "/" + rest[n + 1..][..m] + rest[n + 1 + m..]
  {
    assert rest == rest[..n] + [rest[n]] + rest[n + 1..];
    assert rest[n + 1..] == rest[n + 1..][..m] + rest[n + 1 + m..];
  }

  /** A non-empty run of name characters is a name. */
  lemma {:induction false} SpanIsName(s: string)
    ensures Span(s, IsNameChar) > 0 ==> IsName(s[..Span(s, IsNameChar)])
  {
    var n := Span(s, IsNameChar);
    assert forall i :: 0 <= i < n ==> s[..n][i] == s[i];
  }

  /** Everything the recogniser accepts matches the pattern, with the
      groups it returns. */
  lemma {:induction false} ParseSound(url: string)
    requires ParseRepoUrl(url).Some?
    ensures MatchesRepoUrl(url, ParseRepoUrl(url).value.0, ParseRepoUrl(url).value.1)
  {
    var rest := url[|Prefix|..];
    var (owner, repo) := ParseNames(rest).value;
    ParseNamesSound(rest, owner, repo);
    var tail := rest[|owner| + 1 + |repo|..];
    assert url == url[..|Prefix|] + rest;
    Regroup(owner, repo, tail);
    MatchesWithEnding(owner, repo, tail);
  }

  lemma {:induction false} Regroup(owner: string, repo: string, tail: string)
    ensures Prefix + (owner + "/" + repo + tail) == (Prefix + owner + "/" + repo) + tail
  {
  }

  /** Two names, "/" between them, and an allowed ending match the pattern. */
  lemma {:induction false} MatchesWithEnding(owner: string, repo: string, tail: string)
    requires IsName(owner) && IsName(repo) && IsEnding(tail)
    ensures MatchesRepoUrl((Prefix + owner + "/" + repo) + tail, owner, repo)
  {
    var base := Prefix + owner + "/" + repo;
    if tail == "" {
      assert base + tail == base;
    }
  }

  /** Everything that matches the pattern is accepted, with its own groups:
      the groups are determined by the URL. */
  lemma {:induction false} ParseComplete(url: string, owner: string, repo: string)
    requires MatchesRepoUrl(url, owner, repo)
    ensures ParseRepoUrl(url) == Some((owner, repo))
  {
    var base := Prefix + owner + "/" + repo;
    var tail := url[|base|..];
    assert url == base + tail;
    assert url == Prefix + (owner + "/" + repo + tail);
    ParseAfterPrefix(owner + "/" + repo + tail);
    ParseNamesOf(owner, repo, tail);
  }

  /** After the prefix, the recogniser only looks at the rest. */
  lemma {:induction false} ParseAfterPrefix(rest: string)
    ensures ParseRepoUrl(Prefix + rest) == ParseNames(rest)
  {
    assert (Prefix + rest)[..|Prefix|] == Prefix;
    assert (Prefix + rest)[|Prefix|..] == rest;
  }

  /** Two names, "/" between them, and a text that does not continue the
      second name: accepted exactly when that text is an allowed ending. */
  lemma {:induction false} ParseNamesOf(owner: string, repo: string, tail: string)
    requires IsName(owner) && IsName(repo)
    requires |tail| > 0 ==> !IsNameChar(tail[0])
    ensures ParseNames(owner + "/" + repo + tail) == if IsEnding(tail) then Some((owner, repo)) else None
  {
    var rest := owner + "/" + repo + tail;
    assert rest == owner + ("/" + repo + tail);
    SpanOfName(owner, "/" + repo + tail);
    var rest2 := rest[|owner| + 1..];
    assert rest2 == repo + tail;
    SpanOfName(repo, tail);
    assert rest[..|owner|] == owner;
    assert rest2[..|repo|] == repo;
    assert rest2[|repo|..] == tail;
  }

  /** A run of name characters ends where a name is followed by a character
      that cannot be part of one. */
  lemma {:induction false} SpanOfName(name: string, after: string)
    requires IsName(name)
    requires |after| > 0 ==> !IsNameChar(after[0])
    ensures Span(name + after, IsNameChar) == |name|
  {
    var s := name + after;
    assert forall i :: 0 <= i < |name| ==> s[i] == name[i];
    assert |name| < |s| ==> s[|name|] == after[0];
  }

  /** An accepted URL has no "." after the prefix: names such as `a.b` or a
      trailing `.git` are rejected. */
  lemma {:induction false} AcceptedHasNoDot(url: string)
    requires ParseRepoUrl(url).Some?
    ensures forall i :: |Prefix| <= i < |url| ==> url[i] != '.'
  {
    var rest := url[|Prefix|..];
    var (owner, repo) := ParseNames(rest).value;
    ParseNamesSound(rest, owner, repo);
    NoDotIn(owner, repo, rest[|owner| + 1 + |repo|..]);
    forall i | |Prefix| <= i < |url|
      ensures url[i] != '.'
    {
      assert url[i] == rest[i - |Prefix|];
    }
  }

  /** Two names, "/" and an allowed ending hold no ".". */
  lemma {:induction false} NoDotIn(owner: string, repo: string, tail: string)
    requires IsName(owner) && IsName(repo) && IsEnding(tail)
    ensures forall i :: 0 <= i < |owner + "/" + repo + tail| ==> (owner + "/" + repo + tail)[i] != '.'
  {
    var s := owner + "/" + repo + tail;
    forall i | 0 <= i < |s|
      ensures s[i] != '.'
    {
      if i < |owner| {
        assert s[i] == owner[i];
      } else if i == |owner| {
        assert s[i] == '/';
      } else if i < |owner| + 1 + |repo| {
        assert s[i] == repo[i - |owner| - 1];
      } else {
        assert s[i] == tail[i - |owner| - 1 - |repo|];
      }
    }
  }

  /** A repository URL with a hyphen and an underscore in its names. */
  lemma {:induction false} ParseAcceptsPlain()
    ensures ParseRepoUrl("https://github.com/octo-cat/my_repo") == Some(("octo-cat", "my_repo"))
  {
    var u := "https://github.com/octo-cat/my_repo";
    assert IsName("octo-cat") && IsName("my_repo");
    assert u == Prefix + "octo-cat" + "/" + "my_repo";
    ParseComplete(u, "octo-cat", "my_repo");
  }

  /** The same URL with a final "/" names the same repository. */
  lemma {:induction false} ParseAcceptsSlash()
    ensures ParseRepoUrl("https://github.com/octo-cat/my_repo/") == Some(("octo-cat", "my_repo"))
  {
    var u := "https://github.com/octo-cat/my_repo/";
    assert IsName("octo-cat") && IsName("my_repo");
    assert u == Prefix + "octo-cat" + "/" + "my_repo" + "/";
    ParseComplete(u, "octo-cat", "my_repo");
  }

  /** A deeper path, such as a branch page `owner/repo/tree/main`, is not a
      repository URL. */
  lemma {:induction false} ParseRejectsSubpage(owner: string, repo: string, segment: string)
    requires IsName(owner) && IsName(repo)
    requires segment != "" && segment != "\n"
    ensures ParseRepoUrl(Prefix + owner + "/" + repo + "/" + segment).None?
  {
    var tail := "/" + segment;
    assert Prefix + owner + "/" + repo + "/" + segment == Prefix + (owner + "/" + repo + tail);
    ParseAfterPrefix(owner + "/" + repo + tail);
    ParseNamesOf(owner, repo, tail);
    assert |tail| >= 2 && tail[1..] == segment;
  }

  /** A name followed by "." (the clone form `owner/repo.git`, or a dotted
      name) is not a repository URL. */
  lemma {:induction false} ParseRejectsDot(owner: string, repo: string, tail: string)
    requires IsName(owner) && IsName(repo)
    requires |tail| > 0 && tail[0] == '.'
    ensures ParseRepoUrl(Prefix + owner + "/" + repo + tail).None?
  {
    assert Prefix + owner + "/" + repo + tail == Prefix + (owner + "/" + repo + tail);
    ParseAfterPrefix(owner + "/" + repo + tail);
    ParseNamesOf(owner, repo, tail);
  }

  /** Only the https scheme is accepted. */
  lemma {:induction false} ParseRejectsHttp()
    ensures ParseRepoUrl("http://github.com/octo/repo").None?
  {
    assert "http://github.com/octo/repo"[4] != Prefix[4];
  }

  /** Text of an exception as `str(e)` renders it in an error detail. */
  function ErrorText(e: FetchError): string
  {
    match e
    case ListingError(reason) => reason
    case IndexOutOfRange => "list index out of range"
  }

  /** The entry `summaries` gets for one file, given the file summariser. */
  function SummaryEntry(summarize: (string, string) -> string, path: string, content: string): string
  {
    path + ":\n" + summarize(path, content)
  }

  /** The loop building the summary list, one entry per file in map order;
      `None` when some file's content is `None`, on which `summarize_file`
      raises. */
  function SummaryList(summarize: (string, string) -> string, files: Dict): (r: Option<seq<string>>)
    ensures r.Some? <==> NonePaths(files) == []
    ensures r.Some? ==> |r.value| == |files|
    ensures r.Some? ==> forall i :: 0 <= i < |files| ==>
              files[i].1.Some? && r.value[i] == SummaryEntry(summarize, files[i].0, files[i].1.value)
    decreases |files|
  {
    if |files| == 0 then Some([])
    else if files[0].1.None? then None
    else
      var rest := SummaryList(summarize, files[1..]);
      if rest.None? then None
      else
        var r := [SummaryEntry(summarize, files[0].0, files[0].1.value)] + rest.value;
        assert forall i :: 1 <= i < |files| ==> files[i] == files[1..][i - 1] && r[i] == rest.value[i - 1];
        Some(r)
  }

  /** The summary list of `analyze_repo`, with `summarize_file` as the
      summariser. */
  function FileSummaries(prov: Providers, files: Dict): (r: Option<seq<string>>)
    ensures r.Some? <==> NonePaths(files) == []
    ensures r.Some? ==> |r.value| == |files|
    ensures r.Some? ==> forall i :: 0 <= i < |files| ==>
              files[i].1.Some? && r.value[i] == files[i].0 + ":\n" + SummarizeFile(prov, files[i].0, files[i].1.value).text
  {
    SummaryList((path, content) => SummarizeFile(prov, path, content).text, files)
  }

  /** The JSON body of a success, or the status and detail of an error. */
  datatype Response =
    | Ok200(repo: string, fileCount: nat, projectSummary: string)
    | HttpError(status: nat, detail: string)

  const InvalidUrlDetail: string := "Invalid GitHub URL. Must be of the form https://github.com/username/projectname"

  /** `analyze_repo(url)`. The contents API is `server`, which answers the
      root listing of a repository; `writeFailure` is the error, if any, of
      writing the report file; `timestamp` is the clock; `mode` is the
      fetcher's reassembly loop, `ScanForPlaceholders` in the service as
      written. */
  function AnalyzeRepo(url: string, server: (string, string) -> Listing, prov: Providers,
                       timestamp: string, writeFailure: Option<string>, mode: Mode): Response
  {
    match ParseRepoUrl(url)
    case None => HttpError(400, InvalidUrlDetail)
    case Some((owner, repo)) =>
      match FetchFiles(server(owner, repo), mode)
      case Failure(e) => HttpError(500, "Error fetching files: " + ErrorText(e))
      case Success(files) =>
        if |files| == 0 then HttpError(404, "No readable files found.")
        else
          match FileSummaries(prov, files)
          case None => HttpError(500, "Internal Server Error")
          case Some(summaries) =>
            match writeFailure
            case Some(msg) => HttpError(500, "Error generating project summary: " + msg)
            case None =>
              Ok200(owner + "/" + repo, |files|, SummarizeProject(prov, summaries, "Project", timestamp).filename)
  }

  /** An invalid URL gets 400, and the answer does not depend on the server,
      which is not consulted. */
  lemma {:induction false} InvalidUrlRejected(url: string, server: (string, string) -> Listing, other: (string, string) -> Listing,
                           prov: Providers, timestamp: string, writeFailure: Option<string>, mode: Mode)
    ensures AnalyzeRepo(url, server, prov, timestamp, writeFailure, mode).HttpError?
            && AnalyzeRepo(url, server, prov, timestamp, writeFailure, mode).status == 400
            <==> ParseRepoUrl(url).None?
    ensures ParseRepoUrl(url).None? ==>
              AnalyzeRepo(url, server, prov, timestamp, writeFailure, mode) == HttpError(400, InvalidUrlDetail)
              && AnalyzeRepo(url, server, prov, timestamp, writeFailure, mode) == AnalyzeRepo(url, other, prov, timestamp, writeFailure, mode)
  {
  }

  const FetchErrorPrefix: string := "Error fetching files: "

  /** With a valid URL, an aborted fetch gives 500 before anything is
      summarised. A failed listing request anywhere in the tree aborts it;
      the service as written then reports either that failure or, when a
      directory met earlier breaks, "list index out of range". Without a
      failed listing the service as written answers "list index out of
      range" exactly when some directory breaks, and the corrected fetch
      never aborts. */
  lemma {:induction false} FetchErrorIs500(url: string, server: (string, string) -> Listing, prov: Providers,
                        timestamp: string, writeFailure: Option<string>, mode: Mode)
    requires ParseRepoUrl(url).Some?
    ensures var (owner, repo) := ParseRepoUrl(url).value;
            var tree := server(owner, repo);
            var r := AnalyzeRepo(url, server, prov, timestamp, writeFailure, mode);
            && (FirstFailure(tree).Some? ==>
                  r == HttpError(500, FetchErrorPrefix + FirstFailure(tree).value)
                  || r == HttpError(500, FetchErrorPrefix + "list index out of range"))
            && (mode == ZipByPath && FirstFailure(tree).Some? ==>
                  r == HttpError(500, FetchErrorPrefix + FirstFailure(tree).value))
            && (FirstFailure(tree).None? && UniquePaths(tree) && mode == ScanForPlaceholders && Breaks(tree) ==>
                  r == HttpError(500, FetchErrorPrefix + "list index out of range"))
            && (FirstFailure(tree).None? && UniquePaths(tree) && !(mode == ScanForPlaceholders && Breaks(tree)) ==>
                  FetchFiles(tree, mode) == Success(Expected(tree)))
  {
    var (owner, repo) := ParseRepoUrl(url).value;
    var tree := server(owner, repo);
    FetchFilesFails(tree, mode);
    if FirstFailure(tree).None? && UniquePaths(tree) {
      FetchFilesContents(tree, mode);
    }
  }

  /** The order of the decisions: 400 for an invalid URL, else 500 for a
      fetch error, else 404 for an empty file map, else 500 when a file has no
      content, else 500 when the report cannot be written, else success. */
  lemma {:induction false} DecisionOrder(url: string, server: (string, string) -> Listing, prov: Providers,
                      timestamp: string, writeFailure: Option<string>, mode: Mode)
    requires ParseRepoUrl(url).Some?
    ensures var (owner, repo) := ParseRepoUrl(url).value;
            var fetched := FetchFiles(server(owner, repo), mode);
            var r := AnalyzeRepo(url, server, prov, timestamp, writeFailure, mode);
            && (fetched.Failure? ==> r.HttpError? && r.status == 500 && StartsWith(r.detail, FetchErrorPrefix))
            && (fetched.Success? && |fetched.value| == 0 ==> r == HttpError(404, "No readable files found."))
            && (fetched.Success? && |fetched.value| > 0 && NonePaths(fetched.value) != [] ==>
                  r == HttpError(500, "Internal Server Error"))
            && (r.Ok200? <==> fetched.Success? && |fetched.value| > 0 && NonePaths(fetched.value) == [] && writeFailure.None?)
  {
    var (owner, repo) := ParseRepoUrl(url).value;
    var fetched := FetchFiles(server(owner, repo), mode);
    if fetched.Failure? {
      var d := FetchErrorPrefix + ErrorText(fetched.error);
      assert d[..|FetchErrorPrefix|] == FetchErrorPrefix;
    }
  }

  /** A success names the repository as `owner/repo` from the URL's groups,
      counts the files of the map, and returns the report's file name, not
      the report. */
  lemma {:induction false} SuccessFields(url: string, server: (string, string) -> Listing, prov: Providers,
                      timestamp: string, writeFailure: Option<string>, mode: Mode)
    requires AnalyzeRepo(url, server, prov, timestamp, writeFailure, mode).Ok200?
    ensures ParseRepoUrl(url).Some?
    ensures var (owner, repo) := ParseRepoUrl(url).value;
            var r := AnalyzeRepo(url, server, prov, timestamp, writeFailure, mode);
            && MatchesRepoUrl(url, owner, repo)
            && r.repo == owner + "/" + repo
            && FetchFiles(server(owner, repo), mode).Success?
            && r.fileCount == |FetchFiles(server(owner, repo), mode).value| > 0
            && r.projectSummary == "Project_summary.md"
  {
    ParseSound(url);
    ProjectReportName();
  }

  /** The report of the project summary is written to "Project_summary.md". */
  lemma {:induction false} ProjectReportName()
    ensures ReportFilename("Project") == "Project_summary.md"
  {
    var f := ReportFilename("Project");
    forall i | 0 <= i < |f|
      ensures f[i] == "Project_summary.md"[i]
    {
      if i >= |"Project"| {
        assert f[|f| - |"_summary.md"|..][i - |"Project"|] == f[i];
      }
    }
  }

  /** A success needs every listing request and every download to have
      worked, and, for the service as written, no directory to break: a
      failed download leaves `None` in the map, and `summarize_file` raises
      on it. */
  lemma {:induction false} SuccessMeansAllDownloaded(url: string, server: (string, string) -> Listing, prov: Providers,
                                  timestamp: string, writeFailure: Option<string>, mode: Mode)
    requires ParseRepoUrl(url).Some?
    requires var (owner, repo) := ParseRepoUrl(url).value;
             UniquePaths(server(owner, repo))
    ensures var (owner, repo) := ParseRepoUrl(url).value;
            var tree := server(owner, repo);
            var es := Entries(tree);
            AnalyzeRepo(url, server, prov, timestamp, writeFailure, mode).Ok200? ==>
              && FirstFailure(tree).None?
              && !(mode == ScanForPlaceholders && Breaks(tree))
              && forall j :: 0 <= j < |es| && es[j].Listed? && !IsBinary(es[j].name) ==> es[j].download.Fetched?
  {
    var (owner, repo) := ParseRepoUrl(url).value;
    var tree := server(owner, repo);
    var es := Entries(tree);
    FetchFilesContents(tree, mode);
    if AnalyzeRepo(url, server, prov, timestamp, writeFailure, mode).Ok200? {
      var files := FetchFiles(tree, mode).value;
      forall j | 0 <= j < |es| && es[j].Listed? && !IsBinary(es[j].name)
        ensures es[j].download.Fetched?
      {
        assert EntryPair(es[j]) in files;
        NoNoneValue(files, EntryPair(es[j]));
      }
    }
  }

  lemma {:induction false} NoNoneValue(d: Dict, p: (string, Option<string>))
    requires NonePaths(d) == [] && p in d
    ensures p.1.Some?
    decreases |d|
  {
    if d[0] != p {
      assert p in d[1..];
      NoNoneValue(d[1..], p);
    }
  }
}
