/** Where the review gets its pull-request context: the model-name prefix
    for the OpenAI-compatible backend, the owner/repo name taken from a git
    remote URL, the information for a local review session, and the
    defaulting of pull-request fields read from a GitHub event payload. */
module PrContext {
  import opened Wrappers
  import opened Strings

  // ---------------------------------------------------------------------
  // Model name
  // ---------------------------------------------------------------------

  const ProviderPrefix: string := "openai/"

  /** `_prepare_openhands_model`: the trimmed name when it already names a
      provider (holds a `/`), otherwise the name under the `openai/`
      provider.  The result always names a provider, has no surrounding
      whitespace, and ends with the trimmed name. */
  function PrepareModel(name: string): (r: string)
    ensures Contains(r, "/") && IsStripped(r)
    ensures |Strip(name)| <= |r| && r[|r| - |Strip(name)|..] == Strip(name)
    ensures r == Strip(name) <==> Contains(Strip(name), "/")
    ensures !Contains(Strip(name), "/") ==> r == ProviderPrefix + Strip(name)
  {
    var trimmed := Strip(name);
    StripIsStripped(name);
    if Contains(trimmed, "/") then
      trimmed
    else
      PrefixedName(trimmed);
      ProviderPrefix + trimmed
  }

  lemma PrefixedName(trimmed: string)
    requires IsStripped(trimmed)
    ensures var r := ProviderPrefix + trimmed;
      Contains(r, "/") && IsStripped(r) && r[|r| - |trimmed|..] == trimmed
  {
    var r := ProviderPrefix + trimmed;
    assert r[6..7] == "/";
    ContainsAt(r, "/", 6);
    assert r[0] == 'o';
    if trimmed != "" {
      assert r[|r| - 1] == trimmed[|trimmed| - 1];
    }
    assert r[|r| - |trimmed|..] == trimmed;
  }

  /** Preparing an already prepared name changes nothing. */
  lemma PrepareModelIdempotent(name: string)
    ensures PrepareModel(PrepareModel(name)) == PrepareModel(name)
  {
    var r := PrepareModel(name);
    StripStripped(r);
  }

  // ---------------------------------------------------------------------
  // Remote URL
  // ---------------------------------------------------------------------

  const UnknownRepo: string := "unknown/unknown"

  /** The text after the last `sep` (`s.split(sep)[-1]`). */
  function LastPiece(s: string, sep: char): string {
    var parts := Split(s, sep);
    parts[|parts| - 1]
  }

  /** The owner/repo pair from a remote URL with the `.git` already
      removed: the last two `/`-pieces, with anything up to a `:` dropped
      from the owner piece. */
  function RepoFromPath(path: string): string {
    var parts := Split(path, '/');
    if |parts| < 2 then UnknownRepo
    else LastPiece(parts[|parts| - 2], ':') + "/" + parts[|parts| - 1]
  }

  /** The remote-URL parsing of `_load_local_info` as written: every
      `.git` anywhere in the URL is removed before splitting.  A URL not
      naming `github.com` gives the unknown repository, and on a URL
      without `.git` anywhere it agrees with the corrected parsing. */
  function RepoFromRemote(url: string): (r: string)
    ensures !Contains(url, "github.com") ==> r == UnknownRepo
    ensures !Contains(url, ".git") ==> r == RepoFromRemoteFixed(url)
  {
    NoGitUntouched(url);
    if url == "" || !Contains(url, "github.com") then UnknownRepo
    else RepoFromPath(Replace(url, ".git", ""))
  }

  /** Both ways of removing `.git` leave a URL without it unchanged. */
  lemma NoGitUntouched(url: string)
    ensures !Contains(url, ".git") ==> Replace(url, ".git", "") == url && RemoveSuffix(url, ".git") == url
  {
    if |url| >= 4 && url[|url| - 4..] == ".git" {
      ContainsAt(url, ".git", |url| - 4);
    } else if !Contains(url, ".git") {
      ReplaceAbsent(url, ".git", "");
    }
  }

  /** `s.removesuffix(suffix)`. */
  function RemoveSuffix(s: string, suffix: string): string {
    if |suffix| <= |s| && s[|s| - |suffix|..] == suffix then s[..|s| - |suffix|] else s
  }

  /** The remote-URL parsing with only a trailing `.git` removed, which is
      what the parsing is meant to do. */
  function RepoFromRemoteFixed(url: string): string {
    if url == "" || !Contains(url, "github.com") then UnknownRepo
    else RepoFromPath(RemoveSuffix(url, ".git"))
  }

  const SshPrefix: string := "git@github.com:"
  const HttpsPrefix: string := "https://github.com/"

  /** An owner or repository name as it appears in a remote URL. */
  predicate Segment(s: string) {
    '/' !in s && ':' !in s
  }

  /** Without `github.com` in the URL, or with no `/` left after removing
      `.git`, the repository is unknown. */
  lemma RemoteUnknown(url: string)
    requires url == "" || !Contains(url, "github.com") || '/' !in Replace(url, ".git", "")
    ensures RepoFromRemote(url) == UnknownRepo
  {
    if url != "" && Contains(url, "github.com") {
      SplitNone(Replace(url, ".git", ""), '/');
    }
  }

  /** A string whose every `.` is not followed by `g` holds no `.git`. */
  lemma NoGitIn(s: string)
    requires forall j :: 0 <= j < |s| - 1 && s[j] == '.' ==> s[j + 1] != 'g'
    ensures !Contains(s, ".git")
  {
    IndexOfSpec(s, ".git");
    forall j | 0 <= j <= |s|
      ensures !(".git" <= s[j..])
    {
      if j + 4 <= |s| {
        assert s[j..][0] == s[j] && s[j..][1] == s[j + 1];
      }
    }
  }

  /** Neither URL prefix holds `.git`. */
  lemma PrefixFacts()
    ensures !Contains(SshPrefix, ".git") && !Contains(HttpsPrefix, ".git")
  {
    SshNoGit();
    HttpsNoGit();
  }

  // The two prefixes are checked character by character in lemmas of
  // their own, which keeps each literal apart from the other.

  lemma SshNoGit()
    ensures !Contains("git@github.com:", ".git")
  {
    var s := "git@github.com:";
    assert forall j :: 0 <= j < |s| && j != 10 ==> s[j] != '.';
    assert s[11] == 'c';
    NoGitIn(s);
  }

  lemma HttpsNoGit()
    ensures !Contains("https://github.com/", ".git")
  {
    var s := "https://github.com/";
    assert forall j :: 0 <= j < |s| && j != 14 ==> s[j] != '.';
    assert s[15] == 'c';
    NoGitIn(s);
  }

  /** Removing `.git` from a URL `prefix + owner + "/" + repo + ".git"`
      leaves the prefix, the owner and the slash alone and removes `.git`
      throughout the repository name. */
  lemma {:induction false} ReplaceInRemote(prefix: string, owner: string, repo: string)
    requires |prefix| > 0 && prefix[|prefix| - 1] in ":/"
    requires !Contains(prefix, ".git") && !Contains(owner, ".git")
    ensures Replace(prefix + owner + "/" + repo + ".git", ".git", "") ==
      prefix + owner + "/" + Replace(repo, ".git", "")
  {
    var a := prefix + owner;
    var b := a + "/";
    var c := b + repo;
    NoGitStraddle(c, ".git");
    ReplaceAppend(c, ".git", ".git", "");
    assert Replace(".git", ".git", "") == "";
    NoGitStraddle(b, repo);
    ReplaceAppend(b, repo, ".git", "");
    NoGitStraddle(a, "/");
    ReplaceAppend(a, "/", ".git", "");
    ReplaceAbsent("/", ".git", "");
    if owner == "" {
      assert a == prefix;
    } else {
      NoGitStraddle(prefix, owner);
    }
    ReplaceAppend(prefix, owner, ".git", "");
    ReplaceAbsent(prefix, ".git", "");
    ReplaceAbsent(owner, ".git", "");
  }

  /** A character in neither the text nor the replacement is not in the
      result of a replacement. */
  lemma {:induction false} ReplaceKeepsOut(s: string, target: string, repl: string, c: char)
    requires target != "" && c !in s && c !in repl
    ensures c !in Replace(s, target, repl)
    decreases |s|
  {
    if |s| > 0 {
      if target <= s {
        assert s[|target|..] == s[|target|..];
        assert forall i :: |target| <= i < |s| ==> s[i] in s;
        ReplaceKeepsOut(s[|target|..], target, repl, c);
      } else {
        assert forall i :: 1 <= i < |s| ==> s[i] in s;
        ReplaceKeepsOut(s[1..], target, repl, c);
      }
    }
  }

  /** Removing a pattern that occurs makes the text strictly shorter. */
  lemma {:induction false} ReplaceShrinks(s: string, target: string)
    requires target != ""
    ensures |Replace(s, target, "")| <= |s|
    ensures Contains(s, target) ==> |Replace(s, target, "")| < |s|
    decreases |s|
  {
    if |s| > 0 {
      if target <= s {
        ReplaceShrinks(s[|target|..], target);
      } else {
        ReplaceShrinks(s[1..], target);
      }
    }
  }

  /** After a `/`, an owner and a repository separated by `/` are the two
      pieces the path parsing reports. */
  lemma SlashPath(host: string, owner: string, repo: string)
    requires Segment(owner) && Segment(repo)
    ensures RepoFromPath(host + "/" + owner + "/" + repo) == owner + "/" + repo
  {
    var head := host + "/" + owner;
    assert host + "/" + owner + "/" + repo == head + ['/'] + repo;
    SplitBeforeLast(head, '/', repo);
    assert head == host + ['/'] + owner;
    SplitBeforeLast(host, '/', owner);
    SplitNone(owner, ':');
  }

  /** After a `:` closing a host without `/`, the same holds: the host is
      dropped from the owner piece. */
  lemma ColonPath(host: string, owner: string, repo: string)
    requires '/' !in host && Segment(owner) && Segment(repo)
    ensures RepoFromPath(host + ":" + owner + "/" + repo) == owner + "/" + repo
  {
    var head := host + ":" + owner;
    assert '/' !in head by {
      assert forall i :: 0 <= i < |head| ==> head[i] == (if i < |host| then host[i] else if i == |host| then ':' else owner[i - |host| - 1]);
    }
    assert host + ":" + owner + "/" + repo == head + ['/'] + repo;
    SplitBeforeLast(head, '/', repo);
    SplitNone(head, '/');
    assert head == host + [':'] + owner;
    SplitBeforeLast(host, ':', owner);
  }

  /** The path of an SSH remote splits into the owner and the repository. */
  lemma SshPath(owner: string, repo: string)
    requires Segment(owner) && Segment(repo)
    ensures RepoFromPath(SshPrefix + owner + "/" + repo) == owner + "/" + repo
  {
    var host := "git@github.com";
    assert '/' !in host;
    assert SshPrefix + owner + "/" + repo == host + ":" + owner + "/" + repo;
    ColonPath(host, owner, repo);
  }

  /** The path of an HTTPS remote splits into the owner and the
      repository. */
  lemma HttpsPath(owner: string, repo: string)
    requires Segment(owner) && Segment(repo)
    ensures RepoFromPath(HttpsPrefix + owner + "/" + repo) == owner + "/" + repo
  {
    var host := "https://github.com";
    assert HttpsPrefix + owner + "/" + repo == host + "/" + owner + "/" + repo;
    SlashPath(host, owner, repo);
  }

  /** `github.com` occurs in every URL built on either prefix. */
  lemma HostPresent(prefix: string, rest: string)
    requires prefix == SshPrefix || prefix == HttpsPrefix
    ensures Contains(prefix + rest, "github.com")
  {
    if prefix == SshPrefix {
      SshHost(rest);
    } else {
      HttpsHost(rest);
    }
  }

  lemma SshHost(rest: string)
    ensures Contains(SshPrefix + rest, "github.com")
  {
    SshHostAt(rest);
    ContainsAt(SshPrefix + rest, "github.com", 4);
  }

  lemma SshHostAt(rest: string)
    ensures (SshPrefix + rest)[4..14] == "github.com"
  {
    assert (SshPrefix + rest)[4..14] == SshPrefix[4..14];
  }

  lemma HttpsHost(rest: string)
    ensures Contains(HttpsPrefix + rest, "github.com")
  {
    HttpsHostAt(rest);
    ContainsAt(HttpsPrefix + rest, "github.com", 8);
  }

  lemma HttpsHostAt(rest: string)
    ensures (HttpsPrefix + rest)[8..18] == "github.com"
  {
    assert (HttpsPrefix + rest)[8..18] == HttpsPrefix[8..18];
  }

  /** Both prefixes end with the separator before the owner. */
  lemma PrefixEnds(prefix: string)
    requires prefix == SshPrefix || prefix == HttpsPrefix
    ensures |prefix| > 0 && prefix[|prefix| - 1] in ":/"
  {
  }

  /** A remote URL on either prefix names `github.com`. */
  lemma UrlHost(prefix: string, owner: string, tail: string)
    requires prefix == SshPrefix || prefix == HttpsPrefix
    ensures Contains(prefix + owner + "/" + tail, "github.com")
  {
    HostPresent(prefix, owner + "/" + tail);
    assert prefix + owner + "/" + tail == prefix + (owner + "/" + tail);
  }

  /** A URL naming `github.com` is parsed from its path. */
  lemma RemoteViaPath(url: string)
    requires Contains(url, "github.com")
    ensures RepoFromRemote(url) == RepoFromPath(Replace(url, ".git", ""))
    ensures RepoFromRemoteFixed(url) == RepoFromPath(RemoveSuffix(url, ".git"))
  {
    ContainsShorter(url, "github.com");
  }

  /** The path of a remote on either prefix splits into the owner and the
      repository. */
  lemma HostPath(prefix: string, owner: string, repo: string)
    requires prefix == SshPrefix || prefix == HttpsPrefix
    requires Segment(owner) && Segment(repo)
    ensures RepoFromPath(prefix + owner + "/" + repo) == owner + "/" + repo
  {
    if prefix == SshPrefix {
      SshPath(owner, repo);
    } else {
      HttpsPath(owner, repo);
    }
  }

  /** As written, both remote forms named in the comment on the URL parsing yield
      the owner and the repository name with every `.git` removed from the
      latter. */
  lemma RemoteAsWritten(prefix: string, owner: string, repo: string)
    requires prefix == SshPrefix || prefix == HttpsPrefix
    requires Segment(owner) && Segment(repo) && !Contains(owner, ".git")
    ensures RepoFromRemote(prefix + owner + "/" + repo + ".git") == owner + "/" + Replace(repo, ".git", "")
  {
    var url := prefix + owner + "/" + repo + ".git";
    UrlHost(prefix, owner, repo + ".git");
    assert url == prefix + owner + "/" + (repo + ".git");
    RemoteViaPath(url);
    PrefixFacts();
    PrefixEnds(prefix);
    ReplaceInRemote(prefix, owner, repo);
    ReplaceKeepsOut(repo, ".git", "", '/');
    ReplaceKeepsOut(repo, ".git", "", ':');
    HostPath(prefix, owner, Replace(repo, ".git", ""));
  }

  /** For a repository name without `.git` in it, the parsing as written
      gives the owner and the name itself. */
  lemma RemoteAsWrittenPlain(prefix: string, owner: string, repo: string)
    requires prefix == SshPrefix || prefix == HttpsPrefix
    requires Segment(owner) && Segment(repo) && !Contains(owner, ".git") && !Contains(repo, ".git")
    ensures RepoFromRemote(prefix + owner + "/" + repo + ".git") == owner + "/" + repo
  {
    RemoteAsWritten(prefix, owner, repo);
    ReplaceAbsent(repo, ".git", "");
  }

  /** The documented examples: `git@github.com:user/repo.git` and
      `https://github.com/user/repo.git` both give `user/repo`. */
  lemma RemoteExamples(ssh: string, https: string)
    requires ssh == "git@github.com:user/repo.git"
    requires https == "https://github.com/user/repo.git"
    ensures RepoFromRemote(ssh) == "user/repo"
    ensures RepoFromRemote(https) == "user/repo"
  {
    SshExample(ssh, "user", "repo");
    HttpsExample(https, "user", "repo");
  }

  lemma SshExample(url: string, owner: string, repo: string)
    requires url == "git@github.com:user/repo.git" && owner == "user" && repo == "repo"
    ensures RepoFromRemote(url) == owner + "/" + repo
  {
    ExampleNames(owner, repo);
    assert SshPrefix + "user" + "/" + "repo" + ".git" == "git@github.com:user/repo.git";
    RemoteAsWrittenPlain(SshPrefix, owner, repo);
  }

  lemma HttpsExample(url: string, owner: string, repo: string)
    requires url == "https://github.com/user/repo.git" && owner == "user" && repo == "repo"
    ensures RepoFromRemote(url) == owner + "/" + repo
  {
    ExampleNames(owner, repo);
    assert HttpsPrefix + "user" + "/" + "repo" + ".git" == "https://github.com/user/repo.git";
    RemoteAsWrittenPlain(HttpsPrefix, owner, repo);
  }

  lemma ExampleNames(owner: string, repo: string)
    requires owner == "user" && repo == "repo"
    ensures Segment(owner) && Segment(repo) && !Contains(owner, ".git") && !Contains(repo, ".git")
  {
    NoGitIn(owner);
    NoGitIn(repo);
  }

  /** As written, a repository whose name contains `.git` (such as a
      `*.github.io` site) is reported under a different name. */
  lemma RemoteAsWrittenManglesName(prefix: string, owner: string, repo: string)
    requires prefix == SshPrefix || prefix == HttpsPrefix
    requires Segment(owner) && Segment(repo) && !Contains(owner, ".git")
    requires Contains(repo, ".git")
    ensures RepoFromRemote(prefix + owner + "/" + repo + ".git") != owner + "/" + repo
  {
    RemoteAsWritten(prefix, owner, repo);
    ReplaceShrinks(repo, ".git");
  }

  /** The concrete case: `git@github.com:octocat/octocat.github.io.git` is
      not reported as `octocat/octocat.github.io`. */
  lemma RemotePagesSiteExample(url: string, owner: string, repo: string)
    requires url == "git@github.com:octocat/octocat.github.io.git"
    requires owner == "octocat" && repo == "octocat.github.io"
    ensures RepoFromRemote(url) != owner + "/" + repo
  {
    assert repo[7..11] == ".git";
    ContainsAt(repo, ".git", 7);
    assert '.' !in owner;
    NoGitIn(owner);
    PagesSiteUrl();
    RemoteAsWrittenManglesName(SshPrefix, owner, repo);
  }


  /** The literal remote of `RemotePagesSiteExample`, proved on its own so
      the solver sees the string concatenation apart from the parsing. */
  lemma PagesSiteUrl()
    ensures SshPrefix + "octocat" + "/" + "octocat.github.io" + ".git" == "git@github.com:octocat/octocat.github.io.git"
  {
  }

  /** Whether `s` ends with `.git`. */
  predicate EndsWithGit(s: string) {
    |s| >= 4 && s[|s| - 4..] == ".git"
  }

  /** With only the trailing `.git` removed, both remote forms give the
      owner and the repository name exactly, whatever the name holds. */
  lemma RemoteFixed(prefix: string, owner: string, repo: string)
    requires prefix == SshPrefix || prefix == HttpsPrefix
    requires Segment(owner) && Segment(repo)
    ensures RepoFromRemoteFixed(prefix + owner + "/" + repo + ".git") == owner + "/" + repo
  {
    var path := prefix + owner + "/" + repo;
    UrlHost(prefix, owner, repo + ".git");
    assert path + ".git" == prefix + owner + "/" + (repo + ".git");
    RemoteViaPath(path + ".git");
    assert (path + ".git")[..|path|] == path;
    HostPath(prefix, owner, repo);
  }

  /** A URL without the `.git` suffix is parsed the same way, as long as
      the repository name does not itself end with `.git`. */
  lemma RemoteFixedNoSuffix(prefix: string, owner: string, repo: string)
    requires prefix == SshPrefix || prefix == HttpsPrefix
    requires Segment(owner) && Segment(repo) && !EndsWithGit(repo)
    ensures RepoFromRemoteFixed(prefix + owner + "/" + repo) == owner + "/" + repo
  {
    var path := prefix + owner + "/" + repo;
    UrlHost(prefix, owner, repo);
    RemoteViaPath(path);
    assert path == (prefix + owner) + "/" + repo;
    NoSuffixKept(prefix + owner, repo);
    HostPath(prefix, owner, repo);
  }

  /** A path whose last piece does not end with `.git` keeps its ending. */
  lemma NoSuffixKept(head: string, repo: string)
    requires '/' !in repo && !EndsWithGit(repo)
    ensures RemoveSuffix(head + "/" + repo, ".git") == head + "/" + repo
  {
    var path := head + "/" + repo;
    if |repo| >= 4 {
      assert path[|path| - 4..] == repo[|repo| - 4..];
    } else if |path| >= 4 {
      assert path[|path| - |repo| - 1] == '/';
      assert path[|path| - 4..][3 - |repo|] == '/';
    }
  }

  // ---------------------------------------------------------------------
  // Pull-request information
  // ---------------------------------------------------------------------

  /** The information the review prompt is filled in with. */
  datatype PrInfo = PrInfo(number: string, title: string, body: string, repoName: string,
                           baseBranch: string, headBranch: string)

  /** Python's `text or fallback` on strings. */
  function OrElse(text: string, fallback: string): string {
    if text != "" then text else fallback
  }

  /** `r` is `text` with whitespace removed from both ends only: a window
      of `text` with nothing but whitespace outside it. */
  predicate StrippedWindow(text: string, r: string) {
    exists i :: 0 <= i <= |text| - |r| && Window(text, r, i)
  }

  predicate Window(text: string, r: string, i: int)
    requires 0 <= i <= |text| - |r|
  {
    r == text[i..i + |r|] && AllSpace(text[..i]) && AllSpace(text[i + |r|..])
  }

  lemma StripWindowExists(text: string)
    ensures StrippedWindow(text, Strip(text))
  {
    var i := StripWindow(text);
    assert Window(text, Strip(text), i);
  }

  /** A window with whitespace outside and none at its ends is the
      stripped text: the window property pins `strip()` down. */
  lemma StrippedWindowUnique(text: string, r: string)
    requires IsStripped(r) && StrippedWindow(text, r)
    ensures r == Strip(text)
  {
    var i :| 0 <= i <= |text| - |r| && Window(text, r, i);
    var j := StripWindow(text);
    StripIsStripped(text);
    StripEmptyIff(text);
    if r == "" {
      EmptyWindow(text, i);
    } else {
      assert text[i] == r[0];
      SameWindow(text, r, i, Strip(text), j);
    }
  }

  /** An empty window with only whitespace outside it: all is whitespace. */
  lemma EmptyWindow(text: string, i: int)
    requires 0 <= i <= |text| && Window(text, "", i)
    ensures AllSpace(text)
  {
    assert text == text[..i] + text[i..];
    SpacesJoin(text[..i], text[i..]);
  }

  /** Two non-empty windows with visible ends and only whitespace outside
      them are the same window. */
  lemma SameWindow(text: string, r: string, i: int, t: string, j: int)
    requires 0 <= i <= |text| - |r| && Window(text, r, i) && r != "" && IsStripped(r)
    requires 0 <= j <= |text| - |t| && Window(text, t, j) && t != "" && IsStripped(t)
    ensures r == t
  {
    assert text[i] == r[0] && text[i + |r| - 1] == r[|r| - 1];
    assert text[j] == t[0] && text[j + |t| - 1] == t[|t| - 1];
    NonSpaceInside(text, t, j, i);
    NonSpaceInside(text, r, i, j);
    NonSpaceInside(text, t, j, i + |r| - 1);
    NonSpaceInside(text, r, i, j + |t| - 1);
  }

  /** A character that is not whitespace lies inside every window with
      only whitespace outside it. */
  lemma NonSpaceInside(text: string, w: string, j: int, k: int)
    requires 0 <= j <= |text| - |w| && Window(text, w, j)
    requires 0 <= k < |text| && !IsSpace(text[k])
    ensures j <= k < j + |w|
  {
    assert forall m :: 0 <= m < j ==> text[..j][m] == text[m];
    assert forall m :: j + |w| <= m < |text| ==> text[j + |w|..][m - j - |w|] == text[m];
  }

  /** Real `git` output ends in a newline; it is dropped. */
  lemma GitOutputDropsNewline(line: string)
    requires IsStripped(line)
    ensures GitOutput(Some(line + "\n")) == line
  {
    var text := line + "\n";
    assert text[..|line|] == line && text[|line|..] == "\n";
    assert AllSpace(text[..0]);
    assert Window(text, line, 0);
    StrippedWindowUnique(text, line);
  }

  /** `_get_git_output`: the command's output stripped, or `""` when the
      command failed (`None`).  The result never has surrounding
      whitespace, and it is empty exactly when the command failed or
      printed only whitespace. */
  function GitOutput(output: Option<string>): (r: string)
    ensures IsStripped(r)
    ensures r == "" <==> output.None? || AllSpace(output.value)
    ensures output.Some? && IsStripped(output.value) ==> r == output.value
    ensures output.Some? ==> StrippedWindow(output.value, r)
  {
    match output
    case None => ""
    case Some(text) =>
      StripIsStripped(text);
      StripEmptyIff(text);
      StripWindowExists(text);
      if IsStripped(text) then StripStripped(text); Strip(text) else Strip(text)
  }

  /** `_load_local_info`, given the outputs of `git branch --show-current`
      and `git config --get remote.origin.url`.  The repository name uses
      the remote parsing as written, which removes every `.git`. */
  function LoadLocalInfo(branchOutput: Option<string>, remoteOutput: Option<string>): (info: PrInfo)
    ensures info.headBranch != "" && info.title == "Local Review: " + info.headBranch
    ensures info.headBranch == (if GitOutput(branchOutput) != "" then GitOutput(branchOutput) else "unknown")
    ensures info.number == "local" && info.baseBranch == "main" && info.body == "Local review session."
    ensures info.repoName == RepoFromRemote(GitOutput(remoteOutput))
  {
    var head := OrElse(GitOutput(branchOutput), "unknown");
    PrInfo("local", "Local Review: " + head, "Local review session.",
      RepoFromRemote(GitOutput(remoteOutput)), "main", head)
  }

  /** `_load_local_info` with the corrected remote parsing, which removes
      only a trailing `.git`; every other field is as in `LoadLocalInfo`. */
  function LoadLocalInfoFixed(branchOutput: Option<string>, remoteOutput: Option<string>): (info: PrInfo)
    ensures info.repoName == RepoFromRemoteFixed(GitOutput(remoteOutput))
    ensures info == LoadLocalInfo(branchOutput, remoteOutput).(repoName := info.repoName)
  {
    LoadLocalInfo(branchOutput, remoteOutput).(repoName := RepoFromRemoteFixed(GitOutput(remoteOutput)))
  }

  /** A remote URL on either prefix has no surrounding whitespace. */
  lemma RemoteUrlStripped(prefix: string, owner: string, repo: string)
    requires prefix == SshPrefix || prefix == HttpsPrefix
    ensures var url := prefix + owner + "/" + repo + ".git"; GitOutput(Some(url)) == url
  {
    var url := prefix + owner + "/" + repo + ".git";
    assert url[0] == prefix[0] && url[|url| - 1] == 't';
    assert !IsSpace(prefix[0]);
    StripStripped(url);
  }

  /** As written, a local clone whose origin is a GitHub remote on either
      prefix is reviewed under the remote's owner and the repository name
      with every `.git` removed from it. */
  lemma LocalInfoRepoName(branchOutput: Option<string>, prefix: string, owner: string, repo: string)
    requires prefix == SshPrefix || prefix == HttpsPrefix
    requires Segment(owner) && Segment(repo) && !Contains(owner, ".git")
    ensures LoadLocalInfo(branchOutput, Some(prefix + owner + "/" + repo + ".git")).repoName
      == owner + "/" + Replace(repo, ".git", "")
  {
    RemoteUrlStripped(prefix, owner, repo);
    RemoteAsWritten(prefix, owner, repo);
  }

  /** With the corrected parsing, a local clone whose origin is a GitHub
      remote on either prefix is reviewed under that remote's owner and
      repository name, even when the name itself holds `.git`. */
  lemma LocalInfoFixedRepoName(branchOutput: Option<string>, prefix: string, owner: string, repo: string)
    requires prefix == SshPrefix || prefix == HttpsPrefix
    requires Segment(owner) && Segment(repo)
    ensures LoadLocalInfoFixed(branchOutput, Some(prefix + owner + "/" + repo + ".git")).repoName == owner + "/" + repo
  {
    RemoteUrlStripped(prefix, owner, repo);
    RemoteFixed(prefix, owner, repo);
  }

  /** Without a usable remote the repository is unknown. */
  lemma LocalInfoWithoutRemote(branchOutput: Option<string>)
    ensures LoadLocalInfo(branchOutput, None).repoName == UnknownRepo
  {
  }

  /** `base.repo` of a pull request. */
  datatype Repo = Repo(fullName: Option<string>)

  /** `base` or `head` of a pull request. */
  datatype Branch = Branch(ref: Option<string>, repo: Option<Repo>)

  /** The `pull_request` object of an event, after JSON decoding: the
      fields read, each `None` when absent or `null`, and the number of
      keys those fields do not account for (other keys and keys holding
      `null`), which decides whether the object is empty. */
  datatype PullRequest = PullRequest(number: Option<int>, title: Option<string>, body: Option<string>,
                                     base: Option<Branch>, head: Option<Branch>, otherKeys: nat)

  /** A GitHub event payload: its `pull_request` and its top-level
      `number`. */
  datatype Event = Event(pullRequest: Option<PullRequest>, number: Option<int>)

  /** Whether the `pull_request` object is `{}`. */
  predicate IsEmptyObject(p: PullRequest) {
    p.number.None? && p.title.None? && p.body.None? && p.base.None? && p.head.None? && p.otherKeys == 0
  }

  const MissingPullRequest: string := "Provided event payload does not contain pull_request data."

  /** A non-empty run of decimal digits without a leading zero: how
      Python writes a natural number. */
  predicate CanonicalDigits(d: string) {
    && |d| > 0 && (forall i :: 0 <= i < |d| ==> '0' <= d[i] <= '9')
    && (|d| > 1 ==> d[0] != '0')
  }

  /** How Python's `str()` writes an integer: canonical digits, preceded
      by `-` when the number is negative (and never `-0`). */
  predicate DecimalText(s: string) {
    CanonicalDigits(s) || (|s| > 1 && s[0] == '-' && CanonicalDigits(s[1..]) && s[1..] != "0")
  }

  /** The decimal digits of a natural number. */
  function NatToString(n: nat): (s: string)
    ensures CanonicalDigits(s)
  {
    var d := ['0' + (n % 10) as char];
    if n < 10 then d
    else
      var front := NatToString(n / 10);
      assert front[0] != '0' by {
        if |front| == 1 {
          assert front == ['0' + ((n / 10) % 10) as char];
        }
      }
      front + d
  }

  /** Python's `str()` of an integer. */
  function IntToString(n: int): (s: string)
    ensures |s| > 0 && DecimalText(s)
    ensures s[0] == '-' <==> n < 0
  {
    if n < 0 then
      NatToStringValue(-n);
      var s := "-" + NatToString(-n);
      assert s[1..] == NatToString(-n);
      s
    else NatToString(n)
  }

  /** The value of a string of decimal digits. */
  function DigitsValue(s: string): int
    decreases |s|
  {
    if s == "" then 0 else DigitsValue(s[..|s| - 1]) * 10 + (s[|s| - 1] as int - '0' as int)
  }

  /** Reading the digits back gives the number. */
  lemma {:induction false} NatToStringValue(n: nat)
    ensures DigitsValue(NatToString(n)) == n
  {
    if n >= 10 {
      NatToStringValue(n / 10);
      var s := NatToString(n);
      assert s[..|s| - 1] == NatToString(n / 10);
    }
  }

  /** Canonical digits are the digits of their own value. */
  lemma {:induction false} CanonicalDigitsUnique(d: string)
    requires CanonicalDigits(d)
    ensures DigitsValue(d) >= 0 && d == NatToString(DigitsValue(d))
    decreases |d|
  {
    var last := d[|d| - 1] as int - '0' as int;
    if |d| == 1 {
      assert d == ['0' + last as char];
    } else {
      var p := d[..|d| - 1];
      assert p[0] == d[0];
      CanonicalDigitsUnique(p);
      var v := DigitsValue(p);
      assert NatToString(0) == "0" && p[0] != '0';
      assert v != 0;
      var n := v * 10 + last;
      assert n / 10 == v && n % 10 == last;
      assert d == p + [d[|d| - 1]];
    }
  }

  /** Reading a possibly signed decimal back. */
  function DecimalValue(s: string): int {
    if |s| > 0 && s[0] == '-' then -DigitsValue(s[1..]) else DigitsValue(s)
  }

  /** `str()` is the only way to write an integer as Python does: any
      text of that shape is `str()` of the number it reads as. */
  lemma DecimalTextUnique(s: string)
    requires DecimalText(s)
    ensures s == IntToString(DecimalValue(s))
  {
    if CanonicalDigits(s) {
      CanonicalDigitsUnique(s);
    } else {
      var d := s[1..];
      CanonicalDigitsUnique(d);
      assert NatToString(0) == "0";
      assert DigitsValue(d) != 0;
      assert s == "-" + d;
    }
  }

  /** `str(n)` of an integer reads back as `n`. */
  lemma IntToStringValue(n: int)
    ensures DecimalValue(IntToString(n)) == n
  {
    if n < 0 {
      NatToStringValue(-n);
      assert IntToString(n)[1..] == NatToString(-n);
    } else {
      NatToStringValue(n);
    }
  }

  /** Whether a number field is present and non-zero (truthy). */
  predicate Truthy(n: Option<int>) {
    n.Some? && n.value != 0
  }

  /** Whether a string field is present and non-empty (truthy). */
  predicate Given(t: Option<string>) {
    t.Some? && t.value != ""
  }

  /** `pull["base"]["ref"]`, `None` when either level is missing. */
  function BaseRef(p: PullRequest): Option<string> {
    if p.base.Some? then p.base.value.ref else None
  }

  /** `pull["head"]["ref"]`, `None` when either level is missing. */
  function HeadRef(p: PullRequest): Option<string> {
    if p.head.Some? then p.head.value.ref else None
  }

  /** `pull["base"]["repo"]["full_name"]`, `None` when any level is missing. */
  function FullName(p: PullRequest): Option<string> {
    if p.base.Some? && p.base.value.repo.Some? then p.base.value.repo.value.fullName else None
  }

  /** `str(pull.get("number") or event.get("number") or "unknown")`: a
      zero number is falsy and falls through like a missing one. */
  function NumberText(pullNumber: Option<int>, eventNumber: Option<int>): (s: string)
    ensures s != ""
    ensures Truthy(pullNumber) ==> DecimalText(s) && DecimalValue(s) == pullNumber.value
    ensures !Truthy(pullNumber) && Truthy(eventNumber) ==> DecimalText(s) && DecimalValue(s) == eventNumber.value
    ensures !Truthy(pullNumber) && !Truthy(eventNumber) ==> s == "unknown"
  {
    if Truthy(pullNumber) then
      IntToStringValue(pullNumber.value);
      IntToString(pullNumber.value)
    else if Truthy(eventNumber) then
      IntToStringValue(eventNumber.value);
      IntToString(eventNumber.value)
    else "unknown"
  }

  /** `_load_pr_info` after the event file is decoded, with the
      `GITHUB_REPOSITORY` environment variable as a parameter.  It fails
      exactly when `pull_request` is missing, `null` or `{}`; otherwise
      every field is filled in and none is empty. */
  function LoadPrInfo(event: Event, repositoryEnv: Option<string>): (r: Result<PrInfo, string>)
    ensures r.Err? <==> event.pullRequest.None? || IsEmptyObject(event.pullRequest.value)
    ensures r.Err? ==> r.error == MissingPullRequest
    ensures r.Ok? ==> (r.value.number != "" && r.value.title != "" && r.value.body != ""
      && r.value.repoName != "" && r.value.baseBranch != "" && r.value.headBranch != "")
    ensures r.Ok? ==> var pull := event.pullRequest.value;
      && (Truthy(pull.number) ==> DecimalText(r.value.number) && DecimalValue(r.value.number) == pull.number.value)
      && (!Truthy(pull.number) && Truthy(event.number) ==>
            DecimalText(r.value.number) && DecimalValue(r.value.number) == event.number.value)
      && (!Truthy(pull.number) && !Truthy(event.number) ==> r.value.number == "unknown")
    ensures r.Ok? ==> var pull := event.pullRequest.value;
      r.value.title == (if Given(pull.title) then pull.title.value else "N/A")
    ensures r.Ok? ==> var pull := event.pullRequest.value;
      r.value.body == (if Given(pull.body) then pull.body.value else "No description provided")
    ensures r.Ok? ==> var pull := event.pullRequest.value;
      r.value.repoName == (if Given(FullName(pull)) then FullName(pull).value
        else if Given(repositoryEnv) then repositoryEnv.value else UnknownRepo)
    ensures r.Ok? ==> var pull := event.pullRequest.value;
      r.value.baseBranch == (if Given(BaseRef(pull)) then BaseRef(pull).value else "main")
    ensures r.Ok? ==> var pull := event.pullRequest.value;
      r.value.headBranch == (if Given(HeadRef(pull)) then HeadRef(pull).value else "unknown")
  {
    match event.pullRequest
    case None => Err(MissingPullRequest)
    case Some(pull) =>
      if IsEmptyObject(pull) then Err(MissingPullRequest)
      else
        var base := pull.base.GetOr(Branch(None, None));
        var head := pull.head.GetOr(Branch(None, None));
        var repo := base.repo.GetOr(Repo(None));
        Ok(PrInfo(
          NumberText(pull.number, event.number),
          OrElse(pull.title.GetOr(""), "N/A"),
          OrElse(pull.body.GetOr(""), "No description provided"),
          OrElse(OrElse(repo.fullName.GetOr(""), repositoryEnv.GetOr("")), "unknown/unknown"),
          OrElse(base.ref.GetOr(""), "main"),
          OrElse(head.ref.GetOr(""), "unknown")))
  }

  /** A pull request that carries every field, non-empty, is passed
      through verbatim, its number written in decimal. */
  lemma CompletePullRequest(n: int, title: string, body: string, fullName: string, baseRef: string,
                            headRef: string, eventNumber: Option<int>, env: Option<string>)
    requires n != 0 && title != "" && body != "" && fullName != "" && baseRef != "" && headRef != ""
    ensures var pull := PullRequest(Some(n), Some(title), Some(body),
        Some(Branch(Some(baseRef), Some(Repo(Some(fullName))))), Some(Branch(Some(headRef), None)), 0);
      var r := LoadPrInfo(Event(Some(pull), eventNumber), env);
      r.Ok? && DecimalValue(r.value.number) == n && r.value.title == title && r.value.body == body
      && r.value.repoName == fullName && r.value.baseBranch == baseRef && r.value.headBranch == headRef
  {
    IntToStringValue(n);
  }

  /** A pull request holding none of the fields read (only other keys, or
      `null`s) gets every default; the repository name comes from the
      environment when it is set and non-empty. */
  lemma BarePullRequest(otherKeys: nat, env: Option<string>)
    requires otherKeys > 0
    ensures var r := LoadPrInfo(Event(Some(PullRequest(None, None, None, None, None, otherKeys)), None), env);
      r == Ok(PrInfo("unknown", "N/A", "No description provided",
        if env.Some? && env.value != "" then env.value else "unknown/unknown", "main", "unknown"))
  {
  }

  /** Falsy values fall back like missing ones: a zero pull-request number
      yields the event's number, and empty strings yield the defaults. */
  lemma FalsyFieldsFallBack(eventNumber: int, otherKeys: nat)
    requires eventNumber != 0
    ensures var pull := PullRequest(Some(0), Some(""), Some(""), Some(Branch(Some(""), Some(Repo(Some(""))))),
        Some(Branch(Some(""), None)), otherKeys);
      LoadPrInfo(Event(Some(pull), Some(eventNumber)), Some("")) ==
        Ok(PrInfo(IntToString(eventNumber), "N/A", "No description provided", "unknown/unknown", "main", "unknown"))
  {
  }
}
