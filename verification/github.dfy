/**
  The GitHub provider: `build_github_url` turns a repository (written as
  `owner/name` or as a github.com address), an optional branch, path and
  access token into the address of the raw file. When no branch is given the
  repository's default branch is asked of the GitHub API, which the model
  takes as an oracle from request address to reply.
*/
module Github {
  import opened Wrappers
  import opened Text

  const RawBase: string := "https://raw.githubusercontent.com/"
  const ApiBase: string := "https://api.github.com"
  const DefaultPath: string := "requirements.txt"
  const FallbackBranch: string := "master"

  predicate IsSlash(c: char) {
    c == '/'
  }

  /** `://github`, then any character except a newline, then `com/`, starts
      at index `i` of `s`. */
  predicate HostAt(s: string, i: nat) {
    && i + 14 <= |s|
    && s[i..i + 9] == "://github"
    && s[i + 9] != '\n'
    && s[i + 10..i + 14] == "com/"
  }

  /** The length of the text `^http(s)?://github.com/` matches at the start
      of `s` (the `.` matches any character but a newline, as in Python's
      `re` without `DOTALL`), or `None` when it does not. */
  function PrefixLength(s: string): (r: Option<nat>)
    ensures r.Some? ==> r.value <= |s| && StartsWith(s, "http")
  {
    if !StartsWith(s, "http") then None
    else if |s| > 4 && s[4] == 's' && HostAt(s, 5) then Some(19)
    else if HostAt(s, 4) then Some(18)
    else None
  }

  /** The repository as `build_github_url` cleans it: the github.com prefix
      removed once, then every leading and trailing `/` stripped. */
  function NormalizeRepo(repo: string): (r: string)
    ensures |r| <= |repo|
    ensures r == [] || (r[0] != '/' && r[|r| - 1] != '/')
  {
    var rest := match PrefixLength(repo) case None => repo case Some(n) => repo[n..];
    TrimBoth(rest, IsSlash)
  }

  /** A reply of the GitHub API to a repository request. */
  datatype ApiReply = ApiReply(status: int, defaultBranch: string)

  /** The repository's API address. */
  function RepoApiUrl(repo: string): string {
    ApiBase + "/repos/" + repo
  }

  /** `get_default_branch`: the API's answer when the request succeeds,
      `master` otherwise. */
  function DefaultBranch(repo: string, api: string -> ApiReply): (b: string)
    ensures api(RepoApiUrl(repo)).status != 200 ==> b == FallbackBranch
    ensures api(RepoApiUrl(repo)).status == 200 ==> b == api(RepoApiUrl(repo)).defaultBranch
  {
    var reply := api(RepoApiUrl(repo));
    if reply.status == 200 then reply.defaultBranch else FallbackBranch
  }

  /** `build_github_url`: the address lies in the cleaned repository's
      folder on the raw-content host, ends in the token query when there is a
      token, and otherwise ends in the requested file. */
  function BuildGithubUrl(repo: string, branch: Option<string>, path: Option<string>,
                          token: Option<string>, api: string -> ApiReply): (url: string)
    ensures StartsWith(url, RawBase + NormalizeRepo(repo) + "/")
    ensures Truthy(token) ==> EndsWith(url, "?token=" + token.value)
    ensures !Truthy(token) && Truthy(path) ==> EndsWith(url, "/" + path.value)
    ensures !Truthy(token) && !Truthy(path) ==> EndsWith(url, "/" + DefaultPath)
  {
    var name := NormalizeRepo(repo);
    var file := if Truthy(path) then path.value else DefaultPath;
    var ref := if Truthy(branch) then branch.value else DefaultBranch(name, api);
    FileAtEnd(RawBase + name + "/", ref, file);
    Assemble(RawBase + name + "/", ref + "/" + file, token)
  }

  lemma FileAtEnd(folder: string, ref: string, file: string)
    ensures EndsWith(folder + (ref + "/" + file), "/" + file)
  {
    var u := folder + (ref + "/" + file);
    assert u[|u| - |file| - 1..] == "/" + file;
  }

  /** The address: the repository's folder on the raw-content host, the
      branch and file inside it, and the token as a query when there is one. */
  function Assemble(folder: string, file: string, token: Option<string>): (url: string)
    ensures StartsWith(url, folder)
    ensures Truthy(token) ==> EndsWith(url, "?token=" + token.value)
    ensures !Truthy(token) ==> url == folder + file
  {
    var url := folder + file;
    if Truthy(token) then
      var query := "?token=" + token.value;
      assert (url + query)[..|folder|] == folder;
      assert (url + query)[|url + query| - |query|..] == query;
      url + query
    else
      assert url[..|folder|] == folder;
      url
  }

  // ---------------------------------------------------------------------
  // Properties
  // ---------------------------------------------------------------------

  /** Leaving out the branch gives the same address as naming `master`
      whenever the API does not name another default branch. */
  lemma DefaultIsMaster(repo: string, path: Option<string>, token: Option<string>,
                        api: string -> ApiReply, master: string)
    requires master == "master"
    requires var reply := api(RepoApiUrl(NormalizeRepo(repo)));
      reply.status != 200 || reply.defaultBranch == master
    ensures BuildGithubUrl(repo, None, path, token, api) == BuildGithubUrl(repo, Some(master), path, token, api)
  {
  }

  /** A given branch is used as it is: the API is never consulted. */
  lemma GivenBranchSkipsApi(repo: string, branch: Option<string>, path: Option<string>,
                            token: Option<string>, api: string -> ApiReply, other: string -> ApiReply)
    requires Truthy(branch)
    ensures BuildGithubUrl(repo, branch, path, token, api) == BuildGithubUrl(repo, branch, path, token, other)
  {
  }

  /** With a branch and a path given and no token, the address is the raw
      host, the cleaned repository, the branch and the path, joined by `/`. */
  lemma GivenBranchUrl(repo: string, branch: Option<string>, path: Option<string>,
                       token: Option<string>, api: string -> ApiReply)
    requires Truthy(branch) && Truthy(path) && !Truthy(token)
    ensures BuildGithubUrl(repo, branch, path, token, api) ==
      RawBase + NormalizeRepo(repo) + "/" + branch.value + "/" + path.value
  {
    var name := NormalizeRepo(repo);
    assert BuildGithubUrl(repo, branch, path, token, api)
        == Assemble(RawBase + name + "/", branch.value + "/" + path.value, token);
    Regroup(RawBase + name + "/", branch.value, path.value);
  }

  /** With a falsy branch, a path and no token, the address carries the
      branch `get_default_branch` reports: the API's answer on success,
      `master` otherwise. */
  lemma DefaultBranchUrl(repo: string, branch: Option<string>, path: Option<string>,
                         token: Option<string>, api: string -> ApiReply)
    requires !Truthy(branch) && Truthy(path) && !Truthy(token)
    ensures BuildGithubUrl(repo, branch, path, token, api) ==
      RawBase + NormalizeRepo(repo) + "/" + DefaultBranch(NormalizeRepo(repo), api) + "/" + path.value
  {
    Regroup(RawBase + NormalizeRepo(repo) + "/", DefaultBranch(NormalizeRepo(repo), api), path.value);
  }

  lemma Regroup(folder: string, branch: string, path: string)
    ensures folder + (branch + "/" + path) == folder + branch + "/" + path
  {
  }

  /** A missing or empty path means `requirements.txt`. */
  lemma FalsyPathIsDefault(repo: string, branch: Option<string>, path: Option<string>,
                           token: Option<string>, api: string -> ApiReply)
    requires !Truthy(path)
    ensures BuildGithubUrl(repo, branch, path, token, api) == BuildGithubUrl(repo, branch, Some(DefaultPath), token, api)
  {
  }

  /** A token is appended as a query and changes nothing before it; a missing
      or empty token adds nothing. */
  lemma TokenIsAppended(repo: string, branch: Option<string>, path: Option<string>,
                        token: Option<string>, api: string -> ApiReply)
    ensures Truthy(token) ==> (BuildGithubUrl(repo, branch, path, token, api) ==
      BuildGithubUrl(repo, branch, path, None, api) + "?token=" + token.value)
    ensures !Truthy(token) ==> (BuildGithubUrl(repo, branch, path, token, api) ==
      BuildGithubUrl(repo, branch, path, None, api))
  {
  }

  /** The github.com prefix, with either scheme and any character but a
      newline in place of the dot, is removed exactly once: whatever follows
      it is only stripped of slashes, even when it holds the prefix again. */
  lemma PrefixRemovedOnce(scheme: string, dot: char, rest: string)
    requires scheme == "http" || scheme == "https"
    requires dot != '\n'
    ensures NormalizeRepo(scheme + "://github" + [dot] + "com/" + rest) == TrimBoth(rest, IsSlash)
  {
    var s := scheme + "://github" + [dot] + "com/" + rest;
    var n := |scheme|;
    assert s[..4] == "http";
    assert s[n..n + 9] == "://github";
    assert s[n + 10..n + 14] == "com/";
    assert s[n + 14..] == rest;
    if scheme == "https" {
      assert s[4] == 's';
      assert PrefixLength(s) == Some(19);
    } else {
      assert s[4] == ':';
      assert PrefixLength(s) == Some(18);
    }
  }

  /** A newline in place of the dot is not matched: the address is kept
      whole and only stripped of slashes. */
  lemma NewlineDotKept(scheme: string, rest: string)
    requires scheme == "http" || scheme == "https"
    ensures var s := scheme + "://github\ncom/" + rest;
      NormalizeRepo(s) == TrimBoth(s, IsSlash)
  {
    var s := scheme + "://github\ncom/" + rest;
    var n := |scheme|;
    assert s[n + 9] == '\n';
    if scheme == "https" {
      assert !HostAt(s, 5);
      assert s[4..13][0] == 's';
      assert !HostAt(s, 4);
    } else {
      assert s[4] == ':';
      assert !HostAt(s, 4);
    }
    assert PrefixLength(s).None?;
  }

  /** Text that does not start with the prefix is only stripped of slashes,
      so `owner/name` and `/owner/name/` name the same repository. */
  lemma PlainRepoStripped(repo: string)
    requires PrefixLength(repo).None?
    ensures NormalizeRepo(repo) == TrimBoth(repo, IsSlash)
  {
  }

  /** A repository already in `owner/name` form is kept as it is. */
  lemma CleanRepoKept(repo: string)
    requires repo == [] || (repo[0] != '/' && repo[0] != 'h' && repo[|repo| - 1] != '/')
    ensures NormalizeRepo(repo) == repo
  {
    NotHttp(repo);
    TrimStartKeeps(repo, IsSlash);
    assert TrimEnd(repo, IsSlash) == repo;
  }

  lemma NotHttp(repo: string)
    requires repo == [] || repo[0] != 'h'
    ensures PrefixLength(repo).None?
  {
    if |repo| >= 4 {
      assert repo[..4][0] == repo[0];
    }
  }
}
