/**
 * The repository-URL handling of app.py: `parse_github_url` (lines 18-21),
 * `validate_owner_repo` (lines 23-24) and the decision the script takes on a
 * submitted URL (lines 46-52).
 *
 * The parser applies `re.match` with the pattern
 *     https://github\.com/([^/]+)/([^/]+)
 * which is anchored at the start of the string but not at its end. It is
 * written here directly over strings; what it must agree with is stated by the
 * ghost predicates `MatchesWith` (some way of matching the pattern) and
 * `GreedyMatchWith` (the way a leftmost, greedy regular-expression engine picks).
 */
module GithubUrl {
  import opened Wrappers

  /** The literal part of the pattern; the escaped dot matches only '.'. */
  const Prefix: string := "https://github.com/"

  predicate SlashFree(s: string) {
    forall i :: 0 <= i < |s| ==> s[i] != '/'
  }

  /** Length of the longest leading run of `s` without '/': what a greedy `[^/]`-loop consumes. */
  function SlashFreeRun(s: string): (n: nat)
    ensures n <= |s|
    ensures SlashFree(s[..n])
    ensures n < |s| ==> s[n] == '/'
  {
    if s == [] || s[0] == '/' then 0
    else
      var n := 1 + SlashFreeRun(s[1..]);
      assert s[..n] == [s[0]] + s[1..][..n - 1];
      n
  }

  // ---------------------------------------------------------------------------
  // What the regular expression means
  // ---------------------------------------------------------------------------

  /** The pattern matches a prefix of `url` with group 1 = `owner` and group 2 = `repo`. */
  ghost predicate MatchesWith(url: string, owner: string, repo: string) {
    && owner != [] && SlashFree(owner)
    && repo != [] && SlashFree(repo)
    && Prefix + owner + "/" + repo <= url
  }

  /** `re.match(pattern, url)` finds a match. */
  ghost predicate Matches(url: string) {
    exists owner, repo :: MatchesWith(url, owner, repo)
  }

  /** The match a greedy engine returns: the second group cannot be extended. */
  ghost predicate GreedyMatchWith(url: string, owner: string, repo: string) {
    && MatchesWith(url, owner, repo)
    && var k := |Prefix| + |owner| + 1 + |repo|;
       k < |url| ==> url[k] == '/'
  }

  // ---------------------------------------------------------------------------
  // parse_github_url
  // ---------------------------------------------------------------------------

  /**
   * `parse_github_url(url)`: `Some((owner, repo))` for `match.groups()`,
   * `None` for the pair `(None, None)`.
   */
  function ParseGithubUrl(url: string): (r: Option<(string, string)>)
    ensures r.Some? ==> r.value.0 != [] && SlashFree(r.value.0)
    ensures r.Some? ==> r.value.1 != [] && SlashFree(r.value.1)
  {
    if !(Prefix <= url) then None
    else
      var rest := url[|Prefix|..];
      var n := SlashFreeRun(rest);
      if n == 0 || n == |rest| then None
      else
        var tail := rest[n + 1..];
        var m := SlashFreeRun(tail);
        if m == 0 then None else Some((rest[..n], tail[..m]))
  }

  /** A slash-free run followed by nothing or by '/' is read back exactly. */
  lemma {:induction false} SlashFreeRunOf(s: string, t: string)
    requires SlashFree(s)
    requires t == [] || t[0] == '/'
    ensures SlashFreeRun(s + t) == |s|
  {
    if s != [] {
      assert (s + t)[1..] == s[1..] + t;
      SlashFreeRunOf(s[1..], t);
    }
  }

  /** Whatever the parser returns is the greedy match of the pattern. */
  lemma ParseSound(url: string)
    ensures ParseGithubUrl(url).Some? ==>
      GreedyMatchWith(url, ParseGithubUrl(url).value.0, ParseGithubUrl(url).value.1)
  {
    if ParseGithubUrl(url).Some? {
      var rest := url[|Prefix|..];
      var n := SlashFreeRun(rest);
      var tail := rest[n + 1..];
      var m := SlashFreeRun(tail);
      // The URL is the prefix, the owner, '/', the repo and what follows the repo.
      assert url == Prefix + rest[..n] + "/" + tail[..m] + tail[m..];
    }
  }

  /**
   * Round trip: a URL built from a non-empty slash-free owner and repository
   * name, followed by nothing or by further path text starting with '/', parses
   * back to that owner and name; the trailing text (such as "/tree/main") is
   * ignored.
   */
  lemma ParseBuilt(owner: string, repo: string, suffix: string)
    requires owner != [] && SlashFree(owner)
    requires repo != [] && SlashFree(repo)
    requires suffix == [] || suffix[0] == '/'
    ensures ParseGithubUrl(Prefix + owner + "/" + repo + suffix) == Some((owner, repo))
  {
    var url := Prefix + owner + "/" + repo + suffix;
    var rest := url[|Prefix|..];
    assert Prefix <= url;
    assert rest == owner + ("/" + repo + suffix);
    SlashFreeRunOf(owner, "/" + repo + suffix);
    var tail := rest[|owner| + 1..];
    assert tail == repo + suffix;
    SlashFreeRunOf(repo, suffix);
    assert rest[..|owner|] == owner;
    assert tail[..|repo|] == repo;
  }

  /** A greedy match is exactly what the parser returns. */
  lemma ParseGreedy(url: string, owner: string, repo: string)
    requires GreedyMatchWith(url, owner, repo)
    ensures ParseGithubUrl(url) == Some((owner, repo))
  {
    var k := |Prefix| + |owner| + 1 + |repo|;
    assert url == Prefix + owner + "/" + repo + url[k..] by {
      assert url[..k] == Prefix + owner + "/" + repo;
    }
    ParseBuilt(owner, repo, url[k..]);
  }

  /**
   * Whenever the pattern matches in some way, the parser succeeds with the same
   * owner and with a repository name that extends the one of that match.
   */
  lemma ParseComplete(url: string, owner: string, repo: string)
    requires MatchesWith(url, owner, repo)
    ensures ParseGithubUrl(url).Some?
    ensures ParseGithubUrl(url).value.0 == owner
    ensures repo <= ParseGithubUrl(url).value.1
  {
    var start := |Prefix| + |owner| + 1;
    var after := url[start..];
    var m := SlashFreeRun(after);
    assert after[..|repo|] == repo by {
      assert url[..start + |repo|] == Prefix + owner + "/" + repo;
    }
    // The slash-free run after the owner's '/' reaches at least the end of `repo`.
    assert m >= |repo|;
    var full := after[..m];
    assert url[..start + m] == Prefix + owner + "/" + full;
    assert repo <= full by {
      assert full[..|repo|] == after[..|repo|];
    }
    assert GreedyMatchWith(url, owner, full);
    ParseGreedy(url, owner, full);
  }

  /** The parser succeeds exactly when `re.match` finds the pattern. */
  lemma ParseSucceedsIff(url: string)
    ensures ParseGithubUrl(url).Some? <==> Matches(url)
  {
    if ParseGithubUrl(url).Some? {
      ParseSound(url);
      assert MatchesWith(url, ParseGithubUrl(url).value.0, ParseGithubUrl(url).value.1);
    }
    if Matches(url) {
      var owner, repo :| MatchesWith(url, owner, repo);
      ParseComplete(url, owner, repo);
    }
  }

  /** On success, the character right after the repository name, if any, is '/'. */
  lemma ParseStopsAtSlash(url: string)
    requires ParseGithubUrl(url).Some?
    ensures var k := |Prefix| + |ParseGithubUrl(url).value.0| + 1 + |ParseGithubUrl(url).value.1|;
      k <= |url| && (k < |url| ==> url[k] == '/')
  {
    ParseSound(url);
  }

  // ---------------------------------------------------------------------------
  // validate_owner_repo, and the script's use of it
  // ---------------------------------------------------------------------------

  /** Python truthiness of a value that is `None` or a string. */
  predicate Truthy(s: Option<string>) {
    s.Some? && s.value != []
  }

  /** `validate_owner_repo(owner, repo)`: `bool(owner) and bool(repo)`. */
  function ValidateOwnerRepo(owner: Option<string>, repo: Option<string>): (ok: bool)
    ensures ok <==> owner != None && owner != Some("") && repo != None && repo != Some("")
  {
    Truthy(owner) && Truthy(repo)
  }

  /** The pair `owner, repo` the script unpacks from `parse_github_url` (line 48). */
  function Unpack(r: Option<(string, string)>): (pair: (Option<string>, Option<string>))
    ensures r.None? ==> pair == (None, None)
    ensures r.Some? ==> pair.0 == Some(r.value.0) && pair.1 == Some(r.value.1)
  {
    match r
    case None => (None, None)
    case Some((owner, repo)) => (Some(owner), Some(repo))
  }

  /** Validation of a parsed URL passes exactly when the pattern matched. */
  lemma ValidateParsedIff(url: string)
    ensures ValidateOwnerRepo(Unpack(ParseGithubUrl(url)).0, Unpack(ParseGithubUrl(url)).1)
            <==> Matches(url)
  {
    ParseSucceedsIff(url);
  }

  /** What the script does with the URL text box (lines 46-52). */
  datatype UrlOutcome =
    | NoUrl                                       // empty input: nothing happens
    | InvalidUrl                                  // "Invalid GitHub URL. Please try again."
    | LoadRepository(owner: string, repo: string) // the loader is built for this repository

  function SubmitUrl(url: string): (out: UrlOutcome)
    ensures out == NoUrl <==> url == []
    ensures out == InvalidUrl <==> url != [] && !Matches(url)
    ensures out.LoadRepository? ==> GreedyMatchWith(url, out.owner, out.repo)
  {
    if url == [] then NoUrl
    else
      var pair := Unpack(ParseGithubUrl(url));
      ValidateParsedIff(url);
      ParseSound(url);
      if !ValidateOwnerRepo(pair.0, pair.1) then InvalidUrl
      else LoadRepository(pair.0.value, pair.1.value)
  }

  /** The end-to-end example: "https://github.com/acme/widgets" loads acme/widgets. */
  lemma SubmitExample()
    ensures SubmitUrl("https://github.com/acme/widgets") == LoadRepository("acme", "widgets")
  {
    ParseBuilt("acme", "widgets", "");
    assert Prefix + "acme" + "/" + "widgets" + "" == "https://github.com/acme/widgets";
  }
}
