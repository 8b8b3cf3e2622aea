/** The release checker: the request it sends for the latest release, the
    tag and version decisions, the choice of platform binary and checksum
    manifest among the release's assets, and the UpdateInfo it assembles.
    The network and JSON decoding are inputs: `fetch` answers a request and
    `decode` reads a release record out of a response body. */
module Checker {
  import opened Wrappers
  import opened GoStrings
  import opened SemVer

  const DefaultAPIBaseURL: string := "https://api-cli.coreofficialhq.com"

  datatype CheckerConfig = CheckerConfig(
    apiBaseURL: string,
    gitHubOwner: string,
    gitHubRepo: string,
    currentVersion: string,
    gitHubToken: string)

  datatype GitHubAsset = GitHubAsset(name: string, downloadURL: string)

  datatype GitHubRelease = GitHubRelease(tagName: string, body: string, assets: seq<GitHubAsset>)

  datatype UpdateInfo = UpdateInfo(
    currentVersion: string,
    latestVersion: string,
    updateAvailable: bool,
    compatible: bool,
    downloadURL: string,
    checksumURL: string,
    releaseNotes: string)

  /** The pair (updateAvailable, compatible) that compareVersions returns. */
  datatype Verdict = Verdict(updateAvailable: bool, compatible: bool)

  datatype Checker = Checker(config: CheckerConfig)

  datatype Header = Header(name: string, value: string)

  datatype Request = Request(verb: string, url: string, headers: seq<Header>)

  /** What the HTTP client reports: a transport failure, or a status and body. */
  datatype HttpResult = TransportError | HttpResponse(status: int, body: string)

  datatype CheckError =
    | NetworkError
    | HTTPStatusError(status: int, body: string)
    | ParseError

  /** NewChecker: a blank or white-space base URL is replaced by the default;
      any other configuration is kept as given. */
  function NewChecker(config: CheckerConfig): (c: Checker)
    ensures TrimSpace(c.config.apiBaseURL) != []
    ensures TrimSpace(config.apiBaseURL) != [] ==> c.config == config
    ensures TrimSpace(config.apiBaseURL) == [] ==>
      c.config == config.(apiBaseURL := DefaultAPIBaseURL)
  {
    if TrimSpace(config.apiBaseURL) == [] then
      TrimSpaceEmpty(DefaultAPIBaseURL);
      assert !IsSpace(DefaultAPIBaseURL[0]);
      Checker(config.(apiBaseURL := DefaultAPIBaseURL))
    else
      Checker(config)
  }

  /** The latest-release endpoint under the configured base URL, whose
      trailing slashes are dropped so that exactly one slash precedes "repos". */
  function ReleaseURL(config: CheckerConfig): (url: string)
    ensures HasPrefix(url, TrimRight(config.apiBaseURL, '/') + "/repos/")
    ensures HasSuffix(url, "/releases/latest")
    ensures url == TrimRight(config.apiBaseURL, '/') + "/repos/" + config.gitHubOwner + "/"
                   + config.gitHubRepo + "/releases/latest"
  {
    var base := TrimRight(config.apiBaseURL, '/');
    var url := base + "/repos/" + config.gitHubOwner + "/" + config.gitHubRepo + "/releases/latest";
    assert url[..|base + "/repos/"|] == base + "/repos/";
    url
  }

  /** Appending slashes to the base URL does not change the request URL. */
  lemma {:induction false} ReleaseURLIgnoresTrailingSlashes(config: CheckerConfig, slashes: nat)
    ensures ReleaseURL(config.(apiBaseURL := config.apiBaseURL + Slashes(slashes))) == ReleaseURL(config)
  {
    TrimRightSlashes(config.apiBaseURL, slashes);
  }

  function Slashes(n: nat): (s: string)
    ensures |s| == n && forall i | 0 <= i < n :: s[i] == '/'
  {
    if n == 0 then "" else Slashes(n - 1) + "/"
  }

  lemma {:induction false} TrimRightSlashes(s: string, n: nat)
    ensures TrimRight(s + Slashes(n), '/') == TrimRight(s, '/')
  {
    if n > 0 {
      assert (s + Slashes(n))[..|s + Slashes(n)| - 1] == s + Slashes(n - 1);
      TrimRightSlashes(s, n - 1);
    } else {
      assert s + Slashes(0) == s;
    }
  }

  /** The bearer credential and the GitHub media type are sent only when the
      trimmed token is not empty, and the credential is the trimmed token. */
  function AuthHeaders(config: CheckerConfig): (hs: seq<Header>)
    ensures hs == [] <==> TrimSpace(config.gitHubToken) == []
    ensures hs != [] ==> hs == [Header("Authorization", "Bearer " + TrimSpace(config.gitHubToken)),
                                Header("Accept", "application/vnd.github+json")]
  {
    var token := TrimSpace(config.gitHubToken);
    if token != [] then
      [Header("Authorization", "Bearer " + token), Header("Accept", "application/vnd.github+json")]
    else []
  }

  /** The single read-only request getLatestRelease issues. */
  function LatestReleaseRequest(c: Checker): (req: Request)
    ensures req.verb == "GET" && req.url == ReleaseURL(c.config)
    ensures (exists h | h in req.headers :: h.name == "Authorization") <==> TrimSpace(c.config.gitHubToken) != []
  {
    var hs := AuthHeaders(c.config);
    assert hs != [] ==> hs[0] in hs;
    Request("GET", ReleaseURL(c.config), hs)
  }

  /** getLatestRelease: a transport failure, a status other than 200, or a
      body that does not decode is an error; otherwise the decoded release. */
  function GetLatestRelease(c: Checker, fetch: Request -> HttpResult, decode: string -> Option<GitHubRelease>)
    : (r: Result<GitHubRelease, CheckError>)
    ensures fetch(LatestReleaseRequest(c)).TransportError? ==> r == Err(NetworkError)
    ensures fetch(LatestReleaseRequest(c)).HttpResponse? && fetch(LatestReleaseRequest(c)).status != 200 ==>
      r == Err(HTTPStatusError(fetch(LatestReleaseRequest(c)).status, fetch(LatestReleaseRequest(c)).body))
    ensures (fetch(LatestReleaseRequest(c)).HttpResponse? && fetch(LatestReleaseRequest(c)).status == 200
             && decode(fetch(LatestReleaseRequest(c)).body).None?) ==> r == Err(ParseError)
    ensures r.Ok? <==> fetch(LatestReleaseRequest(c)).HttpResponse? && fetch(LatestReleaseRequest(c)).status == 200
                       && decode(fetch(LatestReleaseRequest(c)).body).Some?
    ensures r.Ok? ==> Some(r.value) == decode(fetch(LatestReleaseRequest(c)).body)
  {
    match fetch(LatestReleaseRequest(c))
    case TransportError => Err(NetworkError)
    case HttpResponse(status, body) =>
      if status != 200 then Err(HTTPStatusError(status, body))
      else
        match decode(body)
        case None => Err(ParseError)
        case Some(release) => Ok(release)
  }

  /** parseVersion: drops one leading 'v' and nothing else. */
  function ParseVersion(tag: string): (r: string)
    ensures HasPrefix(tag, "v") ==> "v" + r == tag
    ensures !HasPrefix(tag, "v") ==> r == tag
  {
    if HasPrefix(tag, "v") then tag[1..] else tag
  }

  /** Exactly one 'v' is removed, whatever follows it ("vv1" gives "v1"). */
  lemma ParseVersionStripsOne(s: string)
    ensures ParseVersion("v" + s) == s
  {
    assert ("v" + s)[..1] == "v";
  }

  /** compareVersions: an unparseable current build is always out of date;
      otherwise an update needs a parseable latest version of strictly higher
      precedence, and the pair is compatible whenever the latest parses. */
  function CompareVersions(parse: Parser, current: string, latest: string): (r: Verdict)
    ensures r.updateAvailable <==>
      !Parseable(parse, current) || (Parseable(parse, latest) && Less(parse(current).value, parse(latest).value))
    ensures r.compatible <==> !Parseable(parse, current) || Parseable(parse, latest)
  {
    match parse(current)
    case None => Verdict(true, true)
    case Some(cur) =>
      match parse(latest)
      case None => Verdict(false, false)
      case Some(lat) => Verdict(Less(cur, lat), true)
  }

  /** Equal versions never offer an update. */
  lemma CompareSameVersion(parse: Parser, v: string)
    requires Parseable(parse, v)
    ensures CompareVersions(parse, v, v) == Verdict(false, true)
  {
    LessIrreflexive(parse(v).value);
  }

  /** Between two parseable versions at most one direction offers an update,
      and exactly one does unless they have the same precedence. */
  lemma CompareConsistentWithOrder(parse: Parser, a: string, b: string)
    requires Parseable(parse, a) && Parseable(parse, b)
    ensures !(CompareVersions(parse, a, b).updateAvailable && CompareVersions(parse, b, a).updateAvailable)
    ensures CompareVersions(parse, a, b).updateAvailable || CompareVersions(parse, b, a).updateAvailable
            || SamePrecedence(parse(a).value, parse(b).value)
  {
    LessAsymmetric(parse(a).value, parse(b).value);
    LessTrichotomy(parse(a).value, parse(b).value);
  }

  /** Offering an update is transitive across parseable versions. */
  lemma CompareTransitive(parse: Parser, a: string, b: string, c: string)
    requires Parseable(parse, a) && Parseable(parse, b) && Parseable(parse, c)
    requires CompareVersions(parse, a, b).updateAvailable && CompareVersions(parse, b, c).updateAvailable
    ensures CompareVersions(parse, a, c).updateAvailable
  {
    LessTransitive(parse(a).value, parse(b).value, parse(c).value);
  }

  /** With a parser that reads these strings as Semantic Versioning 2.0.0
      versions and rejects "dev", the version table of the checker's tests. */
  lemma CompareVersionsTable(parse: Parser)
    requires parse("1.0.0") == Some(SemVer(1, 0, 0, [], []))
    requires parse("1.1.0") == Some(SemVer(1, 1, 0, [], []))
    requires parse("2.0.0") == Some(SemVer(2, 0, 0, [], []))
    requires parse("1.9.9") == Some(SemVer(1, 9, 9, [], []))
    requires parse("1.0.0-alpha") == Some(SemVer(1, 0, 0, [Alnum("alpha")], []))
    requires parse("1.0.0-beta") == Some(SemVer(1, 0, 0, [Alnum("beta")], []))
    requires parse("dev") == None
    ensures CompareVersions(parse, "1.0.0", "1.1.0") == Verdict(true, true)
    ensures CompareVersions(parse, "1.1.0", "1.0.0") == Verdict(false, true)
    ensures CompareVersions(parse, "1.0.0", "1.0.0") == Verdict(false, true)
    ensures CompareVersions(parse, "dev", "1.0.0") == Verdict(true, true)
    ensures CompareVersions(parse, "1.0.0-beta", "1.0.0") == Verdict(true, true)
    ensures CompareVersions(parse, "2.0.0", "1.9.9") == Verdict(false, true)
    ensures CompareVersions(parse, "1.0.0-alpha", "1.0.0-beta") == Verdict(true, true)
  {
    assert StrLess("alpha", "beta");
  }

  /** The two asset searches findAssetURLs runs over one pass of the list. */
  datatype Selector = Platform(os: string, arch: string) | ChecksumManifest

  /** The four name fragments for the platform binary, in the order tried. */
  function Patterns(os: string, arch: string): (ps: seq<string>)
    ensures |ps| == 4
  {
    var stem := "core-" + os + "-" + arch;
    [stem, stem + ".exe", stem + ".tar.gz", stem + ".zip"]
  }

  predicate Selects(sel: Selector, name: string)
  {
    match sel
    case Platform(os, arch) => exists k | 0 <= k < 4 :: Contains(name, Patterns(os, arch)[k])
    case ChecksumManifest => Contains(name, "checksums")
  }

  /** The first pattern is a prefix of the other three, so a name matches the
      platform exactly when it contains `core-{os}-{arch}`. */
  lemma PlatformMatchIsStem(os: string, arch: string, name: string)
    ensures Selects(Platform(os, arch), name) <==> Contains(name, "core-" + os + "-" + arch)
  {
    var ps, stem := Patterns(os, arch), "core-" + os + "-" + arch;
    if Selects(Platform(os, arch), name) {
      var k :| 0 <= k < 4 && Contains(name, ps[k]);
      if k == 1 { ContainsPrefixOf(name, stem, ".exe"); }
      if k == 2 { ContainsPrefixOf(name, stem, ".tar.gz"); }
      if k == 3 { ContainsPrefixOf(name, stem, ".zip"); }
    }
    if Contains(name, stem) {
      assert Contains(name, ps[0]);
    }
  }

  /** Index of the last asset the selector picks, if any. */
  function LastSelected(assets: seq<GitHubAsset>, sel: Selector): (r: Option<nat>)
    ensures r.None? <==> forall i | 0 <= i < |assets| :: !Selects(sel, assets[i].name)
    ensures r.Some? ==> r.value < |assets| && Selects(sel, assets[r.value].name)
    ensures r.Some? ==> forall j | r.value < j < |assets| :: !Selects(sel, assets[j].name)
  {
    if |assets| == 0 then None
    else if Selects(sel, assets[|assets| - 1].name) then Some(|assets| - 1)
    else LastSelected(assets[..|assets| - 1], sel)
  }

  /** The URL of the last selected asset, or "" when none is selected. */
  function SelectedURL(assets: seq<GitHubAsset>, sel: Selector): (url: string)
  {
    match LastSelected(assets, sel)
    case None => ""
    case Some(i) => assets[i].downloadURL
  }

  /** The chosen URL is "" or belongs to a selected asset after which no
      asset is selected: the last match wins. */
  lemma SelectedURLIsLastMatch(assets: seq<GitHubAsset>, sel: Selector)
    ensures SelectedURL(assets, sel) == "" ||
      exists i | 0 <= i < |assets| :: assets[i].downloadURL == SelectedURL(assets, sel) && Selects(sel, assets[i].name)
        && forall j | i < j < |assets| :: !Selects(sel, assets[j].name)
    ensures (forall i | 0 <= i < |assets| :: !Selects(sel, assets[i].name)) ==> SelectedURL(assets, sel) == ""
  {
    var r := LastSelected(assets, sel);
    if r.Some? {
      var i := r.value;
      assert assets[i].downloadURL == SelectedURL(assets, sel);
    }
  }

  /** The two searches are independent: one asset named for the platform and
      containing "checksums" supplies both URLs when it is listed last. */
  lemma OneAssetMaySetBoth(assets: seq<GitHubAsset>, os: string, arch: string, url: string)
    requires |assets| > 0
    requires assets[|assets| - 1] == GitHubAsset("core-" + os + "-" + arch + "-checksums.txt", url)
    ensures SelectedURL(assets, Platform(os, arch)) == url
    ensures SelectedURL(assets, ChecksumManifest) == url
  {
    var stem := "core-" + os + "-" + arch;
    var suffix := "-checksums.txt";
    var name := stem + suffix;
    assert name[..|stem|] == stem;
    assert name[|stem|..] == suffix;
    assert suffix[1..10] == "checksums";
    assert name[|stem| + 1..|stem| + 10] == name[|stem|..][1..10];
    assert OccursAt(name, Patterns(os, arch)[0], 0);
    assert OccursAt(name, "checksums", |stem| + 1);
  }

  /** findAssetURLs over the release's assets for the given platform: one
      pass that remembers the last platform match (trying the patterns in
      order and stopping at the first that matches) and the last checksum file. */
  method FindAssetURLs(release: GitHubRelease, os: string, arch: string)
    returns (downloadURL: string, checksumURL: string)
    ensures downloadURL == SelectedURL(release.assets, Platform(os, arch))
    ensures checksumURL == SelectedURL(release.assets, ChecksumManifest)
  {
    var assets := release.assets;
    var patterns := Patterns(os, arch);
    downloadURL, checksumURL := "", "";
    var i := 0;
    while i < |assets|
      invariant 0 <= i <= |assets|
      invariant downloadURL == SelectedURL(assets[..i], Platform(os, arch))
      invariant checksumURL == SelectedURL(assets[..i], ChecksumManifest)
    {
      var asset := assets[i];
      assert assets[..i + 1][..i] == assets[..i];
      assert assets[..i + 1][i] == asset;
      ghost var before := downloadURL;
      var j := 0;
      while j < |patterns|
        invariant 0 <= j <= |patterns|
        invariant downloadURL == before
        invariant forall k | 0 <= k < j :: !Contains(asset.name, patterns[k])
      {
        if Contains(asset.name, patterns[j]) {
          downloadURL := asset.downloadURL;
          break;
        }
        j := j + 1;
      }
      assert downloadURL == if Selects(Platform(os, arch), asset.name) then asset.downloadURL else before;
      if Contains(asset.name, "checksums") {
        checksumURL := asset.downloadURL;
      }
      i := i + 1;
    }
    assert assets[..i] == assets;
  }

  /** Check: a failed fetch yields the error and no information; otherwise
      every field of UpdateInfo is filled from the configuration and the
      release, none left over from anything else. */
  method Check(c: Checker, fetch: Request -> HttpResult, decode: string -> Option<GitHubRelease>,
               parse: Parser, os: string, arch: string)
    returns (r: Result<UpdateInfo, CheckError>)
    ensures GetLatestRelease(c, fetch, decode).Err? ==> r == Err(GetLatestRelease(c, fetch, decode).error)
    ensures GetLatestRelease(c, fetch, decode).Ok? ==> r.Ok?
    ensures r.Ok? ==>
      var release := GetLatestRelease(c, fetch, decode).value;
      var latest := ParseVersion(release.tagName);
      && r.value.currentVersion == c.config.currentVersion
      && r.value.latestVersion == latest
      && r.value.updateAvailable == CompareVersions(parse, c.config.currentVersion, latest).updateAvailable
      && r.value.compatible == CompareVersions(parse, c.config.currentVersion, latest).compatible
      && r.value.downloadURL == SelectedURL(release.assets, Platform(os, arch))
      && r.value.checksumURL == SelectedURL(release.assets, ChecksumManifest)
      && r.value.releaseNotes == release.body
  {
    var fetched := GetLatestRelease(c, fetch, decode);
    if fetched.Err? {
      return Err(fetched.error);
    }
    var release := fetched.value;
    var latestVersion := ParseVersion(release.tagName);
    var currentVersion := c.config.currentVersion;
    var verdict := CompareVersions(parse, currentVersion, latestVersion);
    var downloadURL, checksumURL := FindAssetURLs(release, os, arch);
    r := Ok(UpdateInfo(currentVersion, latestVersion, verdict.updateAvailable, verdict.compatible,
                       downloadURL, checksumURL, release.body));
  }

  /** The end-to-end scenario: release "v1.2.0" against a running 1.0.0 build
      reports latest version "1.2.0" with an update available. */
  lemma CheckScenarioCompare(parse: Parser)
    requires parse("1.0.0") == Some(SemVer(1, 0, 0, [], []))
    requires parse("1.2.0") == Some(SemVer(1, 2, 0, [], []))
    ensures ParseVersion("v1.2.0") == "1.2.0"
    ensures CompareVersions(parse, "1.0.0", ParseVersion("v1.2.0")) == Verdict(true, true)
  {
    assert "v1.2.0" == "v" + "1.2.0";
    ParseVersionStripsOne("1.2.0");
  }
}
