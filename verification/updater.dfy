/** The update-check state of the updater (`UpdateInfo`) and the pure part
    of `Updater::check_for_updates`: what happens to the state once the
    release information has been fetched, or once fetching has failed.
    Fetching itself (a PowerShell call and JSON decoding on Windows) is an
    input here: the release, or the error text, is a parameter. */
module Updater {
  import opened Wrappers
  import Version

  datatype UpdateInfo = UpdateInfo(
    currentVersion: string,
    latestVersion: string,
    updateAvailable: bool,
    downloadUrl: string)

  datatype GitHubAsset = GitHubAsset(name: string, browserDownloadUrl: string)

  datatype GitHubRelease = GitHubRelease(tagName: string, assets: seq<GitHubAsset>)

  /** The state after a check: the updater's stored info and what the call returns. */
  datatype CheckOutcome = CheckOutcome(state: UpdateInfo, returned: Result<UpdateInfo, string>)

  const CheckFailedPrefix: string := "Failed to check for updates: "

  /** What fetching yields on every platform other than Windows. */
  const UnsupportedPlatformError: string := "Update checking not implemented for this platform"

  /** The info an updater starts with (`UpdateInfo::default`); `crateVersion`
      is the crate version compiled into the program. */
  function DefaultUpdateInfo(crateVersion: string): (info: UpdateInfo)
    ensures info.currentVersion == crateVersion && info.latestVersion == crateVersion
    ensures !info.updateAvailable && info.downloadUrl == ""
  {
    UpdateInfo(crateVersion, crateVersion, false, "")
  }

  /** The flag agrees with the comparison of the two recorded versions. */
  predicate FlagConsistent(info: UpdateInfo) {
    info.updateAvailable == Version.IsNewerVersion(info.currentVersion, info.latestVersion)
  }

  /** `tag.trim_start_matches('v')`: the tag without its leading run of 'v'. */
  function TrimLeadingV(tag: string): (trimmed: string)
    ensures |trimmed| <= |tag| && trimmed == tag[|tag| - |trimmed|..]
    ensures forall i :: 0 <= i < |tag| - |trimmed| ==> tag[i] == 'v'
    ensures |trimmed| == 0 || trimmed[0] != 'v'
  {
    if |tag| > 0 && tag[0] == 'v' then TrimLeadingV(tag[1..]) else tag
  }

  predicate EndsWith(s: string, suffix: string) {
    |suffix| <= |s| && s[|s| - |suffix|..] == suffix
  }

  /** An asset the updater accepts as an installer package. */
  predicate IsInstaller(asset: GitHubAsset) {
    EndsWith(asset.name, ".zip") || EndsWith(asset.name, ".exe")
  }

  /** The position of the first installer asset, if any. */
  function FirstInstaller(assets: seq<GitHubAsset>): (found: Option<nat>)
    ensures found.Some? ==> found.value < |assets| && IsInstaller(assets[found.value])
    ensures found.Some? ==> forall j :: 0 <= j < found.value ==> !IsInstaller(assets[j])
    ensures found.None? ==> forall j :: 0 <= j < |assets| ==> !IsInstaller(assets[j])
  {
    if |assets| == 0 then None
    else if IsInstaller(assets[0]) then Some(0)
    else
      match FirstInstaller(assets[1..])
      case Some(k) => Some(k + 1)
      case None => None
  }

  /** The download URL after scanning the assets: the first installer's, or
      the previous value when no asset qualifies. */
  function SelectDownloadUrl(assets: seq<GitHubAsset>, previous: string): (url: string)
    ensures forall k ::
      (0 <= k < |assets| && IsInstaller(assets[k]) && forall j :: 0 <= j < k ==> !IsInstaller(assets[j]))
      ==> url == assets[k].browserDownloadUrl
    ensures (forall j :: 0 <= j < |assets| ==> !IsInstaller(assets[j])) ==> url == previous
  {
    match FirstInstaller(assets)
    case Some(k) => assets[k].browserDownloadUrl
    case None => previous
  }

  /** `check_for_updates` given the outcome of the fetch. The comparison
      is against the compiled-in `crateVersion`, not against the stored
      `currentVersion`. */
  function CheckForUpdates(info: UpdateInfo, crateVersion: string, fetched: Result<GitHubRelease, string>)
    : (out: CheckOutcome)
    ensures fetched.Failure? ==> out.state == info
    ensures fetched.Failure? ==> out.returned == Failure(CheckFailedPrefix + fetched.error)
    ensures fetched.Success? ==> out.returned == Success(out.state)
    ensures out.state.currentVersion == info.currentVersion
    ensures fetched.Success? ==>
      var latest := out.state.latestVersion;
      && latest == TrimLeadingV(fetched.value.tagName)
      && (out.state.updateAvailable <==> Version.TripleLess(Version.Key(crateVersion), Version.Key(latest)))
      && (forall k ::
            (0 <= k < |fetched.value.assets| && IsInstaller(fetched.value.assets[k])
             && forall j :: 0 <= j < k ==> !IsInstaller(fetched.value.assets[j]))
            ==> out.state.downloadUrl == fetched.value.assets[k].browserDownloadUrl)
      && ((forall j :: 0 <= j < |fetched.value.assets| ==> !IsInstaller(fetched.value.assets[j]))
          ==> out.state.downloadUrl == info.downloadUrl)
  {
    match fetched
    case Failure(e) => CheckOutcome(info, Failure(CheckFailedPrefix + e))
    case Success(release) =>
      var latest := TrimLeadingV(release.tagName);
      var updated := info.(
        latestVersion := latest,
        updateAvailable := Version.IsNewerVersion(crateVersion, latest),
        downloadUrl := SelectDownloadUrl(release.assets, info.downloadUrl));
      CheckOutcome(updated, Success(updated))
  }

  // ---------------------------------------------------------------------
  // Properties
  // ---------------------------------------------------------------------

  /** Stripping the leading 'v' is idempotent and keeps everything after the run. */
  lemma TrimLeadingVIdempotent(tag: string)
    ensures TrimLeadingV(TrimLeadingV(tag)) == TrimLeadingV(tag)
  {
  }

  /** Every leading 'v' goes, not just one: "vv1.0" becomes "1.0". */
  lemma TrimLeadingVExample(tag: string)
    requires tag == "vv1.0"
    ensures TrimLeadingV(tag) == "1.0"
  {
    assert tag[1..] == "v1.0";
    assert tag[1..][1..] == "1.0";
    assert "1.0"[0] != 'v';
  }

  /** The download URL comes from an installer asset, the first one, or is
      left as it was when the release has none. */
  lemma {:induction false} DownloadUrlChoice(assets: seq<GitHubAsset>, previous: string)
    ensures var url := SelectDownloadUrl(assets, previous);
      || (exists k :: 0 <= k < |assets| && IsInstaller(assets[k]) && url == assets[k].browserDownloadUrl
            && forall j :: 0 <= j < k ==> !IsInstaller(assets[j]))
      || (url == previous && forall j :: 0 <= j < |assets| ==> !IsInstaller(assets[j]))
  {
    match FirstInstaller(assets)
    case Some(k) =>
    case None =>
  }

  /** The default state is consistent: no version is newer than itself. */
  lemma DefaultIsConsistent(crateVersion: string)
    ensures FlagConsistent(DefaultUpdateInfo(crateVersion))
  {
    Version.NewerIrreflexive(crateVersion);
  }

  /** A check keeps the flag consistent with the recorded versions, as long
      as the recorded current version is the compiled-in one. */
  lemma CheckPreservesConsistency(info: UpdateInfo, crateVersion: string, fetched: Result<GitHubRelease, string>)
    requires info.currentVersion == crateVersion
    requires FlagConsistent(info)
    ensures FlagConsistent(CheckForUpdates(info, crateVersion, fetched).state)
  {
  }

  /** Checking twice against the same release leaves the same state as checking once. */
  lemma CheckIdempotent(info: UpdateInfo, crateVersion: string, fetched: Result<GitHubRelease, string>)
    ensures var once := CheckForUpdates(info, crateVersion, fetched).state;
      CheckForUpdates(once, crateVersion, fetched).state == once
  {
  }

  /** After a later release without an installer asset, the download URL
      still points at the earlier release's installer while the latest
      version names the later release. */
  lemma StaleDownloadUrl(crateVersion: string, first: GitHubRelease, second: GitHubRelease)
    requires FirstInstaller(first.assets).Some?
    requires FirstInstaller(second.assets).None?
    ensures var s1 := CheckForUpdates(DefaultUpdateInfo(crateVersion), crateVersion, Success(first)).state;
      var s2 := CheckForUpdates(s1, crateVersion, Success(second)).state;
      && s2.latestVersion == TrimLeadingV(second.tagName)
      && s2.downloadUrl == first.assets[FirstInstaller(first.assets).value].browserDownloadUrl
  {
  }

  /** Off Windows every check fails with the same message and changes nothing. */
  lemma UnsupportedPlatformCheck(info: UpdateInfo, crateVersion: string)
    ensures var out := CheckForUpdates(info, crateVersion, Failure(UnsupportedPlatformError));
      && out.state == info
      && out.returned == Failure(CheckFailedPrefix + UnsupportedPlatformError)
  {
  }
}
