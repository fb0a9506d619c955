/** The install operation as one function of the instance directory and of
    what the registry, the archive and the network provide: the version
    check, the choice of the `.mrpack`, the clean-up, the classification, the
    downloads, the overrides and the version marker, in that order. */
module Sync {
  import opened Types
  import opened Fs
  import opened ContentFilter
  import opened Manifest
  import opened Cleanup
  import opened Downloads
  import opened Overrides

  /** The pattern lists of the configuration. */
  datatype Config = Config(preserved: seq<string>, clientOnly: seq<string>)

  /** Everything that comes from outside: the registry's version list (None
      when the request fails), the fetcher for the archive and the mods, zip
      extraction (None for an unreadable archive) and JSON parsing of the
      index (None for invalid JSON). */
  datatype Network = Network(
    versions: Option<seq<Version>>,
    fetcher: Fetcher,
    unzip: Content -> Option<Tree>,
    parseIndex: Content -> Option<seq<IndexEntry>>)

  const VersionFileName := ".modpack_version"
  const IndexFileName := "modrinth.index.json"

  /** `get_latest_version`: the registry lists newest first. */
  function LatestVersion(versions: Option<seq<Version>>): (r: Result<Version>)
    ensures r.Ok? <==> versions.Some? && versions.value != []
    ensures r.Ok? ==> r.value == versions.value[0]
    ensures versions.None? ==> r == Err(ApiUnavailable)
  {
    match versions
    case None => Err(ApiUnavailable)
    case Some(vs) => if vs == [] then Err(NoVersions) else Ok(vs[0])
  }

  /** `get_installed_version`: the stripped text of `.modpack_version`, None
      when there is no such file; a directory of that name cannot be read. */
  function ReadVersion(root: Tree): (r: Result<Option<string>>)
    ensures r.Err? <==> IsDirIn(root, VersionFileName)
    ensures r == Ok(None) <==> VersionFileName !in root
    ensures r.Ok? && r.value.Some? ==> Trimmed(r.value.value)
  {
    if VersionFileName !in root then Ok(None)
    else match root[VersionFileName]
      case File(text) => Ok(Some(Strip(text)))
      case Dir(_) => Err(VersionFileUnreadable)
  }

  /** `_save_version`: overwrite `.modpack_version` with the id. */
  function WriteVersion(root: Tree, id: string): (r: Result<Tree>)
    ensures r.Ok? <==> !IsDirIn(root, VersionFileName)
    ensures r.Ok? ==> Get(r.value, VersionFileName) == Some(File(id))
    ensures r.Ok? ==> forall n | n != VersionFileName :: Get(r.value, n) == Get(root, n)
  {
    if IsDirIn(root, VersionFileName) then Err(VersionFileUnwritable)
    else Ok(root[VersionFileName := File(id)])
  }

  /** Saving an id and reading it back gives the id, as long as it has no
      surrounding whitespace (`read_text().strip()`). */
  lemma VersionRoundTrip(root: Tree, id: string)
    requires WriteVersion(root, id).Ok?
    ensures ReadVersion(WriteVersion(root, id).value) == Ok(Some(Strip(id)))
    ensures Trimmed(id) ==> ReadVersion(WriteVersion(root, id).value) == Ok(Some(id))
  {
  }

  /** `mods_dir.mkdir(parents=True, exist_ok=True)` */
  function EnsureModsDir(root: Tree): (r: Result<Tree>)
    ensures r.Ok? ==> IsDirIn(r.value, "mods") && ChildrenOf(r.value, "mods") == ChildrenOf(root, "mods")
    ensures r.Err? <==> IsFileIn(root, "mods")
    ensures r.Ok? ==> forall n | n != "mods" :: Get(r.value, n) == Get(root, n)
  {
    if IsFileIn(root, "mods") then Err(ModsNotDirectory)
    else if "mods" in root then Ok(root)
    else Ok(root["mods" := Dir(map[])])
  }

  /** `modrinth.index.json` read and parsed. */
  function ReadIndex(extracted: Tree, net: Network): Result<seq<IndexEntry>> {
    if IndexFileName !in extracted then Err(MissingIndex)
    else match extracted[IndexFileName]
      case Dir(_) => Err(BadIndex)
      case File(text) =>
        match net.parseIndex(text)
        case None => Err(BadIndex)
        case Some(entries) => Ok(entries)
  }

  /** The counters printed at the end. The installer prints `skippedClient`
      and `overrideSkipped` as one sum. */
  datatype Summary = Summary(
    downloaded: nat, failed: nat, fromOverrides: nat,
    skippedClient: nat, overrideSkipped: nat, skippedOther: nat)

  datatype Outcome = AlreadyInstalled | Completed(summary: Summary)

  /** What an install returns and the instance directory it leaves. */
  datatype Run = Run(result: Result<Outcome>, root: Tree)

  /** The instance `mods/` once cleaned, before any download. */
  function CleanedModsOf(root: Tree, cfg: Config): Tree {
    Cleaned(ChildrenOf(root, "mods"), cfg.preserved, true)
  }

  /** From the clean-up to the version marker, once the archive is extracted
      and its index parsed. */
  function SyncTree(root: Tree, cfg: Config, net: Network, latest: Version, extracted: Tree,
                    entries: seq<IndexEntry>): Run
  {
    match EnsureModsDir(root)
    case Err(e) => Run(Err(e), root)
    case Ok(withMods) => Deploy(withMods["mods" := Dir(CleanedModsOf(root, cfg))], cfg, net, latest, extracted, entries)
  }

  /** From the classification on, `mods/` being cleaned: the downloads, then
      the overrides and the marker. */
  function Deploy(afterClean: Tree, cfg: Config, net: Network, latest: Version, extracted: Tree,
                  entries: seq<IndexEntry>): Run
    requires IsDirIn(afterClean, "mods")
  {
    if !Downloadable(entries, cfg.clientOnly) then Run(Err(NoDownloadUrl), afterClean)
    else
      var cleaned := afterClean["mods"].children;
      var tasks := Queue(entries, cfg.clientOnly);
      var afterDownloads := afterClean["mods" := Dir(AfterDownloads(cleaned, tasks, net.fetcher))];
      Finish(afterDownloads, cfg, latest.id, extracted, Succeeded(cleaned, tasks, net.fetcher), |tasks|,
             CountKind(entries, cfg.clientOnly, ClientOnly), CountKind(entries, cfg.clientOnly, Other))
  }

  /** The overrides and the marker, after `downloaded` of `queued` downloads
      succeeded. */
  function Finish(afterDownloads: Tree, cfg: Config, id: string, extracted: Tree,
                  downloaded: nat, queued: nat, skippedClient: nat, skippedOther: nat): Run
    requires IsDirIn(afterDownloads, "mods") && downloaded <= queued
  {
    match Merge(afterDownloads, extracted, cfg.clientOnly)
    case Err(e) => Run(Err(e), afterDownloads)
    case Ok(m) =>
      match WriteVersion(m.root, id)
      case Err(e) => Run(Err(e), m.root)
      case Ok(saved) =>
        Run(Ok(Completed(Summary(downloaded, queued - downloaded, m.copied, skippedClient, m.skipped, skippedOther))),
            saved)
  }

  /** Everything after the version check: pick, fetch and unpack the archive. */
  function FullSync(root: Tree, cfg: Config, net: Network, latest: Version): Run {
    match FirstMrpack(latest.files)
    case None => Run(Err(NoMrpack), root)
    case Some(i) =>
      var pack := latest.files[i];
      match Payload(Task(pack.url, pack.filename, None, map[]), net.fetcher)
      case None => Run(Err(ArchiveDownloadFailed), root)
      case Some(archive) =>
        match net.unzip(archive)
        case None => Run(Err(BadArchive), root)
        case Some(extracted) =>
          match ReadIndex(extracted, net)
          case Err(e) => Run(Err(e), root)
          case Ok(entries) => SyncTree(root, cfg, net, latest, extracted, entries)
  }

  /** `install(force)` */
  function InstallRun(root: Tree, cfg: Config, net: Network, force: bool): Run {
    match LatestVersion(net.versions)
    case Err(e) => Run(Err(e), root)
    case Ok(latest) =>
      match ReadVersion(root)
      case Err(e) => Run(Err(e), root)
      case Ok(installed) =>
        if installed == Some(latest.id) && !force then Run(Ok(AlreadyInstalled), root)
        else FullSync(root, cfg, net, latest)
  }

  // ---------------------------------------------------------------------------
  // Properties of an install

  /** Up to date and not forced: nothing changes. */
  lemma UpToDateIsNoop(root: Tree, cfg: Config, net: Network)
    requires LatestVersion(net.versions).Ok?
    requires ReadVersion(root) == Ok(Some(LatestVersion(net.versions).value.id))
    ensures InstallRun(root, cfg, net, false) == Run(Ok(AlreadyInstalled), root)
  {
  }

  /** The errors raised once the instance has started to change: after the
      clean-up. */
  predicate LateError(e: Error) {
    e == NoDownloadUrl || e == OverrideConflict || e == VersionFileUnwritable
  }

  /** A run that gets through ends with the marker holding the new id; one
      that fails before the clean-up changes nothing. */
  lemma SyncTreeFacts(root: Tree, cfg: Config, net: Network, latest: Version, extracted: Tree,
                      entries: seq<IndexEntry>)
    ensures var run := SyncTree(root, cfg, net, latest, extracted, entries);
      && (run.result.Ok? ==> run.result.value.Completed?
                             && VersionFileName in run.root && run.root[VersionFileName] == File(latest.id))
      && (run.result.Err? && !LateError(run.result.error) ==> run.root == root)
      && (run.result == Err(NoDownloadUrl) ==> Get(run.root, VersionFileName) == Get(root, VersionFileName))
  {
  }

  lemma FullSyncFacts(root: Tree, cfg: Config, net: Network, latest: Version)
    ensures var run := FullSync(root, cfg, net, latest);
      && (run.result.Ok? ==> run.result.value.Completed?
                             && VersionFileName in run.root && run.root[VersionFileName] == File(latest.id))
      && (run.result.Err? && !LateError(run.result.error) ==> run.root == root)
  {
    match FirstMrpack(latest.files)
    case None =>
    case Some(i) =>
      var pack := latest.files[i];
      match Payload(Task(pack.url, pack.filename, None, map[]), net.fetcher)
      case None =>
      case Some(archive) =>
        match net.unzip(archive)
        case None =>
        case Some(extracted) =>
          match ReadIndex(extracted, net)
          case Err(e) =>
          case Ok(entries) => SyncTreeFacts(root, cfg, net, latest, extracted, entries);
  }

  /** Forced, the version check never short-cuts the install. */
  lemma ForceNeverSkips(root: Tree, cfg: Config, net: Network)
    ensures InstallRun(root, cfg, net, true).result != Ok(AlreadyInstalled)
  {
    if LatestVersion(net.versions).Ok? {
      FullSyncFacts(root, cfg, net, LatestVersion(net.versions).value);
    }
  }

  /** Every error raised before the clean-up leaves the instance as it was;
      a version without a `.mrpack` is one of them. */
  lemma EarlyErrorsChangeNothing(root: Tree, cfg: Config, net: Network, force: bool)
    requires InstallRun(root, cfg, net, force).result.Err?
    requires !LateError(InstallRun(root, cfg, net, force).result.error)
    ensures InstallRun(root, cfg, net, force).root == root
  {
    if LatestVersion(net.versions).Ok? {
      FullSyncFacts(root, cfg, net, LatestVersion(net.versions).value);
    }
  }

  /** A version without a `.mrpack` fails the install before any change. */
  lemma NoMrpackFailsEarly(root: Tree, cfg: Config, net: Network, force: bool)
    requires LatestVersion(net.versions).Ok? && ReadVersion(root).Ok?
    requires forall j | 0 <= j < |LatestVersion(net.versions).value.files| ::
               !IsMrpack(LatestVersion(net.versions).value.files[j])
    requires force || ReadVersion(root).value != Some(LatestVersion(net.versions).value.id)
    ensures InstallRun(root, cfg, net, force) == Run(Err(NoMrpack), root)
  {
  }

  /** A completed install leaves `.modpack_version` holding the latest id,
      however many downloads failed. */
  lemma CompletedCommitsVersion(root: Tree, cfg: Config, net: Network, force: bool)
    requires InstallRun(root, cfg, net, force).result.Ok?
    requires InstallRun(root, cfg, net, force).result.value.Completed?
    ensures LatestVersion(net.versions).Ok?
    ensures var run := InstallRun(root, cfg, net, force);
            VersionFileName in run.root && run.root[VersionFileName] == File(LatestVersion(net.versions).value.id)
  {
    FullSyncFacts(root, cfg, net, LatestVersion(net.versions).value);
  }

  /** Installing twice from the same registry state changes nothing the second
      time, provided the latest id has no surrounding whitespace: the marker
      is read back stripped but compared with the id as the registry gives
      it, so an id with surrounding whitespace never matches. */
  lemma {:induction false} InstallIdempotent(root: Tree, cfg: Config, net: Network, force: bool)
    requires InstallRun(root, cfg, net, force).result.Ok?
    requires LatestVersion(net.versions).Ok? && Trimmed(LatestVersion(net.versions).value.id)
    ensures var again := InstallRun(root, cfg, net, force).root;
            InstallRun(again, cfg, net, false) == Run(Ok(AlreadyInstalled), again)
  {
    var run := InstallRun(root, cfg, net, force);
    var id := LatestVersion(net.versions).value.id;
    if run.result.value.Completed? {
      CompletedCommitsVersion(root, cfg, net, force);
      assert ReadVersion(run.root) == Ok(Some(id));
    } else {
      FullSyncFacts(root, cfg, net, LatestVersion(net.versions).value);
      assert run.root == root;
      assert ReadVersion(root) == Ok(Some(id));
    }
    UpToDateIsNoop(run.root, cfg, net);
  }

  /** The counters account for every index entry and every queued download. */
  lemma {:induction false} SummaryAccountsForEveryEntry(root: Tree, cfg: Config, net: Network, latest: Version,
                                                       extracted: Tree, entries: seq<IndexEntry>)
    requires SyncTree(root, cfg, net, latest, extracted, entries).result.Ok?
    ensures var s := SyncTree(root, cfg, net, latest, extracted, entries).result.value.summary;
            && s.downloaded + s.failed == |Queue(entries, cfg.clientOnly)|
            && s.downloaded + s.failed + s.skippedClient + s.skippedOther == |entries|
  {
    PartitionSizes(entries, cfg.clientOnly);
  }

  /** A mod whose name matches a client-only pattern is installed neither
      from the manifest nor from either override root: `mods/` holds at that
      name what the clean-up left there. */
  lemma {:induction false} ClientOnlyNeverInstalled(root: Tree, cfg: Config, net: Network, latest: Version,
                                                   extracted: Tree, entries: seq<IndexEntry>, name: string)
    requires MatchesAny(name, cfg.clientOnly)
    requires SyncTree(root, cfg, net, latest, extracted, entries).result.Ok?
    ensures var after := SyncTree(root, cfg, net, latest, extracted, entries).root;
            Get(ChildrenOf(after, "mods"), name) == Get(CleanedModsOf(root, cfg), name)
  {
    var withMods := EnsureModsDir(root).value;
    var cleaned := CleanedModsOf(root, cfg);
    var afterClean := withMods["mods" := Dir(cleaned)];
    var tasks := Queue(entries, cfg.clientOnly);
    ClientPatternNeverQueued(entries, cfg.clientOnly, name);
    UntouchedUnlessWritten(cleaned, tasks, net.fetcher, name);
    var afterDownloads := afterClean["mods" := Dir(AfterDownloads(cleaned, tasks, net.fetcher))];
    ModsOnlyGainCopiedJars(afterDownloads, extracted, cfg.clientOnly, name);
    var m := Merge(afterDownloads, extracted, cfg.clientOnly).value;
    assert SyncTree(root, cfg, net, latest, extracted, entries).root == m.root[VersionFileName := File(latest.id)];
  }
}
