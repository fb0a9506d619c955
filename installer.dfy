/** `ModpackInstaller`: the instance directory it works on, and its methods,
    each of which changes that directory step by step as the installer does
    and is proved to end in the state its specification function describes. */
module Installer {
  import opened Types
  import opened Fs
  import opened ContentFilter
  import opened Verification
  import opened Manifest
  import opened Cleanup
  import opened Downloads
  import opened Overrides
  import opened Sync

  class ModpackInstaller {
    const config: Config
    /** The instance directory: `.modpack_version`, `mods/`, `config/`, ... */
    var root: Tree

    constructor (config: Config, root: Tree)
      ensures this.config == config && this.root == root
    {
      this.config := config;
      this.root := root;
    }

    /** `_save_version`: `write_text` on a directory raises. */
    method SaveVersion(id: string) returns (ok: bool)
      modifies this
      ensures ok <==> WriteVersion(old(root), id).Ok?
      ensures ok ==> root == WriteVersion(old(root), id).value
      ensures !ok ==> root == old(root)
    {
      if IsDirIn(root, VersionFileName) {
        return false;
      }
      root := root[VersionFileName := File(id)];
      ok := true;
    }

    /** `clean_mods(keep_preserved)`: a missing `mods/` is left alone; a file
        called `mods` makes `iterdir` raise. */
    method CleanMods(keep: bool) returns (ok: bool)
      modifies this
      ensures ok <==> !IsFileIn(old(root), "mods")
      ensures !IsDirIn(old(root), "mods") ==> root == old(root)
      ensures IsDirIn(old(root), "mods") ==>
                root == old(root)["mods" := Dir(Cleaned(old(root)["mods"].children, config.preserved, keep))]
    {
      if "mods" !in root {
        return true;
      }
      if root["mods"].File? {
        return false;
      }
      var m0 := root["mods"].children;
      assert CleanedSome(m0, {}, config.preserved, keep) == m0;
      assert old(root)["mods" := Dir(m0)] == old(root);
      var remaining := m0.Keys;
      assert m0.Keys - remaining == {};
      while remaining != {}
        invariant remaining <= m0.Keys
        invariant root == old(root)["mods" := Dir(CleanedSome(m0, m0.Keys - remaining, config.preserved, keep))]
        decreases remaining
      {
        var name :| name in remaining;
        CleanStep(m0, m0.Keys - remaining, name, config.preserved, keep);
        var mods := root["mods"].children;
        assert name in mods && mods[name] == m0[name];
        if mods[name].File? && HasJarSuffix(name) {
          if keep && IsPreserved(name, config.preserved) {
            // kept: "Preserving"
          } else {
            root := root["mods" := Dir(mods - {name})];
          }
        }
        assert m0.Keys - (remaining - {name}) == (m0.Keys - remaining) + {name};
        remaining := remaining - {name};
      }
      assert m0.Keys - remaining == m0.Keys;
      ok := true;
    }

    /** `_download_file(url, mods_dir / name, size, hashes)`: the payload is
        written only when the fetch succeeds, the check accepts it and
        `mods/<name>` can be written as a file; any failure returns false
        and writes nothing. */
    method DownloadFile(t: Task, f: Fetcher) returns (ok: bool)
      requires IsDirIn(root, "mods")
      requires '/' !in t.name
      modifies this
      ensures ok <==> Succeeds(old(root)["mods"].children, t, f)
      ensures ok ==> root == old(root)["mods" := Dir(old(root)["mods"].children[t.name := File(Payload(t, f).value)])]
      ensures !ok ==> root == old(root)
    {
      var fetched := f.fetch(t.url);
      if fetched.None? {
        return false;
      }
      var data := fetched.value;
      if Check(data, t.size, t.hashes, f.hashers) != Accepted {
        return false;
      }
      var mods := root["mods"].children;
      if !Writable(mods, t.name) {
        return false;
      }
      root := root["mods" := Dir(mods[t.name := File(data)])];
      ok := true;
    }

    /** The download phase: every task is attempted, one failure never stops
        the others, and the tally accounts for every task. */
    method DownloadAll(tasks: seq<Task>, f: Fetcher) returns (downloaded: nat, failed: nat)
      requires IsDirIn(root, "mods")
      requires forall i | 0 <= i < |tasks| :: '/' !in tasks[i].name
      modifies this
      ensures root == old(root)["mods" := Dir(AfterDownloads(old(root)["mods"].children, tasks, f))]
      ensures downloaded == Succeeded(old(root)["mods"].children, tasks, f)
      ensures downloaded + failed == |tasks|
    {
      ghost var m0 := root["mods"].children;
      assert old(root)["mods" := Dir(m0)] == old(root);
      downloaded, failed := 0, 0;
      for i := 0 to |tasks|
        invariant root == old(root)["mods" := Dir(AfterDownloads(m0, tasks[..i], f))]
        invariant downloaded == Succeeded(m0, tasks[..i], f)
        invariant downloaded + failed == i
      {
        assert tasks[..i + 1][..i] == tasks[..i];
        SucceedsAfter(m0, tasks[..i], tasks[i], f);
        var ok := DownloadFile(tasks[i], f);
        if ok {
          downloaded := downloaded + 1;
        } else {
          failed := failed + 1;
        }
      }
      assert tasks[..|tasks|] == tasks;
    }

    /** The jars of one override root's `mods/`, copied flat into `mods/`
        unless client-only; what was copied up to a failing copy stays. */
    method CopyOverrideJars(srcMods: Tree) returns (ok: bool, copied: nat, skipped: nat)
      requires IsDirIn(root, "mods")
      modifies this
      ensures ok <==> !JarsClash(old(root)["mods"].children, srcMods, srcMods.Keys, config.clientOnly)
      ensures ok ==> root == old(root)["mods" := Dir(CopyJars(old(root)["mods"].children, srcMods, srcMods.Keys, config.clientOnly))]
      ensures ok ==> copied == |CopiedJars(srcMods, srcMods.Keys, config.clientOnly)|
                     && skipped == |SkippedJars(srcMods, srcMods.Keys, config.clientOnly)|
    {
      var mods;
      ok, mods, copied, skipped := CopyJarsInto(root["mods"].children, srcMods, config.clientOnly);
      root := root["mods" := Dir(mods)];
    }

    /** The other top-level entries of one override root: a directory
        replaces the instance's entry wholesale (`rmtree`, then `copytree`),
        a file is copied over it (`copy2`). */
    method CopyOverrideItems(src: Tree) returns (ok: bool)
      modifies this
      ensures ok <==> !ItemsClash(old(root), src, src.Keys)
      ensures ok ==> root == CopyItems(old(root), src, src.Keys)
    {
      ghost var r0 := root;
      assert CopyItems(r0, src, {}) == r0;
      var remaining := src.Keys;
      assert src.Keys - remaining == {};
      while remaining != {}
        invariant remaining <= src.Keys
        invariant root == CopyItems(r0, src, src.Keys - remaining)
        invariant !ItemsClash(r0, src, src.Keys - remaining)
        decreases remaining
      {
        var name :| name in remaining;
        ghost var done := src.Keys - remaining;
        CopyItemsStep(r0, src, done, name);
        if name != "mods" {
          var item := src[name];
          if item.Dir? {
            if name in root {
              if root[name].File? {
                assert ItemsClash(r0, src, src.Keys) by {
                  assert name in Items(src, src.Keys);
                }
                return false;
              }
              root := root - {name};
            }
            root := root[name := item];
          } else {
            if IsDirIn(root, name) && IsDirIn(root[name].children, name) {
              assert ItemsClash(r0, src, src.Keys) by {
                assert name in Items(src, src.Keys);
              }
              return false;
            }
            root := root[name := Copied(root, name, item.data)];
          }
        }
        assert src.Keys - (remaining - {name}) == done + {name};
        remaining := remaining - {name};
      }
      assert src.Keys - remaining == src.Keys;
      ok := true;
    }

    /** One override root that exists. */
    method ApplyOverrideRoot(override: Node) returns (ok: bool, copied: nat, skipped: nat)
      requires IsDirIn(root, "mods")
      modifies this
      ensures ok <==> ApplyRoot(old(root), override, config.clientOnly).Ok?
      ensures ok ==> ApplyRoot(old(root), override, config.clientOnly).value == Merged(root, copied, skipped)
    {
      if override.File? {
        return false, 0, 0;
      }
      var src := override.children;
      if IsFileIn(src, "mods") {
        return false, 0, 0;
      }
      copied, skipped := 0, 0;
      if "mods" in src {
        ok, copied, skipped := CopyOverrideJars(src["mods"].children);
        if !ok {
          return;
        }
      } else {
        assert CopyJars(root["mods"].children, map[], {}, config.clientOnly) == root["mods"].children;
        assert old(root)["mods" := Dir(old(root)["mods"].children)] == old(root);
      }
      ok := CopyOverrideItems(src);
    }

    /** The loop over `[overrides_dir, server_overrides_dir]`. */
    method MergeOverrides(extracted: Tree) returns (ok: bool, copied: nat, skipped: nat)
      requires IsDirIn(root, "mods")
      modifies this
      ensures ok <==> Merge(old(root), extracted, config.clientOnly).Ok?
      ensures ok ==> Merge(old(root), extracted, config.clientOnly).value == Merged(root, copied, skipped)
    {
      copied, skipped := 0, 0;
      if "overrides" in extracted {
        ok, copied, skipped := ApplyOverrideRoot(extracted["overrides"]);
        if !ok {
          return;
        }
      }
      if "server-overrides" in extracted {
        var c, s;
        ok, c, s := ApplyOverrideRoot(extracted["server-overrides"]);
        if !ok {
          return;
        }
        copied, skipped := copied + c, skipped + s;
      }
      ok := true;
    }

    /** `install(force)`. The result is the one `InstallRun` gives; so is the
        instance directory left behind, except after a conflict in the
        override trees, where how much was copied depends on directory
        order. */
    method Install(net: Network, force: bool) returns (r: Result<Outcome>)
      modifies this
      ensures r == InstallRun(old(root), config, net, force).result
      ensures r != Err(OverrideConflict) ==> root == InstallRun(old(root), config, net, force).root
    {
      var lv := LatestVersion(net.versions);
      if lv.Err? {
        return Err(lv.error);
      }
      var latest := lv.value;
      var installed := ReadVersion(root);
      if installed.Err? {
        return Err(installed.error);
      }
      if installed.value == Some(latest.id) && !force {
        return Ok(AlreadyInstalled);
      }
      var index := FindMrpack(latest.files);
      if index.None? {
        return Err(NoMrpack);
      }
      var pack := latest.files[index.value];
      var archive := Payload(Task(pack.url, pack.filename, None, map[]), net.fetcher);
      if archive.None? {
        return Err(ArchiveDownloadFailed);
      }
      var unpacked := net.unzip(archive.value);
      if unpacked.None? {
        return Err(BadArchive);
      }
      var extracted := unpacked.value;
      var parsed := ReadIndex(extracted, net);
      if parsed.Err? {
        return Err(parsed.error);
      }
      var entries := parsed.value;
      r := Synchronize(net, latest, extracted, entries);
    }

    /** `install` once the archive is unpacked and its index read: create and
        clean `mods/`, then deploy. */
    method Synchronize(net: Network, latest: Version, extracted: Tree, entries: seq<IndexEntry>)
      returns (r: Result<Outcome>)
      modifies this
      ensures r == SyncTree(old(root), config, net, latest, extracted, entries).result
      ensures r != Err(OverrideConflict) ==> root == SyncTree(old(root), config, net, latest, extracted, entries).root
    {
      // mods_dir.mkdir(parents=True, exist_ok=True)
      if IsFileIn(root, "mods") {
        return Err(ModsNotDirectory);
      }
      if "mods" !in root {
        root := root["mods" := Dir(map[])];
      }
      var _ := CleanMods(true);
      assert root == EnsureModsDir(old(root)).value["mods" := Dir(CleanedModsOf(old(root), config))];
      r := Deploy(net, latest, extracted, entries);
    }

    /** Classify the index, download the queue, then finish. */
    method Deploy(net: Network, latest: Version, extracted: Tree, entries: seq<IndexEntry>)
      returns (r: Result<Outcome>)
      requires IsDirIn(root, "mods")
      modifies this
      ensures r == Sync.Deploy(old(root), config, net, latest, extracted, entries).result
      ensures r != Err(OverrideConflict) ==> root == Sync.Deploy(old(root), config, net, latest, extracted, entries).root
    {
      var classified := Classify(entries, config.clientOnly);
      if classified.Err? {
        return Err(classified.error);
      }
      var tasks := classified.value.tasks;
      TaskNamesArePlain(entries, config.clientOnly);
      var downloaded, failed := DownloadAll(tasks, net.fetcher);
      r := Finish(latest.id, extracted, downloaded, failed, classified.value.skippedClient, classified.value.skippedOther);
    }

    /** Merge the override roots, then record the version and report. */
    method Finish(id: string, extracted: Tree, downloaded: nat, failed: nat, skippedClient: nat, skippedOther: nat)
      returns (r: Result<Outcome>)
      requires IsDirIn(root, "mods")
      modifies this
      ensures r == Sync.Finish(old(root), config, id, extracted, downloaded, downloaded + failed, skippedClient, skippedOther).result
      ensures r != Err(OverrideConflict) ==>
                root == Sync.Finish(old(root), config, id, extracted, downloaded, downloaded + failed, skippedClient, skippedOther).root
    {
      var merged, fromOverrides, overrideSkipped := MergeOverrides(extracted);
      if !merged {
        return Err(OverrideConflict);
      }
      var saved := SaveVersion(id);
      if !saved {
        return Err(VersionFileUnwritable);
      }
      r := Ok(Completed(Summary(downloaded, failed, fromOverrides, skippedClient, overrideSkipped, skippedOther)));
    }
  }

  /** The loop over the jars of an override root's `mods/` (in directory
      order, which the result does not depend on): a client-only jar is
      skipped, any other jar is copied with copy2, and the first copy that
      raises ends the loop with the entries copied so far. */
  method CopyJarsInto(m0: Tree, srcMods: Tree, co: seq<string>) returns (ok: bool, mods: Tree, copied: nat, skipped: nat)
    ensures ok <==> !JarsClash(m0, srcMods, srcMods.Keys, co)
    ensures ok ==> mods == CopyJars(m0, srcMods, srcMods.Keys, co)
    ensures ok ==> copied == |CopiedJars(srcMods, srcMods.Keys, co)|
                   && skipped == |SkippedJars(srcMods, srcMods.Keys, co)|
  {
    mods := m0;
    copied, skipped := 0, 0;
    var remaining := srcMods.Keys;
    ghost var done: set<string> := {};
    JarsNone(m0, srcMods, co);
    while remaining != {}
      invariant remaining <= srcMods.Keys
      invariant forall x :: x in done <==> x in srcMods && x !in remaining
      invariant mods == CopyJars(m0, srcMods, done, co)
      invariant copied == |CopiedJars(srcMods, done, co)|
      invariant skipped == |SkippedJars(srcMods, done, co)|
      invariant !JarsClash(m0, srcMods, done, co)
      decreases remaining
    {
      var name :| name in remaining;
      var entry := srcMods[name];
      if entry.File? && HasJarSuffix(name) {
        if IsClientOnly(name, map[], co) {
          JarSkipped(m0, srcMods, done, name, co);
          skipped := skipped + 1;
        } else {
          JarCopied(m0, srcMods, done, name, co);
          if CopyClashes(mods, name) {
            JarsClashGrows(m0, srcMods, done + {name}, srcMods.Keys, co);
            return false, mods, copied, skipped;
          }
          mods := mods[name := Copied(mods, name, entry.data)];
          copied := copied + 1;
        }
      } else {
        JarIgnored(m0, srcMods, done, name, co);
      }
      remaining := remaining - {name};
      done := done + {name};
    }
    assert done == srcMods.Keys;
    ok := true;
  }

  /** Queued names are file names: they contain no '/'. */
  lemma TaskNamesArePlain(entries: seq<IndexEntry>, clientOnly: seq<string>)
    requires Downloadable(entries, clientOnly)
    ensures forall i | 0 <= i < |Queue(entries, clientOnly)| :: '/' !in Queue(entries, clientOnly)[i].name
  {
    QueueIsQueuedEntries(entries, clientOnly);
  }

  /** Before the first entry nothing is copied. */
  lemma JarsNone(m0: Tree, src: Tree, co: seq<string>)
    ensures CopyJars(m0, src, {}, co) == m0
    ensures CopiedJars(src, {}, co) == {} && SkippedJars(src, {}, co) == {}
    ensures !JarsClash(m0, src, {}, co)
  {
    assert JarFiles(src, {}, co) == map[];
  }

  /** A jar that is copied: it lands in `mods/`, where its name was untouched
      so far, and it is the only new chance of a clash. */
  lemma JarCopied(m0: Tree, src: Tree, done: set<string>, n: string, co: seq<string>)
    requires n !in done && IsOverrideJar(src, n) && !IsClientOnly(n, map[], co)
    ensures Get(CopyJars(m0, src, done, co), n) == Get(m0, n)
    ensures CopyClashes(CopyJars(m0, src, done, co), n) == CopyClashes(m0, n)
    ensures Copied(CopyJars(m0, src, done, co), n, src[n].data) == Copied(m0, n, src[n].data)
    ensures CopyJars(m0, src, done + {n}, co) == CopyJars(m0, src, done, co)[n := Copied(m0, n, src[n].data)]
    ensures |CopiedJars(src, done + {n}, co)| == |CopiedJars(src, done, co)| + 1
    ensures SkippedJars(src, done + {n}, co) == SkippedJars(src, done, co)
    ensures JarsClash(m0, src, done + {n}, co) <==> JarsClash(m0, src, done, co) || CopyClashes(m0, n)
  {
    var files := JarFiles(src, done, co);
    assert n !in CopiedJars(src, done, co);
    assert CopiedJars(src, done + {n}, co) == CopiedJars(src, done, co) + {n};
    assert JarFiles(src, done + {n}, co) == files[n := src[n].data];
    assert SkippedJars(src, done + {n}, co) == SkippedJars(src, done, co);
    CopyFilesAdd(m0, files, n, src[n].data);
  }

  /** A jar that is skipped as client-only is counted and not copied. */
  lemma JarSkipped(m0: Tree, src: Tree, done: set<string>, n: string, co: seq<string>)
    requires n !in done && IsOverrideJar(src, n) && IsClientOnly(n, map[], co)
    ensures CopyJars(m0, src, done + {n}, co) == CopyJars(m0, src, done, co)
    ensures CopiedJars(src, done + {n}, co) == CopiedJars(src, done, co)
    ensures |SkippedJars(src, done + {n}, co)| == |SkippedJars(src, done, co)| + 1
    ensures JarsClash(m0, src, done + {n}, co) <==> JarsClash(m0, src, done, co)
  {
    var k := SkippedJars(src, done, co);
    assert n !in k;
    assert SkippedJars(src, done + {n}, co) == k + {n};
    assert CopiedJars(src, done + {n}, co) == CopiedJars(src, done, co);
  }

  /** An entry that is not a jar file is neither copied nor counted. */
  lemma JarIgnored(m0: Tree, src: Tree, done: set<string>, n: string, co: seq<string>)
    requires !IsOverrideJar(src, n)
    ensures CopyJars(m0, src, done + {n}, co) == CopyJars(m0, src, done, co)
    ensures CopiedJars(src, done + {n}, co) == CopiedJars(src, done, co)
    ensures SkippedJars(src, done + {n}, co) == SkippedJars(src, done, co)
    ensures JarsClash(m0, src, done + {n}, co) <==> JarsClash(m0, src, done, co)
  {
    assert CopiedJars(src, done + {n}, co) == CopiedJars(src, done, co);
    assert SkippedJars(src, done + {n}, co) == SkippedJars(src, done, co);
  }

  /** One more file to copy: it lands in `mods`, untouched before, and it is
      the only new chance of a clash. */
  lemma CopyFilesAdd(m0: Tree, files: map<string, Content>, n: string, d: Content)
    requires n !in files
    ensures Get(CopyFiles(m0, files), n) == Get(m0, n)
    ensures CopyFiles(m0, files[n := d]) == CopyFiles(m0, files)[n := Copied(m0, n, d)]
    ensures FilesClash(m0, files[n := d]) <==> FilesClash(m0, files) || CopyClashes(m0, n)
  {
    if FilesClash(m0, files[n := d]) && !CopyClashes(m0, n) {
      var x :| x in files[n := d] && CopyClashes(m0, x);
      assert x in files;
    }
  }

  /** A clash among some jars is a clash among more. */
  lemma JarsClashGrows(m0: Tree, src: Tree, a: set<string>, b: set<string>, co: seq<string>)
    requires a <= b
    ensures JarsClash(m0, src, a, co) ==> JarsClash(m0, src, b, co)
  {
    if JarsClash(m0, src, a, co) {
      var n :| n in JarFiles(src, a, co) && CopyClashes(m0, n);
      assert n in CopiedJars(src, b, co);
    }
  }

  /** Looking at one more top-level override entry. */
  lemma CopyItemsStep(r0: Tree, src: Tree, done: set<string>, n: string)
    requires n in src && n !in done
    ensures Get(CopyItems(r0, src, done), n) == Get(r0, n)
    ensures n != "mods" ==>
      && CopyItems(r0, src, done + {n}) == CopyItems(r0, src, done)[n := CopiedItem(r0, src, n)]
      && (ItemsClash(r0, src, done + {n}) <==> ItemsClash(r0, src, done) || ItemClashes(r0, src, n))
    ensures n == "mods" ==>
      && CopyItems(r0, src, done + {n}) == CopyItems(r0, src, done)
      && (ItemsClash(r0, src, done + {n}) <==> ItemsClash(r0, src, done))
  {
    assert n == "mods" ==> Items(src, done + {n}) == Items(src, done);
    assert n != "mods" ==> Items(src, done + {n}) == Items(src, done) + {n};
  }
}
