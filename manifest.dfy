/** The registry's version records and the archive's `modrinth.index.json`,
    and the two decisions `install` takes over them: which version file is the
    `.mrpack`, and how each index entry is classified. */
module Manifest {
  import opened Types
  import opened Fs
  import opened ContentFilter

  /** One file of a registry version (only the fields `install` reads). */
  datatype VersionFile = VersionFile(filename: string, url: string)

  /** One registry version: `id`, `version_number` and `files`. */
  datatype Version = Version(id: string, versionNumber: string, files: seq<VersionFile>)

  /** One element of the index's `files` list. A missing `env` or `hashes`
      is the empty map, a missing `fileSize` is None. */
  datatype IndexEntry = IndexEntry(
    path: string,
    env: map<string, string>,
    downloads: seq<string>,
    fileSize: Option<int>,
    hashes: map<string, string>)

  /** A queued download: URL, target file name in `mods/`, declared size and hashes. */
  datatype Task = Task(url: string, name: string, size: Option<int>, hashes: map<string, string>)

  // ---------------------------------------------------------------------------
  // Choosing the .mrpack

  predicate IsMrpack(f: VersionFile) {
    EndsWith(f.filename, ".mrpack")
  }

  /** Index of the first version file whose name ends in `.mrpack`. */
  function FirstMrpack(files: seq<VersionFile>): (r: Option<nat>)
    ensures r.Some? ==> r.value < |files| && IsMrpack(files[r.value])
                        && forall j | 0 <= j < r.value :: !IsMrpack(files[j])
    ensures r.None? <==> forall j | 0 <= j < |files| :: !IsMrpack(files[j])
  {
    if files == [] then None
    else if IsMrpack(files[0]) then Some(0)
    else match FirstMrpack(files[1..])
      case None => None
      case Some(i) => Some(i + 1)
  }

  /** The search loop with `break` over `latest["files"]`. */
  method FindMrpack(files: seq<VersionFile>) returns (r: Option<nat>)
    ensures r == FirstMrpack(files)
  {
    r := None;
    var i := 0;
    while i < |files|
      invariant 0 <= i <= |files|
      invariant forall j | 0 <= j < i :: !IsMrpack(files[j])
    {
      if IsMrpack(files[i]) {
        r := Some(i);
        break;
      }
      i := i + 1;
    }
  }

  // ---------------------------------------------------------------------------
  // Classifying index entries

  datatype Kind = Other | ClientOnly | Queued

  /** Not under `mods/`: other; client-only by tag or pattern: skipped;
      otherwise queued for download. */
  function KindOf(e: IndexEntry, clientOnly: seq<string>): Kind {
    if !StartsWith(e.path, "mods/") then Other
    else if IsClientOnly(Name(e.path), e.env, clientOnly) then ClientOnly
    else Queued
  }

  /** The download queued for an entry: the first URL, the path's file name. */
  function TaskOf(e: IndexEntry): Task
    requires e.downloads != []
  {
    Task(e.downloads[0], Name(e.path), e.fileSize, e.hashes)
  }

  /** Every entry that would be queued has at least one download URL
      (otherwise `downloads[0]` raises). */
  predicate Downloadable(entries: seq<IndexEntry>, clientOnly: seq<string>) {
    forall i | 0 <= i < |entries| :: KindOf(entries[i], clientOnly) == Queued ==> entries[i].downloads != []
  }

  function CountKind(entries: seq<IndexEntry>, clientOnly: seq<string>, k: Kind): (n: nat)
    ensures n <= |entries|
  {
    if entries == [] then 0
    else CountKind(entries[..|entries| - 1], clientOnly, k)
         + (if KindOf(entries[|entries| - 1], clientOnly) == k then 1 else 0)
  }

  /** `mods_to_download`, in index order. */
  function Queue(entries: seq<IndexEntry>, clientOnly: seq<string>): seq<Task>
    requires Downloadable(entries, clientOnly)
  {
    if entries == [] then []
    else
      var last := entries[|entries| - 1];
      Queue(entries[..|entries| - 1], clientOnly)
      + (if KindOf(last, clientOnly) == Queued then [TaskOf(last)] else [])
  }

  datatype Classification = Classification(tasks: seq<Task>, skippedClient: nat, skippedOther: nat)

  /** The loop of `install` over `index["files"]`. */
  method Classify(entries: seq<IndexEntry>, clientOnly: seq<string>) returns (r: Result<Classification>)
    ensures r.Err? <==> !Downloadable(entries, clientOnly)
    ensures r.Err? ==> r.error == NoDownloadUrl
    ensures r.Ok? ==> Downloadable(entries, clientOnly) && r.value == Classification(
      Queue(entries, clientOnly), CountKind(entries, clientOnly, ClientOnly), CountKind(entries, clientOnly, Other))
  {
    var tasks: seq<Task> := [];
    var skippedClient, skippedOther := 0, 0;
    var i := 0;
    while i < |entries|
      invariant 0 <= i <= |entries|
      invariant Downloadable(entries[..i], clientOnly)
      invariant tasks == Queue(entries[..i], clientOnly)
      invariant skippedClient == CountKind(entries[..i], clientOnly, ClientOnly)
      invariant skippedOther == CountKind(entries[..i], clientOnly, Other)
    {
      var e := entries[i];
      ghost var kind := KindOf(e, clientOnly);
      StepPrefix(entries, clientOnly, i);
      if !StartsWith(e.path, "mods/") {
        assert kind == Other;
        skippedOther := skippedOther + 1;
      } else if IsClientOnly(Name(e.path), e.env, clientOnly) {
        assert kind == ClientOnly;
        skippedClient := skippedClient + 1;
      } else {
        assert kind == Queued;
        if e.downloads == [] {
          assert !Downloadable(entries, clientOnly) by {
            assert KindOf(entries[i], clientOnly) == Queued;
          }
          return Err(NoDownloadUrl);
        }
        tasks := tasks + [TaskOf(e)];
      }
      i := i + 1;
    }
    assert entries[..i] == entries;
    r := Ok(Classification(tasks, skippedClient, skippedOther));
  }

  /** How the classification of a prefix grows by one entry. */
  lemma StepPrefix(entries: seq<IndexEntry>, clientOnly: seq<string>, i: nat)
    requires i < |entries|
    ensures var e := entries[i]; var p := entries[..i]; var p' := entries[..i + 1];
      && p'[..i] == p && p'[i] == e
      && (Downloadable(p', clientOnly) <==>
          Downloadable(p, clientOnly) && (KindOf(e, clientOnly) == Queued ==> e.downloads != []))
      && (forall k :: CountKind(p', clientOnly, k) == CountKind(p, clientOnly, k) + (if KindOf(e, clientOnly) == k then 1 else 0))
      && (Downloadable(p', clientOnly) ==>
          Queue(p', clientOnly) == Queue(p, clientOnly) + (if KindOf(e, clientOnly) == Queued then [TaskOf(e)] else []))
  {
    var p' := entries[..i + 1];
    assert p'[..i] == entries[..i];
  }

  /** Every entry lands in exactly one of the three outcomes. */
  lemma {:induction false} PartitionSizes(entries: seq<IndexEntry>, clientOnly: seq<string>)
    requires Downloadable(entries, clientOnly)
    ensures |Queue(entries, clientOnly)| == CountKind(entries, clientOnly, Queued)
    ensures CountKind(entries, clientOnly, Other) + CountKind(entries, clientOnly, ClientOnly)
            + |Queue(entries, clientOnly)| == |entries|
  {
    if entries != [] {
      PartitionSizes(entries[..|entries| - 1], clientOnly);
    }
  }

  /** A queued entry is under `mods/` and is not client-only. */
  lemma QueuedMeans(e: IndexEntry, clientOnly: seq<string>)
    ensures KindOf(e, clientOnly) == Queued <==>
      StartsWith(e.path, "mods/") && !IsClientOnly(Name(e.path), e.env, clientOnly)
  {
  }

  /** The queue holds exactly the tasks of the queued entries: each queued
      task comes from a queued entry (first URL, the path's file name), and
      every queued entry yields its task. */
  lemma {:induction false} QueueIsQueuedEntries(entries: seq<IndexEntry>, clientOnly: seq<string>)
    requires Downloadable(entries, clientOnly)
    ensures forall j | 0 <= j < |Queue(entries, clientOnly)| ::
      exists i | 0 <= i < |entries| ::
        KindOf(entries[i], clientOnly) == Queued && entries[i].downloads != []
        && Queue(entries, clientOnly)[j] == TaskOf(entries[i])
    ensures forall i | 0 <= i < |entries| && KindOf(entries[i], clientOnly) == Queued ::
      TaskOf(entries[i]) in Queue(entries, clientOnly)
  {
    if entries != [] {
      var init := entries[..|entries| - 1];
      QueueIsQueuedEntries(init, clientOnly);
      var q := Queue(entries, clientOnly);
      var q0 := Queue(init, clientOnly);
      var last := entries[|entries| - 1];
      assert q == q0 + (if KindOf(last, clientOnly) == Queued then [TaskOf(last)] else []);
      forall j | 0 <= j < |Queue(entries, clientOnly)|
        ensures exists i | 0 <= i < |entries| ::
          KindOf(entries[i], clientOnly) == Queued && entries[i].downloads != []
          && Queue(entries, clientOnly)[j] == TaskOf(entries[i])
      {
        if j < |q0| {
          assert q[j] == q0[j];
          var i :| 0 <= i < |init| && KindOf(init[i], clientOnly) == Queued && init[i].downloads != []
                   && q0[j] == TaskOf(init[i]);
          assert init[i] == entries[i];
        } else {
          var i := |entries| - 1;
          assert KindOf(entries[i], clientOnly) == Queued;
          assert q[j] == TaskOf(entries[i]);
        }
      }
      forall i | 0 <= i < |entries| && KindOf(entries[i], clientOnly) == Queued
        ensures TaskOf(entries[i]) in q
      {
        if i < |init| {
          assert init[i] == entries[i];
          assert TaskOf(init[i]) in q0;
        }
      }
    } else {
      assert Queue(entries, clientOnly) == [];
    }
  }

  /** A name matching a client-only pattern is never queued, whatever its tag. */
  lemma ClientPatternNeverQueued(entries: seq<IndexEntry>, clientOnly: seq<string>, name: string)
    requires Downloadable(entries, clientOnly)
    requires MatchesAny(name, clientOnly)
    ensures forall t | t in Queue(entries, clientOnly) :: t.name != name
  {
    QueueIsQueuedEntries(entries, clientOnly);
    forall t | t in Queue(entries, clientOnly) ensures t.name != name {
      var j :| 0 <= j < |Queue(entries, clientOnly)| && Queue(entries, clientOnly)[j] == t;
      var i :| 0 <= i < |entries| && KindOf(entries[i], clientOnly) == Queued && entries[i].downloads != []
               && t == TaskOf(entries[i]);
      assert !IsClientOnly(Name(entries[i].path), entries[i].env, clientOnly);
    }
  }
}
