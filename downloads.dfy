/** The download phase of `install`: each queued task is fetched, checked
    and written to `mods/<name>`, and its boolean outcome is tallied. The
    thread pool of the installer becomes a loop over the task list. */
module Downloads {
  import opened Types
  import opened Fs
  import opened Verification
  import opened Manifest

  /** The network as the download phase sees it: what `urlopen(url).read()`
      returns (None for any exception it raises) and the two hash functions. */
  datatype Fetcher = Fetcher(fetch: string -> Option<Content>, hashers: Hashers)

  /** The payload `_download_file` would write for `t`, or None when the fetch
      fails or the payload is rejected. */
  function Payload(t: Task, f: Fetcher): (r: Option<Content>)
    ensures r.Some? ==> f.fetch(t.url) == Some(r.value)
                        && Check(r.value, t.size, t.hashes, f.hashers) == Accepted
    ensures f.fetch(t.url).Some? && Check(f.fetch(t.url).value, t.size, t.hashes, f.hashers) == Accepted
            ==> r.Some?
  {
    match f.fetch(t.url)
    case None => None
    case Some(data) => if Check(data, t.size, t.hashes, f.hashers) == Accepted then Some(data) else None
  }

  /** `mods_dir / name` can be written as a file: the name does not denote
      `mods/` itself or its parent, and is not an existing directory. */
  predicate Writable(mods: Tree, name: string) {
    name != "" && name != "." && name != ".." && !IsDirIn(mods, name)
  }

  /** `_download_file` for one task succeeds. */
  predicate Succeeds(mods: Tree, t: Task, f: Fetcher) {
    Payload(t, f).Some? && Writable(mods, t.name)
  }

  /** The mods directory after one task. */
  function Step(mods: Tree, t: Task, f: Fetcher): Tree {
    if Succeeds(mods, t, f) then mods[t.name := File(Payload(t, f).value)] else mods
  }

  /** The mods directory after the tasks, run one after the other. */
  function AfterDownloads(mods: Tree, tasks: seq<Task>, f: Fetcher): Tree {
    if tasks == [] then mods
    else Step(AfterDownloads(mods, tasks[..|tasks| - 1], f), tasks[|tasks| - 1], f)
  }

  /** How many tasks succeed, each judged against the directory as it was
      before the phase. */
  function Succeeded(mods: Tree, tasks: seq<Task>, f: Fetcher): (n: nat)
    ensures n <= |tasks|
    ensures (forall i | 0 <= i < |tasks| :: Succeeds(mods, tasks[i], f)) ==> n == |tasks|
    ensures (forall i | 0 <= i < |tasks| :: !Succeeds(mods, tasks[i], f)) ==> n == 0
  {
    if tasks == [] then 0
    else Succeeded(mods, tasks[..|tasks| - 1], f) + (if Succeeds(mods, tasks[|tasks| - 1], f) then 1 else 0)
  }

  /** Downloads only ever write files: the directories in `mods/` are the
      same before and after, so each task succeeds or fails independently of
      the others. */
  lemma {:induction false} DirectoriesStay(mods: Tree, tasks: seq<Task>, f: Fetcher, n: string)
    ensures IsDirIn(AfterDownloads(mods, tasks, f), n) <==> IsDirIn(mods, n)
    ensures IsDirIn(mods, n) ==> AfterDownloads(mods, tasks, f)[n] == mods[n]
  {
    if tasks != [] {
      DirectoriesStay(mods, tasks[..|tasks| - 1], f, n);
    }
  }

  lemma SucceedsAfter(mods: Tree, done: seq<Task>, t: Task, f: Fetcher)
    ensures Succeeds(AfterDownloads(mods, done, f), t, f) == Succeeds(mods, t, f)
  {
    DirectoriesStay(mods, done, f, t.name);
  }

  /** A name that no succeeding task targets keeps its old entry: in
      particular a payload that fails its size or hash check is never
      written. */
  lemma {:induction false} UntouchedUnlessWritten(mods: Tree, tasks: seq<Task>, f: Fetcher, n: string)
    requires forall t | t in tasks && t.name == n :: Payload(t, f).None?
    ensures Get(AfterDownloads(mods, tasks, f), n) == Get(mods, n)
  {
    if tasks != [] {
      var init := tasks[..|tasks| - 1];
      assert forall t | t in init :: t in tasks;
      UntouchedUnlessWritten(mods, init, f, n);
    }
  }

  /** Whatever the phase puts at a name is the accepted payload of a task
      with that name. */
  lemma {:induction false} WrittenWasAccepted(mods: Tree, tasks: seq<Task>, f: Fetcher, n: string)
    requires Get(AfterDownloads(mods, tasks, f), n) != Get(mods, n)
    ensures exists t | t in tasks ::
      && t.name == n
      && Payload(t, f).Some?
      && n in AfterDownloads(mods, tasks, f)
      && AfterDownloads(mods, tasks, f)[n] == File(Payload(t, f).value)
  {
    var init := tasks[..|tasks| - 1];
    var last := tasks[|tasks| - 1];
    var before := AfterDownloads(mods, init, f);
    if Succeeds(before, last, f) && last.name == n {
      assert last in tasks;
    } else {
      assert Get(AfterDownloads(mods, tasks, f), n) == Get(before, n);
      WrittenWasAccepted(mods, init, f, n);
      var t :| t in init && t.name == n && Payload(t, f).Some? && n in before && before[n] == File(Payload(t, f).value);
      assert t in tasks;
    }
  }

  /** The positive side: a task that succeeds, and is the last with its
      name, leaves its payload at that name. */
  lemma {:induction false} LastSuccessWritten(mods: Tree, tasks: seq<Task>, f: Fetcher, k: nat)
    requires k < |tasks| && Succeeds(mods, tasks[k], f)
    requires forall j | k < j < |tasks| :: tasks[j].name != tasks[k].name
    ensures Get(AfterDownloads(mods, tasks, f), tasks[k].name) == Some(File(Payload(tasks[k], f).value))
  {
    var init := tasks[..|tasks| - 1];
    if k == |tasks| - 1 {
      SucceedsAfter(mods, init, tasks[k], f);
    } else {
      assert init[k] == tasks[k];
      assert forall j | k < j < |init| :: init[j] == tasks[j];
      LastSuccessWritten(mods, init, f, k);
    }
  }

  lemma {:induction false} SucceededAppend(mods: Tree, a: seq<Task>, b: seq<Task>, f: Fetcher)
    ensures Succeeded(mods, a + b, f) == Succeeded(mods, a, f) + Succeeded(mods, b, f)
  {
    if b == [] {
      assert a + b == a;
    } else {
      var b0 := b[..|b| - 1];
      SucceededAppend(mods, a, b0, f);
      assert (a + b)[..|a + b| - 1] == a + b0;
    }
  }

  /** The tally does not depend on the order in which tasks complete: any
      reordering of the tasks gives the same number of successes. */
  lemma {:induction false} SucceededOrderFree(mods: Tree, a: seq<Task>, b: seq<Task>, f: Fetcher)
    requires multiset(a) == multiset(b)
    ensures Succeeded(mods, a, f) == Succeeded(mods, b, f)
  {
    if a != [] {
      var x := a[0];
      assert x in multiset(b);
      var j :| 0 <= j < |b| && b[j] == x;
      var rest := b[..j] + b[j + 1..];
      assert b == b[..j] + [x] + b[j + 1..];
      assert a == [x] + a[1..];
      assert multiset(a[1..]) == multiset(rest) by {
        calc {
          multiset(b);
          multiset(b[..j] + [x] + b[j + 1..]);
          multiset(b[..j]) + multiset([x]) + multiset(b[j + 1..]);
        }
        assert multiset(rest) == multiset(b[..j]) + multiset(b[j + 1..]);
        assert multiset(a) == multiset([x]) + multiset(a[1..]);
        assert multiset(a[1..]) == multiset(a) - multiset([x]);
        assert multiset(rest) == multiset(b) - multiset([x]);
      }
      SucceededOrderFree(mods, a[1..], rest, f);
      SucceededAppend(mods, [x], a[1..], f);
      SucceededAppend(mods, b[..j] + [x], b[j + 1..], f);
      SucceededAppend(mods, b[..j], [x], f);
      SucceededAppend(mods, b[..j], b[j + 1..], f);
      assert Succeeded(mods, [x], f) == (if Succeeds(mods, x, f) then 1 else 0) by {
        assert [x][..0] == [];
      }
    } else {
      assert b == [];
    }
  }
}
