/** What the override phase of `install` does to the instance directory.
    Each override root (`overrides`, then `server-overrides`) is applied in
    two steps: the `.jar` files directly in its `mods/` that are not
    client-only are copied flat into the instance's `mods/`; then every other
    top-level entry is copied into the instance directory, a directory
    replacing whatever directory stood there, a file overwriting. */
module Overrides {
  import opened Types
  import opened Fs
  import opened ContentFilter

  // ---------------------------------------------------------------------------
  // shutil.copy2(src, dir / name) for a file src called `name`

  /** copy2 raises: `dir/name` is a directory (so the copy goes inside it)
      and that directory already holds a directory called `name`. */
  predicate CopyClashes(dir: Tree, name: string) {
    IsDirIn(dir, name) && IsDirIn(dir[name].children, name)
  }

  /** The entry at `name` after copy2: the file, or, when `name` is an
      existing directory, that directory with the file put inside it. */
  function Copied(dir: Tree, name: string, data: Content): Node {
    if IsDirIn(dir, name) then Dir(dir[name].children[name := File(data)]) else File(data)
  }

  // ---------------------------------------------------------------------------
  // Step 1: jars from <root>/mods

  predicate IsOverrideJar(src: Tree, n: string) {
    IsFileIn(src, n) && HasJarSuffix(n)
  }

  /** The jars among `names` that are copied. */
  function CopiedJars(src: Tree, names: set<string>, clientOnly: seq<string>): set<string> {
    set n | n in names && IsOverrideJar(src, n) && !IsClientOnly(n, map[], clientOnly)
  }

  /** The jars among `names` that are skipped as client-only. */
  function SkippedJars(src: Tree, names: set<string>, clientOnly: seq<string>): set<string> {
    set n | n in names && IsOverrideJar(src, n) && IsClientOnly(n, map[], clientOnly)
  }

  /** The jars among `names` that are copied, with their contents. */
  function JarFiles(src: Tree, names: set<string>, clientOnly: seq<string>): map<string, Content> {
    map n | n in CopiedJars(src, names, clientOnly) :: src[n].data
  }

  /** Some file of `files` cannot be copied into `mods`. */
  predicate FilesClash(mods: Tree, files: map<string, Content>) {
    exists n | n in files :: CopyClashes(mods, n)
  }

  /** `mods` after copy2 of each of `files` into it, by name. */
  function CopyFiles(mods: Tree, files: map<string, Content>): Tree {
    map n | n in mods.Keys + files.Keys :: if n in files then Copied(mods, n, files[n]) else mods[n]
  }

  predicate JarsClash(mods: Tree, src: Tree, names: set<string>, clientOnly: seq<string>) {
    FilesClash(mods, JarFiles(src, names, clientOnly))
  }

  /** The instance's `mods/` after the jars among `names` are copied. */
  function CopyJars(mods: Tree, src: Tree, names: set<string>, clientOnly: seq<string>): Tree {
    CopyFiles(mods, JarFiles(src, names, clientOnly))
  }

  // ---------------------------------------------------------------------------
  // Step 2: every other top-level entry

  /** The top-level entries among `names` that are copied: all but `mods`. */
  function Items(src: Tree, names: set<string>): set<string> {
    set n | n in names && n in src && n != "mods"
  }

  /** Copying item `n` raises: rmtree of a file that stands where a directory
      goes, or a copy2 clash. */
  predicate ItemClashes(root: Tree, src: Tree, n: string)
    requires n in src
  {
    if src[n].Dir? then IsFileIn(root, n) else CopyClashes(root, n)
  }

  predicate ItemsClash(root: Tree, src: Tree, names: set<string>) {
    exists n | n in Items(src, names) :: ItemClashes(root, src, n)
  }

  /** rmtree + copytree for a directory, copy2 for a file. */
  function CopiedItem(root: Tree, src: Tree, n: string): Node
    requires n in src
  {
    if src[n].Dir? then src[n] else Copied(root, n, src[n].data)
  }

  function CopyItems(root: Tree, src: Tree, names: set<string>): Tree {
    var items := Items(src, names);
    map n | n in root.Keys + items :: if n in items then CopiedItem(root, src, n) else root[n]
  }

  // ---------------------------------------------------------------------------
  // One override root, then both

  datatype Merged = Merged(root: Tree, copied: nat, skipped: nat)

  /** One pass of the loop over `[overrides_dir, server_overrides_dir]`, for a
      root that exists. A root or a `mods` entry that is a file makes
      `iterdir` raise. */
  function ApplyRoot(root: Tree, override: Node, clientOnly: seq<string>): (r: Result<Merged>)
    requires IsDirIn(root, "mods")
    ensures r.Ok? ==> IsDirIn(r.value.root, "mods")
    ensures r.Ok? ==> override.Dir? && !IsFileIn(override.children, "mods")
    ensures r.Ok? ==> forall n | n != "mods" && n !in override.children :: Get(r.value.root, n) == Get(root, n)
    ensures r.Ok? ==> forall n | n in override.children && n != "mods" && override.children[n].Dir? ::
                        n in r.value.root && r.value.root[n] == override.children[n]
    ensures r.Ok? ==> forall n | n in override.children && n != "mods" && override.children[n].File? && !IsDirIn(root, n) ::
                        n in r.value.root && r.value.root[n] == override.children[n]
    ensures r.Ok? ==> forall n | n in override.children && n != "mods" && override.children[n].File? && IsDirIn(root, n) ::
                        n in r.value.root && r.value.root[n] == Copied(root, n, override.children[n].data)
  {
    match override
    case File(_) => Err(OverrideConflict)
    case Dir(src) =>
      if IsFileIn(src, "mods") then Err(OverrideConflict)
      else
        var srcMods := ChildrenOf(src, "mods");
        var mods := root["mods"].children;
        if JarsClash(mods, srcMods, srcMods.Keys, clientOnly) then Err(OverrideConflict)
        else
          var withJars := root["mods" := Dir(CopyJars(mods, srcMods, srcMods.Keys, clientOnly))];
          if ItemsClash(withJars, src, src.Keys) then Err(OverrideConflict)
          else
            var r := CopyItems(withJars, src, src.Keys);
            assert "mods" !in Items(src, src.Keys);
            Ok(Merged(r, |CopiedJars(srcMods, srcMods.Keys, clientOnly)|,
                         |SkippedJars(srcMods, srcMods.Keys, clientOnly)|))
  }

  /** `mods/` after a successful pass: the copied jars are in place and every
      other name keeps its entry. */
  lemma ApplyRootMods(root: Tree, override: Node, clientOnly: seq<string>, n: string)
    requires IsDirIn(root, "mods")
    requires ApplyRoot(root, override, clientOnly).Ok?
    ensures var mods := root["mods"].children;
            var srcMods := ChildrenOf(override.children, "mods");
            var mods' := ApplyRoot(root, override, clientOnly).value.root["mods"].children;
            if n in CopiedJars(srcMods, srcMods.Keys, clientOnly)
            then n in mods' && mods'[n] == Copied(mods, n, srcMods[n].data)
            else Get(mods', n) == Get(mods, n)
  {
  }

  /** Both roots, `overrides` first: whatever a root does not contain is left
      to the previous state, so `server-overrides` has the last word. */
  function Merge(root: Tree, extracted: Tree, clientOnly: seq<string>): (r: Result<Merged>)
    requires IsDirIn(root, "mods")
    ensures r.Ok? ==> IsDirIn(r.value.root, "mods")
  {
    var first := if "overrides" in extracted then ApplyRoot(root, extracted["overrides"], clientOnly)
                 else Ok(Merged(root, 0, 0));
    match first
    case Err(e) => Err(e)
    case Ok(m1) =>
      if "server-overrides" in extracted then
        match ApplyRoot(m1.root, extracted["server-overrides"], clientOnly)
        case Err(e) => Err(e)
        case Ok(m2) => Ok(Merged(m2.root, m1.copied + m2.copied, m1.skipped + m2.skipped))
      else Ok(m1)
  }

  /** The root that `Merge` applies first, when present. */
  function OverridesRoot(extracted: Tree): Tree {
    if "overrides" in extracted && extracted["overrides"].Dir? then extracted["overrides"].children else map[]
  }

  function ServerOverrides(extracted: Tree): Tree {
    if "server-overrides" in extracted && extracted["server-overrides"].Dir?
    then extracted["server-overrides"].children else map[]
  }

  /** The state between the two passes. */
  function AfterFirst(root: Tree, extracted: Tree, clientOnly: seq<string>): Tree
    requires IsDirIn(root, "mods")
  {
    if "overrides" in extracted && ApplyRoot(root, extracted["overrides"], clientOnly).Ok?
    then ApplyRoot(root, extracted["overrides"], clientOnly).value.root else root
  }

  /** A name that a client-only pattern matches is never copied into `mods/`
      by either root, and nothing but `.jar` files enters `mods/` from them. */
  lemma {:induction false} ModsOnlyGainCopiedJars(root: Tree, extracted: Tree, clientOnly: seq<string>, n: string)
    requires IsDirIn(root, "mods")
    requires Merge(root, extracted, clientOnly).Ok?
    requires MatchesAny(n, clientOnly) || !HasJarSuffix(n)
    ensures Get(Merge(root, extracted, clientOnly).value.root["mods"].children, n) == Get(root["mods"].children, n)
  {
    var mid := AfterFirst(root, extracted, clientOnly);
    if "overrides" in extracted {
      ApplyRootMods(root, extracted["overrides"], clientOnly, n);
    }
    assert Get(mid["mods"].children, n) == Get(root["mods"].children, n);
    if "server-overrides" in extracted {
      ApplyRootMods(mid, extracted["server-overrides"], clientOnly, n);
    }
  }

  /** A directory shipped by `server-overrides` is, afterwards, exactly that
      directory; one shipped only by `overrides` is exactly the `overrides`
      one. No file of the instance's old directory remains. */
  lemma {:induction false} DirectoryReplaced(root: Tree, extracted: Tree, clientOnly: seq<string>, n: string)
    requires IsDirIn(root, "mods")
    requires Merge(root, extracted, clientOnly).Ok?
    requires n != "mods"
    ensures IsDirIn(ServerOverrides(extracted), n) ==>
      Get(Merge(root, extracted, clientOnly).value.root, n) == Some(ServerOverrides(extracted)[n])
    ensures IsDirIn(OverridesRoot(extracted), n) && n !in ServerOverrides(extracted) ==>
      Get(Merge(root, extracted, clientOnly).value.root, n) == Some(OverridesRoot(extracted)[n])
  {
  }

  /** Two roots that both ship a file under the same top-level name: the
      `server-overrides` file wins (when no directory stood at that name). */
  lemma {:induction false} ServerFileWins(root: Tree, extracted: Tree, clientOnly: seq<string>, n: string)
    requires IsDirIn(root, "mods")
    requires Merge(root, extracted, clientOnly).Ok?
    requires n != "mods" && !IsDirIn(root, n)
    requires !IsDirIn(OverridesRoot(extracted), n)
    requires IsFileIn(ServerOverrides(extracted), n)
    ensures Get(Merge(root, extracted, clientOnly).value.root, n) == Some(ServerOverrides(extracted)[n])
  {
    var mid := AfterFirst(root, extracted, clientOnly);
    assert !IsDirIn(mid, n);
  }

  /** Two roots that both ship `mods/<n>` as a copied jar: the second copy2
      overwrites the first, so the `server-overrides` jar is what `mods/`
      ends up holding (when no directory stood at that name). */
  lemma {:induction false} ServerJarWins(root: Tree, extracted: Tree, clientOnly: seq<string>, n: string, d: Content)
    requires IsDirIn(root, "mods")
    requires Merge(root, extracted, clientOnly).Ok?
    requires IsDirIn(extracted, "server-overrides")
    requires var sm := ChildrenOf(ServerOverrides(extracted), "mods");
             n in CopiedJars(sm, sm.Keys, clientOnly) && sm[n] == File(d)
    requires !IsDirIn(root["mods"].children, n)
    ensures Get(Merge(root, extracted, clientOnly).value.root["mods"].children, n) == Some(File(d))
  {
    var mid := AfterFirst(root, extracted, clientOnly);
    if "overrides" in extracted {
      ApplyRootMods(root, extracted["overrides"], clientOnly, n);
    }
    assert !IsDirIn(mid["mods"].children, n);
    ApplyRootMods(mid, extracted["server-overrides"], clientOnly, n);
  }

  /** A top-level name that neither root ships keeps its entry. */
  lemma {:induction false} UnshippedUntouched(root: Tree, extracted: Tree, clientOnly: seq<string>, n: string)
    requires IsDirIn(root, "mods")
    requires Merge(root, extracted, clientOnly).Ok?
    requires n != "mods" && n !in OverridesRoot(extracted) && n !in ServerOverrides(extracted)
    ensures Get(Merge(root, extracted, clientOnly).value.root, n) == Get(root, n)
  {
    var mid := AfterFirst(root, extracted, clientOnly);
    assert Get(mid, n) == Get(root, n);
  }
}
