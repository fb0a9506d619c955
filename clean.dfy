/** What `clean_mods` leaves in `mods/`: every `.jar` file that is not
    preserved is deleted; other files, directories (`user/` among them) and
    preserved jars stay. */
module Cleanup {
  import opened Fs
  import opened ContentFilter

  /** `file.is_file() and file.suffix == ".jar"` and not spared by
      `keep_preserved and _is_preserved(file.name)`. */
  predicate Removable(mods: Tree, n: string, preserved: seq<string>, keep: bool) {
    IsFileIn(mods, n) && HasJarSuffix(n) && !(keep && IsPreserved(n, preserved))
  }

  /** The directory once the entries in `visited` have been looked at. */
  function CleanedSome(mods: Tree, visited: set<string>, preserved: seq<string>, keep: bool): Tree {
    map n | n in mods && !(n in visited && Removable(mods, n, preserved, keep)) :: mods[n]
  }

  /** The directory once every entry has been looked at. */
  function Cleaned(mods: Tree, preserved: seq<string>, keep: bool): (r: Tree)
    ensures forall n | n in r :: n in mods && r[n] == mods[n]
    ensures forall n | n in mods && !Removable(mods, n, preserved, keep) :: n in r
    ensures forall n | n in mods && Removable(mods, n, preserved, keep) :: n !in r
    ensures keep ==> forall n | IsFileIn(r, n) && HasJarSuffix(n) :: IsPreserved(n, preserved)
    ensures !keep ==> forall n | IsFileIn(r, n) :: !HasJarSuffix(n)
  {
    CleanedSome(mods, mods.Keys, preserved, keep)
  }

  /** Cleaning a cleaned directory changes nothing. */
  lemma CleanIdempotent(mods: Tree, preserved: seq<string>, keep: bool)
    ensures Cleaned(Cleaned(mods, preserved, keep), preserved, keep) == Cleaned(mods, preserved, keep)
  {
    var c := Cleaned(mods, preserved, keep);
    var cc := Cleaned(c, preserved, keep);
    forall n | n in c ensures n in cc {
      assert !Removable(c, n, preserved, keep);
    }
  }

  /** The `user/` directory, and any other directory, is kept as it was. */
  lemma DirectoriesKept(mods: Tree, preserved: seq<string>, keep: bool, n: string)
    requires IsDirIn(mods, n)
    ensures IsDirIn(Cleaned(mods, preserved, keep), n)
    ensures Cleaned(mods, preserved, keep)[n] == mods[n]
  {
  }

  /** Visiting one more entry removes it exactly when it is removable. */
  lemma CleanStep(mods: Tree, visited: set<string>, n: string, preserved: seq<string>, keep: bool)
    requires n in mods && n !in visited
    ensures CleanedSome(mods, visited + {n}, preserved, keep)
            == if Removable(mods, n, preserved, keep)
               then CleanedSome(mods, visited, preserved, keep) - {n}
               else CleanedSome(mods, visited, preserved, keep)
  {
  }
}
