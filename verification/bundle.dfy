/** The contents of an uploaded release bundle once extracted: the
    structural check made at upload (`validate_zip_structure`) and the
    choice of files that go into the canonical `release_bundle.zip`
    (`build_canonical_zip`). */
module Bundle {
  import opened Seqs

  type Bytes = seq<bv8>

  /** A path relative to the release directory, one component per entry. */
  type FilePath = seq<string>

  /** An extracted directory tree: its files with their contents, and the
      directories the archive created (possibly empty ones). */
  datatype Tree = Tree(files: map<FilePath, Bytes>, dirs: set<FilePath>)

  /** `(root / name).exists()`: some file or directory sits at `name` or
      below it. */
  predicate HasTopLevel(t: Tree, name: string) {
    (exists p :: p in t.files && |p| > 0 && p[0] == name) ||
    (exists p :: p in t.dirs && |p| > 0 && p[0] == name)
  }

  const MissingService := "Missing 'service/' directory"
  const MissingAssets := "Missing 'assets/' directory"

  /** `validate_zip_structure`: a bundle needs `service/` and `assets/` at
      its top level; `release.json` is optional at this point. */
  function ValidateZipStructure(t: Tree): (r: (bool, seq<string>))
    ensures r.0 <==> HasTopLevel(t, "service") && HasTopLevel(t, "assets")
    ensures r.0 <==> r.1 == []
    ensures MissingService in r.1 <==> !HasTopLevel(t, "service")
    ensures MissingAssets in r.1 <==> !HasTopLevel(t, "assets")
    ensures |r.1| <= 2
    ensures |r.1| == 2 ==> r.1 == [MissingService, MissingAssets]
  {
    var errors :=
      (if HasTopLevel(t, "service") then [] else [MissingService]) +
      (if HasTopLevel(t, "assets") then [] else [MissingAssets]);
    (|errors| == 0, errors)
  }

  const BundleName := "release_bundle.zip"

  /** One file met while walking the release directory. */
  datatype Entry = Entry(path: FilePath, data: Bytes)

  /** The last component of a path (`Path.name`). */
  function BaseName(p: FilePath): string {
    if |p| == 0 then "" else p[|p| - 1]
  }

  /** Whether the canonical archive takes a file: every file whose name is
      not `release_bundle.zip`, at whatever depth it sits. */
  predicate Archived(e: Entry) {
    BaseName(e.path) != BundleName
  }

  /** `build_canonical_zip`: the entries written to the archive, given the
      files in the order `os.walk` meets them. The archive holds exactly the
      walked files not named `release_bundle.zip`, in walk order. */
  method BuildCanonicalZip(walk: seq<Entry>) returns (archive: seq<Entry>)
    ensures archive == Keep(walk, Archived)
    ensures forall e :: e in archive <==> e in walk && BaseName(e.path) != BundleName
    ensures Subseq(archive, walk)
  {
    archive := [];
    var i := 0;
    while i < |walk|
      invariant i <= |walk|
      invariant archive == Keep(walk[..i], Archived)
    {
      KeepSnoc(walk, i, Archived);
      if BaseName(walk[i].path) != BundleName {
        archive := archive + [walk[i]];
      }
      i := i + 1;
    }
    assert walk[..i] == walk;
    ArchiveSelection(walk);
  }

  /** What the archive's selection keeps: exactly the walked files not
      named `release_bundle.zip`, in walk order. */
  lemma ArchiveSelection(walk: seq<Entry>)
    ensures forall e :: e in Keep(walk, Archived) <==> e in walk && BaseName(e.path) != BundleName
    ensures Subseq(Keep(walk, Archived), walk)
  {
    forall e ensures e in Keep(walk, Archived) <==> e in walk && BaseName(e.path) != BundleName {
      KeepMembers(walk, Archived, e);
    }
    KeepSubseq(walk, Archived);
  }

  /** A stale `release_bundle.zip` left in the directory, wherever the walk
      meets it, does not change what the new archive holds. */
  lemma ArchiveIgnoresOldBundle(before: seq<Entry>, stale: Entry, after: seq<Entry>)
    requires BaseName(stale.path) == BundleName
    ensures Keep(before + [stale] + after, Archived) == Keep(before + after, Archived)
  {
    assert Keep([stale], Archived) == [] by {
      assert [stale][..0] == [];
    }
    assert Keep(before + [stale], Archived) == Keep(before, Archived) by {
      KeepAppend(before, [stale], Archived);
    }
    var kb := Keep(before, Archived);
    assert Keep(before + [stale] + after, Archived) == kb + Keep(after, Archived) by {
      KeepAppend(before + [stale], after, Archived);
    }
    KeepAppend(before, after, Archived);
  }

  /** When the walk lists each file of a directory exactly once, the
      archive's paths are exactly the directory's paths whose last
      component is not `release_bundle.zip`, each with its contents. */
  lemma ArchiveCoversDirectory(dir: map<FilePath, Bytes>, walk: seq<Entry>)
    requires forall i :: 0 <= i < |walk| ==> walk[i].path in dir && dir[walk[i].path] == walk[i].data
    requires forall p :: p in dir ==> exists i :: 0 <= i < |walk| && walk[i].path == p
    ensures forall p :: p in dir && BaseName(p) != BundleName ==> Entry(p, dir[p]) in Keep(walk, Archived)
    ensures forall e :: e in Keep(walk, Archived) ==> e.path in dir && e.data == dir[e.path] && BaseName(e.path) != BundleName
  {
    forall p | p in dir && BaseName(p) != BundleName
      ensures Entry(p, dir[p]) in Keep(walk, Archived)
    {
      var i :| 0 <= i < |walk| && walk[i].path == p;
      KeepMembers(walk, Archived, walk[i]);
    }
    forall e | e in Keep(walk, Archived)
      ensures e.path in dir && e.data == dir[e.path] && BaseName(e.path) != BundleName
    {
      KeepMembers(walk, Archived, e);
    }
  }
}
