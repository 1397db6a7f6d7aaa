/**
 The root filesystem as `pkg` sees it: regular files and the database's record files,
 under operations any of which may fail. Directories are not modelled.
 */
module FileSystem {
  import opened Packages

  /** A package's file, a record (installed/NAME/MANIFEST), a staged record
      (MANIFEST.new), or the "<path>.pkgtmp" of one of these. */
  datatype Path = File(path: string) | Record(pkg: string) | Staged(pkg: string) | Tmp(of: Path)

  datatype Blob = Bytes(data: seq<int>) | Text(manifest: Manifest)

  type Files = map<Path, Blob>

  datatype Errno = Done | NoEntry | Failed

  /** What an installation may leave behind without anyone noticing. */
  predicate Scratch(p: Path) {
    p.Tmp? || p.Staged?
  }

  predicate Same(f: Files, g: Files, p: Path) {
    (p in f <==> p in g) && (p in f ==> f[p] == g[p])
  }

  /** Nothing but the paths in `touched` differs. */
  ghost predicate SameExcept(f: Files, g: Files, touched: set<Path>) {
    forall p :: p !in touched ==> Same(f, g, p)
  }

  /** Every temporary that was not there before, as it is now, is one whose unlink failed. */
  ghost predicate Swept(f: Files, g: Files, unremoved: set<Path>) {
    forall p :: p in g && Scratch(p) && !Same(f, g, p) ==> p in unremoved
  }

  /** The records are loadable and each names its package. */
  ghost predicate Loadable(f: Files) {
    forall p :: p in f && p.Record? ==> f[p].Text? && f[p].manifest.name == p.pkg
  }

  /** The database the record files hold. */
  function Records(f: Files): (db: Database)
    requires Loadable(f)
    ensures forall n :: n in db <==> Record(n) in f
    ensures forall n :: n in db ==> db[n] == f[Record(n)].manifest
    ensures Named(db)
  {
    map p | p in f && p.Record? :: p.pkg := f[p].manifest
  }

  lemma SameRecords(f: Files, g: Files)
    requires Loadable(f) && forall p: Path :: p.Record? ==> Same(f, g, p)
    ensures Loadable(g) && Records(g) == Records(f)
  {
    forall p | p in g && p.Record?
      ensures g[p].Text? && g[p].manifest.name == p.pkg
    {
      assert Same(f, g, p);
    }
    forall n
      ensures n in Records(g) <==> n in Records(f)
      ensures n in Records(f) ==> Records(g)[n] == Records(f)[n]
    {
      assert Same(f, g, Record(n));
    }
  }

  class Disk {
    var files: Files
    /** Every path an unlink of which has failed. */
    ghost var unremoved: set<Path>

    constructor (files: Files)
      ensures this.files == files && unremoved == {}
    {
      this.files, unremoved := files, {};
    }

    method Unlink(p: Path) returns (r: Errno)
      modifies this
      ensures old(unremoved) <= unremoved
      ensures r.Done? ==> p in old(files) && files == old(files) - {p}
      ensures !r.Done? ==> files == old(files)
      ensures r.NoEntry? ==> p !in files
      ensures r.Failed? ==> p in unremoved
    {
      if * {
        unremoved := unremoved + {p};
        return Failed;
      }
      if p !in files {
        return NoEntry;
      }
      files := files - {p};
      return Done;
    }

    method Rename(from: Path, to: Path) returns (ok: bool)
      modifies this`files
      ensures ok ==> from in old(files) && files == (old(files) - {from})[to := old(files)[from]]
      ensures !ok ==> files == old(files)
    {
      if from !in files {
        return false;
      }
      if * {
        return false;
      }
      files := (files - {from})[to := files[from]];
      return true;
    }

    /** `write_new`: open and truncate, write; what a failed write left is unlinked. */
    method WriteNew(p: Path, blob: Blob) returns (ok: bool)
      modifies this
      ensures old(unremoved) <= unremoved
      ensures ok ==> files == old(files)[p := blob]
      ensures !ok ==> SameExcept(old(files), files, {p})
      ensures !ok && p in files ==> Same(old(files), files, p) || p in unremoved
    {
      if * {
        return false;
      }
      if * {
        var part: seq<int> := *;
        files := files[p := Bytes(part)];
        var _ := Unlink(p);
        return false;
      }
      files := files[p := blob];
      return true;
    }

    /** `write_atomic`: whole under the temporary name, then renamed. */
    method WriteAtomic(p: Path, blob: Blob) returns (ok: bool)
      modifies this
      ensures old(unremoved) <= unremoved
      ensures ok ==> files == (old(files) - {Tmp(p)})[p := blob]
      ensures !ok ==> SameExcept(old(files), files, {Tmp(p)})
      ensures !ok && Tmp(p) in files ==> Same(old(files), files, Tmp(p)) || Tmp(p) in unremoved
    {
      ok := WriteNew(Tmp(p), blob);
      if !ok {
        return false;
      }
      ok := Rename(Tmp(p), p);
      if !ok {
        var _ := Unlink(Tmp(p));
      }
    }

    /** `record_stage`: the record as MANIFEST.new. Making the directory, the memory for
        the text and the text's size can each fail first. */
    method RecordStage(m: Manifest) returns (ok: bool)
      modifies this
      ensures old(unremoved) <= unremoved
      ensures ok ==> files == (old(files) - {Tmp(Staged(m.name))})[Staged(m.name) := Text(m)]
      ensures !ok ==> SameExcept(old(files), files, {Tmp(Staged(m.name))}) && Swept(old(files), files, unremoved)
    {
      if * {
        return false;
      }
      ok := WriteAtomic(Staged(m.name), Text(m));
    }

    /** `record_commit`: one rename makes it the record. */
    method RecordCommit(name: string) returns (ok: bool)
      modifies this`files
      ensures ok ==> Staged(name) in old(files)
      ensures ok ==> files == (old(files) - {Staged(name)})[Record(name) := old(files)[Staged(name)]]
      ensures !ok ==> files == old(files)
    {
      ok := Rename(Staged(name), Record(name));
    }

    /** `installed_drop`. */
    method InstalledDrop(name: string) returns (ok: bool)
      modifies this
      ensures old(unremoved) <= unremoved
      ensures SameExcept(old(files), files, {Staged(name), Record(name)})
      ensures ok ==> Record(name) !in files
      ensures !ok ==> Same(old(files), files, Record(name))
    {
      var _ := Unlink(Staged(name));
      var r := Unlink(Record(name));
      ok := r != Failed;
    }
  }
}
