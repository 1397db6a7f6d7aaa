/**
 Installing, replacing and removing one package: the staged record, the three phases,
 the obsolete files, and what each of them may leave when an operation fails.
 */
module Installer {
  import opened Packages
  import opened FileSystem
  import opened Libraries

  /** Everything but Installed is the source's EXIT_FAILED. */
  datatype Installation =
    | Refused     // a check said no, before anything was written
    | Undone      // phase 1 or 2 failed
    | Stuck       // phase 3: a file could not be moved into place
    | Untracked   // an obsolete file could be neither removed nor recorded
    | Installed

  // ---- paths ----

  predicate HasPath(fs: seq<FileEntry>, path: string) {
    exists f | f in fs :: f.path == path
  }

  ghost predicate DistinctPaths(fs: seq<FileEntry>) {
    forall i, j :: 0 <= i < j < |fs| ==> fs[i].path != fs[j].path
  }

  ghost function FilesOf(fs: seq<FileEntry>): set<Path> {
    set f | f in fs :: File(f.path)
  }

  ghost function TempsOf(fs: seq<FileEntry>): set<Path> {
    set f | f in fs :: Tmp(File(f.path))
  }

  ghost function ScratchOf(m: Manifest): set<Path> {
    TempsOf(m.files) + {Staged(m.name), Tmp(Staged(m.name))}
  }

  function TempOf(f: FileEntry): Path {
    Tmp(File(f.path))
  }

  /** The temporary of entry `i` holds the data of that entry, or of a later one that
      repeats its path. */
  ghost predicate TempHolds(g: Files, fs: seq<FileEntry>, data: seq<seq<int>>, i: nat)
    requires i < |fs| == |data|
  {
    TempOf(fs[i]) in g &&
    exists j :: i <= j < |fs| && fs[j].path == fs[i].path && g[TempOf(fs[i])] == Bytes(data[j])
  }

  lemma TempHoldsNext(g: Files, h: Files, fs: seq<FileEntry>, data: seq<seq<int>>, done: nat, i: nat)
    requires i <= done < |fs| == |data|
    requires h == g[TempOf(fs[done]) := Bytes(data[done])]
    requires i < done ==> TempHolds(g, fs[..done], data[..done], i)
    ensures TempHolds(h, fs[..done + 1], data[..done + 1], i)
  {
    var fs', data' := fs[..done + 1], data[..done + 1];
    if i < done && fs[i].path != fs[done].path {
      var j :| i <= j < done && fs[..done][j].path == fs[..done][i].path &&
        g[TempOf(fs[..done][i])] == Bytes(data[..done][j]);
      assert fs'[j].path == fs'[i].path && h[TempOf(fs'[i])] == Bytes(data'[j]);
    } else {
      assert fs'[done].path == fs'[i].path && h[TempOf(fs'[i])] == Bytes(data'[done]);
    }
  }

  lemma SameExceptTrans(f: Files, g: Files, h: Files, s: set<Path>, t: set<Path>)
    requires SameExcept(f, g, s) && SameExcept(g, h, t)
    ensures SameExcept(f, h, s + t)
  {
    forall p | p !in s + t
      ensures Same(f, h, p)
    {
      assert Same(f, g, p) && Same(g, h, p);
    }
  }

  // ---- phase 1 and its undoing ----

  /** Every file as "<path>.pkgtmp", stopping at the first that cannot be written;
      `done` were. */
  method WriteTemps(disk: Disk, fs: seq<FileEntry>, data: seq<seq<int>>) returns (done: nat)
    requires |fs| == |data|
    modifies disk
    ensures old(disk.unremoved) <= disk.unremoved
    ensures done <= |fs|
    ensures SameExcept(old(disk.files), disk.files, TempsOf(fs))
    ensures done == |fs| ==> forall i :: 0 <= i < |fs| ==> TempHolds(disk.files, fs, data, i)
    ensures forall p :: p in disk.files && p !in TempsOf(fs[..done]) ==>
      Same(old(disk.files), disk.files, p) || p in disk.unremoved
  {
    done := 0;
    while done < |fs|
      invariant done <= |fs|
      invariant old(disk.unremoved) <= disk.unremoved
      invariant SameExcept(old(disk.files), disk.files, TempsOf(fs[..done]))
      invariant forall i :: 0 <= i < done ==> TempHolds(disk.files, fs[..done], data[..done], i)
    {
      ghost var g := disk.files;
      var ok := disk.WriteNew(TempOf(fs[done]), Bytes(data[done]));
      assert fs[..done + 1] == fs[..done] + [fs[done]];
      assert SameExcept(g, disk.files, {TempOf(fs[done])});
      assert TempsOf(fs[..done + 1]) == TempsOf(fs[..done]) + {TempOf(fs[done])};
      SameExceptTrans(old(disk.files), g, disk.files, TempsOf(fs[..done]), {TempOf(fs[done])});
      if !ok {
        assert TempsOf(fs[..done + 1]) <= TempsOf(fs);
        return;
      }
      ghost var fs', data' := fs[..done + 1], data[..done + 1];
      forall i | 0 <= i < |fs'|
        ensures TempHolds(disk.files, fs', data', i)
      {
        TempHoldsNext(g, disk.files, fs, data, done, i);
      }
      done := done + 1;
    }
    assert fs[..done] == fs && data[..done] == data;
  }

  /** The temporaries written so far, unlinked. */
  method RemoveTemps(disk: Disk, fs: seq<FileEntry>)
    modifies disk
    ensures old(disk.unremoved) <= disk.unremoved
    ensures SameExcept(old(disk.files), disk.files, TempsOf(fs))
    ensures forall p :: p in TempsOf(fs) && p in disk.files ==> p in disk.unremoved
  {
    for i := 0 to |fs|
      invariant old(disk.unremoved) <= disk.unremoved
      invariant SameExcept(old(disk.files), disk.files, TempsOf(fs[..i]))
      invariant forall p :: p in TempsOf(fs[..i]) && p in disk.files ==> p in disk.unremoved
    {
      ghost var g := disk.files;
      var _ := disk.Unlink(TempOf(fs[i]));
      assert fs[..i + 1] == fs[..i] + [fs[i]];
      assert TempsOf(fs[..i + 1]) == TempsOf(fs[..i]) + {TempOf(fs[i])};
      SameExceptTrans(old(disk.files), g, disk.files, TempsOf(fs[..i]), {TempOf(fs[i])});
    }
    assert fs[..|fs|] == fs;
  }

  /** The record staged, phase 1 and phase 2, and their undoing. On success the record
      is `m` and every file waits under its temporary name. */
  method Prepare(disk: Disk, m: Manifest, data: seq<seq<int>>) returns (ok: bool)
    requires |m.files| == |data|
    modifies disk
    ensures old(disk.unremoved) <= disk.unremoved
    ensures ok ==> SameExcept(old(disk.files), disk.files, ScratchOf(m) + {Record(m.name)})
    ensures ok ==> Record(m.name) in disk.files && disk.files[Record(m.name)] == Text(m)
    ensures ok ==> forall i :: 0 <= i < |m.files| ==> TempHolds(disk.files, m.files, data, i)
    ensures !ok ==> SameExcept(old(disk.files), disk.files, ScratchOf(m))
    ensures !ok ==> Swept(old(disk.files), disk.files, disk.unremoved)
  {
    ghost var f := disk.files;
    ghost var rec := {Staged(m.name), Tmp(Staged(m.name))};
    ok := disk.RecordStage(m);
    ghost var g := disk.files;
    if !ok {
      var _ := disk.Unlink(Staged(m.name));
      SameExceptTrans(f, g, disk.files, {Tmp(Staged(m.name))}, {Staged(m.name)});
      return;
    }
    var done := WriteTemps(disk, m.files, data);
    ghost var h := disk.files;
    SameExceptTrans(f, g, h, rec, TempsOf(m.files));
    if done == |m.files| {
      ok := CommitRecord(disk, m);
      if ok {
        SameExceptTrans(f, h, disk.files, rec + TempsOf(m.files), rec + {Record(m.name)});
        forall i | 0 <= i < |m.files|
          ensures TempHolds(disk.files, m.files, data, i)
        {
          assert TempHolds(h, m.files, data, i) && Same(h, disk.files, TempOf(m.files[i]));
        }
        return;
      }
      SameExceptTrans(f, h, disk.files, rec + TempsOf(m.files), rec);
    }
    ghost var k := disk.files;
    RemoveTemps(disk, m.files[..done]);
    ghost var l := disk.files;
    var _ := disk.Unlink(Staged(m.name));
    assert TempsOf(m.files[..done]) <= TempsOf(m.files);
    SameExceptTrans(f, k, l, rec + TempsOf(m.files), TempsOf(m.files[..done]));
    SameExceptTrans(f, l, disk.files, rec + TempsOf(m.files), rec);
    SweptAfter(f, g, h, k, l, disk.files, m, done, disk.unremoved);
    return false;
  }

  /** The six states of a failed preparation: at the start, record staged, temporaries
      written, commit failed, temporaries unlinked, staged record unlinked. */
  lemma SweptAfter(f: Files, g: Files, h: Files, k: Files, l: Files, z: Files, m: Manifest, done: nat,
                   unremoved: set<Path>)
    requires done <= |m.files|
    requires SameExcept(f, g, {Staged(m.name), Tmp(Staged(m.name))}) && Tmp(Staged(m.name)) !in g
    requires forall p :: p in h && p !in TempsOf(m.files[..done]) ==> Same(g, h, p) || p in unremoved
    requires SameExcept(h, k, {Staged(m.name), Tmp(Staged(m.name))})
    requires Tmp(Staged(m.name)) in k ==> Same(h, k, Tmp(Staged(m.name))) || Tmp(Staged(m.name)) in unremoved
    requires SameExcept(k, l, TempsOf(m.files[..done]))
    requires forall p :: p in TempsOf(m.files[..done]) && p in l ==> p in unremoved
    requires SameExcept(l, z, {Staged(m.name)}) && (Staged(m.name) in z ==> Staged(m.name) in unremoved)
    ensures Swept(f, z, unremoved)
  {
    forall p | p in z && Scratch(p) && !Same(f, z, p)
      ensures p in unremoved
    {
      if p != Staged(m.name) {
        assert Same(l, z, p);
        if p !in TempsOf(m.files[..done]) {
          assert Same(k, l, p);
          if p != Tmp(Staged(m.name)) {
            assert Same(h, k, p) && Same(f, g, p);
          }
        }
      }
    }
  }

  /** `record_stage` then `record_commit`. */
  method CommitRecord(disk: Disk, m: Manifest) returns (ok: bool)
    modifies disk
    ensures old(disk.unremoved) <= disk.unremoved
    ensures ok ==> SameExcept(old(disk.files), disk.files, {Staged(m.name), Tmp(Staged(m.name)), Record(m.name)})
    ensures ok ==> Record(m.name) in disk.files && disk.files[Record(m.name)] == Text(m)
    ensures !ok ==> SameExcept(old(disk.files), disk.files, {Staged(m.name), Tmp(Staged(m.name))})
    ensures !ok && Tmp(Staged(m.name)) in disk.files ==>
      Same(old(disk.files), disk.files, Tmp(Staged(m.name))) || Tmp(Staged(m.name)) in disk.unremoved
  {
    ok := disk.RecordStage(m);
    if ok {
      ok := disk.RecordCommit(m.name);
    }
  }

  // ---- phase 3 ----

  ghost predicate Moved(f: Files, g: Files, e: FileEntry) {
    && TempOf(e) in f && TempOf(e) !in g
    && File(e.path) in g && g[File(e.path)] == f[TempOf(e)]
  }

  /** The first `i` temporaries are in place or stuck. */
  ghost predicate Placed(f: Files, g: Files, fs: seq<FileEntry>, i: nat, stuck: nat)
    requires i <= |fs|
  {
    && SameExcept(f, g, FilesOf(fs[..i]) + TempsOf(fs[..i]))
    && (stuck == 0 ==> DistinctPaths(fs[..i]) && forall k :: 0 <= k < i ==> Moved(f, g, fs[k]))
  }

  lemma PlacedNext(f: Files, g: Files, h: Files, fs: seq<FileEntry>, i: nat)
    requires i < |fs| && Placed(f, g, fs, i, 0) && Moved(g, h, fs[i])
    requires SameExcept(g, h, {File(fs[i].path), TempOf(fs[i])})
    ensures Placed(f, h, fs, i + 1, 0)
  {
    PlacedMore(f, g, h, fs, i, 0);
    forall k | 0 <= k < i
      ensures fs[k].path != fs[i].path && Moved(f, h, fs[k])
    {
      assert Moved(f, g, fs[k]);
      assert TempOf(fs[k]) !in g && TempOf(fs[i]) in g;
      assert Same(g, h, File(fs[k].path)) && Same(g, h, TempOf(fs[k]));
    }
    assert fs[..i + 1] == fs[..i] + [fs[i]];
    assert TempOf(fs[i]) !in FilesOf(fs[..i]) + TempsOf(fs[..i]);
    assert Same(f, g, TempOf(fs[i]));
  }

  lemma PlacedMore(f: Files, g: Files, h: Files, fs: seq<FileEntry>, i: nat, stuck: nat)
    requires i < |fs| && Placed(f, g, fs, i, stuck)
    requires SameExcept(g, h, {File(fs[i].path), TempOf(fs[i])})
    ensures SameExcept(f, h, FilesOf(fs[..i + 1]) + TempsOf(fs[..i + 1]))
  {
    assert fs[..i + 1] == fs[..i] + [fs[i]];
    SameExceptTrans(f, g, h, FilesOf(fs[..i]) + TempsOf(fs[..i]), {File(fs[i].path), TempOf(fs[i])});
    assert FilesOf(fs[..i + 1]) + TempsOf(fs[..i + 1]) ==
      FilesOf(fs[..i]) + TempsOf(fs[..i]) + {File(fs[i].path), TempOf(fs[i])};
  }

  /** The temporaries renamed into place; one that cannot be is unlinked. When none is
      stuck no path is repeated and every file is in place. */
  method PlaceFiles(disk: Disk, fs: seq<FileEntry>, data: seq<seq<int>>) returns (stuck: nat)
    requires |fs| == |data|
    requires forall i :: 0 <= i < |fs| ==> TempHolds(disk.files, fs, data, i)
    modifies disk
    ensures SameExcept(old(disk.files), disk.files, FilesOf(fs) + TempsOf(fs))
    ensures stuck == 0 ==> DistinctPaths(fs)
    ensures stuck == 0 ==> forall i :: 0 <= i < |fs| ==>
      File(fs[i].path) in disk.files && disk.files[File(fs[i].path)] == Bytes(data[i])
  {
    stuck := 0;
    ghost var f := disk.files;
    for i := 0 to |fs|
      invariant Placed(f, disk.files, fs, i, stuck)
    {
      ghost var g := disk.files;
      var ok := disk.Rename(TempOf(fs[i]), File(fs[i].path));
      if !ok {
        var _ := disk.Unlink(TempOf(fs[i]));
        PlacedMore(f, g, disk.files, fs, i, stuck);
        stuck := stuck + 1;
      } else if stuck == 0 {
        PlacedNext(f, g, disk.files, fs, i);
      } else {
        PlacedMore(f, g, disk.files, fs, i, stuck);
      }
    }
    assert fs[..|fs|] == fs;
    if stuck == 0 {
      forall i | 0 <= i < |fs|
        ensures disk.files[File(fs[i].path)] == Bytes(data[i])
      {
        assert TempHolds(f, fs, data, i) && Moved(f, disk.files, fs[i]);
      }
    }
  }

  // ---- the previous version's files ----

  ghost function Obsolete(was: seq<FileEntry>, fs: seq<FileEntry>): set<Path> {
    set f | f in was && !HasPath(fs, f.path) :: File(f.path)
  }

  /** Entry `f` of the previous version is kept by the new one, recorded as a leftover,
      or gone from disk. */
  ghost predicate Accounted(g: Files, fs: seq<FileEntry>, leftover: seq<FileEntry>, f: FileEntry) {
    HasPath(fs, f.path) || HasPath(leftover, f.path) || File(f.path) !in g
  }

  /** The files of `was` that the new version lacks, unlinked; one that cannot be is
      left over, while the record has room. */
  method RemoveObsolete(disk: Disk, was: seq<FileEntry>, fs: seq<FileEntry>)
    returns (leftover: seq<FileEntry>, full: bool)
    requires |fs| <= MAX_FILES
    modifies disk
    ensures SameExcept(old(disk.files), disk.files, Obsolete(was, fs))
    ensures |fs| + |leftover| <= MAX_FILES
    ensures forall f :: f in leftover ==> f in was && !HasPath(fs, f.path)
    ensures !full ==> forall f :: f in was ==> Accounted(disk.files, fs, leftover, f)
    ensures DistinctPaths(was) ==>
      DistinctPaths(leftover) && forall f :: f in leftover ==> Same(old(disk.files), disk.files, File(f.path))
  {
    leftover, full := [], false;
    ghost var f0 := disk.files;
    for i := 0 to |was|
      invariant SameExcept(f0, disk.files, Obsolete(was[..i], fs))
      invariant forall p :: p in disk.files ==> Same(f0, disk.files, p)
      invariant |fs| + |leftover| <= MAX_FILES
      invariant forall f :: f in leftover ==> f in was[..i] && !HasPath(fs, f.path)
      invariant !full ==> forall f :: f in was[..i] ==> Accounted(disk.files, fs, leftover, f)
      invariant DistinctPaths(was[..i]) ==>
        DistinctPaths(leftover) && forall f :: f in leftover ==> Same(f0, disk.files, File(f.path))
    {
      ghost var g, before := disk.files, leftover;
      assert was[..i + 1] == was[..i] + [was[i]];
      if !HasPath(fs, was[i].path) {
        var r := disk.Unlink(File(was[i].path));
        if r.Failed? {
          if |fs| + |leftover| < MAX_FILES {
            leftover := leftover + [was[i]];
          } else {
            full := true;
          }
        }
      }
      ObsoleteNext(f0, g, disk.files, was, fs, before, leftover, i, full);
    }
    assert was[..|was|] == was;
  }

  lemma ObsoleteNext(f: Files, g: Files, h: Files, was: seq<FileEntry>, fs: seq<FileEntry>, before: seq<FileEntry>,
                     leftover: seq<FileEntry>, i: nat, full: bool)
    requires i < |was|
    requires SameExcept(f, g, Obsolete(was[..i], fs)) && (forall p :: p in g ==> Same(f, g, p))
    requires forall e :: e in before ==> e in was[..i] && !HasPath(fs, e.path)
    requires before <= leftover <= before + [was[i]]
    requires HasPath(fs, was[i].path) ==> h == g && leftover == before
    requires h == g || (h == g - {File(was[i].path)} && leftover == before)
    requires !full ==> forall e :: e in was[..i] ==> Accounted(g, fs, before, e)
    requires !full ==> Accounted(h, fs, leftover, was[i])
    requires leftover != before ==> !HasPath(fs, was[i].path)
    requires DistinctPaths(was[..i]) ==>
      DistinctPaths(before) && forall e :: e in before ==> Same(f, g, File(e.path))
    ensures SameExcept(f, h, Obsolete(was[..i + 1], fs)) && (forall p :: p in h ==> Same(f, h, p))
    ensures forall e :: e in leftover ==> e in was[..i + 1] && !HasPath(fs, e.path)
    ensures !full ==> forall e :: e in was[..i + 1] ==> Accounted(h, fs, leftover, e)
    ensures DistinctPaths(was[..i + 1]) ==>
      DistinctPaths(leftover) && forall e :: e in leftover ==> Same(f, h, File(e.path))
  {
    var next := was[..i + 1];
    assert next == was[..i] + [was[i]];
    forall p | p !in Obsolete(next, fs)
      ensures Same(f, h, p)
    {
      assert p !in Obsolete(was[..i], fs);
      if p == File(was[i].path) {
        assert was[i] in next;
      }
    }
    forall p | p in h
      ensures Same(f, h, p)
    {
      assert p in g;
    }
    if !full {
      forall e | e in next
        ensures Accounted(h, fs, leftover, e)
      {
        if e in was[..i] {
          assert Accounted(g, fs, before, e);
        }
      }
    }
    if DistinctPaths(next) {
      assert DistinctPaths(was[..i]) by {
        assert forall a :: 0 <= a < i ==> was[..i][a] == next[a];
      }
      forall e | e in leftover
        ensures Same(f, h, File(e.path))
        ensures e in before ==> e.path != was[i].path
      {
        if e in before {
          var a :| 0 <= a < i && was[..i][a] == e;
          assert next[a].path != next[i].path;
        }
      }
    }
  }

  // ---- what the database promises ----

  predicate OwnedByOther(db: Database, path: string, self: string) {
    exists n | n in db :: n != self && HasPath(db[n].files, path)
  }

  /** No path is in two packages' records. */
  ghost predicate OneOwner(db: Database) {
    forall a, b, path :: a in db && b in db && a != b && HasPath(db[a].files, path) ==> !HasPath(db[b].files, path)
  }

  /** The file is on disk with its recorded checksum. */
  ghost predicate Intact(f: Files, sha: seq<int> -> int, e: FileEntry) {
    File(e.path) in f && f[File(e.path)].Bytes? && sha(f[File(e.path)].data) == e.sum
  }

  /** `pkg verify` finds no problem, and no record repeats a path. */
  ghost predicate Verified(f: Files, sha: seq<int> -> int, db: Database) {
    forall n :: n in db ==> DistinctPaths(db[n].files) && forall e :: e in db[n].files ==> Intact(f, sha, e)
  }

  /** All an installation of `next` over `db` may touch. */
  ghost function Reach(db: Database, next: Manifest): set<Path> {
    ScratchOf(next) + {Record(next.name)} + FilesOf(next.files) +
    (if next.name in db then FilesOf(db[next.name].files) else {})
  }

  lemma RecordsAfter(f: Files, g: Files, touched: set<Path>, m: Manifest)
    requires Loadable(f) && SameExcept(f, g, touched)
    requires forall p :: p in touched && p.Record? ==> p == Record(m.name)
    requires Record(m.name) in g && g[Record(m.name)] == Text(m)
    ensures Loadable(g) && Records(g) == Records(f)[m.name := m]
  {
    forall p | p in g && p.Record?
      ensures g[p].Text? && g[p].manifest.name == p.pkg
    {
      if p != Record(m.name) {
        assert Same(f, g, p);
      }
    }
    forall n
      ensures n in Records(g) <==> n in Records(f)[m.name := m]
      ensures n in Records(g) ==> Records(g)[n] == Records(f)[m.name := m][n]
    {
      if n != m.name {
        assert Same(f, g, Record(n));
      }
    }
  }

  /** The ownership check and the previous owner's own paths are all a record takes. */
  lemma OneOwnerAfter(db: Database, m: Manifest)
    requires OneOwner(db)
    requires forall f :: f in m.files ==>
      !OwnedByOther(db, f.path, m.name) || (m.name in db && HasPath(db[m.name].files, f.path))
    ensures OneOwner(db[m.name := m])
  {
    var after := db[m.name := m];
    forall path, n | n in db && n != m.name && HasPath(m.files, path) && HasPath(db[n].files, path)
      ensures false
    {
      var f :| f in m.files && f.path == path;
      assert OwnedByOther(db, path, m.name);
    }
  }

  lemma VerifiedAfter(f: Files, g: Files, sha: seq<int> -> int, m: Manifest, data: seq<seq<int>>,
                      leftover: seq<FileEntry>)
    requires Loadable(f) && |data| == |m.files|
    requires var db := Records(f); OneOwner(db) && Verified(f, sha, db) && SameExcept(f, g, Reach(db, m))
    requires NotOwned(Records(f), m)
    requires DistinctPaths(m.files) && forall i :: 0 <= i < |data| ==>
      sha(data[i]) == m.files[i].sum && File(m.files[i].path) in g && g[File(m.files[i].path)] == Bytes(data[i])
    requires leftover != [] ==> m.name in Records(f)
    requires DistinctPaths(leftover) && forall e :: e in leftover ==>
      e in Records(f)[m.name].files && !HasPath(m.files, e.path) && Same(f, g, File(e.path))
    ensures Verified(g, sha, Records(f)[m.name := m.(files := m.files + leftover)])
  {
    var db := Records(f);
    var after := db[m.name := m.(files := m.files + leftover)];
    forall n | n in after
      ensures DistinctPaths(after[n].files) && forall e :: e in after[n].files ==> Intact(g, sha, e)
    {
      if n == m.name {
        DistinctAppend(m.files, leftover);
        forall e | e in after[n].files
          ensures Intact(g, sha, e)
        {
          if e in leftover {
            assert Intact(f, sha, e);
          }
        }
      } else {
        forall e | e in after[n].files
          ensures Intact(g, sha, e)
        {
          UntouchedOther(db, m, n, e);
          assert Intact(f, sha, e) && Same(f, g, File(e.path));
        }
      }
    }
  }

  lemma UntouchedOther(db: Database, m: Manifest, n: string, e: FileEntry)
    requires OneOwner(db) && n in db && n != m.name && e in db[n].files
    requires forall x :: x in m.files ==> !OwnedByOther(db, x.path, m.name)
    ensures File(e.path) !in Reach(db, m)
  {
    assert HasPath(db[n].files, e.path);
    if x :| x in m.files && x.path == e.path {
      assert OwnedByOther(db, x.path, m.name);
    }
  }

  lemma DistinctAppend(a: seq<FileEntry>, b: seq<FileEntry>)
    requires DistinctPaths(a) && DistinctPaths(b)
    requires forall e :: e in b ==> !HasPath(a, e.path)
    ensures DistinctPaths(a + b)
  {
    var s := a + b;
    forall i, j | 0 <= i < j < |s|
      ensures s[i].path != s[j].path
    {
      if i < |a| <= j {
        assert s[i] in a && s[j] in b;
      }
    }
  }

  // ---- what each outcome leaves ----

  /** Entries the new record takes over from the previous version's. */
  ghost predicate TakenOver(db: Database, m: Manifest, leftover: seq<FileEntry>) {
    forall e :: e in leftover ==> m.name in db && e in db[m.name].files && !HasPath(m.files, e.path)
  }

  ghost predicate InPlace(g: Files, m: Manifest, data: seq<seq<int>>) {
    |data| == |m.files| && forall i :: 0 <= i < |data| ==>
      File(m.files[i].path) in g && g[File(m.files[i].path)] == Bytes(data[i])
  }

  /** Phase 2 is over: the record is `m` with what it took over. */
  ghost predicate Committed(f: Files, g: Files, m: Manifest, leftover: seq<FileEntry>)
    requires Loadable(f)
  {
    && SameExcept(f, g, Reach(Records(f), m))
    && Record(m.name) in g && g[Record(m.name)] == Text(m.(files := m.files + leftover))
    && TakenOver(Records(f), m, leftover)
  }

  /** Every file of the new version is in place, and every one of the old is accounted for. */
  ghost predicate Complete(f: Files, g: Files, m: Manifest, data: seq<seq<int>>, leftover: seq<FileEntry>)
    requires Loadable(f)
  {
    && Committed(f, g, m, leftover) && InPlace(g, m, data) && DistinctPaths(m.files)
    && (m.name in Records(f) ==>
          forall e :: e in Records(f)[m.name].files ==> Accounted(g, m.files, leftover, e))
    && (m.name in Records(f) && DistinctPaths(Records(f)[m.name].files) ==>
          DistinctPaths(leftover) && forall e :: e in leftover ==> Same(f, g, File(e.path)))
  }

  ghost predicate Leaves(f: Files, g: Files, m: Manifest, data: seq<seq<int>>, leftover: seq<FileEntry>,
                         out: Installation, unremoved: set<Path>)
    requires Loadable(f)
  {
    match out
    case Refused => g == f && leftover == []
    case Undone => SameExcept(f, g, ScratchOf(m)) && Swept(f, g, unremoved) && leftover == []
    case Stuck => Committed(f, g, m, leftover)
    case Untracked => Committed(f, g, m, leftover)
    case Installed => Complete(f, g, m, data, leftover)
  }

  /** What `load_package` has checked: each member's bytes are the manifest's. */
  ghost predicate Members(sha: seq<int> -> int, m: Manifest, data: seq<seq<int>>) {
    |m.files| == |data| <= MAX_FILES && forall i :: 0 <= i < |data| ==> sha(data[i]) == m.files[i].sum
  }

  /** The record was committed. */
  predicate Changed(out: Installation) {
    !out.Refused? && !out.Undone?
  }

  /** The ends after which `pkg verify` finds nothing new. */
  predicate VerifiesAfter(out: Installation) {
    out.Refused? || out.Undone? || out.Installed?
  }

  lemma LeavesSame(f: Files, g: Files, m: Manifest)
    requires Loadable(f) && SameExcept(f, g, ScratchOf(m))
    ensures Loadable(g) && Records(g) == Records(f) && SameExcept(f, g, Reach(Records(f), m))
  {
    SameRecords(f, g);
  }

  lemma CommittedRecords(f: Files, g: Files, m: Manifest, leftover: seq<FileEntry>)
    requires Loadable(f) && Committed(f, g, m, leftover)
    ensures Loadable(g) && Records(g) == Records(f)[m.name := m.(files := m.files + leftover)]
  {
    var touched := Reach(Records(f), m);
    assert forall p :: p in touched && p.Record? ==> p == Record(m.name);
    RecordsAfter(f, g, touched, m.(files := m.files + leftover));
  }

  lemma NewRecord(f: Files, g: Files, m: Manifest)
    requires Loadable(f) && SameExcept(f, g, ScratchOf(m) + {Record(m.name)})
    requires Record(m.name) in g && g[Record(m.name)] == Text(m)
    ensures Loadable(g) && Records(g) == Records(f)[m.name := m]
  {
    var touched := ScratchOf(m) + {Record(m.name)};
    assert forall p :: p in touched && p.Record? ==> p == Record(m.name);
    RecordsAfter(f, g, touched, m);
  }

  lemma LeavesRecords(f: Files, g: Files, m: Manifest, data: seq<seq<int>>, leftover: seq<FileEntry>,
                      out: Installation, unremoved: set<Path>)
    requires Loadable(f) && Leaves(f, g, m, data, leftover, out, unremoved)
    ensures Loadable(g)
    ensures SameExcept(f, g, Reach(Records(f), m))
    ensures Records(g) == if out.Refused? || out.Undone? then Records(f)
                          else Records(f)[m.name := m.(files := m.files + leftover)]
  {
    if out.Refused? || out.Undone? {
      LeavesSame(f, g, m);
    } else {
      CommittedRecords(f, g, m, leftover);
    }
  }

  lemma LeavesOneOwner(f: Files, g: Files, m: Manifest, data: seq<seq<int>>, leftover: seq<FileEntry>,
                       out: Installation, unremoved: set<Path>)
    requires Loadable(f) && Leaves(f, g, m, data, leftover, out, unremoved)
    requires OneOwner(Records(f)) && (!out.Refused? ==> NotOwned(Records(f), m))
    ensures Loadable(g) && OneOwner(Records(g))
  {
    LeavesRecords(f, g, m, data, leftover, out, unremoved);
    if !out.Refused? && !out.Undone? {
      OneOwnerAfter(Records(f), m.(files := m.files + leftover));
    }
  }

  lemma LeavesVerified(f: Files, g: Files, sha: seq<int> -> int, m: Manifest, data: seq<seq<int>>,
                       leftover: seq<FileEntry>)
    requires Loadable(f) && Complete(f, g, m, data, leftover)
    requires OneOwner(Records(f)) && NotOwned(Records(f), m) && Verified(f, sha, Records(f))
    requires forall i :: 0 <= i < |data| ==> sha(data[i]) == m.files[i].sum
    ensures Loadable(g) && Verified(g, sha, Records(g))
  {
    LeavesRecords(f, g, m, data, leftover, Installed, {});
    assert leftover != [] ==> leftover[0] in leftover;
    VerifiedAfter(f, g, sha, m, data, leftover);
  }

  /** Verification holds again after a success, and after an installation that was refused
      or undone. */
  lemma StillVerified(f: Files, g: Files, sha: seq<int> -> int, m: Manifest, data: seq<seq<int>>,
                      leftover: seq<FileEntry>, out: Installation, unremoved: set<Path>)
    requires Loadable(f) && Leaves(f, g, m, data, leftover, out, unremoved) && VerifiesAfter(out)
    requires OneOwner(Records(f)) && (out.Installed? ==> NotOwned(Records(f), m)) && Verified(f, sha, Records(f))
    requires forall i :: 0 <= i < |data| && i < |m.files| ==> sha(data[i]) == m.files[i].sum
    ensures Loadable(g) && Verified(g, sha, Records(g))
  {
    if out.Installed? {
      LeavesVerified(f, g, sha, m, data, leftover);
    } else {
      LeavesRecords(f, g, m, data, leftover, out, unremoved);
      forall n, e | n in Records(f) && e in Records(f)[n].files
        ensures Intact(g, sha, e)
      {
        assert Intact(f, sha, e) && Same(f, g, File(e.path));
      }
    }
  }

  /** A database, of records or of the view, after an installation. */
  ghost function With(db: Database, m: Manifest, leftover: seq<FileEntry>, out: Installation): Database {
    if Changed(out) then db[m.name := m.(files := m.files + leftover)] else db
  }

  lemma UpdatedTwice(db: Database, name: string, a: Manifest, b: Manifest)
    ensures db[name := a][name := b] == db[name := b]
  {
  }

  lemma FilesKept(f: Files, g: Files, sha: seq<int> -> int, m: Manifest, data: seq<seq<int>>,
                  leftover: seq<FileEntry>, out: Installation, unremoved: set<Path>)
    requires Loadable(f) && Leaves(f, g, m, data, leftover, out, unremoved)
    requires !out.Refused? ==> NotOwned(Records(f), m)
    requires forall i :: 0 <= i < |data| && i < |m.files| ==> sha(data[i]) == m.files[i].sum
    ensures Loadable(g) && SameExcept(f, g, Reach(Records(f), m)) && Records(g) == With(Records(f), m, leftover, out)
    ensures OneOwner(Records(f)) ==> OneOwner(Records(g))
    ensures OneOwner(Records(f)) && Verified(f, sha, Records(f)) && VerifiesAfter(out) ==> Verified(g, sha, Records(g))
  {
    LeavesRecords(f, g, m, data, leftover, out, unremoved);
    if OneOwner(Records(f)) {
      LeavesOneOwner(f, g, m, data, leftover, out, unremoved);
      if VerifiesAfter(out) && Verified(f, sha, Records(f)) {
        StillVerified(f, g, sha, m, data, leftover, out, unremoved);
      }
    }
  }

  /** The two library checks on `view` pass, the records being `db`. */
  ghost predicate Passes(view: Database, db: Database, base: set<string>, m: Manifest) {
    NeedsFound(view, base, m) && (m.name in db ==> NothingLost(view, base, db[m.name], Replacement(m)))
  }

  lemma ClosureKept(view: Database, db: Database, base: set<string>, m: Manifest, leftover: seq<FileEntry>,
                    out: Installation)
    requires Named(db) && (!out.Refused? ==> Passes(view, db, base, m))
    ensures Changed(out) && Agree(view, db) && Closed(db, base) ==>
      (Closed(With(db, m, leftover, out), base) <==> InstallCovered(view, db, base, m))
    ensures view == db && Closed(db, base) ==> Closed(With(db, m, leftover, out), base)
  {
    if Changed(out) && Agree(view, db) && Closed(db, base) {
      DriftedInstall(view, db, base, m.(files := m.files + leftover));
      SyncCovers(db, base, m, m, Nobody);
    }
  }

  ghost predicate NotOwned(db: Database, m: Manifest) {
    forall e :: e in m.files ==> !OwnedByOther(db, e.path, m.name)
  }

  ghost function RecordPaths(name: string): set<Path> {
    {Staged(name), Tmp(Staged(name)), Record(name)}
  }

  /** The obsolete files of `was`, and the record again when some are left over. */
  method Retire(disk: Disk, m: Manifest, was: seq<FileEntry>) returns (ok: bool, leftover: seq<FileEntry>)
    requires |m.files| <= MAX_FILES
    requires Record(m.name) in disk.files && disk.files[Record(m.name)] == Text(m)
    modifies disk
    ensures SameExcept(old(disk.files), disk.files, Obsolete(was, m.files) + RecordPaths(m.name))
    ensures Record(m.name) in disk.files && disk.files[Record(m.name)] == Text(m.(files := m.files + leftover))
    ensures forall e :: e in leftover ==> e in was && !HasPath(m.files, e.path)
    ensures ok ==> forall e :: e in was ==> Accounted(disk.files, m.files, leftover, e)
    ensures DistinctPaths(was) ==>
      DistinctPaths(leftover) && forall e :: e in leftover ==> Same(old(disk.files), disk.files, File(e.path))
  {
    ghost var h := disk.files;
    var full;
    leftover, full := RemoveObsolete(disk, was, m.files);
    ghost var k := disk.files;
    assert Same(h, k, Record(m.name));
    assert m.(files := m.files + []) == m;
    if leftover == [] {
      return !full, leftover;
    }
    var next := m.(files := m.files + leftover);
    ok := CommitRecord(disk, next);
    SameExceptTrans(h, k, disk.files, Obsolete(was, m.files), RecordPaths(m.name));
    if !ok {
      assert Same(k, disk.files, Record(m.name));
      return false, [];
    }
    forall e: FileEntry
      ensures Same(k, disk.files, File(e.path))
    {
    }
    return !full, leftover;
  }

  lemma FinishFrame(f: Files, h: Files, z: Files, m: Manifest, db: Database)
    requires m.name in db
    requires SameExcept(f, h, ScratchOf(m) + {Record(m.name)} + (FilesOf(m.files) + TempsOf(m.files)))
    requires SameExcept(h, z, Obsolete(db[m.name].files, m.files) + RecordPaths(m.name))
    ensures SameExcept(f, z, Reach(db, m))
    ensures forall e :: e in m.files ==> Same(h, z, File(e.path))
    ensures forall e :: e in db[m.name].files && !HasPath(m.files, e.path) ==> Same(f, h, File(e.path))
  {
    SameExceptTrans(f, h, z, ScratchOf(m) + {Record(m.name)} + (FilesOf(m.files) + TempsOf(m.files)),
                    Obsolete(db[m.name].files, m.files) + RecordPaths(m.name));
    forall e | e in m.files
      ensures Same(h, z, File(e.path))
    {
      assert HasPath(m.files, e.path);
    }
  }

  /** After the commit: phase 3, then the previous version's files. */
  method Finish(disk: Disk, m: Manifest, data: seq<seq<int>>, db: Database, ghost f: Files)
    returns (out: Installation, leftover: seq<FileEntry>)
    requires |m.files| == |data| && |m.files| <= MAX_FILES
    requires Loadable(f) && db == Records(f)
    requires SameExcept(f, disk.files, ScratchOf(m) + {Record(m.name)})
    requires Record(m.name) in disk.files && disk.files[Record(m.name)] == Text(m)
    requires forall i :: 0 <= i < |m.files| ==> TempHolds(disk.files, m.files, data, i)
    modifies disk
    ensures out.Stuck? || out.Untracked? || out.Installed?
    ensures Leaves(f, disk.files, m, data, leftover, out, disk.unremoved)
  {
    ghost var g := disk.files;
    var stuck := PlaceFiles(disk, m.files, data);
    ghost var h := disk.files;
    SameExceptTrans(f, g, h, ScratchOf(m) + {Record(m.name)}, FilesOf(m.files) + TempsOf(m.files));
    assert m.(files := m.files + []) == m;
    assert Same(g, h, Record(m.name));
    if stuck > 0 {
      return Stuck, [];
    }
    if m.name !in db {
      return Installed, [];
    }
    var ok;
    ok, leftover := Retire(disk, m, db[m.name].files);
    FinishFrame(f, h, disk.files, m, db);
    out := if ok then Installed else Untracked;
  }

  class Manager {
    const disk: Disk
    const libs: LibView
    const base: set<string>
    const force: bool
    /** The checksum of a file's content. */
    const sha: seq<int> -> int

    constructor (disk: Disk, libs: LibView, base: set<string>, force: bool, sha: seq<int> -> int)
      ensures this.disk == disk && this.libs == libs && this.base == base && this.force == force && this.sha == sha
    {
      this.disk, this.libs, this.base, this.force, this.sha := disk, libs, base, force, sha;
    }

    ghost predicate Valid()
      reads this, disk, libs
    {
      Loadable(disk.files) && libs.Valid()
    }

    /** The database the library checks answer for. */
    ghost function View(): Database
      requires Valid()
      reads this, disk, libs
    {
      libs.Believes(Records(disk.files))
    }

    /** The library view has followed every change of the records. */
    ghost predicate InSync()
      requires Valid()
      reads this, disk, libs
    {
      View() == Records(disk.files)
    }

    /** `install_loaded_files`, not a dry run. `data` are the package's members, checked
        against the manifest by `load_package`. */
    method InstallLoadedFiles(m: Manifest, data: seq<seq<int>>)
      returns (out: Installation, leftover: seq<FileEntry>)
      requires Valid() && Members(sha, m, data)
      modifies disk, libs
      ensures Valid()
      ensures Leaves(old(disk.files), disk.files, m, data, leftover, out, disk.unremoved)
      ensures SameExcept(old(disk.files), disk.files, Reach(old(Records(disk.files)), m))
      ensures Records(disk.files) == With(old(Records(disk.files)), m, leftover, out)
      ensures View() == With(old(View()), m, leftover, out)
      ensures old(OneOwner(Records(disk.files))) ==> OneOwner(Records(disk.files))
      ensures old(OneOwner(Records(disk.files)) && Verified(disk.files, sha, Records(disk.files))) ==>
        VerifiesAfter(out) ==>
        Verified(disk.files, sha, Records(disk.files))
      ensures old(libs.loaded) || Changed(out) ==> libs.loaded
      ensures !force && Changed(out) ==> Passes(old(View()), old(Records(disk.files)), base, m)
      ensures !force && Changed(out) && old(Agree(View(), Records(disk.files)) && Closed(Records(disk.files), base)) ==>
        (Closed(Records(disk.files), base) <==> InstallCovered(old(View()), old(Records(disk.files)), base, m))
      ensures !force && old(InSync() && Closed(Records(disk.files), base)) ==> Closed(Records(disk.files), base)
    {
      ghost var f, view := disk.files, View();
      var db := Records(disk.files);
      out, leftover := Attempt(m, data, db);
      FilesKept(f, disk.files, sha, m, data, leftover, out, disk.unremoved);
      if !force {
        ClosureKept(view, db, base, m, leftover, out);
      }
    }

    /** The steps of `install_loaded_files`, in its order. */
    method Attempt(m: Manifest, data: seq<seq<int>>, db: Database)
      returns (out: Installation, leftover: seq<FileEntry>)
      requires Valid() && |m.files| == |data| && |m.files| <= MAX_FILES && db == Records(disk.files)
      modifies disk, libs
      ensures Leaves(old(disk.files), disk.files, m, data, leftover, out, disk.unremoved)
      ensures !out.Refused? ==> NotOwned(db, m)
      ensures Valid() && View() == With(old(View()), m, leftover, out)
      ensures old(libs.loaded) || Changed(out) ==> libs.loaded
      ensures !out.Refused? && !force ==> Passes(old(View()), db, base, m)
    {
      var fit := Checked(m, db);
      if !fit {
        return Refused, [];
      }
      out, leftover := Write(m, data, db);
    }

    /** The three phases, the checks passed. */
    method Write(m: Manifest, data: seq<seq<int>>, db: Database)
      returns (out: Installation, leftover: seq<FileEntry>)
      requires Valid() && |m.files| == |data| && |m.files| <= MAX_FILES && db == Records(disk.files)
      modifies disk, libs
      ensures !out.Refused? && Leaves(old(disk.files), disk.files, m, data, leftover, out, disk.unremoved)
      ensures Valid() && View() == With(old(View()), m, leftover, out)
      ensures old(libs.loaded) || Changed(out) ==> libs.loaded
    {
      ghost var f, view := disk.files, View();
      var ok := Commit(m, data, db);
      if !ok {
        return Undone, [];
      }
      out, leftover := Conclude(m, data, db, f);
      UpdatedTwice(view, m.name, m, m.(files := m.files + leftover));
    }

    /** Phase 3 and after, the library view following a record written again. */
    method Conclude(m: Manifest, data: seq<seq<int>>, db: Database, ghost f: Files)
      returns (out: Installation, leftover: seq<FileEntry>)
      requires Valid() && |m.files| == |data| && |m.files| <= MAX_FILES
      requires Loadable(f) && db == Records(f)
      requires SameExcept(f, disk.files, ScratchOf(m) + {Record(m.name)})
      requires Record(m.name) in disk.files && disk.files[Record(m.name)] == Text(m)
      requires forall i :: 0 <= i < |m.files| ==> TempHolds(disk.files, m.files, data, i)
      requires libs.loaded && m.name in libs.seen && libs.seen[m.name] == m
      modifies disk, libs
      ensures Changed(out)
      ensures Leaves(f, disk.files, m, data, leftover, out, disk.unremoved)
      ensures Valid() && libs.loaded && libs.seen == old(libs.seen)[m.name := m.(files := m.files + leftover)]
    {
      out, leftover := Finish(disk, m, data, db, f);
      LeavesRecords(f, disk.files, m, data, leftover, out, disk.unremoved);
      libs.Follow(m.(files := m.files + leftover));
    }

    /** Phases 1 and 2, and the library view told of the new record. */
    method Commit(m: Manifest, data: seq<seq<int>>, ghost db: Database) returns (ok: bool)
      requires Valid() && |m.files| == |data| && db == Records(disk.files)
      modifies disk, libs
      ensures Valid()
      ensures ok ==> SameExcept(old(disk.files), disk.files, ScratchOf(m) + {Record(m.name)})
      ensures ok ==> Record(m.name) in disk.files && disk.files[Record(m.name)] == Text(m)
      ensures ok ==> forall i :: 0 <= i < |m.files| ==> TempHolds(disk.files, m.files, data, i)
      ensures ok ==> libs.loaded && libs.seen == old(View())[m.name := m]
      ensures !ok ==> Leaves(old(disk.files), disk.files, m, data, [], Undone, disk.unremoved) && View() == old(View())
      ensures !ok ==> libs.loaded == old(libs.loaded)
    {
      ghost var f := disk.files;
      ok := Prepare(disk, m, data);
      if !ok {
        LeavesSame(f, disk.files, m);
        return;
      }
      NewRecord(f, disk.files, m);
      var committed := Records(disk.files);
      var listing := ListNames(committed);
      libs.NoteInstalled(m, committed, listing);
    }

    /** The checks before anything is written: libraries, then ownership. */
    method Checked(m: Manifest, db: Database) returns (ok: bool)
      requires Valid() && db == Records(disk.files)
      modifies libs
      ensures Valid() && View() == old(View()) && (old(libs.loaded) ==> libs.loaded)
      ensures ok ==> NotOwned(db, m)
      ensures ok && !force ==> Passes(View(), db, base, m)
    {
      var listing := ListNames(db);
      ok := libs.CheckRequires(m, base, force, db, listing);
      if !ok {
        return;
      }
      if m.name in db {
        ok := libs.StillRequired(db[m.name], Replacement(m), base, force, db, listing);
        if !ok {
          return;
        }
      }
      ok := forall f | f in m.files :: !OwnedByOther(db, f.path, m.name);
    }
  }
}
