/**
 Removing a package (`cmd_remove`): its files, its record and the library view.
 */
module Remover {
  import opened Packages
  import opened FileSystem
  import opened Libraries
  import opened Installer
  import opened Dependencies

  /** Everything but Removed is the source's EXIT_FAILED. */
  datatype Removal =
    | NotInstalled
    | Blocked     // a dependant, or a user of its libraries
    | Kept        // files stuck; the record shrunk to them
    | Dropped     // files stuck and the record not writable; dropped
    | Stale       // files stuck and the record neither writable nor removable
    | Undropped   // files gone, the record not removable
    | Removed

  // ---- the compaction ----

  /** The entries of `fs` marked in `stuck`, in order. */
  function Marked(fs: seq<FileEntry>, stuck: seq<bool>): (r: seq<FileEntry>)
    requires |fs| == |stuck|
    ensures |r| <= |fs|
    ensures forall e :: e in r ==> e in fs
  {
    if fs == [] then []
    else
      var k := |fs| - 1;
      Marked(fs[..k], stuck[..k]) + (if stuck[k] then [fs[k]] else [])
  }

  /** Entry `e` is marked, before place `k`. */
  ghost predicate MarkedBefore(fs: seq<FileEntry>, stuck: seq<bool>, e: FileEntry, k: nat)
    requires k <= |fs| == |stuck|
  {
    exists i :: 0 <= i < k && stuck[i] && fs[i] == e
  }

  lemma MarkedPrefix(fs: seq<FileEntry>, stuck: seq<bool>, e: FileEntry, k: nat)
    requires k <= |fs| == |stuck|
    ensures MarkedBefore(fs[..k], stuck[..k], e, k) == MarkedBefore(fs, stuck, e, k)
  {
    assert forall i :: 0 <= i < k ==> stuck[..k][i] == stuck[i] && fs[..k][i] == fs[i];
  }

  lemma {:induction false} MarkedIn(fs: seq<FileEntry>, stuck: seq<bool>, e: FileEntry)
    requires |fs| == |stuck|
    ensures e in Marked(fs, stuck) <==> MarkedBefore(fs, stuck, e, |fs|)
  {
    if fs != [] {
      var k := |fs| - 1;
      MarkedIn(fs[..k], stuck[..k], e);
      MarkedPrefix(fs, stuck, e, k);
      assert MarkedBefore(fs, stuck, e, |fs|) <==> MarkedBefore(fs, stuck, e, k) || (stuck[k] && fs[k] == e);
    }
  }

  lemma {:induction false} MarkedDistinct(fs: seq<FileEntry>, stuck: seq<bool>)
    requires |fs| == |stuck| && DistinctPaths(fs)
    ensures DistinctPaths(Marked(fs, stuck))
  {
    if fs != [] {
      var k := |fs| - 1;
      assert forall i :: 0 <= i < k ==> fs[..k][i] == fs[i];
      MarkedDistinct(fs[..k], stuck[..k]);
      var r := Marked(fs[..k], stuck[..k]);
      forall i | 0 <= i < |r|
        ensures r[i].path != fs[k].path
      {
        assert r[i] in fs[..k];
      }
    }
  }

  /** The files `fs[..|stuck|]` have been unlinked, except those whose unlink failed. */
  ghost predicate Unlinked(f: Files, g: Files, fs: seq<FileEntry>, stuck: seq<bool>)
    requires |stuck| <= |fs|
  {
    && SameExcept(f, g, FilesOf(fs[..|stuck|]))
    && (forall p :: p in g ==> Same(f, g, p))
    && (forall i :: 0 <= i < |stuck| ==> stuck[i] || File(fs[i].path) !in g)
    && (DistinctPaths(fs) ==> forall i :: 0 <= i < |stuck| && stuck[i] ==> Same(f, g, File(fs[i].path)))
  }

  lemma UnlinkedNext(f: Files, g: Files, h: Files, fs: seq<FileEntry>, stuck: seq<bool>, b: bool)
    requires |stuck| < |fs| && Unlinked(f, g, fs, stuck)
    requires var p := File(fs[|stuck|].path); if b then h == g else h == g - {p}
    ensures Unlinked(f, h, fs, stuck + [b])
  {
    var k := |stuck|;
    assert fs[..k + 1] == fs[..k] + [fs[k]];
    assert FilesOf(fs[..k + 1]) == FilesOf(fs[..k]) + {File(fs[k].path)};
    SameExceptTrans(f, g, h, FilesOf(fs[..k]), {File(fs[k].path)});
    if DistinctPaths(fs) && b {
      assert File(fs[k].path) !in FilesOf(fs[..k]);
    }
  }

  /** `s` is `all` with the entries kept of the first `k` moved to the front. */
  ghost predicate Compacted(s: seq<FileEntry>, all: seq<FileEntry>, stuck: seq<bool>, k: nat, kept: nat) {
    && |s| == |all| && |stuck| == k <= |all| && kept <= k
    && s[..kept] == Marked(all[..k], stuck)
    && s[k..] == all[k..]
  }

  lemma CompactedNext(s: seq<FileEntry>, s': seq<FileEntry>, all: seq<FileEntry>, stuck: seq<bool>, k: nat,
                      kept: nat, b: bool)
    requires Compacted(s, all, stuck, k, kept) && k < |all|
    requires s' == if b then s[kept := s[k]] else s
    ensures Compacted(s', all, stuck + [b], k + 1, if b then kept + 1 else kept)
  {
    MarkedNext(all, stuck, k, b);
    assert s[k] == s[k..][0] && all[k] == all[k..][0];
    assert s'[k + 1..] == s[k..][1..] && all[k + 1..] == all[k..][1..];
    if b {
      assert s'[..kept + 1] == s[..kept] + [s[k]];
    }
  }

  /** The package's files unlinked in order; the entries of those that cannot be are
      moved to the front of the same array. */
  method RemoveFiles(disk: Disk, fs: array<FileEntry>) returns (kept: nat, ghost stuck: seq<bool>)
    modifies disk, fs
    ensures |stuck| == fs.Length && kept <= fs.Length
    ensures fs[..kept] == Marked(old(fs[..]), stuck)
    ensures Unlinked(old(disk.files), disk.files, old(fs[..]), stuck)
  {
    kept, stuck := 0, [];
    ghost var all, f := fs[..], disk.files;
    for k := 0 to fs.Length
      invariant Compacted(fs[..], all, stuck, k, kept)
      invariant Unlinked(f, disk.files, all, stuck)
    {
      ghost var s, g := fs[..], disk.files;
      var e := fs[k];
      assert e == s[k..][0];
      var r := disk.Unlink(File(e.path));
      assert r.NoEntry? ==> g == g - {File(e.path)};
      UnlinkedNext(f, g, disk.files, all, stuck, r.Failed?);
      if r.Failed? {
        fs[kept] := e;
      }
      CompactedNext(s, fs[..], all, stuck, k, kept, r.Failed?);
      kept := if r.Failed? then kept + 1 else kept;
      stuck := stuck + [r.Failed?];
    }
    assert all[..fs.Length] == all;
    assert fs[..kept] == fs[..][..kept];
  }

  lemma MarkedNext(fs: seq<FileEntry>, stuck: seq<bool>, k: nat, b: bool)
    requires |stuck| == k < |fs|
    ensures Marked(fs[..k + 1], stuck + [b]) == Marked(fs[..k], stuck) + (if b then [fs[k]] else [])
  {
    assert fs[..k + 1][..k] == fs[..k];
    assert (stuck + [b])[..k] == stuck;
  }

  // ---- what each outcome leaves ----

  /** `kept` lists every file of `was` still on disk; and, no path being repeated, none
      that this removal took. */
  ghost predicate Keeps(f: Files, g: Files, was: seq<FileEntry>, kept: seq<FileEntry>) {
    && (forall e :: e in kept ==> e in was)
    && (forall e :: e in was && File(e.path) in g ==> e in kept)
    && (DistinctPaths(was) ==> DistinctPaths(kept) && forall e :: e in kept ==> Same(f, g, File(e.path)))
  }

  ghost predicate Gone(g: Files, was: seq<FileEntry>) {
    forall e :: e in was ==> File(e.path) !in g
  }

  /** Some of the package's files could not be unlinked. */
  ghost predicate SomeStuck(was: seq<FileEntry>, kept: seq<FileEntry>) {
    kept != [] && forall e :: e in kept ==> e in was
  }

  ghost predicate RemovalLeaves(f: Files, g: Files, name: string, kept: seq<FileEntry>, out: Removal)
    requires Loadable(f)
  {
    if out.NotInstalled? then g == f && name !in Records(f)
    else
      && name in Records(f)
      && var m := Records(f)[name];
      && SameExcept(f, g, FilesOf(m.files) + RecordPaths(name))
      && match out
         case NotInstalled => true
         case Blocked => g == f
         case Kept =>
           && SomeStuck(m.files, kept) && Keeps(f, g, m.files, kept)
           && Record(name) in g && g[Record(name)] == Text(m.(files := kept))
         case Dropped => SomeStuck(m.files, kept) && Record(name) !in g
         case Stale => SomeStuck(m.files, kept) && Same(f, g, Record(name))
         case Undropped => Same(f, g, Record(name)) && Gone(g, m.files)
         case Removed => Record(name) !in g && Gone(g, m.files)
  }

  /** When every recorded file was there and no path is repeated, the shrunk record
      lists exactly the files still on disk. */
  lemma KeptExactly(f: Files, g: Files, name: string, kept: seq<FileEntry>, e: FileEntry)
    requires Loadable(f) && RemovalLeaves(f, g, name, kept, Kept)
    requires DistinctPaths(Records(f)[name].files) && e in Records(f)[name].files
    requires forall x :: x in Records(f)[name].files ==> File(x.path) in f
    ensures Loadable(g) && name in Records(g) && (e in Records(g)[name].files <==> File(e.path) in g)
  {
    RemovalRecords(f, g, name, kept, Kept);
    if e in kept {
      assert Same(f, g, File(e.path));
    }
  }

  lemma MarkedKeeps(f: Files, g: Files, fs: seq<FileEntry>, stuck: seq<bool>)
    requires |stuck| == |fs| && Unlinked(f, g, fs, stuck)
    ensures Keeps(f, g, fs, Marked(fs, stuck))
    ensures Marked(fs, stuck) == [] ==> Gone(g, fs)
  {
    var kept := Marked(fs, stuck);
    forall e | e in fs && File(e.path) in g
      ensures e in kept
    {
      var i :| 0 <= i < |fs| && fs[i] == e;
      MarkedIn(fs, stuck, e);
    }
    if DistinctPaths(fs) {
      MarkedDistinct(fs, stuck);
      forall e | e in kept
        ensures Same(f, g, File(e.path))
      {
        MarkedIn(fs, stuck, e);
      }
    }
  }

  ghost function RecordsLeft(db: Database, name: string, kept: seq<FileEntry>, out: Removal): Database {
    match out
    case NotInstalled => db
    case Blocked => db
    case Kept => if name in db then db[name := db[name].(files := kept)] else db
    case Dropped => db - {name}
    case Stale => db
    case Undropped => db
    case Removed => db - {name}
  }

  lemma RemovalRecords(f: Files, g: Files, name: string, kept: seq<FileEntry>, out: Removal)
    requires Loadable(f) && RemovalLeaves(f, g, name, kept, out)
    ensures Loadable(g) && Records(g) == RecordsLeft(Records(f), name, kept, out)
  {
    if !out.NotInstalled? && !out.Blocked? {
      var m := Records(f)[name];
      var touched := FilesOf(m.files) + RecordPaths(name);
      assert forall p :: p in touched && p.Record? ==> p == Record(name);
      if out.Kept? {
        RecordsAfter(f, g, touched, m.(files := kept));
      } else {
        OtherRecords(f, g, touched, name);
      }
    }
  }

  lemma OtherRecords(f: Files, g: Files, touched: set<Path>, name: string)
    requires Loadable(f) && SameExcept(f, g, touched)
    requires forall p :: p in touched && p.Record? ==> p == Record(name)
    requires Record(name) !in g || Same(f, g, Record(name))
    ensures Loadable(g)
    ensures Records(g) == if Record(name) in g then Records(f) else Records(f) - {name}
  {
    forall n | n != name
      ensures Same(f, g, Record(n))
    {
      assert Record(n) !in touched;
    }
    SameButOne(Records(f), Records(g), name);
  }

  lemma SameButOne(db: Database, after: Database, name: string)
    requires forall n :: n != name ==> (n in db <==> n in after) && (n in db ==> after[n] == db[n])
    requires name in after ==> name in db && after[name] == db[name]
    ensures after == if name in after then db else db - {name}
  {
  }

  lemma RemovalOneOwner(db: Database, name: string, kept: seq<FileEntry>, out: Removal)
    requires OneOwner(db) && Named(db)
    requires out.Kept? && name in db ==> forall e :: e in kept ==> e in db[name].files
    ensures OneOwner(RecordsLeft(db, name, kept, out))
  {
    if out.Kept? && name in db {
      forall e | e in kept
        ensures HasPath(db[name].files, e.path)
      {
        assert e in db[name].files;
      }
      OneOwnerAfter(db, db[name].(files := kept));
    }
  }

  /** A removal, a partial one included, leaves the rest of the tree verifying. */
  lemma RemovalVerified(f: Files, g: Files, sha: seq<int> -> int, name: string, kept: seq<FileEntry>, out: Removal)
    requires Loadable(f) && RemovalLeaves(f, g, name, kept, out) && !out.Stale? && !out.Undropped?
    requires OneOwner(Records(f)) && Verified(f, sha, Records(f))
    ensures Loadable(g) && Verified(g, sha, Records(g))
  {
    RemovalRecords(f, g, name, kept, out);
    var db, after := Records(f), Records(g);
    forall n | n in after
      ensures DistinctPaths(after[n].files) && forall e :: e in after[n].files ==> Intact(g, sha, e)
    {
      forall e | e in after[n].files
        ensures Intact(g, sha, e)
      {
        assert e in db[n].files && Intact(f, sha, e);
        if n != name && name in db {
          assert HasPath(db[n].files, e.path) && !HasPath(db[name].files, e.path);
        }
        assert Same(f, g, File(e.path));
      }
    }
  }

  /** The dependants scan: without --force nothing loses a dependency. */
  lemma RemovalDepends(db: Database, name: string, kept: seq<FileEntry>, out: Removal)
    requires DependsMet(db) && (!out.Blocked? && !out.NotInstalled? ==> !Needed(db, name))
    ensures DependsMet(RecordsLeft(db, name, kept, out))
  {
    var after := RecordsLeft(db, name, kept, out);
    forall n, d | n in after && d in after[n].depends
      ensures d.name in after && Satisfied(d, after[d.name].version)
    {
      assert n in db && d in db[n].depends;
    }
  }

  /** The record is gone. */
  predicate Unrecorded(out: Removal) {
    out.Dropped? || out.Removed?
  }

  /** What the library view makes of a removal. It follows one whose files are all gone,
      record or no record; a record dropped because it could not be rewritten stays in a view
      that was loaded. */
  ghost function ViewLeft(view: Database, db: Database, name: string, kept: seq<FileEntry>, out: Removal,
                          loaded: bool): Database {
    match out
    case NotInstalled => view
    case Blocked => view
    case Kept =>
      if name in db && name in view && EntOf(view[name]) == EntOf(db[name])
      then view[name := db[name].(files := kept)]
      else view
    case Dropped => if loaded then view else db - {name}
    case Stale => view
    case Undropped => view - {name}
    case Removed => view - {name}
  }

  /** The removals that leave the view behind the records. */
  predicate Drifts(out: Removal) {
    out.Dropped? || out.Undropped?
  }

  lemma ViewFollows(view: Database, db: Database, name: string, kept: seq<FileEntry>, out: Removal, loaded: bool)
    requires Agree(view, db) && Named(db) && Named(view)
    ensures Agree(ViewLeft(view, db, name, kept, out, loaded), RecordsLeft(db, name, kept, out))
    ensures view == db && !Drifts(out) ==>
      ViewLeft(view, db, name, kept, out, loaded) == RecordsLeft(db, name, kept, out)
  {
  }

  /** A removal that the check on the view lets through leaves the libraries closed if and
      only if what it takes away is covered; no other end opens them. */
  lemma RemovalCloses(view: Database, db: Database, base: set<string>, name: string, kept: seq<FileEntry>, out: Removal)
    requires Named(db) && Agree(view, db) && Closed(db, base)
    requires Unrecorded(out) ==> name in db && NothingLost(view, base, db[name], Nobody)
    ensures Closed(RecordsLeft(db, name, kept, out), base) <==>
      (Unrecorded(out) ==> LossCovered(view, db, base, db[name], Nobody))
  {
    if Unrecorded(out) {
      DriftedRemoval(view, db, base, name);
    } else if out.Kept? && name in db {
      SameLibsCloses(db, base, db[name].(files := kept));
    }
  }

  /** The dependants scan and the library check of `cmd_remove`. */
  method Allowed(mgr: Manager, m: Manifest, db: Database) returns (ok: bool)
    requires mgr.Valid() && db == Records(mgr.disk.files) && m.name in db && m == db[m.name]
    modifies mgr.libs
    ensures mgr.Valid() && mgr.View() == old(mgr.View())
    ensures old(mgr.libs.loaded) || |m.provided| > 0 ==> mgr.libs.loaded
    ensures ok && !mgr.force ==> !Needed(db, m.name) && NothingLost(mgr.View(), mgr.base, m, Nobody)
    ensures !ok ==> Needed(db, m.name) || mgr.libs.more || !NothingLost(mgr.View(), mgr.base, m, Nobody)
  {
    var listing := ListNames(db);
    var blocked := Needed(db, m.name) && !mgr.force;
    var free := mgr.libs.StillRequired(m, Nobody, mgr.base, mgr.force, db, listing);
    ok := !blocked && free;
  }

  /** `cmd_remove` for one name, not a dry run. Without force it is refused exactly for a
      dependant, a library that the view says would be missed, or an incomplete view. */
  method RemoveOne(mgr: Manager, name: string) returns (out: Removal, kept: seq<FileEntry>)
    requires mgr.Valid()
    modifies mgr.disk, mgr.libs
    ensures mgr.Valid()
    ensures RemovalLeaves(old(mgr.disk.files), mgr.disk.files, name, kept, out)
    ensures Records(mgr.disk.files) == RecordsLeft(old(Records(mgr.disk.files)), name, kept, out)
    ensures mgr.View() == ViewLeft(old(mgr.View()), old(Records(mgr.disk.files)), name, kept, out, mgr.libs.loaded)
    ensures old(mgr.libs.loaded) ==> mgr.libs.loaded
    ensures !mgr.force ==>
      PassedFor(old(mgr.View()), old(Records(mgr.disk.files)), mgr.base, name, out, mgr.libs.loaded, mgr.libs.more)
  {
    ghost var f := mgr.disk.files;
    var db := Records(mgr.disk.files);
    if name !in db {
      return NotInstalled, [];
    }
    var m := db[name];
    var ok := Allowed(mgr, m, db);
    if !ok {
      return Blocked, [];
    }
    out, kept := TakeAway(mgr.disk, m);
    RemovalRecords(f, mgr.disk.files, name, kept, out);
    TellView(mgr, m, kept, out, db);
  }

  /** What an end says of the checks, `loaded` and `more` being the view's flags then. */
  ghost predicate PassedFor(view: Database, db: Database, base: set<string>, name: string, out: Removal,
                            loaded: bool, more: bool) {
    if name !in db then out.NotInstalled?
    else if out.Blocked? then Needed(db, name) || more || !NothingLost(view, base, db[name], Nobody)
    else
      && !out.NotInstalled? && !Needed(db, name) && NothingLost(view, base, db[name], Nobody)
      && (|db[name].provided| > 0 ==> loaded)
  }

  /** The files, then the record. */
  method TakeAway(disk: Disk, m: Manifest) returns (out: Removal, kept: seq<FileEntry>)
    requires Loadable(disk.files) && m.name in Records(disk.files) && m == Records(disk.files)[m.name]
    modifies disk
    ensures !out.NotInstalled? && !out.Blocked?
    ensures RemovalLeaves(old(disk.files), disk.files, m.name, kept, out)
  {
    ghost var f := disk.files;
    var fs := new FileEntry[|m.files|](i requires 0 <= i < |m.files| => m.files[i]);
    assert fs[..] == m.files;
    var n, stuck := RemoveFiles(disk, fs);
    kept := fs[..n];
    MarkedKeeps(f, disk.files, m.files, stuck);
    AllUnlinked(f, disk.files, m.files, stuck);
    if n > 0 {
      out := ShrinkRecord(disk, m, kept, f);
    } else {
      out := DropRecord(disk, m, f);
    }
  }

  lemma AllUnlinked(f: Files, g: Files, fs: seq<FileEntry>, stuck: seq<bool>)
    requires |stuck| == |fs| && Unlinked(f, g, fs, stuck)
    ensures SameExcept(f, g, FilesOf(fs))
  {
    assert fs[..|stuck|] == fs;
  }

  /** Files are stuck: the record is rewritten to them, or else dropped. */
  method ShrinkRecord(disk: Disk, m: Manifest, kept: seq<FileEntry>, ghost f: Files) returns (out: Removal)
    requires Loadable(f) && m.name in Records(f) && m == Records(f)[m.name]
    requires SameExcept(f, disk.files, FilesOf(m.files)) && Keeps(f, disk.files, m.files, kept) && kept != []
    modifies disk
    ensures out.Kept? || out.Dropped? || out.Stale?
    ensures RemovalLeaves(f, disk.files, m.name, kept, out)
  {
    ghost var g := disk.files;
    var ok := CommitRecord(disk, m.(files := kept));
    ghost var h := disk.files;
    SameExceptTrans(f, g, h, FilesOf(m.files), RecordPaths(m.name));
    if ok {
      KeepsLater(f, g, h, m, kept);
      return Kept;
    }
    ok := disk.InstalledDrop(m.name);
    SameExceptTrans(f, h, disk.files, FilesOf(m.files) + RecordPaths(m.name), RecordPaths(m.name));
    if !ok {
      assert Same(f, g, Record(m.name)) && Same(g, h, Record(m.name));
    }
    return if ok then Dropped else Stale;
  }

  lemma KeepsLater(f: Files, g: Files, h: Files, m: Manifest, kept: seq<FileEntry>)
    requires Keeps(f, g, m.files, kept) && SameExcept(g, h, RecordPaths(m.name))
    ensures Keeps(f, h, m.files, kept)
  {
    forall e: FileEntry
      ensures Same(g, h, File(e.path))
    {
    }
  }

  /** No file is left: the record goes. */
  method DropRecord(disk: Disk, m: Manifest, ghost f: Files) returns (out: Removal)
    requires Loadable(f) && m.name in Records(f) && m == Records(f)[m.name]
    requires SameExcept(f, disk.files, FilesOf(m.files)) && Gone(disk.files, m.files)
    modifies disk
    ensures out.Removed? || out.Undropped?
    ensures RemovalLeaves(f, disk.files, m.name, [], out)
  {
    ghost var g := disk.files;
    var ok := disk.InstalledDrop(m.name);
    SameExceptTrans(f, g, disk.files, FilesOf(m.files), RecordPaths(m.name));
    forall e | e in m.files
      ensures File(e.path) !in disk.files
    {
      assert Same(g, disk.files, File(e.path));
    }
    assert Same(f, g, Record(m.name));
    return if ok then Removal.Removed else Undropped;
  }

  /** `libs_note_removed`, where `cmd_remove` calls it. */
  method TellView(mgr: Manager, m: Manifest, kept: seq<FileEntry>, out: Removal, ghost db: Database)
    requires mgr.Valid() && Named(db) && m.name in db && m == db[m.name]
    requires Records(mgr.disk.files) == RecordsLeft(db, m.name, kept, out)
    requires !out.NotInstalled? && !out.Blocked?
    modifies mgr.libs
    ensures mgr.Valid() && (old(mgr.libs.loaded) ==> mgr.libs.loaded)
    ensures mgr.View() == ViewLeft(old(mgr.libs.Believes(db)), db, m.name, kept, out, mgr.libs.loaded)
  {
    if out.Removed? || out.Undropped? {
      var now := Records(mgr.disk.files);
      var listing := ListNames(now);
      mgr.libs.NoteRemoved(m.name, now, listing);
      assert (db - {m.name}) - {m.name} == db - {m.name};
    } else if out.Kept? && mgr.libs.loaded && m.name in mgr.libs.seen && EntOf(mgr.libs.seen[m.name]) == EntOf(m) {
      mgr.libs.Follow(m.(files := kept));
    }
  }
}
