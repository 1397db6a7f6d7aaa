/**
 A settled plan carried out on the disk (`cmd_install` and `cmd_upgrade` after
 `plan_build`): package by package, stopping at the first that fails.
 */
module PlanRunner {
  import opened Packages
  import opened FileSystem
  import opened Installer
  import Resolver

  /** The same packages, at the same versions, with the same dependencies. */
  ghost predicate Alike(db: Database, db': Database) {
    && db.Keys == db'.Keys
    && forall n :: n in db ==> db[n].version == db'[n].version && db[n].depends == db'[n].depends
  }

  lemma AlikeMet(db: Database, db': Database)
    requires Alike(db, db') && DependsMet(db)
    ensures DependsMet(db')
  {
    forall n, d | n in db' && d in db'[n].depends
      ensures d.name in db' && Satisfied(d, db'[d.name].version)
    {
      assert n in db && d in db[n].depends;
    }
  }

  lemma AlikeNext(db: Database, db': Database, m: Manifest, fs: seq<FileEntry>)
    requires Alike(db, db')
    ensures Alike(db[m.name := m], db'[m.name := m.(files := fs)])
  {
  }

  /** The records are what the plan's first `k` packages make of `db`. */
  ghost predicate Reached(db: Database, ms: seq<Manifest>, k: nat, records: Database)
    requires k <= |ms|
  {
    Alike(Resolver.Applied(db, ms[..k]), records)
  }

  lemma ReachedNext(db: Database, ms: seq<Manifest>, k: nat, records: Database, fs: seq<FileEntry>)
    requires k < |ms| && Reached(db, ms, k, records)
    ensures Reached(db, ms, k + 1, records[ms[k].name := ms[k].(files := fs)])
  {
    assert ms[..k + 1][..k] == ms[..k] && ms[..k + 1][k] == ms[k];
    AlikeNext(Resolver.Applied(db, ms[..k]), records, ms[k], fs);
  }

  /** The packages of a settled plan, installed in order. However it ends (a package that
      cannot be fetched, refused, undone, stuck or left untracked), every package in the
      records has its dependencies met; and when it ends well, so are the requests. */
  method Install(mgr: Manager, plan: seq<Resolver.Entry>, ms: seq<Manifest>, data: seq<seq<seq<int>>>,
                 ghost index: seq<Resolver.Entry>, ghost store: Resolver.Store) returns (done: nat, ok: bool)
    requires mgr.Valid() && DependsMet(Records(mgr.disk.files))
    requires Resolver.Settled(index, Records(mgr.disk.files), store, plan) && Resolver.Carries(ms, plan)
    requires |data| == |ms| && forall i :: 0 <= i < |ms| ==> Members(mgr.sha, ms[i], data[i])
    modifies mgr.disk, mgr.libs
    ensures mgr.Valid() && done <= |ms| && Reached(old(Records(mgr.disk.files)), ms, done, Records(mgr.disk.files))
    ensures DependsMet(Records(mgr.disk.files))
    ensures ok ==> done == |ms| && forall r ::
      Resolver.InstalledMeets(Resolver.Applied(old(Records(mgr.disk.files)), ms), r) ==>
      Resolver.InstalledMeets(Records(mgr.disk.files), r)
  {
    ghost var db := Records(mgr.disk.files);
    done, ok := 0, true;
    while ok && done < |ms|
      invariant mgr.Valid() && done <= |ms| && Reached(db, ms, done, Records(mgr.disk.files))
      decreases if ok then |ms| - done + 1 else 0
    {
      var put;
      put, ok := InstallEntry(mgr, db, ms, done, data[done]);
      if put {
        done := done + 1;
      }
    }
    Resolver.EveryPrefixMet(index, db, store, plan, ms, done);
    AlikeMet(Resolver.Applied(db, ms[..done]), Records(mgr.disk.files));
    assert done == |ms| ==> ms[..done] == ms;
  }

  /** `install_entry`: `put` tells whether the package's record was committed. Fetching it,
      or keeping a copy for a later rollback, may fail too. */
  method InstallEntry(mgr: Manager, ghost db: Database, ms: seq<Manifest>, k: nat, data: seq<seq<int>>)
    returns (put: bool, ok: bool)
    requires mgr.Valid() && k < |ms| && Members(mgr.sha, ms[k], data) && Reached(db, ms, k, Records(mgr.disk.files))
    modifies mgr.disk, mgr.libs
    ensures mgr.Valid() && (ok ==> put)
    ensures Reached(db, ms, if put then k + 1 else k, Records(mgr.disk.files))
  {
    if * {
      return false, false;
    }
    ghost var before := Records(mgr.disk.files);
    var out, leftover := mgr.InstallLoadedFiles(ms[k], data);
    var kept: bool := *;
    put, ok := Changed(out), out.Installed? && kept;
    ReachedNext(db, ms, k, before, ms[k].files + leftover);
  }
}
