/**
 Whole commands and histories of installs and removals, each failing wherever it may: file
 ownership, verification, and exactly when every library that is needed stays provided.
 */
module Sessions {
  import opened Packages
  import opened FileSystem
  import opened Libraries
  import opened Installer
  import opened Dependencies
  import opened Remover

  datatype Request = Put(m: Manifest, data: seq<seq<int>>) | Take(name: string)

  /** How a request ended. */
  datatype End = PutEnd(put: Installation) | TakeEnd(take: Removal)

  /** What `load_package` has checked of a package to be installed. */
  ghost predicate Loaded(sha: seq<int> -> int, r: Request) {
    r.Put? ==> Members(sha, r.m, r.data)
  }

  // ---- stages ----

  /** The records, and the library view, loaded yet or not. */
  datatype State = State(db: Database, view: Database, loaded: bool)

  /** A request as it was carried out from `s` to `t`. `left` are the files it left over or
      could not unlink; `more`, whether the view is incomplete afterwards. */
  datatype Stage = Stage(s: State, r: Request, end: End, left: seq<FileEntry>, more: bool, t: State)

  /** An installation does to the records and to the view what its end says, and has passed
      both checks on the view. */
  ghost predicate MadePut(base: set<string>, force: bool, g: Stage)
    requires g.r.Put?
  {
    && g.end.PutEnd?
    && g.t.db == With(g.s.db, g.r.m, g.left, g.end.put)
    && g.t.view == With(g.s.view, g.r.m, g.left, g.end.put)
    && (!force && Changed(g.end.put) ==> Passes(g.s.view, g.s.db, base, g.r.m))
  }

  /** And so does a removal, the two branches that leave the view behind among its ends. */
  ghost predicate MadeTake(base: set<string>, force: bool, g: Stage)
    requires g.r.Take?
  {
    && g.end.TakeEnd? && (g.end.take.NotInstalled? <==> g.r.name !in g.s.db)
    && (g.end.take.Kept? || g.end.take.Dropped? || g.end.take.Stale? ==> SomeStuck(g.s.db[g.r.name].files, g.left))
    && g.t.db == RecordsLeft(g.s.db, g.r.name, g.left, g.end.take)
    && g.t.view == ViewLeft(g.s.view, g.s.db, g.r.name, g.left, g.end.take, g.t.loaded)
    && (!force ==> PassedFor(g.s.view, g.s.db, base, g.r.name, g.end.take, g.t.loaded, g.more))
  }

  ghost predicate Made(base: set<string>, force: bool, g: Stage) {
    && (g.s.loaded ==> g.t.loaded) && (!g.t.loaded ==> g.t.view == g.t.db)
    && if g.r.Put? then MadePut(base, force, g) else MadeTake(base, force, g)
  }

  /** The stages follow one another from `s`. */
  ghost predicate Chained(gs: seq<Stage>, s: State) {
    gs == [] || (gs[0].s == s && Chained(gs[1..], gs[0].t))
  }

  ghost function After(gs: seq<Stage>, s: State): State {
    if gs == [] then s else After(gs[1..], gs[0].t)
  }

  /** The stages are those of the requests `rs`, in order, and they ended as `ends` says. */
  ghost predicate Matched(gs: seq<Stage>, rs: seq<Request>, ends: seq<End>) {
    |gs| == |rs| == |ends| && forall i :: 0 <= i < |gs| ==> gs[i].r == rs[i] && gs[i].end == ends[i]
  }

  /** `gs` is what carrying out `rs` from `s` to `t` came to. */
  ghost predicate Ran(base: set<string>, force: bool, gs: seq<Stage>, rs: seq<Request>, ends: seq<End>, s: State,
                      t: State) {
    && Chained(gs, s) && After(gs, s) == t && Matched(gs, rs, ends)
    && forall g :: g in gs ==> Made(base, force, g)
  }

  lemma {:induction false} ChainedSnoc(gs: seq<Stage>, s: State, g: Stage)
    requires Chained(gs, s) && After(gs, s) == g.s
    ensures Chained(gs + [g], s) && After(gs + [g], s) == g.t
  {
    if gs != [] {
      ChainedSnoc(gs[1..], gs[0].t, g);
      assert (gs + [g])[1..] == gs[1..] + [g];
    } else {
      assert (gs + [g])[1..] == [];
    }
  }

  lemma RanNext(base: set<string>, force: bool, gs: seq<Stage>, rs: seq<Request>, ends: seq<End>, s: State, g: Stage,
                i: nat)
    requires i < |rs| && Ran(base, force, gs, rs[..i], ends, s, g.s) && Made(base, force, g) && g.r == rs[i]
    ensures Ran(base, force, gs + [g], rs[..i + 1], ends + [g.end], s, g.t)
  {
    ChainedSnoc(gs, s, g);
    assert rs[..i + 1] == rs[..i] + [rs[i]];
  }

  // ---- libraries ----

  /** What is true of a view, however far behind it is. */
  ghost predicate Sane(s: State) {
    Named(s.db) && Named(s.view) && Agree(s.view, s.db)
  }

  /** A caller can tell beforehand, from the records and the view: what the request would
      take away or make use of is covered. */
  ghost predicate Covered(base: set<string>, s: State, r: Request) {
    match r
    case Put(m, _) => InstallCovered(s.view, s.db, base, m)
    case Take(name) => name in s.db ==> LossCovered(s.view, s.db, base, s.db[name], Nobody)
  }

  /** The request took effect on the libraries. */
  predicate Effective(end: End) {
    match end
    case PutEnd(out) => Changed(out)
    case TakeEnd(out) => Unrecorded(out)
  }

  lemma PutSane(base: set<string>, force: bool, g: Stage)
    requires g.r.Put? && MadePut(base, force, g) && Sane(g.s)
    ensures Sane(g.t)
  {
  }

  lemma TakeSane(base: set<string>, force: bool, g: Stage)
    requires g.r.Take? && MadeTake(base, force, g) && Sane(g.s)
    ensures Sane(g.t)
  {
    ViewFollows(g.s.view, g.s.db, g.r.name, g.left, g.end.take, g.t.loaded);
  }

  /** One request keeps the libraries closed exactly when it is covered or without effect. */
  lemma StageExact(base: set<string>, g: Stage)
    requires Made(base, false, g) && Sane(g.s) && Closed(g.s.db, base)
    ensures Sane(g.t)
    ensures Closed(g.t.db, base) <==> (Effective(g.end) ==> Covered(base, g.s, g.r))
  {
    match g.r
    case Put(m, _) =>
      PutSane(base, false, g);
      ClosureKept(g.s.view, g.s.db, base, m, g.left, if Changed(g.end.put) then g.end.put else Refused);
    case Take(name) =>
      TakeSane(base, false, g);
      RemovalCloses(g.s.view, g.s.db, base, name, g.left, g.end.take);
  }

  /** The libraries stay closed through a command if and only if every request of it that
      took effect was covered by the records and the view it met. */
  lemma {:induction false} ClosedExact(base: set<string>, gs: seq<Stage>, s: State)
    requires Sane(s) && Closed(s.db, base) && Chained(gs, s) && forall g :: g in gs ==> Made(base, false, g)
    ensures (forall g :: g in gs ==> Closed(g.t.db, base)) <==>
      (forall g :: g in gs && Effective(g.end) ==> Covered(base, g.s, g.r))
    ensures (forall g :: g in gs ==> Closed(g.t.db, base)) ==> Closed(After(gs, s).db, base)
  {
    if gs != [] {
      var g := gs[0];
      assert g in gs;
      StageExact(base, g);
      assert forall h :: h in gs <==> h == g || h in gs[1..];
      if Closed(g.t.db, base) {
        ClosedExact(base, gs[1..], g.t);
      }
    }
  }

  /** The request left the view behind the records. */
  predicate Behind(end: End) {
    end.TakeEnd? && Drifts(end.take)
  }

  lemma SyncStage(base: set<string>, g: Stage)
    requires Made(base, false, g) && Sane(g.s) && g.s.view == g.s.db && !Behind(g.end)
    ensures Sane(g.t) && g.t.view == g.t.db && (Closed(g.s.db, base) ==> Closed(g.t.db, base))
  {
    if g.r.Put? {
      PutSane(base, false, g);
      SyncCovers(g.s.db, base, g.r.m, g.r.m, Nobody);
    } else {
      TakeSane(base, false, g);
      ViewFollows(g.s.view, g.s.db, g.r.name, g.left, g.end.take, g.t.loaded);
      if g.r.name in g.s.db {
        SyncCovers(g.s.db, base, g.s.db[g.r.name], g.s.db[g.r.name], Nobody);
      }
    }
    if Closed(g.s.db, base) {
      StageExact(base, g);
    }
  }

  /** So they do while no removal leaves the view behind the records. */
  lemma {:induction false} SyncedCloses(base: set<string>, gs: seq<Stage>, s: State)
    requires Sane(s) && s.view == s.db && Chained(gs, s)
    requires forall g :: g in gs ==> Made(base, false, g) && !Behind(g.end)
    ensures After(gs, s).view == After(gs, s).db && (Closed(s.db, base) ==> Closed(After(gs, s).db, base))
  {
    if gs != [] {
      assert gs[0] in gs && forall g :: g in gs[1..] ==> g in gs;
      SyncStage(base, gs[0]);
      SyncedCloses(base, gs[1..], gs[0].t);
    }
  }

  // ---- files ----

  /** Ends after which `pkg verify` finds nothing new. */
  predicate Clean(end: End) {
    match end
    case PutEnd(out) => VerifiesAfter(out)
    case TakeEnd(out) => !out.Stale? && !out.Undropped?
  }

  /** What a request keeps of the files, from `f` to `g`. */
  ghost predicate FilesSound(f: Files, g: Files, sha: seq<int> -> int, end: End) {
    && Loadable(f) && Loadable(g)
    && (OneOwner(Records(f)) ==> OneOwner(Records(g)))
    && (OneOwner(Records(f)) && Verified(f, sha, Records(f)) && Clean(end) ==> Verified(g, sha, Records(g)))
  }

  lemma TakeFiles(f: Files, g: Files, sha: seq<int> -> int, name: string, kept: seq<FileEntry>, out: Removal)
    requires Loadable(f) && RemovalLeaves(f, g, name, kept, out)
    ensures FilesSound(f, g, sha, TakeEnd(out))
  {
    RemovalRecords(f, g, name, kept, out);
    if OneOwner(Records(f)) {
      RemovalOneOwner(Records(f), name, kept, out);
      if Verified(f, sha, Records(f)) && Clean(TakeEnd(out)) {
        RemovalVerified(f, g, sha, name, kept, out);
      }
    }
  }

  // ---- commands ----

  ghost function Now(mgr: Manager): State
    requires mgr.Valid()
    reads mgr, mgr.disk, mgr.libs
  {
    State(Records(mgr.disk.files), mgr.View(), mgr.libs.loaded)
  }

  method CarryPut(mgr: Manager, r: Request) returns (end: End, ghost g: Stage)
    requires mgr.Valid() && r.Put? && Loaded(mgr.sha, r)
    modifies mgr.disk, mgr.libs
    ensures mgr.Valid() && g.s == old(Now(mgr)) && g.t == Now(mgr) && g.r == r && g.end == end
    ensures Made(mgr.base, mgr.force, g) && FilesSound(old(mgr.disk.files), mgr.disk.files, mgr.sha, end)
  {
    ghost var s := Now(mgr);
    var out, leftover := mgr.InstallLoadedFiles(r.m, r.data);
    end := PutEnd(out);
    g := Stage(s, r, end, leftover, mgr.libs.more, Now(mgr));
  }

  method CarryTake(mgr: Manager, r: Request) returns (end: End, ghost g: Stage)
    requires mgr.Valid() && r.Take?
    modifies mgr.disk, mgr.libs
    ensures mgr.Valid() && g.s == old(Now(mgr)) && g.t == Now(mgr) && g.r == r && g.end == end
    ensures Made(mgr.base, mgr.force, g) && FilesSound(old(mgr.disk.files), mgr.disk.files, mgr.sha, end)
    ensures !mgr.force && old(DependsMet(Records(mgr.disk.files))) ==> DependsMet(Records(mgr.disk.files))
  {
    ghost var f, s := mgr.disk.files, Now(mgr);
    var out, kept := RemoveOne(mgr, r.name);
    if !mgr.force && DependsMet(s.db) {
      RemovalDepends(s.db, r.name, kept, out);
    }
    end := TakeEnd(out);
    g := Stage(s, r, end, kept, mgr.libs.more, Now(mgr));
    TakeFiles(f, mgr.disk.files, mgr.sha, r.name, kept, out);
  }

  /** One request, and the stage it makes. */
  method Carry(mgr: Manager, r: Request) returns (end: End, ghost g: Stage)
    requires mgr.Valid() && Loaded(mgr.sha, r)
    modifies mgr.disk, mgr.libs
    ensures mgr.Valid() && g.s == old(Now(mgr)) && g.t == Now(mgr) && g.r == r && g.end == end
    ensures Made(mgr.base, mgr.force, g) && FilesSound(old(mgr.disk.files), mgr.disk.files, mgr.sha, end)
  {
    if r.Put? {
      end, g := CarryPut(mgr, r);
    } else {
      end, g := CarryTake(mgr, r);
    }
  }

  /** Any installs and removals in one command, each failing wherever it may. The stages are
      those of the requests, each from the records and the view that the one before it left
      (`Ran`), so `ClosedExact` tells when the libraries stay closed. With or without force,
      ownership stays disjoint, and verification holds unless a request ended with files that
      its record does not describe. */
  method Session(mgr: Manager, rs: seq<Request>) returns (ends: seq<End>, ghost gs: seq<Stage>)
    requires mgr.Valid() && forall r :: r in rs ==> Loaded(mgr.sha, r)
    modifies mgr.disk, mgr.libs
    ensures mgr.Valid() && Ran(mgr.base, mgr.force, gs, rs, ends, old(Now(mgr)), Now(mgr))
    ensures old(OneOwner(Records(mgr.disk.files))) ==> OneOwner(Records(mgr.disk.files))
    ensures old(OneOwner(Records(mgr.disk.files)) && Verified(mgr.disk.files, mgr.sha, Records(mgr.disk.files))) ==>
      (forall end :: end in ends ==> Clean(end)) ==> Verified(mgr.disk.files, mgr.sha, Records(mgr.disk.files))
    ensures !mgr.force && old(mgr.InSync() && Closed(Records(mgr.disk.files), mgr.base)) ==>
      (forall end :: end in ends ==> !Behind(end)) ==>
      mgr.InSync() && Closed(Records(mgr.disk.files), mgr.base)
  {
    ends, gs := [], [];
    ghost var s := Now(mgr);
    ghost var sound := OneOwner(s.db) && Verified(mgr.disk.files, mgr.sha, s.db);
    for i := 0 to |rs|
      invariant mgr.Valid() && Ran(mgr.base, mgr.force, gs, rs[..i], ends, s, Now(mgr))
      invariant OneOwner(s.db) ==> OneOwner(Records(mgr.disk.files))
      invariant sound && (forall end :: end in ends ==> Clean(end)) ==>
        Verified(mgr.disk.files, mgr.sha, Records(mgr.disk.files))
    {
      var end;
      ghost var g;
      end, g := Carry(mgr, rs[i]);
      RanNext(mgr.base, mgr.force, gs, rs, ends, s, g, i);
      ends, gs := ends + [end], gs + [g];
      assert end in ends;
    }
    assert rs[..|rs|] == rs;
    RanSynced(mgr.base, mgr.force, gs, rs, ends, s, Now(mgr));
  }

  lemma RanSynced(base: set<string>, force: bool, gs: seq<Stage>, rs: seq<Request>, ends: seq<End>, s: State, t: State)
    requires Ran(base, force, gs, rs, ends, s, t) && Named(s.db)
    ensures !force && s.view == s.db && Closed(s.db, base) && (forall end :: end in ends ==> !Behind(end)) ==>
      t.view == t.db && Closed(t.db, base)
  {
    if !force && s.view == s.db && Closed(s.db, base) && forall end :: end in ends ==> !Behind(end) {
      forall g | g in gs
        ensures !Behind(g.end)
      {
        var i :| 0 <= i < |gs| && gs[i] == g;
        assert ends[i] in ends;
      }
      SyncedCloses(base, gs, s);
    }
  }

  // ---- histories ----

  datatype Command = Command(requests: seq<Request>, force: bool)

  /** A command is a process of its own: its view is not loaded, and so is the records. */
  function Begun(db: Database): State {
    State(db, db, false)
  }

  /** Stages command by command, each command from the records the one before it left. */
  ghost predicate History(base: set<string>, gss: seq<seq<Stage>>, cmds: seq<Command>, endss: seq<seq<End>>,
                          db: Database)
    decreases |cmds|
  {
    && |gss| == |cmds| == |endss|
    && (cmds != [] ==>
          && Ran(base, cmds[0].force, gss[0], cmds[0].requests, endss[0], Begun(db), After(gss[0], Begun(db)))
          && History(base, gss[1..], cmds[1..], endss[1..], After(gss[0], Begun(db)).db))
  }

  ghost function DbAfter(gss: seq<seq<Stage>>, db: Database): Database {
    if gss == [] then db else DbAfter(gss[1..], After(gss[0], Begun(db)).db)
  }

  lemma {:induction false} HistorySnoc(base: set<string>, gss: seq<seq<Stage>>, cmds: seq<Command>,
                                       endss: seq<seq<End>>, db: Database, gs: seq<Stage>, c: Command,
                                       ends: seq<End>, t: State)
    requires History(base, gss, cmds, endss, db)
    requires Ran(base, c.force, gs, c.requests, ends, Begun(DbAfter(gss, db)), t)
    ensures History(base, gss + [gs], cmds + [c], endss + [ends], db) && DbAfter(gss + [gs], db) == t.db
    decreases |cmds|
  {
    if cmds == [] {
      assert (gss + [gs])[1..] == [] && (cmds + [c])[1..] == [] && (endss + [ends])[1..] == [];
    } else {
      HistorySnoc(base, gss[1..], cmds[1..], endss[1..], After(gss[0], Begun(db)).db, gs, c, ends, t);
      assert (gss + [gs])[1..] == gss[1..] + [gs];
      assert (cmds + [c])[1..] == cmds[1..] + [c];
      assert (endss + [ends])[1..] == endss[1..] + [ends];
    }
  }

  /** Whole histories of commands, with and without force. */
  method Commands(disk: Disk, base: set<string>, sha: seq<int> -> int, cmds: seq<Command>)
    returns (endss: seq<seq<End>>, ghost gss: seq<seq<Stage>>)
    requires Loadable(disk.files) && forall c, r :: c in cmds && r in c.requests ==> Loaded(sha, r)
    modifies disk
    ensures Loadable(disk.files)
    ensures History(base, gss, cmds, endss, old(Records(disk.files)))
    ensures DbAfter(gss, old(Records(disk.files))) == Records(disk.files)
    ensures old(OneOwner(Records(disk.files))) ==> OneOwner(Records(disk.files))
    ensures old(OneOwner(Records(disk.files)) && Verified(disk.files, sha, Records(disk.files))) ==>
      (forall ends, end :: ends in endss && end in ends ==> Clean(end)) ==>
      Verified(disk.files, sha, Records(disk.files))
    ensures old(Closed(Records(disk.files), base)) && (forall c :: c in cmds ==> !c.force) ==>
      (forall ends, end :: ends in endss && end in ends ==> !Behind(end)) ==> Closed(Records(disk.files), base)
  {
    endss, gss := [], [];
    ghost var db := Records(disk.files);
    ghost var sound := OneOwner(db) && Verified(disk.files, sha, db);
    for i := 0 to |cmds|
      invariant Loadable(disk.files)
      invariant History(base, gss, cmds[..i], endss, db) && DbAfter(gss, db) == Records(disk.files)
      invariant OneOwner(db) ==> OneOwner(Records(disk.files))
      invariant sound && (forall ends, end :: ends in endss && end in ends ==> Clean(end)) ==>
        Verified(disk.files, sha, Records(disk.files))
    {
      var ends;
      ghost var gs, t;
      assert cmds[i] in cmds && cmds[..i + 1] == cmds[..i] + [cmds[i]];
      ends, gs, t := Run(disk, base, sha, cmds[i]);
      HistorySnoc(base, gss, cmds[..i], endss, db, gs, cmds[i], ends, t);
      endss, gss := endss + [ends], gss + [gs];
      assert ends in endss;
    }
    assert cmds[..|cmds|] == cmds;
    HistoryKeeps(base, gss, cmds, endss, db);
  }

  lemma HistoryKeeps(base: set<string>, gss: seq<seq<Stage>>, cmds: seq<Command>, endss: seq<seq<End>>, db: Database)
    requires History(base, gss, cmds, endss, db) && Named(db)
    ensures Closed(db, base) && (forall c :: c in cmds ==> !c.force) ==>
      (forall ends, end :: ends in endss && end in ends ==> !Behind(end)) ==> Closed(DbAfter(gss, db), base)
  {
    if Closed(db, base) && (forall c :: c in cmds ==> !c.force) {
      if forall ends, end :: ends in endss && end in ends ==> !Behind(end) {
        HistorySynced(base, gss, cmds, endss, db);
      }
    }
  }

  lemma {:induction false} HistorySynced(base: set<string>, gss: seq<seq<Stage>>, cmds: seq<Command>,
                                         endss: seq<seq<End>>, db: Database)
    requires History(base, gss, cmds, endss, db) && Named(db) && Closed(db, base)
    requires forall c :: c in cmds ==> !c.force
    requires forall ends, end :: ends in endss && end in ends ==> !Behind(end)
    ensures Closed(DbAfter(gss, db), base)
    decreases |cmds|
  {
    if cmds != [] {
      var s := Begun(db);
      assert cmds[0] in cmds && endss[0] in endss;
      RanSynced(base, false, gss[0], cmds[0].requests, endss[0], s, After(gss[0], s));
      ChainSane(base, gss[0], s);
      assert forall c :: c in cmds[1..] ==> c in cmds;
      assert forall ends :: ends in endss[1..] ==> ends in endss;
      HistorySynced(base, gss[1..], cmds[1..], endss[1..], After(gss[0], s).db);
    }
  }

  /** One command, as a process of its own. */
  method Run(disk: Disk, base: set<string>, sha: seq<int> -> int, c: Command)
    returns (ends: seq<End>, ghost gs: seq<Stage>, ghost t: State)
    requires Loadable(disk.files) && forall r :: r in c.requests ==> Loaded(sha, r)
    modifies disk
    ensures Loadable(disk.files) && t.db == Records(disk.files)
    ensures Ran(base, c.force, gs, c.requests, ends, Begun(old(Records(disk.files))), t)
    ensures old(OneOwner(Records(disk.files))) ==> OneOwner(Records(disk.files))
    ensures old(OneOwner(Records(disk.files)) && Verified(disk.files, sha, Records(disk.files))) ==>
      (forall end :: end in ends ==> Clean(end)) ==> Verified(disk.files, sha, Records(disk.files))
  {
    var libs := new LibView();
    var mgr := new Manager(disk, libs, base, c.force, sha);
    ends, gs := Session(mgr, c.requests);
    t := Now(mgr);
  }

  /** The libraries stay closed through a history without force if and only if every request
      that took effect was covered when its command made it. */
  lemma {:induction false} HistoryExact(base: set<string>, gss: seq<seq<Stage>>, cmds: seq<Command>,
                                        endss: seq<seq<End>>, db: Database)
    requires History(base, gss, cmds, endss, db) && Named(db) && Closed(db, base)
    requires forall c :: c in cmds ==> !c.force
    ensures (forall gs, g :: gs in gss && g in gs ==> Closed(g.t.db, base)) <==>
      (forall gs, g :: gs in gss && g in gs && Effective(g.end) ==> Covered(base, g.s, g.r))
    ensures (forall gs, g :: gs in gss && g in gs ==> Closed(g.t.db, base)) ==> Closed(DbAfter(gss, db), base)
    decreases |cmds|
  {
    if cmds != [] {
      var gs, s := gss[0], Begun(db);
      assert cmds[0] in cmds && gs in gss;
      ClosedExact(base, gs, s);
      assert forall hs :: hs in gss <==> hs == gs || hs in gss[1..];
      if forall g :: g in gs ==> Closed(g.t.db, base) {
        ChainSane(base, gs, s);
        assert forall c :: c in cmds[1..] ==> c in cmds;
        HistoryExact(base, gss[1..], cmds[1..], endss[1..], After(gs, s).db);
      }
    }
  }

  lemma {:induction false} ChainSane(base: set<string>, gs: seq<Stage>, s: State)
    requires Sane(s) && Chained(gs, s) && forall g :: g in gs ==> Made(base, false, g)
    ensures Sane(After(gs, s))
  {
    if gs != [] {
      assert gs[0] in gs && forall g :: g in gs[1..] ==> g in gs;
      if gs[0].r.Put? {
        PutSane(base, false, gs[0]);
      } else {
        TakeSane(base, false, gs[0]);
      }
      ChainSane(base, gs[1..], gs[0].t);
    }
  }

  // ---- the two branches that leave the view behind ----

  const ONE := Version("1", [1], 0)

  /** A package with one file, which provides and needs the libraries given. */
  function Plain(name: string, provided: seq<string>, needed: seq<string>): Manifest {
    Manifest(name, ONE, [], provided, needed, [FileEntry(name, 0)])
  }

  /** Two removals in one command, the first ending in one of the two branches: what the
      second is checked against, and what it leaves. */
  method Twice(mgr: Manager, a: string, b: string) returns (first: Removal, second: Removal)
    requires mgr.Valid() && !mgr.force && !mgr.libs.loaded && a != b
    requires a in Records(mgr.disk.files) && b in Records(mgr.disk.files)
    modifies mgr.disk, mgr.libs
    ensures mgr.Valid()
    ensures first.Dropped? && old(Records(mgr.disk.files))[a].provided != [] ==>
      Second(old(Records(mgr.disk.files)), old(Records(mgr.disk.files)) - {a}, Records(mgr.disk.files),
             mgr.base, b, second, mgr.libs.more)
    ensures first.Undropped? ==>
      Second(old(Records(mgr.disk.files)) - {a}, old(Records(mgr.disk.files)), Records(mgr.disk.files),
             mgr.base, b, second, mgr.libs.more)
  {
    first := First(mgr, a);
    second := ThenAnother(mgr, b);
  }

  method First(mgr: Manager, a: string) returns (out: Removal)
    requires mgr.Valid() && !mgr.force && !mgr.libs.loaded && a in Records(mgr.disk.files)
    modifies mgr.disk, mgr.libs
    ensures mgr.Valid()
    ensures out.Dropped? && old(Records(mgr.disk.files))[a].provided != [] ==>
      mgr.View() == old(Records(mgr.disk.files)) && Records(mgr.disk.files) == old(Records(mgr.disk.files)) - {a}
    ensures out.Undropped? ==>
      mgr.View() == old(Records(mgr.disk.files)) - {a} && Records(mgr.disk.files) == old(Records(mgr.disk.files))
  {
    ghost var db := Records(mgr.disk.files);
    var kept;
    out, kept := RemoveOne(mgr, a);
    FirstLeaves(db, mgr.base, a, kept, out, mgr.libs.loaded, mgr.libs.more);
  }

  lemma FirstLeaves(db: Database, base: set<string>, a: string, kept: seq<FileEntry>, out: Removal, loaded: bool,
                    more: bool)
    requires a in db && PassedFor(db, db, base, a, out, loaded, more)
    ensures out.Dropped? && db[a].provided != [] ==>
      ViewLeft(db, db, a, kept, out, loaded) == db && RecordsLeft(db, a, kept, out) == db - {a}
    ensures out.Undropped? ==> ViewLeft(db, db, a, kept, out, loaded) == db - {a} && RecordsLeft(db, a, kept, out) == db
  {
  }

  method ThenAnother(mgr: Manager, b: string) returns (out: Removal)
    requires mgr.Valid() && !mgr.force
    modifies mgr.disk, mgr.libs
    ensures mgr.Valid()
    ensures b in old(Records(mgr.disk.files)) ==>
      Second(old(mgr.View()), old(Records(mgr.disk.files)), Records(mgr.disk.files), mgr.base, b, out, mgr.libs.more)
  {
    var kept;
    out, kept := RemoveOne(mgr, b);
  }

  /** A removal of `b` checked against `view`, the records being `db`: it is let through unless
      the view is incomplete or sees the harm, and then the record goes. */
  ghost predicate Second(view: Database, db: Database, after: Database, base: set<string>, b: string, out: Removal,
                         more: bool)
    requires b in db
  {
    && (out.Blocked? ==> Needed(db, b) || more || !NothingLost(view, base, db[b], Nobody))
    && (Unrecorded(out) ==> after == db - {b})
  }

  function Three(): Database {
    map["a" := Plain("a", ["x"], []), "b" := Plain("b", ["x"], []), "c" := Plain("c", [], ["x"])]
  }

  lemma ThreeOwned()
    ensures Named(Three()) && OneOwner(Three())
  {
    var db := Three();
    assert forall n :: n in db ==> db[n].files == [FileEntry(n, 0)];
  }

  /** Two packages provide what a third needs. Once the record of one is dropped because its
      file could not be unlinked and it could not be rewritten, the view sees no harm in
      removing the other, which takes the library from the third. */
  lemma DroppedOpens() returns (db: Database, a: string, b: string)
    ensures Named(db) && OneOwner(db) && Closed(db, {}) && a in db && b in db && a != b
    ensures db[a].provided != [] && db[a].files != []
    ensures !Needed(db - {a}, b) && NothingLost(db, {}, db[b], Nobody) && !Closed(db - {a} - {b}, {})
  {
    db, a, b := Three(), "a", "b";
    ThreeOwned();
    ThreeClosed();
    OnlyUser(db - {"a"} - {"b"});
  }

  lemma ThreeClosed()
    ensures Closed(Three(), {}) && NothingLost(Three(), {}, Three()["b"], Nobody) && !Needed(Three() - {"a"}, "b")
  {
    var db := Three();
    assert db["a"].provided[0] == "x" && db["b"].provided[0] == "x";
    assert Provided(db, {}, "x") && ProvidedByOther(db, "x", "b");
  }

  /** A user of a library alone. */
  lemma OnlyUser(db: Database)
    requires db == map["c" := Plain("c", [], ["x"])]
    ensures !Closed(db, {})
  {
    assert db["c"].needed[0] == "x";
    assert "c" in db && "x" in db["c"].needed && !Provided(db, {}, "x");
  }

  /** Once a user's files are gone and its record could not be dropped, the view sees no harm
      in removing its library, which the record that is left needs. */
  lemma UndroppedOpens() returns (db: Database, a: string, b: string)
    ensures Named(db) && OneOwner(db) && Closed(db, {}) && a in db && b in db && a != b
    ensures !Needed(db, b) && NothingLost(db - {a}, {}, db[b], Nobody) && !Closed(db - {b}, {})
  {
    db := map["b" := Plain("b", ["x"], []), "c" := Plain("c", [], ["x"])];
    a, b := "c", "b";
    assert forall n :: n in db ==> db[n].files == [FileEntry(n, 0)];
    assert db["b"].provided[0] == "x";
    assert Provided(db, {}, "x") && !NeededByOther(db - {"c"}, "x", "b");
    OnlyUser(db - {"b"});
  }
}
