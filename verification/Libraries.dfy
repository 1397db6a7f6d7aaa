/**
 Shared libraries: the view of the installed packages' libraries that one command
 keeps (`g_libs`), the checks that read it, and the closure they defend.
 */
module Libraries {
  import opened Packages

  datatype LibEnt = LibEnt(name: string, prov: seq<string>, req: seq<string>)

  datatype Next = Nobody | Replacement(m: Manifest)

  const LIB_SCAN: nat := 128

  // ---- what the checks are for ----

  /** The base system or an installed package provides `so`. */
  ghost predicate Provided(db: Database, base: set<string>, so: string) {
    so in base || exists n :: n in db && so in db[n].provided
  }

  /** Every library an installed package needs is provided. */
  ghost predicate Closed(db: Database, base: set<string>) {
    forall n, so :: n in db && so in db[n].needed ==> Provided(db, base, so)
  }

  ghost predicate ProvidedByOther(db: Database, so: string, self: string) {
    exists n :: n in db && n != self && so in db[n].provided
  }

  ghost predicate NeededByOther(db: Database, so: string, self: string) {
    exists n :: n in db && n != self && so in db[n].needed
  }

  ghost predicate NeedsFound(db: Database, base: set<string>, m: Manifest) {
    forall so :: so in m.needed ==> so in m.provided || so in base || ProvidedByOther(db, so, m.name)
  }

  /** Losing `was`'s library `so` hurts no other package. */
  ghost predicate SafeToLose(db: Database, base: set<string>, was: Manifest, next: Next, so: string) {
    || (next.Replacement? && so in next.m.provided)
    || so in base
    || ProvidedByOther(db, so, was.name)
    || !NeededByOther(db, so, was.name)
  }

  ghost predicate NothingLost(db: Database, base: set<string>, was: Manifest, next: Next) {
    forall so :: so in was.provided ==> SafeToLose(db, base, was, next, so)
  }

  lemma StillProvided(db: Database, after: Database, base: set<string>, so: string, self: string)
    requires forall n :: n in db && n != self ==> n in after && after[n] == db[n]
    requires so in base || ProvidedByOther(db, so, self)
    ensures Provided(after, base, so)
  {
    if so !in base {
      var n :| n in db && n != self && so in db[n].provided;
      assert n in after && so in after[n].provided;
    }
  }

  /** The two checks refuse exactly the installations that would open the closure. */
  lemma InstallCloses(db: Database, base: set<string>, m: Manifest)
    requires Named(db) && Closed(db, base)
    ensures Closed(db[m.name := m], base) <==>
      NeedsFound(db, base, m) && (m.name in db ==> NothingLost(db, base, db[m.name], Replacement(m)))
  {
    var after := db[m.name := m];
    if NeedsFound(db, base, m) && (m.name in db ==> NothingLost(db, base, db[m.name], Replacement(m))) {
      forall n, so | n in after && so in after[n].needed
        ensures Provided(after, base, so)
      {
        if so in m.provided {
          assert m.name in after && so in after[m.name].provided;
        } else {
          if n != m.name {
            assert n in db && so in db[n].needed && Provided(db, base, so);
            assert m.name in db && so in db[m.name].provided ==>
              SafeToLose(db, base, db[m.name], Replacement(m), so);
          }
          StillProvided(db, after, base, so, m.name);
        }
      }
    }
    if Closed(after, base) {
      forall so | so in m.needed
        ensures so in m.provided || so in base || ProvidedByOther(db, so, m.name)
      {
        assert m.name in after && so in after[m.name].needed && Provided(after, base, so);
      }
      if m.name in db {
        forall so | so in db[m.name].provided && NeededByOther(db, so, m.name)
          ensures SafeToLose(db, base, db[m.name], Replacement(m), so)
        {
          var n :| n in db && n != m.name && so in db[n].needed;
          assert n in after && so in after[n].needed && Provided(after, base, so);
        }
      }
    }
  }

  /** And the removals. */
  lemma RemoveCloses(db: Database, base: set<string>, name: string)
    requires Named(db) && Closed(db, base) && name in db
    ensures Closed(db - {name}, base) <==> NothingLost(db, base, db[name], Nobody)
  {
    var after := db - {name};
    if NothingLost(db, base, db[name], Nobody) {
      forall n, so | n in after && so in after[n].needed
        ensures Provided(after, base, so)
      {
        assert n in db && so in db[n].needed && Provided(db, base, so);
        assert so in db[name].provided ==> SafeToLose(db, base, db[name], Nobody, so);
        StillProvided(db, after, base, so, name);
      }
    }
    if Closed(after, base) {
      forall so | so in db[name].provided && NeededByOther(db, so, name)
        ensures SafeToLose(db, base, db[name], Nobody, so)
      {
        var n :| n in db && n != name && so in db[n].needed;
        assert n in after && so in after[n].needed && Provided(after, base, so);
      }
    }
  }

  /** A record rewritten with the same libraries changes nothing. */
  lemma SameLibsCloses(db: Database, base: set<string>, m: Manifest)
    requires m.name in db && EntOf(db[m.name]) == EntOf(m) && Closed(db, base)
    ensures Closed(db[m.name := m], base)
  {
    var after := db[m.name := m];
    forall n, so | n in after && so in after[n].needed
      ensures Provided(after, base, so)
    {
      assert n in db && so in db[n].needed && Provided(db, base, so);
      if so !in base {
        var p :| p in db && so in db[p].provided;
        assert p in after && so in after[p].provided;
      }
    }
  }

  // ---- a view that is not the records ----

  /** Where the view and the records know the same package, they know the same libraries. */
  ghost predicate Agree(view: Database, db: Database) {
    forall n :: n in view && n in db ==> EntOf(view[n]) == EntOf(db[n])
  }

  /** A package the view still counts on, its record gone, provides `so`. */
  ghost predicate LostProvides(view: Database, db: Database, so: string, self: string) {
    exists n :: n in view && n !in db && n != self && so in view[n].provided
  }

  /** A recorded package that the view has forgotten needs `so`. */
  ghost predicate HiddenNeeds(view: Database, db: Database, so: string, self: string) {
    exists n :: n in db && n !in view && n != self && so in db[n].needed
  }

  /** Every library of `was` that is going, and that only the view's errors make look safe
      to lose, is provided by another recorded package. */
  ghost predicate LossCovered(view: Database, db: Database, base: set<string>, was: Manifest, next: Next) {
    forall so :: so in was.provided && so !in base && !(next.Replacement? && so in next.m.provided) ==>
      && (LostProvides(view, db, so, was.name) && NeededByOther(db, so, was.name) ==> ProvidedByOther(db, so, was.name))
      && (HiddenNeeds(view, db, so, was.name) ==> ProvidedByOther(db, so, was.name))
  }

  /** And every library that `m` needs and a lost package makes look provided. */
  ghost predicate NeedsCovered(view: Database, db: Database, base: set<string>, m: Manifest) {
    forall so :: so in m.needed && so !in m.provided && so !in base && LostProvides(view, db, so, m.name) ==>
      ProvidedByOther(db, so, m.name)
  }

  ghost predicate InstallCovered(view: Database, db: Database, base: set<string>, m: Manifest) {
    NeedsCovered(view, db, base, m) && (m.name in db ==> LossCovered(view, db, base, db[m.name], Replacement(m)))
  }

  lemma SeenProvider(view: Database, db: Database, so: string, self: string)
    requires Agree(view, db) && ProvidedByOther(view, so, self)
    ensures ProvidedByOther(db, so, self) || LostProvides(view, db, so, self)
  {
    var n :| n in view && n != self && so in view[n].provided;
    if n in db {
      assert EntOf(view[n]) == EntOf(db[n]);
    }
  }

  lemma SeenUser(view: Database, db: Database, so: string, self: string)
    requires Agree(view, db) && NeededByOther(db, so, self)
    ensures NeededByOther(view, so, self) || HiddenNeeds(view, db, so, self)
  {
    var n :| n in db && n != self && so in db[n].needed;
    if n in view {
      assert EntOf(view[n]) == EntOf(db[n]);
    }
  }

  /** A check passed on the view is right about the records exactly when what the view has
      wrong is covered. */
  lemma LossExact(view: Database, db: Database, base: set<string>, was: Manifest, next: Next)
    requires Agree(view, db) && NothingLost(view, base, was, next)
    ensures NothingLost(db, base, was, next) <==> LossCovered(view, db, base, was, next)
  {
    if LossCovered(view, db, base, was, next) {
      forall so | so in was.provided
        ensures SafeToLose(db, base, was, next, so)
      {
        assert SafeToLose(view, base, was, next, so);
        if NeededByOther(db, so, was.name) {
          SeenUser(view, db, so, was.name);
        }
        if ProvidedByOther(view, so, was.name) {
          SeenProvider(view, db, so, was.name);
        }
      }
    }
    if NothingLost(db, base, was, next) {
      forall so | so in was.provided && HiddenNeeds(view, db, so, was.name)
        ensures NeededByOther(db, so, was.name) && SafeToLose(db, base, was, next, so)
      {
      }
      assert forall so :: so in was.provided ==> SafeToLose(db, base, was, next, so);
    }
  }

  lemma NeedsExact(view: Database, db: Database, base: set<string>, m: Manifest)
    requires Agree(view, db) && NeedsFound(view, base, m)
    ensures NeedsFound(db, base, m) <==> NeedsCovered(view, db, base, m)
  {
    forall so | so in m.needed && ProvidedByOther(view, so, m.name)
      ensures ProvidedByOther(db, so, m.name) || LostProvides(view, db, so, m.name)
    {
      SeenProvider(view, db, so, m.name);
    }
  }

  /** So a removal that the check lets through leaves the libraries closed if and only if
      the loss is covered ... */
  lemma DriftedRemoval(view: Database, db: Database, base: set<string>, name: string)
    requires Named(db) && Agree(view, db) && Closed(db, base) && name in db
    requires NothingLost(view, base, db[name], Nobody)
    ensures Closed(db - {name}, base) <==> LossCovered(view, db, base, db[name], Nobody)
  {
    RemoveCloses(db, base, name);
    LossExact(view, db, base, db[name], Nobody);
  }

  /** ... and an installation or a replacement if and only if it is covered. */
  lemma DriftedInstall(view: Database, db: Database, base: set<string>, m: Manifest)
    requires Named(db) && Agree(view, db) && Closed(db, base) && NeedsFound(view, base, m)
    requires m.name in db ==> NothingLost(view, base, db[m.name], Replacement(m))
    ensures Closed(db[m.name := m], base) <==> InstallCovered(view, db, base, m)
  {
    InstallCloses(db, base, m);
    NeedsExact(view, db, base, m);
    if m.name in db {
      LossExact(view, db, base, db[m.name], Replacement(m));
    }
  }

  /** A view that is the records has nothing to cover. */
  lemma SyncCovers(db: Database, base: set<string>, m: Manifest, was: Manifest, next: Next)
    ensures Agree(db, db) && InstallCovered(db, db, base, m) && LossCovered(db, db, base, was, next)
  {
  }

  // ---- the view ----

  function EntOf(m: Manifest): LibEnt {
    LibEnt(m.name, m.provided, m.needed)
  }

  ghost predicate DistinctEnts(e: seq<LibEnt>) {
    forall i, j :: 0 <= i < j < |e| ==> e[i].name != e[j].name
  }

  /** The view holds one entry for each record, with its libraries, and no other. */
  ghost predicate Mirrors(e: seq<LibEnt>, db: Database) {
    && (forall x :: x in e ==> x.name in db && x == EntOf(db[x.name]))
    && (forall n :: n in db ==> EntOf(db[n]) in e)
  }

  /** An entry of `e` not named `skip` provides `so`. */
  predicate ViewProvides(e: seq<LibEnt>, so: string, skip: string) {
    exists x | x in e :: x.name != skip && so in x.prov
  }

  predicate ViewNeeds(e: seq<LibEnt>, so: string, skip: string) {
    exists x | x in e :: x.name != skip && so in x.req
  }

  lemma MirrorsAnswers(e: seq<LibEnt>, db: Database, so: string, self: string)
    requires Mirrors(e, db) && Named(db)
    ensures ViewProvides(e, so, self) <==> ProvidedByOther(db, so, self)
    ensures ViewNeeds(e, so, self) <==> NeededByOther(db, so, self)
  {
    if ProvidedByOther(db, so, self) {
      var n :| n in db && n != self && so in db[n].provided;
      assert EntOf(db[n]) in e;
    }
    if NeededByOther(db, so, self) {
      var n :| n in db && n != self && so in db[n].needed;
      assert EntOf(db[n]) in e;
    }
  }

  /** `libs_find`: the position of `name`, or the length. */
  function FindEnt(e: seq<LibEnt>, name: string): (i: nat)
    ensures i <= |e|
    ensures i < |e| ==> e[i].name == name
    ensures i == |e| ==> forall x :: x in e ==> x.name != name
  {
    if e == [] then 0 else if e[0].name == name then 0 else 1 + FindEnt(e[1..], name)
  }

  /** The last entry takes the place of the one removed. */
  function SwapRemove(e: seq<LibEnt>, i: nat): seq<LibEnt>
    requires i < |e|
  {
    e[i := e[|e| - 1]][..|e| - 1]
  }

  lemma SwapRemoveMirrors(e: seq<LibEnt>, db: Database, i: nat)
    requires DistinctEnts(e) && i < |e|
    ensures DistinctEnts(SwapRemove(e, i))
    ensures Mirrors(e, db) && Named(db) ==> Mirrors(SwapRemove(e, i), db - {e[i].name})
  {
    var r := SwapRemove(e, i);
    assert forall k :: 0 <= k < |r| ==> r[k] == if k == i then e[|e| - 1] else e[k];
    if Mirrors(e, db) && Named(db) {
      var rest := db - {e[i].name};
      forall x | x in r
        ensures x.name in rest && x == EntOf(rest[x.name])
      {
        var k :| 0 <= k < |r| && r[k] == x;
        assert x in e;
      }
      forall n | n in rest
        ensures EntOf(rest[n]) in r
      {
        var k :| 0 <= k < |e| && e[k] == EntOf(db[n]);
        assert r[if k == |e| - 1 then i else k] == e[k];
      }
    }
  }

  lemma NoteMirrors(e: seq<LibEnt>, db: Database, m: Manifest, i: nat)
    requires DistinctEnts(e) && i == FindEnt(e, m.name)
    ensures var r := if i < |e| then e[i := EntOf(m)] else e + [EntOf(m)];
      DistinctEnts(r) && (Mirrors(e, db) && Named(db) ==> Mirrors(r, db[m.name := m]))
  {
    var r := if i < |e| then e[i := EntOf(m)] else e + [EntOf(m)];
    var after := db[m.name := m];
    assert r[i] == EntOf(m);
    if Mirrors(e, db) && Named(db) {
      forall x | x in r
        ensures x.name in after && x == EntOf(after[x.name])
      {
        var k :| 0 <= k < |r| && r[k] == x;
        if k != i {
          assert x in e;
        }
      }
      forall n | n in after
        ensures EntOf(after[n]) in r
      {
        if n != m.name {
          var k :| 0 <= k < |e| && e[k] == EntOf(db[n]);
          assert r[k] == e[k];
        }
      }
    }
  }

  /** The names in the database directory, in the order it gives them: those of `db`, the
      records that can be loaded, among them. */
  ghost predicate Lists(listing: seq<string>, db: Database) {
    && (forall n :: n in db ==> n in listing)
    && (forall i, j :: 0 <= i < j < |listing| ==> listing[i] != listing[j])
  }

  /** `e` has the libraries of the records of `db` among `names`, and no others. */
  ghost predicate Scanned(e: seq<LibEnt>, db: Database, names: seq<string>) {
    && (forall x :: x in e ==> x.name in db && x == EntOf(db[x.name]))
    && (forall n :: n in names && n in db ==> EntOf(db[n]) in e)
  }

  ghost predicate NamesFrom(e: seq<LibEnt>, names: seq<string>) {
    |e| <= |names| && DistinctEnts(e) && forall x :: x in e ==> x.name in names
  }

  lemma NamesNext(e: seq<LibEnt>, names: seq<string>, i: nat, x: LibEnt)
    requires i < |names| && NamesFrom(e, names[..i]) && x.name == names[i]
    requires forall j, k :: 0 <= j < k < |names| ==> names[j] != names[k]
    ensures NamesFrom(e, names[..i + 1]) && NamesFrom(e + [x], names[..i + 1])
  {
    assert names[..i + 1] == names[..i] + [names[i]];
    assert names[i] !in names[..i];
  }

  lemma ScannedNext(e: seq<LibEnt>, db: Database, names: seq<string>, i: nat)
    requires i < |names| && Scanned(e, db, names[..i])
    ensures if names[i] in db && db[names[i]].name == names[i]
      then Scanned(e + [EntOf(db[names[i]])], db, names[..i + 1])
      else names[i] !in db ==> Scanned(e, db, names[..i + 1])
  {
    assert names[..i + 1] == names[..i] + [names[i]];
  }

  /** The libraries of the records that can be loaded, of those `names`; `short` if memory ran
      out for some. */
  method Scan(db: Database, names: seq<string>) returns (e: seq<LibEnt>, short: bool)
    requires Named(db) && forall j, k :: 0 <= j < k < |names| ==> names[j] != names[k]
    ensures NamesFrom(e, names) && (!short ==> Scanned(e, db, names))
  {
    e, short := [], false;
    for i := 0 to |names|
      invariant NamesFrom(e, names[..i]) && (!short ==> Scanned(e, db, names[..i]))
    {
      NamesNext(e, names, i, LibEnt(names[i], [], []));
      if !short {
        ScannedNext(e, db, names, i);
      }
      if names[i] in db {
        NamesNext(e, names, i, EntOf(db[names[i]]));
        if * {
          e, short := e + [LibEnt(names[i], [], [])], true;
        } else {
          e := e + [EntOf(db[names[i]])];
        }
      }
    }
    assert names[..|names|] == names;
  }

  method ListNames(db: Database) returns (listing: seq<string>)
    ensures Lists(listing, db)
  {
    listing := [];
    var rest := db.Keys;
    while rest != {}
      invariant forall n :: n in listing ==> n !in rest
      invariant forall n :: n in db <==> n in listing || n in rest
      invariant forall i, j :: 0 <= i < j < |listing| ==> listing[i] != listing[j]
      decreases rest
    {
      var n :| n in rest;
      listing, rest := listing + [n], rest - {n};
    }
  }

  class LibView {
    var loaded: bool
    var more: bool
    var e: seq<LibEnt>
    /** The database as the view has followed it since it was loaded. */
    ghost var seen: Database

    constructor ()
      ensures Valid() && !loaded
    {
      loaded, more, e, seen := false, false, [], map[];
    }

    /** One slot over the scan limit: a package this command adds. */
    ghost predicate Valid()
      reads this
    {
      && |e| <= LIB_SCAN + 1 && DistinctEnts(e) && Named(seen)
      && (!loaded ==> e == [] && !more)
      && (loaded && !more ==> Mirrors(e, seen))
    }

    /** The database the checks answer for, the records being `db`. */
    ghost function Believes(db: Database): Database
      reads this
    {
      if loaded then seen else db
    }

    /** `libs_load`: once per command. A record that cannot be loaded is passed over. Memory
        may run out, for the names or for an entry's libraries: the view then counts as
        incomplete. */
    method Load(db: Database, listing: seq<string>)
      requires Valid() && Named(db) && Lists(listing, db)
      modifies this
      ensures Valid() && loaded && seen == old(Believes(db))
    {
      if loaded {
        return;
      }
      seen := db;
      if * {
        more, loaded := true, true;
        return;
      }
      more := |listing| > LIB_SCAN;
      var short;
      e, short := Scan(db, if more then listing[..LIB_SCAN] else listing);
      more, loaded := more || short, true;
    }

    /** `libs_note_installed`, the records `db` having `m` already. */
    method NoteInstalled(m: Manifest, db: Database, listing: seq<string>)
      requires Valid() && Named(db) && Lists(listing, db)
      modifies this
      ensures Valid() && loaded && seen == old(Believes(db))[m.name := m]
    {
      Load(db, listing);
      var i := FindEnt(e, m.name);
      NoteMirrors(e, seen, m, i);
      seen := seen[m.name := m];
      if i == |e| && |e| == LIB_SCAN + 1 {
        more := true;
        return;
      }
      if * {
        var empty := LibEnt(m.name, [], []);
        e := if i < |e| then e[i := empty] else e + [empty];
        more := true;
      } else {
        e := if i < |e| then e[i := EntOf(m)] else e + [EntOf(m)];
      }
    }

    /** `libs_note_removed`. */
    method NoteRemoved(name: string, db: Database, listing: seq<string>)
      requires Valid() && Named(db) && Lists(listing, db)
      modifies this
      ensures Valid() && loaded && seen == old(Believes(db)) - {name}
    {
      Load(db, listing);
      var i := FindEnt(e, name);
      if i == |e| {
        if !more {
          assert name in seen ==> EntOf(seen[name]) in e;
          assert seen - {name} == seen;
        }
      } else {
        SwapRemoveMirrors(e, seen, i);
        e := SwapRemove(e, i);
      }
      seen := seen - {name};
    }

    /** A record rewritten with the same libraries is nothing to the view. */
    ghost method Follow(m: Manifest)
      requires Valid() && (loaded ==> m.name in seen && EntOf(seen[m.name]) == EntOf(m))
      modifies this`seen
      ensures Valid() && (loaded ==> seen == old(seen)[m.name := m])
    {
      if loaded {
        seen := seen[m.name := m];
      }
    }

    /** `check_requires`. */
    method CheckRequires(m: Manifest, base: set<string>, force: bool, db: Database, listing: seq<string>)
      returns (ok: bool)
      requires Valid() && Named(db) && Lists(listing, db)
      modifies this
      ensures Valid() && Believes(db) == old(Believes(db))
      ensures ok && !force ==> NeedsFound(Believes(db), base, m)
      ensures !more ==> (ok <==> NeedsFound(Believes(db), base, m))
      ensures old(loaded) ==> loaded
    {
      if |m.needed| == 0 {
        return true;
      }
      Load(db, listing);
      if more && !force {
        return false;
      }
      for i := 0 to |m.needed|
        modifies {}
        invariant !more ==> forall k :: 0 <= k < i ==>
          m.needed[k] in m.provided || m.needed[k] in base || ProvidedByOther(seen, m.needed[k], m.name)
      {
        var so := m.needed[i];
        if !more {
          MirrorsAnswers(e, seen, so, m.name);
        }
        if !(so in m.provided || so in base || ViewProvides(e, so, m.name)) {
          return false;
        }
      }
      return true;
    }

    /** `libs_still_required`. */
    method StillRequired(was: Manifest, next: Next, base: set<string>, force: bool, db: Database,
                         listing: seq<string>) returns (ok: bool)
      requires Valid() && Named(db) && Lists(listing, db)
      modifies this
      ensures Valid() && Believes(db) == old(Believes(db))
      ensures ok && !force ==> NothingLost(Believes(db), base, was, next)
      ensures !more && !force ==> (ok <==> NothingLost(Believes(db), base, was, next))
      ensures force ==> ok
      ensures old(loaded) || |was.provided| > 0 ==> loaded
    {
      if |was.provided| == 0 {
        return true;
      }
      Load(db, listing);
      if more && !force {
        return false;
      }
      ok := true;
      for i := 0 to |was.provided|
        modifies {}
        invariant force ==> ok
        invariant !force ==> (ok <==> forall k :: 0 <= k < i ==> SafeToLose(seen, base, was, next, was.provided[k]))
      {
        var so := was.provided[i];
        if !more {
          MirrorsAnswers(e, seen, so, was.name);
        }
        if !((next.Replacement? && so in next.m.provided) || so in base || ViewProvides(e, so, was.name)) {
          if ViewNeeds(e, so, was.name) && !force {
            ok := false;
          }
        }
      }
      assert NothingLost(seen, base, was, next) <==>
        forall k :: 0 <= k < |was.provided| ==> SafeToLose(seen, base, was, next, was.provided[k]);
    }
  }
}
