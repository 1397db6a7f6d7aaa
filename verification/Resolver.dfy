/**
 The constraint resolver of `pkg install` and `pkg upgrade`: the constraint store,
 the recursive descent that builds a plan with dependencies first, and the rounds
 that rebuild it until every planned version satisfies every constraint seen.
 */
module Resolver {
  import opened Packages

  /** An index entry, as far as the resolver reads it. */
  datatype Entry = Entry(name: string, version: Version, depends: seq<Depend>)

  /** The table `g_cons`, searched by name: at most MAX_INDEX names, at most
      MAX_PER_NAME constraints on each. */
  type Store = map<string, seq<Depend>>

  const MAX_PER_NAME: nat := 16
  const MAX_ROUNDS: nat := 16

  /** All failures are the source's EXIT_FAILED; its messages tell them apart. */
  datatype Outcome = Ok | TooMany(name: string) | Cycle(name: string) | NoVersion(name: string) | Unsettled

  datatype Choice = Nothing | Chosen(entry: Entry)

  // ---- the store ----

  ghost predicate StoreValid(s: Store) {
    && |s| <= MAX_INDEX
    && (forall n :: n in s ==> |s[n]| <= MAX_PER_NAME)
    && (forall n, d :: n in s && d in s[n] ==> d.name == n)
  }

  predicate Recorded(s: Store, d: Depend) {
    d.op.NoOp? || (d.name in s && d in s[d.name])
  }

  predicate SatisfiesAll(s: Store, n: string, v: Version) {
    n in s ==> forall d :: d in s[n] ==> Satisfied(d, v)
  }

  /** `t` keeps every name and constraint of `s`. */
  ghost predicate Within(s: Store, t: Store) {
    forall n :: n in s ==> n in t && forall d :: d in s[n] ==> d in t[n]
  }

  ghost function Constraints(s: Store): set<Depend> {
    set n, d | n in s && d in s[n] :: d
  }

  // ---- plans ----

  function Names(plan: seq<Entry>): (r: seq<string>)
    ensures |r| == |plan|
    ensures forall i :: 0 <= i < |plan| ==> r[i] == plan[i].name
  {
    seq(|plan|, i requires 0 <= i < |plan| => plan[i].name)
  }

  /** `plan_has`: the position of `name` in the plan, or its length. */
  function PlanFind(plan: seq<Entry>, name: string): (i: nat)
    ensures i <= |plan|
    ensures i < |plan| ==> plan[i].name == name
    ensures i == |plan| <==> name !in Names(plan)
  {
    if plan == [] then 0
    else if plan[0].name == name then assert Names(plan)[0] == name; 0
    else
      assert Names(plan)[1..] == Names(plan[1..]);
      1 + PlanFind(plan[1..], name)
  }

  ghost function IndexNames(index: seq<Entry>): set<string> {
    set i | 0 <= i < |index| :: index[i].name
  }

  ghost predicate Distinct(s: seq<string>) {
    forall i, j :: 0 <= i < j < |s| ==> s[i] != s[j]
  }

  /** Names being visited and names planned are index names, all different. */
  ghost predicate Apart(index: seq<Entry>, visiting: seq<string>, plan: seq<Entry>) {
    && Distinct(visiting + Names(plan))
    && forall n :: n in visiting + Names(plan) ==> n in IndexNames(index)
  }

  lemma ApartPush(index: seq<Entry>, visiting: seq<string>, plan: seq<Entry>, n: string)
    requires Apart(index, visiting, plan)
    requires n in IndexNames(index) && n !in visiting && n !in Names(plan)
    ensures Apart(index, visiting + [n], plan)
  {
    var s, t := visiting + Names(plan), visiting + [n] + Names(plan);
    forall i, j | 0 <= i < j < |t|
      ensures t[i] != t[j]
    {
      var i' := if i <= |visiting| then i else i - 1;
      var j' := if j <= |visiting| then j else j - 1;
      if i != |visiting| && j != |visiting| {
        assert t[i] == s[i'] && t[j] == s[j'];
      } else {
        var k := if i == |visiting| then j' else i;
        assert s[k] in visiting + Names(plan);
      }
    }
  }

  lemma ApartMove(index: seq<Entry>, visiting: seq<string>, plan: seq<Entry>, e: Entry)
    requires Apart(index, visiting + [e.name], plan)
    ensures Apart(index, visiting, plan + [e])
  {
    var s, t := visiting + [e.name] + Names(plan), visiting + Names(plan + [e]);
    assert Names(plan + [e]) == Names(plan) + [e.name];
    forall i, j | 0 <= i < j < |t|
      ensures t[i] != t[j]
    {
      var i' := if i < |visiting| then i else i + 1;
      var j' := if j < |visiting| then j else j + 1;
      assert t[i] == s[i'];
      if j == |t| - 1 {
        assert t[j] == s[|visiting|];
      } else {
        assert t[j] == s[j'];
      }
    }
    forall n | n in t
      ensures n in IndexNames(index)
    {
      assert n in s;
    }
  }

  /** No entry of `e`'s name that satisfies the store is newer. */
  ghost predicate Newest(index: seq<Entry>, s: Store, e: Entry) {
    forall x :: x in index && x.name == e.name && SatisfiesAll(s, x.name, x.version) ==>
      VersionCmp(x.version, e.version) <= 0
  }

  ghost predicate InstalledMeets(db: Database, d: Depend) {
    d.name in db && Satisfied(d, db[d.name].version)
  }

  /** `d` is in the store, and its name is planned by now or installed well enough. */
  ghost predicate Handled(db: Database, s: Store, before: seq<Entry>, d: Depend) {
    Recorded(s, d) && (d.name in Names(before) || InstalledMeets(db, d))
  }

  ghost predicate DependsFirst(db: Database, s: Store, plan: seq<Entry>) {
    forall j, d :: 0 <= j < |plan| && d in plan[j].depends ==> Handled(db, s, plan[..j], d)
  }

  ghost predicate FromIndex(index: seq<Entry>, s: Store, plan: seq<Entry>) {
    forall e :: e in plan ==> e in index && Newest(index, s, e)
  }

  ghost predicate AllSatisfy(s: Store, plan: seq<Entry>) {
    forall e :: e in plan ==> SatisfiesAll(s, e.name, e.version)
  }

  /** The store holds every dependency of the packages `names`. */
  ghost predicate DependsRecorded(db: Database, s: Store, names: set<string>) {
    forall n, d :: n in db && n in names && d in db[n].depends ==> Recorded(s, d)
  }

  lemma RecordedLater(db: Database, s: Store, t: Store, names: set<string>)
    requires Within(s, t) && DependsRecorded(db, s, names)
    ensures DependsRecorded(db, t, names)
  {
    forall n, d | n in db && n in names && d in db[n].depends
      ensures Recorded(t, d)
    {
      assert Recorded(s, d);
    }
  }

  lemma RecordedNext(db: Database, s: Store, t: Store, names: set<string>, n: string)
    requires DependsRecorded(db, s, names) && Within(s, t)
    requires n in db && forall d :: d in db[n].depends ==> Recorded(t, d)
    ensures DependsRecorded(db, t, names + {n})
  {
    RecordedLater(db, s, t, names);
  }

  ghost function Listed(listing: seq<string>): set<string> {
    set n | n in listing
  }

  lemma ListedNext(listing: seq<string>, i: nat)
    requires i < |listing|
    ensures Listed(listing[..i + 1]) == Listed(listing[..i]) + {listing[i]}
  {
    assert listing[..i + 1] == listing[..i] + [listing[i]];
  }

  lemma WithinTrans(r: Store, s: Store, t: Store)
    requires Within(r, s) && Within(s, t)
    ensures Within(r, t)
  {
  }

  /** What growing the store or the plan never takes away. */
  lemma Monotone(db: Database, index: seq<Entry>, s: Store, t: Store, plan: seq<Entry>)
    requires Within(s, t)
    ensures FromIndex(index, s, plan) ==> FromIndex(index, t, plan)
    ensures DependsFirst(db, s, plan) ==> DependsFirst(db, t, plan)
    ensures forall n, v :: SatisfiesAll(t, n, v) ==> SatisfiesAll(s, n, v)
  {
    forall e | e in plan && FromIndex(index, s, plan)
      ensures e in index && Newest(index, t, e)
    {
      assert Newest(index, s, e);
    }
    forall j, d | 0 <= j < |plan| && d in plan[j].depends && DependsFirst(db, s, plan)
      ensures Handled(db, t, plan[..j], d)
    {
      assert Handled(db, s, plan[..j], d);
    }
  }

  lemma {:induction false} DistinctFits(s: seq<string>, names: set<string>)
    requires Distinct(s)
    requires forall n :: n in s ==> n in names
    ensures |s| <= |names|
  {
    if s != [] {
      var last := s[|s| - 1];
      assert last in s;
      DistinctFits(s[..|s| - 1], names - {last});
    }
  }

  lemma {:induction false} IndexNamesBound(index: seq<Entry>)
    ensures |IndexNames(index)| <= |index|
  {
    if index != [] {
      var init := index[..|index| - 1];
      IndexNamesBound(init);
      assert IndexNames(index) == IndexNames(init) + {index[|index| - 1].name};
    }
  }

  lemma {:induction false} SubsetSize(a: set<Depend>, b: set<Depend>)
    requires a <= b
    ensures |a| <= |b|
  {
    if a != {} {
      var x :| x in a;
      SubsetSize(a - {x}, b - {x});
    }
  }

  lemma ConstraintsGrow(s: Store, t: Store)
    requires Within(s, t)
    ensures |Constraints(s)| <= |Constraints(t)|
  {
    SubsetSize(Constraints(s), Constraints(t));
  }

  /** A planned version that stops fitting is evidence of a constraint that was not
      there when the round began. */
  lemma OutgrownGrows(base: Store, s: Store, e: Entry)
    requires StoreValid(base) && StoreValid(s) && Within(base, s)
    requires SatisfiesAll(base, e.name, e.version) && !SatisfiesAll(s, e.name, e.version)
    ensures |Constraints(base)| < |Constraints(s)|
  {
    var d :| d in s[e.name] && !Satisfied(d, e.version);
    assert d in Constraints(s) && d !in Constraints(base);
    SubsetSize(Constraints(base), Constraints(s) - {d});
  }

  ghost predicate AllHandled(db: Database, s: Store, plan: seq<Entry>, ds: seq<Depend>) {
    forall d :: d in ds ==> Handled(db, s, plan, d)
  }

  lemma HandledLater(db: Database, s: Store, t: Store, before: seq<Entry>, after: seq<Entry>, ds: seq<Depend>)
    requires Within(s, t) && before <= after && AllHandled(db, s, before, ds)
    ensures AllHandled(db, t, after, ds)
  {
    forall d | d in ds
      ensures Handled(db, t, after, d)
    {
      assert Handled(db, s, before, d);
      if d.name in Names(before) {
        var i :| 0 <= i < |before| && Names(before)[i] == d.name;
        assert Names(after)[i] == d.name;
      }
    }
  }

  lemma HandledNext(db: Database, s: Store, t: Store, before: seq<Entry>, after: seq<Entry>, ds: seq<Depend>, k: nat)
    requires k < |ds| && Within(s, t) && before <= after
    requires AllHandled(db, s, before, ds[..k]) && Handled(db, t, after, ds[k])
    ensures AllHandled(db, t, after, ds[..k + 1])
  {
    HandledLater(db, s, t, before, after, ds[..k]);
    assert ds[..k + 1] == ds[..k] + [ds[k]];
  }

  lemma HandledWhole(db: Database, s: Store, plan: seq<Entry>, ds: seq<Depend>)
    requires AllHandled(db, s, plan, ds[..|ds|])
    ensures AllHandled(db, s, plan, ds)
  {
    assert ds[..|ds|] == ds;
  }

  /** Appending an entry whose dependencies are handled keeps the plan's promises. */
  lemma Appended(db: Database, index: seq<Entry>, s: Store, plan: seq<Entry>, e: Entry)
    requires FromIndex(index, s, plan) && DependsFirst(db, s, plan)
    requires e in index && Newest(index, s, e)
    requires AllHandled(db, s, plan, e.depends)
    ensures FromIndex(index, s, plan + [e]) && DependsFirst(db, s, plan + [e])
    ensures Names(plan + [e]) == Names(plan) + [e.name]
  {
    var next := plan + [e];
    forall j, d | 0 <= j < |next| && d in next[j].depends
      ensures Handled(db, s, next[..j], d)
    {
      assert next[..j] == plan[..j];
      if j == |plan| {
        assert plan[..j] == plan;
      }
    }
  }

  // ---- dependency cycles ----

  /** Some version of `a` in the index depends on `b`. */
  ghost predicate Links(index: seq<Entry>, a: string, b: string) {
    exists e, d :: e in index && e.name == a && d in e.depends && d.name == b
  }

  ghost predicate Chain(index: seq<Entry>, c: seq<string>) {
    forall i :: 0 <= i < |c| - 1 ==> Links(index, c[i], c[i + 1])
  }

  /** A chain of dependencies in the index leads from `n` back to it. */
  ghost predicate OnCycle(index: seq<Entry>, n: string) {
    exists c :: |c| >= 2 && c[0] == n && c[|c| - 1] == n && Chain(index, c)
  }

  lemma VisitedAgain(index: seq<Entry>, visiting: seq<string>, n: string)
    requires Chain(index, visiting + [n]) && n in visiting
    ensures OnCycle(index, n)
  {
    var k :| 0 <= k < |visiting| && visiting[k] == n;
    var whole := visiting + [n];
    var c := whole[k..];
    forall i | 0 <= i < |c| - 1
      ensures Links(index, c[i], c[i + 1])
    {
      assert Links(index, whole[k + i], whole[k + i + 1]);
    }
    assert Chain(index, c);
  }

  lemma ChainNext(index: seq<Entry>, visiting: seq<string>, e: Entry, d: Depend)
    requires Chain(index, visiting + [e.name]) && e in index && d in e.depends
    ensures Chain(index, visiting + [e.name] + [d.name])
  {
    var c := visiting + [e.name] + [d.name];
    forall i | 0 <= i < |c| - 1
      ensures Links(index, c[i], c[i + 1])
    {
      if i < |visiting| {
        assert Links(index, (visiting + [e.name])[i], (visiting + [e.name])[i + 1]);
      } else {
        assert e in index && d in e.depends;
      }
    }
  }

  lemma ChainStart(index: seq<Entry>, n: string)
    ensures Chain(index, [] + [n])
  {
  }

  /** The resolver's invariant, `base` being the store when the round began. */
  ghost predicate Sound(index: seq<Entry>, db: Database, base: Store, cons: Store,
                        visiting: seq<string>, plan: seq<Entry>, retry: bool)
  {
    && |index| <= MAX_INDEX
    && StoreValid(base) && StoreValid(cons) && Within(base, cons)
    && Apart(index, visiting, plan)
    && (forall n :: n in visiting ==> n in cons)
    && FromIndex(index, cons, plan)
    && AllSatisfy(base, plan)
    && (if retry then |Constraints(base)| < |Constraints(cons)| else AllSatisfy(cons, plan))
    && DependsFirst(db, cons, plan)
  }

  lemma ApartNames(index: seq<Entry>, visiting: seq<string>, plan: seq<Entry>, e: Entry, i: nat)
    requires Apart(index, visiting, plan) && i < |plan| && e in plan
    ensures plan[i].name !in visiting
    ensures e.name == plan[i].name ==> e == plan[i]
  {
    var s := visiting + Names(plan);
    assert s[|visiting| + i] == plan[i].name;
    forall k | 0 <= k < |visiting|
      ensures visiting[k] != plan[i].name
    {
      assert s[k] == visiting[k];
    }
    var j :| 0 <= j < |plan| && plan[j] == e;
    assert s[|visiting| + j] == e.name;
  }

  /** Growing one name's constraints: sound again once a planned version of that name
      that no longer fits has asked for another round. */
  lemma SoundAdmit(index: seq<Entry>, db: Database, base: Store, s: Store, t: Store, visiting: seq<string>,
                   plan: seq<Entry>, retry: bool, name: string)
    requires Sound(index, db, base, s, visiting, plan, retry)
    requires StoreValid(t) && Within(s, t)
    requires forall n :: n in s && n != name ==> n in t && t[n] == s[n]
    requires forall n :: n in t && n != name ==> n in s
    ensures var i := PlanFind(plan, name);
      var outgrown := i < |plan| && !SatisfiesAll(t, name, plan[i].version);
      Sound(index, db, base, t, visiting, plan, retry || outgrown)
  {
    var i := PlanFind(plan, name);
    Monotone(db, index, s, t, plan);
    ConstraintsGrow(s, t);
    if i < |plan| && !SatisfiesAll(t, name, plan[i].version) {
      OutgrownGrows(base, t, plan[i]);
    } else if !retry {
      forall e | e in plan
        ensures SatisfiesAll(t, e.name, e.version)
      {
        assert SatisfiesAll(s, e.name, e.version);
        if e.name == name {
          var j :| 0 <= j < |plan| && plan[j] == e;
          assert Names(plan)[j] == name;
          ApartNames(index, visiting, plan, e, i);
        }
      }
    }
  }

  lemma SoundPush(index: seq<Entry>, db: Database, base: Store, cons: Store, visiting: seq<string>,
                  plan: seq<Entry>, retry: bool, n: string)
    requires Sound(index, db, base, cons, visiting, plan, retry)
    requires n in IndexNames(index) && n !in visiting && n !in Names(plan) && n in cons
    ensures Sound(index, db, base, cons, visiting + [n], plan, retry)
  {
    ApartPush(index, visiting, plan, n);
  }

  lemma SoundPlace(index: seq<Entry>, db: Database, base: Store, s: Store, cons: Store, visiting: seq<string>,
                   plan: seq<Entry>, retry: bool, e: Entry)
    requires Sound(index, db, base, cons, visiting + [e.name], plan, retry)
    requires e in index && SatisfiesAll(s, e.name, e.version) && Newest(index, s, e)
    requires Within(base, s) && Within(s, cons) && e.name in s && cons[e.name] == s[e.name]
    requires AllHandled(db, cons, plan, e.depends)
    ensures Sound(index, db, base, cons, visiting, plan + [e], retry)
  {
    ApartMove(index, visiting, plan, e);
    Monotone(db, index, base, s, plan);
    Monotone(db, index, s, cons, [e]);
    assert FromIndex(index, s, [e]);
    assert e in [e];
    Appended(db, index, cons, plan, e);
    forall n | n in visiting
      ensures n in cons
    {
      assert n in visiting + [e.name];
    }
  }

  lemma SoundFits(index: seq<Entry>, db: Database, base: Store, cons: Store, visiting: seq<string>,
                  plan: seq<Entry>, retry: bool)
    requires Sound(index, db, base, cons, visiting, plan, retry)
    ensures |visiting| + |plan| <= MAX_INDEX
  {
    DistinctFits(visiting + Names(plan), IndexNames(index));
    IndexNamesBound(index);
  }

  // ---- what a settled plan means for the installed packages ----

  /** What `plan_build` hands over when it returns 0. */
  ghost predicate Settled(index: seq<Entry>, db: Database, s: Store, plan: seq<Entry>) {
    && Distinct(Names(plan))
    && FromIndex(index, s, plan)
    && AllSatisfy(s, plan)
    && DependsFirst(db, s, plan)
    && DependsRecorded(db, s, db.Keys)
  }

  /** The packages installed for the plan's entries: name and version as `load_package`
      checks, dependencies as the index lists them. */
  ghost predicate Carries(ms: seq<Manifest>, plan: seq<Entry>) {
    && |ms| == |plan|
    && forall i :: 0 <= i < |plan| ==>
      ms[i].name == plan[i].name && ms[i].version == plan[i].version && ms[i].depends == plan[i].depends
  }

  /** The database once `ms` are installed in order. */
  function Applied(db: Database, ms: seq<Manifest>): Database {
    if ms == [] then db
    else var m := ms[|ms| - 1]; Applied(db, ms[..|ms| - 1])[m.name := m]
  }

  lemma {:induction false} AppliedAt(db: Database, ms: seq<Manifest>, plan: seq<Entry>, n: string)
    requires Carries(ms, plan) && Distinct(Names(plan))
    ensures forall i :: 0 <= i < |ms| && ms[i].name == n ==> n in Applied(db, ms) && Applied(db, ms)[n] == ms[i]
    ensures n !in Names(plan) ==> (n in Applied(db, ms) <==> n in db) && (n in db ==> Applied(db, ms)[n] == db[n])
  {
    if ms != [] {
      var k := |ms| - 1;
      assert Names(plan[..k]) == Names(plan)[..k];
      AppliedAt(db, ms[..k], plan[..k], n);
      assert Names(plan)[k] == ms[k].name;
      forall i | 0 <= i < k && ms[i].name == n
        ensures ms[k].name != n
      {
        assert Names(plan)[i] == n;
      }
    }
  }

  lemma DependMet(index: seq<Entry>, db: Database, s: Store, plan: seq<Entry>, ms: seq<Manifest>, k: nat, d: Depend)
    requires Settled(index, db, s, plan) && Carries(ms, plan) && k <= |plan|
    requires Handled(db, s, plan[..k], d)
    ensures InstalledMeets(Applied(db, ms[..k]), d)
  {
    assert Names(plan[..k]) == Names(plan)[..k];
    AppliedAt(db, ms[..k], plan[..k], d.name);
    if d.name in Names(plan[..k]) {
      var i :| 0 <= i < k && Names(plan[..k])[i] == d.name;
      assert ms[..k][i].name == d.name && plan[i] in plan;
    }
  }

  /** Whatever the plan's length reached when the installation stops, every package
      installed then has its dependencies met. */
  lemma EveryPrefixMet(index: seq<Entry>, db: Database, s: Store, plan: seq<Entry>, ms: seq<Manifest>, k: nat)
    requires Settled(index, db, s, plan) && Carries(ms, plan) && k <= |plan|
    requires DependsMet(db)
    ensures DependsMet(Applied(db, ms[..k]))
  {
    var after := Applied(db, ms[..k]);
    forall n, d | n in after && d in after[n].depends
      ensures d.name in after && Satisfied(d, after[d.name].version)
    {
      assert Names(plan[..k]) == Names(plan)[..k];
      AppliedAt(db, ms[..k], plan[..k], n);
      if n in Names(plan[..k]) {
        var j :| 0 <= j < k && Names(plan[..k])[j] == n;
        assert ms[..k][j].name == n;
        assert Handled(db, s, plan[..j], d);
        EarlierNames(plan, j, k, d.name);
      }
      assert Handled(db, s, plan[..k], d);
      DependMet(index, db, s, plan, ms, k, d);
    }
  }

  lemma EarlierNames(plan: seq<Entry>, j: nat, k: nat, n: string)
    requires j <= k <= |plan|
    ensures n in Names(plan[..j]) ==> n in Names(plan[..k])
  {
    if n in Names(plan[..j]) {
      var i :| 0 <= i < j && Names(plan[..j])[i] == n;
      assert Names(plan[..k])[i] == n;
    }
  }

  class Planner {
    const index: seq<Entry>
    const installed: Database
    const reinstall: bool
    var cons: Store
    var plan: seq<Entry>
    var visiting: seq<string>
    var retry: bool
    /** The store when this round began. */
    ghost var base: Store

    constructor (index: seq<Entry>, installed: Database, reinstall: bool)
      ensures this.index == index && this.installed == installed && this.reinstall == reinstall
      ensures cons == map[] && plan == [] && visiting == [] && !retry
    {
      this.index, this.installed, this.reinstall := index, installed, reinstall;
      cons, plan, visiting, retry, base := map[], [], [], false, map[];
    }

    ghost predicate Valid()
      reads this
    {
      Sound(index, installed, base, cons, visiting, plan, retry)
    }

    ghost function Free(): set<string>
      reads this
    {
      set n | n in IndexNames(index) && n !in visiting && n !in Names(plan)
    }

    /** `cons_add`, with `cons_for` inside it: false when a limit is reached. */
    method ConsAdd(d: Depend) returns (ok: bool)
      requires StoreValid(cons)
      modifies this`cons
      ensures StoreValid(cons) && Within(old(cons), cons)
      ensures forall n :: n in old(cons) && n != d.name ==> n in cons && cons[n] == old(cons)[n]
      ensures ok ==> d.name in cons && Recorded(cons, d)
      ensures forall n :: n in cons && n != d.name ==> n in old(cons)
      ensures !ok ==> if d.name in cons then |cons[d.name]| == MAX_PER_NAME else |cons| == MAX_INDEX
    {
      if d.name !in cons {
        if |cons| == MAX_INDEX {
          return false;
        }
        cons := cons[d.name := []];
      }
      if d.op.NoOp? || d in cons[d.name] {
        return true;
      }
      if |cons[d.name]| == MAX_PER_NAME {
        return false;
      }
      cons := cons[d.name := cons[d.name] + [d]];
      return true;
    }

    /** `index_best_all`: the newest entry of `name` that satisfies the store. */
    method IndexBestAll(name: string) returns (best: Choice)
      ensures best.Chosen? ==> best.entry in index && best.entry.name == name
      ensures best.Chosen? ==> SatisfiesAll(cons, name, best.entry.version) && Newest(index, cons, best.entry)
      ensures best.Nothing? ==> forall x :: x in index && x.name == name ==> !SatisfiesAll(cons, name, x.version)
    {
      best := Nothing;
      for i := 0 to |index|
        invariant best.Chosen? ==> best.entry in index && best.entry.name == name
        invariant best.Chosen? ==> SatisfiesAll(cons, name, best.entry.version)
        invariant forall x :: x in index[..i] && x.name == name && SatisfiesAll(cons, name, x.version) ==>
          best.Chosen? && VersionCmp(x.version, best.entry.version) <= 0
      {
        var e := index[i];
        assert index[..i + 1] == index[..i] + [e];
        if e.name == name && SatisfiesAll(cons, name, e.version) {
          if best.Nothing? || VersionCmp(e.version, best.entry.version) > 0 {
            forall x: Entry | best.Chosen? && VersionCmp(x.version, best.entry.version) <= 0
              ensures VersionCmp(x.version, e.version) <= 0
            {
              VersionOrder(x.version, best.entry.version, e.version);
              VersionOrder(best.entry.version, e.version, x.version);
            }
            VersionOrder(e.version, e.version, e.version);
            best := Chosen(e);
          }
        }
      }
      assert index[..|index|] == index;
    }

    /** The first lines of `resolve`: the constraint joins the store, and a planned
        version it does not admit asks for another round. */
    method Admit(d: Depend) returns (ok: bool, planned: bool)
      requires Valid()
      modifies this`cons, this`retry
      ensures Within(old(cons), cons) && StoreValid(cons)
      ensures ok ==> Valid() && (old(retry) ==> retry)
      ensures ok ==> d.name in cons && Recorded(cons, d)
      ensures forall n :: n in old(cons) && n != d.name ==> n in cons && cons[n] == old(cons)[n]
      ensures ok ==> planned == (d.name in Names(plan))
    {
      ok := ConsAdd(d);
      if !ok {
        return false, false;
      }
      SoundAdmit(index, installed, base, old(cons), cons, visiting, plan, retry, d.name);
      var i := PlanFind(plan, d.name);
      planned := i < |plan|;
      if planned && !SatisfiesAll(cons, d.name, plan[i].version) {
        retry := true;
      }
    }

    /** `resolve`: the constraint is recorded, and its name is planned (after all it
        depends on), or already planned, or installed and good enough. */
    method Resolve(d: Depend) returns (rc: Outcome)
      requires Valid() && Chain(index, visiting + [d.name])
      modifies this`cons, this`plan, this`visiting, this`retry
      ensures Within(old(cons), cons) && StoreValid(cons)
      ensures rc.Ok? ==> Valid() && visiting == old(visiting) && old(plan) <= plan
      ensures rc.Ok? ==> old(retry) ==> retry
      ensures rc.Ok? ==> forall n :: n in visiting ==> n in old(cons) && cons[n] == old(cons)[n]
      ensures rc.Ok? ==> Handled(installed, cons, plan, d)
      ensures |visiting| + |plan| <= MAX_INDEX
      ensures rc.NoVersion? ==>
        forall x :: x in index && x.name == rc.name ==> !SatisfiesAll(cons, x.name, x.version)
      ensures rc.Cycle? ==> OnCycle(index, rc.name)
      ensures rc != Unsettled
      decreases Free()
    {
      SoundFits(index, installed, base, cons, visiting, plan, retry);
      var ok, planned := Admit(d);
      if !ok {
        return TooMany(d.name);
      }
      if planned {
        var i := PlanFind(plan, d.name);
        ApartNames(index, visiting, plan, plan[i], i);
        return Ok;
      }
      if d.name in visiting {
        VisitedAgain(index, visiting, d.name);
        return Cycle(d.name);
      }
      if !reinstall && d.name in installed && SatisfiesAll(cons, d.name, installed[d.name].version) {
        return Ok;
      }
      var best := IndexBestAll(d.name);
      if best.Nothing? {
        return NoVersion(d.name);
      }
      rc := Descend(best.entry);
    }

    /** The rest of `resolve`: every dependency of the chosen entry, its name on the
        visiting stack meanwhile, then the entry itself. */
    method Descend(chosen: Entry) returns (rc: Outcome)
      requires Valid()
      requires chosen in index && chosen.name in Free() && chosen.name in cons
      requires SatisfiesAll(cons, chosen.name, chosen.version) && Newest(index, cons, chosen)
      requires Chain(index, visiting + [chosen.name])
      modifies this`cons, this`plan, this`visiting, this`retry
      ensures Within(old(cons), cons) && StoreValid(cons)
      ensures rc.Ok? ==> Valid() && visiting == old(visiting) && old(plan) <= plan
      ensures rc.Ok? ==> old(retry) ==> retry
      ensures rc.Ok? ==> forall n :: n in visiting ==> n in old(cons) && cons[n] == old(cons)[n]
      ensures rc.Ok? ==> chosen.name in Names(plan)
      ensures |visiting| + |plan| <= MAX_INDEX
      ensures rc.NoVersion? ==>
        forall x :: x in index && x.name == rc.name ==> !SatisfiesAll(cons, x.name, x.version)
      ensures rc.Cycle? ==> OnCycle(index, rc.name)
      ensures rc != Unsettled
      decreases Free(), 1
    {
      rc := ResolveDepends(chosen);
      if rc.Ok? {
        Place(old(cons), old(visiting), chosen);
      }
    }

    method Place(ghost s: Store, ghost before: seq<string>, e: Entry)
      requires Valid() && visiting == before + [e.name]
      requires e in index && SatisfiesAll(s, e.name, e.version) && Newest(index, s, e)
      requires Within(base, s) && Within(s, cons) && e.name in s && cons[e.name] == s[e.name]
      requires AllHandled(installed, cons, plan, e.depends)
      modifies this`plan, this`visiting
      ensures Valid() && visiting == before && plan == old(plan) + [e]
      ensures e.name in Names(plan) && |visiting| + |plan| <= MAX_INDEX
    {
      SoundPlace(index, installed, base, s, cons, before, plan, retry, e);
      visiting := visiting[..|visiting| - 1];
      plan := plan + [e];
      assert Names(plan)[|plan| - 1] == e.name;
      SoundFits(index, installed, base, cons, visiting, plan, retry);
    }

    /** The loop of `resolve` over the chosen entry's dependencies, its name pushed on
        the visiting stack. */
    method ResolveDepends(chosen: Entry) returns (rc: Outcome)
      requires Valid()
      requires chosen in index && chosen.name in Free() && chosen.name in cons
      requires Chain(index, visiting + [chosen.name])
      modifies this`cons, this`plan, this`visiting, this`retry
      ensures Within(old(cons), cons) && StoreValid(cons)
      ensures rc.Ok? ==> Valid() && visiting == old(visiting) + [chosen.name] && old(plan) <= plan
      ensures rc.Ok? ==> old(retry) ==> retry
      ensures rc.Ok? ==> forall n :: n in visiting ==> n in old(cons) && cons[n] == old(cons)[n]
      ensures rc.Ok? ==> AllHandled(installed, cons, plan, chosen.depends)
      ensures |visiting| + |plan| <= MAX_INDEX
      ensures rc.NoVersion? ==>
        forall x :: x in index && x.name == rc.name ==> !SatisfiesAll(cons, x.name, x.version)
      ensures rc.Cycle? ==> OnCycle(index, rc.name)
      ensures rc != Unsettled
      decreases Free(), 0
    {
      SoundPush(index, installed, base, cons, visiting, plan, retry, chosen.name);
      visiting := visiting + [chosen.name];
      SoundFits(index, installed, base, cons, visiting, plan, retry);
      for k := 0 to |chosen.depends|
        invariant Valid() && visiting == old(visiting) + [chosen.name] && old(plan) <= plan
        invariant Within(old(cons), cons) && (old(retry) ==> retry)
        invariant forall n :: n in visiting ==> n in old(cons) && cons[n] == old(cons)[n]
        invariant AllHandled(installed, cons, plan, chosen.depends[..k])
        invariant |visiting| + |plan| <= MAX_INDEX
      {
        ghost var s, before := cons, plan;
        assert chosen.name in visiting;
        ChainNext(index, old(visiting), chosen, chosen.depends[k]);
        rc := Resolve(chosen.depends[k]);
        if !rc.Ok? {
          return;
        }
        HandledNext(installed, s, cons, before, plan, chosen.depends, k);
      }
      HandledWhole(installed, cons, plan, chosen.depends);
      rc := Ok;
    }

    method ConsAddAll(ds: seq<Depend>) returns (rc: Outcome)
      requires StoreValid(cons)
      modifies this`cons
      ensures StoreValid(cons) && Within(old(cons), cons)
      ensures rc.Ok? || rc.TooMany?
      ensures rc.Ok? ==> forall d :: d in ds ==> Recorded(cons, d)
    {
      for k := 0 to |ds|
        invariant StoreValid(cons) && Within(old(cons), cons)
        invariant forall d :: d in ds[..k] ==> Recorded(cons, d)
      {
        ghost var s := cons;
        var ok := ConsAdd(ds[k]);
        WithinTrans(old(cons), s, cons);
        if !ok {
          return TooMany(ds[k].name);
        }
        assert ds[..k + 1] == ds[..k] + [ds[k]];
      }
      assert ds[..|ds|] == ds;
      return Ok;
    }

    /** One installed package's dependencies, those of `done` being in the store. */
    method ConsAddPackage(n: string, ghost done: set<string>) returns (rc: Outcome)
      requires StoreValid(cons) && n in installed && DependsRecorded(installed, cons, done)
      modifies this`cons
      ensures StoreValid(cons) && Within(old(cons), cons)
      ensures rc.Ok? || rc.TooMany?
      ensures rc.Ok? ==> DependsRecorded(installed, cons, done + {n})
    {
      ghost var s := cons;
      rc := ConsAddAll(installed[n].depends);
      if rc.Ok? {
        RecordedNext(installed, s, cons, done, n);
      }
    }

    /** `cons_add_installed`: every installed package's dependencies join the store.
        `listing` is the order the database directory gives them in. */
    method ConsAddInstalled(listing: seq<string>) returns (rc: Outcome)
      requires StoreValid(cons)
      requires forall n :: n in installed <==> n in listing
      modifies this`cons
      ensures StoreValid(cons) && Within(old(cons), cons)
      ensures rc.Ok? || rc.TooMany?
      ensures rc.Ok? ==> DependsRecorded(installed, cons, installed.Keys)
    {
      for i := 0 to |listing|
        invariant StoreValid(cons) && Within(old(cons), cons)
        invariant DependsRecorded(installed, cons, Listed(listing[..i]))
      {
        ghost var s := cons;
        rc := ConsAddPackage(listing[i], Listed(listing[..i]));
        WithinTrans(old(cons), s, cons);
        if !rc.Ok? {
          return;
        }
        ListedNext(listing, i);
      }
      assert listing[..|listing|] == listing && Listed(listing) == installed.Keys;
      return Ok;
    }

    /** One round of `plan_build`: the requests resolved over an empty plan. */
    method Round(reqs: seq<Depend>) returns (rc: Outcome)
      requires |index| <= MAX_INDEX && StoreValid(cons)
      modifies this
      ensures StoreValid(cons) && Within(old(cons), cons) && rc != Unsettled
      ensures rc.Ok? ==> Valid() && base == old(cons) && visiting == []
      ensures rc.Ok? ==> AllHandled(installed, cons, plan, reqs)
      ensures rc.Cycle? ==> OnCycle(index, rc.name)
      ensures rc.NoVersion? ==>
        forall x :: x in index && x.name == rc.name ==> !SatisfiesAll(cons, x.name, x.version)
    {
      plan, visiting, retry := [], [], false;
      base := cons;
      for i := 0 to |reqs|
        invariant Valid() && base == old(cons) && visiting == []
        invariant AllHandled(installed, cons, plan, reqs[..i])
      {
        ghost var s, before := cons, plan;
        ChainStart(index, reqs[i].name);
        rc := Resolve(reqs[i]);
        if !rc.Ok? {
          WithinTrans(base, s, cons);
          return;
        }
        HandledNext(installed, s, cons, before, plan, reqs, i);
      }
      HandledWhole(installed, cons, plan, reqs);
      return Ok;
    }

    /** `plan_build`. When it succeeds the plan is settled: so it keeps every installed
        package's dependencies met after each of its packages, and its requests are
        met at the end. Each round that asks for another has enlarged the store. */
    method PlanBuild(reqs: seq<Depend>, listing: seq<string>) returns (rc: Outcome)
      requires |index| <= MAX_INDEX && StoreValid(cons)
      requires forall n :: n in installed <==> n in listing
      modifies this
      ensures Within(old(cons), cons)
      ensures rc.Ok? ==> Settled(index, installed, cons, plan)
      ensures rc.Ok? && DependsMet(installed) ==> forall ms, k :: Carries(ms, plan) && 0 <= k <= |plan| ==>
        DependsMet(Applied(installed, ms[..k]))
      ensures rc.Ok? ==> forall ms, r :: Carries(ms, plan) && r in reqs ==>
        InstalledMeets(Applied(installed, ms), r)
      ensures rc.NoVersion? ==>
        forall x :: x in index && x.name == rc.name ==> !SatisfiesAll(cons, x.name, x.version)
      ensures rc.Cycle? ==> OnCycle(index, rc.name)
      ensures rc.Unsettled? ==> |Constraints(cons)| >= |Constraints(old(cons))| + MAX_ROUNDS
    {
      rc := ConsAddInstalled(listing);
      if !rc.Ok? {
        return;
      }
      ConstraintsGrow(old(cons), cons);
      for iter := 0 to MAX_ROUNDS
        invariant StoreValid(cons) && Within(old(cons), cons)
        invariant DependsRecorded(installed, cons, installed.Keys)
        invariant |Constraints(cons)| >= |Constraints(old(cons))| + iter
      {
        ghost var s := cons;
        rc := Round(reqs);
        WithinTrans(old(cons), s, cons);
        RecordedLater(installed, s, cons, installed.Keys);
        if !rc.Ok? {
          return;
        }
        if !retry {
          SettledNow();
          SettledPlan(reqs);
          return Ok;
        }
      }
      return Unsettled;
    }

    lemma SettledNow()
      requires Valid() && !retry && visiting == []
      requires DependsRecorded(installed, cons, installed.Keys)
      ensures Settled(index, installed, cons, plan)
    {
      assert visiting + Names(plan) == Names(plan);
    }

    lemma SettledPlan(reqs: seq<Depend>)
      requires Settled(index, installed, cons, plan)
      requires AllHandled(installed, cons, plan, reqs)
      ensures DependsMet(installed) ==> forall ms, k :: Carries(ms, plan) && 0 <= k <= |plan| ==>
        DependsMet(Applied(installed, ms[..k]))
      ensures forall ms, r :: Carries(ms, plan) && r in reqs ==> InstalledMeets(Applied(installed, ms), r)
    {
      forall ms, k | Carries(ms, plan) && 0 <= k <= |plan| && DependsMet(installed)
        ensures DependsMet(Applied(installed, ms[..k]))
      {
        EveryPrefixMet(index, installed, cons, plan, ms, k);
      }
      forall ms, r | Carries(ms, plan) && r in reqs
        ensures InstalledMeets(Applied(installed, ms), r)
      {
        assert ms[..|plan|] == ms && plan[..|plan|] == plan;
        DependMet(index, installed, cons, plan, ms, |plan|, r);
      }
    }
  }
}
