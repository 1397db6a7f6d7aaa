/**
 Dependencies over whole histories of installs, upgrades, removals and rollbacks, however
 far each got: exactly when every installed package keeps its dependencies met.
 */
module Dependencies {
  import opened Packages
  import opened Resolver

  /** The dependants scan of `cmd_remove`. */
  predicate Needed(db: Database, name: string) {
    exists n | n in db :: n != name && exists d | d in db[n].depends :: d.name == name
  }

  /** `rollback_fits`: the other packages accept `m`'s version, and what `m` depends
      on is installed at a version it accepts. */
  ghost predicate RollbackFits(db: Database, m: Manifest) {
    && (forall n, d :: n in db && n != m.name && d in db[n].depends && d.name == m.name ==> Satisfied(d, m.version))
    && (forall d :: d in m.depends ==> d.name in db && Satisfied(d, db[d.name].version))
  }

  /** A package that accepts itself, in the sense a self-dependency would ask. */
  ghost predicate SelfMet(m: Manifest) {
    forall d :: d in m.depends && d.name == m.name ==> Satisfied(d, m.version)
  }

  datatype Step =
    | Planned(index: seq<Entry>, store: Store, plan: seq<Entry>, packages: seq<Manifest>, placed: nat)
    | Removed(name: string)
    | RolledBack(package: Manifest)

  /** What each command checks before it changes the database. A planned command stops
      after any number of its packages. */
  ghost predicate Admitted(db: Database, step: Step) {
    match step
    case Planned(index, store, plan, packages, placed) =>
      Settled(index, db, store, plan) && Carries(packages, plan) && placed <= |plan|
    case Removed(name) => name in db && !Needed(db, name)
    case RolledBack(m) => m.name in db && RollbackFits(db, m)
  }

  function After(db: Database, step: Step): Database {
    match step
    case Planned(_, _, _, packages, placed) => if placed <= |packages| then Applied(db, packages[..placed]) else db
    case Removed(name) => db - {name}
    case RolledBack(m) => db[m.name := m]
  }

  /** `rollback_fits` looks a self-dependency up at the version being replaced, so it
      is exactly the self-dependencies that it can get wrong. */
  lemma RollbackExact(db: Database, m: Manifest)
    requires DependsMet(db) && m.name in db && RollbackFits(db, m)
    ensures DependsMet(db[m.name := m]) <==> SelfMet(m)
  {
    var after := db[m.name := m];
    if SelfMet(m) {
      forall n, d | n in after && d in after[n].depends
        ensures d.name in after && Satisfied(d, after[d.name].version)
      {
      }
    } else {
      var d :| d in m.depends && d.name == m.name && !Satisfied(d, m.version);
      assert after[m.name] == m && d in after[m.name].depends;
    }
  }

  /** The family is not empty: 1 was installed before 2, needs itself at 2 or later,
      and `rollback_fits` lets it back. */
  lemma RollbackMisses() returns (db: Database, m: Manifest)
    ensures DependsMet(db) && m.name in db && RollbackFits(db, m)
    ensures !DependsMet(db[m.name := m])
  {
    var one, two := Version("1", [1], 0), Version("2", [2], 0);
    var d := Depend("a", Ge, two);
    var installed := Manifest("a", two, [], [], [], []);
    m := Manifest("a", one, [d], [], [], []);
    db := map["a" := installed];
    assert Satisfied(d, two) && !Satisfied(d, one);
    RollbackExact(db, m);
  }

  /** The one kind of step that can leave a dependency unmet. */
  ghost predicate SelfRefusing(step: Step) {
    step.RolledBack? && !SelfMet(step.package)
  }

  /** A planned command stopped anywhere and an admitted removal leave every dependency met,
      and a rollback does unless the version restored refuses itself. */
  lemma StepExact(db: Database, step: Step)
    requires DependsMet(db) && Admitted(db, step)
    ensures DependsMet(After(db, step)) <==> !SelfRefusing(step)
  {
    match step
    case Planned(index, store, plan, packages, placed) =>
      EveryPrefixMet(index, db, store, plan, packages, placed);
    case Removed(name) =>
      var after := db - {name};
      forall n, d | n in after && d in after[n].depends
        ensures d.name in after && Satisfied(d, after[d.name].version)
      {
        assert n in db && d in db[n].depends;
      }
    case RolledBack(m) =>
      RollbackExact(db, m);
  }

  ghost predicate History(db: Database, steps: seq<Step>)
    decreases |steps|
  {
    steps == [] || (Admitted(db, steps[0]) && History(After(db, steps[0]), steps[1..]))
  }

  function Final(db: Database, steps: seq<Step>): Database
    decreases |steps|
  {
    if steps == [] then db else Final(After(db, steps[0]), steps[1..])
  }

  /** Dependencies are met before and after every step. */
  ghost predicate AlwaysMet(db: Database, steps: seq<Step>)
    decreases |steps|
  {
    DependsMet(db) && (steps == [] || AlwaysMet(After(db, steps[0]), steps[1..]))
  }

  /** Dependencies stay met over a history exactly when no rollback in it restores a version
      that refuses itself. */
  lemma {:induction false} HistoryExact(db: Database, steps: seq<Step>)
    requires DependsMet(db) && History(db, steps)
    ensures AlwaysMet(db, steps) <==> forall step :: step in steps ==> !SelfRefusing(step)
    ensures AlwaysMet(db, steps) ==> DependsMet(Final(db, steps))
    decreases |steps|
  {
    if steps != [] {
      var step, rest := steps[0], steps[1..];
      StepExact(db, step);
      assert forall x :: x in steps <==> x == step || x in rest;
      if !SelfRefusing(step) {
        HistoryExact(After(db, step), rest);
      }
    }
  }
}
