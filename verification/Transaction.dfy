/**
 The snapshot transaction around every command that changes the root: `tx_begin`,
 `tx_end`, a power cut between any two of their steps, the mount that carries out a
 pending rollback, init's `pkg_recover`, and a system that boots on without the recovery
 it owes because a step of it was refused.

 `T` is all of the root that a command changes; the record of the open transaction
 (tx-active) is kept apart from it because the protocol turns on where it stands.
 */
module Transaction {
  import opened Options

  /** pkg-tx-N, pkg-undone-N, and names that are not the protocol's. */
  datatype Name = Tx(n: int) | Undone(n: int) | Other(text: string)

  /** A snapshot is a tree. */
  datatype Snap<T> = Snap(data: T, active: Option<Name>)

  /** The pool's rollback record. A pending one is asked of the next mount, and keeps its
      two snapshots from being deleted. Applied, it holds the tree it replaced until the
      boot completes; meanwhile its target, unless deleted, has the LIVE flag and no other
      rollback is taken. */
  datatype Rollback = NoRollback | Pending(target: Name, safety: Name) | Hold(live: Option<Name>, safety: Name)

  datatype Pool<T> = Pool(data: T, active: Option<Name>, snaps: map<Name, Snap<T>>, rollback: Rollback)

  datatype Phase =
    | Idle        // no transaction
    | Snapped     // tx_begin: the snapshot is taken
    | Recorded    // tx_begin: tx-active names it
    | Open        // tx_begin returned; the command runs
    | Ending      // tx_end: synced
    | Deleted     // tx_end: past rootsnap_delete
    | Unlinked    // tx_end: past unlink
    | Down        // cut off, or restarting
    | Mounted     // init, before or inside pkg_recover
    | Restarting  // pkg_recover asked for the rollback

  /** `since` are the states since the last sync, the present one last: a power cut
      leaves any of them on disk. The last two fields are the model's own: `reached` is the
      data at the last tx_end, and `good` the data as the last whole command left it. A
      command is whole once tx_end, or a cut inside it, has left no record that names its
      snapshot. */
  datatype State<T> = State(phase: Phase, tx: Name, pool: Pool<T>, since: seq<Pool<T>>, good: T, reached: T)

  datatype Event<T> =
    | Begin(name: Name)
    | Record
    | RecordFails(deleted: bool)
    | SyncOpen
    | Change(data: T)
    | EndSync
    | Delete(ok: bool)
    | Unlink(ok: bool)
    | EndDone
    | Crash(at: nat)
    | Mount(applied: bool)
    | ClearRecord(ok: bool)
    | DropLive(ok: bool)
    | Request(safety: Name)
    | Restart(ok: bool)
    | BootOn
    | BootComplete
    | Prune(name: Name)

  // ---- the steps ----

  predicate Live<T>(p: Pool<T>, n: Name) {
    p.rollback.Hold? && p.rollback.live == Some(n)
  }

  /** The record names a snapshot that is there, and the root was not just rolled back to
      it: `pkg_recover` owes it a rollback. */
  predicate Undoable<T>(p: Pool<T>) {
    p.active.Some? && p.active.value.Tx? && p.active.value in p.snaps && !Live(p, p.active.value)
  }

  function Tree<T>(p: Pool<T>): Snap<T> {
    Snap(p.data, p.active)
  }

  /** The mount makes the pending snapshot the root. */
  function RollBack<T>(p: Pool<T>): Pool<T>
    requires p.rollback.Pending? && p.rollback.target in p.snaps
  {
    var t := p.rollback.target;
    Pool(p.snaps[t].data, p.snaps[t].active, p.snaps, Hold(Some(t), p.rollback.safety))
  }

  /** A boot is past `pkg_recover`. */
  predicate Up(phase: Phase) {
    !phase.Down? && !phase.Mounted? && !phase.Restarting?
  }

  predicate InEnd(phase: Phase) {
    phase.Ending? || phase.Deleted? || phase.Unlinked?
  }

  predicate Enabled<T>(s: State<T>, e: Event<T>) {
    var p := s.pool;
    match e
    case Begin(name) => s.phase.Idle? && name.Tx? && name !in p.snaps && p.active != Some(name)
    case Record => s.phase.Snapped?
    case RecordFails(_) => s.phase.Snapped?
    case SyncOpen => s.phase.Recorded?
    case Change(_) => s.phase.Open?
    case EndSync => s.phase.Open?
    case Delete(_) => s.phase.Ending?
    case Unlink(_) => s.phase.Deleted?
    case EndDone => s.phase.Unlinked?
    case Crash(at) => at < |s.since|
    case Mount(applied) => s.phase.Down? && (applied ==> p.rollback.Pending? && p.rollback.target in p.snaps)
    case ClearRecord(_) => s.phase.Mounted? && p.active.Some? && p.active.value !in p.snaps
    case DropLive(_) => s.phase.Mounted? && p.rollback.Hold? && p.rollback.live.Some? && p.rollback.live.value.Tx?
    case Request(safety) =>
      s.phase.Mounted? && Undoable(p) && p.rollback.NoRollback? && safety.Undone? && safety !in p.snaps
    case Restart(_) => s.phase.Restarting?
    case BootOn => s.phase.Mounted?
    case BootComplete => Up(s.phase)
    case Prune(name) =>
      Up(s.phase) && name.Undone? && name in p.snaps && (p.rollback.NoRollback? || p.rollback.safety != name)
  }

  /** A change of the pool, not synced yet. */
  function Moved<T>(s: State<T>, phase: Phase, p: Pool<T>): State<T> {
    s.(phase := phase, pool := p, since := s.since + [p])
  }

  function Without<T>(p: Pool<T>, name: Name): Pool<T> {
    p.(snaps := p.snaps - {name})
  }

  function Next<T>(s: State<T>, e: Event<T>): State<T>
    requires Enabled(s, e)
  {
    var p := s.pool;
    match e
    case Begin(name) => Moved(s, Snapped, p.(snaps := p.snaps[name := Tree(p)])).(tx := name)
    case Record => Moved(s, Recorded, p.(active := Some(s.tx)))
    case RecordFails(deleted) => Moved(s, Idle, if deleted then Without(p, s.tx) else p)
    case SyncOpen => s.(phase := Open, since := [p])
    case Change(data) => Moved(s, Open, p.(data := data))
    case EndSync => s.(phase := Ending, since := [p], reached := p.data)
    case Delete(ok) => Moved(s, Deleted, if ok then Without(p, s.tx) else p)
    case Unlink(ok) => Moved(s, Unlinked, if ok then p.(active := None) else p)
    case EndDone => s.(phase := Idle, since := [p], good := if Undoable(p) then s.good else s.reached)
    case Crash(at) =>
      var q := s.since[at];
      s.(phase := Down, pool := q, since := [q], good := if InEnd(s.phase) && !Undoable(q) then s.reached else s.good)
    case Mount(applied) => Moved(s, Mounted, if applied then RollBack(p) else p)
    case ClearRecord(ok) => Moved(s, Mounted, if ok then p.(active := None) else p)
    case DropLive(ok) =>
      Moved(s, Mounted, if ok then Without(p, p.rollback.live.value).(rollback := Hold(None, p.rollback.safety)) else p)
    case Request(safety) =>
      Moved(s, Restarting, p.(snaps := p.snaps[safety := Tree(p)], rollback := Pending(p.active.value, safety)))
    case Restart(ok) => s.(phase := if ok then Down else Idle, since := [p])
    case BootOn => s.(phase := Idle)
    case BootComplete => Moved(s, s.phase, if p.rollback.Hold? then p.(rollback := NoRollback) else p)
    case Prune(name) => Moved(s, s.phase, Without(p, name))
  }

  /** Nothing is owed: no rollback is pending, and the record names no snapshot that is
      there. `rootsnap_list` and tx-active tell a command this before it begins. */
  predicate Clear<T>(p: Pool<T>) {
    !p.rollback.Pending? && !(p.active.Some? && p.active.value in p.snaps)
  }

  ghost predicate Runs<T>(s: State<T>, es: seq<Event<T>>)
    decreases |es|
  {
    es == [] || (Enabled(s, es[0]) && Runs(Next(s, es[0]), es[1..]))
  }

  /** A run in which no command begins while a recovery is owed. */
  ghost predicate Careful<T>(s: State<T>, es: seq<Event<T>>)
    decreases |es|
  {
    es == [] ||
    (Enabled(s, es[0]) && (es[0].Begin? ==> Clear(s.pool)) && Careful(Next(s, es[0]), es[1..]))
  }

  function Final<T>(s: State<T>, es: seq<Event<T>>): State<T>
    requires Runs(s, es)
    decreases |es|
  {
    if es == [] then s else Final(Next(s, es[0]), es[1..])
  }

  lemma {:induction false} CarefulRuns<T>(s: State<T>, es: seq<Event<T>>)
    requires Careful(s, es)
    ensures Runs(s, es)
    decreases |es|
  {
    if es != [] {
      CarefulRuns(Next(s, es[0]), es[1..]);
    }
  }

  lemma RunCons<T>(s: State<T>, e: Event<T>, es: seq<Event<T>>)
    requires Enabled(s, e) && Runs(Next(s, e), es)
    ensures Runs(s, [e] + es) && Final(s, [e] + es) == Final(Next(s, e), es)
  {
    assert ([e] + es)[1..] == es;
  }

  lemma {:induction false} RunAppend<T>(s: State<T>, es: seq<Event<T>>, fs: seq<Event<T>>)
    requires Runs(s, es) && Runs(Final(s, es), fs)
    ensures Runs(s, es + fs) && Final(s, es + fs) == Final(Final(s, es), fs)
    decreases |es|
  {
    if es == [] {
      assert es + fs == fs;
    } else {
      RunAppend(Next(s, es[0]), es[1..], fs);
      assert (es + fs)[1..] == es[1..] + fs;
    }
  }

  lemma AppendRest<E>(es: seq<E>, fs: seq<E>)
    requires es != []
    ensures (es + fs)[0] == es[0] && (es + fs)[1..] == es[1..] + fs
  {
  }

  lemma {:induction false} CarefulSplit<T>(s: State<T>, es: seq<Event<T>>, fs: seq<Event<T>>)
    requires Careful(s, es + fs)
    ensures Careful(s, es) && Runs(s, es) && Careful(Final(s, es), fs)
    decreases |es|
  {
    if es == [] {
      assert es + fs == fs;
    } else {
      AppendRest(es, fs);
      CarefulSplit(Next(s, es[0]), es[1..], fs);
    }
  }

  // ---- the invariant of careful runs ----

  /** What the rollback record names is there. */
  ghost predicate Sound<T>(p: Pool<T>) {
    && (p.rollback.Pending? ==> p.rollback.target.Tx? && p.rollback.target in p.snaps && p.rollback.safety in p.snaps)
    && (p.rollback.Hold? && p.rollback.live.Some? ==> p.rollback.live.value.Tx? && p.rollback.live.value in p.snaps)
    && (!p.rollback.NoRollback? ==> p.rollback.safety.Undone?)
  }

  /** No snapshot bears the name a tree's record holds. */
  ghost predicate Absent<T>(active: Option<Name>, p: Pool<T>) {
    active.Some? ==> active.value.Tx? && active.value !in p.snaps
  }

  /** Nothing to recover, and the data is `d`. */
  ghost predicate Calm<T>(p: Pool<T>, d: T) {
    p.data == d && !p.rollback.Pending? && Absent(p.active, p) && Sound(p)
  }

  /** Cut short: the record names its snapshot, which holds `d` and no such record. */
  ghost predicate Armed<T>(p: Pool<T>, d: T) {
    && Undoable(p) && Sound(p)
    && p.snaps[p.active.value].data == d
    && Absent(p.snaps[p.active.value].active, p)
    && (p.rollback.Pending? ==> p.rollback.target == p.active.value)
  }

  /** The root holds `d`, or the snapshot that recovery rolls it back to does. */
  ghost predicate Recovers<T>(p: Pool<T>, d: T) {
    Calm(p, d) || Armed(p, d)
  }

  ghost predicate AllRecover<T>(ps: seq<Pool<T>>, d: T) {
    forall p :: p in ps ==> Recovers(p, d)
  }

  /** The transaction `tx` over data `d` is open. */
  ghost predicate Guarded<T>(p: Pool<T>, tx: Name, d: T) {
    Armed(p, d) && p.active == Some(tx) && !p.rollback.Pending?
  }

  /** While the transaction ends, a cut undoes it whole or not at all. */
  ghost predicate EndStates<T>(s: State<T>) {
    forall p :: p in s.since ==> Guarded(p, s.tx, s.good) || Calm(p, s.reached)
  }

  ghost predicate Inv<T>(s: State<T>) {
    && s.since != [] && s.since[|s.since| - 1] == s.pool
    && match s.phase
       case Idle => AllRecover(s.since, s.good)
       case Snapped =>
         && Calm(s.pool, s.good) && AllRecover(s.since, s.good)
         && s.tx.Tx? && s.pool.active != Some(s.tx) && !Live(s.pool, s.tx)
         && s.tx in s.pool.snaps && s.pool.snaps[s.tx] == Tree(s.pool)
       case Recorded => Guarded(s.pool, s.tx, s.good) && AllRecover(s.since, s.good)
       case Open => Guarded(s.pool, s.tx, s.good) && AllRecover(s.since, s.good)
       case Ending => s.pool.data == s.reached && forall p :: p in s.since ==> Guarded(p, s.tx, s.good)
       case Deleted =>
         && s.pool.data == s.reached && EndStates(s)
         && (Guarded(s.pool, s.tx, s.good) || Calm(s.pool, s.reached))
       case Unlinked =>
         && s.pool.data == s.reached && EndStates(s)
         && (Guarded(s.pool, s.tx, s.good) || Calm(s.pool, s.reached))
       case Down => AllRecover(s.since, s.good)
       case Mounted => AllRecover(s.since, s.good)
       case Restarting => AllRecover(s.since, s.good) && Undoable(s.pool) && s.pool.rollback.Pending?
  }

  lemma OpeningKeeps<T>(s: State<T>, e: Event<T>)
    requires Inv(s) && Enabled(s, e) && (e.Begin? ==> Clear(s.pool))
    requires e.Begin? || e.Record? || e.RecordFails? || e.SyncOpen? || e.Change?
    ensures Inv(Next(s, e))
  {
    assert s.pool in s.since;
  }

  lemma EndingKeeps<T>(s: State<T>, e: Event<T>)
    requires Inv(s) && Enabled(s, e)
    requires e.EndSync? || e.Delete? || e.Unlink? || e.EndDone?
    ensures Inv(Next(s, e))
  {
    assert s.pool in s.since;
  }

  lemma CrashKeeps<T>(s: State<T>, e: Event<T>)
    requires Inv(s) && Enabled(s, e) && e.Crash?
    ensures Inv(Next(s, e))
  {
    assert s.since[e.at] in s.since;
  }

  lemma RecoveryKeeps<T>(s: State<T>, e: Event<T>)
    requires Inv(s) && Enabled(s, e)
    requires e.Mount? || e.ClearRecord? || e.Request? || e.Restart? || e.BootOn?
    ensures Inv(Next(s, e))
  {
    assert s.pool in s.since;
  }

  lemma SnapshotsKeep<T>(s: State<T>, e: Event<T>)
    requires Inv(s) && Enabled(s, e)
    requires e.DropLive? || e.BootComplete?
    ensures Inv(Next(s, e))
  {
    assert s.pool in s.since;
  }

  lemma PruneKeeps<T>(s: State<T>, e: Event<T>)
    requires Inv(s) && Enabled(s, e) && e.Prune?
    ensures Inv(Next(s, e))
  {
    assert s.pool in s.since;
  }

  /** Every step keeps it: each state a cut can leave recovers to whole data. */
  lemma StepKeepsInv<T>(s: State<T>, e: Event<T>)
    requires Inv(s) && Enabled(s, e) && (e.Begin? ==> Clear(s.pool))
    ensures Inv(Next(s, e))
  {
    if e.Begin? || e.Record? || e.RecordFails? || e.SyncOpen? || e.Change? {
      OpeningKeeps(s, e);
    } else if e.EndSync? || e.Delete? || e.Unlink? || e.EndDone? {
      EndingKeeps(s, e);
    } else if e.Crash? {
      CrashKeeps(s, e);
    } else if e.DropLive? || e.BootComplete? {
      SnapshotsKeep(s, e);
    } else if e.Prune? {
      PruneKeeps(s, e);
    } else {
      RecoveryKeeps(s, e);
    }
  }

  lemma {:induction false} RunKeepsInv<T>(s: State<T>, es: seq<Event<T>>)
    requires Inv(s) && Careful(s, es)
    ensures Runs(s, es) && Inv(Final(s, es))
    decreases |es|
  {
    CarefulRuns(s, es);
    if es != [] {
      StepKeepsInv(s, es[0]);
      RunKeepsInv(Next(s, es[0]), es[1..]);
    }
  }

  // ---- whole runs ----

  ghost predicate Fresh<T>(s: State<T>) {
    s.phase.Idle? && Calm(s.pool, s.good) && s.since == [s.pool]
  }

  /** The root settles on `d`: it holds it, or recovery will bring it back; and a root to
      which nothing is owed holds it. */
  ghost predicate SettlesOn<T>(s: State<T>, d: T) {
    Recovers(s.pool, d) && (Clear(s.pool) ==> s.pool.data == d)
  }

  lemma {:induction false} NoEndKeepsGood<T>(s: State<T>, es: seq<Event<T>>)
    requires Runs(s, es) && !InEnd(s.phase) && forall e :: e in es ==> !e.EndSync?
    ensures Final(s, es).good == s.good && !InEnd(Final(s, es).phase)
    decreases |es|
  {
    if es != [] {
      assert es[0] in es && forall e :: e in es[1..] ==> e in es;
      NoEndKeepsGood(Next(s, es[0]), es[1..]);
    }
  }

  /** A finished command stays: whatever other commands begin, are cut or fail to start, no
      cut and no recovery changes what the root settles on until one of them reaches its
      own tx_end. */
  lemma FinishedStays<T>(s: State<T>, es: seq<Event<T>>)
    requires Inv(s) && !InEnd(s.phase) && Careful(s, es)
    requires forall e :: e in es ==> !e.EndSync?
    ensures Runs(s, es) && Final(s, es).good == s.good
    ensures Final(s, es).phase.Idle? ==> SettlesOn(Final(s, es), s.good)
  {
    RunKeepsInv(s, es);
    NoEndKeepsGood(s, es);
    assert Final(s, es).pool in Final(s, es).since;
  }

  lemma {:induction false} OneEndGood<T>(s: State<T>, es: seq<Event<T>>)
    requires Runs(s, es) && InEnd(s.phase) && forall e :: e in es ==> !e.EndSync?
    ensures Final(s, es).good == s.good || Final(s, es).good == s.reached
    decreases |es|
  {
    if es != [] {
      assert es[0] in es && forall e :: e in es[1..] ==> e in es;
      if InEnd(Next(s, es[0]).phase) {
        OneEndGood(Next(s, es[0]), es[1..]);
      } else {
        NoEndKeepsGood(Next(s, es[0]), es[1..]);
      }
    }
  }

  /** Crash atomicity over every careful run, cut anywhere and any number of times. Let the
      last command to reach its tx_end do so in state `u`. Idle again, the root settles on
      what was settled before that command or on what it had reached, whole; before any
      such command, on what the run began with (`FinishedStays`). */
  lemma CrashAtomic<T>(s: State<T>, before: seq<Event<T>>, after: seq<Event<T>>)
    requires Fresh(s) && Careful(s, before + ([EndSync] + after)) && forall e :: e in after ==> !e.EndSync?
    ensures Runs(s, before) && Runs(s, before + ([EndSync] + after))
    ensures var u, f := Final(s, before), Final(s, before + ([EndSync] + after));
      f.phase.Idle? ==> (f.good == u.good || f.good == u.pool.data) && SettlesOn(f, f.good)
  {
    var es := [EndSync] + after;
    CarefulSplit(s, before, es);
    RunKeepsInv(s, before);
    var u := Final(s, before);
    RunKeepsInv(u, es);
    RunAppend(s, before, es);
    assert es[0] == EndSync && es[1..] == after;
    OneEndGood(Next(u, EndSync), after);
    var f := Final(u, es);
    assert f.pool in f.since;
  }

  /** A cut before tx_end leaves the command undone; one inside tx_end keeps it if and only
      if the state on disk no longer has both the snapshot and the record that names it. */
  lemma CutOutcome<T>(s: State<T>, at: nat)
    requires Inv(s) && Enabled(s, Crash(at))
    ensures var t := Next(s, Crash(at));
      && Recovers(t.pool, t.good)
      && (t.good == s.good || t.good == s.reached)
      && (!InEnd(s.phase) || s.phase.Ending? ==> t.good == s.good)
      && (s.phase.Deleted? || s.phase.Unlinked? ==>
            if s.since[at].active == Some(s.tx) && s.tx in s.since[at].snaps
            then Armed(t.pool, s.good)
            else Calm(t.pool, s.reached))
  {
    var q := s.since[at];
    assert q in s.since;
    CrashKeeps(s, Crash(at));
    assert Next(s, Crash(at)).pool in Next(s, Crash(at)).since;
  }

  // ---- recovery ----

  /** A step of recovery in which nothing is refused: the mount applies what is pending, the
      restart is made, and init does not boot on with a rollback owed. */
  predicate Unrefused<T>(s: State<T>, e: Event<T>) {
    match e
    case Mount(applied) => applied == s.pool.rollback.Pending?
    case Restart(ok) => ok
    case BootOn => !Undoable(s.pool)
    case ClearRecord(_) => true
    case DropLive(_) => true
    case Request(_) => true
    case _ => false
  }

  ghost predicate RecoveryRun<T>(s: State<T>, es: seq<Event<T>>)
    decreases |es|
  {
    es == [] || (Enabled(s, es[0]) && Unrefused(s, es[0]) && RecoveryRun(Next(s, es[0]), es[1..]))
  }

  function Restarts<T>(es: seq<Event<T>>): nat {
    if es == [] then 0 else (if es[0].Restart? then 1 else 0) + Restarts(es[1..])
  }

  /** The restarts a recovery from here still needs. */
  function Budget<T>(s: State<T>): nat {
    if s.phase.Restarting? then 1
    else if !Up(s.phase) && Undoable(s.pool) && !s.pool.rollback.Pending? then 1
    else 0
  }

  lemma RecoveryStep<T>(s: State<T>, e: Event<T>)
    requires Inv(s) && Enabled(s, e) && Unrefused(s, e)
    ensures Inv(Next(s, e)) && Next(s, e).good == s.good
    ensures Budget(Next(s, e)) + (if e.Restart? then 1 else 0) <= Budget(s)
    ensures Next(s, e).phase.Idle? ==> Calm(Next(s, e).pool, s.good)
  {
    StepKeepsInv(s, e);
    assert s.pool in s.since;
  }

  /** Every recovery in which nothing is refused restarts at most once and boots with the
      data due, nothing left to recover. */
  lemma {:induction false} RecoveryRight<T>(s: State<T>, es: seq<Event<T>>)
    requires Inv(s) && !Up(s.phase) && RecoveryRun(s, es)
    ensures Runs(s, es) && Restarts(es) <= Budget(s) <= 1
    ensures Up(Final(s, es).phase) ==> Final(s, es).phase.Idle? && Calm(Final(s, es).pool, s.good)
    decreases |es|
  {
    if es != [] {
      RecoveryStep(s, es[0]);
      var t := Next(s, es[0]);
      if Up(t.phase) {
        assert es[1..] == [];
      } else {
        RecoveryRight(t, es[1..]);
      }
    }
  }

  /** And there is one, unless the hold of an earlier rollback is still in place. */
  lemma RecoveryEnds<T>(s: State<T>, safety: Name) returns (es: seq<Event<T>>)
    requires Inv(s) && s.phase.Down? && safety.Undone? && safety !in s.pool.snaps
    requires !Undoable(s.pool) || !s.pool.rollback.Hold?
    ensures RecoveryRun(s, es) && Runs(s, es)
    ensures Final(s, es).phase.Idle? && Calm(Final(s, es).pool, s.good)
  {
    if Budget(s) == 0 {
      MountRuns(s);
      es := [Mount(s.pool.rollback.Pending?), BootOn];
    } else {
      es := RequestRuns(s, safety);
    }
    RecoveryRight(s, es);
  }

  /** Under the hold there is none: the request is refused until a boot completes. */
  lemma {:induction false} HoldRefuses<T>(s: State<T>, es: seq<Event<T>>)
    requires !Up(s.phase) && !s.phase.Restarting? && Undoable(s.pool) && s.pool.rollback.Hold? && RecoveryRun(s, es)
    ensures Runs(s, es) && !Up(Final(s, es).phase)
    decreases |es|
  {
    if es != [] {
      HoldRefuses(Next(s, es[0]), es[1..]);
    }
  }

  lemma RequestRuns<T>(s: State<T>, safety: Name) returns (es: seq<Event<T>>)
    requires Inv(s) && s.phase.Down? && safety.Undone? && safety !in s.pool.snaps
    requires Undoable(s.pool) && s.pool.rollback.NoRollback?
    ensures RecoveryRun(s, es) && Runs(s, es) && Final(s, es).phase.Idle?
  {
    var a := Next(s, Mount(false));
    RecoveryStep(s, Mount(false));
    var b := Next(a, Request(safety));
    RecoveryStep(a, Request(safety));
    var c := Next(b, Restart(true));
    RecoveryStep(b, Restart(true));
    MountRuns(c);
    es := [Mount(true), BootOn];
    RecoveryCons(b, Restart(true), es);
    es := [Restart(true)] + es;
    RecoveryCons(a, Request(safety), es);
    es := [Request(safety)] + es;
    RecoveryCons(s, Mount(false), es);
    es := [Mount(false)] + es;
  }

  lemma RecoveryCons<T>(s: State<T>, e: Event<T>, es: seq<Event<T>>)
    requires Enabled(s, e) && Unrefused(s, e) && RecoveryRun(Next(s, e), es) && Runs(Next(s, e), es)
    ensures RecoveryRun(s, [e] + es) && Runs(s, [e] + es) && Final(s, [e] + es) == Final(Next(s, e), es)
  {
    RunCons(s, e, es);
    assert ([e] + es)[1..] == es;
  }

  lemma MountRuns<T>(s: State<T>)
    requires Inv(s) && s.phase.Down? && Budget(s) == 0
    ensures var es: seq<Event<T>> := [Mount(s.pool.rollback.Pending?), BootOn];
      RecoveryRun(s, es) && Runs(s, es) && Final(s, es).phase.Idle?
  {
    assert s.pool in s.since;
    var e, last: seq<Event<T>> := Mount(s.pool.rollback.Pending?), [BootOn];
    var t := Next(s, e);
    RecoveryStep(s, e);
    assert last[1..] == [] && Runs(t, last) && RecoveryRun(t, last);
    RecoveryCons(s, e, last);
    assert [e] + last == [e, BootOn];
  }

  // ---- runs that are not careful ----

  /** `tx` is not what a rollback names. */
  ghost predicate Unnamed<T>(p: Pool<T>, tx: Name) {
    tx.Tx? && !Live(p, tx) && (p.rollback.Pending? ==> p.rollback.target != tx)
  }

  /** What every run keeps, whatever is owed when its commands begin. */
  ghost predicate Firm<T>(s: State<T>) {
    && s.since != [] && s.since[|s.since| - 1] == s.pool
    && (forall p :: p in s.since ==> Sound(p))
    && match s.phase
       case Snapped => Unnamed(s.pool, s.tx) && s.tx in s.pool.snaps
       case Recorded => Unnamed(s.pool, s.tx) && s.tx in s.pool.snaps && s.pool.active == Some(s.tx)
       case Open => Unnamed(s.pool, s.tx) && s.tx in s.pool.snaps && s.pool.active == Some(s.tx)
       case Ending =>
         Unnamed(s.pool, s.tx) && s.tx in s.pool.snaps && s.pool.active == Some(s.tx) && s.pool.data == s.reached
       case Deleted => Unnamed(s.pool, s.tx) && s.pool.active == Some(s.tx) && s.pool.data == s.reached
       case Unlinked => Unnamed(s.pool, s.tx) && s.pool.data == s.reached
       case _ => true
  }

  predicate OfCommand<T>(e: Event<T>) {
    || e.Begin? || e.Record? || e.RecordFails? || e.SyncOpen? || e.Change?
    || e.EndSync? || e.Delete? || e.Unlink? || e.EndDone?
  }

  lemma CommandKeepsFirm<T>(s: State<T>, e: Event<T>)
    requires Firm(s) && Enabled(s, e) && OfCommand(e)
    ensures Firm(Next(s, e))
  {
    assert s.pool in s.since;
  }

  lemma BootKeepsFirm<T>(s: State<T>, e: Event<T>)
    requires Firm(s) && Enabled(s, e) && !OfCommand(e)
    ensures Firm(Next(s, e))
  {
    assert s.pool in s.since;
    if e.Crash? {
      assert s.since[e.at] in s.since;
    }
  }

  lemma StepKeepsFirm<T>(s: State<T>, e: Event<T>)
    requires Firm(s) && Enabled(s, e)
    ensures Firm(Next(s, e))
  {
    if OfCommand(e) {
      CommandKeepsFirm(s, e);
    } else {
      BootKeepsFirm(s, e);
    }
  }

  lemma {:induction false} RunKeepsFirm<T>(s: State<T>, es: seq<Event<T>>)
    requires Firm(s) && Runs(s, es)
    ensures Firm(Final(s, es))
    decreases |es|
  {
    if es != [] {
      StepKeepsFirm(s, es[0]);
      RunKeepsFirm(Next(s, es[0]), es[1..]);
    }
  }

  /** Without a cut a boot stays up, and what is pending stays so. */
  lemma {:induction false} UpKeepsPending<T>(s: State<T>, es: seq<Event<T>>)
    requires Firm(s) && Up(s.phase) && Runs(s, es) && forall e :: e in es ==> !e.Crash?
    ensures Firm(Final(s, es)) && Up(Final(s, es).phase)
    ensures Final(s, es).pool.rollback.Pending? == s.pool.rollback.Pending?
    decreases |es|
  {
    if es != [] {
      assert es[0] in es && forall e :: e in es[1..] ==> e in es;
      StepKeepsFirm(s, es[0]);
      UpKeepsPending(Next(s, es[0]), es[1..]);
    }
  }

  /** A later boot rolls the root back: it is asked to, or `pkg_recover` will ask. */
  predicate Doomed<T>(p: Pool<T>) {
    p.rollback.Pending? || Undoable(p)
  }

  lemma EndRuns<T>(s: State<T>, deleted: bool, unlinked: bool)
    requires Firm(s) && s.phase.Ending?
    ensures var es: seq<Event<T>> := [Delete(deleted), Unlink(unlinked), EndDone];
      && Runs(s, es)
      && var t := Final(s, es);
      && t.phase.Idle? && t.since == [t.pool] && t.pool.data == s.reached == t.reached && Firm(t)
      && (Doomed(t.pool) <==> s.pool.rollback.Pending? || (!deleted && !unlinked))
      && (!Doomed(t.pool) ==> Calm(t.pool, t.reached) && t.good == t.reached)
  {
    var a := Next(s, Delete(deleted));
    StepKeepsFirm(s, Delete(deleted));
    var b := Next(a, Unlink(unlinked));
    StepKeepsFirm(a, Unlink(unlinked));
    StepKeepsFirm(b, EndDone);
    RunCons(b, EndDone, []);
    RunCons(a, Unlink(unlinked), [EndDone] + []);
    RunCons(s, Delete(deleted), [Unlink(unlinked)] + ([EndDone] + []));
    var es: seq<Event<T>> := [Delete(deleted), Unlink(unlinked), EndDone];
    assert es == [Delete(deleted)] + ([Unlink(unlinked)] + ([EndDone] + []));
    assert b.pool in b.since;
  }

  /** tx_end ignores two failures, and tx_begin does not look for a pending rollback. A
      command begun in `s` (`es` up to its tx_end) and finished is rolled back by a later
      boot if and only if a rollback was pending when it began or both failures happened. */
  lemma EndExact<T>(s: State<T>, es: seq<Event<T>>, deleted: bool, unlinked: bool)
    requires Firm(s) && s.phase.Idle? && Runs(s, es) && (forall e :: e in es ==> !e.Crash?)
    requires Final(s, es).phase.Ending?
    ensures var fs := es + [Delete(deleted), Unlink(unlinked), EndDone];
      && Runs(s, fs)
      && var t := Final(s, fs);
      && t.phase.Idle? && Firm(t) && t.pool.data == t.reached == Final(s, es).reached
      && (Doomed(t.pool) <==> s.pool.rollback.Pending? || (!deleted && !unlinked))
      && (!Doomed(t.pool) ==> Fresh(t) && t.good == t.reached)
  {
    UpKeepsPending(s, es);
    var u := Final(s, es);
    EndRuns(u, deleted, unlinked);
    RunAppend(s, es, [Delete(deleted), Unlink(unlinked), EndDone]);
  }

  /** What a later boot makes the root of a doomed pool. */
  function Owed<T>(p: Pool<T>): T
    requires Doomed(p) && Sound(p)
  {
    if p.rollback.Pending? then p.snaps[p.rollback.target].data else p.snaps[p.active.value].data
  }

  /** Doomed means it: boots in which nothing is refused make the root what is owed. */
  lemma DoomedUndone<T>(s: State<T>, safety: Name) returns (es: seq<Event<T>>)
    requires Firm(s) && s.phase.Idle? && Doomed(s.pool) && safety.Undone? && safety !in s.pool.snaps
    ensures Sound(s.pool) && Runs(s, es) && (forall e :: e in es ==> !e.Begin?)
    ensures Final(s, es).phase.Idle? && Final(s, es).pool.data == Owed(s.pool)
  {
    assert s.pool in s.since;
    var a := Next(s, BootComplete);
    StepKeepsFirm(s, BootComplete);
    var b := Next(a, Crash(|a.since| - 1));
    StepKeepsFirm(a, Crash(|a.since| - 1));
    es := UndoneFrom(b, safety);
    RunCons(a, Crash(|a.since| - 1), es);
    RunCons(s, BootComplete, [Crash(|a.since| - 1)] + es);
    es := [BootComplete] + ([Crash(|a.since| - 1)] + es);
  }

  lemma UndoneFrom<T>(s: State<T>, safety: Name) returns (es: seq<Event<T>>)
    requires Firm(s) && s.phase.Down? && Doomed(s.pool) && safety.Undone? && safety !in s.pool.snaps
    requires !s.pool.rollback.Hold?
    ensures Sound(s.pool) && Runs(s, es) && (forall e :: e in es ==> !e.Begin?)
    ensures Final(s, es).phase.Idle? && Final(s, es).pool.data == Owed(s.pool)
  {
    assert s.pool in s.since;
    if s.pool.rollback.Pending? {
      es := Applied(s);
    } else {
      var a := Next(s, Mount(false));
      var b := Next(a, Request(safety));
      var c := Next(b, Restart(true));
      es := Applied(c);
      RunCons(b, Restart(true), es);
      RunCons(a, Request(safety), [Restart(true)] + es);
      RunCons(s, Mount(false), [Request(safety)] + ([Restart(true)] + es));
      es := [Mount(false)] + ([Request(safety)] + ([Restart(true)] + es));
    }
  }

  lemma Applied<T>(s: State<T>) returns (es: seq<Event<T>>)
    requires s.phase.Down? && s.pool.rollback.Pending? && s.pool.rollback.target in s.pool.snaps
    ensures Runs(s, es) && (forall e :: e in es ==> !e.Begin?)
    ensures Final(s, es).phase.Idle? && Final(s, es).pool.data == s.pool.snaps[s.pool.rollback.target].data
  {
    var t := Next(s, Mount(true));
    RunCons(t, BootOn, []);
    RunCons(s, Mount(true), [BootOn] + []);
    es := [Mount(true)] + ([BootOn] + []);
  }

  // ---- why the condition is there ----

  lemma Opened<T>(s: State<T>, name: Name) returns (es: seq<Event<T>>)
    requires s.phase.Idle? && Enabled(s, Begin(name))
    ensures Runs(s, es) && (forall e :: e in es ==> !e.Crash?)
    ensures es != [] && (forall e :: e in es[1..] ==> !e.Begin?)
    ensures var t, p := Final(s, es), s.pool;
      && t.phase.Open? && t.tx == name && t.good == s.good && t.since == [t.pool]
      && t.pool == p.(active := Some(name), snaps := p.snaps[name := Tree(p)])
  {
    var a := Next(s, Begin(name));
    var b := Next(a, Record);
    RunCons(b, SyncOpen, []);
    RunCons(a, Record, [SyncOpen] + []);
    RunCons(s, Begin(name), [Record] + ([SyncOpen] + []));
    es := [Begin(name)] + ([Record] + ([SyncOpen] + []));
  }

  /** A command that changes the data to `x` and is cut. */
  lemma CutShort<T>(s: State<T>, name: Name, x: T) returns (es: seq<Event<T>>)
    requires s.phase.Idle? && Enabled(s, Begin(name))
    ensures Runs(s, es) && es != [] && forall e :: e in es[1..] ==> !e.Begin?
    ensures var t, p := Final(s, es), s.pool;
      && t.phase.Down? && t.good == s.good && t.since == [t.pool]
      && t.pool == p.(data := x, active := Some(name), snaps := p.snaps[name := Tree(p)])
  {
    var fs := Opened(s, name);
    var u := Final(s, fs);
    var v := Next(u, Change(x));
    RunCons(v, Crash(1), []);
    RunCons(u, Change(x), [Crash(1)] + []);
    RunAppend(s, fs, [Change(x)] + ([Crash(1)] + []));
    es := fs + ([Change(x)] + ([Crash(1)] + []));
  }

  /** A command that leaves the data `x`, up to its tx_end. */
  lemma ToTheEnd<T>(s: State<T>, name: Name, x: T) returns (es: seq<Event<T>>)
    requires s.phase.Idle? && Enabled(s, Begin(name))
    ensures Runs(s, es) && forall e :: e in es ==> !e.Crash?
    ensures var t, p := Final(s, es), s.pool;
      && t.phase.Ending? && t.tx == name && t.reached == x
      && t.pool.snaps == p.snaps[name := Tree(p)] && t.pool.rollback == p.rollback
  {
    var fs := Opened(s, name);
    var u := Final(s, fs);
    var v := Next(u, Change(x));
    RunCons(v, EndSync, []);
    RunCons(u, Change(x), [EndSync] + []);
    RunAppend(s, fs, [Change(x)] + ([EndSync] + []));
    es := fs + ([Change(x)] + ([EndSync] + []));
  }

  lemma EndPool<T>(s: State<T>, deleted: bool, unlinked: bool)
    requires s.phase.Ending?
    ensures var es: seq<Event<T>> := [Delete(deleted), Unlink(unlinked), EndDone];
      && Runs(s, es)
      && Final(s, es).pool.rollback == s.pool.rollback
      && Final(s, es).pool.snaps == if deleted then s.pool.snaps - {s.tx} else s.pool.snaps
  {
    var a := Next(s, Delete(deleted));
    var b := Next(a, Unlink(unlinked));
    RunCons(b, EndDone, []);
    RunCons(a, Unlink(unlinked), [EndDone] + []);
    RunCons(s, Delete(deleted), [Unlink(unlinked)] + ([EndDone] + []));
    var es: seq<Event<T>> := [Delete(deleted), Unlink(unlinked), EndDone];
    assert es == [Delete(deleted)] + ([Unlink(unlinked)] + ([EndDone] + []));
  }

  /** A command that finishes with data `x`, both deletions made. */
  lemma Finishes<T>(s: State<T>, name: Name, x: T) returns (es: seq<Event<T>>)
    requires Firm(s) && s.phase.Idle? && Enabled(s, Begin(name))
    ensures Runs(s, es)
    ensures var t := Final(s, es);
      && t.phase.Idle? && Firm(t) && t.pool.data == t.reached == x
      && t.pool.snaps == s.pool.snaps && t.pool.rollback == s.pool.rollback
      && (s.pool.rollback.Pending? || Fresh(t))
  {
    var fs := ToTheEnd(s, name, x);
    UpKeepsPending(s, fs);
    EndExact(s, fs, true, true);
    EndPool(Final(s, fs), true, true);
    es := [Delete(true), Unlink(true), EndDone];
    RunAppend(s, fs, es);
    es := fs + es;
    assert Final(s, es).pool.snaps == s.pool.snaps;
  }

  /** Whatever recovery is owed when a command begins, a finished command is lost or a cut
      one kept. With the rollback pending, the command finishes with `x`, and the next boot
      brings back what was settled before. With none pending, the command takes over the
      record and, finished, is settled: on the data the cut left, if it adds nothing to it. */
  lemma UnclearFails<T>(s: State<T>, name: Name, x: T, safety: Name)
    returns (es: seq<Event<T>>, boot: seq<Event<T>>)
    requires Inv(s) && s.phase.Idle? && !Clear(s.pool) && Enabled(s, Begin(name))
    requires safety.Undone? && safety !in s.pool.snaps
    ensures Runs(s, es)
    ensures var t := Final(s, es);
      && t.phase.Idle? && t.pool.data == t.reached
      && (if s.pool.rollback.Pending?
          then t.reached == x && Runs(t, boot) && (forall e :: e in boot ==> !e.Begin?)
            && Final(t, boot).phase.Idle? && Final(t, boot).pool.data == s.good
          else t.reached == s.pool.data && Fresh(t))
  {
    assert s.pool in s.since;
    if s.pool.rollback.Pending? {
      es := Finishes(s, name, x);
      boot := DoomedUndone(Final(s, es), safety);
    } else {
      es := Finishes(s, name, s.pool.data);
      boot := [];
    }
  }

  /** Such states are reached: a first command is cut over data `mix`; recovery asks for the
      rollback and the restart is refused, or it could not ask; and the system boots on. */
  lemma BootsOn<T>(d: T, mix: T, asked: bool) returns (s: State<T>, es: seq<Event<T>>)
    ensures Fresh(s) && s.good == d && Careful(s, es) && Runs(s, es)
    ensures var u := Final(s, es);
      && u.phase.Idle? && Inv(u) && u.good == d && u.pool.data == mix
      && !Clear(u.pool) && u.pool.rollback.Pending? == asked
  {
    var p: Pool<T> := Pool(d, None, map[], NoRollback);
    s := State(Idle, Tx(0), p, [p], d, d);
    var fs := CutShort(s, Tx(1), mix);
    var a := Final(s, fs);
    var b := Next(a, Mount(false));
    var gs: seq<Event<T>>;
    if asked {
      RunCons(Next(b, Request(Undone(2))), Restart(false), []);
      RunCons(b, Request(Undone(2)), [Restart(false)] + []);
      gs := [Request(Undone(2))] + ([Restart(false)] + []);
    } else {
      RunCons(b, BootOn, []);
      gs := [BootOn] + [];
    }
    RunCons(a, Mount(false), gs);
    RunAppend(s, fs, [Mount(false)] + gs);
    es := fs + ([Mount(false)] + gs);
    OneBeginCareful(s, es);
    RunKeepsInv(s, es);
  }

  lemma {:induction false} LaterCareful<T>(s: State<T>, es: seq<Event<T>>)
    requires Runs(s, es) && forall e :: e in es ==> !e.Begin?
    ensures Careful(s, es)
    decreases |es|
  {
    if es != [] {
      assert es[0] in es && forall e :: e in es[1..] ==> e in es;
      LaterCareful(Next(s, es[0]), es[1..]);
    }
  }

  lemma OneBeginCareful<T>(s: State<T>, es: seq<Event<T>>)
    requires Runs(s, es) && es != [] && Clear(s.pool) && forall e :: e in es[1..] ==> !e.Begin?
    ensures Careful(s, es)
  {
    LaterCareful(Next(s, es[0]), es[1..]);
  }

  // ---- under the hold ----

  lemma {:induction false} CarefulAppend<T>(s: State<T>, es: seq<Event<T>>, fs: seq<Event<T>>)
    requires Careful(s, es) && Runs(s, es) && Careful(Final(s, es), fs)
    ensures Careful(s, es + fs)
    decreases |es|
  {
    if es == [] {
      assert es + fs == fs;
    } else {
      CarefulAppend(Next(s, es[0]), es[1..], fs);
      AppendRest(es, fs);
    }
  }

  lemma CutCareful<T>(s: State<T>, name: Name, x: T) returns (es: seq<Event<T>>)
    requires s.phase.Idle? && Enabled(s, Begin(name)) && Clear(s.pool)
    ensures Careful(s, es) && Runs(s, es)
    ensures var t, p := Final(s, es), s.pool;
      && t.phase.Down? && t.good == s.good && t.since == [t.pool]
      && t.pool == p.(data := x, active := Some(name), snaps := p.snaps[name := Tree(p)])
  {
    es := CutShort(s, name, x);
    OneBeginCareful(s, es);
  }

  /** A recovery that leaves the hold in place. */
  lemma RolledBack<T>(s: State<T>, safety: Name) returns (es: seq<Event<T>>)
    requires s.phase.Down? && Undoable(s.pool) && s.pool.rollback.NoRollback?
    requires safety.Undone? && safety !in s.pool.snaps
    ensures Runs(s, es) && Careful(s, es)
    ensures var t, p := Final(s, es), s.pool;
      && t.phase.Idle? && t.good == s.good
      && t.pool == Pool(p.snaps[p.active.value].data, p.snaps[p.active.value].active, p.snaps[safety := Tree(p)],
                        Hold(p.active, safety))
  {
    var a := Next(s, Mount(false));
    var b := Next(a, Request(safety));
    var c := Next(b, Restart(true));
    var d := Next(c, Mount(true));
    RunCons(d, BootOn, []);
    RunCons(c, Mount(true), [BootOn] + []);
    RunCons(b, Restart(true), [Mount(true)] + ([BootOn] + []));
    RunCons(a, Request(safety), [Restart(true)] + ([Mount(true)] + ([BootOn] + [])));
    RunCons(s, Mount(false), [Request(safety)] + ([Restart(true)] + ([Mount(true)] + ([BootOn] + []))));
    es := [Mount(false)] + ([Request(safety)] + ([Restart(true)] + ([Mount(true)] + ([BootOn] + []))));
    LaterCareful(s, es);
  }

  /** `HoldRefuses` is met: a command is cut and undone, and before that boot completes a
      second one is cut over data `y`. The next boot cannot ask for the rollback it owes. */
  lemma HoldReached<T>(d: T, x: T, y: T) returns (s: State<T>, es: seq<Event<T>>)
    ensures Fresh(s) && s.good == d && Careful(s, es) && Runs(s, es)
    ensures var u := Final(s, es);
      u.phase.Down? && Undoable(u.pool) && u.pool.rollback.Hold? && u.good == d && u.pool.data == y
  {
    var p: Pool<T> := Pool(d, None, map[], NoRollback);
    s := State(Idle, Tx(0), p, [p], d, d);
    var fs := CutCareful(s, Tx(1), x);
    var a := Final(s, fs);
    var gs := RolledBack(a, Undone(2));
    var b := Final(a, gs);
    var hs := CutCareful(b, Tx(3), y);
    RunAppend(a, gs, hs);
    CarefulAppend(a, gs, hs);
    RunAppend(s, fs, gs + hs);
    CarefulAppend(s, fs, gs + hs);
    es := fs + (gs + hs);
  }
}
