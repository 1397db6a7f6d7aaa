/**
 The apply and revert protocol of the instrumentation probes: several files patched
 together, either command killed between any two of its steps, any number of times.
 */
module ProbePatch {

  type Data = seq<int>

  /** A source file, its backup, the stamp, or the temporary of one of these. */
  datatype Path = Src(name: string) | Backup(name: string) | Stamp | Tmp(of: Path)

  /** One line of the stamp: a file with the hashes of its two contents. */
  datatype Entry = Entry(name: string, patched: int, orig: int)

  datatype Content = Bytes(data: Data) | Lines(entries: seq<Entry>)

  type Files = map<Path, Content>

  datatype Edited = NoAnchor | Patch(data: Data)

  /** A file with its edits: a function of the file's text, defined when every anchor is
      there exactly once. */
  datatype Change = Change(name: string, edit: Data -> Edited)

  datatype Outcome = Killed | NotApplied | Refused | Reverted | Applied

  datatype Command = Apply(changes: seq<Change>) | Revert

  // ---- the invariant ----

  ghost predicate Planned(es: seq<Entry>, n: string) {
    exists e :: e in es && e.name == n
  }

  /** The stamp describes this tree: a line per file, the two hashes of each different. */
  ghost predicate StampFor(sha: Data -> int, orig: map<string, Data>, es: seq<Entry>) {
    && (forall e :: e in es ==> e.name in orig && e.orig == sha(orig[e.name]) && e.patched != e.orig)
    && (forall i, j :: 0 <= i < j < |es| ==> es[i].name != es[j].name)
  }

  ghost predicate Intact(f: Files, orig: map<string, Data>, n: string) {
    n in orig && Src(n) in f && f[Src(n)] == Bytes(orig[n])
  }

  ghost predicate Saved(f: Files, orig: map<string, Data>, n: string) {
    n in orig && Backup(n) in f && f[Backup(n)] == Bytes(orig[n])
  }

  /** Patched, with the original saved. */
  ghost predicate Patched(f: Files, sha: Data -> int, orig: map<string, Data>, es: seq<Entry>, n: string) {
    && Src(n) in f && f[Src(n)].Bytes? && Saved(f, orig, n)
    && exists e :: e in es && e.name == n && sha(f[Src(n)].data) == e.patched
  }

  /** The paths that may exist while the stamp holds `es`. */
  ghost predicate Expected(orig: map<string, Data>, es: seq<Entry>, p: Path) {
    match p
    case Src(n) => n in orig
    case Backup(n) => Planned(es, n)
    case Stamp => true
    case Tmp(q) => q == Stamp || (q.Src? && Planned(es, q.name)) || (q.Backup? && Planned(es, q.name))
  }

  /** Every file is its original or its patched bytes, and what is patched is saved. */
  ghost predicate Recoverable(f: Files, sha: Data -> int, orig: map<string, Data>, es: seq<Entry>) {
    && (forall n :: n in orig ==> Intact(f, orig, n) || Patched(f, sha, orig, es, n))
    && (forall n :: Backup(n) in f ==> Saved(f, orig, n))
    && (forall p :: p in f ==> Expected(orig, es, p))
  }

  ghost predicate Inv(f: Files, sha: Data -> int, orig: map<string, Data>) {
    if Stamp in f then
      f[Stamp].Lines? && StampFor(sha, orig, f[Stamp].entries) && Recoverable(f, sha, orig, f[Stamp].entries)
    else
      Recoverable(f, sha, orig, [])
  }

  /** Every file as it was, and nothing else. */
  ghost predicate Pristine(f: Files, orig: map<string, Data>) {
    && (forall n :: n in orig ==> Intact(f, orig, n))
    && (forall p :: p in f ==> p.Src? && p.name in orig)
  }

  // ---- the steps that keep it ----

  /** What a `write_atomic` of `c` to `p` may leave when it is killed: nothing, a
      temporary with any content, or the file replaced. */
  ghost predicate Writing(f: Files, g: Files, p: Path, c: Content) {
    || g == f
    || (Tmp(p) in g && g == f[Tmp(p) := g[Tmp(p)]])
    || g == (f - {Tmp(p)})[p := c]
  }

  lemma WriteBackup(f: Files, g: Files, sha: Data -> int, orig: map<string, Data>, es: seq<Entry>, n: string)
    requires Recoverable(f, sha, orig, es) && n in orig && Planned(es, n)
    requires Writing(f, g, Backup(n), Bytes(orig[n]))
    ensures Recoverable(g, sha, orig, es)
  {
    forall m | m in orig
      ensures Intact(g, orig, m) || Patched(g, sha, orig, es, m)
    {
      assert Intact(f, orig, m) || Patched(f, sha, orig, es, m);
      assert Saved(f, orig, m) ==> Saved(g, orig, m);
    }
    forall p | p in g
      ensures Expected(orig, es, p)
    {
      assert p in f || p == Backup(n) || p == Tmp(Backup(n));
    }
  }

  lemma WritePatch(f: Files, g: Files, sha: Data -> int, orig: map<string, Data>, es: seq<Entry>, e: Entry, patch: Data)
    requires Recoverable(f, sha, orig, es) && e in es && e.name in orig && Saved(f, orig, e.name)
    requires sha(patch) == e.patched && Writing(f, g, Src(e.name), Bytes(patch))
    ensures Recoverable(g, sha, orig, es)
    ensures forall m :: Saved(f, orig, m) ==> Saved(g, orig, m)
  {
    forall m | m in orig
      ensures Intact(g, orig, m) || Patched(g, sha, orig, es, m)
    {
      assert Intact(f, orig, m) || Patched(f, sha, orig, es, m);
      assert Saved(f, orig, m) ==> Saved(g, orig, m);
      assert Planned(es, e.name);
    }
    forall p | p in g
      ensures Expected(orig, es, p)
    {
      assert p in f || p == Src(e.name) || p == Tmp(Src(e.name));
    }
  }

  lemma WriteOriginal(f: Files, g: Files, sha: Data -> int, orig: map<string, Data>, es: seq<Entry>, n: string)
    requires Recoverable(f, sha, orig, es) && n in orig && Planned(es, n)
    requires Writing(f, g, Src(n), Bytes(orig[n]))
    ensures Recoverable(g, sha, orig, es)
    ensures forall m :: Intact(f, orig, m) ==> Intact(g, orig, m)
  {
    forall m | m in orig
      ensures Intact(g, orig, m) || Patched(g, sha, orig, es, m)
    {
      assert Intact(f, orig, m) || Patched(f, sha, orig, es, m);
      assert Saved(f, orig, m) ==> Saved(g, orig, m);
    }
    forall p | p in g
      ensures Expected(orig, es, p)
    {
      assert p in f || p == Src(n) || p == Tmp(Src(n));
    }
  }

  /** While every file is original, a leftover can go. */
  lemma DropLeftover(f: Files, sha: Data -> int, orig: map<string, Data>, es: seq<Entry>, p: Path)
    requires Recoverable(f, sha, orig, es) && (forall n :: n in orig ==> Intact(f, orig, n))
    requires p.Backup? || p.Tmp?
    ensures Recoverable(f - {p}, sha, orig, es) && forall n :: n in orig ==> Intact(f - {p}, orig, n)
  {
    var g := f - {p};
    forall n | n in orig
      ensures Intact(g, orig, n)
    {
      assert Intact(f, orig, n);
    }
  }

  lemma WriteStamp(f: Files, g: Files, sha: Data -> int, orig: map<string, Data>, es: seq<Entry>)
    requires Stamp !in f && Recoverable(f, sha, orig, []) && StampFor(sha, orig, es)
    requires Writing(f, g, Stamp, Lines(es))
    ensures Inv(g, sha, orig)
    ensures Stamp in g ==> g[Stamp] == Lines(es)
  {
    forall n | n in orig
      ensures Intact(g, orig, n)
    {
      assert Intact(f, orig, n) || Patched(f, sha, orig, [], n);
    }
    forall n
      ensures Backup(n) !in g
    {
      assert Backup(n) in f ==> Expected(orig, [], Backup(n));
    }
    forall p | p in g
      ensures Expected(orig, if Stamp in g then es else [], p)
    {
      assert p in f ==> Expected(orig, [], p);
    }
  }

  /** The last step: with every file original and no leftover, the stamp goes. */
  lemma DropStamp(f: Files, sha: Data -> int, orig: map<string, Data>, es: seq<Entry>)
    requires Recoverable(f, sha, orig, es) && (forall n :: n in orig ==> Intact(f, orig, n))
    requires forall e :: e in es ==> Cleared(f, e.name)
    requires Tmp(Stamp) !in f
    ensures Pristine(f - {Stamp}, orig) && Inv(f - {Stamp}, sha, orig)
  {
    var g := f - {Stamp};
    forall n | n in orig
      ensures Intact(g, orig, n)
    {
      assert Intact(f, orig, n);
    }
    forall p | p in g
      ensures p.Src? && p.name in orig
    {
      assert p in f && Expected(orig, es, p);
    }
  }

  ghost predicate Cleared(f: Files, n: string) {
    Backup(n) !in f && Tmp(Src(n)) !in f && Tmp(Backup(n)) !in f
  }

  // ---- the commands ----

  /** A file read, and what it becomes. */
  datatype Todo = Todo(name: string, orig: Data, patch: Data)

  function Stamped(sha: Data -> int, plan: seq<Todo>): (es: seq<Entry>)
    ensures |es| == |plan|
    ensures forall i :: 0 <= i < |plan| ==> es[i] == Entry(plan[i].name, sha(plan[i].patch), sha(plan[i].orig))
  {
    seq(|plan|, i requires 0 <= i < |plan| => Entry(plan[i].name, sha(plan[i].patch), sha(plan[i].orig)))
  }

  class Workspace {
    var files: Files
    const sha: Data -> int
    /** The tree the probes are applied to. */
    ghost const orig: map<string, Data>

    constructor (tree: map<string, Data>, sha: Data -> int)
      ensures this.sha == sha && orig == tree && Pristine(files, orig) && Inv(files, sha, orig)
    {
      this.sha := sha;
      orig := tree;
      files := map n | n in tree :: Src(n) := Bytes(tree[n]);
    }

    /** `write_atomic`: the temporary opened, then whole, then renamed; false when the
        process is killed before the next step. */
    method WriteAtomic(p: Path, c: Content) returns (alive: bool)
      modifies this`files
      ensures Writing(old(files), files, p, c)
      ensures alive ==> files == (old(files) - {Tmp(p)})[p := c]
    {
      if * {
        return false;
      }
      var part: Data := *;
      files := files[Tmp(p) := Bytes(part)];
      if * {
        return false;
      }
      files := files[Tmp(p) := c];
      if * {
        return false;
      }
      files := (files - {Tmp(p)})[p := c];
      return true;
    }

    /** The first half of `apply_files`: every patch built in memory, or nothing done. */
    method Plan(changes: seq<Change>) returns (ok: bool, plan: seq<Todo>)
      requires Recoverable(files, sha, orig, [])
      ensures ok ==> |plan| == |changes|
      ensures ok ==> forall i :: 0 <= i < |changes| ==>
        && plan[i].name == changes[i].name && plan[i].name in orig
        && plan[i].orig == orig[plan[i].name] && changes[i].edit(plan[i].orig) == Patch(plan[i].patch)
    {
      plan := [];
      for i := 0 to |changes|
        invariant |plan| == i
        invariant forall k :: 0 <= k < i ==>
          && plan[k].name == changes[k].name && plan[k].name in orig
          && plan[k].orig == orig[plan[k].name] && changes[k].edit(plan[k].orig) == Patch(plan[k].patch)
      {
        var n := changes[i].name;
        if Backup(n) in files || Src(n) !in files || !files[Src(n)].Bytes? {
          return false, [];
        }
        if * {
          return false, [];   // git status finds changes in it, or fails
        }
        assert Expected(orig, [], Src(n)) && (Intact(files, orig, n) || Patched(files, sha, orig, [], n));
        var data := files[Src(n)].data;
        var edited := changes[i].edit(data);
        if edited.NoAnchor? {
          return false, [];
        }
        plan := plan + [Todo(n, data, edited.data)];
      }
      ok := true;
    }

    /** `apply_files`: the stamp, then each backup and each file. */
    method ApplyFiles(changes: seq<Change>) returns (out: Outcome)
      requires Inv(files, sha, orig) && Patches(sha, orig, changes)
      modifies this`files
      ensures Inv(files, sha, orig)
      ensures out.Killed? || out.Refused? || out.Applied?
      ensures old(Stamp in files) ==> out.Refused? && files == old(files)
      ensures out.Applied? ==> Stamp in files && forall c :: c in changes ==>
        c.name in orig && Src(c.name) in files && files[Src(c.name)].Bytes? &&
        c.edit(orig[c.name]) == Patch(files[Src(c.name)].data)
    {
      if Stamp in files {
        return Refused;
      }
      ghost var f := files;
      if Tmp(Stamp) in files {
        files := files - {Tmp(Stamp)};
        WriteNothing(f, files, sha, orig);
        if * {
          return Killed;
        }
      }
      var ok, plan := Plan(changes);
      if !ok {
        return Refused;
      }
      var es := Stamped(sha, plan);
      f := files;
      StampedFor(sha, orig, changes, plan);
      var alive := WriteAtomic(Stamp, Lines(es));
      WriteStamp(f, files, sha, orig, es);
      if !alive {
        return Killed;
      }
      alive := PatchAll(plan, es);
      if !alive {
        return Killed;
      }
      forall c | c in changes
        ensures c.name in orig && Src(c.name) in files && files[Src(c.name)].Bytes? &&
          c.edit(orig[c.name]) == Patch(files[Src(c.name)].data)
      {
        var i :| 0 <= i < |changes| && changes[i] == c;
        assert files[Src(plan[i].name)] == Bytes(plan[i].patch);
      }
      return Applied;
    }

    method PatchAll(plan: seq<Todo>, es: seq<Entry>) returns (alive: bool)
      requires Stamp in files && files[Stamp] == Lines(es) && es == Stamped(sha, plan)
      requires Inv(files, sha, orig)
      requires forall t :: t in plan ==> t.name in orig && t.orig == orig[t.name]
      modifies this`files
      ensures Inv(files, sha, orig) && Stamp in files
      ensures alive ==> forall i :: 0 <= i < |plan| ==>
        Src(plan[i].name) in files && files[Src(plan[i].name)] == Bytes(plan[i].patch)
    {
      for i := 0 to |plan|
        invariant Stamp in files && files[Stamp] == Lines(es)
        invariant Inv(files, sha, orig)
        invariant forall k :: 0 <= k < i ==>
          Src(plan[k].name) in files && files[Src(plan[k].name)] == Bytes(plan[k].patch)
      {
        assert plan[i] in plan && es[i] in es;
        alive := PatchOne(plan[i], es, es[i]);
        if !alive {
          return;
        }
        assert forall k :: 0 <= k < i ==> es[k].name != es[i].name;
      }
      alive := true;
    }

    /** The backup, then the file. */
    method PatchOne(t: Todo, es: seq<Entry>, e: Entry) returns (alive: bool)
      requires Stamp in files && files[Stamp] == Lines(es)
      requires Inv(files, sha, orig) && e in es && e == Entry(t.name, sha(t.patch), sha(t.orig))
      requires t.name in orig && t.orig == orig[t.name]
      modifies this`files
      ensures Stamp in files && files[Stamp] == Lines(es) && Inv(files, sha, orig)
      ensures alive ==> Src(t.name) in files && files[Src(t.name)] == Bytes(t.patch)
      ensures forall m :: m != t.name && Src(m) in old(files) ==> Src(m) in files && files[Src(m)] == old(files)[Src(m)]
    {
      ghost var f := files;
      assert Planned(es, t.name);
      alive := WriteAtomic(Backup(t.name), Bytes(t.orig));
      WriteBackup(f, files, sha, orig, es, t.name);
      if !alive {
        return;
      }
      f := files;
      alive := WriteAtomic(Src(t.name), Bytes(t.patch));
      WritePatch(f, files, sha, orig, es, e, t.patch);
    }

    /** `revert`: whatever an interruption left, a run that is not itself
        killed puts every file back and leaves nothing behind. */
    method RevertFiles() returns (out: Outcome)
      requires Inv(files, sha, orig)
      modifies this`files
      ensures Inv(files, sha, orig)
      ensures out.Killed? || out.NotApplied? || out.Reverted?
      ensures out.Reverted? || out.NotApplied? ==> Pristine(files, orig)
      ensures old(Stamp in files) ==> out.Killed? || out.Reverted?
    {
      ghost var f := files;
      if Stamp !in files {
        if * {
          return Killed;
        }
        files := files - {Tmp(Stamp)};
        WriteNothing(f, files, sha, orig);
        UnstampedPristine(files, sha, orig);
        return NotApplied;
      }
      var es := files[Stamp].entries;
      var fit := Checked(es);
      if !fit {
        return Refused;
      }
      var alive := RestoreAll(es);
      if alive {
        alive := RemoveLeftovers(es);
      }
      if !alive {
        return Killed;
      }
      out := RemoveStamp(es);
    }

    /** The first loop of `revert`: every file is its original, or patched with its
        original saved. It never finds otherwise. */
    method Checked(es: seq<Entry>) returns (ok: bool)
      requires StampFor(sha, orig, es) && Recoverable(files, sha, orig, es)
      ensures ok
    {
      for i := 0 to |es| {
        var e := es[i];
        assert e in es && (Intact(files, orig, e.name) || Patched(files, sha, orig, es, e.name));
        var cur := sha(files[Src(e.name)].data);
        if cur == e.orig {
          continue;
        }
        UniqueEntry(files, sha, orig, es, e);
        if cur != e.patched {
          return false;
        }
        if Backup(e.name) !in files || !files[Backup(e.name)].Bytes? || sha(files[Backup(e.name)].data) != e.orig {
          return false;
        }
      }
      return true;
    }

    method RestoreAll(es: seq<Entry>) returns (alive: bool)
      requires Stamp in files && files[Stamp] == Lines(es) && Inv(files, sha, orig)
      modifies this`files
      ensures Stamp in files && files[Stamp] == Lines(es) && Inv(files, sha, orig)
      ensures alive ==> forall n :: n in orig ==> Intact(files, orig, n)
    {
      for i := 0 to |es|
        invariant Stamp in files && files[Stamp] == Lines(es) && Inv(files, sha, orig)
        invariant forall k :: 0 <= k < i ==> Intact(files, orig, es[k].name)
      {
        var e := es[i];
        ghost var f := files;
        assert e in es && Planned(es, e.name);
        assert Intact(files, orig, e.name) || Patched(files, sha, orig, es, e.name);
        UniqueEntry(files, sha, orig, es, e);
        if sha(files[Src(e.name)].data) == e.patched {
          alive := WriteAtomic(Src(e.name), files[Backup(e.name)]);
          WriteOriginal(f, files, sha, orig, es, e.name);
          if !alive {
            return;
          }
        }
      }
      forall n | n in orig
        ensures Intact(files, orig, n)
      {
        assert Intact(files, orig, n) || Patched(files, sha, orig, es, n);
      }
      alive := true;
    }

    method RemoveLeftovers(es: seq<Entry>) returns (alive: bool)
      requires Stamp in files && files[Stamp] == Lines(es) && Inv(files, sha, orig)
      requires forall n :: n in orig ==> Intact(files, orig, n)
      modifies this`files
      ensures Stamp in files && files[Stamp] == Lines(es) && Inv(files, sha, orig)
      ensures forall n :: n in orig ==> Intact(files, orig, n)
      ensures alive ==> forall e :: e in es ==> Cleared(files, e.name)
    {
      for i := 0 to |es|
        invariant Stamp in files && files[Stamp] == Lines(es) && Inv(files, sha, orig)
        invariant forall n :: n in orig ==> Intact(files, orig, n)
        invariant forall k :: 0 <= k < i ==> Cleared(files, es[k].name)
      {
        ghost var f := files;
        alive := RemoveOne(es[i].name, es);
        if !alive {
          return;
        }
        assert forall k :: 0 <= k < i && Cleared(f, es[k].name) ==> Cleared(files, es[k].name);
      }
      alive := true;
    }

    /** The backup and the temporaries of one file. */
    method RemoveOne(n: string, ghost es: seq<Entry>) returns (alive: bool)
      requires Stamp in files && files[Stamp] == Lines(es) && Inv(files, sha, orig)
      requires forall n :: n in orig ==> Intact(files, orig, n)
      modifies this`files
      ensures Stamp in files && files[Stamp] == Lines(es) && Inv(files, sha, orig)
      ensures forall n :: n in orig ==> Intact(files, orig, n)
      ensures files.Keys <= old(files.Keys) && (alive ==> Cleared(files, n))
    {
      alive := Remove(Backup(n), es);
      if alive {
        alive := Remove(Tmp(Src(n)), es);
      }
      if alive {
        alive := Remove(Tmp(Backup(n)), es);
      }
    }

    /** One leftover, if it is there. */
    method Remove(p: Path, ghost es: seq<Entry>) returns (alive: bool)
      requires p.Backup? || p.Tmp?
      requires Stamp in files && files[Stamp] == Lines(es) && Inv(files, sha, orig)
      requires forall n :: n in orig ==> Intact(files, orig, n)
      modifies this`files
      ensures Stamp in files && files[Stamp] == Lines(es) && Inv(files, sha, orig)
      ensures forall n :: n in orig ==> Intact(files, orig, n)
      ensures files == old(files) || files == old(files) - {p}
      ensures alive ==> files == old(files) - {p}
    {
      if * {
        return false;
      }
      DropLeftover(files, sha, orig, es, p);
      files := files - {p};
      return true;
    }

    method RemoveStamp(ghost es: seq<Entry>) returns (out: Outcome)
      requires Stamp in files && files[Stamp] == Lines(es) && Inv(files, sha, orig)
      requires forall n :: n in orig ==> Intact(files, orig, n)
      requires forall e :: e in es ==> Cleared(files, e.name)
      modifies this`files
      ensures Inv(files, sha, orig) && (out.Killed? || out.Reverted?)
      ensures out.Reverted? ==> Pristine(files, orig)
    {
      var alive := Remove(Tmp(Stamp), es);
      if !alive {
        return Killed;
      }
      if * {
        return Killed;
      }
      DropStamp(files, sha, orig, es);
      files := files - {Stamp};
      return Reverted;
    }

    /** Any number of applies and reverts, each killed wherever it may be, and a last
        revert that is not: the tree is the one it was. */
    method Use(commands: seq<Command>) returns (out: Outcome)
      requires Inv(files, sha, orig)
      requires forall c :: c in commands && c.Apply? ==> Patches(sha, orig, c.changes)
      modifies this`files
      ensures Inv(files, sha, orig)
      ensures out.Killed? || Pristine(files, orig)
    {
      for i := 0 to |commands|
        invariant Inv(files, sha, orig)
      {
        assert commands[i] in commands;
        match commands[i]
        case Apply(changes) => var _ := ApplyFiles(changes);
        case Revert => var _ := RevertFiles();
      }
      out := RevertFiles();
    }
  }

  /** A file that is not its original hashes to its own line's second hash, and its
      original is saved. */
  lemma UniqueEntry(f: Files, sha: Data -> int, orig: map<string, Data>, es: seq<Entry>, e: Entry)
    requires StampFor(sha, orig, es) && Recoverable(f, sha, orig, es) && e in es
    ensures Src(e.name) in f && f[Src(e.name)].Bytes?
    ensures sha(f[Src(e.name)].data) != e.orig ==> sha(f[Src(e.name)].data) == e.patched
    ensures sha(f[Src(e.name)].data) == e.patched ==> Saved(f, orig, e.name)
    ensures sha(f[Src(e.name)].data) != e.patched ==> Intact(f, orig, e.name)
  {
    assert Intact(f, orig, e.name) || Patched(f, sha, orig, es, e.name);
    if !Intact(f, orig, e.name) {
      var x :| x in es && x.name == e.name && sha(f[Src(e.name)].data) == x.patched;
      var i :| 0 <= i < |es| && es[i] == e;
      var j :| 0 <= j < |es| && es[j] == x;
    }
  }

  lemma UnstampedPristine(f: Files, sha: Data -> int, orig: map<string, Data>)
    requires Stamp !in f && Inv(f, sha, orig) && Tmp(Stamp) !in f
    ensures Pristine(f, orig)
  {
    forall n | n in orig
      ensures Intact(f, orig, n)
    {
      assert Intact(f, orig, n) || Patched(f, sha, orig, [], n);
    }
    forall p | p in f
      ensures p.Src? && p.name in orig
    {
      assert Expected(orig, [], p);
    }
  }

  /** What the protocol asks of its patches: different files, and contents that hash
      differently from the originals. */
  ghost predicate Patches(sha: Data -> int, orig: map<string, Data>, changes: seq<Change>) {
    && (forall i, j :: 0 <= i < j < |changes| ==> changes[i].name != changes[j].name)
    && (forall c :: c in changes && c.name in orig && c.edit(orig[c.name]).Patch? ==>
          sha(c.edit(orig[c.name]).data) != sha(orig[c.name]))
  }

  lemma StampedFor(sha: Data -> int, orig: map<string, Data>, changes: seq<Change>, plan: seq<Todo>)
    requires Patches(sha, orig, changes) && |plan| == |changes|
    requires forall i :: 0 <= i < |changes| ==>
        && plan[i].name == changes[i].name && plan[i].name in orig
        && plan[i].orig == orig[plan[i].name] && changes[i].edit(plan[i].orig) == Patch(plan[i].patch)
    ensures StampFor(sha, orig, Stamped(sha, plan))
  {
    var es := Stamped(sha, plan);
    forall e | e in es
      ensures e.name in orig && e.orig == sha(orig[e.name]) && e.patched != e.orig
    {
      var i :| 0 <= i < |es| && es[i] == e;
      assert changes[i] in changes;
    }
  }

  lemma WriteNothing(f: Files, g: Files, sha: Data -> int, orig: map<string, Data>)
    requires Stamp !in f && Inv(f, sha, orig) && g == f - {Tmp(Stamp)}
    ensures Inv(g, sha, orig)
  {
    forall n | n in orig
      ensures Intact(g, orig, n)
    {
      assert Intact(f, orig, n) || Patched(f, sha, orig, [], n);
    }
  }
}
