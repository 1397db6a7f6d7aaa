/**
 The package manager's vocabulary: versions and their order, dependencies,
 manifests, and the database of installed packages.
 */
module Packages {

  /** A version that `version_parse` accepts. `text` is what the files hold, and
      what the constraint store compares; the components and the revision are what
      the order compares. */
  datatype Version = Version(text: string, comp: seq<nat>, rev: nat)

  datatype Op = NoOp | Eq | Ge | Le | Lt | Gt

  datatype Depend = Depend(name: string, op: Op, version: Version)

  /** One "file:" line. `sum` stands for the recorded size, mode and SHA-512. */
  datatype FileEntry = FileEntry(path: string, sum: int)

  datatype Manifest = Manifest(
    name: string,
    version: Version,
    depends: seq<Depend>,
    provided: seq<string>,
    needed: seq<string>,
    files: seq<FileEntry>)

  /** The installed records, by package name. */
  type Database = map<string, Manifest>

  const MAX_INDEX: nat := 1024
  const MAX_FILES: nat := 4096

  /** The missing components of a shorter version count as 0. */
  function Head(s: seq<nat>): nat {
    if s == [] then 0 else s[0]
  }

  function Rest(s: seq<nat>): seq<nat> {
    if s == [] then [] else s[1..]
  }

  function ComponentCmp(a: seq<nat>, b: seq<nat>): int
    decreases |a| + |b|
  {
    if a == [] && b == [] then 0
    else if Head(a) != Head(b) then (if Head(a) < Head(b) then -1 else 1)
    else ComponentCmp(Rest(a), Rest(b))
  }

  function VersionCmp(a: Version, b: Version): int {
    var c := ComponentCmp(a.comp, b.comp);
    if c != 0 then c
    else if a.rev == b.rev then 0
    else if a.rev < b.rev then -1
    else 1
  }

  predicate Satisfied(d: Depend, v: Version) {
    var c := VersionCmp(v, d.version);
    match d.op
    case NoOp => true
    case Eq => c == 0
    case Ge => c >= 0
    case Le => c <= 0
    case Lt => c < 0
    case Gt => c > 0
  }

  lemma {:induction false} ComponentOrder(a: seq<nat>, b: seq<nat>, c: seq<nat>)
    ensures ComponentCmp(a, a) == 0
    ensures ComponentCmp(b, a) == -ComponentCmp(a, b)
    ensures ComponentCmp(a, b) <= 0 && ComponentCmp(b, c) <= 0 ==> ComponentCmp(a, c) <= 0
    ensures ComponentCmp(a, b) == 0 ==> ComponentCmp(a, c) == ComponentCmp(b, c)
    decreases |a| + |b| + |c|
  {
    if a != [] || b != [] || c != [] {
      ComponentOrder(Rest(a), Rest(b), Rest(c));
    }
  }

  /** `version_cmp` is a total preorder, and versions it calls equal (1.0 and 1.00)
      satisfy the same dependencies. */
  lemma VersionOrder(a: Version, b: Version, c: Version)
    ensures VersionCmp(a, a) == 0
    ensures VersionCmp(b, a) == -VersionCmp(a, b)
    ensures VersionCmp(a, b) <= 0 && VersionCmp(b, c) <= 0 ==> VersionCmp(a, c) <= 0
    ensures VersionCmp(a, b) == 0 ==> forall d: Depend :: Satisfied(d, a) == Satisfied(d, b)
  {
    ComponentOrder(a.comp, b.comp, c.comp);
    ComponentOrder(b.comp, c.comp, a.comp);
    ComponentOrder(a.comp, c.comp, b.comp);
    forall d: Depend | VersionCmp(a, b) == 0
      ensures Satisfied(d, a) == Satisfied(d, b)
    {
      ComponentOrder(a.comp, b.comp, d.version.comp);
    }
  }

  /** Every installed package finds each of its dependencies installed, at a version
      it accepts. */
  ghost predicate DependsMet(db: Database) {
    forall n, d :: n in db && d in db[n].depends ==>
      d.name in db && Satisfied(d, db[d.name].version)
  }

  ghost predicate Named(db: Database) {
    forall n :: n in db ==> db[n].name == n
  }
}
