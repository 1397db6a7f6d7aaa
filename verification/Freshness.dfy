/**
 The freshness of a network repository's index: a publisher whose serials rise, a server
 that may hand out any index ever signed, and a client that remembers the last it
 accepted. A run is any interleaving of publications, updates and damage to the client's
 stored index.
 */
module Freshness {

  const DAY: int := 86400
  const MAX_DAYS: int := 90
  const OLD_DAYS: int := 30
  const SERIALS: nat := 0x1_0000_0000_0000_0000
  const YEAR_10000: int := 253402300800

  datatype Header = Headless | Header(serial: nat, published: int, expires: int)

  // ---- the client ----

  datatype Verdict = Refused | Expired | Fresh

  /** `index_fresh`. */
  function IndexFresh(h: Header, last: nat, now: int): Verdict {
    if h.Headless? then Refused
    else if h.expires <= h.published || h.expires - h.published > MAX_DAYS * DAY then Refused
    else if now < h.published then Refused
    else if now >= h.expires then Expired
    else if h.serial < last then Refused
    else Fresh
  }

  /** The index stored last, by its header. */
  datatype Stored = Unreadable | Readable(h: Header)

  /** The serial accepted last. */
  function Last(stored: Stored): nat {
    if stored.Readable? && stored.h.Header? then stored.h.serial else 0
  }

  /** A signed index with header `h` is stored: it is fresh, and the write succeeds. */
  predicate Taken(stored: Stored, h: Header, now: int, written: bool) {
    IndexFresh(h, Last(stored), now) == Fresh && written
  }

  function Kept(stored: Stored, h: Header, now: int, written: bool): Stored {
    if Taken(stored, h, now, written) then Readable(h) else stored
  }

  datatype Answer = Unreached | Unsigned | Signed(h: Header, parses: bool)

  datatype Code = Done | Rejected | Failed | NotReached

  /** `pkg update` of one network repository. */
  class Client {
    var stored: Stored

    constructor ()
      ensures stored == Unreadable
    {
      stored := Unreadable;
    }

    /** `update_repo`: only an index that is signed, fresh and well formed is stored, and
        any other end leaves the stored one. */
    method UpdateRepo(answer: Answer, now: int, dryRun: bool) returns (code: Code)
      modifies this
      ensures stored != old(stored) ==>
        answer.Signed? && answer.parses && !dryRun && code == Done && stored == Kept(old(stored), answer.h, now, true)
      ensures code == Done && !dryRun ==> answer.Signed? && stored == Readable(answer.h)
      ensures code == Done ==> answer.Signed? && IndexFresh(answer.h, Last(old(stored)), now) == Fresh
      ensures code == Rejected <==>
        || answer.Unsigned?
        || (answer.Signed? && (!answer.parses || IndexFresh(answer.h, Last(old(stored)), now) != Fresh))
    {
      match answer
      case Unreached =>
        return NotReached;
      case Unsigned =>
        return Rejected;
      case Signed(h, parses) =>
        var last := Last(stored);
        var verdict := IndexFresh(h, last, now);
        if verdict == Expired {
          return Rejected;
        }
        if verdict != Fresh || !parses {
          return Rejected;
        }
        if !dryRun {
          var written: bool := *;
          if !written {
            return Failed;
          }
          stored := Readable(h);
        }
        return Done;
    }
  }

  // ---- the publisher ----

  datatype Arch = X86_64 | Aarch64

  datatype Name = Index90 | Index

  type Repo = map<Name, Header>

  type Site = map<Arch, Repo>

  function Days(name: Name): int {
    if name.Index90? then MAX_DAYS else OLD_DAYS
  }

  /** `site_serial`. */
  function SiteSerial(site: Site, arch: Arch): nat {
    if arch in site && Index in site[arch] && site[arch][Index].Header? then site[arch][Index].serial else 0
  }

  function Signing(serial: nat, now: int, name: Name): Header {
    Header(serial, now, now + Days(name) * DAY)
  }

  /** `published_index` signs it. */
  predicate Signs(serial: nat, now: int, name: Name) {
    1 <= serial < SERIALS && 0 <= now && now + Days(name) * DAY < YEAR_10000
  }

  /** `out` holds the two signings of the next serial for each architecture in `done`. */
  ghost predicate Next(site: Site, now: int, done: set<Arch>, out: Site) {
    && out.Keys == done
    && forall arch :: arch in done ==> NextRepo(SiteSerial(site, arch) + 1, now, {Index90, Index}, out[arch])
  }

  ghost predicate NextRepo(serial: nat, now: int, done: set<Name>, repo: Repo) {
    && repo.Keys == done
    && forall name :: name in done ==> Signs(serial, now, name) && repo[name] == Signing(serial, now, name)
  }

  class Publisher {
    var site: Site

    constructor ()
      ensures site == map[]
    {
      site := map[];
    }

    /** The signing loop: each architecture's index twice, under the site's serial plus
        one; a failure leaves the site as it was. */
    method Publish(now: int) returns (ok: bool)
      modifies this
      ensures ok ==> Next(old(site), now, {X86_64, Aarch64}, site)
      ensures !ok ==> site == old(site)
    {
      var out: Site := map[];
      var arches := [X86_64, Aarch64];
      var i := 0;
      while i < 2
        modifies {}
        invariant 0 <= i <= 2
        invariant Next(site, now, set k | 0 <= k < i :: arches[k], out)
      {
        var repo;
        ok, repo := SignRepo(SiteSerial(site, arches[i]) + 1, now);
        if !ok {
          return false;
        }
        out := out[arches[i] := repo];
        i := i + 1;
      }
      assert (set k | 0 <= k < 2 :: arches[k]) == {X86_64, Aarch64} by {
        assert arches[0] == X86_64 && arches[1] == Aarch64;
      }
      site := out;
      return true;
    }

    method SignRepo(serial: nat, now: int) returns (ok: bool, repo: Repo)
      ensures ok ==> NextRepo(serial, now, {Index90, Index}, repo)
    {
      repo := map[];
      var names := [Index90, Index];
      var i := 0;
      while i < 2
        invariant 0 <= i <= 2
        invariant NextRepo(serial, now, set k | 0 <= k < i :: names[k], repo)
      {
        var readable: bool := *;
        if !readable || !Signs(serial, now, names[i]) {
          return false, repo;
        }
        repo := repo[names[i] := Signing(serial, now, names[i])];
        i := i + 1;
      }
      assert (set k | 0 <= k < 2 :: names[k]) == {Index90, Index} by {
        assert names[0] == Index90 && names[1] == Index;
      }
      return true, repo;
    }
  }

  /** A publication raises every architecture's serial by exactly one. */
  lemma PublishRaises(site: Site, now: int, out: Site, arch: Arch)
    requires Next(site, now, {X86_64, Aarch64}, out)
    ensures SiteSerial(out, arch) == SiteSerial(site, arch) + 1
  {
    assert arch in {X86_64, Aarch64};
    assert NextRepo(SiteSerial(site, arch) + 1, now, {Index90, Index}, out[arch]);
    assert Index in {Index90, Index};
  }

  /** And every header it signs is fresh for its first 30 days to every client that holds no
      higher serial. */
  lemma PublishFresh(site: Site, now: int, out: Site, arch: Arch, name: Name, t: int, last: nat)
    requires Next(site, now, {X86_64, Aarch64}, out) && now <= t < now + OLD_DAYS * DAY && last <= SiteSerial(out, arch)
    ensures arch in out && name in out[arch] && out[arch][name] == Signing(SiteSerial(out, arch), now, name)
    ensures IndexFresh(out[arch][name], last, t) == Fresh
  {
    PublishRaises(site, now, out, arch);
    assert NextRepo(SiteSerial(site, arch) + 1, now, {Index90, Index}, out[arch]);
    assert name in {Index90, Index};
  }

  // ---- any schedule ----

  /** One publication: each architecture's serial, and the time. */
  datatype Publication = Publication(serial: Arch -> nat, time: int)

  datatype Acceptance = Acceptance(h: Header, now: int)

  /** The site, what was published from it, and one client. */
  datatype World = World(site: Site, log: seq<Publication>, stored: Stored, accepted: seq<Acceptance>)

  datatype Event =
    | Publish(now: int, out: Site)
    | Update(h: Header, now: int, written: bool)
    | Damage

  /** `h` was signed in publication `p` for `arch`. */
  predicate SignedFor(p: Publication, arch: Arch, h: Header) {
    h == Signing(p.serial(arch), p.time, Index90) || h == Signing(p.serial(arch), p.time, Index)
  }

  /** Nothing binds an index to an architecture: for either. */
  predicate SignedIn(p: Publication, h: Header) {
    SignedFor(p, X86_64, h) || SignedFor(p, Aarch64, h)
  }

  /** `h` was signed at some time: what a server can answer with, however old. */
  ghost predicate Offered(log: seq<Publication>, h: Header) {
    exists i :: 0 <= i < |log| && SignedIn(log[i], h)
  }

  ghost predicate Enabled(w: World, e: Event) {
    match e
    case Publish(now, out) => Next(w.site, now, {X86_64, Aarch64}, out)
    case Update(h, _, _) => Offered(w.log, h)
    case Damage => true
  }

  function Serials(site: Site): Arch -> nat {
    arch => SiteSerial(site, arch)
  }

  function After(w: World, e: Event): World {
    match e
    case Publish(now, out) => w.(site := out, log := w.log + [Publication(Serials(out), now)])
    case Update(h, now, written) =>
      if Taken(w.stored, h, now, written)
      then w.(stored := Readable(h), accepted := w.accepted + [Acceptance(h, now)])
      else w
    case Damage => w.(stored := Unreadable)
  }

  ghost predicate Run(w: World, es: seq<Event>)
    decreases |es|
  {
    es == [] || (Enabled(w, es[0]) && Run(After(w, es[0]), es[1..]))
  }

  function Final(w: World, es: seq<Event>): World
    decreases |es|
  {
    if es == [] then w else Final(After(w, es[0]), es[1..])
  }

  /** A site and a client of `arch` on it, nothing published or accepted yet. */
  ghost predicate Start(w: World, arch: Arch) {
    w.log == [] && w.accepted == [] && Last(w.stored) <= SiteSerial(w.site, arch)
  }

  /** No architecture's serial is above that of `arch`. */
  predicate Leads(site: Site, arch: Arch) {
    SiteSerial(site, X86_64) <= SiteSerial(site, arch) && SiteSerial(site, Aarch64) <= SiteSerial(site, arch)
  }

  // ---- what every run keeps ----

  /** Each publication raised every architecture's serial by one, up to the site's. */
  ghost predicate Rising(log: seq<Publication>, site: Site) {
    forall i, arch :: 0 <= i < |log| ==> log[i].serial(arch) + (|log| - 1 - i) == SiteSerial(site, arch)
  }

  ghost predicate InTime(log: seq<Publication>, a: Acceptance) {
    Offered(log, a.h) && a.h.published <= a.now < a.h.expires
  }

  ghost predicate AllInTime(w: World) {
    forall k :: 0 <= k < |w.accepted| ==> InTime(w.log, w.accepted[k])
  }

  ghost predicate Inv(w: World) {
    Rising(w.log, w.site) && AllInTime(w)
  }

  lemma OfferedStays(log: seq<Publication>, p: Publication, h: Header)
    requires Offered(log, h)
    ensures Offered(log + [p], h)
  {
    var i :| 0 <= i < |log| && SignedIn(log[i], h);
    assert (log + [p])[i] == log[i];
  }

  lemma RisingNext(site: Site, log: seq<Publication>, now: int, out: Site)
    requires Rising(log, site) && Next(site, now, {X86_64, Aarch64}, out)
    ensures Rising(log + [Publication(Serials(out), now)], out)
  {
    var log' := log + [Publication(Serials(out), now)];
    forall i, arch | 0 <= i < |log'|
      ensures log'[i].serial(arch) + (|log'| - 1 - i) == SiteSerial(out, arch)
    {
      PublishRaises(site, now, out, arch);
    }
  }

  lemma RisingStrictly(log: seq<Publication>, site: Site)
    requires Rising(log, site)
    ensures forall i, j, arch :: 0 <= i < j < |log| ==> log[i].serial(arch) < log[j].serial(arch)
  {
    forall i, j, arch | 0 <= i < j < |log|
      ensures log[i].serial(arch) < log[j].serial(arch)
    {
      assert log[i].serial(arch) + (|log| - 1 - i) == SiteSerial(site, arch);
    }
  }

  lemma InTimeStays(w: World, p: Publication)
    requires AllInTime(w)
    ensures AllInTime(w.(log := w.log + [p]))
  {
    forall k | 0 <= k < |w.accepted|
      ensures InTime(w.log + [p], w.accepted[k])
    {
      OfferedStays(w.log, p, w.accepted[k].h);
    }
  }

  lemma StepKeepsInv(w: World, e: Event)
    requires Inv(w) && Enabled(w, e)
    ensures Inv(After(w, e))
  {
    match e
    case Publish(now, out) =>
      RisingNext(w.site, w.log, now, out);
      InTimeStays(w, Publication(Serials(out), now));
    case _ =>
  }

  lemma {:induction false} RunKeepsInv(w: World, es: seq<Event>)
    requires Inv(w) && Run(w, es)
    ensures Inv(Final(w, es))
    decreases |es|
  {
    if es != [] {
      StepKeepsInv(w, es[0]);
      RunKeepsInv(After(w, es[0]), es[1..]);
    }
  }

  /** Over any schedule: published serials strictly rise, and every index accepted was
      signed by the publisher and inside its own validity of at most 90 days. */
  lemma EveryAcceptanceInTime(w: World, es: seq<Event>)
    requires w.log == [] && w.accepted == [] && Run(w, es)
    ensures var log := Final(w, es).log;
      forall i, j, arch :: 0 <= i < j < |log| ==> log[i].serial(arch) < log[j].serial(arch)
    ensures forall a :: a in Final(w, es).accepted ==>
      Offered(Final(w, es).log, a.h) && 0 <= a.now - a.h.published < MAX_DAYS * DAY
  {
    RunKeepsInv(w, es);
    var f := Final(w, es);
    RisingStrictly(f.log, f.site);
    forall a | a in f.accepted
      ensures Offered(f.log, a.h) && 0 <= a.now - a.h.published < MAX_DAYS * DAY
    {
      WithinDays(f.log, a);
    }
  }

  lemma WithinDays(log: seq<Publication>, a: Acceptance)
    requires InTime(log, a)
    ensures 0 <= a.now - a.h.published < MAX_DAYS * DAY
  {
    var i :| 0 <= i < |log| && SignedIn(log[i], a.h);
  }

  /** The stored serial falls in exactly one kind of step: damage that loses one. */
  lemma FallsExactly(w: World, e: Event)
    ensures Last(After(w, e).stored) < Last(w.stored) <==> e.Damage? && Last(w.stored) > 0
  {
  }

  /** So while the stored index stays readable it never falls. */
  lemma {:induction false} StoredNeverFalls(w: World, es: seq<Event>)
    requires forall e :: e in es ==> !e.Damage?
    ensures Last(w.stored) <= Last(Final(w, es).stored)
    decreases |es|
  {
    if es != [] {
      FallsExactly(w, es[0]);
      assert es[0] in es && forall e :: e in es[1..] ==> e in es;
      StoredNeverFalls(After(w, es[0]), es[1..]);
    }
  }

  ghost predicate ClockForward(log: seq<Publication>) {
    forall i, j :: 0 <= i < j < |log| ==> log[i].time <= log[j].time
  }

  /** A withheld update goes unnoticed for less than 90 days: whatever the server answers,
      and across damage, an index accepted at `now` comes from a later publication than each
      made 90 days or more before, given a publisher whose clock does not run back; so its
      serial is higher, too, than that publication's for the same architecture. */
  lemma WithheldBound(w: World, es: seq<Event>, a: Acceptance, i: int) returns (j: int)
    requires w.log == [] && w.accepted == [] && Run(w, es) && ClockForward(Final(w, es).log)
    requires a in Final(w, es).accepted && 0 <= i < |Final(w, es).log|
    requires Final(w, es).log[i].time + MAX_DAYS * DAY <= a.now
    ensures var log := Final(w, es).log; i < j < |log| && SignedIn(log[j], a.h)
    ensures var log := Final(w, es).log;
      forall arch :: SignedFor(log[j], arch, a.h) ==> log[i].serial(arch) < a.h.serial
  {
    RunKeepsInv(w, es);
    j := FromLater(Final(w, es).log, Final(w, es).site, a, i);
  }

  lemma FromLater(log: seq<Publication>, site: Site, a: Acceptance, i: int) returns (j: int)
    requires Rising(log, site) && ClockForward(log) && InTime(log, a)
    requires 0 <= i < |log| && log[i].time + MAX_DAYS * DAY <= a.now
    ensures i < j < |log| && SignedIn(log[j], a.h)
    ensures forall arch :: SignedFor(log[j], arch, a.h) ==> log[i].serial(arch) < a.h.serial
  {
    j :| 0 <= j < |log| && SignedIn(log[j], a.h);
    RisingStrictly(log, site);
  }

  // ---- never locked out ----

  /** No serial that can be offered, and none stored, is above the one `arch` has. */
  ghost predicate Reachable(w: World, arch: Arch) {
    Rising(w.log, w.site) && Leads(w.site, arch) && Last(w.stored) <= SiteSerial(w.site, arch)
  }

  lemma OfferedBelow(w: World, arch: Arch, h: Header)
    requires Rising(w.log, w.site) && Leads(w.site, arch) && Offered(w.log, h)
    ensures h.Header? && h.serial <= SiteSerial(w.site, arch)
  {
    var i :| 0 <= i < |w.log| && SignedIn(w.log[i], h);
    assert w.log[i].serial(X86_64) <= SiteSerial(w.site, X86_64);
    assert w.log[i].serial(Aarch64) <= SiteSerial(w.site, Aarch64);
  }

  lemma StepKeepsReachable(w: World, arch: Arch, e: Event)
    requires Reachable(w, arch) && Enabled(w, e)
    ensures Reachable(After(w, e), arch)
  {
    match e
    case Publish(now, out) =>
      RisingNext(w.site, w.log, now, out);
      PublishRaises(w.site, now, out, arch);
      PublishRaises(w.site, now, out, X86_64);
      PublishRaises(w.site, now, out, Aarch64);
    case Update(h, _, _) => OfferedBelow(w, arch, h);
    case Damage =>
  }

  lemma {:induction false} RunKeepsReachable(w: World, arch: Arch, es: seq<Event>)
    requires Reachable(w, arch) && Run(w, es)
    ensures Reachable(Final(w, es), arch)
    decreases |es|
  {
    if es != [] {
      StepKeepsReachable(w, arch, es[0]);
      RunKeepsReachable(After(w, es[0]), arch, es[1..]);
    }
  }

  /** A client is never locked out if no other architecture's serial was ahead of its own at
      the start: after any schedule the newest publication for it is accepted exactly while
      it is valid, and reported expired exactly from then on. */
  lemma NewestAccepted(w: World, arch: Arch, es: seq<Event>, h: Header, now: int)
    requires Start(w, arch) && Leads(w.site, arch) && Run(w, es) && Final(w, es).log != []
    requires var log := Final(w, es).log; SignedFor(log[|log| - 1], arch, h)
    ensures var v := IndexFresh(h, Last(Final(w, es).stored), now);
      (v == Fresh <==> h.published <= now < h.expires) && (v == Expired <==> h.expires <= now)
  {
    StartReachable(w, arch);
    RunKeepsReachable(w, arch, es);
    NewestIn(Final(w, es), arch, h, now);
  }

  lemma StartReachable(w: World, arch: Arch)
    requires Start(w, arch) && Leads(w.site, arch)
    ensures Reachable(w, arch)
  {
  }

  lemma NewestIn(w: World, arch: Arch, h: Header, now: int)
    requires Reachable(w, arch) && w.log != [] && SignedFor(w.log[|w.log| - 1], arch, h)
    ensures var v := IndexFresh(h, Last(w.stored), now);
      (v == Fresh <==> h.published <= now < h.expires) && (v == Expired <==> h.expires <= now)
  {
    NewestIsSite(w.log, w.site, arch);
    VerdictByTime(w.log[|w.log| - 1], arch, h, Last(w.stored), now);
  }

  lemma NewestIsSite(log: seq<Publication>, site: Site, arch: Arch)
    requires Rising(log, site) && log != []
    ensures log[|log| - 1].serial(arch) == SiteSerial(site, arch)
  {
    assert log[|log| - 1].serial(arch) + (|log| - 1 - (|log| - 1)) == SiteSerial(site, arch);
  }

  lemma VerdictByTime(p: Publication, arch: Arch, h: Header, last: nat, now: int)
    requires SignedFor(p, arch, h) && last <= p.serial(arch)
    ensures var v := IndexFresh(h, last, now);
      (v == Fresh <==> h.published <= now < h.expires) && (v == Expired <==> h.expires <= now)
  {
  }

  lemma RunOne(w: World, e: Event)
    requires Enabled(w, e)
    ensures Run(w, [e]) && Final(w, [e]) == After(w, e)
  {
    assert [e][1..] == [];
  }

  lemma RunTwo(w: World, e: Event, e': Event)
    requires Enabled(w, e) && Enabled(After(w, e), e')
    ensures Run(w, [e, e']) && Final(w, [e, e']) == After(After(w, e), e')
  {
    RunOne(After(w, e), e');
    assert [e, e'][1..] == [e'];
  }

  /** And only if: from every start where another architecture `ahead` has a higher serial, a
      publication and one answer with the other's index make the client refuse its own newest
      index, while that is valid. */
  lemma LockedOut(w: World, arch: Arch, ahead: Arch, now: int, out: Site) returns (es: seq<Event>, h: Header)
    requires Start(w, arch) && SiteSerial(w.site, arch) < SiteSerial(w.site, ahead)
    requires Next(w.site, now, {X86_64, Aarch64}, out)
    ensures Run(w, es) && Final(w, es).log != []
    ensures var log := Final(w, es).log; SignedFor(log[|log| - 1], arch, h)
    ensures h.published <= now < h.expires && IndexFresh(h, Last(Final(w, es).stored), now) == Refused
  {
    AheadStays(w, arch, ahead, now, out);
    var p, v := Publication(Serials(out), now), After(w, Publish(now, out));
    es, h := OtherAccepted(v, arch, ahead, p, now);
    RunCons(w, Publish(now, out), es);
    es := [Publish(now, out)] + es;
  }

  lemma AheadStays(w: World, arch: Arch, ahead: Arch, now: int, out: Site)
    requires Start(w, arch) && SiteSerial(w.site, arch) < SiteSerial(w.site, ahead)
    requires Next(w.site, now, {X86_64, Aarch64}, out)
    ensures Last(w.stored) <= SiteSerial(out, arch) < SiteSerial(out, ahead)
  {
    PublishRaises(w.site, now, out, arch);
    PublishRaises(w.site, now, out, ahead);
  }

  lemma OtherAccepted(w: World, arch: Arch, ahead: Arch, p: Publication, now: int) returns (es: seq<Event>, h: Header)
    requires w.log == [] + [p] && p.time == now && Last(w.stored) <= p.serial(arch) < p.serial(ahead)
    ensures Run(w, es) && Final(w, es).log == w.log && SignedFor(p, arch, h)
    ensures h.published <= now < h.expires && IndexFresh(h, Last(Final(w, es).stored), now) == Refused
  {
    h := Signing(p.serial(arch), now, Index90);
    var other := Signing(p.serial(ahead), now, Index90);
    assert w.log[0] == p && SignedFor(p, ahead, other) && SignedIn(w.log[0], other);
    AcceptRun(w, other, now);
    es := [Update(other, now, true)];
  }

  lemma RunCons(w: World, e: Event, es: seq<Event>)
    requires Enabled(w, e) && Run(After(w, e), es)
    ensures Run(w, [e] + es) && Final(w, [e] + es) == Final(After(w, e), es)
  {
    assert ([e] + es)[1..] == es;
  }

  lemma AcceptRun(w: World, h: Header, now: int)
    requires Offered(w.log, h) && IndexFresh(h, Last(w.stored), now) == Fresh
    ensures var es := [Update(h, now, true)];
      Run(w, es) && Final(w, es).stored == Readable(h) && Final(w, es).log == w.log
  {
    RunOne(w, Update(h, now, true));
  }

  // ---- damage ----

  lemma SerialsRise(w: World, arch: Arch, now: int, out: Site, out': Site)
    requires Start(w, arch)
    requires Next(w.site, now, {X86_64, Aarch64}, out) && Next(out, now, {X86_64, Aarch64}, out')
    ensures Last(w.stored) < SiteSerial(out, arch) < SiteSerial(out', arch)
  {
    PublishRaises(w.site, now, out, arch);
    PublishRaises(out, now, out', arch);
  }

  /** Damage does let an older index in. From any start, two publications are made and the
      second accepted; with the stored index the serial is forgotten, and the first index is
      accepted. */
  lemma DamageForgets(w: World, arch: Arch, now: int, out: Site, out': Site) returns (es: seq<Event>, fs: seq<Event>)
    requires Start(w, arch)
    requires Next(w.site, now, {X86_64, Aarch64}, out) && Next(out, now, {X86_64, Aarch64}, out')
    ensures Run(w, es) && Run(Final(w, es), fs)
    ensures 0 < Last(Final(Final(w, es), fs).stored) < Last(Final(w, es).stored)
  {
    SerialsRise(w, arch, now, out, out');
    var v := After(w, Publish(now, out));
    var u := After(v, Publish(now, out'));
    es, fs := SecondThenFirst(u, arch, Publication(Serials(out), now), Publication(Serials(out'), now), now);
    RunCons(v, Publish(now, out'), es);
    RunCons(w, Publish(now, out), [Publish(now, out')] + es);
    es := [Publish(now, out)] + ([Publish(now, out')] + es);
  }

  lemma SecondThenFirst(w: World, arch: Arch, p: Publication, p': Publication, now: int)
    returns (es: seq<Event>, fs: seq<Event>)
    requires w.log == [] + [p] + [p'] && p.time == p'.time == now
    requires Last(w.stored) < p.serial(arch) < p'.serial(arch)
    ensures Run(w, es) && Run(Final(w, es), fs)
    ensures 0 < Last(Final(Final(w, es), fs).stored) < Last(Final(w, es).stored)
  {
    var h, h' := Signing(p.serial(arch), now, Index90), Signing(p'.serial(arch), now, Index90);
    assert w.log[0] == p && w.log[1] == p';
    assert SignedFor(w.log[0], arch, h) && SignedFor(w.log[1], arch, h');
    assert SignedIn(w.log[0], h) && SignedIn(w.log[1], h');
    AcceptRun(w, h', now);
    es := [Update(h', now, true)];
    fs := AfterDamage(Final(w, es), h, now);
  }

  lemma AfterDamage(w: World, h: Header, now: int) returns (es: seq<Event>)
    requires Offered(w.log, h) && IndexFresh(h, 0, now) == Fresh
    ensures Run(w, es) && Final(w, es).stored == Readable(h)
  {
    es := [Damage, Update(h, now, true)];
    RunTwo(w, Damage, Update(h, now, true));
  }
}
