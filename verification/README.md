# CosmoOS: a verified model

This project models the parts of CosmoOS whose correctness spans many steps: the
package manager `pkg`, the snapshot transaction around it, the freshness protocol
between a publisher and `pkg update`, the patch tool that must survive a kill at any
step, and the algorithms the pool tools and the module signer are built from. Every
claim is about all inputs, all runs or all reachable states of the model.

`dafny verify dfyconfig.toml` checks the whole of it.

The modules, by subject:

- **Packages, Resolver, Dependencies**: versions and their order; the constraint
  resolver (`cons_add`, `resolve`, `plan_build`) as a class with the store, the visiting
  stack and the plan as its fields; dependencies over whole histories of commands.
- **PlanRunner**: a settled plan carried out on the disk, package by package.
- **FileSystem, Installer, Remover, Libraries, Sessions**: a disk on which any single
  operation may fail; the three-phase installation, removal with its in-place compaction, the
  record database, the cached view of shared libraries (`g_libs`), and whole commands and
  histories of them.
- **Transaction**: `tx_begin`, `tx_end`, a power cut between any two steps, the mount that
  carries out a pending rollback, init's `pkg_recover`, and a system that boots on without
  the recovery it owes, as a state machine.
- **Freshness**: rising serials, a server that may answer with any index ever signed, and
  a client that remembers the last it accepted.
- **ProbePatch**: apply and revert of a multi-file patch, killed anywhere, any number of
  times.
- **Calendar, Timestamps**: the arithmetic of `time_format` against a calendar that only
  knows month lengths and the leap rule; formatting and parsing as inverses.
- **Argon2**: reference indices and the filling order (sections 3.4 and 3.4.2 of RFC 9106).
- **Crc32c, CrcPolynomial, Aead, CosmofsPool**: CRC-32C by table, by bits and as the
  remainder of polynomials (section 12.1 of RFC 3720), ChaCha20-Poly1305's text (section 2.8
  of RFC 8439), sealed metadata blocks, and directory blocks, encrypted ones too, written and
  read back.
- **Modular, DoubleAndAdd, Ed25519**: point addition, double-and-add, signatures (sections
  5.1.4 to 5.1.7 of RFC 8032).

## What turned out false, and exactly when

- A finished command can be undone. `tx_end` ignores a failed snapshot deletion and a failed
  unlink, and `tx_begin` does not look for a pending rollback, though init boots on with one
  when the restart is refused (userland/init/init.c:6610-6612, 6649). A finished command is
  rolled back by a later boot if and only if a rollback was pending when it began or both
  failures happened (`Transaction.EndExact`, `Transaction.DoomedUndone`).
- Crash atomicity therefore has a condition that a command can check before it begins, from
  `rootsnap_list` and tx-active: no rollback is pending and the record names no snapshot that
  is there. Under it every run is all or nothing (`Transaction.CrashAtomic`); from every state
  without it a finished command is lost or a cut one kept (`Transaction.UnclearFails`), and
  such states are reached (`Transaction.BootsOn`).
- A command cut while the hold of an earlier rollback is in place is not undone at the next
  boot, which refuses the request; recovery ends exactly when there is no such hold
  (`Transaction.RecoveryEnds`, `Transaction.HoldRefuses`; a run that meets it is
  `Transaction.HoldReached`).
- `rollback_fits` looks a package's dependency on itself up at the version being replaced.
  It is right exactly when the restored version accepts itself (`Dependencies.RollbackExact`,
  with the input of `Dependencies.RollbackMisses`), and dependencies stay met over a history
  exactly when no rollback in it restores a version that does not (`Dependencies.HistoryExact`).
- Two branches of removal change the records without telling the library view (the record
  dropped because it could not be rewritten, and the record that could not be dropped). A
  later check in the same command then answers for a view that is not the records. What it
  lets through leaves the libraries closed if and only if what the view has wrong is covered
  by another recorded package (`Libraries.DriftedRemoval`, `Libraries.DriftedInstall`). A
  command, and a history of commands, keeps them closed if and only if each request was
  covered by the records and the view it met, the view being what the requests before it in
  the command made of it (`Sessions.ClosedExact`, `Sessions.HistoryExact`). For each branch
  there are records and two removals that open them (`Sessions.Twice` with
  `Sessions.DroppedOpens` and `Sessions.UndroppedOpens`).
- "A client's stored serial never falls" holds except in one kind of step, damage to a
  stored index that held one (`Freshness.FallsExactly`, `Freshness.DamageForgets`).
- A client can be locked out of its own newest index, since nothing binds an index to an
  architecture. It never is if no other architecture's serial is ahead of its own
  (`Freshness.NewestAccepted`), and can be whenever one is (`Freshness.LockedOut`).
- `time_format` goes outside 64 bits for exactly the first 86399 values of `int64_t`
  (`Timestamps.OverflowExact`); `time_parse` takes its text back exactly from 1970 to the
  end of 9999 (`Timestamps.ParseOfFormat`).

## Hypotheses

- A package's manifest lists the dependencies its index entry lists (`load_package` compares
  name and version only).
- An installed record can be loaded. Only the library scan has the other case: it passes over
  such a record and does not count the view as incomplete for it (pkg/pkg.c:852-853).
- A package's paths are apart from the database's and from the temporaries' names.
- The version texts are those that the parser accepts; equal texts are equal versions.
- A new transaction's snapshot name differs from the name a stale record holds.
- For the patch tool: each file is listed once, the patched bytes and the original bytes have
  different checksums, and nothing else edits the files meanwhile.
- The block functions, the MACs and the hashes are parameters with the right result sizes.
- For Ed25519, over any parameters: the modulus is prime, sums of points of the curve are points of it,
  addition associates, `q` copies of the base are neutral, and compressing and decompressing
  a point gives an equal point. That addition commutes, has its neutral element and does not
  depend on the coordinates that stand for a point, and that equality is an equivalence,
  is proved of the code.

## Model

| member | source | states |
|---|---|---|
| `Packages.VersionOrder` | pkg/pkgparse.cee:339-357 | `version_cmp` is a total preorder, and versions it calls equal satisfy the same dependencies |
| `Resolver.Planner.ConsAdd` | pkg/pkg.c:1447-1461 | the store only grows, the constraint is in it, other names are untouched, and failure means one of the two limits is reached |
| `Resolver.Planner.IndexBestAll` | pkg/pkg.c:1486-1497 | the result satisfies every constraint on its name and no entry that does is newer; nothing is returned only when nothing satisfies them |
| `Resolver.Planner.Admit` | pkg/pkg.c:1521-1530 | a constraint that arrives late keeps the planning invariant: a planned version it excludes asks for another round |
| `Resolver.VisitedAgain` | pkg/pkg.c:1531-1536 | a name met again on the visiting stack really is on a dependency cycle of the index |
| `Resolver.Planner.Resolve` | pkg/pkg.c:1519-1577 | it ends; the name ends planned after what it depends on, or installed and good enough; visiting and planned names are distinct and together at most 1024; the reason given for failing is true |
| `Resolver.Planner.ResolveDepends` | pkg/pkg.c:1568-1573 | after the loop every dependency of the chosen entry is planned before it or installed |
| `Resolver.Planner.ConsAddInstalled` | pkg/pkg.c:1581-1600 | every dependency of every installed package is in the store |
| `Resolver.OutgrownGrows` | pkg/pkg.c:1526-1530 | a round that asks for another has a constraint the last one had not |
| `Resolver.Monotone` | pkg/pkg.c:1463-1472 | what a larger store admits a smaller one admits, so a newest entry that stays admitted stays newest |
| `Resolver.EveryPrefixMet` | pkg/pkg.c:1519-1623 | wherever a settled plan's installation stops, every installed package has its dependencies met |
| `Resolver.Planner.PlanBuild` | pkg/pkg.c:1604-1623 | on success names are distinct, each entry is a newest one satisfying the whole final store, dependencies come first, every prefix keeps all dependencies met and the requests are met; "unsettled" means sixteen rounds each enlarged the store |
| `Dependencies.RollbackExact` | pkg/pkg.c:1954-1992 | what `rollback_fits` lets through keeps dependencies met if and only if the restored version accepts itself |
| `Dependencies.RollbackMisses` | pkg/pkg.c:1954-1992 | an input it lets through wrongly |
| `Dependencies.StepExact` | pkg/pkg.c:1803-1822 | a planned command stopped anywhere and an admitted removal leave all dependencies met, and a rollback that is let through does exactly when the version restored accepts itself |
| `Dependencies.HistoryExact` | pkg/pkg.c:1699-2078 | dependencies stay met through a history if and only if no rollback in it restores a version that refuses itself |
| `Libraries.InstallCloses` | pkg/pkg.c:942-992 | the two checks pass exactly the installations and replacements after which every needed library is provided |
| `Libraries.RemoveCloses` | pkg/pkg.c:965-992 | and exactly such removals |
| `Libraries.DriftedRemoval` | pkg/pkg.c:965-992 | a removal that the check on a view lets through leaves the records' libraries closed if and only if every library that only the view's errors made look safe to lose has another recorded provider |
| `Libraries.DriftedInstall` | pkg/pkg.c:942-992 | the same of an installation or a replacement, and of the libraries it needs |
| `Libraries.MirrorsAnswers` | pkg/pkg.c:923-940 | a view that mirrors the records answers as the records would |
| `Libraries.SwapRemoveMirrors` | pkg/pkg.c:888-897 | removal by moving the last entry into the gap keeps the mirror |
| `Libraries.Scan` | pkg/pkg.c:839-861 | the entries are the libraries of exactly the records that can be loaded, or memory ran out |
| `Libraries.LibView.Load` | pkg/pkg.c:839-861 | the loaded view is complete and mirrors the records, or says that it is not complete |
| `Libraries.LibView.NoteInstalled` | pkg/pkg.c:872-886 | the view follows an installed package |
| `Libraries.LibView.NoteRemoved` | pkg/pkg.c:888-897 | the view follows a removed package |
| `Libraries.LibView.CheckRequires` | pkg/pkg.c:942-963 | without force, success means every needed library is found; with a complete view success is exactly that |
| `Libraries.LibView.StillRequired` | pkg/pkg.c:965-992 | without force, success means no other package loses a library; with a complete view success is exactly that |
| `FileSystem.Disk.WriteAtomic` | pkg/pkg.c:104-115 | the file is the new one or untouched; a temporary is left only if its unlink failed |
| `FileSystem.Disk.RecordStage` | pkg/pkg.c:260-285 | the record is staged whole, or nothing but a temporary changed |
| `FileSystem.Disk.RecordCommit` | pkg/pkg.c:287-293 | the staged record becomes the record, or nothing changed |
| `FileSystem.Disk.InstalledDrop` | pkg/pkg.c:305-316 | success means the record is gone, failure that it is as it was |
| `Installer.WriteTemps` | pkg/pkg.c:1315-1327 | every temporary holds its file's bytes, or writing stopped with only temporaries touched |
| `Installer.Prepare` | pkg/pkg.c:1297-1353 | a failure in phase 1 or 2, at any operation, leaves every file and the record as before and no temporary whose unlink succeeded |
| `Installer.PlaceFiles` | pkg/pkg.c:1354-1371 | with none stuck, paths are distinct and every file holds its bytes; otherwise only the package's files and temporaries changed |
| `Installer.RemoveObsolete` | pkg/pkg.c:1377-1396 | each file of the old version is kept by the new, recorded as left over, or gone |
| `Installer.Retire` | pkg/pkg.c:1372-1411 | the record on disk lists the new files and the ones left over |
| `Installer.OneOwnerAfter` | pkg/pkg.c:1281-1289 | the ownership check keeps records disjoint, files left over included |
| `Installer.VerifiedAfter` | pkg/pkg.c:2145-2181 | what `pkg verify` checks holds of every package after an installation |
| `Installer.Manager.Checked` | pkg/pkg.c:1268-1289 | success means no path is another package's, and that by the view every library is found and none is lost |
| `Installer.Manager.InstallLoadedFiles` | pkg/pkg.c:1266-1412 | each of the five ends leaves what it should, on disk, in the records and in the view; ownership stays disjoint, verification holds after success, refusal and undoing, and the libraries stay closed exactly when the installation was covered |
| `PlanRunner.Install` | pkg/pkg.c:1774-1776 | a settled plan carried out on the disk: however it ends every recorded package has its dependencies met, and when it ends well the requests are met |
| `Remover.RemoveFiles` | pkg/pkg.c:1832-1849 | the in-place compaction leaves, in order, exactly the entries whose unlink failed |
| `Remover.KeptExactly` | pkg/pkg.c:1832-1877 | after a removal with stuck files the record lists a file of the package if and only if it is still on disk |
| `Remover.RemoveOne` | pkg/pkg.c:1787-1884 | each of the seven ends leaves what it should, on disk, in the records and in the library view; without force a refusal has one of its three reasons and anything else has passed both checks |
| `Remover.RemovalOneOwner` | pkg/pkg.c:1834-1850 | records stay disjoint after any end of a removal |
| `Remover.RemovalVerified` | pkg/pkg.c:1834-1877 | what `pkg verify` checks still holds of every package after a removal that ended with files and record in step |
| `Remover.RemovalDepends` | pkg/pkg.c:1803-1822 | dependencies stay met after any end of an admitted removal |
| `Remover.RemovalCloses` | pkg/pkg.c:1823-1877 | after any end of a removal that the view let through the libraries are closed if and only if what it took away is covered |
| `Sessions.Session` | pkg/pkg.c:1248-1412 | any installs and removals in one command, failing anywhere: one stage for each request, with its end, from the records and the view that the one before left; with force or without ownership stays disjoint, and verification holds unless an end says otherwise |
| `Sessions.Commands` | pkg/pkg.c:759-781 | the same over any sequence of commands, each beginning with a view of its own that is the records |
| `Sessions.StageExact` | pkg/pkg.c:839-897 | a request carried out without force keeps the libraries closed if and only if it had no effect on them or was covered |
| `Sessions.ClosedExact` | pkg/pkg.c:839-897 | the libraries stay closed through a command's stages if and only if every request that took effect was covered by the records and the view it met |
| `Sessions.HistoryExact` | pkg/pkg.c:839-897 | the same through the stages of a whole history |
| `Sessions.Twice` | pkg/pkg.c:1850-1877 | after a record dropped or one not dropped, the second removal is checked against the view that branch leaves, and the record goes unless it is refused |
| `Sessions.DroppedOpens` | pkg/pkg.c:1850-1856 | records, the first package with a file to be stuck, for which the first branch makes the second removal pass and open the closure |
| `Sessions.UndroppedOpens` | pkg/pkg.c:1870-1875 | records for which the other branch does |
| `Transaction.StepKeepsInv` | pkg/pkg.c:1048-1145 | every step of the protocol, of the mount, of recovery and of booting on without it keeps the invariant, no command beginning while a recovery is owed: each state a cut can leave recovers to whole data |
| `Transaction.CrashAtomic` | pkg/pkg.c:1048-1145 | over every such run with any number of cuts, an idle root settles on what was settled before the last command to reach `tx_end`, or on what that command had reached |
| `Transaction.CutOutcome` | pkg/pkg.c:1133-1145 | a cut before `tx_end` undoes the command; one inside keeps it if and only if the disk no longer has both its snapshot and its record; one in recovery changes nothing |
| `Transaction.RecoveryRight` | userland/init/init.c:6567-6651 | every recovery in which nothing is refused restarts at most once and boots with the data due, nothing left to recover |
| `Transaction.RecoveryEnds` | userland/init/init.c:6567-6651 | there is such a recovery unless the hold of an earlier rollback is in place |
| `Transaction.HoldRefuses` | userland/init/init.c:6620-6629 | under the hold there is none |
| `Transaction.HoldReached` | userland/init/init.c:6567-6651 | a run, begun fresh, in which a second command is cut before the boot that undid the first completes |
| `Transaction.FinishedStays` | userland/init/init.c:6567-6651 | whatever other commands begin, fail to start or are cut, the root settles on what the last finished one left until another reaches its `tx_end` |
| `Transaction.EndExact` | pkg/pkg.c:1063-1145 | a finished command is rolled back by a later boot if and only if a rollback was pending when it began or both of `tx_end`'s ignored failures happened |
| `Transaction.DoomedUndone` | userland/init/init.c:6610-6649 | and then boots in which nothing is refused do roll it back, to the snapshot pending or recorded |
| `Transaction.UnclearFails` | pkg/pkg.c:1063-1128 | from every state in which a recovery is owed a command can begin that finishes and is undone by the next boot, or that makes what a cut left permanent |
| `Transaction.BootsOn` | userland/init/init.c:6610-6649 | such states are reached: a cut, a rollback asked for or refused, and a system that boots on |
| `Freshness.Client.UpdateRepo` | pkg/pkg.c:496-599 | only a signed, fresh, well-formed index is stored, a refusal is exactly one of the three defects, and any other end leaves the stored index |
| `Freshness.Publisher.Publish` | scripts/publish-repo.py:155-176 | each architecture gets two signings under the site's serial plus one; a failure leaves the site |
| `Freshness.PublishRaises` | scripts/publish-repo.py:113-115 | a publication raises every architecture's serial by exactly one |
| `Freshness.PublishFresh` | scripts/publish-repo.py:170-176 | each signing is fresh for its first 30 days to every client that holds no higher serial |
| `Freshness.StepKeepsInv` | pkg/pkg.c:549-590 | whatever signed index of either architecture the server answers with, serials rise in step and every acceptance was in time |
| `Freshness.EveryAcceptanceInTime` | pkg/manifest.c:185-216 | over any schedule published serials strictly rise, and each accepted index was signed by the publisher less than 90 days before |
| `Freshness.FallsExactly` | pkg/pkg.c:549-563 | the stored serial falls exactly in a step that damages a stored one |
| `Freshness.StoredNeverFalls` | pkg/pkg.c:549-590 | over any run without damage it never falls |
| `Freshness.WithheldBound` | pkg/manifest.c:185-216 | whatever the server replays, and across damage, an accepted index is from a later publication than each 90 days old or older, and has a higher serial than that one's for its architecture |
| `Freshness.NewestAccepted` | pkg/manifest.c:185-216 | no other architecture being ahead, after any schedule the newest publication is accepted exactly while valid, and reported expired exactly afterwards |
| `Freshness.LockedOut` | pkg/pkg.c:539-590 | from every start where another architecture is ahead, a server can make the client refuse its own newest index while valid |
| `Freshness.DamageForgets` | pkg/pkg.c:549-563 | a run in which damage lets an older index in |
| `ProbePatch.Workspace.WriteAtomic` | tools/accept-order-probe.py:163-173 | at every kill the file is the old or the new, and only its temporary may be there besides |
| `ProbePatch.Workspace.ApplyFiles` | tools/accept-order-probe.py:183-212 | wherever it stops, every file's original is in place or saved and the stamp tells which; a second apply is refused; success means every file is patched |
| `ProbePatch.Workspace.RevertFiles` | tools/accept-order-probe.py:215-243 | from any such state a completed revert leaves the original files and nothing else; a kill leaves such a state again |
| `ProbePatch.UniqueEntry` | tools/accept-order-probe.py:222-232 | the checksums tell a patched file, whose backup is whole, from one that is intact |
| `ProbePatch.Workspace.Use` | tools/accept-order-probe.py:183-243 | any sequence of applies and reverts, each killed anywhere, is recoverable, and one last revert that completes restores everything |
| `Calendar.YearFoundBack` | pkg/manifest.c:160-163 | the year-of-era expression inverts the day-of-era count for every year and day |
| `Calendar.MonthFoundBack` | pkg/manifest.c:164-168 | the month and day expressions invert the day-of-year count |
| `Calendar.CivilOfDays` | pkg/manifest.c:158-168 | every date of the calendar is the image of its day number |
| `Calendar.CivilIsCalendar` | pkg/manifest.c:154-171 | day 0 is 1970-01-01, day n+1 is the calendar successor of day n for every n, negative ones too, and the date is always valid (section 5.7 of RFC 3339) |
| `Timestamps.FieldsDetermine` | pkg/manifest.c:154-171 | the fields are a valid date and time and give the seconds back |
| `Timestamps.SecondsDetermine` | pkg/pkgparse.cee:540-601 | every valid date and time is the fields of its seconds |
| `Timestamps.ParseOfFormat` | pkg/pkgparse.cee:560-601 | parsing formatted text gives the time back exactly from 1970 to 9999 and refuses it otherwise |
| `Timestamps.FormatOfParse` | pkg/pkgparse.cee:560-601 | formatting what was parsed gives the same text, so a time has one text |
| `Timestamps.OverflowExact` | pkg/manifest.c:156-160 | the arithmetic stays in 64 bits if and only if the time is not one of the first 86399 |
| `Argon2.Geometry` | tools/cosmofs_key.py:101-103 | for every m of at least 8p the lanes divide into four segments of two blocks or more |
| `Argon2.RefWindow` | tools/cosmofs_key.py:135-152 | the reference area is never empty, and the block referred to is filled, not the current or previous one, and in another lane outside the current slice |
| `Argon2.RelativeInRange` | tools/cosmofs_key.py:148-150 | the mapped index is inside the area for every pseudo-random value |
| `Argon2.SameBlock` | tools/cosmofs_key.py:125-153 | a lane's next block is the same whatever the other lanes have done of the slice |
| `Argon2.OrderIrrelevant` | tools/cosmofs_key.py:109-155 | any two orders of the slice's work, interleaved lanes included, leave the same memory |
| `Argon2.LaneByLaneComplete` | tools/cosmofs_key.py:111-126 | the source's own order is one of them |
| `Argon2.FillIndependent` | tools/cosmofs_key.py:109-155 | the same for whole runs of slices and passes |
| `Argon2.FillSegment` | tools/cosmofs_key.py:112-155 | the loop with its running current, previous and counter fills the lane's segment as the lane alone would |
| `Argon2.FillMemory` | tools/cosmofs_key.py:109-155 | the nested loops leave what any order of the lanes leaves, every block filled |
| `Argon2.Tag` | tools/cosmofs_key.py:109-159 | and so the xor of the last column, and the tag, are the same for every order |
| `Crc32c.MakeTable` | tools/cosmofs-damage.py:117-127 | each entry is the remainder of its byte after eight single-bit steps |
| `Crc32c.TableStep` | tools/cosmofs-damage.py:130-135 | a lookup and a shift are eight single-bit steps |
| `Crc32c.Crc32c` | tools/cosmofs-damage.py:130-135 | the table-driven loop computes the sum for every byte string |
| `Crc32c.RegisterIsDivision` | tools/cosmofs-damage.py:117-135 | a byte at a time is a bit at a time: the register is the bit-serial one after the message's bits |
| `CrcPolynomial.StepReduces` | tools/cosmofs-damage.py:117-127 | one step multiplies the register's polynomial by x and takes the generator away when x^32 appears |
| `CrcPolynomial.RegisterIsRemainder` | tools/cosmofs-damage.py:117-135 | the register is the one polynomial of degree below 32 that a multiple of the generator takes from the initial register followed by the message times x^32 |
| `Crc32c.CrcAppend` | tools/cosmofs-damage.py:130-135 | the sum of a whole is the sum of its end begun with the sum of its start |
| `Crc32c.BurstDetected` | tools/cosmofs-damage.py:130-135 | sums agree around up to four replaced bytes if and only if the bytes are the same |
| `Aead.ChaChaXor` | tools/cosmofs_key.py:181-186 | the loop over 64-byte blocks xors each byte with its own byte of the keystream, at every length |
| `Aead.XoredTwice` | tools/cosmofs_key.py:181-186 | encrypting twice is the identity |
| `Aead.MacTextInjective` | tools/cosmofs_key.py:200-209 | the padded text with its lengths determines the associated data and the ciphertext |
| `Aead.OpenSealed` | tools/cosmofs_key.py:204-210 | what was sealed opens to the data |
| `CosmofsPool.SealAccepted` | tools/cosmofs-damage.py:278-292 | `meta` accepts what `seal` wrote, in both modes |
| `CosmofsPool.AcceptsExactly` | tools/cosmofs-damage.py:278-292 | a block is accepted if and only if its header is right and sealing leaves it as it is |
| `CosmofsPool.SumInPieces` | tools/cosmofs-damage.py:138-140 | the sum of the block with its field zeroed is the sum taken in three pieces around the field |
| `CosmofsPool.DamageRefused` | tools/cosmofs-damage.py:278-285 | a sealed block with up to four consecutive bytes changed outside the sum is never accepted as any block of any kind |
| `CosmofsPool.Pool.Seal` | tools/cosmofs-damage.py:287-292 | the block is written with its sum in place and no other block changes |
| `CosmofsPool.Pool.PutEntry` | tools/cosmofs-damage.py:467-479 | the checksum block stays where the index points, is accepted, and holds the entry |
| `CosmofsPool.Pool.WriteDirBlock` | tools/cosmofs-damage.py:454-479 | it succeeds exactly when, the block written, the directory has a sound checksum block there; the block then reads back as written unless it is that very block; no other block changes |
| `DoubleAndAdd.PointMul` | scripts/modsign.py:59-66 | double-and-add yields the s-fold sum for every s |
| `DoubleAndAdd.LadderIsSum` | scripts/modsign.py:59-66 | at every iteration the accumulator and what remains make up the same sum |
| `DoubleAndAdd.TimesMod` | scripts/modsign.py:134-142 | multiples of a base of order q depend on the factor modulo q only |
| `DoubleAndAdd.SignatureEquation` | scripts/modsign.py:134-142 | s copies of the base are R plus h times the key |
| `Ed25519.AddCommutes` | scripts/modsign.py:50-56 | `point_add` commutes, coordinate for coordinate |
| `Ed25519.AddNeutral` | scripts/modsign.py:50-56 | adding the neutral point gives an equal point |
| `Ed25519.EqualTransitive` | scripts/modsign.py:69-74 | `point_equal` is transitive on proper points |
| `Ed25519.AddRespects` | scripts/modsign.py:50-56 | equal points have equal sums: the result does not depend on the coordinates that stand for a point |
| `Ed25519.CurveIsGroup` | scripts/modsign.py:50-74 | with closure and associativity, `point_add` is a commutative group law up to `point_equal` |
| `Ed25519.ClampShape` | scripts/modsign.py:119-126 | a secret scalar is a multiple of eight whose highest bit is 254 |
| `Ed25519.SignVerifies` | scripts/modsign.py:134-161 | every signature made is accepted under the seed's public key, for every seed and message |
| `Ed25519.ResponseUnique` | scripts/modsign.py:145-161 | a key, a message and a first half have at most one accepted second half |

## Left out

- Order independence and completeness of resolution: a note at pkg/pkg.c:1419-1421 claims the first, but constraints of discarded choices stay in the store and the rounds are limited; the model states what a settled plan guarantees instead.
- FILE.cpk arguments and `--force`: outside the dependency and closure claims.
- Commands without a transaction (a root that keeps no snapshots, an old format, a removal on a full root): `tx_begin` says that they are not undone.
- The operator's own rollbacks and snapshots (`cosmo-snap`, `cosmo-upgrade`): only the protocol's rollbacks are steps of the transaction model.
- Dry runs, printing, arguments, privileges, the lock file, the kept packages of `pkg rollback`, and `pkg list`, `info` and `search`: not modelled.
- Directories: only regular files are modelled; the empty directories that an installation makes or removes are not.
- The constraint table is a map by name, with the source's two limits; its slot order is not modelled.
- `record_stage`'s buffer: running out of it is an ordinary failure.
- FileSystem.Disk.WriteAtomic: file modes and the order of data and metadata on the medium are not modelled; a power cut is Transaction's subject.
- Remover.RemovalVerified: says nothing of the ends in which the record still lists files that are gone.
- Freshness.WithheldBound: supposes that the publisher's clock does not run back.
- The decoders of pkgparse.cee other than time and version comparison, tar archives, networking and TLS: parsed values are inputs.
- BLAKE2b, SHA-512, the ChaCha20 and Poly1305 arithmetic, Argon2's compression and variable-length hash: parameters.
- Curve associativity and closure, and point compression: hypotheses of the Ed25519 claims.
- The super blocks, allocation, snapshots and the damage classes of the pool tool: not modelled.
- Argon2.FillMemory: the memory is a sequence reassigned at each block, so update in place and aliasing are not captured.
- `publish-repo.py` beyond the serial and the signings (releases, pruning, file copies): not modelled.
