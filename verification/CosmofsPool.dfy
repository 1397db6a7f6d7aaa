/**
 The metadata blocks of a cosmofs pool: how a block is sealed, which blocks are
 accepted, and a directory block of an encrypted file written and read back through its
 checksum entry.
 */
module CosmofsPool {
  import opened Crc32c
  import opened Aead

  const BLOCK: nat := 4096
  const MHDR: nat := 32
  const MAGIC: nat := 0x4D53_4643
  const SUM_AT: nat := 24
  const K_CSUMIDX: nat := 7
  const K_CSUM: nat := 8
  const CSUM_CRC: nat := 1
  const CSUM_AEAD: nat := 2
  const AEAD_PER_BLOCK: nat := 127
  const CSUMS_PER_BLOCK: nat := 1016

  /** How metadata is sealed: a CRC-32C of the block with the four bytes at 24 zero, or
      eight bytes of a keyed MAC of the block with eight bytes there zero. */
  datatype Mode = Plainly | Keyed(mac: Bytes -> Bytes)

  datatype Block = Bad | Good(b: Bytes)

  /** What the tool uses of an inode. */
  datatype Inode = Inode(ino: nat, csumAlgo: nat, csumRoot: nat)

  ghost predicate ModeOk(mode: Mode) {
    mode.Keyed? ==> forall b :: |mode.mac(b)| == 8
  }

  // ---- bytes in a block ----

  function Put(b: Bytes, at: nat, v: Bytes): (r: Bytes)
    requires at + |v| <= |b|
    ensures |r| == |b|
    ensures forall i :: 0 <= i < |b| ==> r[i] == if at <= i < at + |v| then v[i - at] else b[i]
  {
    b[..at] + v + b[at + |v|..]
  }

  function Le32(x: bv32): (r: Bytes)
    ensures |r| == 4
  {
    [(x & 0xFF) as bv8, ((x >> 8) & 0xFF) as bv8, ((x >> 16) & 0xFF) as bv8, ((x >> 24) & 0xFF) as bv8]
  }

  // ---- sealing ----

  function SumSize(mode: Mode): nat {
    if mode.Keyed? then 8 else 4
  }

  function Cleared(mode: Mode, b: Bytes): (r: Bytes)
    requires |b| == BLOCK
    ensures |r| == BLOCK
  {
    Put(b, SUM_AT, Zeros(SumSize(mode)))
  }

  function Sum(mode: Mode, b: Bytes): (r: Bytes)
    requires |b| == BLOCK && ModeOk(mode)
    ensures |r| == SumSize(mode)
  {
    match mode
    case Plainly => Le32(Crc(Cleared(mode, b), 0))
    case Keyed(mac) => mac(Cleared(mode, b))
  }

  /** What `seal` writes. */
  function Sealed(mode: Mode, b: Bytes): (r: Bytes)
    requires |b| == BLOCK && ModeOk(mode)
    ensures |r| == BLOCK
  {
    Put(b, SUM_AT, Sum(mode, b))
  }

  predicate Header(b: Bytes, blk: nat, kind: nat)
    requires |b| == BLOCK
  {
    FromLe(b[0..4]) == MAGIC && FromLe(b[4..8]) == kind && FromLe(b[16..24]) == blk
  }

  /** The test of `meta`. */
  predicate Accepts(mode: Mode, b: Bytes, blk: nat, kind: nat)
    requires ModeOk(mode)
  {
    |b| == BLOCK && Header(b, blk, kind) && b[SUM_AT..SUM_AT + SumSize(mode)] == Sum(mode, b)
  }

  lemma SealedAround(mode: Mode, b: Bytes)
    requires |b| == BLOCK && ModeOk(mode)
    ensures Cleared(mode, Sealed(mode, b)) == Cleared(mode, b)
    ensures Sealed(mode, b)[..SUM_AT] == b[..SUM_AT]
    ensures Sealed(mode, b)[MHDR..] == b[MHDR..]
    ensures Sealed(mode, b)[SUM_AT..SUM_AT + SumSize(mode)] == Sum(mode, b)
  {
  }

  lemma SameHeader(a: Bytes, b: Bytes, blk: nat, kind: nat)
    requires |a| == |b| == BLOCK && a[..SUM_AT] == b[..SUM_AT]
    ensures Header(a, blk, kind) == Header(b, blk, kind)
  {
    assert a[0..4] == a[..SUM_AT][0..4] && b[0..4] == b[..SUM_AT][0..4];
    assert a[4..8] == a[..SUM_AT][4..8] && b[4..8] == b[..SUM_AT][4..8];
    assert a[16..24] == a[..SUM_AT][16..24] && b[16..24] == b[..SUM_AT][16..24];
  }

  lemma SumByCleared(mode: Mode, a: Bytes, b: Bytes)
    requires |a| == |b| == BLOCK && ModeOk(mode) && Cleared(mode, a) == Cleared(mode, b)
    ensures Sum(mode, a) == Sum(mode, b)
  {
  }

  /** `meta` accepts what `seal` wrote, ... */
  lemma SealAccepted(mode: Mode, b: Bytes, blk: nat, kind: nat)
    requires |b| == BLOCK && ModeOk(mode) && Header(b, blk, kind)
    ensures Accepts(mode, Sealed(mode, b), blk, kind)
  {
    SealedAround(mode, b);
    SameHeader(b, Sealed(mode, b), blk, kind);
    SumByCleared(mode, b, Sealed(mode, b));
  }

  /** ... and nothing else: a block it accepts is one that sealing leaves as it is. */
  lemma AcceptsExactly(mode: Mode, b: Bytes, blk: nat, kind: nat)
    requires |b| == BLOCK && ModeOk(mode)
    ensures Accepts(mode, b, blk, kind) <==> Header(b, blk, kind) && Sealed(mode, b) == b
  {
    SealedAround(mode, b);
    if Accepts(mode, b, blk, kind) {
      var r, v := Sealed(mode, b), Sum(mode, b);
      forall i | 0 <= i < BLOCK
        ensures r[i] == b[i]
      {
        if SUM_AT <= i < SUM_AT + |v| {
          assert b[SUM_AT..SUM_AT + |v|][i - SUM_AT] == b[i];
        }
      }
    }
  }

  /** The kernel sums around the field in three pieces, without the zeroed copy. */
  lemma SumInPieces(b: Bytes, at: nat)
    requires at + 4 <= |b|
    ensures Crc(Put(b, at, Zeros(4)), 0) == Crc(b[at + 4..], Crc(Zeros(4), Crc(b[..at], 0)))
  {
    CrcAppend(b[..at] + Zeros(4), b[at + 4..], 0);
    CrcAppend(b[..at], Zeros(4), 0);
  }

  lemma WordCons(b: bv8, rest: Bytes)
    ensures Word([b] + rest) == (b as bv32) ^ (Word(rest) << 8)
  {
    assert ([b] + rest)[1..] == rest;
  }

  lemma CastBack(y: bv32)
    requires y <= 0xFF
    ensures (y as bv8) as bv32 == y
  {
  }

  lemma LowByteOf(y: bv32)
    ensures y & 0xFF <= 0xFF
  {
  }

  lemma WordBytes(x: bv32)
    ensures (x & 0xFF) ^ ((((x >> 8) & 0xFF) ^ ((((x >> 16) & 0xFF) ^ (((x >> 24) & 0xFF) << 8)) << 8)) << 8) == x
  {
  }

  lemma LastByte(y: bv32)
    ensures y ^ (0 << 8) == y
  {
  }

  /** The checksum's four bytes determine it. */
  lemma Le32Word(x: bv32)
    ensures Word(Le32(x)) == x
  {
    var r := Le32(x);
    assert r == [r[0]] + ([r[1]] + ([r[2]] + ([r[3]] + [])));
    WordCons(r[3], []);
    WordCons(r[2], [r[3]] + []);
    WordCons(r[1], [r[2]] + ([r[3]] + []));
    WordCons(r[0], [r[1]] + ([r[2]] + ([r[3]] + [])));
    LowByteOf(x);
    LowByteOf(x >> 8);
    LowByteOf(x >> 16);
    LowByteOf(x >> 24);
    CastBack(x & 0xFF);
    CastBack((x >> 8) & 0xFF);
    CastBack((x >> 16) & 0xFF);
    CastBack((x >> 24) & 0xFF);
    LastByte((x >> 24) & 0xFF);
    WordBytes(x);
  }

  lemma Le32Injective(x: bv32, y: bv32)
    requires Le32(x) == Le32(y)
    ensures x == y
  {
    Le32Word(x);
    Le32Word(y);
  }

  lemma PutDiffers(b: Bytes, at: nat, v: Bytes)
    requires at + |v| <= |b| && Put(b, at, v) != b
    ensures b[at..at + |v|] != v
  {
    assert b == b[..at] + b[at..at + |v|] + b[at + |v|..];
  }

  lemma SumNoticed(c: Bytes, at: nat, v: Bytes)
    requires |v| <= 4 && at + |v| <= |c| && c[at..at + |v|] != v
    ensures Crc(Put(c, at, v), 0) != Crc(c, 0)
  {
    var u := c[at..at + |v|];
    assert c == c[..at] + u + c[at + |v|..];
    BurstDetected(c[..at], u, v, c[at + |v|..], 0);
  }

  /** Damage `v` at `at` is outside the checksum. */
  predicate Outside(at: nat, v: Bytes) {
    at + |v| <= SUM_AT || (SUM_AT + 4 <= at && at + |v| <= BLOCK)
  }

  lemma ClearedPut(b: Bytes, at: nat, v: Bytes)
    requires |b| == BLOCK && Outside(at, v)
    ensures Cleared(Plainly, Put(b, at, v)) == Put(Cleared(Plainly, b), at, v)
    ensures Cleared(Plainly, b)[at..at + |v|] == b[at..at + |v|]
    ensures Put(b, at, v)[SUM_AT..SUM_AT + 4] == b[SUM_AT..SUM_AT + 4]
  {
  }

  lemma SumOf(b: Bytes, blk: nat, kind: nat)
    requires Accepts(Plainly, b, blk, kind)
    ensures b[SUM_AT..SUM_AT + 4] == Le32(Crc(Cleared(Plainly, b), 0))
  {
  }

  /** In a block sealed by CRC, damage to at most four consecutive bytes, outside the
      checksum, is always noticed. */
  lemma DamageRefused(b: Bytes, at: nat, v: Bytes, blk: nat, kind: nat, blk': nat, kind': nat)
    requires Accepts(Plainly, b, blk, kind)
    requires |v| <= 4 && Outside(at, v) && Put(b, at, v) != b
    ensures !Accepts(Plainly, Put(b, at, v), blk', kind')
  {
    if Accepts(Plainly, Put(b, at, v), blk', kind') {
      SumOf(b, blk, kind);
      SumOf(Put(b, at, v), blk', kind');
      ClearedPut(b, at, v);
      Le32Injective(Crc(Cleared(Plainly, b), 0), Crc(Cleared(Plainly, Put(b, at, v)), 0));
      PutDiffers(b, at, v);
      SumNoticed(Cleared(Plainly, b), at, v);
      assert false;
    }
  }

  // ---- reading ----

  type Disk = map<nat, Bytes>

  ghost predicate DiskOk(disk: Disk) {
    forall n :: n in disk ==> |disk[n]| == BLOCK
  }

  /** `meta`: a sound metadata block of the kind asked for, or an error. */
  function Meta(disk: Disk, mode: Mode, blk: nat, kind: nat): (r: Block)
    requires ModeOk(mode)
    ensures r.Good? ==> blk in disk && r.b == disk[blk] && Accepts(mode, r.b, blk, kind)
  {
    if blk in disk && Accepts(mode, disk[blk], blk, kind) then Good(disk[blk]) else Bad
  }

  /** The bytes of a checksum entry: a CRC, or a tag, a nonce and a CRC. */
  function EntrySize(algo: nat): (n: nat)
    ensures n == 4 || n == 32
  {
    if algo == CSUM_AEAD then 32 else 4
  }

  /** Where the entry of block `lblk` is in its checksum block. */
  function EntryAt(algo: nat, lblk: nat): (at: nat)
    ensures MHDR <= at && at + EntrySize(algo) <= BLOCK
  {
    if algo == CSUM_AEAD then MHDR + 32 * (lblk % AEAD_PER_BLOCK) else MHDR + 4 * (lblk % CSUMS_PER_BLOCK)
  }

  /** Where the index block points to it. */
  function IndexAt(algo: nat, lblk: nat): (at: nat)
    ensures MHDR <= at
  {
    if algo == CSUM_AEAD then MHDR + 8 * (lblk / AEAD_PER_BLOCK) else MHDR + 8 * (lblk / CSUMS_PER_BLOCK)
  }

  datatype Pointer = Astray | To(blk: nat)

  /** Where the file's one-level index puts the checksums of block `lblk`. */
  function LeafPointer(disk: Disk, mode: Mode, inode: Inode, lblk: nat): (r: Pointer)
    requires ModeOk(mode)
    ensures r.To? ==> Meta(disk, mode, inode.csumRoot, K_CSUMIDX).Good?
  {
    var at := IndexAt(inode.csumAlgo, lblk);
    match Meta(disk, mode, inode.csumRoot, K_CSUMIDX)
    case Bad => Astray
    case Good(idx) => if at + 8 > BLOCK then Astray else To(FromLe(idx[at..at + 8]))
  }

  /** The checksum block of block `lblk`. */
  function Leaf(disk: Disk, mode: Mode, inode: Inode, lblk: nat): (r: Block)
    requires ModeOk(mode)
    ensures r.Good? ==>
      && LeafPointer(disk, mode, inode, lblk).To?
      && Meta(disk, mode, LeafPointer(disk, mode, inode, lblk).blk, K_CSUM) == r
  {
    match LeafPointer(disk, mode, inode, lblk)
    case Astray => Bad
    case To(blk) => Meta(disk, mode, blk, K_CSUM)
  }

  function EntryIn(lb: Bytes, algo: nat, lblk: nat): (r: Bytes)
    requires |lb| == BLOCK
    ensures |r| == EntrySize(algo)
  {
    lb[EntryAt(algo, lblk)..EntryAt(algo, lblk) + EntrySize(algo)]
  }

  function Place(ino: nat, lblk: nat): Bytes {
    Le(ino, 8) + Le(lblk, 8)
  }

  /** What an entry makes of the ciphertext `ct`. */
  function Opening(c: Cipher, key: Bytes, entry: Bytes, aad: Bytes, ct: Bytes): Opened
    requires Sized(c) && |entry| == 32
  {
    Open(c, key, entry[16..28], aad, ct, entry[..16])
  }

  function EntryOf(tag: Bytes, nonce: Bytes, ct: Bytes): (r: Bytes)
    requires |tag| == 16 && |nonce| == 12
    ensures |r| == 32 && r[..16] == tag && r[16..28] == nonce
  {
    tag + nonce + Le32(Crc(ct, 0))
  }

  lemma EntryOpens(c: Cipher, key: Bytes, aad: Bytes, data: Bytes, nonce: Bytes)
    requires Sized(c) && |nonce| == 12
    ensures var ct := Xored(c, key, 1, nonce, data);
      Opening(c, key, EntryOf(TagOf(c, key, nonce, aad, ct), nonce, ct), aad, ct) == Plain(data)
  {
    OpenSealed(c, key, nonce, aad, data);
  }

  /** Sealing a checksum block leaves its entries. */
  lemma EntryReadsBack(mode: Mode, lb: Bytes, algo: nat, lblk: nat, e: Bytes)
    requires ModeOk(mode) && |lb| == BLOCK && |e| == EntrySize(algo)
    ensures EntryIn(Sealed(mode, Put(lb, EntryAt(algo, lblk), e)), algo, lblk) == e
  {
    PutReadsBack(mode, lb, EntryAt(algo, lblk), e);
  }

  lemma PutReadsBack(mode: Mode, lb: Bytes, at: nat, e: Bytes)
    requires ModeOk(mode) && |lb| == BLOCK && MHDR <= at && at + |e| <= BLOCK
    ensures Sealed(mode, Put(lb, at, e))[at..at + |e|] == e
  {
    var r := Sealed(mode, Put(lb, at, e));
    assert forall i :: at <= i < at + |e| ==> r[i] == e[i - at];
  }

  /** Two blocks that are metadata of different kinds are different blocks. */
  lemma KindsApart(mode: Mode, disk: Disk, a: nat, b: nat)
    requires ModeOk(mode) && Meta(disk, mode, a, K_CSUMIDX).Good? && Meta(disk, mode, b, K_CSUM).Good?
    ensures a != b
  {
  }

  /** Rewriting the leaf with the same header leaves the way to it. */
  lemma LeafRewritten(disk: Disk, mode: Mode, inode: Inode, lblk: nat, lb: Bytes)
    requires ModeOk(mode) && Leaf(disk, mode, inode, lblk).Good? && |lb| == BLOCK
    requires lb[..SUM_AT] == Leaf(disk, mode, inode, lblk).b[..SUM_AT]
    ensures var at := LeafPointer(disk, mode, inode, lblk);
      var disk' := disk[at.blk := Sealed(mode, lb)];
      LeafPointer(disk', mode, inode, lblk) == at && Leaf(disk', mode, inode, lblk) == Good(Sealed(mode, lb))
  {
    var at := LeafPointer(disk, mode, inode, lblk).blk;
    KindsApart(mode, disk, inode.csumRoot, at);
    SameHeader(lb, Leaf(disk, mode, inode, lblk).b, at, K_CSUM);
    SealAccepted(mode, lb, at, K_CSUM);
  }

  /** A block written elsewhere leaves the leaf as it is. */
  lemma LeafElsewhere(disk: Disk, mode: Mode, inode: Inode, lblk: nat, pb: nat, b: Bytes)
    requires ModeOk(mode) && pb != inode.csumRoot && LeafPointer(disk, mode, inode, lblk) != To(pb)
    ensures LeafPointer(disk[pb := b], mode, inode, lblk) == LeafPointer(disk, mode, inode, lblk)
    ensures Leaf(disk[pb := b], mode, inode, lblk) == Leaf(disk, mode, inode, lblk)
  {
  }

  /** `disk'` differs from `disk` at most in `pb` and the block pointed to. */
  ghost predicate SameBut(disk: Disk, disk': Disk, pb: nat, leaf: Pointer) {
    && disk.Keys <= disk'.Keys
    && forall n :: n in disk && n != pb && leaf != To(n) ==> disk'[n] == disk[n]
  }

  lemma TwoWrites(d: Disk, d1: Disk, d2: Disk, pb: nat, b: Bytes, leaf: nat)
    requires d1 == d[pb := b] && leaf in d2 && d2 == d1[leaf := d2[leaf]]
    ensures SameBut(d, d2, pb, To(leaf)) && pb in d2 && (leaf != pb ==> d2[pb] == b)
  {
  }

  class Pool {
    var disk: Disk
    const mode: Mode
    const cipher: Cipher
    /** The key of file `ino`, from the master key. */
    const fileKey: nat -> Bytes

    constructor (disk: Disk, mode: Mode, cipher: Cipher, fileKey: nat -> Bytes)
      ensures this.disk == disk && this.mode == mode && this.cipher == cipher && this.fileKey == fileKey
    {
      this.disk, this.mode, this.cipher, this.fileKey := disk, mode, cipher, fileKey;
    }

    /** Every block has the block's size, and the primitives their result sizes. */
    ghost predicate Valid()
      reads this
    {
      ModeOk(mode) && Sized(cipher) && DiskOk(disk)
    }

    /** `data_read`: the block as stored, or decrypted and authenticated. */
    function DataRead(inode: Inode, lblk: nat, pb: nat): Block
      requires Valid()
      reads this
    {
      if pb !in disk then Bad
      else if inode.csumAlgo != CSUM_AEAD then Good(disk[pb])
      else
        match Leaf(disk, mode, inode, lblk)
        case Bad => Bad
        case Good(lb) =>
          var entry := EntryIn(lb, CSUM_AEAD, lblk);
          match Opening(cipher, fileKey(inode.ino), entry, Place(inode.ino, lblk), disk[pb])
          case Closed => Bad
          case Plain(data) => Good(data)
    }

    lemma ReadsBack(inode: Inode, lblk: nat, pb: nat, data: Bytes, nonce: Bytes)
      requires Valid() && inode.csumAlgo == CSUM_AEAD && |nonce| == 12 && pb in disk
      requires disk[pb] == Xored(cipher, fileKey(inode.ino), 1, nonce, data)
      requires Leaf(disk, mode, inode, lblk).Good?
      requires var tag := TagOf(cipher, fileKey(inode.ino), nonce, Place(inode.ino, lblk), disk[pb]);
        EntryIn(Leaf(disk, mode, inode, lblk).b, CSUM_AEAD, lblk) == EntryOf(tag, nonce, disk[pb])
      ensures DataRead(inode, lblk, pb) == Good(data)
    {
      EntryOpens(cipher, fileKey(inode.ino), Place(inode.ino, lblk), data, nonce);
    }

    method Seal(blk: nat, b: Bytes)
      requires Valid() && |b| == BLOCK
      modifies this`disk
      ensures disk == old(disk)[blk := Sealed(mode, b)] && Valid()
    {
      var sum := Sum(mode, b);
      disk := disk[blk := Put(b, SUM_AT, sum)];
    }

    /** The entry of block `lblk` written to the leaf, the leaf sealed again. */
    method PutEntry(inode: Inode, lblk: nat, e: Bytes)
      requires Valid() && |e| == EntrySize(inode.csumAlgo) && Leaf(disk, mode, inode, lblk).Good?
      modifies this`disk
      ensures Valid()
      ensures Leaf(disk, mode, inode, lblk).Good?
      ensures EntryIn(Leaf(disk, mode, inode, lblk).b, inode.csumAlgo, lblk) == e
      ensures var at := old(LeafPointer(disk, mode, inode, lblk)).blk;
        at in disk && disk == old(disk)[at := disk[at]]
    {
      var at := LeafPointer(disk, mode, inode, lblk).blk;
      var lb := Leaf(disk, mode, inode, lblk).b;
      var lb' := Put(lb, EntryAt(inode.csumAlgo, lblk), e);
      assert lb'[..SUM_AT] == lb[..SUM_AT];
      EntryReadsBack(mode, lb, inode.csumAlgo, lblk, e);
      LeafRewritten(disk, mode, inode, lblk, lb');
      Seal(at, lb');
    }

    /** What is written of a block's data: itself, or its ciphertext. */
    function Stored(inode: Inode, data: Bytes, nonce: Bytes): (b: Bytes)
      requires Sized(cipher)
      ensures |b| == |data|
    {
      if inode.csumAlgo == CSUM_AEAD then Xored(cipher, fileKey(inode.ino), 1, nonce, data) else data
    }

    /** A block written, and then its entry, if there is a checksum block for it then. */
    method WriteChecked(inode: Inode, lblk: nat, pb: nat, b: Bytes, e: Bytes) returns (ok: bool)
      requires Valid() && |b| == BLOCK && |e| == EntrySize(inode.csumAlgo)
      modifies this`disk
      ensures Valid() && pb in disk
      ensures var d := old(disk)[pb := b];
        && (ok <==> Leaf(d, mode, inode, lblk).Good?)
        && (LeafPointer(d, mode, inode, lblk) != To(pb) ==> disk[pb] == b)
        && SameBut(old(disk), disk, pb, LeafPointer(d, mode, inode, lblk))
      ensures ok ==>
        && Leaf(disk, mode, inode, lblk).Good?
        && EntryIn(Leaf(disk, mode, inode, lblk).b, inode.csumAlgo, lblk) == e
    {
      ghost var d := disk;
      disk := disk[pb := b];
      ghost var d1, at := disk, LeafPointer(disk, mode, inode, lblk);
      ok := Leaf(disk, mode, inode, lblk).Good?;
      if ok {
        PutEntry(inode, lblk, e);
        TwoWrites(d, d1, disk, pb, b, at.blk);
      }
    }

    method WriteEncrypted(inode: Inode, lblk: nat, pb: nat, data: Bytes, nonce: Bytes) returns (ok: bool)
      requires Valid() && inode.csumAlgo == CSUM_AEAD && |data| == BLOCK && |nonce| == 12
      modifies this`disk
      ensures Valid()
      ensures var d := old(disk)[pb := Stored(inode, data, nonce)];
        && (ok <==> Leaf(d, mode, inode, lblk).Good?)
        && (ok && LeafPointer(d, mode, inode, lblk) != To(pb) ==> DataRead(inode, lblk, pb) == Good(data))
        && SameBut(old(disk), disk, pb, LeafPointer(d, mode, inode, lblk))
    {
      var key := fileKey(inode.ino);
      var ct := ChaChaXor(cipher, key, 1, nonce, data);
      var tag := TagOf(cipher, key, nonce, Place(inode.ino, lblk), ct);
      ghost var d := disk[pb := ct];
      ok := WriteChecked(inode, lblk, pb, ct, EntryOf(tag, nonce, ct));
      if ok && LeafPointer(d, mode, inode, lblk) != To(pb) {
        ReadsBack(inode, lblk, pb, data, nonce);
      }
    }

    /** `write_dir_block`, with the nonce it draws. It succeeds exactly when, the block being
        written, the directory has a sound checksum block for `lblk`; then, unless that is
        the very block, it reads back as written. Nothing but the two changes. A block apart
        from both leaves the checksum block as it was before. */
    method WriteDirBlock(inode: Inode, lblk: nat, pb: nat, data: Bytes, nonce: Bytes) returns (ok: bool)
      requires Valid() && |data| == BLOCK && |nonce| == 12
      modifies this`disk
      ensures Valid()
      ensures var d := old(disk)[pb := Stored(inode, data, nonce)];
        && (ok <==> inode.csumAlgo in {CSUM_CRC, CSUM_AEAD} && Leaf(d, mode, inode, lblk).Good?)
        && (ok && LeafPointer(d, mode, inode, lblk) != To(pb) ==> DataRead(inode, lblk, pb) == Good(data))
        && SameBut(old(disk), disk, pb, LeafPointer(d, mode, inode, lblk))
      ensures ok && inode.csumAlgo == CSUM_CRC ==>
        && Leaf(disk, mode, inode, lblk).Good?
        && EntryIn(Leaf(disk, mode, inode, lblk).b, CSUM_CRC, lblk) == Le32(Crc(data, 0))
      ensures pb != inode.csumRoot && old(LeafPointer(disk, mode, inode, lblk)) != To(pb) ==>
        && (ok <==> inode.csumAlgo in {CSUM_CRC, CSUM_AEAD} && old(Leaf(disk, mode, inode, lblk)).Good?)
        && (ok ==> DataRead(inode, lblk, pb) == Good(data))
    {
      if pb != inode.csumRoot && LeafPointer(disk, mode, inode, lblk) != To(pb) {
        LeafElsewhere(disk, mode, inode, lblk, pb, Stored(inode, data, nonce));
      }
      if inode.csumAlgo == CSUM_AEAD {
        ok := WriteEncrypted(inode, lblk, pb, data, nonce);
      } else if inode.csumAlgo == CSUM_CRC {
        ok := WriteChecked(inode, lblk, pb, data, Le32(Crc(data, 0)));
      } else {
        disk := disk[pb := data];
        ok := false;
      }
    }
  }
}
