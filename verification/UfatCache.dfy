/** The block device and the write-back block cache of uFAT (mysh/fs/ufat.c, mysh/fs/ufat_internal.h).

    The cache is specified by one ghost field: `view`, the flat array of blocks that a caller sees.
    A block that is present in a slot reads as the slot's bytes; any other block reads as the device's bytes. */
module UfatCache {
  import opened Integers
  import opened Arith

  type Block = seq<byte>

  /** Little-endian 16-bit and 32-bit fields: r16, r32, w16 and w32. */
  function R16(b: seq<byte>, o: nat): (x: nat)
    requires o + 2 <= |b|
    ensures x < 0x1_0000
  {
    var lo: nat, hi: nat := b[o], b[o + 1];
    lo + 0x100 * hi
  }

  function R32(b: seq<byte>, o: nat): (x: nat)
    requires o + 4 <= |b|
    ensures x < 0x1_0000_0000
  {
    R16(b, o) + 0x1_0000 * R16(b, o + 2)
  }

  function W16(x: nat): (b: seq<byte>)
    ensures |b| == 2 && R16(b, 0) == x % 0x1_0000
  {
    [x % 0x100, x / 0x100 % 0x100]
  }

  /** The low byte of a field comes first, and the low half of a long one. */
  lemma LittleEndian(b: seq<byte>, o: nat)
    ensures o + 2 <= |b| ==> R16(b, o) % 0x100 == b[o] && R16(b, o) / 0x100 == b[o + 1]
    ensures o + 4 <= |b| ==> R32(b, o) % 0x1_0000 == R16(b, o) && R32(b, o) / 0x1_0000 == R16(b, o + 2)
  {
    if o + 4 <= |b| {
      HalvesOf(R16(b, o), R16(b, o + 2));
      hide R16;
    }
  }

  lemma HalvesOf(low: nat, high: nat)
    requires low < 0x1_0000
    ensures (low + 0x1_0000 * high) % 0x1_0000 == low && (low + 0x1_0000 * high) / 0x1_0000 == high
  {
  }

  lemma TwoHalves(x: nat)
    ensures x % 0x1_0000 + 0x1_0000 * (x / 0x1_0000 % 0x1_0000) == x % 0x1_0000_0000
  {
    var q, r := x / 0x1_0000, x % 0x1_0000;
    assert x == q / 0x1_0000 * 0x1_0000_0000 + (0x1_0000 * (q % 0x1_0000) + r);
    DivModUnique(x, 0x1_0000_0000, q / 0x1_0000, 0x1_0000 * (q % 0x1_0000) + r);
  }

  function W32(x: nat): (b: seq<byte>)
    ensures |b| == 4 && R32(b, 0) == x % 0x1_0000_0000
  {
    var lo, hi := W16(x % 0x1_0000), W16(x / 0x1_0000);
    var b := lo + hi;
    TwoHalves(x);
    assert R16(b, 0) == R16(lo, 0) == x % 0x1_0000;
    assert R16(b, 2) == R16(hi, 0) == x / 0x1_0000 % 0x1_0000;
    b
  }

  /** w16 in place */
  function Put16(b: Block, o: nat, v: nat): (r: Block)
    requires o + 2 <= |b|
    ensures |r| == |b|
  {
    b[o := v % 0x100][o + 1 := v / 0x100 % 0x100]
  }

  datatype Error = IoError | BlockSizeError | InvalidBpb | BlockAlignment | InvalidCluster | NoClusters | DirectoryFull
      | Immutable | NotFile | NotDirectory | DirectoryNotEmpty | IllegalName | FileExists | NameTooLong | BadEncoding

  datatype Result<+T> = Ok(value: T) | Err(error: Error)

  datatype FatType = Fat12 | Fat16 | Fat32

  /** The geometry of an opened volume. Sizes the source keeps as base-2 logarithms are kept as the sizes themselves. */
  datatype Bpb = Bpb(
    fatType: FatType,
    blockSize: nat,
    blocksPerCluster: nat,
    fatStart: nat,
    fatSize: nat,
    fatCount: nat,
    rootStart: nat,
    rootSize: nat,
    clusterStart: nat,
    numClusters: nat)
  {
    function FatArea(): int { fatSize * fatCount }

    function ClusterArea(): int { (numClusters - 2) * blocksPerCluster }

    predicate InFat(b: int) { fatStart <= b < fatStart + fatSize }

    /** A block of the second or a later copy of the FAT. */
    predicate IsMirror(b: int) { fatStart + fatSize <= b < rootStart }

    /** The block of the first FAT that mirror block `m` is a copy of. */
    function Primary(m: int): (b: int)
      requires 0 < fatSize
      ensures InFat(b)
    {
      fatStart + (m - fatStart) % fatSize
    }

    /** Where copy number `k` of FAT block `b` lies. */
    function Copy(b: int, k: nat): int { b + k * fatSize }

    /** The regions are where parse_bpb puts them, and a device of `n` blocks holds them all. */
    predicate Fits(n: nat) {
      && 512 <= blockSize && blockSize % 32 == 0
      && 0 < blocksPerCluster
      && 0 < fatSize && 0 < fatCount && 2 <= numClusters
      && fatStart + fatSize <= rootStart == fatStart + FatArea()
      && rootStart <= clusterStart == rootStart + rootSize
      && clusterStart <= clusterStart + ClusterArea() <= n
    }
  }

  /** One copy of `b` lies a FAT size above the one before it, and is a mirror of `b`. */
  lemma MirrorStep(g: Bpb, b: int, k: nat)
    requires 0 < g.fatSize && g.rootStart == g.fatStart + g.FatArea() && g.InFat(b)
    ensures g.Copy(b, 0) == b && g.Copy(b, k + 1) == g.Copy(b, k) + g.fatSize
    ensures 1 <= k < g.fatCount ==> g.IsMirror(g.Copy(b, k)) && g.Primary(g.Copy(b, k)) == b
  {
    var fs := g.fatSize;
    if 1 <= k < g.fatCount {
      MulMono(k, g.fatCount - 1, fs);
      MulMono(1, k, fs);
      assert (g.fatCount - 1) * fs == fs * g.fatCount - fs;
      DivModUnique(b + k * fs - g.fatStart, fs, k, b - g.fatStart);
    }
  }

  /** The mirrors are the blocks of the second and later FATs, each at the place of its block in the first one. */
  lemma MirrorMeans(g: Bpb, m: int)
    requires 0 < g.fatSize && g.rootStart == g.fatStart + g.FatArea()
    ensures var k := (m - g.fatStart) / g.fatSize;
            && (g.IsMirror(m) <==> 1 <= k < g.fatCount)
            && g.Primary(m) + k * g.fatSize == m
  {
    var x, size := m - g.fatStart, g.fatSize;
    var k := x / size;
    assert x == k * size + x % size;
    if 1 <= k < g.fatCount {
      MulMono(1, k, size);
      MulMono(k + 1, g.fatCount, size);
      assert (k + 1) * size == k * size + size;
    } else if k < 1 {
      MulMono(k, 0, size);
    } else {
      MulMono(g.fatCount, k, size);
    }
  }

  /** Every mirror of `b` above copy number `k` is a later copy. */
  lemma MirrorGap(g: Bpb, b: int, m: int, k: nat)
    requires 0 < g.fatSize && g.rootStart == g.fatStart + g.FatArea()
    requires g.InFat(b) && g.IsMirror(m) && g.Primary(m) == b && g.Copy(b, k) < m
    ensures g.Copy(b, k + 1) <= m && k + 1 < g.fatCount
  {
    var fs := g.fatSize;
    var q := (m - g.fatStart) / fs;
    assert m - g.fatStart == q * fs + (b - g.fatStart);
    if q <= k {
      MulMono(q, k, fs);
      assert false;
    }
    MulMono(k + 1, q, fs);
    if g.fatCount <= k + 1 {
      MulMono(g.fatCount, k + 1, fs);
      assert false;
    }
  }

  lemma MirrorWalk(g: Bpb, b: int, k: nat)
    requires 0 < g.fatSize && g.rootStart == g.fatStart + g.FatArea() && g.InFat(b)
    ensures forall x {:trigger g.Primary(x)} | g.IsMirror(x) && g.Primary(x) == b ::
              g.Copy(b, k) < x ==> g.Copy(b, k + 1) <= x && k + 1 < g.fatCount
  {
    forall x | g.IsMirror(x) && g.Primary(x) == b && g.Copy(b, k) < x
      ensures g.Copy(b, k + 1) <= x && k + 1 < g.fatCount
    {
      MirrorGap(g, b, x, k);
    }
  }

  predicate Sized(blocks: seq<Block>, size: nat) {
    forall b | 0 <= b < |blocks| :: |blocks[b]| == size
  }

  function Span(start: nat, count: nat): (s: set<nat>)
    ensures forall b :: b in s <==> start <= b < start + count
  {
    if count == 0 then {} else Span(start, count - 1) + {start + count - 1}
  }

  /** A block device that may refuse any request. A refused write leaves the addressed blocks with arbitrary bytes.
      `failures` counts the refusals, so that a contract can say what happens when there are none, and `refused` holds
      the blocks that a refused write was addressed to. */
  class Device {
    const blockSize: nat
    var blocks: seq<Block>
    ghost var failures: nat
    ghost var refused: set<nat>

    ghost predicate Valid()
      reads this
    {
      Sized(blocks, blockSize) && (failures == 0 ==> refused == {})
    }

    constructor (blockSize: nat, blocks: seq<Block>)
      requires Sized(blocks, blockSize)
      ensures Valid() && this.blockSize == blockSize && this.blocks == blocks && failures == 0
    {
      this.blockSize, this.blocks, this.failures, this.refused := blockSize, blocks, 0, {};
    }

    method Read(start: nat, count: nat) returns (r: Result<seq<Block>>)
      requires Valid()
      modifies this`failures
      ensures Valid() && old(failures) <= failures
      ensures r.Ok? <==> failures == old(failures)
      ensures r.Err? ==> r.error == IoError
      ensures r.Ok? ==> start + count <= |blocks| && r.value == blocks[start..start + count]
    {
      var accepted: bool := *;
      if accepted && start + count <= |blocks| {
        return Ok(blocks[start..start + count]);
      }
      failures := failures + 1;
      return Err(IoError);
    }

    method Write(start: nat, buffer: seq<Block>) returns (r: Result<()>)
      requires Valid()
      requires Sized(buffer, blockSize)
      modifies this
      ensures Valid() && |blocks| == |old(blocks)|
      ensures old(failures) <= failures
      ensures r.Ok? <==> failures == old(failures)
      ensures r.Err? ==> r.error == IoError
      ensures old(refused) <= refused && (r.Err? ==> forall b | start <= b < start + |buffer| :: b in refused)
      ensures forall b | 0 <= b < |blocks| && !(start <= b < start + |buffer|) :: blocks[b] == old(blocks)[b]
      ensures r.Ok? ==> start + |buffer| <= |blocks|
      ensures r.Ok? ==> forall b | start <= b < start + |buffer| :: blocks[b] == buffer[b - start]
    {
      var accepted: bool := *;
      if start + |buffer| <= |blocks| {
        var written := buffer;
        if !accepted {
          written :| |written| == |buffer| && Sized(written, blockSize);
        }
        assert Sized(written, blockSize);
        blocks := blocks[..start] + written + blocks[start + |buffer|..];
        assert forall b | start <= b < start + |written| :: blocks[b] == written[b - start];
        if accepted {
          return Ok(());
        }
      }
      failures, refused := failures + 1, refused + Span(start, |buffer|);
      return Err(IoError);
    }
  }

  datatype CacheDesc = CacheDesc(present: bool, dirty: bool, seqNo: uint32, index: nat)

  /** How many openings ago a slot was last opened, as the 32-bit counters see it. */
  function Age(nextSeq: uint32, d: CacheDesc): uint32 {
    (nextSeq - d.seqNo) % 0x1_0000_0000
  }

  function Patch(block: Block, offset: nat, bytes: seq<byte>): (r: Block)
    requires offset + |bytes| <= |block|
    ensures |r| == |block|
  {
    block[..offset] + bytes + block[offset + |bytes|..]
  }

  /** Device blocks and mirror bookkeeping agree for every mirror block except the copies of `b` above block `m`. */
  ghost predicate Mirrored(g: Bpb, blocks: seq<Block>, stale: set<nat>, b: int, m: int)
    requires 0 < g.fatSize && g.fatStart + g.fatSize <= |blocks|
  {
    forall x {:trigger g.Primary(x)} | 0 <= x < |blocks| && g.IsMirror(x) && x !in stale
        && (g.Primary(x) != b || x <= m) ::
      blocks[x] == blocks[g.Primary(x)]
  }

  /** One more copy has been written, or refused. */
  lemma MirrorStored(g: Bpb, blocks: seq<Block>, blocks': seq<Block>, stale: set<nat>, stale': set<nat>, b: int,
                     k: nat, m: nat)
    requires 0 < g.fatSize && g.rootStart == g.fatStart + g.FatArea() && g.fatStart + g.fatSize <= |blocks| == |blocks'|
    requires g.InFat(b) && m == g.Copy(b, k + 1) && g.IsMirror(m) && g.Primary(m) == b
    requires Mirrored(g, blocks, stale, b, g.Copy(b, k))
    requires forall x | 0 <= x < |blocks| && x != m :: blocks'[x] == blocks[x]
    requires stale' == stale + {m} || (stale' == stale - {m} && m < |blocks| && blocks'[m] == blocks[b])
    ensures Mirrored(g, blocks', stale', b, m)
  {
    MirrorWalk(g, b, k);
    hide Bpb.FatArea, Bpb.Copy;
  }

  lemma MirrorsDone(g: Bpb, blocks: seq<Block>, stale: set<nat>, b: int, m: int, k: nat)
    requires 0 < g.fatSize && g.rootStart == g.fatStart + g.FatArea() && g.fatStart + g.fatSize <= |blocks|
    requires g.InFat(b) && m == g.Copy(b, k) && g.fatCount <= k + 1 && Mirrored(g, blocks, stale, b, m)
    ensures Mirrored(g, blocks, stale, b, |blocks|)
  {
    MirrorWalk(g, b, k);
  }

  lemma MirroredKept(g: Bpb, blocks: seq<Block>, blocks': seq<Block>, stale: set<nat>, b: int, m: int)
    requires 0 < g.fatSize && g.fatStart + g.fatSize <= g.rootStart <= |blocks| == |blocks'|
    requires Mirrored(g, blocks, stale, b, m)
    requires forall x | 0 <= x < g.rootStart :: blocks'[x] == blocks[x]
    ensures Mirrored(g, blocks', stale, b, m)
  {
  }

  /** A mirror block can only differ from the first FAT if it did so at the start, or if a write to one of the two was
      refused. */
  ghost predicate Explained(g: Bpb, stale: set<nat>, unequal: set<nat>, refused: set<nat>)
    requires 0 < g.fatSize
  {
    forall m | m in stale :: m in unequal || m in refused || g.Primary(m) in refused
  }

  lemma ExplainedMore(g: Bpb, stale: set<nat>, unequal: set<nat>, refused: set<nat>, stale': set<nat>,
                      refused': set<nat>)
    requires 0 < g.fatSize && Explained(g, stale, unequal, refused) && refused <= refused'
    requires forall m | m in stale' :: m in stale || m in refused' || g.Primary(m) in refused'
    ensures Explained(g, stale', unequal, refused')
  {
  }

  /** As long as no slot has gone unopened for 2^32 openings, the 32-bit age is the true age. */
  lemma AgeIsExact(clock: nat, lastOpened: nat, d: CacheDesc)
    requires lastOpened <= clock && d.seqNo == lastOpened % 0x1_0000_0000
    ensures Age(clock % 0x1_0000_0000, d) == clock - lastOpened <==> clock - lastOpened < 0x1_0000_0000
  {
    assert (clock % 0x1_0000_0000 - lastOpened % 0x1_0000_0000) % 0x1_0000_0000 == (clock - lastOpened) % 0x1_0000_0000;
  }

  /** The slots that are present are found by block number, and no block has two. */
  ghost predicate IndexedIn(desc: seq<CacheDesc>, slot: map<nat, nat>) {
    && (forall b | b in slot :: slot[b] < |desc| && desc[slot[b]].present && desc[slot[b]].index == b)
    && (forall i | 0 <= i < |desc| && desc[i].present :: desc[i].index in slot && slot[desc[i].index] == i)
  }

  /** How many slots the cache has: 8 KiB of blocks, and at most 16. */
  function CacheSize(blockSize: nat): (n: nat)
    requires 0 < blockSize <= 8192
    ensures 0 < n <= 16 && n * blockSize <= 8192 && (n == 16 || 8192 < (n + 1) * blockSize)
  {
    SlotsFit(blockSize, 8192 / blockSize);
    if 8192 / blockSize > 16 then 16 else 8192 / blockSize
  }

  lemma SlotsFit(blockSize: nat, q: nat)
    requires 0 < blockSize <= 8192 && q == 8192 / blockSize
    ensures 0 < q && q * blockSize <= 8192 < (q + 1) * blockSize && (16 < q ==> 16 * blockSize <= 8192)
  {
    assert 8192 == q * blockSize + 8192 % blockSize && (q + 1) * blockSize == q * blockSize + blockSize;
    if q == 0 {
      assert false;
    }
    if 16 < q {
      MulMono(16, q, blockSize);
    }
  }

  class Ufat {
    const dev: Device
    const bpb: Bpb
    const cacheDesc: array<CacheDesc>
    const cacheData: array<Block>
    var nextSeq: uint32
    var allocPtr: nat

    /** The flat block array that the cache and the device present together. */
    ghost var view: seq<Block>
    /** The slot of each cached block. */
    ghost var slot: map<nat, nat>
    /** The mirror blocks that may differ from the first FAT because a write to them was refused. */
    ghost var stale: set<nat>
    /** The mirror blocks that differed from the first FAT when the volume was opened. */
    ghost const unequal: set<nat>
    /** How many openings there have been, and at which of them each slot was last opened. */
    ghost var clock: nat
    ghost var lastOpened: seq<nat>

    ghost function Objects(): set<object> {
      {this, dev, cacheDesc, cacheData}
    }

    ghost predicate MirroredBut(b: int, m: int)
      requires 0 < bpb.fatSize && bpb.fatStart + bpb.fatSize <= |view| == |dev.blocks|
      reads this, dev
    {
      Mirrored(bpb, dev.blocks, stale, b, m)
    }

    ghost predicate Blamed()
      requires 0 < bpb.fatSize
      reads this, dev
    {
      Explained(bpb, stale, unequal, dev.refused)
    }

    ghost predicate Timed()
      reads this`nextSeq, this`clock, this`lastOpened, cacheDesc
    {
      && nextSeq == clock % 0x1_0000_0000 && |lastOpened| == cacheDesc.Length
      && (forall i | 0 <= i < cacheDesc.Length ::
            lastOpened[i] <= clock && cacheDesc[i].seqNo == lastOpened[i] % 0x1_0000_0000)
    }

    /** The cache is coherent, except that the bytes of slot `loose` need not have reached the device
        even though the slot is not marked dirty. */
    /** The slots are found by block number, and no block has two. */
    ghost predicate Indexed()
      reads this`slot, cacheDesc
    {
      && (forall b | b in slot ::
            slot[b] < cacheDesc.Length && cacheDesc[slot[b]].present && cacheDesc[slot[b]].index == b)
      && (forall i | 0 <= i < cacheDesc.Length && cacheDesc[i].present ::
            cacheDesc[i].index in slot && slot[cacheDesc[i].index] == i)
    }

    ghost predicate CoherentBut(loose: int)
      reads Objects()
    {
      && dev.Valid() && dev.blockSize == bpb.blockSize && bpb.Fits(|dev.blocks|)
      && 0 < cacheDesc.Length == cacheData.Length
      && |view| == |dev.blocks|
      && Sized(view, bpb.blockSize)
      && Indexed()
      // What the caller sees of a block is its slot, or else the device.
      && (forall i | 0 <= i < cacheDesc.Length && cacheDesc[i].present ::
            && cacheDesc[i].index < |view| && !bpb.IsMirror(cacheDesc[i].index)
            && cacheData[i] == view[cacheDesc[i].index])
      && (forall b | 0 <= b < |view| && b !in slot && !bpb.IsMirror(b) :: dev.blocks[b] == view[b])
      // A slot that is not dirty may be dropped.
      && (forall i | 0 <= i < cacheDesc.Length && cacheDesc[i].present && !cacheDesc[i].dirty && i != loose ::
            dev.blocks[cacheDesc[i].index] == view[cacheDesc[i].index])
      && MirroredBut(0, |view|) && Blamed() && Timed()
    }

    ghost predicate Valid()
      reads Objects()
    {
      CoherentBut(-1)
    }

    constructor (dev: Device, bpb: Bpb)
      requires dev.Valid() && dev.blockSize == bpb.blockSize && bpb.Fits(|dev.blocks|) && bpb.blockSize <= 8192
      ensures Valid() && this.dev == dev && this.bpb == bpb && view == dev.blocks && slot == map[]
      ensures allocPtr == 0 && dev.blocks == old(dev.blocks) && dev.failures == old(dev.failures)
      ensures forall m :: m in unequal <==>
                m < |dev.blocks| && bpb.IsMirror(m) && dev.blocks[m] != dev.blocks[bpb.Primary(m)]
      ensures fresh(this) && fresh(cacheDesc) && fresh(cacheData)
    {
      hide Bpb.FatArea, Bpb.ClusterArea, Bpb.Primary;
      hide CacheSize;
      var size := CacheSize(bpb.blockSize);
      this.dev, this.bpb := dev, bpb;
      cacheDesc := new CacheDesc[size](_ => CacheDesc(false, false, 0, 0));
      cacheData := new Block[size](_ => []);
      nextSeq, allocPtr, clock, lastOpened := 0, 0, 0, seq(size, _ => 0);
      view, slot := dev.blocks, map[];
      var differ := set m | 0 <= m < |dev.blocks| && bpb.IsMirror(m) && dev.blocks[m] != dev.blocks[bpb.Primary(m)];
      stale, unequal := differ, differ;
    }

    method SetAllocPtr(p: nat)
      requires Valid()
      modifies this`allocPtr
      ensures Valid() && allocPtr == p
    {
      allocPtr := p;
    }

    /** The mirror loop of cache_flush: copies FAT block `b` to the other FATs and remembers the refusals. */
    method MirrorFat(b: nat, data: Block)
      requires dev.Valid() && dev.blockSize == bpb.blockSize && bpb.Fits(|dev.blocks|) && |view| == |dev.blocks|
      requires bpb.InFat(b) && b < |view| && dev.blocks[b] == data && |data| == bpb.blockSize
      requires MirroredBut(b, b) && Blamed()
      modifies this`stale, dev
      ensures dev.Valid() && |dev.blocks| == |view| && Blamed() && old(dev.refused) <= dev.refused
      ensures old(dev.failures) <= dev.failures
      ensures dev.failures == old(dev.failures) ==> stale <= old(stale)
      ensures forall x | 0 <= x < |view| && !bpb.IsMirror(x) :: dev.blocks[x] == old(dev.blocks)[x]
      ensures MirroredBut(b, |view|)
    {
      hide Bpb.Primary, Bpb.FatArea, Bpb.ClusterArea, Bpb.Copy, Explained, Mirrored;
      var k, m := 1, b;
      MirrorStep(bpb, b, 0);
      while k < bpb.fatCount
        invariant 1 <= k <= bpb.fatCount && m == bpb.Copy(b, k - 1)
        invariant dev.Valid() && |dev.blocks| == |view| && Blamed() && old(dev.refused) <= dev.refused
        invariant old(dev.failures) <= dev.failures
        invariant dev.failures == old(dev.failures) ==> stale <= old(stale)
        invariant forall x | 0 <= x < |view| && !bpb.IsMirror(x) :: dev.blocks[x] == old(dev.blocks)[x]
        invariant MirroredBut(b, m)
      {
        MirrorStep(bpb, b, k - 1);
        MirrorStep(bpb, b, k);
        m := m + bpb.fatSize;
        ghost var stale0, refused0, blocks0 := stale, dev.refused, dev.blocks;
        var w := dev.Write(m, [data]);
        if w.Ok? {
          assert dev.blocks[m] == [data][0];
          stale := stale - {m};
        } else {
          stale := stale + {m};
        }
        ExplainedMore(bpb, stale0, unequal, refused0, stale, dev.refused);
        MirrorStored(bpb, blocks0, dev.blocks, stale0, stale, b, k - 1, m);
        k := k + 1;
      }
      MirrorsDone(bpb, dev.blocks, stale, b, m, k - 1);
    }

    /** The device half of cache_flush: one write that may fail, then the mirrors of a FAT block. */
    method WriteBack(b: nat, data: Block) returns (r: Result<()>)
      requires dev.Valid() && dev.blockSize == bpb.blockSize && bpb.Fits(|dev.blocks|) && |view| == |dev.blocks|
      requires b < |view| && !bpb.IsMirror(b) && |data| == bpb.blockSize && MirroredBut(b, |view|)
      requires Blamed()
      modifies this`stale, dev
      ensures dev.Valid() && |dev.blocks| == |view| && MirroredBut(0, |view|) && Blamed()
      ensures old(dev.failures) <= dev.failures
      ensures r.Err? ==> old(dev.failures) < dev.failures
      ensures dev.failures == old(dev.failures) ==> stale <= old(stale)
      ensures forall x | 0 <= x < |view| && !bpb.IsMirror(x) && x != b :: dev.blocks[x] == old(dev.blocks)[x]
      ensures r.Ok? ==> dev.blocks[b] == data
    {
      r := dev.Write(b, [data]);
      if r.Err? {
        stale := stale + set m {:trigger bpb.Primary(m)} | 0 <= m < |view| && bpb.IsMirror(m) && bpb.Primary(m) == b;
        return;
      }
      assert dev.blocks[b] == [data][0];
      if bpb.InFat(b) {
        MirrorFat(b, data);
      }
    }

    /** cache_flush: writes a dirty slot to the device and, for a FAT block, to every mirror of it.
        Only a refusal of the first write is an error. */
    method Flush(i: nat) returns (r: Result<()>)
      requires Valid() && i < cacheDesc.Length
      modifies this`stale, dev, cacheDesc
      ensures Valid()
      ensures old(dev.failures) <= dev.failures
      ensures r.Err? ==> old(dev.failures) < dev.failures
      ensures dev.failures == old(dev.failures) ==> stale <= old(stale)
      ensures forall j | 0 <= j < cacheDesc.Length && j != i :: cacheDesc[j] == old(cacheDesc[j])
      ensures cacheDesc[i] == old(cacheDesc[i]) || (r.Ok? && cacheDesc[i] == old(cacheDesc[i]).(dirty := false))
      ensures r.Ok? && cacheDesc[i].present ==> !cacheDesc[i].dirty
    {
      if !cacheDesc[i].dirty || !cacheDesc[i].present {
        return Ok(());
      }
      var b := cacheDesc[i].index;
      var data := cacheData[i];
      r := WriteBack(b, data);
      if r.Err? {
        return;
      }
      cacheDesc[i] := cacheDesc[i].(dirty := false);
    }

    /** A slot's 32-bit age is the number of openings since its own, as long as the counters have not gone round. */
    lemma TrueAges()
      requires Valid()
      ensures |lastOpened| == cacheDesc.Length
      ensures forall j | 0 <= j < cacheDesc.Length && clock - lastOpened[j] < 0x1_0000_0000 ::
                Age(nextSeq, cacheDesc[j]) == clock - lastOpened[j]
    {
      forall j | 0 <= j < cacheDesc.Length && clock - lastOpened[j] < 0x1_0000_0000
        ensures Age(nextSeq, cacheDesc[j]) == clock - lastOpened[j]
      {
        AgeIsExact(clock, lastOpened[j], cacheDesc[j]);
      }
    }

    /** The slot scan of ufat_cache_open: the slot that holds `blk`, else the last free slot,
        else the first of the slots that have gone longest without being opened. */
    method FindSlot(blk: nat) returns (hit: bool, i: nat)
      requires Valid()
      ensures Valid() && i < cacheDesc.Length
      ensures hit <==> blk in slot
      ensures hit ==> slot[blk] == i && cacheDesc[i].present
      ensures !hit && !cacheDesc[i].present ==> forall j | i < j < cacheDesc.Length :: cacheDesc[j].present
      ensures !hit && cacheDesc[i].present ==>
                forall j | 0 <= j < cacheDesc.Length ::
                  cacheDesc[j].present && Age(nextSeq, cacheDesc[j]) <= Age(nextSeq, cacheDesc[i])
                  && (j < i ==> Age(nextSeq, cacheDesc[j]) < Age(nextSeq, cacheDesc[i]))
      // A slot that has to be given up is the one opened longest ago, as long as the counters have not gone round.
      ensures |lastOpened| == cacheDesc.Length
      ensures !hit && cacheDesc[i].present
              && (forall j | 0 <= j < cacheDesc.Length :: clock - lastOpened[j] < 0x1_0000_0000) ==>
                forall j | 0 <= j < cacheDesc.Length :: lastOpened[i] <= lastOpened[j]
    {
      TrueAges();
      var oldest, free, oldestAge := -1, -1, 0;
      i := 0;
      while i < cacheDesc.Length
        invariant i <= cacheDesc.Length
        invariant forall j | 0 <= j < i && cacheDesc[j].present :: cacheDesc[j].index != blk
        invariant -1 <= free < i && (free >= 0 ==> !cacheDesc[free].present)
        invariant forall j | 0 <= j < i && free < j :: cacheDesc[j].present
        invariant -1 <= oldest < i && (oldest < 0 <==> i == 0)
        invariant oldest >= 0 ==> oldestAge == Age(nextSeq, cacheDesc[oldest])
        invariant forall j | 0 <= j < i ::
          Age(nextSeq, cacheDesc[j]) <= oldestAge && (j < oldest ==> Age(nextSeq, cacheDesc[j]) < oldestAge)
      {
        if cacheDesc[i].present && cacheDesc[i].index == blk {
          return true, i;
        }
        var age := Age(nextSeq, cacheDesc[i]);
        if !cacheDesc[i].present {
          free := i;
        }
        if oldest < 0 || age > oldestAge {
          oldestAge, oldest := age, i;
        }
        i := i + 1;
      }
      hit, i := false, if free >= 0 then free else oldest;
    }

    /** ufat_cache_open: makes block `blk` present. With `skipRead` a block that was absent reads as zeros from now
        on, although neither the device nor the dirty flag says so: the caller has to write the slot next. */
    method Open(blk: nat, skipRead: bool) returns (r: Result<nat>)
      requires Valid() && blk < |view| && !bpb.IsMirror(blk)
      modifies this`stale, this`slot, this`view, this`nextSeq, this`clock, this`lastOpened, dev, cacheDesc, cacheData
      ensures old(dev.failures) <= dev.failures
      ensures r.Err? ==> r.error == IoError && old(dev.failures) < dev.failures
      ensures dev.failures == old(dev.failures) ==> stale <= old(stale)
      ensures r.Err? || !skipRead ==> Valid() && view == old(view)
      ensures r.Ok? ==> CoherentBut(r.value) && blk in slot && slot[blk] == r.value
      ensures r.Ok? ==> r.value < cacheDesc.Length == cacheData.Length && cacheDesc[r.value].present
                        && blk < |view| && cacheData[r.value] == view[blk] && |view[blk]| == bpb.blockSize
      ensures view == old(view)
              || (skipRead && blk !in old(slot) && view == old(view)[blk := seq(bpb.blockSize, _ => 0)])
      ensures skipRead && r.Ok? ==>
                view == if blk in old(slot) then old(view) else old(view)[blk := seq(bpb.blockSize, _ => 0)]
    {
      hide CoherentBut;
      var hit, i := FindSlot(blk);
      if hit {
        Touch(i);
        return Ok(i);
      }
      if cacheDesc[i].present {
        var f := Flush(i);
        if f.Err? {
          return Err(IoError);
        }
      }
      var data := seq(bpb.blockSize, _ => 0);
      if !skipRead {
        var d := Fetch(blk);
        if d.Err? {
          DropSlot(i);
          return Err(IoError);
        }
        data := d.value;
      }
      DropSlot(i);
      FillSlot(i, blk, data, skipRead);
      return Ok(i);
    }

    method Touch(i: nat)
      requires Valid() && i < cacheDesc.Length && cacheDesc[i].present
      modifies this`nextSeq, this`clock, this`lastOpened, cacheDesc
      ensures Valid() && CoherentBut(i) && cacheDesc[i].present && cacheDesc[i].index == old(cacheDesc[i].index)
      ensures cacheDesc.Length == cacheData.Length
      ensures forall b | b in slot && slot[b] == i ::
                b < |view| && cacheData[i] == view[b] && |view[b]| == bpb.blockSize
    {
      hide Timed, Explained, Mirrored;
      Stamp(i, cacheDesc[i]);
    }

    /** A slot gets its descriptor, with the time of the opening. */
    method Stamp(i: nat, d: CacheDesc)
      requires i < cacheDesc.Length && Timed()
      modifies this`nextSeq, this`clock, this`lastOpened, cacheDesc
      ensures Timed() && cacheDesc[i] == d.(seqNo := old(nextSeq))
      ensures forall j | 0 <= j < cacheDesc.Length && j != i :: cacheDesc[j] == old(cacheDesc[j])
    {
      cacheDesc[i] := d.(seqNo := nextSeq);
      nextSeq := (nextSeq + 1) % 0x1_0000_0000;
      clock, lastOpened := clock + 1, lastOpened[i := clock];
    }

    method Fetch(blk: nat) returns (r: Result<Block>)
      requires Valid() && blk < |view| && blk !in slot && !bpb.IsMirror(blk)
      modifies dev`failures
      ensures Valid() && old(dev.failures) <= dev.failures
      ensures r.Err? ==> old(dev.failures) < dev.failures
      ensures r.Ok? ==> r.value == dev.blocks[blk] == view[blk] && |r.value| == bpb.blockSize
    {
      var d := dev.Read(blk, 1);
      if d.Err? {
        return Err(IoError);
      }
      return Ok(d.value[0]);
    }

    /** Forgets the contents of a slot that need not be written. */
    method DropSlot(i: nat)
      requires Valid() && i < cacheDesc.Length && (cacheDesc[i].present ==> !cacheDesc[i].dirty)
      modifies this`slot, cacheDesc
      ensures Valid() && !cacheDesc[i].present
      ensures forall j | 0 <= j < cacheDesc.Length && j != i :: cacheDesc[j] == old(cacheDesc[j])
      ensures forall b :: b in slot ==> b in old(slot)
    {
      if cacheDesc[i].present {
        slot := slot - {cacheDesc[i].index};
      }
      cacheDesc[i] := CacheDesc(false, false, cacheDesc[i].seqNo, cacheDesc[i].index);
    }

    method FillSlot(i: nat, blk: nat, data: Block, loose: bool)
      requires Valid() && i < cacheDesc.Length && !cacheDesc[i].present && blk !in slot
      requires blk < |view| && !bpb.IsMirror(blk) && |data| == bpb.blockSize && (!loose ==> data == dev.blocks[blk])
      modifies this`slot, this`view, this`nextSeq, this`clock, this`lastOpened, cacheDesc, cacheData
      ensures CoherentBut(if loose then i else -1) && CoherentBut(i)
      ensures cacheDesc.Length == cacheData.Length && cacheDesc[i].present && cacheData[i] == data
      ensures blk in slot && slot[blk] == i && view == old(view)[blk := data]
    {
      hide Timed, Explained, Mirrored, Bpb.Fits, Bpb.IsMirror, Bpb.Primary, Sized, Indexed;
      SizedWith(view, bpb.blockSize, blk, data);
      IndexedHere();
      ghost var desc0, slot0 := cacheDesc[..], slot;
      hide IndexedIn;
      slot, view := slot[blk := i], view[blk := data];
      cacheData[i] := data;
      Stamp(i, CacheDesc(true, false, 0, blk));
      IndexedMore(desc0, slot0, i, blk);
      assert CoherentBut(if loose then i else -1);
      Looser(if loose then i else -1, i);
    }

    lemma IndexedHere()
      requires Indexed()
      ensures IndexedIn(cacheDesc[..], slot)
    {
    }

    /** One more slot is used, for a block that had none. */
    lemma IndexedMore(desc: seq<CacheDesc>, was: map<nat, nat>, i: nat, blk: nat)
      requires IndexedIn(desc, was) && i < |desc| == cacheDesc.Length && !desc[i].present && blk !in was
      requires slot == was[blk := i] && cacheDesc[i].present && cacheDesc[i].index == blk
      requires forall j | 0 <= j < cacheDesc.Length && j != i :: cacheDesc[j] == desc[j]
      ensures Indexed()
    {
    }

    lemma SizedWith(v: seq<Block>, size: nat, blk: nat, data: Block)
      requires Sized(v, size) && blk < |v| && |data| == size
      ensures Sized(v[blk := data], size)
    {
    }

    lemma Looser(a: int, b: int)
      requires CoherentBut(a) && (a == -1 || a == b)
      ensures CoherentBut(b)
    {
    }

    /** ufat_cache_write followed by a copy into the slot. */
    method WriteCached(i: nat, offset: nat, bytes: seq<byte>)
      requires CoherentBut(i) && i < cacheDesc.Length && cacheDesc[i].present
      requires offset + |bytes| <= bpb.blockSize
      modifies this`view, cacheDesc, cacheData
      ensures Valid() && CoherentBut(i) && cacheDesc[i].present
      ensures forall blk | blk in slot && slot[blk] == i ::
                view == old(view)[blk := Patch(old(view)[blk], offset, bytes)]
    {
      var blk := cacheDesc[i].index;
      cacheDesc[i] := cacheDesc[i].(dirty := true);
      cacheData[i] := Patch(cacheData[i], offset, bytes);
      view := view[blk := cacheData[i]];
    }

    /** ufat_cache_evict: writes out and drops every cached block of a range, so that the device may be read
        directly. */
    method Evict(start: nat, count: nat) returns (r: Result<()>)
      requires Valid()
      modifies this`stale, this`slot, dev, cacheDesc
      ensures Valid()
      ensures old(dev.failures) <= dev.failures
      ensures r.Err? ==> r.error == IoError && old(dev.failures) < dev.failures
      ensures dev.failures == old(dev.failures) ==> stale <= old(stale)
      ensures r.Ok? ==> forall b | start <= b < start + count :: b !in slot
    {
      hide CoherentBut;
      var i := 0;
      while i < cacheDesc.Length
        invariant i <= cacheDesc.Length
        invariant Valid()
        invariant old(dev.failures) <= dev.failures
        invariant dev.failures == old(dev.failures) ==> stale <= old(stale)
        invariant forall j | 0 <= j < i && cacheDesc[j].present :: !(start <= cacheDesc[j].index < start + count)
      {
        if cacheDesc[i].present && start <= cacheDesc[i].index < start + count {
          var f := Flush(i);
          if f.Err? {
            return Err(IoError);
          }
          DropSlot(i);
        }
        i := i + 1;
      }
      RangeAbsent(start, count);
      return Ok(());
    }

    lemma RangeAbsent(start: nat, count: nat)
      requires Valid()
      requires forall j | 0 <= j < cacheDesc.Length && cacheDesc[j].present ::
                !(start <= cacheDesc[j].index < start + count)
      ensures forall b | start <= b < start + count :: b !in slot
    {
    }

    method Forget(i: nat)
      requires Valid() && i < cacheDesc.Length && cacheDesc[i].present
      modifies this`slot, this`view, cacheDesc
      ensures Valid() && !cacheDesc[i].present
      ensures forall j | 0 <= j < cacheDesc.Length && j != i :: cacheDesc[j] == old(cacheDesc[j])
      ensures |view| == |old(view)|
      ensures forall b | 0 <= b < |view| && b != old(cacheDesc[i].index) :: view[b] == old(view)[b]
    {
      var b := cacheDesc[i].index;
      slot := slot - {b};
      view := view[b := dev.blocks[b]];
      cacheDesc[i] := CacheDesc(false, false, cacheDesc[i].seqNo, b);
    }

    /** ufat_cache_invalidate: drops every cached block of a range. The blocks then read as the device has them. */
    method Invalidate(start: nat, count: nat)
      requires Valid()
      modifies this`slot, this`view, cacheDesc
      ensures Valid()
      ensures forall b | start <= b < start + count :: b !in slot
      ensures |view| == |old(view)| && Sized(view, bpb.blockSize)
      ensures forall b | 0 <= b < |view| && !(start <= b < start + count) :: view[b] == old(view)[b]
    {
      hide CoherentBut;
      var i := 0;
      while i < cacheDesc.Length
        invariant i <= cacheDesc.Length
        invariant Valid()
        invariant forall j | 0 <= j < i && cacheDesc[j].present :: !(start <= cacheDesc[j].index < start + count)
        invariant |view| == |old(view)|
        invariant forall b | 0 <= b < |view| && !(start <= b < start + count) :: view[b] == old(view)[b]
      {
        if cacheDesc[i].present && start <= cacheDesc[i].index < start + count {
          Forget(i);
        }
        i := i + 1;
      }
      RangeAbsent(start, count);
      ViewSized();
    }

    lemma ViewSized()
      requires Valid()
      ensures Sized(view, bpb.blockSize)
    {
    }

    /** The device read of read_blocks, which bypasses the cache. */
    method ReadAround(start: nat, count: nat) returns (r: Result<seq<Block>>)
      requires Valid() && bpb.clusterStart <= start && start + count <= |view|
      requires forall b | start <= b < start + count :: b !in slot
      modifies dev`failures
      ensures Valid() && old(dev.failures) <= dev.failures
      ensures r.Err? ==> r.error == IoError && old(dev.failures) < dev.failures
      ensures r.Ok? ==> r.value == view[start..start + count]
    {
      r := dev.Read(start, count);
    }

    /** The view after the blocks from `start` on were written past the cache. */
    ghost function Refreshed(start: nat, count: nat): (v: seq<Block>)
      requires |view| == |dev.blocks|
      reads this, dev
      ensures |v| == |view|
      ensures forall b | 0 <= b < |view| :: v[b] == if start <= b < start + count then dev.blocks[b] else view[b]
    {
      var before, after := view, dev.blocks;
      seq(|before|, b requires 0 <= b < |before| => if start <= b < start + count then after[b] else before[b])
    }

    /** The device write of write_blocks, which bypasses the cache. */
    method WriteAround(start: nat, buffer: seq<Block>) returns (r: Result<()>)
      requires Valid() && bpb.clusterStart <= start && start + |buffer| <= |view| && Sized(buffer, bpb.blockSize)
      requires forall b | start <= b < start + |buffer| :: b !in slot
      modifies this`view, dev
      ensures Valid() && |view| == |old(view)| && Sized(view, bpb.blockSize)
      ensures old(dev.failures) <= dev.failures
      ensures r.Err? ==> r.error == IoError && old(dev.failures) < dev.failures
      ensures forall b | 0 <= b < |view| && !(start <= b < start + |buffer|) :: view[b] == old(view)[b]
      ensures r.Ok? ==> view[start..start + |buffer|] == buffer
    {
      r := WriteUncached(start, buffer);
      hide CoherentBut;
    }

    method WriteUncached(start: nat, buffer: seq<Block>) returns (r: Result<()>)
      requires Valid() && bpb.clusterStart <= start && start + |buffer| <= |view| && Sized(buffer, bpb.blockSize)
      requires forall b | start <= b < start + |buffer| :: b !in slot
      modifies this`view, dev
      ensures Valid() && |view| == |old(view)| && Sized(view, bpb.blockSize)
      ensures old(dev.failures) <= dev.failures
      ensures r.Err? ==> r.error == IoError && old(dev.failures) < dev.failures
      ensures forall b | 0 <= b < |view| && !(start <= b < start + |buffer|) :: view[b] == old(view)[b]
      ensures r.Ok? ==> forall b | start <= b < start + |buffer| :: view[b] == buffer[b - start]
    {
      hide Bpb.Primary, Refreshed, Explained, Mirrored, Timed;
      assert bpb.fatStart + bpb.fatSize <= bpb.rootStart <= bpb.clusterStart;
      ghost var refused0, blocks0 := dev.refused, dev.blocks;
      r := dev.Write(start, buffer);
      ExplainedMore(bpb, stale, unequal, refused0, stale, dev.refused);
      view := Refreshed(start, |buffer|);
      MirroredKept(bpb, blocks0, dev.blocks, stale, 0, |view|);
    }

    /** ufat_sync: tries to write out every slot, and reports a failure if any slot failed. */
    method Sync() returns (r: Result<()>)
      requires Valid()
      modifies this`stale, dev, cacheDesc
      ensures Valid()
      ensures old(dev.failures) <= dev.failures
      ensures r.Err? ==> r.error == IoError && old(dev.failures) < dev.failures
      ensures dev.failures == old(dev.failures) ==> stale <= old(stale)
      // The device now is the flat block array.
      ensures r.Ok? ==> forall b | 0 <= b < |view| && !bpb.IsMirror(b) :: dev.blocks[b] == view[b]
      // Every mirror is the block of the first FAT that it copies, if it was so at the start and no write to either
      // was refused.
      ensures r.Ok? ==>
                forall m | 0 <= m < |view| && bpb.IsMirror(m)
                           && m !in unequal && m !in dev.refused && bpb.Primary(m) !in dev.refused ::
                  dev.blocks[m] == view[bpb.Primary(m)]
      ensures r.Ok? && unequal == {} && dev.failures == 0 ==>
                forall m | 0 <= m < |view| && bpb.IsMirror(m) :: dev.blocks[m] == view[bpb.Primary(m)]
      // So is every mirror whose last write was accepted.
      ensures r.Ok? ==>
                forall m | 0 <= m < |view| && bpb.IsMirror(m) && m !in stale :: dev.blocks[m] == view[bpb.Primary(m)]
    {
      r := Ok(());
      var i := 0;
      while i < cacheDesc.Length
        invariant i <= cacheDesc.Length
        invariant Valid()
        invariant old(dev.failures) <= dev.failures
        invariant r.Err? ==> r.error == IoError && old(dev.failures) < dev.failures
        invariant dev.failures == old(dev.failures) ==> stale <= old(stale)
        invariant r.Ok? ==> forall j | 0 <= j < i && cacheDesc[j].present :: !cacheDesc[j].dirty
      {
        var f := Flush(i);
        if f.Err? {
          r := Err(IoError);
        }
        i := i + 1;
      }
    }
  }
}
