/** File handles (mysh/fs/ufat_file.c): a position inside a cluster chain, and reads and writes that go through the
    cache for parts of blocks and past it for whole blocks. A file is specified by the bytes of its chain. */
module UfatFile {
  import opened Integers
  import opened Arith
  import opened UfatCache
  import opened UfatFat
  import opened UfatChain
  import opened UfatLayout

  /** Byte `p` of the clusters of a chain. */
  function ByteAt(g: Bpb, v: seq<Block>, chain: seq<Cluster>, p: nat): byte
    requires g.Fits(|v|) && Sized(v, g.blockSize) && DataClusters(g, chain) && ClusterIndex(g, p) < |chain|
  {
    FileBlockInVolume(g, chain, p, |v|);
    v[FileBlock(g, chain, p)][p % g.blockSize]
  }

  /** The clusters of the chain hold `n` bytes. */
  predicate Holds(g: Bpb, chain: seq<Cluster>, n: nat)
    requires 0 < g.blockSize && 0 < g.blocksPerCluster
  {
    n == 0 || ClusterIndex(g, n - 1) < |chain|
  }

  /** The first `n` bytes of a chain: the contents of a file of that size. */
  ghost function Bytes(g: Bpb, v: seq<Block>, chain: seq<Cluster>, n: nat): (s: seq<byte>)
    requires g.Fits(|v|) && Sized(v, g.blockSize) && DataClusters(g, chain) && Holds(g, chain, n)
    ensures |s| == n
  {
    HoldsAll(g, chain, n);
    seq(n, p requires 0 <= p < n => ByteAt(g, v, chain, p))
  }

  lemma HoldsAll(g: Bpb, chain: seq<Cluster>, n: nat)
    requires 0 < g.blockSize && 0 < g.blocksPerCluster && Holds(g, chain, n)
    ensures forall p: nat | p < n :: ClusterIndex(g, p) < |chain|
  {
    forall p: nat | p < n
      ensures ClusterIndex(g, p) < |chain|
    {
      IndexMono(g, p, n - 1);
    }
  }

  /** A file in the clusters from 2 on has the bytes of the device from the first data block on. */
  lemma FromFirstCluster(g: Bpb, v: seq<Block>, chain: seq<Cluster>, n: nat)
    requires g.Fits(|v|) && Sized(v, g.blockSize) && DataClusters(g, chain) && Holds(g, chain, n)
    requires forall i | 0 <= i < |chain| :: chain[i] == 2 + i
    ensures forall p: nat | p < n ::
              && 0 <= g.clusterStart + p / g.blockSize < |v|
              && Bytes(g, v, chain, n)[p] == v[g.clusterStart + p / g.blockSize][p % g.blockSize]
  {
    HoldsAll(g, chain, n);
    forall p: nat | p < n
      ensures 0 <= g.clusterStart + p / g.blockSize < |v|
      ensures ByteAt(g, v, chain, p) == v[g.clusterStart + p / g.blockSize][p % g.blockSize]
    {
      var q, i := p / g.blockSize, ClusterIndex(g, p);
      assert q == i * g.blocksPerCluster + q % g.blocksPerCluster;
      FileBlockInVolume(g, chain, p, |v|);
      ConsecutiveBlocks(g, chain, 2, i);
      ClustersInOrder(g, 2);
    }
    hide ByteAt;
  }

  /** The start cluster and the size that a directory entry records (ufat_parse_dirent). */
  function DirentStart(t: FatType, block: Block, pos: nat): nat
    requires pos * 32 + 32 <= |block|
  {
    R16(block, pos * 32 + 0x1a) + if t == Fat32 then 0x1_0000 * R16(block, pos * 32 + 0x14) else 0
  }

  function DirentSize(block: Block, pos: nat): nat
    requires pos * 32 + 32 <= |block|
  {
    R32(block, pos * 32 + 0x1c)
  }

  /** The directory entry lies in the fixed root directory or in a used cluster that is not one of the file's. */
  ghost predicate DirentApart(g: Bpb, fat: seq<Cluster>, chain: seq<Cluster>, db: nat, n: nat)
    requires 0 < g.blocksPerCluster
  {
    && g.rootStart <= db < n
    && (g.clusterStart <= db ==>
          var c := BlockCluster(g, db); 2 <= c < |fat| && fat[c] != FREE && c !in chain)
  }

  ghost predicate FileOk(g: Bpb, v: seq<Block>, chain: seq<Cluster>, start: Cluster, size: nat, db: nat, dp: nat)
    requires Volume(g, v)
  {
    && IsChain(FatOf(g, v), chain)
    && (if chain == [] then !IsPtr(start) else start == chain[0])
    && Holds(g, chain, size)
    && DirentApart(g, FatOf(g, v), chain, db, |v|) && dp * 32 + 32 <= g.blockSize
    && DirentStart(g.fatType, v[db], dp) == start && DirentSize(v[db], dp) == size
  }

  /** The clusters before and after the boundary between cluster `k - 1` and cluster `k` of a chain. */
  ghost predicate AtIndex(chain: seq<Cluster>, prev: Cluster, cur: Cluster, k: int) {
    && 0 <= k <= |chain|
    && prev == (if k == 0 then 0 else chain[k - 1])
    && (if k < |chain| then cur == chain[k] else !IsPtr(cur))
  }

  /** The handle's clusters are the ones around position `pos`. */
  ghost predicate PosOk(g: Bpb, chain: seq<Cluster>, prev: Cluster, cur: Cluster, pos: nat)
    requires 0 < g.blockSize && 0 < g.blocksPerCluster
  {
    AtIndex(chain, prev, cur, ClusterIndex(g, pos)) && Holds(g, chain, pos)
  }

  lemma IndexBound(g: Bpb, chain: seq<Cluster>, pos: nat)
    requires 0 < g.blockSize && 0 < g.blocksPerCluster && Holds(g, chain, pos)
    ensures ClusterIndex(g, pos) <= |chain|
  {
    if pos > 0 {
      IndexNext(g, pos);
    }
  }

  /** Following one link of the chain. */
  lemma NextIndex(fat: seq<Cluster>, chain: seq<Cluster>, prev: Cluster, cur: Cluster, k: int)
    requires IsChain(fat, chain) && AtIndex(chain, prev, cur, k) && k < |chain|
    ensures cur < |fat| && AtIndex(chain, cur, fat[cur], k + 1)
  {
    if k + 1 < |chain| {
      assert fat[chain[k]] == chain[k + 1];
    }
  }

  /** Whatever an operation did, and whether or not it succeeded, it touched nothing but the clusters of `chain`,
      clusters that were free, and the two fields of the directory entry. */
  ghost predicate Protected(g: Bpb, v: seq<Block>, v': seq<Block>, chain: seq<Cluster>, db: nat, dp: nat)
    requires Volume(g, v) && Volume(g, v') && db < |v| && dp * 32 + 32 <= g.blockSize
  {
    var was, now, own := FatOf(g, v), FatOf(g, v'), chain;
    && |v'| == |v|
    && (forall j | 0 <= j < |was| && j !in own && j !in Allocatable(g.fatType, was) :: now[j] == was[j])
    && (forall b | 0 <= b < |v| && !g.InFat(b) && b != db ::
          b < g.clusterStart || (BlockCluster(g, b) !in own && BlockCluster(g, b) !in Allocatable(g.fatType, was)) ==>
            v'[b] == v[b])
    && (forall x | 0 <= x < g.blockSize && v'[db][x] != v[db][x] ::
          dp * 32 + 0x14 <= x < dp * 32 + 0x16 || dp * 32 + 0x1a <= x < dp * 32 + 0x20)
  }

  /** The bytes of `chain` are still the same, possibly as the front of a longer chain. */
  ghost predicate SameBytes(g: Bpb, v: seq<Block>, chain: seq<Cluster>, v': seq<Block>, chain': seq<Cluster>)
    requires Volume(g, v) && Volume(g, v')
  {
    && DataClusters(g, chain) && DataClusters(g, chain') && chain <= chain'
    && forall p: nat | ClusterIndex(g, p) < |chain| :: ByteAt(g, v', chain', p) == ByteAt(g, v, chain, p)
  }

  lemma KeepsBytes(g: Bpb, fat: seq<Cluster>, v: seq<Block>, chain: seq<Cluster>, v': seq<Block>, chain': seq<Cluster>,
                   db: nat)
    requires Volume(g, v) && Volume(g, v') && |v'| == |v|
    requires DataClusters(g, chain') && chain <= chain' && DirentApart(g, fat, chain, db, |v|)
    requires forall b | g.clusterStart <= b < |v| && b != db :: v'[b] == v[b]
    ensures SameBytes(g, v, chain, v', chain')
  {
    assert forall i | 0 <= i < |chain| :: chain'[i] == chain[i];
    assert DataClusters(g, chain);
    hide BlockCluster;
    forall p: nat | ClusterIndex(g, p) < |chain|
      ensures ByteAt(g, v', chain', p) == ByteAt(g, v, chain, p)
    {
      FileBlockInVolume(g, chain, p, |v|);
      assert chain'[ClusterIndex(g, p)] == chain[ClusterIndex(g, p)];
    }
  }

  /** A file whose chain ended before the position has got one more cluster at the end. */
  lemma RoomAtEnd(g: Bpb, v0: seq<Block>, v1: seq<Block>, v2: seq<Block>, chain: seq<Cluster>, start: Cluster,
                  size: nat, db: nat, dp: nat, c: Cluster)
    requires Volume(g, v0) && Volume(g, v1) && Volume(g, v2) && FileOk(g, v0, chain, start, size, db, dp) && chain != []
    requires SameOutsideFat(g, v0, v1) && Linked(g.fatType, FatOf(g, v0), FatOf(g, v1), [c])
    requires SameOutsideFat(g, v1, v2) && FatOf(g, v2) == FatOf(g, v1)[chain[|chain| - 1] := c]
    ensures FileOk(g, v2, chain + [c], start, size, db, dp)
    ensures SameBytes(g, v0, chain, v2, chain + [c])
    ensures Protected(g, v0, v2, chain, db, dp)
  {
    hide FatOf, BlockCluster, DirentStart, DirentSize;
    var fat, now := FatOf(g, v0), FatOf(g, v1);
    ChainIsUsed(fat, chain);
    assert c in [c];
    assert c !in chain;
    assert IsChain(now, chain) by {
      assert forall i | 0 <= i < |chain| :: chain[i] in chain && now[chain[i]] == fat[chain[i]];
    }
    ChainBack(now, chain, c, FatOf(g, v2));
    KeepsBytes(g, fat, v0, chain, v2, chain + [c], db);
  }

  /** An allocation that gave up leaves the file alone, and also the table if the device did not refuse anything. */
  lemma OnlyFreeTouched(g: Bpb, v0: seq<Block>, v1: seq<Block>, chain: seq<Cluster>, start: Cluster,
                        size: nat, db: nat, dp: nat)
    requires Volume(g, v0) && Volume(g, v1) && FileOk(g, v0, chain, start, size, db, dp)
    requires SameOutsideFat(g, v0, v1)
    requires forall j | 0 <= j < g.numClusters && j !in Allocatable(g.fatType, FatOf(g, v0)) ::
              FatOf(g, v1)[j] == FatOf(g, v0)[j]
    ensures Protected(g, v0, v1, chain, db, dp)
    ensures FileOk(g, v1, chain, start, size, db, dp) && SameBytes(g, v0, chain, v1, chain)
  {
    hide FatOf, BlockCluster, DirentStart, DirentSize;
    var fat := FatOf(g, v0);
    ChainIsUsed(fat, chain);
    assert forall i | 0 <= i < |chain| :: chain[i] in chain;
    KeepsBytes(g, fat, v0, chain, v1, chain, db);
  }

  lemma AllocatedSurvives(g: Bpb, v: seq<Block>, c: Cluster)
    requires Volume(g, v) && c as int in Allocatable(g.fatType, FatOf(g, v))
    ensures Decode(g.fatType, Encode(g.fatType, c)) == c
  {
    StoredValueSurvives(g.fatType, c);
  }

  /** A position outside all clusters of a file is right after the last one. */
  lemma PosAtEnd(g: Bpb, fat: seq<Cluster>, chain: seq<Cluster>, prev: Cluster, cur: Cluster, pos: nat, c: Cluster)
    requires 0 < g.blockSize && 0 < g.blocksPerCluster && IsChain(fat, chain)
    requires PosOk(g, chain, prev, cur, pos) && !IsPtr(cur)
    ensures ClusterIndex(g, pos) == |chain| && PosOk(g, chain + [c], prev, c, pos)
    ensures if chain == [] then !IsPtr(prev) else IsPtr(prev) && prev == chain[|chain| - 1] && prev < |fat|
  {
  }

  /** Both ways of linking the new cluster. */
  lemma RoomMade(g: Bpb, v0: seq<Block>, v1: seq<Block>, v2: seq<Block>, chain: seq<Cluster>, start: Cluster,
                 start': Cluster,
                 size: nat, db: nat, dp: nat, c: Cluster)
    requires Volume(g, v0) && Volume(g, v1) && Volume(g, v2) && FileOk(g, v0, chain, start, size, db, dp)
    requires SameOutsideFat(g, v0, v1) && Linked(g.fatType, FatOf(g, v0), FatOf(g, v1), [c])
    requires chain != [] ==>
              start' == start && SameOutsideFat(g, v1, v2) && FatOf(g, v2) == FatOf(g, v1)[chain[|chain| - 1] := c]
    requires chain == [] ==> start' == c && v2 == v1[db := WithStart(v1[db], dp, c)]
    ensures FileOk(g, v2, chain + [c], start', size, db, dp)
    ensures SameBytes(g, v0, chain, v2, chain + [c])
    ensures Protected(g, v0, v2, chain, db, dp)
  {
    hide *;
    if chain == [] {
      assert chain + [c] == [c];
      RoomAtStart(g, v0, v1, v2, start, size, db, dp, c);
    } else {
      RoomAtEnd(g, v0, v1, v2, chain, start, size, db, dp, c);
    }
  }

  /** Linking the new cluster failed, and it was released again. */
  lemma LinkLost(g: Bpb, v0: seq<Block>, v1: seq<Block>, v2: seq<Block>, v3: seq<Block>, chain: seq<Cluster>,
                 start: Cluster, size: nat, db: nat, dp: nat, c: Cluster)
    requires Volume(g, v0) && Volume(g, v1) && Volume(g, v2) && Volume(g, v3)
    requires FileOk(g, v0, chain, start, size, db, dp) && Linked(g.fatType, FatOf(g, v0), FatOf(g, v1), [c])
    requires SameOutsideFat(g, v0, v1) && SameOutsideFat(g, v1, v2) && SameOutsideFat(g, v2, v3)
    requires forall j | 0 <= j < g.numClusters && (chain == [] || j != chain[|chain| - 1]) ::
              FatOf(g, v2)[j] == FatOf(g, v1)[j]
    requires forall j | 0 <= j < g.numClusters && j !in Visited(FatOf(g, v2), c) :: FatOf(g, v3)[j] == FatOf(g, v2)[j]
    ensures Protected(g, v0, v3, chain, db, dp)
  {
    hide FatOf, BlockCluster, DirentStart, DirentSize;
    ChainIsUsed(FatOf(g, v0), chain);
    assert forall i | 0 <= i < |chain| :: chain[i] in chain;
    assert c in [c];
    var now := FatOf(g, v2);
    assert now[c] == EOC;
    ReleaseVisitsChain(now, [c]);
  }

  lemma Unchanged(g: Bpb, v: seq<Block>, chain: seq<Cluster>, start: Cluster, size: nat, db: nat, dp: nat)
    requires Volume(g, v) && FileOk(g, v, chain, start, size, db, dp)
    ensures Protected(g, v, v, chain, db, dp) && SameBytes(g, v, chain, v, chain)
  {
  }

  /** An empty file has got its first cluster. */
  lemma RoomAtStart(g: Bpb, v0: seq<Block>, v1: seq<Block>, v2: seq<Block>, start: Cluster,
                    size: nat, db: nat, dp: nat, c: Cluster)
    requires Volume(g, v0) && Volume(g, v1) && Volume(g, v2) && FileOk(g, v0, [], start, size, db, dp)
    requires SameOutsideFat(g, v0, v1) && Linked(g.fatType, FatOf(g, v0), FatOf(g, v1), [c])
    requires v2 == v1[db := WithStart(v1[db], dp, c)]
    ensures FileOk(g, v2, [c], c, size, db, dp)
    ensures SameBytes(g, v0, [], v2, [c])
    ensures Protected(g, v0, v2, [], db, dp)
  {
    SameFat(g, v1, v2);
    hide FatOf, BlockCluster, DirentStart, DirentSize, WithStart;
    var fat := FatOf(g, v0);
    assert c in [c];
    assert c < g.numClusters;
    KeepsBytes(g, fat, v0, [], v2, [c], db);
  }

  /** From view `v` and `chain` to `v'` and `chain'`, `bytes` were written at `pos`; every other byte that the chain
      had before is the same. */
  ghost predicate Wrote(g: Bpb, v: seq<Block>, chain: seq<Cluster>, v': seq<Block>, chain': seq<Cluster>,
                        pos: nat, bytes: seq<byte>)
    requires Volume(g, v) && Volume(g, v')
  {
    && DataClusters(g, chain) && DataClusters(g, chain') && chain <= chain'
    && (forall p: nat | pos <= p < pos + |bytes| ::
          ClusterIndex(g, p) < |chain'| && ByteAt(g, v', chain', p) == bytes[p - pos])
    && (forall p: nat | ClusterIndex(g, p) < |chain| && !(pos <= p < pos + |bytes|) ::
          ByteAt(g, v', chain', p) == ByteAt(g, v, chain, p))
  }

  /** Every cluster of the chain was in it before or was free. */
  ghost predicate OwnOrFree(g: Bpb, v: seq<Block>, chain: seq<Cluster>, chain': seq<Cluster>)
    requires Volume(g, v)
  {
    forall c | c in chain' :: c in chain || c as int in Allocatable(g.fatType, FatOf(g, v))
  }

  /** The chain is longer than before only if the byte before `pos` lies in its last cluster. */
  ghost predicate GrownAsNeeded(g: Bpb, chain: seq<Cluster>, chain': seq<Cluster>, pos: nat)
    requires 0 < g.blockSize && 0 < g.blocksPerCluster
  {
    |chain'| > |chain| ==> pos > 0 && ClusterIndex(g, pos - 1) == |chain'| - 1
  }

  lemma WroteNothing(g: Bpb, v: seq<Block>, chain: seq<Cluster>, v': seq<Block>, chain': seq<Cluster>, pos: nat)
    requires Volume(g, v) && Volume(g, v') && SameBytes(g, v, chain, v', chain')
    ensures Wrote(g, v, chain, v', chain', pos, [])
  {
  }

  /** Consecutive writes are one write. */
  lemma WroteBoth(g: Bpb, v: seq<Block>, chain: seq<Cluster>, v1: seq<Block>, chain1: seq<Cluster>,
                  v2: seq<Block>, chain2: seq<Cluster>, pos: nat, a: seq<byte>, mid: nat, b: seq<byte>)
    requires Volume(g, v) && Volume(g, v1) && Volume(g, v2) && mid == pos + |a|
    requires Wrote(g, v, chain, v1, chain1, pos, a) && Wrote(g, v1, chain1, v2, chain2, mid, b)
    ensures Wrote(g, v, chain, v2, chain2, pos, a + b)
  {
    hide ByteAt, ClusterIndex;
  }

  /** What a sequence of writes has achieved since `v0`, where the file had the clusters `chain0`. */
  ghost predicate Progress(g: Bpb, v0: seq<Block>, chain0: seq<Cluster>, v: seq<Block>, chain: seq<Cluster>,
                           pos0: nat, bytes: seq<byte>, pos: nat, db: nat, dp: nat)
    requires Volume(g, v0) && Volume(g, v) && db < |v0| && dp * 32 + 32 <= g.blockSize
  {
    && pos == pos0 + |bytes|
    && Wrote(g, v0, chain0, v, chain, pos0, bytes)
    && GrownAsNeeded(g, chain0, chain, pos) && Holds(g, chain, pos)
    && OwnOrFree(g, v0, chain0, chain)
    && Protected(g, v0, v, chain0, db, dp)
  }

  lemma ProtectedBoth(g: Bpb, v0: seq<Block>, chain0: seq<Cluster>, v1: seq<Block>, chain1: seq<Cluster>,
                      v2: seq<Block>, db: nat, dp: nat)
    requires Volume(g, v0) && Volume(g, v1) && Volume(g, v2) && db < |v0| && dp * 32 + 32 <= g.blockSize && |v1| == |v0|
    requires OwnOrFree(g, v0, chain0, chain1) && chain0 <= chain1
    requires Protected(g, v0, v1, chain0, db, dp) && Protected(g, v1, v2, chain1, db, dp)
    ensures Protected(g, v0, v2, chain0, db, dp)
  {
    hide FatOf, BlockCluster;
    assert forall c | c in chain0 :: c in chain1;
    var t, was, now := g.fatType, FatOf(g, v0), FatOf(g, v1);
    assert forall j: int | j in Allocatable(t, now) && j !in chain0 :: j in Allocatable(t, was);
  }

  lemma OwnOrFreeBoth(g: Bpb, v0: seq<Block>, chain0: seq<Cluster>, v1: seq<Block>, chain1: seq<Cluster>,
                      chain2: seq<Cluster>, db: nat, dp: nat)
    requires Volume(g, v0) && Volume(g, v1) && db < |v0| && dp * 32 + 32 <= g.blockSize
    requires OwnOrFree(g, v0, chain0, chain1) && OwnOrFree(g, v1, chain1, chain2)
    requires Protected(g, v0, v1, chain0, db, dp)
    ensures OwnOrFree(g, v0, chain0, chain2)
  {
    hide FatOf, BlockCluster;
    var t, was, now := g.fatType, FatOf(g, v0), FatOf(g, v1);
    assert forall j: int | j in Allocatable(t, now) && j !in chain0 :: j in Allocatable(t, was);
  }

  lemma ProgressBoth(g: Bpb, v0: seq<Block>, chain0: seq<Cluster>, v1: seq<Block>, chain1: seq<Cluster>,
                     v2: seq<Block>, chain2: seq<Cluster>, pos0: nat, a: seq<byte>, pos1: nat, b: seq<byte>, pos2: nat,
                     db: nat, dp: nat)
    requires Volume(g, v0) && Volume(g, v1) && Volume(g, v2) && db < |v0| && dp * 32 + 32 <= g.blockSize && |v1| == |v0|
    requires Progress(g, v0, chain0, v1, chain1, pos0, a, pos1, db, dp)
    requires Progress(g, v1, chain1, v2, chain2, pos1, b, pos2, db, dp)
    ensures Progress(g, v0, chain0, v2, chain2, pos0, a + b, pos2, db, dp)
  {
    WroteBoth(g, v0, chain0, v1, chain1, v2, chain2, pos0, a, pos1, b);
    assert chain0 <= chain1 <= chain2 by { hide ByteAt; }
    ProtectedBoth(g, v0, chain0, v1, chain1, v2, db, dp);
    OwnOrFreeBoth(g, v0, chain0, v1, chain1, chain2, db, dp);
    if 0 < pos1 {
      IndexMono(g, pos1 - 1, pos2 - 1);
    }
    hide Wrote, Protected, OwnOrFree, ClusterIndex;
  }

  lemma ProgressOn(g: Bpb, v0: seq<Block>, chain0: seq<Cluster>, v1: seq<Block>, chain1: seq<Cluster>,
                   v2: seq<Block>, chain2: seq<Cluster>, pos0: nat, data: seq<byte>, n: nat, pos1: nat, rest: seq<byte>,
                       m: nat,
                   n': nat, pos2: nat, db: nat, dp: nat)
    requires Volume(g, v0) && Volume(g, v1) && Volume(g, v2) && db < |v0| && dp * 32 + 32 <= g.blockSize && |v1| == |v0|
    requires n <= |data| && rest == data[n..] && m <= |rest| && n' == n + m
    requires Progress(g, v0, chain0, v1, chain1, pos0, data[..n], pos1, db, dp)
    requires Progress(g, v1, chain1, v2, chain2, pos1, rest[..m], pos2, db, dp)
    ensures Progress(g, v0, chain0, v2, chain2, pos0, data[..n'], pos2, db, dp)
  {
    assert data[..n] + rest[..m] == data[..n'];
    ProgressBoth(g, v0, chain0, v1, chain1, v2, chain2, pos0, data[..n], pos1, rest[..m], pos2, db, dp);
  }

  /** A step that changes data blocks of the file and nothing else. */
  lemma DataStep(g: Bpb, v0: seq<Block>, chain0: seq<Cluster>, v1: seq<Block>, chain: seq<Cluster>, v2: seq<Block>,
                 pos: nat, bytes: seq<byte>, start: Cluster, size: nat, db: nat, dp: nat)
    requires Volume(g, v0) && Volume(g, v1) && Volume(g, v2) && |v2| == |v1|
    requires SameBytes(g, v0, chain0, v1, chain) && FileOk(g, v1, chain, start, size, db, dp)
    requires db < |v0| && Protected(g, v0, v1, chain0, db, dp)
    requires OwnOrFree(g, v0, chain0, chain)
    requires forall b | 0 <= b < |v1| && v2[b] != v1[b] :: g.clusterStart <= b && BlockCluster(g, b) in chain
    requires forall p: nat | pos <= p < pos + |bytes| :: ClusterIndex(g, p) < |chain|
    requires forall p: nat | ClusterIndex(g, p) < |chain| ::
               ByteAt(g, v2, chain, p) == if pos <= p < pos + |bytes| then bytes[p - pos] else ByteAt(g, v1, chain, p)
    ensures Wrote(g, v0, chain0, v2, chain, pos, bytes)
    ensures FileOk(g, v2, chain, start, size, db, dp)
    ensures Protected(g, v0, v2, chain0, db, dp)
  {
    SameFat(g, v1, v2);
    hide FatOf, BlockCluster, DirentStart, DirentSize, ByteAt, ClusterIndex;
  }

  /** Whatever happens to data blocks of the file, the file is the same file and nothing else is touched. */
  lemma DataTouched(g: Bpb, v0: seq<Block>, chain0: seq<Cluster>, v1: seq<Block>, chain: seq<Cluster>, v2: seq<Block>,
                    start: Cluster, size: nat, db: nat, dp: nat)
    requires Volume(g, v0) && Volume(g, v1) && Volume(g, v2) && |v2| == |v1|
    requires FileOk(g, v1, chain, start, size, db, dp) && OwnOrFree(g, v0, chain0, chain)
    requires db < |v0| && Protected(g, v0, v1, chain0, db, dp)
    requires forall b | 0 <= b < |v1| && v2[b] != v1[b] :: g.clusterStart <= b && BlockCluster(g, b) in chain
    ensures FileOk(g, v2, chain, start, size, db, dp)
    ensures Protected(g, v0, v2, chain0, db, dp)
  {
    SameFat(g, v1, v2);
    hide FatOf, BlockCluster, DirentStart, DirentSize;
  }

  /** A run of bytes inside one block of a file. */
  lemma Fragment(g: Bpb, chain: seq<Cluster>, pos: nat, n: nat, size: nat)
    requires g.Fits(size) && DataClusters(g, chain) && ClusterIndex(g, pos) < |chain|
    requires 0 < n && pos % g.blockSize + n <= g.blockSize
    ensures g.clusterStart <= FileBlock(g, chain, pos) < size && BlockCluster(g, FileBlock(g, chain, pos)) in chain
    ensures forall p: nat | pos <= p < pos + n ::
              ClusterIndex(g, p) == ClusterIndex(g, pos) && p / g.blockSize == pos / g.blockSize
              && p % g.blockSize == pos % g.blockSize + (p - pos)
              && FileBlock(g, chain, p) == FileBlock(g, chain, pos)
    ensures ClusterIndex(g, pos + n - 1) == ClusterIndex(g, pos) && Holds(g, chain, pos + n)
  {
    FileBlockInVolume(g, chain, pos, size);
    forall p: nat | pos <= p < pos + n
      ensures ClusterIndex(g, p) == ClusterIndex(g, pos) && p / g.blockSize == pos / g.blockSize
              && p % g.blockSize == pos % g.blockSize + (p - pos)
    {
      WithinBlock(g, pos, p - pos);
    }
    assert ClusterIndex(g, pos + n - 1) == ClusterIndex(g, pos);
  }

  /** The bytes of a fragment, read from its block. */
  lemma FragmentRead(g: Bpb, v: seq<Block>, chain: seq<Cluster>, pos: nat, n: nat)
    requires Volume(g, v) && DataClusters(g, chain) && 0 < n && 0 < g.blockSize && 0 < g.blocksPerCluster
    requires ClusterIndex(g, pos) < |chain| && pos % g.blockSize + n <= g.blockSize
    ensures var b, o := FileBlock(g, chain, pos), pos % g.blockSize;
            && 0 <= b < |v| && !g.IsMirror(b) && |v[b]| == g.blockSize && 0 <= o && o + n <= |v[b]|
            && ReadOff(g, v, chain, pos, v[b][o..o + n])
    ensures Holds(g, chain, pos + n)
  {
    Fragment(g, chain, pos, n, |v|);
    hide FileBlock, ClusterIndex, Holds;
  }

  /** A byte of the chain lies in the fragment exactly when its block and its offset do. */
  lemma SamePlace(g: Bpb, chain: seq<Cluster>, pos: nat, n: nat, p: nat, size: nat)
    requires g.Fits(size) && DataClusters(g, chain) && ClusterIndex(g, pos) < |chain| && ClusterIndex(g, p) < |chain|
    requires 0 < n && pos % g.blockSize + n <= g.blockSize
    ensures pos <= p < pos + n ==>
              FileBlock(g, chain, p) == FileBlock(g, chain, pos) && p % g.blockSize == pos % g.blockSize + (p - pos)
    ensures FileBlock(g, chain, p) == FileBlock(g, chain, pos) ==>
              p % g.blockSize - pos % g.blockSize == p - pos
  {
    if pos <= p < pos + n {
      WithinBlock(g, pos, p - pos);
    } else if FileBlock(g, chain, p) == FileBlock(g, chain, pos) {
      FileBlockInjective(g, chain, p, pos, size);
      hide ClusterIndex, FileBlock;
      assert p - p % g.blockSize == pos - pos % g.blockSize;
    }
  }

  lemma FragmentPatchAt(g: Bpb, v: seq<Block>, chain: seq<Cluster>, pos: nat, bytes: seq<byte>, v': seq<Block>, p: nat)
    requires Volume(g, v) && Volume(g, v') && DataClusters(g, chain)
    requires ClusterIndex(g, pos) < |chain| && ClusterIndex(g, p) < |chain|
    requires bytes != [] && pos % g.blockSize + |bytes| <= g.blockSize
    requires var b := FileBlock(g, chain, pos);
             0 <= b < |v| && v' == v[b := Patch(v[b], pos % g.blockSize, bytes)]
    ensures ByteAt(g, v', chain, p) == if pos <= p < pos + |bytes| then bytes[p - pos] else ByteAt(g, v, chain, p)
  {
    FileBlockInVolume(g, chain, p, |v|);
    SamePlace(g, chain, pos, |bytes|, p, |v|);
    hide ClusterIndex, FileBlock, Volume, DataClusters, Bpb.Fits;
  }

  lemma FragmentPatch(g: Bpb, v: seq<Block>, chain: seq<Cluster>, pos: nat, bytes: seq<byte>, v': seq<Block>)
    requires Volume(g, v) && DataClusters(g, chain) && ClusterIndex(g, pos) < |chain|
    requires bytes != [] && pos % g.blockSize + |bytes| <= g.blockSize
    requires var b := FileBlock(g, chain, pos);
             0 <= b < |v| && v' == v[b := Patch(v[b], pos % g.blockSize, bytes)]
    ensures Volume(g, v')
    ensures forall b | 0 <= b < |v| && v'[b] != v[b] :: g.clusterStart <= b && BlockCluster(g, b) in chain
    ensures forall p: nat | pos <= p < pos + |bytes| :: ClusterIndex(g, p) < |chain|
    ensures forall p: nat | ClusterIndex(g, p) < |chain| ::
              ByteAt(g, v', chain, p) == if pos <= p < pos + |bytes| then bytes[p - pos] else ByteAt(g, v, chain, p)
  {
    Fragment(g, chain, pos, |bytes|, |v|);
    hide BlockCluster, FileBlock, ClusterIndex, ByteAt;
    forall p: nat | ClusterIndex(g, p) < |chain|
      ensures ByteAt(g, v', chain, p) == if pos <= p < pos + |bytes| then bytes[p - pos] else ByteAt(g, v, chain, p)
    {
      FragmentPatchAt(g, v, chain, pos, bytes, v', p);
    }
  }

  /** A run of whole blocks inside one cluster of a file. */
  lemma BlockRun(g: Bpb, chain: seq<Cluster>, pos: nat, m: nat, size: nat)
    requires g.Fits(size) && DataClusters(g, chain) && ClusterIndex(g, pos) < |chain| && pos % g.blockSize == 0
    requires 0 < m && pos / g.blockSize % g.blocksPerCluster + m <= g.blocksPerCluster
    ensures g.clusterStart <= FileBlock(g, chain, pos) && FileBlock(g, chain, pos) + m <= size
    ensures forall b | FileBlock(g, chain, pos) <= b < FileBlock(g, chain, pos) + m :: BlockCluster(g, b) in chain
    ensures forall p: nat | pos <= p < pos + m * g.blockSize :: InRun(g, chain, pos, m, p)
    ensures ClusterIndex(g, pos + m * g.blockSize - 1) == ClusterIndex(g, pos)
    ensures Holds(g, chain, pos + m * g.blockSize)
  {
    var bs := g.blockSize;
    var c, j := chain[ClusterIndex(g, pos)], pos / bs % g.blocksPerCluster;
    BlockOfCluster(g, c, j, size);
    forall b | FileBlock(g, chain, pos) <= b < FileBlock(g, chain, pos) + m
      ensures BlockCluster(g, b) in chain
    {
      BlockOfCluster(g, c, j + (b - FileBlock(g, chain, pos)), size);
    }
    forall p: nat | pos <= p < pos + m * bs
      ensures InRun(g, chain, pos, m, p)
    {
      InRunAt(g, chain, pos, m, p);
    }
    MulMono(1, m, bs);
    assert InRun(g, chain, pos, m, pos + m * bs - 1);
  }

  /** Byte `p` lies in the `m` blocks from byte `pos` on, at the block and offset that its distance from `pos` says. */
  ghost predicate InRun(g: Bpb, chain: seq<Cluster>, pos: nat, m: nat, p: nat)
    requires 0 < g.blockSize && 0 < g.blocksPerCluster && ClusterIndex(g, pos) < |chain| && pos <= p
  {
    && ClusterIndex(g, p) == ClusterIndex(g, pos)
    && 0 <= (p - pos) / g.blockSize < m
    && FileBlock(g, chain, p) == FileBlock(g, chain, pos) + (p - pos) / g.blockSize
    && p % g.blockSize == (p - pos) % g.blockSize
  }

  lemma InRunAt(g: Bpb, chain: seq<Cluster>, pos: nat, m: nat, p: nat)
    requires 0 < g.blockSize && 0 < g.blocksPerCluster && ClusterIndex(g, pos) < |chain| && pos % g.blockSize == 0
    requires pos / g.blockSize % g.blocksPerCluster + m <= g.blocksPerCluster && pos <= p < pos + m * g.blockSize
    ensures InRun(g, chain, pos, m, p)
  {
    var bs := g.blockSize;
    DivLess(p - pos, m, bs);
    WithinCluster(g, pos, (p - pos) / bs, (p - pos) % bs);
    hide ClusterIndex;
  }

  /** Conversely, a byte whose block is one of the blocks of the run is a byte of the run. */
  lemma InRunBlock(g: Bpb, chain: seq<Cluster>, pos: nat, m: nat, p: nat, size: nat)
    requires g.Fits(size) && DataClusters(g, chain) && ClusterIndex(g, pos) < |chain| && ClusterIndex(g, p) < |chain|
    requires pos % g.blockSize == 0 && pos / g.blockSize % g.blocksPerCluster + m <= g.blocksPerCluster
    requires FileBlock(g, chain, pos) <= FileBlock(g, chain, p) < FileBlock(g, chain, pos) + m
    ensures pos <= p < pos + m * g.blockSize
  {
    hide *;
    Positive(g, size);
    var bs := g.blockSize;
    var d := FileBlock(g, chain, p) - FileBlock(g, chain, pos);
    MulMono(d + 1, m, bs);
    assert (d + 1) * bs == d * bs + bs;
    WholeBlocks(pos, d, bs);
    InRunAt(g, chain, pos, m, pos + d * bs);
    InRunIs(g, chain, pos, m, pos + d * bs);
    FileBlockInjective(g, chain, p, pos + d * bs, size);
    SameQuotient(p, pos + d * bs, bs);
  }

  lemma Positive(g: Bpb, n: nat)
    requires g.Fits(n)
    ensures 512 <= g.blockSize && 0 < g.blocksPerCluster
  {
  }

  lemma WholeBlocks(pos: nat, d: nat, bs: nat)
    requires 0 < bs && pos % bs == 0
    ensures 0 <= d * bs && d * bs / bs == d && (pos + d * bs) % bs == 0
  {
    assert pos == pos / bs * bs;
    assert (pos / bs + d) * bs == pos / bs * bs + d * bs;
    DivModUnique(d * bs, bs, d, 0);
    DivModUnique(pos + d * bs, bs, pos / bs + d, 0);
  }

  lemma InRunIs(g: Bpb, chain: seq<Cluster>, pos: nat, m: nat, p: nat)
    requires 0 < g.blockSize && 0 < g.blocksPerCluster && ClusterIndex(g, pos) < |chain| && pos <= p
    requires InRun(g, chain, pos, m, p)
    ensures ClusterIndex(g, p) == ClusterIndex(g, pos)
    ensures FileBlock(g, chain, p) == FileBlock(g, chain, pos) + (p - pos) / g.blockSize
  {
  }

  /** The bytes of consecutive blocks. */
  function Joined(blocks: seq<Block>, bs: nat): (s: seq<byte>)
    requires Sized(blocks, bs) && 0 < bs
    ensures |s| == |blocks| * bs
  {
    JoinedIndex(|blocks|, bs);
    seq(|blocks| * bs, i requires 0 <= i < |blocks| * bs => blocks[i / bs][i % bs])
  }

  lemma JoinedIndex(n: nat, bs: nat)
    requires 0 < bs
    ensures forall i | 0 <= i < n * bs :: 0 <= i / bs < n
  {
    forall i | 0 <= i < n * bs
      ensures 0 <= i / bs < n
    {
      DivLess(i, n, bs);
    }
  }

  /** The first `m` whole blocks of some bytes. */
  function Cut(data: seq<byte>, bs: nat, m: nat): (blocks: seq<Block>)
    requires m * bs <= |data|
    ensures |blocks| == m && Sized(blocks, bs)
  {
    CutIndex(bs, m);
    seq(m, k requires 0 <= k < m => data[k * bs..(k + 1) * bs])
  }

  lemma CutAt(data: seq<byte>, bs: nat, m: nat, x: nat)
    requires 0 < bs && m * bs <= |data| && x < m * bs
    ensures 0 <= x / bs < m && Cut(data, bs, m)[x / bs][x % bs] == data[x]
  {
    DivLess(x, m, bs);
    CutIndex(bs, m);
  }

  lemma CutIndex(bs: nat, m: nat)
    ensures forall k | 0 <= k < m :: 0 <= k * bs && (k + 1) * bs == k * bs + bs <= m * bs
  {
    forall k | 0 <= k < m
      ensures 0 <= k * bs && (k + 1) * bs == k * bs + bs <= m * bs
    {
      MulMono(k + 1, m, bs);
    }
  }

  lemma RunRead(g: Bpb, v: seq<Block>, chain: seq<Cluster>, pos: nat, m: nat)
    requires Volume(g, v) && DataClusters(g, chain) && ClusterIndex(g, pos) < |chain| && pos % g.blockSize == 0
    requires 0 < m && pos / g.blockSize % g.blocksPerCluster + m <= g.blocksPerCluster
    requires 0 <= FileBlock(g, chain, pos) && FileBlock(g, chain, pos) + m <= |v|
    ensures var blocks := v[FileBlock(g, chain, pos)..FileBlock(g, chain, pos) + m];
            Sized(blocks, g.blockSize)
            && forall p: nat | pos <= p < pos + m * g.blockSize ::
                 ClusterIndex(g, p) < |chain| && Joined(blocks, g.blockSize)[p - pos] == ByteAt(g, v, chain, p)
  {
    var blocks := v[FileBlock(g, chain, pos)..FileBlock(g, chain, pos) + m];
    forall p: nat | pos <= p < pos + m * g.blockSize
      ensures ClusterIndex(g, p) < |chain| && Joined(blocks, g.blockSize)[p - pos] == ByteAt(g, v, chain, p)
    {
      InRunAt(g, chain, pos, m, p);
      hide ClusterIndex, FileBlock;
      assert blocks[(p - pos) / g.blockSize] == v[FileBlock(g, chain, p)];
    }
  }

  /** The `m` blocks from byte `pos` on are whole and in one cluster. */
  predicate RunInCluster(g: Bpb, pos: nat, m: nat)
    requires 0 < g.blockSize && 0 < g.blocksPerCluster
  {
    pos % g.blockSize == 0 && 0 < m && pos / g.blockSize % g.blocksPerCluster + m <= g.blocksPerCluster
  }

  lemma RunParts(g: Bpb, pos: nat, m: nat)
    requires 0 < g.blockSize && 0 < g.blocksPerCluster && RunInCluster(g, pos, m)
    ensures pos % g.blockSize == 0 && 0 < m && pos / g.blockSize % g.blocksPerCluster + m <= g.blocksPerCluster
  {
  }

  lemma InCluster(g: Bpb, pos: nat, m: nat)
    requires 0 < g.blockSize && 0 < g.blocksPerCluster
    requires pos % g.blockSize == 0 && 0 < m && pos / g.blockSize % g.blocksPerCluster + m <= g.blocksPerCluster
    ensures RunInCluster(g, pos, m)
  {
  }

  /** The bytes of a run, read from its blocks. */
  lemma RunOff(g: Bpb, v: seq<Block>, chain: seq<Cluster>, pos: nat, m: nat)
    requires Volume(g, v) && DataClusters(g, chain) && 0 < g.blockSize && 0 < g.blocksPerCluster
    requires ClusterIndex(g, pos) < |chain| && pos % g.blockSize == 0
    requires 0 < m && pos / g.blockSize % g.blocksPerCluster + m <= g.blocksPerCluster
    ensures var b := FileBlock(g, chain, pos);
            && g.clusterStart <= b && 0 <= b && b + m <= |v| && Sized(v[b..b + m], g.blockSize)
            && |Joined(v[b..b + m], g.blockSize)| == m * g.blockSize
            && ReadOff(g, v, chain, pos, Joined(v[b..b + m], g.blockSize))
    ensures Holds(g, chain, pos + m * g.blockSize)
  {
    BlockRun(g, chain, pos, m, |v|);
    RunRead(g, v, chain, pos, m);
    hide FileBlock, ClusterIndex, Joined, Holds, ByteAt;
  }

  lemma RunWrittenAt(g: Bpb, v: seq<Block>, chain: seq<Cluster>, pos: nat, data: seq<byte>, m: nat, v': seq<Block>,
                     p: nat)
    requires Volume(g, v) && Volume(g, v') && |v'| == |v| && DataClusters(g, chain)
    requires ClusterIndex(g, pos) < |chain| && pos % g.blockSize == 0 && ClusterIndex(g, p) < |chain|
    requires pos / g.blockSize % g.blocksPerCluster + m <= g.blocksPerCluster && m * g.blockSize <= |data|
    requires var f := FileBlock(g, chain, pos);
             && 0 <= f && f + m <= |v| && v'[f..f + m] == Cut(data, g.blockSize, m)
             && forall b | 0 <= b < |v| && !(f <= b < f + m) :: v'[b] == v[b]
    ensures ByteAt(g, v', chain, p) == if pos <= p < pos + m * g.blockSize then data[p - pos]
              else ByteAt(g, v, chain, p)
  {
    var f, bs := FileBlock(g, chain, pos), g.blockSize;
    FileBlockInVolume(g, chain, p, |v|);
    hide ClusterIndex, FileBlock;
    if pos <= p < pos + m * bs {
      InRunAt(g, chain, pos, m, p);
      var d := (p - pos) / bs;
      assert v'[f + d] == v'[f..f + m][d] == Cut(data, bs, m)[d];
      CutAt(data, bs, m, p - pos);
    } else if f <= FileBlock(g, chain, p) < f + m {
      InRunBlock(g, chain, pos, m, p, |v|);
      assert false;
    }
  }

  lemma RunWritten(g: Bpb, v: seq<Block>, chain: seq<Cluster>, pos: nat, data: seq<byte>, m: nat, v': seq<Block>)
    requires Volume(g, v) && Sized(v', g.blockSize) && |v'| == |v| && DataClusters(g, chain)
    requires ClusterIndex(g, pos) < |chain| && pos % g.blockSize == 0 && 0 < m
    requires pos / g.blockSize % g.blocksPerCluster + m <= g.blocksPerCluster && m * g.blockSize <= |data|
    requires var f := FileBlock(g, chain, pos);
             && 0 <= f && f + m <= |v| && v'[f..f + m] == Cut(data, g.blockSize, m)
             && forall b | 0 <= b < |v| && !(f <= b < f + m) :: v'[b] == v[b]
    ensures forall b | 0 <= b < |v| && v'[b] != v[b] :: g.clusterStart <= b && BlockCluster(g, b) in chain
    ensures forall p: nat | pos <= p < pos + m * g.blockSize :: ClusterIndex(g, p) < |chain|
    ensures forall p: nat | ClusterIndex(g, p) < |chain| ::
              ByteAt(g, v', chain, p) == if pos <= p < pos + m * g.blockSize then data[p - pos]
                  else ByteAt(g, v, chain, p)
  {
    BlockRun(g, chain, pos, m, |v|);
    hide BlockCluster, FileBlock, ClusterIndex, ByteAt;
    forall p: nat | ClusterIndex(g, p) < |chain|
      ensures ByteAt(g, v', chain, p) == if pos <= p < pos + m * g.blockSize then data[p - pos]
                else ByteAt(g, v, chain, p)
    {
      RunWrittenAt(g, v, chain, pos, data, m, v', p);
    }
    forall p: nat | pos <= p < pos + m * g.blockSize
      ensures ClusterIndex(g, p) < |chain|
    {
      assert InRun(g, chain, pos, m, p);
    }
  }

  /** `buf` holds the bytes of the chain from `pos` on. */
  ghost predicate ReadOff(g: Bpb, v: seq<Block>, chain: seq<Cluster>, pos: nat, buf: seq<byte>)
    requires Volume(g, v) && DataClusters(g, chain)
  {
    forall p: nat | pos <= p < pos + |buf| :: ClusterIndex(g, p) < |chain| && buf[p - pos] == ByteAt(g, v, chain, p)
  }

  lemma NothingRead(g: Bpb, v: seq<Block>, chain: seq<Cluster>, pos: nat)
    requires Volume(g, v) && DataClusters(g, chain)
    ensures ReadOff(g, v, chain, pos, [])
  {
  }

  predicate Aligned(g: Bpb, pos: nat)
    requires 0 < g.blockSize
  {
    pos % g.blockSize == 0
  }

  lemma AlignedIs(g: Bpb, pos: nat)
    requires 0 < g.blockSize && Aligned(g, pos)
    ensures pos % g.blockSize == 0
  {
  }

  lemma RunKeepsAligned(g: Bpb, pos: nat, m: nat)
    requires 0 < g.blockSize && Aligned(g, pos)
    ensures Aligned(g, pos + m * g.blockSize)
  {
    var bs := g.blockSize;
    assert pos == pos / bs * bs;
    assert (pos / bs + m) * bs == pos / bs * bs + m * bs;
    DivModUnique(pos + m * bs, bs, pos / bs + m, 0);
  }

  lemma ReadMore(g: Bpb, v: seq<Block>, chain: seq<Cluster>, pos: nat, a: seq<byte>, mid: nat, b: seq<byte>)
    requires Volume(g, v) && DataClusters(g, chain) && mid == pos + |a|
    requires ReadOff(g, v, chain, pos, a) && ReadOff(g, v, chain, mid, b)
    ensures ReadOff(g, v, chain, pos, a + b)
  {
    hide ByteAt, ClusterIndex;
  }

  lemma ReadContents(g: Bpb, v: seq<Block>, chain: seq<Cluster>, size: nat, pos: nat, buf: seq<byte>, end: nat)
    requires Volume(g, v) && DataClusters(g, chain) && Holds(g, chain, size) && pos + |buf| == end <= size
    requires ReadOff(g, v, chain, pos, buf)
    ensures buf == Bytes(g, v, chain, size)[pos..end]
  {
    HoldsAll(g, chain, size);
    hide ByteAt, ClusterIndex;
  }

  /** After a fragment, either everything is done or the position is at the start of a block. */
  lemma AfterFragment(bs: nat, pos: nat, size: nat, n: nat)
    requires 0 < bs
    requires n == (if size > bs - pos % bs then bs - pos % bs else size) % bs
    ensures n <= size && (n == size || (pos + n) % bs == 0)
    ensures pos % bs == 0 && size < bs ==> n == size
  {
    var o := pos % bs;
    if o > 0 && size > bs - o {
      DivModUnique(bs - o, bs, 0, bs - o);
      DivModUnique(pos + n, bs, pos / bs + 1, 0);
    } else if size < bs {
      DivModUnique(size, bs, 0, size);
    } else {
      DivModUnique(bs, bs, 1, 0);
    }
  }

  /** How many bytes read_block_fragment and write_block_fragment handle: up to the end of the block,
      but none if that is a whole block. */
  function FragmentSize(g: Bpb, pos: nat, size: nat): nat
    requires 0 < g.blockSize
  {
    var remainder := g.blockSize - pos % g.blockSize;
    (if size > remainder then remainder else size) % g.blockSize
  }

  lemma FragmentCovers(g: Bpb, pos: nat, size: nat)
    requires 0 < g.blockSize
    ensures var n := FragmentSize(g, pos, size);
            && n <= size && n < g.blockSize && pos % g.blockSize + n <= g.blockSize
            && (n == size || Aligned(g, pos + n))
            && (Aligned(g, pos) && size < g.blockSize ==> n == size)
  {
    AfterFragment(g.blockSize, pos, size, FragmentSize(g, pos, size));
  }

  /** How many whole blocks read_blocks and write_blocks handle: up to the end of the cluster. */
  function RunLength(g: Bpb, pos: nat, size: nat): nat
    requires 0 < g.blockSize && 0 < g.blocksPerCluster
  {
    var remainder := g.blocksPerCluster - pos / g.blockSize % g.blocksPerCluster;
    if size / g.blockSize > remainder then remainder else size / g.blockSize
  }

  lemma RunFits(g: Bpb, pos: nat, size: nat)
    requires 0 < g.blockSize && 0 < g.blocksPerCluster
    ensures var m := RunLength(g, pos, size);
            && m * g.blockSize <= size && pos / g.blockSize % g.blocksPerCluster + m <= g.blocksPerCluster
            && (m == 0 <==> size < g.blockSize)
            && (m == size / g.blockSize || pos / g.blockSize % g.blocksPerCluster + m == g.blocksPerCluster)
  {
    MulMono(RunLength(g, pos, size), size / g.blockSize, g.blockSize);
  }

  /** The C conversion of a 32-bit count to the int that ufat_file_read and ufat_file_write return. */
  function AsInt(n: uint32): int {
    if n < 0x8000_0000 then n else n - 0x1_0000_0000
  }

  /** The count that a read or write returns is negative, like an error, exactly when it is 2^31 or more. */
  lemma CountReturned(n: uint32)
    ensures AsInt(n) == n <==> n < 0x8000_0000
    ensures AsInt(n) < 0 <==> 0x8000_0000 <= n
    ensures AsInt(n) % 0x1_0000_0000 == n
  {
  }

  /** Going on by `n` bytes does not pass the last 32-bit position, unless the clusters hold 2^32 bytes or more. */
  predicate InReach(g: Bpb, chain: seq<Cluster>, pos: nat, n: nat)
    requires 0 < g.blockSize && 0 < g.blocksPerCluster
  {
    pos + n < 0x1_0000_0000 || |chain| <= ClusterIndex(g, 0xffff_ffff)
  }

  lemma ReachStep(g: Bpb, chain: seq<Cluster>, pos: nat, n: nat, size: nat)
    requires 0 < g.blockSize && 0 < g.blocksPerCluster && InReach(g, chain, pos, size)
    requires 0 < n <= size && Holds(g, chain, pos + n)
    ensures pos + n < 0x1_0000_0000 && InReach(g, chain, pos + n, size - n)
  {
    if pos + n >= 0x1_0000_0000 {
      IndexMono(g, 0xffff_ffff, pos + n - 1);
    }
  }

  /** The position is the end of the last cluster. */
  predicate AtChainEnd(g: Bpb, chain: seq<Cluster>, pos: nat)
    requires 0 < g.blockSize && 0 < g.blocksPerCluster
  {
    ClusterIndex(g, pos) == |chain|
  }

  lemma EndIs(g: Bpb, chain: seq<Cluster>, pos: nat)
    requires 0 < g.blockSize && 0 < g.blocksPerCluster
    ensures AtChainEnd(g, chain, pos) <==> ClusterIndex(g, pos) == |chain|
  {
  }

  /** At the end of the last cluster every read that is not empty needs a cluster, for a fragment or for a run. */
  lemma EndNeedsCluster(g: Bpb, chain: seq<Cluster>, pos: nat, size: nat)
    requires 0 < g.blockSize && 0 < g.blocksPerCluster && Holds(g, chain, pos) && AtChainEnd(g, chain, pos)
    ensures Aligned(g, pos)
    ensures FragmentSize(g, pos, size) == 0 <==> size == 0 || g.blockSize <= size
  {
    if pos > 0 {
      IndexNext(g, pos);
      hide ClusterIndex, FragmentSize, Holds, AtChainEnd;
      MulModZero(pos, g.blockSize, g.blocksPerCluster);
    }
    WholeFragment(g, pos, size);
  }

  lemma WholeFragment(g: Bpb, pos: nat, size: nat)
    requires 0 < g.blockSize && Aligned(g, pos)
    ensures FragmentSize(g, pos, size) == 0 <==> size == 0 || g.blockSize <= size
  {
    if size < g.blockSize {
      DivModUnique(size, g.blockSize, 0, size);
    } else {
      DivModUnique(g.blockSize, g.blockSize, 1, 0);
    }
  }

  lemma MulModZero(p: nat, a: nat, b: nat)
    requires 0 < a && 0 < b && a * b > 0 && p % (a * b) == 0
    ensures p % a == 0
  {
    var q := p / (a * b);
    assert p == q * (a * b) == q * b * a;
    DivModUnique(p, a, q * b, 0);
  }

  /** How far ufat_file_read lets a read of `size` bytes go; the subtraction is one of 32-bit numbers. */
  function ReadLimit(fileSize: uint32, pos: uint32, size: uint32): uint32 {
    var left := (fileSize - pos) % 0x1_0000_0000;
    if size > left then left else size
  }

  /** How many bytes ufat_file_write takes at position `pos`: the complement of the position is the room left. */
  function WriteLimit(pos: uint32, len: nat): (n: nat)
    ensures n <= len && pos + n < 0x1_0000_0000
    ensures n == len <==> pos + len < 0x1_0000_0000
    ensures n < len ==> pos + n == 0xffff_ffff
  {
    var maxWrite := 0xffff_ffff - pos;
    if len > maxWrite then maxWrite else len
  }

  /** How many of `size` bytes there are to be read at `pos`. */
  function Available(fileSize: uint32, pos: uint32, size: uint32): uint32 {
    if fileSize <= pos then 0 else if size > fileSize - pos then fileSize - pos else size
  }

  lemma LimitReach(g: Bpb, chain: seq<Cluster>, fileSize: uint32, pos: uint32, size: uint32)
    requires 0 < g.blockSize && 0 < g.blocksPerCluster && (pos <= fileSize || |chain| <= ClusterIndex(g, 0xffff_ffff))
    ensures InReach(g, chain, pos, ReadLimit(fileSize, pos, size))
    ensures pos <= fileSize ==> pos + ReadLimit(fileSize, pos, size) <= fileSize
    ensures 0 < ReadLimit(fileSize, pos, size) <==> 0 < size && pos != fileSize
    ensures pos <= fileSize ==> ReadLimit(fileSize, pos, size) == Available(fileSize, pos, size)
    ensures fileSize < pos ==> Available(fileSize, pos, size) == 0
    ensures size == 0 ==> ReadLimit(fileSize, pos, size) == 0 == AsInt(0) && Available(fileSize, pos, size) == 0
  {
  }

  /** The limit is the number of bytes that are there to be read exactly when the position is inside the file, or
      nothing is asked for. A write that runs out of clusters can leave the position behind the end of the file. */
  lemma ReadLimitExact(fileSize: uint32, pos: uint32, size: uint32)
    ensures ReadLimit(fileSize, pos, size) == Available(fileSize, pos, size)
            <==> pos <= fileSize || size == 0
  {
  }

  /** `s` with `d` written over it at `pos`. */
  function Overwrite(s: seq<byte>, pos: nat, d: seq<byte>): seq<byte>
    requires pos <= |s|
  {
    s[..pos] + d + if pos + |d| < |s| then s[pos + |d|..] else []
  }

  /** Writing inside the old contents, or right behind them, overwrites a byte sequence. */
  lemma WroteOverwrites(g: Bpb, v: seq<Block>, chain: seq<Cluster>, size: nat, v': seq<Block>, chain': seq<Cluster>,
                        size': nat,
                        pos: nat, bytes: seq<byte>)
    requires Volume(g, v) && Volume(g, v') && Wrote(g, v, chain, v', chain', pos, bytes)
    requires Holds(g, chain, size) && Holds(g, chain', size') && pos <= size
    requires size' == if pos + |bytes| > size then pos + |bytes| else size
    ensures Bytes(g, v', chain', size') == Overwrite(Bytes(g, v, chain, size), pos, bytes)
  {
    HoldsAll(g, chain, size);
    HoldsAll(g, chain', size');
    hide ByteAt, ClusterIndex;
  }

  lemma ProgressStart(g: Bpb, v: seq<Block>, chain: seq<Cluster>, pos: nat, start: Cluster, size: nat, db: nat, dp: nat)
    requires Volume(g, v) && FileOk(g, v, chain, start, size, db, dp) && Holds(g, chain, pos)
    ensures Progress(g, v, chain, v, chain, pos, [], pos, db, dp)
  {
  }

  /** Recording a new size changes the directory entry and nothing else. */
  lemma Resized(g: Bpb, v0: seq<Block>, chain0: seq<Cluster>, v: seq<Block>, chain: seq<Cluster>, v': seq<Block>,
                start: Cluster, size: nat, size': uint32, db: nat, dp: nat)
    requires Volume(g, v0) && Volume(g, v) && db < |v0| && FileOk(g, v, chain, start, size, db, dp)
    requires Holds(g, chain, size')
    requires v' == v[db := WithSize(v[db], dp, size')]
    requires Protected(g, v0, v, chain0, db, dp)
    ensures Volume(g, v') && FileOk(g, v', chain, start, size', db, dp) && SameBytes(g, v, chain, v', chain)
    ensures Protected(g, v0, v', chain0, db, dp)
  {
    SameFat(g, v, v');
    KeepsBytes(g, FatOf(g, v), v, chain, v', chain, db);
    hide FatOf, BlockCluster, DirentStart, DirentSize, WithSize, ByteAt;
  }

  lemma WroteThenSame(g: Bpb, v0: seq<Block>, chain0: seq<Cluster>, v: seq<Block>, chain: seq<Cluster>, v': seq<Block>,
                      pos: nat, bytes: seq<byte>)
    requires Volume(g, v0) && Volume(g, v) && Volume(g, v')
    requires Wrote(g, v0, chain0, v, chain, pos, bytes) && SameBytes(g, v, chain, v', chain)
    ensures Wrote(g, v0, chain0, v', chain, pos, bytes)
  {
    assert forall i | 0 <= i < |chain0| :: chain0[i] == chain[i];
    assert forall p: nat | ClusterIndex(g, p) < |chain0| :: ClusterIndex(g, p) < |chain|;
    hide ByteAt, ClusterIndex, DataClusters;
  }

  lemma ProgressParts(g: Bpb, v0: seq<Block>, chain0: seq<Cluster>, v: seq<Block>, chain: seq<Cluster>,
                      pos0: nat, bytes: seq<byte>, pos: nat, db: nat, dp: nat)
    requires Volume(g, v0) && Volume(g, v) && db < |v0| && dp * 32 + 32 <= g.blockSize
    requires Progress(g, v0, chain0, v, chain, pos0, bytes, pos, db, dp)
    ensures Wrote(g, v0, chain0, v, chain, pos0, bytes) && GrownAsNeeded(g, chain0, chain, pos) && Holds(g, chain, pos)
    ensures OwnOrFree(g, v0, chain0, chain) && Protected(g, v0, v, chain0, db, dp) && pos == pos0 + |bytes|
  {
    hide Wrote, Protected, OwnOrFree;
  }

  /** The last step of a write: the size is recorded if the file has grown. */
  lemma WriteDone(g: Bpb, v0: seq<Block>, chain0: seq<Cluster>, start0: Cluster, size0: uint32,
                  v1: seq<Block>, chain: seq<Cluster>, v2: seq<Block>, start: Cluster, size: uint32,
                  pos0: nat, bytes: seq<byte>, pos: uint32, db: nat, dp: nat)
    requires Volume(g, v0) && Volume(g, v1) && db < |v0| && dp * 32 + 32 <= g.blockSize
    requires FileOk(g, v0, chain0, start0, size0, db, dp) && FileOk(g, v1, chain, start, size0, db, dp)
    requires Progress(g, v0, chain0, v1, chain, pos0, bytes, pos, db, dp)
    requires if pos > size0 then size == pos && v2 == v1[db := WithSize(v1[db], dp, pos)] else size == size0 && v2 == v1
    ensures Volume(g, v2) && FileOk(g, v2, chain, start, size, db, dp)
    ensures Wrote(g, v0, chain0, v2, chain, pos0, bytes) && GrownAsNeeded(g, chain0, chain, pos)
    ensures OwnOrFree(g, v0, chain0, chain) && Protected(g, v0, v2, chain0, db, dp)
    ensures pos0 <= size0 ==>
              Bytes(g, v2, chain, size) == Overwrite(Bytes(g, v0, chain0, size0), pos0, bytes)
  {
    ProgressParts(g, v0, chain0, v1, chain, pos0, bytes, pos, db, dp);
    if pos > size0 {
      Resized(g, v0, chain0, v1, chain, v2, start, size0, pos, db, dp);
      WroteThenSame(g, v0, chain0, v1, chain, v2, pos0, bytes);
    }
    assert Holds(g, chain0, size0) && Holds(g, chain, size);
    hide Wrote, Protected, OwnOrFree, FileOk, GrownAsNeeded, Holds, Bytes, Overwrite;
    if pos0 <= size0 {
      WroteOverwrites(g, v0, chain0, size0, v2, chain, size, pos0, bytes);
    }
  }

  /** How many clusters hold `n` bytes: the quotient by the cluster size, rounded up. */
  function ClustersFor(g: Bpb, n: nat): (k: nat)
    requires 0 < g.blockSize && 0 < g.blocksPerCluster
  {
    if n == 0 then 0 else ClusterIndex(g, n - 1) + 1
  }

  /** The table after the chain was cut behind its first `keep` clusters: the others are free, and no entry outside
      the chain has changed. */
  ghost predicate CutFat(fat: seq<Cluster>, fat': seq<Cluster>, chain: seq<Cluster>, keep: nat)
    requires keep <= |chain|
  {
    && |fat'| == |fat| && IsChain(fat', chain[..keep])
    && (forall c | c in chain[keep..] :: c < |fat'| && fat'[c] == FREE)
    && (forall j | 0 <= j < |fat| && j !in chain :: fat'[j] == fat[j])
  }

  /** Ending a chain early leaves two chains. */
  lemma ChainSplit(fat: seq<Cluster>, chain: seq<Cluster>, keep: nat, fat': seq<Cluster>)
    requires IsChain(fat, chain) && 0 < keep <= |chain| && fat' == fat[chain[keep - 1] := EOC]
    ensures IsChain(fat', chain[..keep]) && IsChain(fat', chain[keep..]) && chain[keep - 1] < |fat|
    ensures keep < |chain| ==> fat[chain[keep - 1]] == chain[keep]
    ensures keep == |chain| ==> !IsPtr(fat[chain[keep - 1]])
  {
    var a, b := chain[..keep], chain[keep..];
    forall i | 0 <= i < |a| - 1
      ensures fat'[a[i]] == a[i + 1]
    {
      assert fat[chain[i]] == chain[i + 1];
    }
    forall i | 0 <= i < |b| - 1
      ensures fat'[b[i]] == b[i + 1]
    {
      assert fat[chain[keep + i]] == chain[keep + i + 1];
    }
    if keep < |chain| {
      assert fat[chain[keep - 1]] == chain[keep - 1 + 1];
      assert b[|b| - 1] == chain[|chain| - 1];
    }
  }

  /** Releasing the second part of a chain that was split finishes the cut. */
  lemma CutDone(fat: seq<Cluster>, chain: seq<Cluster>, keep: nat, mid: seq<Cluster>, fat': seq<Cluster>)
    requires IsChain(fat, chain) && keep < |chain| && |mid| == |fat|
    requires mid == if keep == 0 then fat else fat[chain[keep - 1] := EOC]
    requires Released(mid, fat', Visited(mid, chain[keep]))
    ensures CutFat(fat, fat', chain, keep) && !IsPtr(Stop(mid, chain[keep]))
  {
    hide Visited, Stop, CutFat, Released;
    ChainFacts(fat, chain);
    hide IsChain;
    CutHalves(fat, chain, keep, mid);
    ReleaseVisitsChain(mid, chain[keep..]);
    CutReleased(fat, chain, keep, mid, fat', Visited(mid, chain[keep]));
  }

  lemma ChainFacts(fat: seq<Cluster>, chain: seq<Cluster>)
    requires IsChain(fat, chain)
    ensures forall i, j | 0 <= i < j < |chain| :: chain[i] != chain[j]
    ensures forall c | c in chain :: c < |fat|
  {
  }

  /** Both parts of a chain that was split are chains. */
  lemma CutHalves(fat: seq<Cluster>, chain: seq<Cluster>, keep: nat, mid: seq<Cluster>)
    requires IsChain(fat, chain) && keep < |chain| && |mid| == |fat|
    requires mid == if keep == 0 then fat else fat[chain[keep - 1] := EOC]
    ensures IsChain(mid, chain[..keep]) && IsChain(mid, chain[keep..])
    ensures forall j | 0 <= j < |fat| && j !in chain :: mid[j] == fat[j]
  {
    if keep > 0 {
      ChainSplit(fat, chain, keep, mid);
    } else {
      assert chain[keep..] == chain && chain[..keep] == [];
    }
  }

  lemma CutReleased(fat: seq<Cluster>, chain: seq<Cluster>, keep: nat, mid: seq<Cluster>, fat': seq<Cluster>,
                    gone: set<int>)
    requires keep < |chain| && |mid| == |fat| && IsChain(mid, chain[..keep])
    requires forall i, j | 0 <= i < j < |chain| :: chain[i] != chain[j]
    requires forall c | c in chain :: c < |fat|
    requires forall j :: j in gone <==> j in chain[keep..]
    requires forall j | 0 <= j < |fat| && j !in chain :: mid[j] == fat[j]
    requires Released(mid, fat', gone)
    ensures CutFat(fat, fat', chain, keep)
  {
    Halves(chain, keep);
    hide IsChain;
    assert forall c | c in chain[..keep] :: c as int !in gone;
    ChainSame(mid, fat', chain[..keep]);
  }

  lemma ChainSame(fat: seq<Cluster>, fat': seq<Cluster>, chain: seq<Cluster>)
    requires IsChain(fat, chain) && |fat'| == |fat| && forall c | c in chain :: c < |fat| ==> fat'[c] == fat[c]
    ensures IsChain(fat', chain)
  {
    assert forall i | 0 <= i < |chain| :: chain[i] in chain;
  }

  /** The two parts of a sequence without repetitions have no element in common. */
  lemma Halves(chain: seq<Cluster>, keep: nat)
    requires keep <= |chain| && forall i, j | 0 <= i < j < |chain| :: chain[i] != chain[j]
    ensures forall c | c in chain[..keep] :: c in chain && c !in chain[keep..]
    ensures forall c | c in chain[keep..] :: c in chain
    ensures keep > 0 ==> chain[keep - 1] in chain[..keep]
    ensures keep < |chain| ==> chain[keep..] != [] && chain[keep..][0] == chain[keep]
  {
    assert forall i | 0 <= i < |chain| - keep :: chain[keep..][i] == chain[keep + i];
    if keep > 0 {
      assert chain[..keep][keep - 1] == chain[keep - 1];
    }
  }

  /** A file that was cut to the clusters of its size is a file, and its bytes are the same. */
  lemma KeptHolds(g: Bpb, chain: seq<Cluster>, size: nat)
    requires 0 < g.blockSize && 0 < g.blocksPerCluster && ClustersFor(g, size) <= |chain|
    ensures Holds(g, chain[..ClustersFor(g, size)], size)
  {
  }

  lemma CutFile(g: Bpb, v: seq<Block>, chain: seq<Cluster>, start: Cluster, size: nat, db: nat, dp: nat,
                v1: seq<Block>, start': Cluster, v': seq<Block>)
    requires Volume(g, v) && Volume(g, v1) && Volume(g, v') && FileOk(g, v, chain, start, size, db, dp)
    requires ClustersFor(g, size) <= |chain|
    requires if size == 0 then start' == 0 && v1 == v[db := WithStart(v[db], dp, 0)] else start' == start && v1 == v
    requires SameOutsideFat(g, v1, v') && CutFat(FatOf(g, v), FatOf(g, v'), chain, ClustersFor(g, size))
    ensures var keep := chain[..ClustersFor(g, size)];
            && FileOk(g, v', keep, start', size, db, dp) && Protected(g, v, v', chain, db, dp)
            && SameBytes(g, v', keep, v, chain)
  {
    hide FatOf, BlockCluster, DirentStart, DirentSize, WithStart, ByteAt, ClusterIndex, Holds;
    var keep := chain[..ClustersFor(g, size)];
    KeptHolds(g, chain, size);
    assert forall c | c in keep :: c in chain;
    assert forall c | c in chain :: c < g.numClusters;
    assert DirentApart(g, FatOf(g, v'), keep, db, |v'|);
    KeepsBytes(g, FatOf(g, v'), v', keep, v, chain, db);
  }

  /** The file was cut to the first clusters of its chain, which hold its size; nothing else has changed but that the
      clusters cut off are free. */
  ghost predicate Shortened(g: Bpb, v: seq<Block>, chain: seq<Cluster>, v': seq<Block>, chain': seq<Cluster>, size: nat)
    requires Volume(g, v) && Volume(g, v')
  {
    var keep := ClustersFor(g, size);
    && keep <= |chain| && chain' == chain[..keep]
    && CutFat(FatOf(g, v), FatOf(g, v'), chain, keep)
    && SameBytes(g, v', chain', v, chain)
  }

  /** A chain that ends where it already ended. */
  lemma CutNothing(fat: seq<Cluster>, fat': seq<Cluster>, chain: seq<Cluster>)
    requires IsChain(fat, chain)
    requires fat' == fat || (chain != [] && fat' == fat[chain[|chain| - 1] := EOC])
    ensures CutFat(fat, fat', chain, |chain|)
  {
    assert chain[..|chain|] == chain && chain[|chain|..] == [];
    if fat' != fat {
      ChainSplit(fat, chain, |chain|, fat');
      assert chain[|chain| - 1] in chain;
    }
  }

  /** Changes to entries of the file's own chain, and to its directory entry, touch nothing else. */
  lemma OwnChainTouched(g: Bpb, v: seq<Block>, chain: seq<Cluster>, start: Cluster, size: nat, db: nat, dp: nat,
                        v1: seq<Block>, v2: seq<Block>)
    requires Volume(g, v) && Volume(g, v1) && Volume(g, v2) && FileOk(g, v, chain, start, size, db, dp)
    requires v1 == v || v1 == v[db := WithStart(v[db], dp, 0)]
    requires SameOutsideFat(g, v1, v2)
    requires forall j | 0 <= j < g.numClusters && j !in chain :: FatOf(g, v2)[j] == FatOf(g, v1)[j]
    ensures Protected(g, v, v2, chain, db, dp)
  {
    SameFat(g, v, v1);
    hide FatOf, BlockCluster, DirentStart, DirentSize, WithStart;
  }

  /** Releasing the rest of a chain only ever changes entries of the chain. */
  lemma CutVisits(fat: seq<Cluster>, chain: seq<Cluster>, keep: nat, mid: seq<Cluster>)
    requires IsChain(fat, chain) && keep < |chain| && |mid| == |fat|
    requires mid == if keep == 0 then fat else fat[chain[keep - 1] := EOC]
    ensures forall j :: j in Visited(mid, chain[keep]) ==> j in chain
    ensures !IsPtr(Stop(mid, chain[keep]))
  {
    Halves(chain, keep);
    if keep > 0 {
      ChainSplit(fat, chain, keep, mid);
    } else {
      assert chain[keep..] == chain;
    }
    hide IsChain;
    ReleaseVisitsChain(mid, chain[keep..]);
  }

  /** Releasing the whole chain of a file whose directory entry no longer points to it. */
  lemma EmptyCut(g: Bpb, v0: seq<Block>, chain: seq<Cluster>, start: Cluster, db: nat, dp: nat, v1: seq<Block>,
                 v2: seq<Block>,
                 size: nat, none: Cluster, done: bool)
    requires Volume(g, v0) && Volume(g, v1) && Volume(g, v2) && FileOk(g, v0, chain, start, size, db, dp)
    requires size == 0 && none == FREE
    requires v1 == v0[db := WithStart(v0[db], dp, none)] && SameOutsideFat(g, v1, v2)
    requires !IsPtr(start) ==> FatOf(g, v2) == FatOf(g, v1)
    requires var fat := FatOf(g, v1);
             IsPtr(start) ==>
               && (forall j | 0 <= j < |fat| && j !in Visited(fat, start) :: FatOf(g, v2)[j] == fat[j])
               && (done ==> Released(fat, FatOf(g, v2), Visited(fat, start)))
    ensures IsPtr(start) ==> !IsPtr(Stop(FatOf(g, v1), start))
    ensures Protected(g, v0, v2, chain, db, dp)
    ensures done ==> FileOk(g, v2, chain[..0], none, size, db, dp) && Shortened(g, v0, chain, v2, chain[..0], size)
  {
    SameFat(g, v0, v1);
    var fat := FatOf(g, v1);
    if IsPtr(start) {
      CutVisits(fat, chain, 0, fat);
      if done {
        CutDone(fat, chain, 0, fat, FatOf(g, v2));
      }
    } else {
      CutNothing(fat, FatOf(g, v2), chain);
    }
    OwnChainTouched(g, v0, chain, start, size, db, dp, v1, v2);
    if done {
      hide Visited, Stop, FatOf, Protected, WithStart;
      CutFile(g, v0, chain, start, size, db, dp, v1, none, v2);
    }
  }

  /** Ending the chain behind cluster `last` and releasing what followed, `tail`. */
  lemma TailCut(g: Bpb, v0: seq<Block>, chain: seq<Cluster>, start: Cluster, size: nat, db: nat, dp: nat, keep: nat,
                last: Cluster, tail: Cluster, v1: seq<Block>, v2: seq<Block>, done: bool)
    requires Volume(g, v0) && Volume(g, v1) && Volume(g, v2) && FileOk(g, v0, chain, start, size, db, dp)
    requires keep == ClustersFor(g, size) && 0 < keep <= |chain| && last == chain[keep - 1] && last < g.numClusters
    requires SameOutsideFat(g, v0, v1) && SameOutsideFat(g, v1, v2)
    requires FatOf(g, v1) == FatOf(g, v0)[last := EOC]
    requires tail == FatOf(g, v0)[last]
    requires !IsPtr(tail) ==> FatOf(g, v2) == FatOf(g, v1)
    requires var fat := FatOf(g, v1);
             IsPtr(tail) ==>
               && (forall j | 0 <= j < |fat| && j !in Visited(fat, tail) :: FatOf(g, v2)[j] == fat[j])
               && (done ==> Released(fat, FatOf(g, v2), Visited(fat, tail)))
    ensures IsPtr(tail) ==> !IsPtr(Stop(FatOf(g, v1), tail))
    ensures Protected(g, v0, v2, chain, db, dp)
    ensures done ==>
              FileOk(g, v2, chain[..keep], start, size, db, dp) && Shortened(g, v0, chain, v2, chain[..keep], size)
  {
    var fat, mid, fat' := FatOf(g, v0), FatOf(g, v1), FatOf(g, v2);
    SameLinks(g, v0, v1, v2);
    ChainSplit(fat, chain, keep, mid);
    assert chain[keep - 1] in chain;
    if keep < |chain| {
      assert chain[keep] in chain;
      assert IsPtr(tail);
      CutVisits(fat, chain, keep, mid);
      if done {
        CutDone(fat, chain, keep, mid, fat');
      }
    } else {
      assert chain[..keep] == chain;
      CutNothing(fat, fat', chain);
    }
    hide FatOf, IsChain, Visited, Stop, CutFat, Protected, Released;
    OwnChainTouched(g, v0, chain, start, size, db, dp, v0, v2);
    if done {
      CutFile(g, v0, chain, start, size, db, dp, v0, start, v2);
    }
  }

  lemma SameLinks(g: Bpb, v0: seq<Block>, v1: seq<Block>, v2: seq<Block>)
    requires SameOutsideFat(g, v0, v1) && SameOutsideFat(g, v1, v2)
    ensures SameOutsideFat(g, v0, v2)
  {
  }

  lemma NothingToCut(g: Bpb, v: seq<Block>, chain: seq<Cluster>, start: Cluster, size: nat, db: nat, dp: nat, keep: nat)
    requires Volume(g, v) && FileOk(g, v, chain, start, size, db, dp)
    requires keep == ClustersFor(g, size) == |chain| && 0 < size
    ensures Shortened(g, v, chain, v, chain, size)
  {
    assert chain[..|chain|] == chain;
    CutNothing(FatOf(g, v), FatOf(g, v), chain);
    CutFile(g, v, chain, start, size, db, dp, v, start, v);
  }

  lemma FileOkFacts(g: Bpb, v: seq<Block>, chain: seq<Cluster>, start: Cluster, size: nat, db: nat, dp: nat)
    requires Volume(g, v) && FileOk(g, v, chain, start, size, db, dp)
    ensures IsChain(FatOf(g, v), chain) && Holds(g, chain, size) && DataClusters(g, chain)
  {
  }

  /** The first `n` bytes are the same in two views. */
  lemma SameBytesSame(g: Bpb, v: seq<Block>, chain: seq<Cluster>, v': seq<Block>, chain': seq<Cluster>, n: nat)
    requires Volume(g, v) && Volume(g, v') && SameBytes(g, v, chain, v', chain') && Holds(g, chain, n)
    ensures Holds(g, chain', n) && Bytes(g, v, chain, n) == Bytes(g, v', chain', n)
  {
    HoldsAll(g, chain, n);
    assert |chain| <= |chain'|;
    HoldsAll(g, chain', n);
    hide ByteAt, ClusterIndex;
  }

  /** The file keeps its first `n` bytes and the clusters that hold them; its other clusters are free, and the rest of
      the table is as it was. */
  ghost predicate TruncatedTo(g: Bpb, v: seq<Block>, chain: seq<Cluster>, v': seq<Block>, chain': seq<Cluster>, n: nat)
    requires Volume(g, v) && Volume(g, v')
  {
    var keep := ClustersFor(g, n);
    && keep <= |chain| && chain' == chain[..keep]
    && CutFat(FatOf(g, v), FatOf(g, v'), chain, keep)
    && DataClusters(g, chain) && DataClusters(g, chain') && Holds(g, chain, n) && Holds(g, chain', n)
    && Bytes(g, v', chain', n) == Bytes(g, v, chain, n)
  }

  /** Recording the size and cutting the chain keep the bytes before the position. */
  lemma TruncateDone(g: Bpb, v0: seq<Block>, chain0: seq<Cluster>, v1: seq<Block>, v2: seq<Block>, chain: seq<Cluster>,
                     size: uint32, start: Cluster, size0: nat, db: nat, dp: nat, done: bool)
    requires Volume(g, v0) && Volume(g, v1) && Volume(g, v2) && db < |v0| == |v1|
    requires FileOk(g, v0, chain0, start, size0, db, dp) && Holds(g, chain0, size)
    requires v1 == v0[db := WithSize(v0[db], dp, size)]
    requires Protected(g, v1, v2, chain0, db, dp) && (done ==> Shortened(g, v1, chain0, v2, chain, size))
    ensures Protected(g, v0, v2, chain0, db, dp)
    ensures done ==> TruncatedTo(g, v0, chain0, v2, chain, size)
  {
    Unchanged(g, v0, chain0, start, size0, db, dp);
    Resized(g, v0, chain0, v0, chain0, v1, start, size0, size, db, dp);
    assert OwnOrFree(g, v0, chain0, chain0);
    ProtectedBoth(g, v0, chain0, v1, chain0, v2, db, dp);
    SameFat(g, v0, v1);
    if done {
      assert Holds(g, chain, size);
      hide FatOf, WithSize, FileOk, CutFat, Bytes, Protected;
      SameBytesSame(g, v0, chain0, v1, chain0, size);
      SameBytesSame(g, v2, chain, v1, chain0, size);
    }
  }

  lemma SameAsItself(g: Bpb, v: seq<Block>)
    ensures SameOutsideFat(g, v, v)
  {
  }

  lemma SameLength(g: Bpb, v: seq<Block>, v': seq<Block>)
    requires SameOutsideFat(g, v, v')
    ensures |v'| == |v|
  {
  }

  lemma EocSurvives(t: FatType)
    ensures Decode(t, Encode(t, EOC)) == EOC
  {
    StoredValueSurvives(t, EOC);
  }

  /** What the handle's current cluster says about its position. */
  lemma Standing(g: Bpb, v: seq<Block>, chain: seq<Cluster>, prev: Cluster, cur: Cluster, pos: nat)
    requires Volume(g, v) && IsChain(FatOf(g, v), chain) && PosOk(g, chain, prev, cur, pos)
    ensures DataClusters(g, chain)
    ensures IsPtr(cur) <==> ClusterIndex(g, pos) < |chain|
    ensures !IsPtr(cur) ==> ClusterIndex(g, pos) == |chain|
    ensures IsPtr(cur) ==> FileBlock(g, chain, pos) == ClusterBlock(g, cur) + pos / g.blockSize % g.blocksPerCluster
                           && 0 <= FileBlock(g, chain, pos) < |v| && g.clusterStart <= FileBlock(g, chain, pos)
  {
    if IsPtr(cur) {
      FileBlockInVolume(g, chain, pos, |v|);
    }
  }

  /** Appending an allocated cluster to a chain. */
  lemma ChainBack(fat: seq<Cluster>, chain: seq<Cluster>, c: Cluster, fat': seq<Cluster>)
    requires IsChain(fat, chain) && IsChain(fat, [c]) && c !in chain
    requires fat' == if chain == [] then fat else fat[chain[|chain| - 1] := c]
    ensures IsChain(fat', chain + [c])
  {
    var longer := chain + [c];
    assert forall i | 0 <= i < |chain| :: longer[i] == chain[i] && chain[i] in chain;
    assert fat[[c][0]] == fat[c];
    forall i | 0 <= i < |longer| - 1
      ensures fat'[longer[i]] == longer[i + 1]
    {
      if i < |chain| - 1 {
        assert fat[chain[i]] == chain[i + 1];
      }
    }
  }

  /** A view that differs only in a block outside the FAT has the same table. */
  lemma SameFat(g: Bpb, v: seq<Block>, v': seq<Block>)
    requires Volume(g, v) && Volume(g, v') && |v'| == |v|
    requires forall b | 0 <= b < |v| && g.InFat(b) :: v'[b] == v[b]
    ensures FatOf(g, v') == FatOf(g, v)
  {
    forall o: nat | o < g.fatSize * g.blockSize
      ensures FatByte(g, v', o) == FatByte(g, v, o)
    {
      FatBlock(g, o);
    }
    hide FatByte;
    forall i | 0 <= i < g.numClusters
      ensures Entry(g, v', i) == Entry(g, v, i)
    {
    }
  }

  /** The block of a directory entry after set_start. */
  function WithStart(block: Block, dp: nat, s: Cluster): (r: Block)
    requires dp * 32 + 32 <= |block|
    ensures |r| == |block|
    ensures forall x | 0 <= x < |block| && r[x] != block[x] ::
              dp * 32 + 0x14 <= x < dp * 32 + 0x16 || dp * 32 + 0x1a <= x < dp * 32 + 0x1c
    ensures DirentStart(Fat32, r, dp) == s && DirentSize(r, dp) == DirentSize(block, dp)
    ensures forall t :: s < 0x1_0000 ==> DirentStart(t, r, dp) == s
  {
    Patch(Patch(block, dp * 32 + 0x14, W16(s / 0x1_0000)), dp * 32 + 0x1a, W16(s % 0x1_0000))
  }

  /** The block of a directory entry after set_size. */
  function WithSize(block: Block, dp: nat, n: uint32): (r: Block)
    requires dp * 32 + 32 <= |block|
    ensures |r| == |block|
    ensures forall x | 0 <= x < |block| && r[x] != block[x] :: dp * 32 + 0x1c <= x < dp * 32 + 0x20
    ensures DirentSize(r, dp) == n
    ensures forall t :: DirentStart(t, r, dp) == DirentStart(t, block, dp)
  {
    Patch(block, dp * 32 + 0x1c, W32(n))
  }

  class File {
    const uf: Ufat
    const direntBlock: nat
    const direntPos: nat
    var start: Cluster
    var fileSize: uint32
    var prevCluster: Cluster
    var curCluster: Cluster
    var curPos: uint32

    /** The clusters of the file. */
    ghost var chain: seq<Cluster>

    /** The volume is opened and the directory entry is on it. */
    ghost predicate Mounted()
      reads this, uf.Objects()
    {
      && this !in uf.Objects()
      && uf.Valid() && Volume(uf.bpb, uf.view) && ScanReady(uf)
      && uf.bpb.rootStart <= direntBlock < |uf.view| && direntPos * 32 + 32 <= uf.bpb.blockSize
    }

    /** The handle describes a file of the volume and a position in it. */
    ghost predicate Sound()
      reads this, uf.Objects()
    {
      && Mounted()
      && FileOk(uf.bpb, uf.view, chain, start, fileSize, direntBlock, direntPos)
      && PosOk(uf.bpb, chain, prevCluster, curCluster, curPos)
    }

    ghost function Contents(): (s: seq<byte>)
      requires Sound()
      reads this, uf.Objects()
      ensures |s| == fileSize
    {
      Bytes(uf.bpb, uf.view, chain, fileSize)
    }

    /** ufat_open_file, for an entry that is not a directory: the handle stands at the first byte. */
    constructor (uf: Ufat, direntBlock: nat, direntPos: nat, firstCluster: Cluster, fileSize: uint32,
        ghost chain: seq<Cluster>)
      requires uf.Valid() && Volume(uf.bpb, uf.view) && ScanReady(uf)
      requires FileOk(uf.bpb, uf.view, chain, firstCluster, fileSize, direntBlock, direntPos)
      ensures Sound() && this.uf == uf && this.direntBlock == direntBlock && this.direntPos == direntPos
      ensures this.chain == chain && curPos == 0 && this.fileSize == fileSize
    {
      hide Ufat.CoherentBut, FatOf, Bpb.Fits, IsChain, Holds, DirentApart, DirentStart, DirentSize, Volume,
        ClusterIndex;
      Shape(uf.bpb, uf.view);
      PosAtStart(uf.bpb, uf.view, chain, firstCluster, fileSize, direntBlock, direntPos);
      EntryInside(uf.bpb, uf.view, chain, firstCluster, fileSize, direntBlock, direntPos);
      this.uf, this.direntBlock, this.direntPos := uf, direntBlock, direntPos;
      start, this.fileSize, prevCluster, curCluster, curPos := firstCluster, fileSize, 0, firstCluster, 0;
      this.chain := chain;
    }

    /** ufat_file_rewind */
    method Rewind()
      requires Sound()
      modifies this`prevCluster, this`curCluster, this`curPos
      ensures Sound() && curPos == 0
    {
      hide *;
      SoundFacts();
      MountedFacts();
      PosAtStart(uf.bpb, uf.view, chain, start, fileSize, direntBlock, direntPos);
      prevCluster, curCluster, curPos := 0, start, 0;
      SoundAgain();
    }

    /** set_size */
    method SetSize(n: uint32) returns (r: Result<()>)
      requires Mounted()
      modifies this`fileSize, uf.Objects()
      ensures Mounted() && uf.allocPtr == old(uf.allocPtr)
      ensures old(uf.dev.failures) <= uf.dev.failures
      ensures r.Err? ==> r.error == IoError && old(uf.dev.failures) < uf.dev.failures
      ensures r.Err? ==> uf.view == old(uf.view) && fileSize == old(fileSize)
      ensures r.Ok? ==> fileSize == n
                        && uf.view == old(uf.view)[direntBlock := WithSize(old(uf.view)[direntBlock], direntPos, n)]
    {
      hide Ufat.CoherentBut, WithSize, WithStart, Patch, W16, W32, R16, R32, Bpb.Fits;
      var i := uf.Open(direntBlock, false);
      if i.Err? {
        return Err(i.error);
      }
      SizePatch(uf.view[direntBlock], direntPos, n);
      uf.WriteCached(i.value, direntPos * 32 + 0x1c, W32(n));
      fileSize := n;
      return Ok(());
    }

    /** set_start */
    method SetStart(s: Cluster) returns (r: Result<()>)
      requires Mounted()
      modifies this`start, uf.Objects()
      ensures Mounted() && uf.allocPtr == old(uf.allocPtr)
      ensures old(uf.dev.failures) <= uf.dev.failures
      ensures r.Err? ==> r.error == IoError && old(uf.dev.failures) < uf.dev.failures
      ensures r.Err? ==> uf.view == old(uf.view) && start == old(start)
      ensures r.Ok? ==> start == s
                        && uf.view == old(uf.view)[direntBlock := WithStart(old(uf.view)[direntBlock], direntPos, s)]
    {
      hide Ufat.CoherentBut, WithSize, WithStart, Patch, W16, W32, R16, R32, Bpb.Fits;
      var i := uf.Open(direntBlock, false);
      if i.Err? {
        return Err(i.error);
      }
      StartPatch(uf.view[direntBlock], direntPos, s);
      ghost var v := uf.view;
      uf.WriteCached(i.value, direntPos * 32 + 0x14, W16(s / 0x1_0000));
      assert uf.view == v[direntBlock := uf.view[direntBlock]];
      uf.WriteCached(i.value, direntPos * 32 + 0x1a, W16(s % 0x1_0000));
      start := s;
      return Ok(());
    }

    /** The bytes from the position on are the file's as far as the next position. */
    ghost predicate CanAdvance(nbytes: nat)
      reads this, uf.Objects()
    {
      Sound() && curPos + nbytes < 0x1_0000_0000 && Holds(uf.bpb, chain, curPos + nbytes)
    }

    /** advance_ptr: follows one FAT link for each cluster boundary crossed. The new position and the number of links
        are 32-bit numbers. */
    method AdvancePtr(nbytes: uint32) returns (r: Result<()>)
      requires Mounted()
      modifies this`prevCluster, this`curCluster, this`curPos, uf.Objects()
      ensures Mounted() && uf.view == old(uf.view) && uf.allocPtr == old(uf.allocPtr)
      ensures chain == old(chain) && fileSize == old(fileSize)
      ensures old(uf.dev.failures) <= uf.dev.failures
      ensures r.Err? && r.error != InvalidCluster ==> r.error == IoError && old(uf.dev.failures) < uf.dev.failures
      ensures curPos == if r.Ok? then (old(curPos) + nbytes) % 0x1_0000_0000 else old(curPos)
      ensures old(CanAdvance(nbytes)) ==> Sound() && r != Err(InvalidCluster)
      ensures old(CanAdvance(nbytes)) && r.Ok? ==> curPos == old(curPos) + nbytes
      ensures r.Err? ==> prevCluster == old(prevCluster) && curCluster == old(curCluster)
      ensures 0 < uf.bpb.blockSize && 0 < uf.bpb.blocksPerCluster
      ensures LinksFollowed(uf.bpb, old(curPos), (old(curPos) + nbytes) % 0x1_0000_0000, r,
                            old(prevCluster), old(curCluster), prevCluster, curCluster)
    {
      hide Ufat.CoherentBut, FatOf, Volume, Bpb.Fits, IsChain, AtIndex, ClusterIndex, FileOk, Holds;
      ghost var g := uf.bpb;
      Shape(g, uf.view);
      var clusterSize := uf.bpb.blockSize * uf.bpb.blocksPerCluster;
      var endPos := (curPos + nbytes) % 0x1_0000_0000;
      ByteIndex(g, curPos);
      ByteIndex(g, endPos);
      ghost var can := CanAdvance(nbytes);
      if can {
        AdvanceIndex(g, chain, prevCluster, curCluster, curPos, endPos);
        FileChain(g, uf.view, chain, start, fileSize, direntBlock, direntPos);
      }
      var nclusters: nat := (endPos / clusterSize - curPos / clusterSize) % 0x1_0000_0000;
      LinkCount(curPos / clusterSize, endPos / clusterSize, curPos, endPos, clusterSize);
      var c, prev := curCluster, prevCluster;
      ghost var total := nclusters;
      while nclusters > 0
        invariant 0 <= nclusters <= total
        invariant Mounted() && uf.view == old(uf.view) && uf.allocPtr == old(uf.allocPtr)
        invariant old(uf.dev.failures) <= uf.dev.failures
        invariant unchanged(this)
        invariant nclusters == total ==> c == curCluster && prev == prevCluster
        invariant nclusters < total ==> old(curCluster) < g.numClusters
        invariant can ==> Sound() && nclusters <= ClusterIndex(g, endPos)
                          && AtIndex(chain, prev, c, ClusterIndex(g, endPos) - nclusters)
      {
        if can {
          NextIndex(FatOf(g, uf.view), chain, prev, c, ClusterIndex(g, endPos) - nclusters);
        }
        var next := ReadFat(uf, c);
        if next.Err? {
          return Err(next.error);
        }
        prev, c, nclusters := c, next.value, nclusters - 1;
      }
      prevCluster, curCluster, curPos := prev, c, endPos;
      return Ok(());
    }

    /** Makes the last cluster of the file, or the directory entry of an empty file, point to `c`. */
    method PointTo(c: Cluster) returns (r: Result<()>)
      requires Mounted() && (IsPtr(prevCluster) ==> prevCluster < uf.bpb.numClusters)
      requires Decode(uf.bpb.fatType, Encode(uf.bpb.fatType, c)) == c
      modifies this`start, uf.Objects()
      ensures Mounted() && old(uf.dev.failures) <= uf.dev.failures
      ensures r.Err? ==> r.error == IoError && old(uf.dev.failures) < uf.dev.failures
      ensures IsPtr(prevCluster) ==>
                var was, now := FatOf(uf.bpb, old(uf.view)), FatOf(uf.bpb, uf.view);
                && start == old(start) && SameOutsideFat(uf.bpb, old(uf.view), uf.view)
                && (forall j | 0 <= j < |was| && j != prevCluster :: now[j] == was[j])
                && (r.Ok? ==> now == was[prevCluster := c])
      ensures !IsPtr(prevCluster) && r.Err? ==> uf.view == old(uf.view)
      ensures !IsPtr(prevCluster) && r.Ok? ==>
                start == c && uf.view == old(uf.view)[direntBlock := WithStart(old(uf.view)[direntBlock], direntPos, c)]
    {
      hide Ufat.CoherentBut, FatOf, Bpb.Fits, WithStart, Decode, Encode;
      if IsPtr(prevCluster) {
        r := WriteFat(uf, prevCluster, c);
      } else {
        r := SetStart(c);
      }
    }

    /** Releases the cluster that could not be linked. The caller does not look at the result. */
    method Undo(c: Cluster, ghost v0: seq<Block>, ghost v1: seq<Block>, ghost start0: Cluster)
      requires Mounted() && Volume(uf.bpb, v0) && Volume(uf.bpb, v1) && SameOutsideFat(uf.bpb, v0, v1)
      requires FileOk(uf.bpb, v0, chain, start0, fileSize, direntBlock, direntPos)
      requires Linked(uf.bpb.fatType, FatOf(uf.bpb, v0), FatOf(uf.bpb, v1), [c])
      requires SameOutsideFat(uf.bpb, v1, uf.view)
      requires forall j | 0 <= j < uf.bpb.numClusters && (chain == [] || j != chain[|chain| - 1]) ::
                 FatOf(uf.bpb, uf.view)[j] == FatOf(uf.bpb, v1)[j]
      modifies uf.Objects()
      ensures Mounted() && old(uf.dev.failures) <= uf.dev.failures
      ensures Protected(uf.bpb, v0, uf.view, chain, direntBlock, direntPos)
    {
      hide Ufat.CoherentBut, FatOf, Bpb.Fits, Linked, FileOk, Protected;
      ghost var v2 := uf.view;
      var _ := FreeChain(uf, c);
      LinkLost(uf.bpb, v0, v1, v2, uf.view, chain, start0, fileSize, direntBlock, direntPos, c);
    }

    /** The second half of ensure_room: links cluster `c`, which has just been allocated, behind the chain.
        `v0` is the view before the allocation. */
    method LinkCluster(c: Cluster, ghost v0: seq<Block>) returns (r: Result<()>)
      requires Mounted() && Volume(uf.bpb, v0)
      requires FileOk(uf.bpb, v0, chain, start, fileSize, direntBlock, direntPos)
      requires PosOk(uf.bpb, chain + [c], prevCluster, c, curPos)
      requires if chain == [] then !IsPtr(prevCluster)
               else IsPtr(prevCluster) && prevCluster == chain[|chain| - 1] && prevCluster < uf.bpb.numClusters
      requires Decode(uf.bpb.fatType, Encode(uf.bpb.fatType, c)) == c
      requires SameOutsideFat(uf.bpb, v0, uf.view)
      requires Linked(uf.bpb.fatType, FatOf(uf.bpb, v0), FatOf(uf.bpb, uf.view), [c])
      modifies this`start, this`curCluster, this`chain, uf.Objects()
      ensures Mounted() && old(uf.dev.failures) <= uf.dev.failures
      ensures r.Err? ==> r.error == IoError && old(uf.dev.failures) < uf.dev.failures && chain == old(chain)
      ensures r.Ok? ==> Sound() && chain == old(chain) + [c] && SameBytes(uf.bpb, v0, old(chain), uf.view, chain)
      ensures Protected(uf.bpb, v0, uf.view, old(chain), direntBlock, direntPos)
    {
      hide Ufat.CoherentBut, FatOf, Bpb.Fits, IsChain, ClusterIndex, Allocatable, WithStart, ByteAt, DirentStart,
        DirentSize, BlockCluster, Decode, Encode, Protected, SameBytes, AtIndex, FileOk, Linked, PosOk, Volume, Sized,
        Ufat.MirroredBut, Device.Valid;
      ghost var g, v1, start0 := uf.bpb, uf.view, start;
      var link := PointTo(c);
      if link.Err? {
        Undo(c, v0, v1, start0);
        return Err(link.error);
      }
      RoomMade(g, v0, v1, uf.view, chain, start0, start, fileSize, direntBlock, direntPos, c);
      curCluster := c;
      chain := chain + [c];
      return Ok(());
    }

    /** ensure_room: makes sure that the position lies in a cluster, by appending one to the chain if need be.
        Without device refusals it fails only when no cluster can be allocated, and then nothing has changed. */
    method EnsureRoom() returns (r: Result<()>)
      requires Sound()
      modifies this`start, this`curCluster, this`chain, uf.Objects()
      ensures Mounted() && old(uf.dev.failures) <= uf.dev.failures
      ensures r.Err? ==> r.error in {NoClusters, IoError}
      ensures r.Ok? || uf.dev.failures == old(uf.dev.failures) ==>
                Sound() && SameBytes(uf.bpb, old(uf.view), old(chain), uf.view, chain)
      ensures r.Ok? ==>
                ClusterIndex(uf.bpb, curPos) < |chain|
                && |chain| == if ClusterIndex(uf.bpb, curPos) == |old(chain)| then |old(chain)| + 1 else |old(chain)|
      ensures r.Err? && uf.dev.failures == old(uf.dev.failures) ==>
                r.error == NoClusters && chain == old(chain) && ClusterIndex(uf.bpb, curPos) == |chain|
                && Allocatable(uf.bpb.fatType, FatOf(uf.bpb, uf.view)) == {}
      ensures Protected(uf.bpb, old(uf.view), uf.view, old(chain), direntBlock, direntPos)
      ensures OwnOrFree(uf.bpb, old(uf.view), old(chain), chain)
    {
      hide Ufat.CoherentBut, FatOf, Bpb.Fits, IsChain, ClusterIndex, Allocatable, ByteAt, DirentStart, DirentSize,
        BlockCluster, Protected, SameBytes;
      ghost var g, v0 := uf.bpb, uf.view;
      Shape(g, v0);
      Unchanged(g, v0, chain, start, fileSize, direntBlock, direntPos);
      if IsPtr(curCluster) {
        return Ok(());
      }
      Standing(g, v0, chain, prevCluster, curCluster, curPos);
      var c, added := AllocChain(uf, 1);
      if c.Err? {
        OnlyFreeTouched(g, v0, uf.view, chain, start, fileSize, direntBlock, direntPos);
        return Err(c.error);
      }
      assert added == [c.value] && c.value in added;
      AllocatedSurvives(g, v0, c.value);
      PosAtEnd(g, FatOf(g, v0), chain, prevCluster, curCluster, curPos, c.value);
      r := LinkCluster(c.value, v0);
    }

    /** The bytes of a block from the position on, read through the cache. */
    method PeekHere(n: nat) returns (r: Result<seq<byte>>)
      requires Sound() && ClusterIndex(uf.bpb, curPos) < |chain|
      requires 0 < n && curPos % uf.bpb.blockSize + n <= uf.bpb.blockSize
      modifies uf.Objects()
      ensures Sound() && uf.view == old(uf.view) && uf.allocPtr == old(uf.allocPtr)
      ensures old(uf.dev.failures) <= uf.dev.failures
      ensures r.Err? ==> r.error == IoError && old(uf.dev.failures) < uf.dev.failures
      ensures DataClusters(uf.bpb, chain) && Holds(uf.bpb, chain, curPos + n)
      ensures r.Ok? ==> |r.value| == n && ReadOff(uf.bpb, uf.view, chain, curPos, r.value)
    {
      hide Ufat.CoherentBut, FatOf, Bpb.Fits, IsChain, ClusterIndex, DirentStart, DirentSize, BlockCluster, FileBlock,
        ClusterBlock, ByteAt, FileOk, PosOk, AtIndex, Holds, ReadOff, Volume, Sized;
      var g := uf.bpb;
      SoundFacts();
      Shape(g, uf.view);
      FileOkFacts(g, uf.view, chain, start, fileSize, direntBlock, direntPos);
      Standing(g, uf.view, chain, prevCluster, curCluster, curPos);
      FragmentRead(g, uf.view, chain, curPos, n);
      var offset := curPos % g.blockSize;
      var curBlock := ClusterBlock(g, curCluster) + curPos / g.blockSize % g.blocksPerCluster;
      var i := uf.Open(curBlock, false);
      if i.Err? {
        return Err(i.error);
      }
      r := Ok(uf.cacheData[i.value][offset..offset + n]);
    }

    /** read_block_fragment */
    method ReadBlockFragment(size: nat) returns (r: Result<seq<byte>>)
      requires Sound() && InReach(uf.bpb, chain, curPos, size)
      modifies this`prevCluster, this`curCluster, this`curPos, uf.Objects()
      ensures Sound() && uf.view == old(uf.view) && uf.allocPtr == old(uf.allocPtr)
      ensures chain == old(chain) && fileSize == old(fileSize)
      ensures old(uf.dev.failures) <= uf.dev.failures
      ensures r.Err? ==> curPos == old(curPos)
      ensures r == Err(InvalidCluster) ==> ClusterIndex(uf.bpb, curPos) == |chain| && size > 0
      ensures r.Err? && r.error != InvalidCluster ==> r.error == IoError && old(uf.dev.failures) < uf.dev.failures
      ensures r.Ok? ==> |r.value| <= size && curPos == old(curPos) + |r.value|
      ensures r.Ok? ==> |r.value| == size || Aligned(uf.bpb, curPos)
      ensures r.Ok? && old(Aligned(uf.bpb, curPos)) && size < uf.bpb.blockSize ==> |r.value| == size
      ensures size == 0 ==> r == Ok([])
      ensures r.Ok? ==> InReach(uf.bpb, chain, curPos, size - |r.value|)
      ensures AtChainEnd(uf.bpb, chain, old(curPos)) ==>
                r == if FragmentSize(uf.bpb, curPos, size) == 0 then Ok([]) else Err(InvalidCluster)
      ensures DataClusters(uf.bpb, chain)
      ensures r.Ok? ==> ReadOff(uf.bpb, uf.view, chain, old(curPos), r.value)
    {
      hide *;
      var g := uf.bpb;
      SoundFacts();
      FileOkFacts(g, uf.view, chain, start, fileSize, direntBlock, direntPos);
      Standing(g, uf.view, chain, prevCluster, curCluster, curPos);
      NothingRead(g, uf.view, chain, curPos);
      EndIs(g, chain, curPos);
      FragmentCovers(uf.bpb, curPos, size);
      var n := FragmentSize(uf.bpb, curPos, size);
      if n == 0 {
        return Ok([]);
      }
      if !IsPtr(curCluster) {
        return Err(InvalidCluster);
      }
      var bytes := PeekHere(n);
      if bytes.Err? {
        return Err(bytes.error);
      }
      ReachStep(g, chain, curPos, n, size);
      CanAdvanceHere(n);
      var a := AdvancePtr(n);
      if a.Err? {
        return Err(a.error);
      }
      return bytes;
    }

    /** Stores bytes at the position, inside one block that is already there. `v0` and `chain0` are the view and the
        chain before the block was made sure of. */
    method PatchHere(bytes: seq<byte>, ghost v0: seq<Block>, ghost chain0: seq<Cluster>) returns (r: Result<()>)
      requires Sound() && ClusterIndex(uf.bpb, curPos) < |chain|
      requires bytes != [] && curPos % uf.bpb.blockSize + |bytes| <= uf.bpb.blockSize
      requires Volume(uf.bpb, v0) && direntBlock < |v0|
      requires Protected(uf.bpb, v0, uf.view, chain0, direntBlock, direntPos)
      requires SameBytes(uf.bpb, v0, chain0, uf.view, chain) && OwnOrFree(uf.bpb, v0, chain0, chain)
      modifies uf.Objects()
      ensures Mounted() && old(uf.dev.failures) <= uf.dev.failures
      ensures r.Err? ==> r.error == IoError && old(uf.dev.failures) < uf.dev.failures
      ensures r.Ok? ==>
                && Sound() && Wrote(uf.bpb, v0, chain0, uf.view, chain, curPos, bytes)
                && ClusterIndex(uf.bpb, curPos + |bytes| - 1) == ClusterIndex(uf.bpb, curPos)
                && Holds(uf.bpb, chain, curPos + |bytes|)
      ensures Protected(uf.bpb, v0, uf.view, chain0, direntBlock, direntPos)
    {
      hide Ufat.CoherentBut, FatOf, Bpb.Fits, IsChain, ClusterIndex, DirentStart, DirentSize,
        BlockCluster, FileBlock, ClusterBlock, Protected, SameBytes, Wrote, AtIndex, ByteAt, Patch, OwnOrFree;
      var g := uf.bpb;
      ghost var v1 := uf.view;
      Shape(g, v1);
      Standing(g, v1, chain, prevCluster, curCluster, curPos);
      var offset := curPos % g.blockSize;
      var curBlock := ClusterBlock(g, curCluster) + curPos / g.blockSize % g.blocksPerCluster;
      var i := uf.Open(curBlock, false);
      if i.Err? {
        return Err(i.error);
      }
      uf.WriteCached(i.value, offset, bytes);
      Fragment(g, chain, curPos, |bytes|, |v1|);
      FragmentPatch(g, v1, chain, curPos, bytes, uf.view);
      DataStep(g, v0, chain0, v1, chain, uf.view, curPos, bytes, start, fileSize, direntBlock, direntPos);
      return Ok(());
    }

    /** write_block_fragment */
    method WriteBlockFragment(data: seq<byte>) returns (r: Result<nat>)
      requires Sound() && curPos + |data| < 0x1_0000_0000
      modifies this`start, this`chain, this`prevCluster, this`curCluster, this`curPos, uf.Objects()
      ensures Mounted() && old(uf.dev.failures) <= uf.dev.failures
      ensures r.Err? ==> r.error in {NoClusters, IoError}
      ensures r.Ok? || uf.dev.failures == old(uf.dev.failures) ==>
                var done := if r.Ok? then r.value else 0;
                && done <= |data| && Sound() && fileSize == old(fileSize)
                && curPos == old(curPos) + done
                && Progress(uf.bpb, old(uf.view), old(chain), uf.view, chain, old(curPos), data[..done], curPos,
                    direntBlock, direntPos)
      ensures r.Ok? ==> r.value == |data| || Aligned(uf.bpb, curPos)
      ensures r.Ok? && old(Aligned(uf.bpb, curPos)) && |data| < uf.bpb.blockSize ==> r.value == |data|
      ensures r.Err? && uf.dev.failures == old(uf.dev.failures) ==>
                r.error == NoClusters && 0 < |data| && ClusterIndex(uf.bpb, curPos) == |chain|
                && Allocatable(uf.bpb.fatType, FatOf(uf.bpb, uf.view)) == {}
      ensures Protected(uf.bpb, old(uf.view), uf.view, old(chain), direntBlock, direntPos)
      ensures OwnOrFree(uf.bpb, old(uf.view), old(chain), chain)
    {
      hide LinksFollowed;
      hide Ufat.CoherentBut, FatOf, Bpb.Fits, IsChain, ClusterIndex, DirentStart, DirentSize, BlockCluster, FileBlock,
        ClusterBlock, FragmentSize, Protected, SameBytes, Wrote, AtIndex, Allocatable, ByteAt, Patch;
      ghost var g, v0, chain0 := uf.bpb, uf.view, chain;
      Shape(g, v0);
      FragmentCovers(uf.bpb, curPos, |data|);
      var n := FragmentSize(uf.bpb, curPos, |data|);
      assert data[..0] == [];
      if n == 0 {
        Unchanged(g, v0, chain, start, fileSize, direntBlock, direntPos);
        WroteNothing(g, v0, chain, v0, chain, curPos);
        return Ok(0);
      }
      var room := EnsureRoom();
      if room.Err? {
        if uf.dev.failures == old(uf.dev.failures) {
          WroteNothing(g, v0, chain0, uf.view, chain, curPos);
        }
        return Err(room.error);
      }
      var stored := PatchHere(data[..n], v0, chain0);
      if stored.Err? {
        return Err(stored.error);
      }
      var a := AdvancePtr(n);
      if a.Err? {
        return Err(a.error);
      }
      return Ok(n);
    }

    /** The bytes of whole blocks from the position on, read past the cache. */
    method PeekRun(m: nat, ghost n: nat) returns (r: Result<seq<byte>>)
      requires Sound() && ClusterIndex(uf.bpb, curPos) < |chain|
      requires RunInCluster(uf.bpb, curPos, m) && n == m * uf.bpb.blockSize
      modifies uf.Objects()
      ensures Sound() && uf.view == old(uf.view) && uf.allocPtr == old(uf.allocPtr)
      ensures old(uf.dev.failures) <= uf.dev.failures
      ensures r.Err? ==> r.error == IoError && old(uf.dev.failures) < uf.dev.failures
      ensures DataClusters(uf.bpb, chain) && Holds(uf.bpb, chain, curPos + n)
      ensures r.Ok? ==> |r.value| == n && ReadOff(uf.bpb, uf.view, chain, curPos, r.value)
    {
      hide Ufat.CoherentBut, FatOf, Bpb.Fits, IsChain, ClusterIndex, DirentStart, DirentSize, BlockCluster, FileBlock,
        ClusterBlock, ByteAt, FileOk, PosOk, AtIndex, Holds, ReadOff, Volume, Sized, Joined;
      var g := uf.bpb;
      SoundFacts();
      Shape(g, uf.view);
      FileOkFacts(g, uf.view, chain, start, fileSize, direntBlock, direntPos);
      Standing(g, uf.view, chain, prevCluster, curCluster, curPos);
      RunParts(g, curPos, m);
      RunOff(g, uf.view, chain, curPos, m);
      var first := ClusterBlock(g, curCluster) + curPos / g.blockSize % g.blocksPerCluster;
      var e := uf.Evict(first, m);
      if e.Err? {
        return Err(e.error);
      }
      var blocks := uf.ReadAround(first, m);
      if blocks.Err? {
        return Err(blocks.error);
      }
      r := Ok(Joined(blocks.value, g.blockSize));
    }

    /** read_blocks */
    method ReadBlocks(size: nat) returns (r: Result<seq<byte>>)
      requires Sound() && InReach(uf.bpb, chain, curPos, size)
      requires Aligned(uf.bpb, curPos) || size < uf.bpb.blockSize
      modifies this`prevCluster, this`curCluster, this`curPos, uf.Objects()
      ensures Sound() && uf.view == old(uf.view) && uf.allocPtr == old(uf.allocPtr)
      ensures chain == old(chain) && fileSize == old(fileSize)
      ensures old(uf.dev.failures) <= uf.dev.failures
      ensures r.Err? ==> curPos == old(curPos)
      ensures r == Err(InvalidCluster) ==> ClusterIndex(uf.bpb, curPos) == |chain| && size > 0
      ensures r.Err? && r.error != InvalidCluster ==> r.error == IoError && old(uf.dev.failures) < uf.dev.failures
      ensures r.Ok? ==> |r.value| <= size && curPos == old(curPos) + |r.value|
      ensures r.Ok? ==> (r.value == [] <==> size < uf.bpb.blockSize)
      ensures old(Aligned(uf.bpb, curPos)) ==> Aligned(uf.bpb, curPos)
      ensures size < uf.bpb.blockSize ==> r == Ok([])
      ensures r.Ok? ==> InReach(uf.bpb, chain, curPos, size - |r.value|)
      ensures AtChainEnd(uf.bpb, chain, old(curPos)) ==>
                r == if size < uf.bpb.blockSize then Ok([]) else Err(InvalidCluster)
      ensures DataClusters(uf.bpb, chain)
      ensures r.Ok? ==> ReadOff(uf.bpb, uf.view, chain, old(curPos), r.value)
    {
      hide *;
      var g := uf.bpb;
      SoundFacts();
      FileOkFacts(g, uf.view, chain, start, fileSize, direntBlock, direntPos);
      Standing(g, uf.view, chain, prevCluster, curCluster, curPos);
      NothingRead(g, uf.view, chain, curPos);
      EndIs(g, chain, curPos);
      RunFits(uf.bpb, curPos, size);
      var m := RunLength(uf.bpb, curPos, size);
      if m == 0 {
        return Ok([]);
      }
      if !IsPtr(curCluster) {
        return Err(InvalidCluster);
      }
      AlignedIs(g, curPos);
      RunKeepsAligned(g, curPos, m);
      MulMono(1, m, g.blockSize);
      InCluster(g, curPos, m);
      var run := PeekRun(m, m * g.blockSize);
      if run.Err? {
        return Err(run.error);
      }
      ReachStep(g, chain, curPos, m * g.blockSize, size);
      CanAdvanceHere(m * g.blockSize);
      var a := AdvancePtr(m * g.blockSize);
      if a.Err? {
        return Err(a.error);
      }
      return run;
    }

    /** Writes whole blocks at the position, past the cache, inside one cluster that is already there. */
    method StoreRun(data: seq<byte>, m: nat, n: nat, ghost v0: seq<Block>, ghost chain0: seq<Cluster>)
      returns (r: Result<()>)
      requires Sound() && ClusterIndex(uf.bpb, curPos) < |chain| && curPos % uf.bpb.blockSize == 0
      requires 0 < m && curPos / uf.bpb.blockSize % uf.bpb.blocksPerCluster + m <= uf.bpb.blocksPerCluster
      requires 0 < n == m * uf.bpb.blockSize <= |data|
      requires Volume(uf.bpb, v0) && direntBlock < |v0|
      requires Protected(uf.bpb, v0, uf.view, chain0, direntBlock, direntPos)
      requires SameBytes(uf.bpb, v0, chain0, uf.view, chain) && OwnOrFree(uf.bpb, v0, chain0, chain)
      modifies uf.Objects()
      ensures Mounted() && old(uf.dev.failures) <= uf.dev.failures
      ensures r.Err? ==> r.error == IoError && old(uf.dev.failures) < uf.dev.failures
      ensures r.Ok? ==>
                && Sound() && Wrote(uf.bpb, v0, chain0, uf.view, chain, curPos, data[..n])
                && ClusterIndex(uf.bpb, curPos + n - 1) == ClusterIndex(uf.bpb, curPos)
                && Holds(uf.bpb, chain, curPos + n)
      ensures Protected(uf.bpb, v0, uf.view, chain0, direntBlock, direntPos)
    {
      hide Ufat.CoherentBut, FatOf, Bpb.Fits, IsChain, ClusterIndex, DirentStart, DirentSize,
        BlockCluster, FileBlock, ClusterBlock, Protected, SameBytes, Wrote, AtIndex, ByteAt, OwnOrFree, Cut;
      var g := uf.bpb;
      ghost var v1 := uf.view;
      Shape(g, v1);
      Standing(g, v1, chain, prevCluster, curCluster, curPos);
      hide FileOk, PosOk;
      BlockRun(g, chain, curPos, m, |v1|);
      var first := ClusterBlock(g, curCluster) + curPos / g.blockSize % g.blocksPerCluster;
      uf.Invalidate(first, m);
      r := uf.WriteAround(first, Cut(data, g.blockSize, m));
      DataTouched(g, v0, chain0, v1, chain, uf.view, start, fileSize, direntBlock, direntPos);
      if r.Ok? {
        RunWritten(g, v1, chain, curPos, data, m, uf.view);
        DataStep(g, v0, chain0, v1, chain, uf.view, curPos, data[..n], start, fileSize, direntBlock, direntPos);
      }
    }

    /** write_blocks */
    method WriteBlocks(data: seq<byte>) returns (r: Result<nat>)
      requires Sound() && curPos + |data| < 0x1_0000_0000
      requires Aligned(uf.bpb, curPos) || |data| < uf.bpb.blockSize
      modifies this`start, this`chain, this`prevCluster, this`curCluster, this`curPos, uf.Objects()
      ensures Mounted() && old(uf.dev.failures) <= uf.dev.failures
      ensures r.Err? ==> r.error in {NoClusters, IoError}
      ensures r.Ok? || uf.dev.failures == old(uf.dev.failures) ==>
                var done := if r.Ok? then r.value else 0;
                && done <= |data| && Sound() && fileSize == old(fileSize)
                && curPos == old(curPos) + done
                && Progress(uf.bpb, old(uf.view), old(chain), uf.view, chain, old(curPos), data[..done], curPos,
                    direntBlock, direntPos)
      ensures r.Ok? ==> (r.value == 0 <==> |data| < uf.bpb.blockSize)
      ensures old(Aligned(uf.bpb, curPos)) && (r.Ok? || uf.dev.failures == old(uf.dev.failures)) ==>
                Aligned(uf.bpb, curPos)
      ensures r.Err? && uf.dev.failures == old(uf.dev.failures) ==>
                r.error == NoClusters && 0 < |data| && ClusterIndex(uf.bpb, curPos) == |chain|
                && Allocatable(uf.bpb.fatType, FatOf(uf.bpb, uf.view)) == {}
      ensures Protected(uf.bpb, old(uf.view), uf.view, old(chain), direntBlock, direntPos)
      ensures OwnOrFree(uf.bpb, old(uf.view), old(chain), chain)
    {
      hide LinksFollowed;
      hide Ufat.CoherentBut, FatOf, Bpb.Fits, IsChain, ClusterIndex, DirentStart, DirentSize, BlockCluster, FileBlock,
        ClusterBlock, RunLength, Protected, SameBytes, Wrote, AtIndex, Allocatable, ByteAt, Aligned;
      ghost var g, v0, chain0 := uf.bpb, uf.view, chain;
      Shape(g, v0);
      RunFits(uf.bpb, curPos, |data|);
      var m := RunLength(uf.bpb, curPos, |data|);
      assert data[..0] == [];
      if m == 0 {
        Unchanged(g, v0, chain, start, fileSize, direntBlock, direntPos);
        WroteNothing(g, v0, chain, v0, chain, curPos);
        return Ok(0);
      }
      var room := EnsureRoom();
      if room.Err? {
        if uf.dev.failures == old(uf.dev.failures) {
          WroteNothing(g, v0, chain0, uf.view, chain, curPos);
        }
        return Err(room.error);
      }
      var n := m * uf.bpb.blockSize;
      MulMono(1, m, uf.bpb.blockSize);
      AlignedIs(g, curPos);
      RunKeepsAligned(g, curPos, m);
      var stored := StoreRun(data, m, n, v0, chain0);
      if stored.Err? {
        return Err(stored.error);
      }
      var a := AdvancePtr(n);
      if a.Err? {
        return Err(a.error);
      }
      return Ok(n);
    }

    /** One round of the loop of ufat_file_read: `buf` holds the bytes read since `pos0`. */
    method ReadOnto(size: nat, ghost pos0: nat, buf: seq<byte>) returns (r: Result<bool>, longer: seq<byte>)
      requires Sound() && InReach(uf.bpb, chain, curPos, size) && curPos == pos0 + |buf|
      requires Aligned(uf.bpb, curPos) || size < uf.bpb.blockSize
      requires DataClusters(uf.bpb, chain) && ReadOff(uf.bpb, uf.view, chain, pos0, buf)
      modifies this`prevCluster, this`curCluster, this`curPos, uf.Objects()
      ensures Sound() && uf.view == old(uf.view)
      ensures chain == old(chain) && fileSize == old(fileSize)
      ensures old(uf.dev.failures) <= uf.dev.failures
      ensures curPos == pos0 + |longer| && |buf| <= |longer| <= |buf| + size
      ensures DataClusters(uf.bpb, chain) && ReadOff(uf.bpb, uf.view, chain, pos0, longer)
      ensures r == Err(InvalidCluster) ==> ClusterIndex(uf.bpb, curPos) == |chain| && size > 0
      ensures r.Err? ==> longer == buf
      ensures r.Err? && r.error != InvalidCluster ==> r.error == IoError && old(uf.dev.failures) < uf.dev.failures
      ensures r.Ok? ==> (r.value <==> |buf| < |longer|) && (!r.value <==> size < uf.bpb.blockSize)
      ensures size < uf.bpb.blockSize ==> r == Ok(false) && longer == buf
      ensures r.Ok? ==> InReach(uf.bpb, chain, curPos, |buf| + size - |longer|)
      ensures AtChainEnd(uf.bpb, chain, old(curPos)) ==>
                longer == buf && r == if size < uf.bpb.blockSize then Ok(false) else Err(InvalidCluster)
      ensures old(Aligned(uf.bpb, curPos)) ==> Aligned(uf.bpb, curPos)
    {
      hide *;
      SoundFacts();
      ghost var mid := curPos;
      var run := ReadBlocks(size);
      if run.Err? {
        return Err(run.error), buf;
      }
      ReadMore(uf.bpb, uf.view, chain, pos0, buf, mid, run.value);
      return Ok(run.value != []), buf + run.value;
    }

    /** The loop of ufat_file_read over the whole blocks. */
    method ReadRuns(size: nat) returns (r: Result<()>, buf: seq<byte>)
      requires Sound() && InReach(uf.bpb, chain, curPos, size)
      requires Aligned(uf.bpb, curPos) || size < uf.bpb.blockSize
      modifies this`prevCluster, this`curCluster, this`curPos, uf.Objects()
      ensures Sound() && uf.view == old(uf.view) && DataClusters(uf.bpb, chain)
      ensures chain == old(chain) && fileSize == old(fileSize)
      ensures old(uf.dev.failures) <= uf.dev.failures
      ensures |buf| <= size && curPos == old(curPos) + |buf| && ReadOff(uf.bpb, uf.view, chain, old(curPos), buf)
      ensures r == Err(InvalidCluster) ==> ClusterIndex(uf.bpb, curPos) == |chain| && |buf| < size
      ensures r.Err? && r.error != InvalidCluster ==> r.error == IoError && old(uf.dev.failures) < uf.dev.failures
      ensures size < uf.bpb.blockSize ==> r == Ok(()) && buf == []
      ensures r.Ok? ==> InReach(uf.bpb, chain, curPos, size - |buf|)
      ensures AtChainEnd(uf.bpb, chain, old(curPos)) ==>
                buf == [] && r == if size < uf.bpb.blockSize then Ok(()) else Err(InvalidCluster)
      ensures r.Ok? ==> size - |buf| < uf.bpb.blockSize
      ensures r.Ok? ==> Aligned(uf.bpb, curPos) || curPos == old(curPos)
    {
      hide *;
      ghost var g, pos0 := uf.bpb, curPos;
      SoundFacts();
      FileOkFacts(g, uf.view, chain, start, fileSize, direntBlock, direntPos);
      buf := [];
      NothingRead(g, uf.view, chain, curPos);
      var more := true;
      while more
        invariant Sound() && uf.view == old(uf.view) && Volume(g, uf.view) && DataClusters(g, chain)
        invariant chain == old(chain) && fileSize == old(fileSize)
        invariant old(uf.dev.failures) <= uf.dev.failures
        invariant |buf| <= size && curPos == pos0 + |buf| && ReadOff(g, uf.view, chain, pos0, buf)
        invariant Aligned(g, curPos) || (size - |buf| < g.blockSize && curPos == pos0)
        invariant !more ==> size - |buf| < g.blockSize
        invariant size < g.blockSize ==> buf == []
        invariant InReach(g, chain, curPos, size - |buf|)
        invariant AtChainEnd(g, chain, pos0) ==> buf == [] && (!more ==> size < g.blockSize)
        decreases size - |buf|, more
      {
        var run;
        run, buf := ReadOnto(size - |buf|, pos0, buf);
        if run.Err? {
          return Err(run.error), buf;
        }
        more := run.value;
      }
      return Ok(()), buf;
    }

    /** A fragment read of ufat_file_read: `buf` holds the bytes read since `pos0`. */
    method ReadFragmentOnto(size: nat, ghost pos0: nat, buf: seq<byte>) returns (r: Result<()>, longer: seq<byte>)
      requires Sound() && InReach(uf.bpb, chain, curPos, size) && curPos == pos0 + |buf|
      requires DataClusters(uf.bpb, chain) && ReadOff(uf.bpb, uf.view, chain, pos0, buf)
      modifies this`prevCluster, this`curCluster, this`curPos, uf.Objects()
      ensures Sound() && uf.view == old(uf.view)
      ensures chain == old(chain) && fileSize == old(fileSize)
      ensures old(uf.dev.failures) <= uf.dev.failures
      ensures curPos == pos0 + |longer| && |buf| <= |longer| <= |buf| + size
      ensures DataClusters(uf.bpb, chain) && ReadOff(uf.bpb, uf.view, chain, pos0, longer)
      ensures r == Err(InvalidCluster) ==> ClusterIndex(uf.bpb, curPos) == |chain| && size > 0
      ensures r.Err? ==> longer == buf
      ensures r.Err? && r.error != InvalidCluster ==> r.error == IoError && old(uf.dev.failures) < uf.dev.failures
      ensures size == 0 ==> r == Ok(()) && longer == buf
      ensures r.Ok? ==> InReach(uf.bpb, chain, curPos, |buf| + size - |longer|)
      ensures AtChainEnd(uf.bpb, chain, old(curPos)) ==>
                longer == buf && r == if FragmentSize(uf.bpb, curPos, size) == 0 then Ok(()) else Err(InvalidCluster)
      ensures r.Ok? ==> |longer| == |buf| + size || Aligned(uf.bpb, curPos)
      ensures r.Ok? && old(Aligned(uf.bpb, curPos)) && size < uf.bpb.blockSize ==> |longer| == |buf| + size
    {
      hide *;
      SoundFacts();
      ghost var mid := curPos;
      var part := ReadBlockFragment(size);
      if part.Err? {
        return Err(part.error), buf;
      }
      ReadMore(uf.bpb, uf.view, chain, pos0, buf, mid, part.value);
      return Ok(()), buf + part.value;
    }

    /** The three parts of ufat_file_read. */
    method ReadAll(total: nat) returns (r: Result<()>, buf: seq<byte>)
      requires Sound() && InReach(uf.bpb, chain, curPos, total)
      modifies this`prevCluster, this`curCluster, this`curPos, uf.Objects()
      ensures Sound() && uf.view == old(uf.view) && DataClusters(uf.bpb, chain)
      ensures chain == old(chain) && fileSize == old(fileSize)
      ensures old(uf.dev.failures) <= uf.dev.failures
      ensures |buf| <= total && curPos == old(curPos) + |buf| && ReadOff(uf.bpb, uf.view, chain, old(curPos), buf)
      ensures r == Err(InvalidCluster) ==> ClusterIndex(uf.bpb, curPos) == |chain| && |buf| < total
      ensures r.Err? && r.error != InvalidCluster ==> r.error == IoError && old(uf.dev.failures) < uf.dev.failures
      ensures r.Ok? ==> |buf| == total
      ensures total == 0 ==> r == Ok(()) && buf == []
      ensures AtChainEnd(uf.bpb, chain, old(curPos)) && 0 < total ==> r == Err(InvalidCluster) && buf == []
    {
      hide *;
      ghost var g, pos0 := uf.bpb, curPos;
      SoundFacts();
      FileOkFacts(g, uf.view, chain, start, fileSize, direntBlock, direntPos);
      PosFacts(g, chain, prevCluster, curCluster, curPos);
      NothingRead(g, uf.view, chain, curPos);
      if AtChainEnd(g, chain, curPos) {
        EndNeedsCluster(g, chain, curPos, total);
      }
      r, buf := ReadFragmentOnto(total, pos0, []);
      if r.Err? {
        return;
      }
      var more;
      ghost var done, mid := buf, curPos;
      r, more := ReadRuns(total - |buf|);
      ReadMore(g, uf.view, chain, pos0, done, mid, more);
      buf := buf + more;
      if r.Err? {
        return;
      }
      r, buf := ReadFragmentOnto(total - |buf|, pos0, buf);
    }

    /** ufat_file_read: the next bytes of the file, as many as are asked for and there. That holds exactly when the
        position is inside the file or nothing is asked for: behind the end the limit wraps around, and what is read is
        what the clusters hold there, or there is no cluster. */
    method Read(size: uint32) returns (r: Result<int>, buf: seq<byte>)
      requires Sound() && (curPos <= fileSize || |chain| <= ClusterIndex(uf.bpb, 0xffff_ffff))
      modifies this`prevCluster, this`curCluster, this`curPos, uf.Objects()
      ensures Sound() && uf.view == old(uf.view) && chain == old(chain) && fileSize == old(fileSize)
      ensures old(uf.dev.failures) <= uf.dev.failures
      ensures r.Err? && r.error != InvalidCluster ==> r.error == IoError && old(uf.dev.failures) < uf.dev.failures
      ensures DataClusters(uf.bpb, chain) && ReadOff(uf.bpb, uf.view, chain, old(curPos), buf)
      ensures curPos == old(curPos) + |buf|
      ensures r.Ok? ==> |buf| == ReadLimit(fileSize, old(curPos), size) && r.value == AsInt(|buf|)
      // Inside the file
      ensures old(curPos) <= fileSize ==>
                && curPos <= fileSize && buf == Contents()[old(curPos)..curPos]
                && r != Err(InvalidCluster)
      ensures size == 0 ==> r == Ok(0) && buf == []
      // Behind its end
      ensures fileSize < old(curPos) && AtChainEnd(uf.bpb, chain, old(curPos)) && 0 < size ==>
                r == Err(InvalidCluster) && buf == []
      ensures uf.dev.failures == old(uf.dev.failures) ==>
                (r.Ok? && |buf| == Available(fileSize, old(curPos), size) <==> old(curPos) <= fileSize || size == 0)
    {
      hide *;
      SoundFacts();
      FileOkFacts(uf.bpb, uf.view, chain, start, fileSize, direntBlock, direntPos);
      HoldsAll(uf.bpb, chain, fileSize);
      ReadLimitExact(fileSize, curPos, size);
      LimitReach(uf.bpb, chain, fileSize, curPos, size);
      var total := ReadLimit(fileSize, curPos, size);
      var done;
      done, buf := ReadAll(total);
      if old(curPos) <= fileSize {
        ReadContents(uf.bpb, uf.view, chain, fileSize, old(curPos), buf, curPos);
      }
      ContentsFacts();
      r := if done.Err? then Err(done.error) else Ok(AsInt(total));
    }

    /** `done` was written at `pos0` since the view was `v0` and the clusters were `chain0`. */
    ghost predicate Since(v0: seq<Block>, chain0: seq<Cluster>, pos0: nat, done: seq<byte>)
      reads this, uf.Objects()
    {
      && Sound() && Volume(uf.bpb, v0) && direntBlock < |v0| == |uf.view|
      && Progress(uf.bpb, v0, chain0, uf.view, chain, pos0, done, curPos, direntBlock, direntPos)
    }

    /** A fragment write of ufat_file_write, after the first `n` bytes of the data have been written at `pos0`. */
    method WriteFragmentOnto(data: seq<byte>, n: nat, ghost v0: seq<Block>, ghost chain0: seq<Cluster>, ghost pos0: nat)
      returns (r: Result<()>, n': nat)
      requires n <= |data| && Since(v0, chain0, pos0, data[..n]) && curPos + (|data| - n) < 0x1_0000_0000
      modifies this`start, this`chain, this`prevCluster, this`curCluster, this`curPos, uf.Objects()
      ensures Mounted() && old(uf.dev.failures) <= uf.dev.failures && |uf.view| == |v0|
      ensures r.Err? ==> r.error in {NoClusters, IoError}
      ensures n <= n' <= |data| && (r.Err? ==> n' == n)
      ensures r.Ok? || uf.dev.failures == old(uf.dev.failures) ==>
                Since(v0, chain0, pos0, data[..n']) && curPos == old(curPos) + (n' - n) && fileSize == old(fileSize)
      ensures r.Ok? ==> n' == |data| || Aligned(uf.bpb, curPos)
      ensures r.Ok? && old(Aligned(uf.bpb, curPos)) && |data| - n < uf.bpb.blockSize ==> n' == |data|
      ensures r.Err? && uf.dev.failures == old(uf.dev.failures) ==>
                r.error == NoClusters && n < |data| && ClusterIndex(uf.bpb, curPos) == |chain|
                && Allocatable(uf.bpb.fatType, FatOf(uf.bpb, uf.view)) == {}
      ensures Protected(uf.bpb, v0, uf.view, chain0, direntBlock, direntPos) && OwnOrFree(uf.bpb, v0, chain0, chain)
    {
      ghost var g, v1, chain1, pos1 := uf.bpb, uf.view, chain, curPos;
      SinceFacts(v0, chain0, pos0, data[..n]);
      hide *;
      var rest := data[n..];
      var w := WriteBlockFragment(rest);
      r := if w.Ok? then Ok(()) else Err(w.error);
      n' := if w.Ok? then n + w.value else n;
      if w.Ok? || uf.dev.failures == old(uf.dev.failures) {
        ProgressOn(g, v0, chain0, v1, chain1, uf.view, chain, pos0, data, n, pos1, rest,
          if w.Ok? then w.value else 0, n', curPos, direntBlock, direntPos);
      } else {
        ProtectedBoth(g, v0, chain0, v1, chain1, uf.view, direntBlock, direntPos);
        OwnOrFreeBoth(g, v0, chain0, v1, chain1, chain, direntBlock, direntPos);
      }
    }

    /** One round of the loop of ufat_file_write, after the first `n` bytes of the data have been written at `pos0`. */
    method WriteRunOnto(data: seq<byte>, n: nat, ghost v0: seq<Block>, ghost chain0: seq<Cluster>, ghost pos0: nat)
      returns (r: Result<()>, n': nat)
      requires n <= |data| && Since(v0, chain0, pos0, data[..n]) && curPos + (|data| - n) < 0x1_0000_0000
      requires Aligned(uf.bpb, curPos) || |data| - n < uf.bpb.blockSize
      modifies this`start, this`chain, this`prevCluster, this`curCluster, this`curPos, uf.Objects()
      ensures Mounted() && old(uf.dev.failures) <= uf.dev.failures && |uf.view| == |v0|
      ensures r.Err? ==> r.error in {NoClusters, IoError}
      ensures n <= n' <= |data| && (r.Err? ==> n' == n)
      ensures r.Ok? || uf.dev.failures == old(uf.dev.failures) ==>
                Since(v0, chain0, pos0, data[..n']) && curPos == old(curPos) + (n' - n) && fileSize == old(fileSize)
      ensures r.Ok? ==> (n' == n <==> |data| - n < uf.bpb.blockSize)
      ensures old(Aligned(uf.bpb, curPos)) && r.Ok? ==> Aligned(uf.bpb, curPos)
      ensures r.Err? && uf.dev.failures == old(uf.dev.failures) ==>
                r.error == NoClusters && n < |data| && ClusterIndex(uf.bpb, curPos) == |chain|
                && Allocatable(uf.bpb.fatType, FatOf(uf.bpb, uf.view)) == {}
      ensures Protected(uf.bpb, v0, uf.view, chain0, direntBlock, direntPos) && OwnOrFree(uf.bpb, v0, chain0, chain)
    {
      ghost var g, v1, chain1, pos1 := uf.bpb, uf.view, chain, curPos;
      SinceFacts(v0, chain0, pos0, data[..n]);
      hide *;
      var rest := data[n..];
      var w := WriteBlocks(rest);
      r := if w.Ok? then Ok(()) else Err(w.error);
      n' := if w.Ok? then n + w.value else n;
      if w.Ok? || uf.dev.failures == old(uf.dev.failures) {
        ProgressOn(g, v0, chain0, v1, chain1, uf.view, chain, pos0, data, n, pos1, rest,
          if w.Ok? then w.value else 0, n', curPos, direntBlock, direntPos);
      } else {
        ProtectedBoth(g, v0, chain0, v1, chain1, uf.view, direntBlock, direntPos);
        OwnOrFreeBoth(g, v0, chain0, v1, chain1, chain, direntBlock, direntPos);
      }
    }

    lemma SinceStart(data: seq<byte>)
      requires Sound()
      ensures Since(uf.view, chain, curPos, data[..0]) && 512 <= uf.bpb.blockSize
    {
      assert data[..0] == [];
      ProgressStart(uf.bpb, uf.view, chain, curPos, start, fileSize, direntBlock, direntPos);
      hide Progress, Ufat.CoherentBut, FatOf, FileOk;
    }

    lemma SinceFacts(v0: seq<Block>, chain0: seq<Cluster>, pos0: nat, done: seq<byte>)
      requires Since(v0, chain0, pos0, done)
      ensures Sound() && Mounted() && |uf.view| == |v0|
      ensures 512 <= uf.bpb.blockSize && 0 < uf.bpb.blocksPerCluster
      ensures Volume(uf.bpb, v0) && Volume(uf.bpb, uf.view) && direntPos * 32 + 32 <= uf.bpb.blockSize
      ensures Progress(uf.bpb, v0, chain0, uf.view, chain, pos0, done, curPos, direntBlock, direntPos)
      ensures OwnOrFree(uf.bpb, v0, chain0, chain) && chain0 <= chain
      ensures Protected(uf.bpb, v0, uf.view, chain0, direntBlock, direntPos)
    {
      hide Ufat.CoherentBut, FatOf, BlockCluster, ByteAt, ClusterIndex, FileOk, PosOk;
    }

    /** The loop of ufat_file_write over the whole blocks, from byte `n0` of the data on. */
    method WriteRuns(data: seq<byte>, n0: nat, ghost v0: seq<Block>, ghost chain0: seq<Cluster>, ghost pos0: nat)
      returns (r: Result<()>, n: nat)
      requires n0 <= |data| && Since(v0, chain0, pos0, data[..n0]) && curPos + (|data| - n0) < 0x1_0000_0000
      requires Aligned(uf.bpb, curPos) || |data| - n0 < uf.bpb.blockSize
      modifies this`start, this`chain, this`prevCluster, this`curCluster, this`curPos, uf.Objects()
      ensures Mounted() && old(uf.dev.failures) <= uf.dev.failures && |uf.view| == |v0|
      ensures r.Err? ==> r.error in {NoClusters, IoError}
      ensures n0 <= n <= |data|
      ensures r.Ok? || uf.dev.failures == old(uf.dev.failures) ==>
                Since(v0, chain0, pos0, data[..n]) && curPos == old(curPos) + (n - n0) && fileSize == old(fileSize)
      ensures r.Ok? ==> |data| - n < uf.bpb.blockSize && (Aligned(uf.bpb, curPos) || n == n0)
      ensures r.Err? && uf.dev.failures == old(uf.dev.failures) ==>
                n < |data| && r.error == NoClusters && ClusterIndex(uf.bpb, curPos) == |chain|
                && Allocatable(uf.bpb.fatType, FatOf(uf.bpb, uf.view)) == {}
      ensures Protected(uf.bpb, v0, uf.view, chain0, direntBlock, direntPos) && OwnOrFree(uf.bpb, v0, chain0, chain)
    {
      SinceFacts(v0, chain0, pos0, data[..n0]);
      hide *;
      n := n0;
      var more := true;
      while more
        invariant n0 <= n <= |data| && curPos == old(curPos) + (n - n0)
        invariant Since(v0, chain0, pos0, data[..n]) && fileSize == old(fileSize)
        invariant old(uf.dev.failures) <= uf.dev.failures && |uf.view| == |v0|
        invariant Aligned(uf.bpb, curPos) || (|data| - n < uf.bpb.blockSize && n == n0)
        invariant !more ==> |data| - n < uf.bpb.blockSize
        decreases |data| - n, more
      {
        var n1 := n;
        r, n := WriteRunOnto(data, n, v0, chain0, pos0);
        if r.Err? {
          return;
        }
        more := n > n1;
      }
      SinceFacts(v0, chain0, pos0, data[..n]);
      return Ok(()), n;
    }

    /** The three parts of ufat_file_write. */
    method WriteAll(data: seq<byte>) returns (r: Result<()>, n: nat)
      requires Sound() && curPos + |data| < 0x1_0000_0000
      modifies this`start, this`chain, this`prevCluster, this`curCluster, this`curPos, uf.Objects()
      ensures Mounted() && old(uf.dev.failures) <= uf.dev.failures && |uf.view| == |old(uf.view)|
      ensures r.Err? ==> r.error in {NoClusters, IoError}
      ensures n <= |data| && (r.Ok? ==> n == |data|)
      ensures r.Ok? || uf.dev.failures == old(uf.dev.failures) ==>
                Since(old(uf.view), old(chain), old(curPos), data[..n]) && curPos == old(curPos) + n
                    && fileSize == old(fileSize)
      ensures r.Err? && uf.dev.failures == old(uf.dev.failures) ==>
                r.error == NoClusters && n < |data| && ClusterIndex(uf.bpb, curPos) == |chain|
                && Allocatable(uf.bpb.fatType, FatOf(uf.bpb, uf.view)) == {}
      ensures Protected(uf.bpb, old(uf.view), uf.view, old(chain), direntBlock, direntPos)
      ensures OwnOrFree(uf.bpb, old(uf.view), old(chain), chain)
    {
      hide *;
      ghost var v0, chain0, pos0 := uf.view, chain, curPos;
      SinceStart(data);
      r, n := WriteFragmentOnto(data, 0, v0, chain0, pos0);
      if r.Err? {
        return;
      }
      r, n := WriteRuns(data, n, v0, chain0, pos0);
      if r.Err? {
        return;
      }
      r, n := WriteFragmentOnto(data, n, v0, chain0, pos0);
    }

    /** ufat_file_write: overwrites the file from the position on, and makes it longer if need be. A position counts
        less than 2^32 bytes, so the data is cut short when the position would pass 2^32 - 1.
        Without device refusals it fails only when the volume is full. Then the handle stands at the end of its last
        cluster, what fitted has been written, and the recorded size is still the old one. */
    method Write(data: seq<byte>) returns (r: Result<int>)
      requires Sound() && |data| < 0x1_0000_0000
      modifies this, uf.Objects()
      ensures Mounted() && old(uf.dev.failures) <= uf.dev.failures && |uf.view| == |old(uf.view)|
      ensures r.Err? ==> r.error in {NoClusters, IoError}
      ensures Protected(uf.bpb, old(uf.view), uf.view, old(chain), direntBlock, direntPos)
      ensures OwnOrFree(uf.bpb, old(uf.view), old(chain), chain)
      ensures
        var bytes := data[..WriteLimit(old(curPos), |data|)];
        && (r.Ok? ==>
              && Sound() && r.value == AsInt(|bytes|) && curPos == old(curPos) + |bytes|
              && fileSize == (if curPos > old(fileSize) then curPos else old(fileSize))
              && Wrote(uf.bpb, old(uf.view), old(chain), uf.view, chain, old(curPos), bytes)
              && GrownAsNeeded(uf.bpb, old(chain), chain, curPos)
              && (old(curPos) <= old(fileSize) ==>
                    Contents() == Overwrite(old(Contents()), old(curPos), bytes)))
        && (r.Err? && uf.dev.failures == old(uf.dev.failures) ==>
              && Sound() && r.error == NoClusters && fileSize == old(fileSize)
              && old(curPos) <= curPos < old(curPos) + |bytes|
              && Wrote(uf.bpb, old(uf.view), old(chain), uf.view, chain, old(curPos), bytes[..curPos - old(curPos)])
              && ClusterIndex(uf.bpb, curPos) == |chain| && Allocatable(uf.bpb.fatType, FatOf(uf.bpb, uf.view)) == {})
    {
      hide *;
      ghost var g, v0, chain0, start0, size0, pos0 := uf.bpb, uf.view, chain, start, fileSize, curPos;
      ContentsFacts();
      SoundFacts();
      var total := WriteLimit(curPos, |data|);
      var bytes := data[..total];
      var done, n := WriteAll(bytes);
      ghost var v1 := uf.view;
      if done.Err? {
        if uf.dev.failures == old(uf.dev.failures) {
          SinceFacts(v0, chain0, pos0, bytes[..n]);
          ProgressParts(g, v0, chain0, v1, chain, pos0, bytes[..n], curPos, direntBlock, direntPos);
        }
        return Err(done.error);
      }
      assert bytes[..n] == bytes;
      SinceFacts(v0, chain0, pos0, bytes);
      SoundFacts();
      if curPos > fileSize {
        var sized := SetSize(curPos);
        MountedFacts();
        if sized.Err? {
          return Err(sized.error);
        }
      }
      MountedFacts();
      WriteDone(g, v0, chain0, start0, size0, v1, chain, uf.view, start, fileSize, pos0, bytes, curPos, direntBlock,
        direntPos);
      SoundAgain();
      ContentsFacts();
      return Ok(AsInt(total));
    }

    /** A position behind the end of the file can be reached: on a full volume a write that does not fit in the last
        cluster leaves it there. From there ufat_file_read reports a missing cluster. */
    method WriteWhenFull(data: seq<byte>) returns (r: Result<int>)
      requires Sound() && |data| < 0x1_0000_0000
      requires Allocatable(uf.bpb.fatType, FatOf(uf.bpb, uf.view)) == {}
      requires fileSize <= curPos && ClusterIndex(uf.bpb, curPos) < |chain|
      requires !Holds(uf.bpb, chain, curPos + WriteLimit(curPos, |data|))
      modifies this, uf.Objects()
      ensures uf.dev.failures == old(uf.dev.failures) ==>
                && r == Err(NoClusters) && Sound() && chain == old(chain)
                && fileSize == old(fileSize) < curPos && AtChainEnd(uf.bpb, chain, curPos)
                && |chain| <= ClusterIndex(uf.bpb, 0xffff_ffff)
    {
      hide *;
      SoundFacts();
      ghost var g, v, chain0, pos0, n := uf.bpb, uf.view, chain, curPos, WriteLimit(curPos, |data|);
      r := Write(data);
      if uf.dev.failures == old(uf.dev.failures) {
        SoundFacts();
        FileOkFacts(g, uf.view, chain, start, fileSize, direntBlock, direntPos);
        PosFacts(g, chain, prevCluster, curCluster, curPos);
        NothingAdded(g, v, chain0, uf.view, chain, pos0, if r.Ok? then data[..n] else data[..n][..curPos - pos0]);
        EndBehind(g, chain, fileSize, pos0, curPos);
      }
    }

    lemma MountedFacts()
      requires Mounted()
      ensures this !in uf.Objects() && uf.Valid() && Volume(uf.bpb, uf.view) && ScanReady(uf)
      ensures uf.bpb.rootStart <= direntBlock < |uf.view| && direntPos * 32 + 32 <= uf.bpb.blockSize
    {
    }

    lemma MountedAgain()
      requires this !in uf.Objects() && uf.Valid() && Volume(uf.bpb, uf.view) && ScanReady(uf)
      requires uf.bpb.rootStart <= direntBlock < |uf.view| && direntPos * 32 + 32 <= uf.bpb.blockSize
      ensures Mounted()
    {
    }

    lemma SoundAgain()
      requires this !in uf.Objects() && uf.Valid() && Volume(uf.bpb, uf.view) && ScanReady(uf)
      requires uf.bpb.rootStart <= direntBlock < |uf.view| && direntPos * 32 + 32 <= uf.bpb.blockSize
      requires FileOk(uf.bpb, uf.view, chain, start, fileSize, direntBlock, direntPos)
      requires 0 < uf.bpb.blockSize && 0 < uf.bpb.blocksPerCluster
      requires PosOk(uf.bpb, chain, prevCluster, curCluster, curPos)
      ensures Mounted() && Sound()
    {
    }

    lemma CanAdvanceHere(n: nat)
      requires Sound() && curPos + n < 0x1_0000_0000
      ensures Mounted() && 0 < uf.bpb.blockSize && 0 < uf.bpb.blocksPerCluster
      ensures Holds(uf.bpb, chain, curPos + n) ==> CanAdvance(n)
    {
    }

    lemma ContentsFacts()
      requires Sound()
      ensures Volume(uf.bpb, uf.view) && DataClusters(uf.bpb, chain)
      ensures 0 < uf.bpb.blockSize && 0 < uf.bpb.blocksPerCluster && Holds(uf.bpb, chain, fileSize)
      ensures Contents() == Bytes(uf.bpb, uf.view, chain, fileSize)
    {
    }

    lemma SoundFacts()
      requires Sound()
      ensures Mounted() && Volume(uf.bpb, uf.view) && direntPos * 32 + 32 <= uf.bpb.blockSize && direntBlock < |uf.view|
      ensures FileOk(uf.bpb, uf.view, chain, start, fileSize, direntBlock, direntPos)
      ensures PosOk(uf.bpb, chain, prevCluster, curCluster, curPos)
      ensures 512 <= uf.bpb.blockSize && 0 < uf.bpb.blocksPerCluster
    {
    }

    /** The first case of ufat_file_truncate: all clusters are released. */
    method TruncateEmpty() returns (r: Result<()>)
      requires Sound() && fileSize == curPos == 0
      modifies this`start, this`curCluster, this`chain, uf.Objects()
      ensures Mounted() && old(uf.dev.failures) <= uf.dev.failures && |uf.view| == |old(uf.view)|
      ensures r.Err? ==> r.error == IoError && old(uf.dev.failures) < uf.dev.failures
      ensures Protected(uf.bpb, old(uf.view), uf.view, old(chain), direntBlock, direntPos)
      ensures r.Ok? ==> Sound() && Shortened(uf.bpb, old(uf.view), old(chain), uf.view, chain, fileSize)
    {
      hide *;
      ghost var g, v0, start0 := uf.bpb, uf.view, start;
      SoundFacts();
      PosAtZero(g, chain, prevCluster, curCluster, curPos);
      var oldStart := start;
      r := SetStart(FREE);
      if r.Err? {
        Unchanged(g, v0, chain, start, fileSize, direntBlock, direntPos);
        return;
      }
      ghost var v1 := uf.view;
      MountedFacts();
      SameAsItself(g, v1);
      if IsPtr(oldStart) {
        r := FreeChain(uf, oldStart);
        SameLength(g, v1, uf.view);
        MountedAgain();
      }
      EmptyCut(g, v0, chain, start0, direntBlock, direntPos, v1, uf.view, fileSize, start, r.Ok?);
      if r.Err? {
        return;
      }
      MountedFacts();
      curCluster, chain := FREE, chain[..0];
      SoundAgain();
    }


    /** The second case of ufat_file_truncate: the current cluster becomes the last. */
    method TruncateInside() returns (r: Result<()>)
      requires Sound() && 0 < fileSize == curPos && curPos % (uf.bpb.blockSize * uf.bpb.blocksPerCluster) != 0
      modifies this`chain, uf.Objects()
      ensures Mounted() && old(uf.dev.failures) <= uf.dev.failures && |uf.view| == |old(uf.view)|
      ensures r.Err? ==> r.error == IoError && old(uf.dev.failures) < uf.dev.failures
      ensures Protected(uf.bpb, old(uf.view), uf.view, old(chain), direntBlock, direntPos)
      ensures r.Ok? ==> Sound() && Shortened(uf.bpb, old(uf.view), old(chain), uf.view, chain, fileSize)
    {
      hide *;
      ghost var g, v0 := uf.bpb, uf.view;
      SoundFacts();
      MountedFacts();
      FileOkFacts(g, v0, chain, start, fileSize, direntBlock, direntPos);
      ghost var keep := ClustersFor(g, curPos);
      PosInside(g, FatOf(g, v0), chain, prevCluster, curCluster, curPos, keep);
      Unchanged(g, v0, chain, start, fileSize, direntBlock, direntPos);
      var tail := ReadFat(uf, curCluster);
      MountedAgain();
      if tail.Err? {
        return Err(tail.error);
      }
      r := WriteFat(uf, curCluster, EOC);
      ghost var v1 := uf.view;
      SameLength(g, v0, v1);
      MountedAgain();
      if r.Err? {
        OwnChainTouched(g, v0, chain, start, fileSize, direntBlock, direntPos, v0, v1);
        return;
      }
      EocSurvives(g.fatType);
      SameAsItself(g, v1);
      if IsPtr(tail.value) {
        r := FreeChain(uf, tail.value);
        SameLength(g, v1, uf.view);
        MountedAgain();
      }
      TailCut(g, v0, chain, start, fileSize, direntBlock, direntPos, keep, curCluster, tail.value, v1, uf.view, r.Ok?);
      if r.Err? {
        return;
      }
      MountedFacts();
      chain := chain[..keep];
      SoundAgain();
    }

    /** The third case of ufat_file_truncate: the cluster before the position becomes the last. The result of the
        release is not looked at. */
    method TruncateBetween() returns (r: Result<()>)
      requires Sound() && 0 < fileSize == curPos && curPos % (uf.bpb.blockSize * uf.bpb.blocksPerCluster) == 0
      modifies this`curCluster, this`chain, uf.Objects()
      ensures Mounted() && old(uf.dev.failures) <= uf.dev.failures && |uf.view| == |old(uf.view)|
      ensures r.Err? ==> r.error == IoError && old(uf.dev.failures) < uf.dev.failures
      ensures Protected(uf.bpb, old(uf.view), uf.view, old(chain), direntBlock, direntPos)
      ensures uf.dev.failures == old(uf.dev.failures) ==>
                Sound() && Shortened(uf.bpb, old(uf.view), old(chain), uf.view, chain, fileSize)
    {
      hide *;
      ghost var g, v0 := uf.bpb, uf.view;
      SoundFacts();
      MountedFacts();
      FileOkFacts(g, v0, chain, start, fileSize, direntBlock, direntPos);
      ghost var keep := ClustersFor(g, curPos);
      PosBetween(g, FatOf(g, v0), chain, prevCluster, curCluster, curPos, keep);
      Unchanged(g, v0, chain, start, fileSize, direntBlock, direntPos);
      if !IsPtr(curCluster) {
        NothingToCut(g, v0, chain, start, fileSize, direntBlock, direntPos, keep);
        return Ok(());
      }
      r := WriteFat(uf, prevCluster, EOC);
      ghost var v1 := uf.view;
      SameLength(g, v0, v1);
      MountedAgain();
      if r.Err? {
        OwnChainTouched(g, v0, chain, start, fileSize, direntBlock, direntPos, v0, v1);
        return;
      }
      EocSurvives(g.fatType);
      SameAsItself(g, v1);
      var freed := FreeChain(uf, curCluster);
      SameLength(g, v1, uf.view);
      MountedAgain();
      TailCut(g, v0, chain, start, fileSize, direntBlock, direntPos, keep, prevCluster, curCluster, v1, uf.view,
        freed.Ok?);
      MountedFacts();
      curCluster, chain := FREE, chain[..keep];
      if freed.Ok? {
        SoundAgain();
      } else {
        MountedAgain();
      }
    }

    /** ufat_file_truncate: the position becomes the end of the file. The bytes before it stay, the clusters that they
        do not need are free again, and nothing else changes. */
    method Truncate() returns (r: Result<()>)
      requires Sound()
      modifies this, uf.Objects()
      ensures Mounted() && old(uf.dev.failures) <= uf.dev.failures && |uf.view| == |old(uf.view)|
      ensures r.Err? ==> r.error == IoError && old(uf.dev.failures) < uf.dev.failures
      ensures Protected(uf.bpb, old(uf.view), uf.view, old(chain), direntBlock, direntPos)
      ensures
        uf.dev.failures == old(uf.dev.failures) ==>
          && Sound() && r.Ok? && fileSize == curPos == old(curPos)
          && TruncatedTo(uf.bpb, old(uf.view), old(chain), uf.view, chain, curPos)
    {
      hide *;
      ghost var g, v0, chain0, start0, size0 := uf.bpb, uf.view, chain, start, fileSize;
      SoundFacts();
      PosFacts(g, chain, prevCluster, curCluster, curPos);
      Unchanged(g, v0, chain, start, fileSize, direntBlock, direntPos);
      var clusterSize := uf.bpb.blockSize * uf.bpb.blocksPerCluster;
      ByteIndex(g, curPos);
      r := SetSize(curPos);
      if r.Err? {
        return;
      }
      ghost var v1 := uf.view;
      MountedFacts();
      Resized(g, v0, chain, v0, chain, v1, start, size0, curPos, direntBlock, direntPos);
      SoundAgain();
      if fileSize == 0 {
        r := TruncateEmpty();
      } else if fileSize % clusterSize != 0 {
        r := TruncateInside();
      } else {
        r := TruncateBetween();
      }
      MountedFacts();
      TruncateDone(g, v0, chain0, v1, uf.view, chain, fileSize, start0, size0, direntBlock, direntPos,
        uf.dev.failures == old(uf.dev.failures));
    }

    /** ufat_file_advance: skips bytes of the file, up to its end. That holds exactly when the position is inside the
        file or nothing is to be skipped. At the end of the last cluster but behind the end of the file, the position
        moves on into no cluster, so that the handle is not sound any more, or the missing cluster is noticed. */
    method Advance(nbytes: uint32) returns (r: Result<()>)
      requires Sound()
      modifies this`prevCluster, this`curCluster, this`curPos, uf.Objects()
      ensures Mounted() && uf.view == old(uf.view) && chain == old(chain) && fileSize == old(fileSize)
      ensures old(uf.dev.failures) <= uf.dev.failures
      ensures r.Err? ==> Sound() && curPos == old(curPos)
      ensures r.Err? && r.error != InvalidCluster ==> r.error == IoError && old(uf.dev.failures) < uf.dev.failures
      // Inside the file
      ensures old(curPos) <= fileSize || nbytes == 0 ==>
                && Sound() && r != Err(InvalidCluster)
                && (r.Ok? ==> curPos == old(curPos) + Available(fileSize, old(curPos), nbytes))
      // Behind its end
      ensures uf.dev.failures == old(uf.dev.failures) ==>
                (old(curPos) <= fileSize || nbytes == 0
                 <==> r.Ok? && curPos == old(curPos) + Available(fileSize, old(curPos), nbytes))
      ensures 0 < uf.bpb.blockSize && 0 < uf.bpb.blocksPerCluster
      ensures fileSize < old(curPos) && AtChainEnd(uf.bpb, chain, old(curPos)) && 0 < nbytes ==>
                var end := (old(curPos) + ReadLimit(fileSize, old(curPos), nbytes)) % 0x1_0000_0000;
                if ClusterIndex(uf.bpb, end) == |chain| then r.Ok? && curPos == end && !Holds(uf.bpb, chain, curPos)
                else uf.bpb.numClusters <= old(curCluster) ==> r == Err(InvalidCluster)
    {
      hide Ufat.CoherentBut, FatOf, Bpb.Fits, IsChain, ClusterIndex, ByteAt, DirentStart, DirentSize, FileOk, PosOk,
        Holds, ReadLimit, Available, Volume;
      SoundFacts();
      FileOkFacts(uf.bpb, uf.view, chain, start, fileSize, direntBlock, direntPos);
      PosFacts(uf.bpb, chain, prevCluster, curCluster, curPos);
      SkipCases(uf.bpb, chain, fileSize, curPos, nbytes);
      ReadLimitExact(fileSize, curPos, nbytes);
      ghost var v := uf.view;
      r := AdvancePtr(ReadLimit(fileSize, curPos, nbytes));
      if r.Err? {
        MountedFacts();
        SoundAgain();
      }
    }
  }

  /** ufat_open_file: a directory is refused. */
  method OpenFile(uf: Ufat, attributes: byte, direntBlock: nat, direntPos: nat, firstCluster: Cluster, fileSize: uint32,
                  ghost chain: seq<Cluster>)
    returns (r: Result<File>)
    requires uf.Valid() && Volume(uf.bpb, uf.view) && ScanReady(uf)
    requires attributes / 0x10 % 2 == 0 ==>
               FileOk(uf.bpb, uf.view, chain, firstCluster, fileSize, direntBlock, direntPos)
    ensures r.Err? <==> attributes / 0x10 % 2 == 1
    ensures r.Err? ==> r.error == NotFile
    ensures r.Ok? ==>
              var f := r.value;
              && fresh(f) && f.Sound() && f.uf == uf && f.direntBlock == direntBlock && f.direntPos == direntPos
              && f.chain == chain && f.curPos == 0 && f.fileSize == fileSize
  {
    if attributes / 0x10 % 2 == 1 {
      return Err(NotFile);
    }
    var f := new File(uf, direntBlock, direntPos, firstCluster, fileSize, chain);
    r := Ok(f);
  }

  /** Without a free cluster no chain grows. */
  lemma NothingAdded(g: Bpb, v: seq<Block>, chain: seq<Cluster>, v': seq<Block>, chain': seq<Cluster>, pos: nat,
                     bytes: seq<byte>)
    requires Volume(g, v) && Volume(g, v') && Wrote(g, v, chain, v', chain', pos, bytes)
    requires OwnOrFree(g, v, chain, chain')
    requires Allocatable(g.fatType, FatOf(g, v)) == {} && DataClusters(g, chain')
    ensures chain' == chain
  {
    hide FatOf, ByteAt, ClusterIndex;
    if chain' != chain {
      NewCluster(g, chain, chain');
    }
  }

  lemma NewCluster(g: Bpb, chain: seq<Cluster>, chain': seq<Cluster>)
    requires chain <= chain' && chain' != chain && DataClusters(g, chain')
    ensures exists c :: c in chain' && c !in chain
  {
    var c := chain'[|chain|];
    assert c in chain' && forall i | 0 <= i < |chain| :: chain[i] == chain'[i] != c;
  }

  lemma EndBehind(g: Bpb, chain: seq<Cluster>, fileSize: uint32, pos: uint32, pos': uint32)
    requires 0 < g.blockSize && 0 < g.blocksPerCluster && fileSize <= pos && ClusterIndex(g, pos) < |chain|
    ensures ClusterIndex(g, pos') == |chain| && pos <= pos' ==>
              fileSize < pos' && AtChainEnd(g, chain, pos') && |chain| <= ClusterIndex(g, 0xffff_ffff)
  {
    if pos <= pos' {
      IndexMono(g, pos', 0xffff_ffff);
    }
  }

  /** A position in the same cluster needs no link; another one needs the link of the current cluster. */
  predicate LinksFollowed(g: Bpb, pos: nat, end: nat, r: Result<()>, prev: Cluster, cur: Cluster, prev': Cluster,
                          cur': Cluster)
    requires 0 < g.blockSize && 0 < g.blocksPerCluster
  {
    if ClusterIndex(g, end) == ClusterIndex(g, pos) then r.Ok? && prev' == prev && cur' == cur
    else g.numClusters <= cur ==> r == Err(InvalidCluster)
  }

  /** What the wrapped limit means for ufat_file_advance. */
  lemma SkipCases(g: Bpb, chain: seq<Cluster>, fileSize: uint32, pos: uint32, n: uint32)
    requires 0 < g.blockSize && 0 < g.blocksPerCluster && Holds(g, chain, fileSize) && Holds(g, chain, pos)
    ensures var d := ReadLimit(fileSize, pos, n); var end := (pos + d) % 0x1_0000_0000;
            && (pos <= fileSize || n == 0 ==>
                  end == pos + d && Holds(g, chain, end) && d == Available(fileSize, pos, n))
            && (fileSize < pos && 0 < n ==> end != pos && Available(fileSize, pos, n) == 0)
            && (fileSize < pos && 0 < n && AtChainEnd(g, chain, pos) && ClusterIndex(g, end) == |chain| ==>
                !Holds(g, chain, end))
  {
    hide ClusterIndex, Holds, AtChainEnd;
    if pos <= fileSize {
      HoldsLess(g, chain, fileSize, pos + ReadLimit(fileSize, pos, n));
    }
    if fileSize < pos && 0 < n && AtChainEnd(g, chain, pos)
       && ClusterIndex(g, (pos + ReadLimit(fileSize, pos, n)) % 0x1_0000_0000) == |chain| {
      PastTheEnd(g, chain, pos, (pos + ReadLimit(fileSize, pos, n)) % 0x1_0000_0000);
    }
  }

  /** Of the positions in the cluster behind the chain, only the first one has all bytes before it. */
  lemma PastTheEnd(g: Bpb, chain: seq<Cluster>, pos: nat, end: nat)
    requires 0 < g.blockSize && 0 < g.blocksPerCluster && 0 < pos && end != pos
    requires Holds(g, chain, pos) && AtChainEnd(g, chain, pos) && ClusterIndex(g, end) == |chain|
    ensures !Holds(g, chain, end)
  {
    IndexNext(g, pos);
    if end < pos {
      IndexMono(g, end, pos - 1);
    } else {
      IndexMono(g, pos, end - 1);
    }
  }

  lemma Shape(g: Bpb, v: seq<Block>)
    requires Volume(g, v)
    ensures 512 <= g.blockSize && 0 < g.blocksPerCluster && 2 <= g.numClusters <= 0xfff_fff0
    ensures Sized(v, g.blockSize) && g.fatStart + g.fatSize <= g.rootStart <= g.clusterStart <= |v|
  {
  }

  lemma AdvanceIndex(g: Bpb, chain: seq<Cluster>, prev: Cluster, cur: Cluster, pos: nat, end: nat)
    requires 0 < g.blockSize && 0 < g.blocksPerCluster && PosOk(g, chain, prev, cur, pos) && pos <= end
    requires Holds(g, chain, end)
    ensures ClusterIndex(g, pos) <= ClusterIndex(g, end) <= |chain| && AtIndex(chain, prev, cur, ClusterIndex(g, pos))
  {
    IndexBound(g, chain, end);
    IndexMono(g, pos, end);
  }

  lemma FileChain(g: Bpb, v: seq<Block>, chain: seq<Cluster>, start: Cluster, size: nat, db: nat, dp: nat)
    requires Volume(g, v) && FileOk(g, v, chain, start, size, db, dp)
    ensures IsChain(FatOf(g, v), chain)
  {
  }

  /** The number of links, as a 32-bit number. */
  lemma LinkCount(a: nat, b: nat, pos: uint32, end: uint32, n: nat)
    requires 0 < n && a == pos / n && b == end / n
    ensures (b - a) % 0x1_0000_0000 == 0 <==> a == b
    ensures a <= b ==> (b - a) % 0x1_0000_0000 == b - a
  {
    QuotientSmall(pos, n);
    QuotientSmall(end, n);
  }

  lemma QuotientSmall(a: nat, n: nat)
    requires 0 < n
    ensures 0 <= a / n <= a
  {
    MulMono(1, n, a + 1);
    DivLess(a, a + 1, n);
  }

  lemma PosAtZero(g: Bpb, chain: seq<Cluster>, prev: Cluster, cur: Cluster, pos: nat)
    requires 0 < g.blockSize && 0 < g.blocksPerCluster && pos == 0 && PosOk(g, chain, prev, cur, pos)
    ensures PosOk(g, chain[..0], prev, FREE, pos)
  {
  }

  /** A position inside a cluster: the cluster is the last one that the bytes before the position need. */
  lemma PosInside(g: Bpb, fat: seq<Cluster>, chain: seq<Cluster>, prev: Cluster, cur: Cluster, pos: nat, keep: nat)
    requires 0 < g.blockSize && 0 < g.blocksPerCluster && PosOk(g, chain, prev, cur, pos) && IsChain(fat, chain)
    requires 0 < pos && keep == ClustersFor(g, pos) && pos % (g.blockSize * g.blocksPerCluster) != 0
    ensures 0 < keep <= |chain| && cur == chain[keep - 1] && cur < |fat| && IsPtr(cur) && cur in chain
    ensures PosOk(g, chain[..keep], prev, cur, pos)
  {
    IndexNext(g, pos);
    assert chain[keep - 1] in chain;
    hide ClusterIndex;
  }

  /** A position between clusters. */
  lemma PosBetween(g: Bpb, fat: seq<Cluster>, chain: seq<Cluster>, prev: Cluster, cur: Cluster, pos: nat, keep: nat)
    requires 0 < g.blockSize && 0 < g.blocksPerCluster && PosOk(g, chain, prev, cur, pos) && IsChain(fat, chain)
    requires 0 < pos && keep == ClustersFor(g, pos) && pos % (g.blockSize * g.blocksPerCluster) == 0
    ensures 0 < keep <= |chain| && prev == chain[keep - 1] && prev < |fat| && prev in chain
    ensures if IsPtr(cur) then keep < |chain| && fat[prev] == cur else keep == |chain| && chain[..keep] == chain
    ensures PosOk(g, chain[..keep], prev, FREE, pos)
  {
    IndexNext(g, pos);
    assert chain[keep - 1] in chain;
    hide ClusterIndex;
    if keep < |chain| {
      assert fat[chain[keep - 1]] == chain[keep - 1 + 1];
    }
  }

  lemma PosFacts(g: Bpb, chain: seq<Cluster>, prev: Cluster, cur: Cluster, pos: nat)
    requires 0 < g.blockSize && 0 < g.blocksPerCluster && PosOk(g, chain, prev, cur, pos)
    ensures Holds(g, chain, pos) && ClusterIndex(g, pos) <= |chain|
  {
  }

  lemma PosAtStart(g: Bpb, v: seq<Block>, chain: seq<Cluster>, start: Cluster, size: nat, db: nat, dp: nat)
    requires Volume(g, v) && FileOk(g, v, chain, start, size, db, dp)
    ensures PosOk(g, chain, 0, start, 0)
  {
  }

  lemma EntryInside(g: Bpb, v: seq<Block>, chain: seq<Cluster>, start: Cluster, size: nat, db: nat, dp: nat)
    requires Volume(g, v) && FileOk(g, v, chain, start, size, db, dp)
    ensures g.rootStart <= db < |v| && dp * 32 + 32 <= g.blockSize
  {
  }

  lemma SizePatch(block: Block, dp: nat, n: uint32)
    requires dp * 32 + 32 <= |block|
    ensures WithSize(block, dp, n) == Patch(block, dp * 32 + 0x1c, W32(n))
  {
  }

  lemma StartPatch(block: Block, dp: nat, s: Cluster)
    requires dp * 32 + 32 <= |block|
    ensures WithStart(block, dp, s)
         == Patch(Patch(block, dp * 32 + 0x14, W16(s / 0x1_0000)), dp * 32 + 0x1a, W16(s % 0x1_0000))
  {
  }

  lemma HoldsLess(g: Bpb, chain: seq<Cluster>, n: nat, m: nat)
    requires 0 < g.blockSize && 0 < g.blocksPerCluster && Holds(g, chain, n) && m <= n
    ensures Holds(g, chain, m)
  {
    HoldsAll(g, chain, n);
  }

  /** Another file whose clusters and directory entry are not this file's. */
  ghost predicate Apart(g: Bpb, v: seq<Block>, own: seq<Cluster>, db: nat, dp: nat, other: seq<Cluster>, odb: nat,
                        odp: nat)
    requires Volume(g, v)
  {
    && (forall c | c in other :: c !in own)
    && DirentApart(g, FatOf(g, v), other, db, |v|) && DirentApart(g, FatOf(g, v), own, odb, |v|)
    && (odb, odp) != (db, dp)
  }

  /** Whatever was done to a file, and even if it failed half-way, every other file is the same file with the same
      contents, and stays apart. */
  lemma OtherFilesKept(g: Bpb, v: seq<Block>, v': seq<Block>, own: seq<Cluster>, db: nat, dp: nat,
                       other: seq<Cluster>, start: Cluster, size: uint32, odb: nat, odp: nat)
    requires Volume(g, v) && Volume(g, v') && db < |v| && dp * 32 + 32 <= g.blockSize
    requires Protected(g, v, v', own, db, dp)
    requires FileOk(g, v, other, start, size, odb, odp) && Apart(g, v, own, db, dp, other, odb, odp)
    ensures FileOk(g, v', other, start, size, odb, odp)
    ensures Bytes(g, v', other, size) == Bytes(g, v, other, size)
  {
    var was, now := FatOf(g, v), FatOf(g, v');
    assert IsChain(was, other);
    ChainIsUsed(was, other);
    assert forall c | c in other :: now[c] == was[c] && c as int !in Allocatable(g.fatType, was);
    ChainSame(was, now, other);
    OtherBytes(g, v, v', own, db, dp, other);
    SameBytesSame(g, v, other, v', other, size);
    hide FatOf, ByteAt, ClusterIndex, IsChain, Bytes, SameBytes;
    OtherDirent(g, v, v', own, db, dp, other, odb, odp);
  }

  lemma OtherBytes(g: Bpb, v: seq<Block>, v': seq<Block>, own: seq<Cluster>, db: nat, dp: nat, other: seq<Cluster>)
    requires Volume(g, v) && Volume(g, v') && db < |v| && dp * 32 + 32 <= g.blockSize && DataClusters(g, other)
    requires Protected(g, v, v', own, db, dp) && DirentApart(g, FatOf(g, v), other, db, |v|)
    requires forall c | c in other :: c !in own && c as int !in Allocatable(g.fatType, FatOf(g, v))
    ensures SameBytes(g, v, other, v', other)
  {
    hide FatOf, BlockCluster;
    forall p: nat | ClusterIndex(g, p) < |other|
      ensures ByteAt(g, v', other, p) == ByteAt(g, v, other, p)
    {
      FileBlockInVolume(g, other, p, |v|);
      assert other[ClusterIndex(g, p)] in other;
    }
  }

  lemma OtherDirent(g: Bpb, v: seq<Block>, v': seq<Block>, own: seq<Cluster>, db: nat, dp: nat,
                    other: seq<Cluster>, odb: nat, odp: nat)
    requires Volume(g, v) && Volume(g, v') && db < |v| && dp * 32 + 32 <= g.blockSize && odp * 32 + 32 <= g.blockSize
    requires Protected(g, v, v', own, db, dp)
    requires DirentApart(g, FatOf(g, v), own, odb, |v|) && DirentApart(g, FatOf(g, v), other, odb, |v|)
    requires (odb, odp) != (db, dp)
    ensures DirentApart(g, FatOf(g, v'), other, odb, |v'|)
    ensures DirentStart(g.fatType, v'[odb], odp) == DirentStart(g.fatType, v[odb], odp)
    ensures DirentSize(v'[odb], odp) == DirentSize(v[odb], odp)
  {
    hide FatOf, BlockCluster;
    if odb == db {
      assert forall x | odp * 32 <= x < odp * 32 + 32 :: v'[db][x] == v[db][x];
    }
  }

  /** A file whose chain has exactly the clusters that its size needs still has after a write from inside it. */
  lemma WriteKeepsTight(g: Bpb, chain: seq<Cluster>, size: nat, chain': seq<Cluster>, pos: nat)
    requires 0 < g.blockSize && 0 < g.blocksPerCluster && |chain| <= |chain'|
    requires |chain| == ClustersFor(g, size) && GrownAsNeeded(g, chain, chain', pos) && Holds(g, chain', pos)
    ensures |chain'| == ClustersFor(g, if pos > size then pos else size)
  {
    if 0 < size < pos {
      IndexMono(g, size - 1, pos - 1);
    } else if 0 < pos <= size {
      IndexMono(g, pos - 1, size - 1);
    }
  }
}
