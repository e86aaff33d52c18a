/** Where the bytes of a file lie: the clusters of its chain, their blocks, and the offsets inside a block
    (cluster_to_block and block_to_cluster of mysh/fs/ufat_internal.h, and the position arithmetic of ufat_file.c). */
module UfatLayout {
  import opened Arith
  import opened UfatCache
  import opened UfatFat

  /** How many whole clusters precede byte `p` of a file. */
  function ClusterIndex(g: Bpb, p: nat): nat
    requires 0 < g.blockSize && 0 < g.blocksPerCluster
  {
    p / g.blockSize / g.blocksPerCluster
  }

  /** cluster_to_block */
  function ClusterBlock(g: Bpb, c: Cluster): int {
    (c - 2) * g.blocksPerCluster + g.clusterStart
  }

  /** block_to_cluster */
  function BlockCluster(g: Bpb, b: int): int
    requires 0 < g.blocksPerCluster
  {
    (b - g.clusterStart) / g.blocksPerCluster + 2
  }

  /** The block that byte `p` of a file lies in. */
  function FileBlock(g: Bpb, chain: seq<Cluster>, p: nat): int
    requires 0 < g.blockSize && 0 < g.blocksPerCluster && ClusterIndex(g, p) < |chain|
  {
    ClusterBlock(g, chain[ClusterIndex(g, p)]) + p / g.blockSize % g.blocksPerCluster
  }

  /** The clusters are data clusters of the volume, and no two are the same. */
  ghost predicate DataClusters(g: Bpb, chain: seq<Cluster>) {
    && (forall i | 0 <= i < |chain| :: 2 <= chain[i] < g.numClusters)
    && (forall i, j | 0 <= i < j < |chain| :: chain[i] != chain[j])
  }

  /** Block numbers and cluster numbers correspond. */
  lemma BlockOfCluster(g: Bpb, c: Cluster, k: nat, n: nat)
    requires g.Fits(n) && 2 <= c < g.numClusters && k < g.blocksPerCluster
    ensures g.clusterStart <= ClusterBlock(g, c) + k < n
    ensures BlockCluster(g, ClusterBlock(g, c) + k) == c
    ensures ClusterBlock(g, c) + g.blocksPerCluster <= n
  {
    var bpc := g.blocksPerCluster;
    MulMono(c - 2 + 1, g.numClusters - 2, bpc);
    assert (c - 2 + 1) * bpc == (c - 2) * bpc + bpc;
    assert (c - 2) * bpc >= 0;
    DivModUnique((c - 2) * bpc + k, bpc, c - 2, k);
  }

  /** The data clusters lie one behind the other from the first data block on. */
  lemma ClustersInOrder(g: Bpb, c: Cluster)
    ensures ClusterBlock(g, 2) == g.clusterStart
    ensures c + 1 < 0x1_0000_0000 ==> ClusterBlock(g, c + 1) == ClusterBlock(g, c) + g.blocksPerCluster
  {
    assert (c + 1 - 2) * g.blocksPerCluster == (c - 2) * g.blocksPerCluster + g.blocksPerCluster;
  }

  /** The blocks of a file in consecutive clusters are consecutive. */
  lemma {:induction false} ConsecutiveBlocks(g: Bpb, chain: seq<Cluster>, first: Cluster, i: nat)
    requires i < |chain| && forall k | 0 <= k <= i :: chain[k] == first + k
    ensures ClusterBlock(g, chain[i]) == ClusterBlock(g, first) + i * g.blocksPerCluster
  {
    if i > 0 {
      ConsecutiveBlocks(g, chain, first, i - 1);
      ClustersInOrder(g, chain[i - 1]);
      assert i * g.blocksPerCluster == (i - 1) * g.blocksPerCluster + g.blocksPerCluster;
      hide ClusterBlock;
    }
  }

  lemma FileBlockInVolume(g: Bpb, chain: seq<Cluster>, p: nat, n: nat)
    requires g.Fits(n) && DataClusters(g, chain) && ClusterIndex(g, p) < |chain|
    ensures g.clusterStart <= FileBlock(g, chain, p) < n
    ensures BlockCluster(g, FileBlock(g, chain, p)) == chain[ClusterIndex(g, p)]
  {
    BlockOfCluster(g, chain[ClusterIndex(g, p)], p / g.blockSize % g.blocksPerCluster, n);
  }

  /** Two bytes of a file share a block only if they have the same block number in the file. */
  lemma FileBlockInjective(g: Bpb, chain: seq<Cluster>, p: nat, p': nat, n: nat)
    requires g.Fits(n) && DataClusters(g, chain)
    requires ClusterIndex(g, p) < |chain| && ClusterIndex(g, p') < |chain|
    requires FileBlock(g, chain, p) == FileBlock(g, chain, p')
    ensures p / g.blockSize == p' / g.blockSize
  {
    FileBlockInVolume(g, chain, p, n);
    FileBlockInVolume(g, chain, p', n);
    var bpc := g.blocksPerCluster;
    var q, q' := p / g.blockSize, p' / g.blockSize;
    assert q / bpc == q' / bpc;
    assert q == q / bpc * bpc + q % bpc && q' == q' / bpc * bpc + q' % bpc;
  }

  /** Going on by `d` bytes inside a block, and by `d` blocks inside a cluster. */
  lemma WithinBlock(g: Bpb, p: nat, d: nat)
    requires 0 < g.blockSize && 0 < g.blocksPerCluster && p % g.blockSize + d < g.blockSize
    ensures (p + d) / g.blockSize == p / g.blockSize && (p + d) % g.blockSize == p % g.blockSize + d
    ensures ClusterIndex(g, p + d) == ClusterIndex(g, p)
  {
    DivModUnique(p + d, g.blockSize, p / g.blockSize, p % g.blockSize + d);
  }

  lemma WithinCluster(g: Bpb, p: nat, d: nat, o: nat)
    requires 0 < g.blockSize && 0 < g.blocksPerCluster && p % g.blockSize == 0
    requires p / g.blockSize % g.blocksPerCluster + d < g.blocksPerCluster && o < g.blockSize
    ensures ClusterIndex(g, p + d * g.blockSize + o) == ClusterIndex(g, p)
    ensures (p + d * g.blockSize + o) / g.blockSize == p / g.blockSize + d
    ensures (p + d * g.blockSize + o) % g.blockSize == o
    ensures (p + d * g.blockSize + o) / g.blockSize % g.blocksPerCluster == p / g.blockSize % g.blocksPerCluster + d
  {
    var bs, bpc := g.blockSize, g.blocksPerCluster;
    var q := p / bs;
    assert p == q * bs;
    assert (q + d) * bs == q * bs + d * bs;
    DivModUnique(p + d * bs + o, bs, q + d, o);
    DivModUnique(q + d, bpc, q / bpc, q % bpc + d);
  }

  lemma DivMono(a: nat, b: nat, n: nat)
    requires a <= b && 0 < n
    ensures a / n <= b / n
  {
    if a / n > b / n {
      MulMono(b / n + 1, a / n, n);
      assert false;
    }
  }

  lemma IndexMono(g: Bpb, p: nat, p': nat)
    requires 0 < g.blockSize && 0 < g.blocksPerCluster && p <= p'
    ensures ClusterIndex(g, p) <= ClusterIndex(g, p')
  {
    DivMono(p, p', g.blockSize);
    DivMono(p / g.blockSize, p' / g.blockSize, g.blocksPerCluster);
  }

  /** The cluster index grows by at most one from one byte to the next, and then the next byte starts a cluster. */
  lemma IndexNext(g: Bpb, p: nat)
    requires 0 < g.blockSize && 0 < g.blocksPerCluster && 0 < p
    ensures ClusterIndex(g, p - 1) <= ClusterIndex(g, p) <= ClusterIndex(g, p - 1) + 1
    ensures ClusterIndex(g, p) == ClusterIndex(g, p - 1) + 1 <==> p % (g.blockSize * g.blocksPerCluster) == 0
  {
    ByteIndex(g, p);
    ByteIndex(g, p - 1);
    hide ClusterIndex;
    DivNext(p, g.blockSize * g.blocksPerCluster);
  }

  lemma DivNext(p: nat, n: nat)
    requires 0 < p && 0 < n
    ensures p % n == 0 ==> (p - 1) / n == p / n - 1
    ensures p % n != 0 ==> (p - 1) / n == p / n
  {
    if p % n == 0 {
      assert p == p / n * n;
      assert (p / n - 1) * n == p - n;
      DivModUnique(p - 1, n, p / n - 1, n - 1);
    } else {
      DivModUnique(p - 1, n, p / n, p % n - 1);
    }
  }

  /** Shifting by the cluster size is dividing by the two factors in turn. */
  lemma ByteIndex(g: Bpb, p: nat)
    requires 0 < g.blockSize && 0 < g.blocksPerCluster
    ensures g.blockSize * g.blocksPerCluster > 0
    ensures ClusterIndex(g, p) == p / (g.blockSize * g.blocksPerCluster)
  {
    var bs, bpc := g.blockSize, g.blocksPerCluster;
    var q := p / bs;
    MulMono(1, bpc, bs);
    var r := q % bpc * bs + p % bs;
    MulMono(q % bpc + 1, bpc, bs);
    assert (q % bpc + 1) * bs == q % bpc * bs + bs;
    assert q * bs == (q / bpc * bpc + q % bpc) * bs;
    assert (q / bpc * bpc + q % bpc) * bs == q / bpc * (bs * bpc) + q % bpc * bs;
    DivModUnique(p, bs * bpc, q / bpc, r);
  }
}
