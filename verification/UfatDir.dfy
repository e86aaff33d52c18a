/** Directories on the volume (mysh/fs/ufat_dir.c, mysh/fs/ufat_ent.c): a directory is the fixed root area or a chain of
    clusters, and its blocks hold the records that UfatListing makes a listing of. */
module UfatDir {
  import opened Integers
  import opened Arith
  import opened UfatCache
  import opened UfatFat
  import opened UfatChain
  import opened UfatLayout
  import opened UfatNames
  import UfatFile

  // ---- where the records are ----

  datatype Place = Root | Chain(clusters: seq<Cluster>)

  function PerBlock(g: Bpb): nat { g.blockSize / 32 }

  function BlockCount(g: Bpb, place: Place): nat {
    if place.Root? then g.rootSize else |place.clusters| * g.blocksPerCluster
  }

  /** The `b`-th block of a directory. */
  function DirBlock(g: Bpb, place: Place, b: nat): int
    requires b < BlockCount(g, place) && 0 < g.blocksPerCluster
  {
    if place.Root? then g.rootStart + b
    else
      DivLess(b, |place.clusters|, g.blocksPerCluster);
      ClusterBlock(g, place.clusters[b / g.blocksPerCluster]) + b % g.blocksPerCluster
  }

  /** What the layout of a directory needs, whatever the table says. */
  ghost predicate Located(g: Bpb, v: seq<Block>, place: Place) {
    && g.Fits(|v|) && Sized(v, g.blockSize) && 0 < BlockCount(g, place)
    && (place.Chain? ==> DataClusters(g, place.clusters))
  }

  ghost predicate PlaceOk(g: Bpb, v: seq<Block>, place: Place) {
    && Volume(g, v) && Located(g, v, place)
    && (place.Chain? ==> place.clusters != [] && IsChain(FatOf(g, v), place.clusters))
  }

  lemma DirBlockPlace(g: Bpb, v: seq<Block>, place: Place, b: nat)
    requires Located(g, v, place) && b < BlockCount(g, place)
    ensures g.rootStart <= DirBlock(g, place, b) < |v| && !g.InFat(DirBlock(g, place, b))
    ensures !g.IsMirror(DirBlock(g, place, b))
    ensures place.Root? <==> DirBlock(g, place, b) < g.clusterStart
    ensures place.Chain? ==>
              b / g.blocksPerCluster < |place.clusters|
              && BlockCluster(g, DirBlock(g, place, b)) == place.clusters[b / g.blocksPerCluster]
  {
    if place.Chain? {
      DivLess(b, |place.clusters|, g.blocksPerCluster);
      BlockOfCluster(g, place.clusters[b / g.blocksPerCluster], b % g.blocksPerCluster, |v|);
    }
  }

  lemma DirBlockInjective(g: Bpb, v: seq<Block>, place: Place, b: nat, b': nat)
    requires Located(g, v, place) && b < BlockCount(g, place) && b' < BlockCount(g, place)
    requires DirBlock(g, place, b) == DirBlock(g, place, b')
    ensures b == b'
  {
    if place.Chain? {
      SameChainBlock(g, v, place.clusters, b, b');
    }
  }

  lemma SameChainBlock(g: Bpb, v: seq<Block>, cs: seq<Cluster>, b: nat, b': nat)
    requires Located(g, v, Chain(cs)) && b < BlockCount(g, Chain(cs)) && b' < BlockCount(g, Chain(cs))
    requires DirBlock(g, Chain(cs), b) == DirBlock(g, Chain(cs), b')
    ensures b == b'
  {
    hide *;
    ChainBlock(g, v, cs, b);
    ChainBlock(g, v, cs, b');
    var bpc := g.blocksPerCluster;
    ChainDistinct(g, cs, b / bpc, b' / bpc);
    SameParts(b, b', bpc);
  }

  lemma ChainBlock(g: Bpb, v: seq<Block>, cs: seq<Cluster>, b: nat)
    requires Located(g, v, Chain(cs)) && b < BlockCount(g, Chain(cs))
    ensures 0 < g.blocksPerCluster && DataClusters(g, cs) && 0 <= b / g.blocksPerCluster < |cs|
    ensures DirBlock(g, Chain(cs), b) == ClusterBlock(g, cs[b / g.blocksPerCluster]) + b % g.blocksPerCluster
    ensures BlockCluster(g, DirBlock(g, Chain(cs), b)) == cs[b / g.blocksPerCluster]
  {
    DirBlockPlace(g, v, Chain(cs), b);
    hide ClusterBlock, BlockCluster;
  }

  lemma ChainDistinct(g: Bpb, cs: seq<Cluster>, i: nat, j: nat)
    requires DataClusters(g, cs) && i < |cs| && j < |cs| && cs[i] == cs[j]
    ensures i == j
  {
  }

  function Count(g: Bpb, place: Place): nat {
    BlockCount(g, place) * PerBlock(g)
  }

  lemma RecordPlace(g: Bpb, place: Place, k: nat)
    requires 512 <= g.blockSize && g.blockSize % 32 == 0 && k < Count(g, place)
    ensures 0 < PerBlock(g) && PerBlock(g) * 32 == g.blockSize
    ensures 0 <= k / PerBlock(g) < BlockCount(g, place) && 0 <= k % PerBlock(g) * 32 <= g.blockSize - 32
  {
    DivLess(k, BlockCount(g, place), PerBlock(g));
    MulMono(k % PerBlock(g) + 1, PerBlock(g), 32);
  }

  /** Record `k` of a directory. */
  function RecordAt(g: Bpb, v: seq<Block>, place: Place, k: nat): Record
    requires Located(g, v, place) && k < Count(g, place)
  {
    RecordPlace(g, place, k);
    DirBlockPlace(g, v, place, k / PerBlock(g));
    v[DirBlock(g, place, k / PerBlock(g))][k % PerBlock(g) * 32..k % PerBlock(g) * 32 + 32]
  }

  ghost function Records(g: Bpb, v: seq<Block>, place: Place): (recs: seq<Record>)
    requires Located(g, v, place)
    ensures |recs| == Count(g, place)
  {
    seq(Count(g, place), k requires 0 <= k < Count(g, place) => RecordAt(g, v, place, k))
  }

  /** Writing the first bytes of record `k`. */
  function Written(g: Bpb, v: seq<Block>, place: Place, k: nat, data: seq<byte>): seq<Block>
    requires Located(g, v, place) && k < Count(g, place) && |data| <= 32
  {
    RecordPlace(g, place, k);
    DirBlockPlace(g, v, place, k / PerBlock(g));
    var b := DirBlock(g, place, k / PerBlock(g));
    v[b := Patch(v[b], k % PerBlock(g) * 32, data)]
  }

  lemma RecordWritten(g: Bpb, v: seq<Block>, place: Place, k: nat, data: seq<byte>)
    requires Located(g, v, place) && k < Count(g, place) && |data| <= 32
    ensures var v' := Written(g, v, place, k, data);
            && Located(g, v', place)
            && Records(g, v', place) == Records(g, v, place)[k := data + RecordAt(g, v, place, k)[|data|..]]
  {
    var v' := Written(g, v, place, k, data);
    RecordPlace(g, place, k);
    DirBlockPlace(g, v, place, k / PerBlock(g));
    assert Located(g, v', place);
    forall j | 0 <= j < Count(g, place)
      ensures RecordAt(g, v', place, j) == if j == k then data + RecordAt(g, v, place, k)[|data|..]
                else RecordAt(g, v, place, j)
    {
      OneRecord(g, v, place, k, data, j);
    }
  }

  /** Record `k` is the `x`-th record of the `q`-th block. */
  predicate Locates(g: Bpb, k: nat, q: nat, x: nat) {
    0 < PerBlock(g) && q == k / PerBlock(g) && x == k % PerBlock(g)
  }

  lemma OneRecord(g: Bpb, v: seq<Block>, place: Place, k: nat, data: seq<byte>, j: nat)
    requires Located(g, v, place) && k < Count(g, place) && j < Count(g, place) && |data| <= 32
    requires Located(g, Written(g, v, place, k, data), place)
    ensures RecordAt(g, Written(g, v, place, k, data), place, j)
         == if j == k then data + RecordAt(g, v, place, k)[|data|..] else RecordAt(g, v, place, j)
  {
    RecordPlace(g, place, k);
    RecordPlace(g, place, j);
    var q, x, q', y := k / PerBlock(g), k % PerBlock(g), j / PerBlock(g), j % PerBlock(g);
    assert Locates(g, k, q, x) && Locates(g, j, q', y);
    hide *;
    RecordIs(g, v, place, k, q, x);
    WrittenIs(g, v, place, k, data, q, x);
    var v' := Written(g, v, place, k, data);
    RecordIs(g, v, place, j, q', y);
    RecordIs(g, v', place, j, q', y);
    SameRecord(g, v, place, k, j, q, x, q', y);
    PatchedSlice(v, DirBlock(g, place, q), DirBlock(g, place, q'), x, y, data);
  }

  lemma RecordIs(g: Bpb, v: seq<Block>, place: Place, k: nat, q: nat, x: nat)
    requires Located(g, v, place) && k < Count(g, place) && Locates(g, k, q, x)
    ensures q < BlockCount(g, place) && 0 < g.blocksPerCluster
    ensures var b := DirBlock(g, place, q);
            0 <= b < |v| && x * 32 + 32 <= |v[b]| && RecordAt(g, v, place, k) == v[b][x * 32..x * 32 + 32]
  {
    RecordPlace(g, place, k);
    DirBlockPlace(g, v, place, q);
  }

  lemma WrittenIs(g: Bpb, v: seq<Block>, place: Place, k: nat, data: seq<byte>, q: nat, x: nat)
    requires Located(g, v, place) && k < Count(g, place) && |data| <= 32 && Locates(g, k, q, x)
    ensures q < BlockCount(g, place) && 0 < g.blocksPerCluster
    ensures var b := DirBlock(g, place, q);
            0 <= b < |v| && x * 32 + |data| <= |v[b]| && Written(g, v, place, k, data)
                == v[b := Patch(v[b], x * 32, data)]
  {
    RecordPlace(g, place, k);
    DirBlockPlace(g, v, place, q);
  }

  lemma SameRecord(g: Bpb, v: seq<Block>, place: Place, k: nat, j: nat, q: nat, x: nat, q': nat, y: nat)
    requires Located(g, v, place) && q < BlockCount(g, place) && q' < BlockCount(g, place)
    requires Locates(g, k, q, x) && Locates(g, j, q', y)
    ensures 0 < g.blocksPerCluster
    ensures DirBlock(g, place, q) == DirBlock(g, place, q') && x == y <==> k == j
  {
    LocatesOne(g, k, j, q, x, q', y);
    SizePositive(g, v, place);
    hide *;
    if DirBlock(g, place, q) == DirBlock(g, place, q') {
      DirBlockInjective(g, v, place, q, q');
    }
  }

  lemma SizePositive(g: Bpb, v: seq<Block>, place: Place)
    requires Located(g, v, place)
    ensures 0 < g.blocksPerCluster
  {
  }

  lemma LocatesOne(g: Bpb, k: nat, j: nat, q: nat, x: nat, q': nat, y: nat)
    requires Locates(g, k, q, x) && Locates(g, j, q', y)
    ensures q == q' && x == y <==> k == j
  {
    hide PerBlock;
    var per := PerBlock(g);
    assert k == k / per * per + k % per && j == j / per * per + j % per;
  }

  lemma PatchedSlice(v: seq<Block>, b: nat, c: nat, x: nat, y: nat, data: seq<byte>)
    requires b < |v| && c < |v| && x * 32 + 32 <= |v[b]| && y * 32 + 32 <= |v[c]| && |data| <= 32
    ensures var v' := v[b := Patch(v[b], x * 32, data)];
            v'[c][y * 32..y * 32 + 32]
            == if b == c && x == y then data + v[b][x * 32..x * 32 + 32][|data|..] else v[c][y * 32..y * 32 + 32]
  {
    if b == c {
      PatchedRecord(v[b], x, y, data);
    }
  }

  lemma PatchedRecord(block: Block, x: nat, y: nat, data: seq<byte>)
    requires x * 32 + 32 <= |block| && y * 32 + 32 <= |block| && |data| <= 32
    ensures Patch(block, x * 32, data)[y * 32..y * 32 + 32]
         == if x == y then data + block[x * 32..x * 32 + 32][|data|..] else block[y * 32..y * 32 + 32]
  {
  }

  // ---- what an operation on a directory may touch ----

  /** The clusters of a directory and those that it could be given. */
  ghost function Mine(g: Bpb, v: seq<Block>, place: Place): set<int>
    requires Volume(g, v)
  {
    (if place.Root? then {} else set c: int | c in Nums(place.clusters)) + Allocatable(g.fatType, FatOf(g, v))
  }

  function Nums(s: seq<Cluster>): set<int> {
    set i | 0 <= i < |s| :: s[i] as int
  }

  predicate OwnBlock(g: Bpb, mine: set<int>, root: bool, b: int)
    requires 0 < g.blocksPerCluster
  {
    || g.InFat(b)
    || (root && g.rootStart <= b < g.clusterStart)
    || (g.clusterStart <= b && BlockCluster(g, b) in mine)
  }

  /** Nothing else has changed: no other block, and no table entry of another cluster. */
  ghost predicate Kept(g: Bpb, v: seq<Block>, v': seq<Block>, mine: set<int>, root: bool) {
    && Volume(g, v) && Volume(g, v') && |v'| == |v|
    && (forall b | 0 <= b < |v| && !OwnBlock(g, mine, root, b) :: v'[b] == v[b])
    && (forall j | 0 <= j < g.numClusters && j !in mine :: FatOf(g, v')[j] == FatOf(g, v)[j])
  }

  lemma KeptSame(g: Bpb, v: seq<Block>, mine: set<int>, root: bool)
    requires Volume(g, v)
    ensures Kept(g, v, v, mine, root)
  {
  }

  lemma KeptTrans(g: Bpb, v: seq<Block>, v': seq<Block>, v'': seq<Block>, mine: set<int>, root: bool)
    requires Kept(g, v, v', mine, root) && Kept(g, v', v'', mine, root)
    ensures Kept(g, v, v'', mine, root)
  {
    hide FatOf, OwnBlock;
  }

  /** The blocks of a directory and the table are as they were. */
  lemma KeptWiden(g: Bpb, v: seq<Block>, v': seq<Block>, mine: set<int>, root: bool, mine': set<int>, root': bool)
    requires Kept(g, v, v', mine, root) && mine <= mine' && (root ==> root')
    ensures Kept(g, v, v', mine', root')
  {
    hide FatOf;
  }

  ghost predicate RecordsKept(g: Bpb, v: seq<Block>, v': seq<Block>, place: Place) {
    Located(g, v, place) && Located(g, v', place) && Records(g, v', place) == Records(g, v, place)
  }

  lemma SameRecords(g: Bpb, v: seq<Block>, v': seq<Block>, place: Place)
    requires RecordsKept(g, v, v', place)
    ensures Located(g, v, place) && Located(g, v', place) && Records(g, v', place) == Records(g, v, place)
  {
  }

  lemma SameBlocks(g: Bpb, v: seq<Block>, v': seq<Block>, place: Place)
    requires Located(g, v, place) && |v'| == |v| && Sized(v', g.blockSize)
    requires forall x | 0 <= x < |v| && InPlace(g, place, x) :: v'[x] == v[x]
    ensures RecordsKept(g, v, v', place)
  {
    forall k | 0 <= k < Count(g, place)
      ensures RecordAt(g, v', place, k) == RecordAt(g, v, place, k)
    {
      RecordPlace(g, place, k);
      InsidePlace(g, v, place, k / PerBlock(g));
    }
    hide RecordAt;
  }

  predicate InPlace(g: Bpb, place: Place, x: int)
    requires 0 < g.blocksPerCluster
  {
    if place.Root? then g.rootStart <= x < g.clusterStart
    else g.clusterStart <= x && BlockCluster(g, x) in Nums(place.clusters)
  }

  lemma InsidePlace(g: Bpb, v: seq<Block>, place: Place, b: nat)
    requires Located(g, v, place) && b < BlockCount(g, place)
    ensures 0 <= DirBlock(g, place, b) < |v| && InPlace(g, place, DirBlock(g, place, b))
  {
    DirBlockPlace(g, v, place, b);
    if place.Chain? {
      var i := b / g.blocksPerCluster;
      assert place.clusters[i] as int in Nums(place.clusters);
    }
  }

  /** Writing a record stays inside the directory, and keeps its chain. */
  lemma WrittenKeeps(g: Bpb, v: seq<Block>, place: Place, k: nat, data: seq<byte>, mine: set<int>)
    requires PlaceOk(g, v, place) && k < Count(g, place) && |data| <= 32 && Mine(g, v, place) <= mine
    ensures var v' := Written(g, v, place, k, data);
            PlaceOk(g, v', place) && FatOf(g, v') == FatOf(g, v) && Kept(g, v, v', mine, place.Root?)
                && Mine(g, v', place) <= mine
  {
    var v' := Written(g, v, place, k, data);
    RecordPlace(g, place, k);
    var q := k / PerBlock(g);
    DirBlockPlace(g, v, place, q);
    RecordWritten(g, v, place, k, data);
    var b := DirBlock(g, place, q);
    InsidePlace(g, v, place, q);
    hide BlockCluster, Nums;
    assert OwnBlock(g, mine, place.Root?, b) && !g.InFat(b) && v' == v[b := v'[b]] && Located(g, v', place);
    hide DirBlock, Patch, Written, BlockCluster, Located, Records;
    UfatFile.SameFat(g, v, v');
    hide FatOf;
  }

  // ---- new clusters ----

  function ZeroBlock(size: nat): Block { seq(size, _ => 0) }

  ghost predicate Zeroed(g: Bpb, v: seq<Block>, c: Cluster) {
    forall b | ClusterBlock(g, c) <= b < ClusterBlock(g, c) + g.blocksPerCluster ::
      0 <= b < |v| && v[b] == ZeroBlock(g.blockSize)
  }

  /** ufat_init_dirent_cluster */
  method InitDirentCluster(uf: Ufat, c: Cluster) returns (r: Result<()>)
    requires uf.Valid() && Volume(uf.bpb, uf.view) && 2 <= c < uf.bpb.numClusters
    modifies uf.Objects()
    ensures uf.Valid() && Volume(uf.bpb, uf.view) && uf.allocPtr == old(uf.allocPtr) && |uf.view| == |old(uf.view)|
    ensures old(uf.dev.failures) <= uf.dev.failures
    ensures r.Err? ==> r.error == IoError && old(uf.dev.failures) < uf.dev.failures
    ensures forall b | 0 <= b < |uf.view|
                       && !(ClusterBlock(uf.bpb, c) <= b < ClusterBlock(uf.bpb, c) + uf.bpb.blocksPerCluster) ::
              uf.view[b] == old(uf.view)[b]
    ensures r.Ok? ==> Zeroed(uf.bpb, uf.view, c)
  {
    hide Ufat.CoherentBut;
    BlockOfCluster(uf.bpb, c, 0, |uf.view|);
    var start: nat := ClusterBlock(uf.bpb, c);
    var zero := ZeroBlock(uf.bpb.blockSize);
    hide ClusterBlock;
    var i := uf.bpb.blocksPerCluster;
    while i > 0
      invariant 0 <= i <= uf.bpb.blocksPerCluster
      invariant uf.Valid() && Volume(uf.bpb, uf.view) && uf.allocPtr == old(uf.allocPtr) && |uf.view| == |old(uf.view)|
      invariant old(uf.dev.failures) <= uf.dev.failures
      invariant forall b | 0 <= b < |uf.view| && !(start <= b < start + uf.bpb.blocksPerCluster) ::
                uf.view[b] == old(uf.view)[b]
      invariant forall b | start + i <= b < start + uf.bpb.blocksPerCluster :: uf.view[b] == zero
    {
      var idx := uf.Open(start + i - 1, true);
      if idx.Err? {
        return Err(idx.error);
      }
      uf.WriteCached(idx.value, 0, zero);
      assert uf.view[start + i - 1] == zero;
      i := i - 1;
    }
    r := Ok(());
  }

  /** The blocks of a cluster are those that block_to_cluster maps to it. */
  lemma BlocksOf(g: Bpb, c: Cluster, b: int, n: nat)
    requires g.Fits(n) && 2 <= c < g.numClusters
    ensures ClusterBlock(g, c) <= b < ClusterBlock(g, c) + g.blocksPerCluster
        <==> g.clusterStart <= b && BlockCluster(g, b) == c
  {
    BlockOfCluster(g, c, 0, n);
    var x := b - g.clusterStart;
    assert x == x / g.blocksPerCluster * g.blocksPerCluster + x % g.blocksPerCluster;
    if ClusterBlock(g, c) <= b < ClusterBlock(g, c) + g.blocksPerCluster {
      BlockOfCluster(g, c, b - ClusterBlock(g, c), n);
    }
  }

  /** Only the table and the blocks of cluster `c` differ. */
  ghost predicate ClusterChanged(g: Bpb, v: seq<Block>, v': seq<Block>, c: Cluster)
    requires 0 < g.blocksPerCluster
  {
    |v'| == |v| && forall b | 0 <= b < |v| && !g.InFat(b) && !(g.clusterStart <= b && BlockCluster(g, b) == c) ::
        v'[b] == v[b]
  }

  lemma FreeCluster(g: Bpb, v: seq<Block>, place: Place, c: Cluster)
    requires PlaceOk(g, v, place) && c as int in Allocatable(g.fatType, FatOf(g, v))
    ensures 2 <= c < g.numClusters && IsPtr(c)
    ensures (place.Chain? ==> c as int !in Nums(place.clusters) && c !in place.clusters)
  {
    if place.Chain? {
      ChainIsUsed(FatOf(g, v), place.clusters);
    }
  }

  /** An extension that is given up has touched nothing of the directory but the last table entry. */
  lemma GivenUp(g: Bpb, v: seq<Block>, v': seq<Block>, place: Place, c: Cluster, last: int, mine: set<int>)
    requires PlaceOk(g, v, place) && Volume(g, v') && Mine(g, v, place) <= mine
    requires c as int in Allocatable(g.fatType, FatOf(g, v)) && ClusterChanged(g, v, v', c)
    requires last in mine
    requires forall j | 0 <= j < g.numClusters && j !in Allocatable(g.fatType, FatOf(g, v)) && j != last ::
               FatOf(g, v')[j] == FatOf(g, v)[j]
    ensures Kept(g, v, v', mine, place.Root?) && RecordsKept(g, v, v', place)
  {
    FreeCluster(g, v, place, c);
    hide FatOf, BlockCluster;
    assert c as int in mine;
    SameBlocks(g, v, v', place);
  }

  /** The allocation itself failed. */
  lemma NotAllocated(g: Bpb, v: seq<Block>, v': seq<Block>, place: Place, mine: set<int>)
    requires PlaceOk(g, v, place) && Volume(g, v') && Mine(g, v, place) <= mine && SameOutsideFat(g, v, v')
    requires forall j | 0 <= j < g.numClusters && j !in Allocatable(g.fatType, FatOf(g, v)) ::
              FatOf(g, v')[j] == FatOf(g, v)[j]
    ensures Kept(g, v, v', mine, place.Root?) && RecordsKept(g, v, v', place)
    ensures FatOf(g, v') == FatOf(g, v) ==> PlaceOk(g, v', place) && Mine(g, v', place) <= mine
  {
    hide FatOf, BlockCluster;
    SameBlocks(g, v, v', place);
  }

  /** A zeroed cluster has been linked behind the chain: the table. */
  lemma ExtendedTable(t: FatType, fat0: seq<Cluster>, fat1: seq<Cluster>, cs: seq<Cluster>, c: Cluster)
    requires IsChain(fat0, cs) && cs != [] && Linked(t, fat0, fat1, [c])
    ensures var last := cs[|cs| - 1]; var fat3 := fat1[last := c];
            && c != last && IsChain(fat3, cs + [c]) && Allocatable(t, fat3) <= Allocatable(t, fat0)
            && (forall j | 0 <= j < |fat0| && j != c && j != last :: fat3[j] == fat0[j])
    ensures c !in cs && c as int in Allocatable(t, fat0)
  {
    var last := cs[|cs| - 1];
    var fat3 := fat1[last := c];
    assert [c][0] == c && c in [c] && c as int in Allocatable(t, fat0);
    ChainIsUsed(fat0, cs);
    assert last in cs && last != c;
    assert forall i | 0 <= i < |cs| :: cs[i] in cs && fat1[cs[i]] == fat0[cs[i]];
    UfatFile.ChainBack(fat1, cs, c, fat3);
    hide IsChain;
    assert forall j | 0 <= j < |fat0| && j !in [c] :: fat1[j] == fat0[j];
  }

  /** The rest of the volume then. */
  lemma Extended(g: Bpb, v0: seq<Block>, v1: seq<Block>, v2: seq<Block>, v3: seq<Block>, cs: seq<Cluster>, c: Cluster,
                 mine: set<int>)
    requires PlaceOk(g, v0, Chain(cs)) && Volume(g, v1) && Volume(g, v2) && Volume(g, v3)
    requires Mine(g, v0, Chain(cs)) <= mine
    requires SameOutsideFat(g, v0, v1) && Linked(g.fatType, FatOf(g, v0), FatOf(g, v1), [c])
    requires ClusterChanged(g, v1, v2, c) && FatOf(g, v2) == FatOf(g, v1)
    requires forall b | 0 <= b < |v2| && g.clusterStart <= b && BlockCluster(g, b) == c ::
              v2[b] == ZeroBlock(g.blockSize)
    requires SameOutsideFat(g, v2, v3) && FatOf(g, v3) == FatOf(g, v2)[cs[|cs| - 1] := c]
    ensures PlaceOk(g, v3, Chain(cs + [c])) && Kept(g, v0, v3, mine, false) && Mine(g, v3, Chain(cs + [c])) <= mine
    ensures |v3| == |v0|
    ensures forall x | 0 <= x < |v0| && InPlace(g, Chain(cs), x) :: v3[x] == v0[x]
    ensures forall x | 0 <= x < |v0| && g.clusterStart <= x && BlockCluster(g, x) == c ::
              v3[x] == ZeroBlock(g.blockSize)
  {
    ExtendedTable(g.fatType, FatOf(g, v0), FatOf(g, v1), cs, c);
    FreeCluster(g, v0, Chain(cs), c);
    assert c as int in mine;
    hide FatOf, BlockCluster, IsChain, Linked;
    MulMono(1, |cs| + 1, g.blocksPerCluster);
    assert forall i | 0 <= i < |cs + [c]| :: (cs + [c])[i] == if i < |cs| then cs[i] else c;
    forall j | j in Nums(cs + [c]) ensures j in mine
    {
      assert j == c as int || j in Nums(cs);
    }
    assert cs[|cs| - 1] as int in Nums(cs);
  }

  function ClusterRecords(g: Bpb): nat { g.blocksPerCluster * PerBlock(g) }

  function ZeroRecord(): Record { seq(32, _ => 0) }

  function ZeroRecords(n: nat): (recs: seq<Record>)
    ensures |recs| == n
  {
    seq(n, _ => ZeroRecord())
  }

  /** The block of a record stays the same when the chain grows. */
  lemma SamePrefixBlock(g: Bpb, v: seq<Block>, cs: seq<Cluster>, c: Cluster, b: nat)
    requires Located(g, v, Chain(cs + [c])) && b < BlockCount(g, Chain(cs + [c]))
    ensures b < |cs| * g.blocksPerCluster ==> DirBlock(g, Chain(cs + [c]), b) == DirBlock(g, Chain(cs), b)
    ensures b >= |cs| * g.blocksPerCluster ==>
              b / g.blocksPerCluster == |cs| && BlockCluster(g, DirBlock(g, Chain(cs + [c]), b)) == c
  {
    var bpc := g.blocksPerCluster;
    DirBlockPlace(g, v, Chain(cs + [c]), b);
    if b < |cs| * bpc {
      DivLess(b, |cs|, bpc);
    } else {
      var r := b - |cs| * bpc;
      assert (|cs| + 1) * bpc == |cs| * bpc + bpc;
      DivModUnique(b, bpc, |cs|, r);
    }
  }

  lemma ExtendedRecord(g: Bpb, v: seq<Block>, v': seq<Block>, cs: seq<Cluster>, c: Cluster, k: nat)
    requires Located(g, v, Chain(cs)) && Located(g, v', Chain(cs + [c])) && |v'| == |v| && k < Count(g, Chain(cs + [c]))
    requires forall x | 0 <= x < |v| && InPlace(g, Chain(cs), x) :: v'[x] == v[x]
    requires forall x | 0 <= x < |v| && g.clusterStart <= x && BlockCluster(g, x) == c ::
              v'[x] == ZeroBlock(g.blockSize)
    ensures RecordAt(g, v', Chain(cs + [c]), k) == if k < Count(g, Chain(cs)) then RecordAt(g, v, Chain(cs), k)
              else ZeroRecord()
  {
    var q, x := k / PerBlock(g), k % PerBlock(g);
    RecordPlace(g, Chain(cs + [c]), k);
    assert Locates(g, k, q, x);
    RecordIs(g, v', Chain(cs + [c]), k, q, x);
    SamePrefixBlock(g, v', cs, c, q);
    DirBlockPlace(g, v', Chain(cs + [c]), q);
    if k < Count(g, Chain(cs)) {
      RecordIs(g, v, Chain(cs), k, q, x);
      InsidePlace(g, v, Chain(cs), q);
    } else {
      BehindCount(g, cs, k, q, x);
      hide RecordAt, DirBlock, Located;
    }
  }

  lemma BehindCount(g: Bpb, cs: seq<Cluster>, k: nat, q: nat, x: nat)
    requires Locates(g, k, q, x) && k >= Count(g, Chain(cs))
    ensures q >= |cs| * g.blocksPerCluster
  {
    var n := |cs| * g.blocksPerCluster;
    assert k == q * PerBlock(g) + x;
    if q < n {
      assert (q + 1) * PerBlock(g) == q * PerBlock(g) + PerBlock(g);
      MulMono(q + 1, n, PerBlock(g));
      assert false;
    }
  }

  lemma ExtendedRecords(g: Bpb, v: seq<Block>, v': seq<Block>, cs: seq<Cluster>, c: Cluster)
    requires Located(g, v, Chain(cs)) && Located(g, v', Chain(cs + [c])) && |v'| == |v|
    requires forall x | 0 <= x < |v| && InPlace(g, Chain(cs), x) :: v'[x] == v[x]
    requires forall x | 0 <= x < |v| && g.clusterStart <= x && BlockCluster(g, x) == c ::
              v'[x] == ZeroBlock(g.blockSize)
    ensures Records(g, v', Chain(cs + [c])) == Records(g, v, Chain(cs)) + ZeroRecords(ClusterRecords(g))
  {
    var n := Count(g, Chain(cs));
    assert (|cs| + 1) * g.blocksPerCluster == |cs| * g.blocksPerCluster + g.blocksPerCluster;
    assert (|cs| * g.blocksPerCluster + g.blocksPerCluster) * PerBlock(g)
        == |cs| * g.blocksPerCluster * PerBlock(g) + g.blocksPerCluster * PerBlock(g);
    forall k | 0 <= k < Count(g, Chain(cs + [c]))
      ensures RecordAt(g, v', Chain(cs + [c]), k) == if k < n then RecordAt(g, v, Chain(cs), k) else ZeroRecord()
    {
      ExtendedRecord(g, v, v', cs, c, k);
    }
    hide RecordAt, InPlace;
  }

  /** A chain of one cluster is released by giving back that cluster. */
  lemma ReleaseOne(fat: seq<Cluster>, c: Cluster)
    requires IsPtr(c) && c < |fat| && fat[c] == EOC
    ensures Visited(fat, c) == {c as int} && !IsPtr(Stop(fat, c))
  {
    assert Visited(fat[c := FREE], EOC) == {} && Stop(fat[c := FREE], EOC) == EOC;
  }

  /** The last part of advance_block_in_chain: a zeroed cluster is linked behind the last one. */
  method ExtendChain(uf: Ufat, last: Cluster, ghost place: Place, ghost mine: set<int>) returns (r: Result<Cluster>)
    requires uf.Valid() && ScanReady(uf) && PlaceOk(uf.bpb, uf.view, place) && Mine(uf.bpb, uf.view, place) <= mine
    requires place.Chain? && last == place.clusters[|place.clusters| - 1]
    modifies uf.Objects()
    ensures uf.Valid() && ScanReady(uf) && old(uf.dev.failures) <= uf.dev.failures
    ensures Kept(uf.bpb, old(uf.view), uf.view, mine, false)
    ensures r.Ok? ==>
              var more := Chain(place.clusters + [r.value]);
              && PlaceOk(uf.bpb, uf.view, more) && Mine(uf.bpb, uf.view, more) <= mine
              && Records(uf.bpb, uf.view, more)
              == Records(uf.bpb, old(uf.view), place) + ZeroRecords(ClusterRecords(uf.bpb))
    ensures r.Err? ==> r.error in {NoClusters, IoError} && RecordsKept(uf.bpb, old(uf.view), uf.view, place)
    ensures r.Err? && uf.dev.failures == old(uf.dev.failures) ==>
              && r.error == NoClusters && PlaceOk(uf.bpb, uf.view, place) && Mine(uf.bpb, uf.view, place) <= mine
              && FullVolume(uf.bpb, uf.view)
  {
    ghost var g, v0 := uf.bpb, uf.view;
    var a, added := AllocChain(uf, 1);
    if a.Err? {
      hide Ufat.CoherentBut, FatOf, IsChain, Allocatable, BlockCluster, Located, OwnBlock, Nums;
      NotAllocated(g, v0, uf.view, place, mine);
      NoneLeft(Allocatable(g.fatType, FatOf(g, v0)));
      return Err(a.error);
    }
    var c := a.value;
    assert added == [c];
    hide *;
    var l := LinkCluster(uf, last, c, v0, place, mine);
    r := if l.Err? then Err(l.error) else Ok(c);
  }

  lemma NoneLeft(s: set<int>)
    ensures |s| < 1 <==> s == {}
  {
  }

  /** The new cluster has been allocated; it is given back when something fails. */
  method LinkCluster(uf: Ufat, last: Cluster, c: Cluster, ghost v0: seq<Block>, ghost place: Place,
                     ghost mine: set<int>)
    returns (r: Result<()>)
    requires uf.Valid() && ScanReady(uf) && Volume(uf.bpb, uf.view)
    requires PlaceOk(uf.bpb, v0, place) && Mine(uf.bpb, v0, place) <= mine
    requires place.Chain? && last == place.clusters[|place.clusters| - 1]
    requires SameOutsideFat(uf.bpb, v0, uf.view)
    requires Linked(uf.bpb.fatType, FatOf(uf.bpb, v0), FatOf(uf.bpb, uf.view), [c])
    modifies uf.Objects()
    ensures uf.Valid() && ScanReady(uf) && old(uf.dev.failures) <= uf.dev.failures
    ensures Kept(uf.bpb, v0, uf.view, mine, false)
    ensures r.Ok? ==>
              var more := Chain(place.clusters + [c]);
              && PlaceOk(uf.bpb, uf.view, more) && Mine(uf.bpb, uf.view, more) <= mine
              && Records(uf.bpb, uf.view, more)
              == Records(uf.bpb, v0, place) + ZeroRecords(ClusterRecords(uf.bpb))
    ensures r.Err? ==>
              r.error == IoError && old(uf.dev.failures) < uf.dev.failures && RecordsKept(uf.bpb, v0, uf.view, place)
  {
    ghost var g, v1 := uf.bpb, uf.view;
    LinkFacts(g, v0, v1, place, c, mine);
    hide Ufat.CoherentBut, Ufat.Valid, FatOf, IsChain, Allocatable, BlockCluster, Located, InPlace, OwnBlock, Nums,
      PlaceOk, Mine, Kept, RecordsKept, Records, Linked, SameOutsideFat, ClusterChanged, Volume, ClusterBlock, Visited,
      Bpb.Fits, Sized, Zeroed;
    r := InitDirentCluster(uf, c);
    ghost var v2 := uf.view;
    OneClusterChanged(g, v1, v2, c);
    if r.Err? {
      ReleaseOne(FatOf(g, v2), c);
      var _ := FreeChain(uf, c);
      Backed(g, v0, v1, v2, v2, uf.view, place, c, last, mine);
      return;
    }
    r := WriteFat(uf, last, c);
    ghost var v3 := uf.view;
    if r.Err? {
      ReleaseOne(FatOf(g, v3), c);
      var _ := FreeChain(uf, c);
      Backed(g, v0, v1, v2, v3, uf.view, place, c, last, mine);
      return;
    }
    Extended(g, v0, v1, v2, v3, place.clusters, c, mine);
    PlaceLocated(g, v0, place);
    PlaceLocated(g, v3, Chain(place.clusters + [c]));
    ExtendedRecords(g, v0, v3, place.clusters, c);
  }

  lemma PlaceLocated(g: Bpb, v: seq<Block>, place: Place)
    requires PlaceOk(g, v, place)
    ensures Located(g, v, place) && Volume(g, v)
  {
  }

  lemma LinkFacts(g: Bpb, v0: seq<Block>, v1: seq<Block>, place: Place, c: Cluster, mine: set<int>)
    requires PlaceOk(g, v0, place) && Volume(g, v1) && Mine(g, v0, place) <= mine && place.Chain?
    requires Linked(g.fatType, FatOf(g, v0), FatOf(g, v1), [c])
    ensures var cs := place.clusters; var last := cs[|cs| - 1];
            && cs != [] && last as int in mine && 2 <= last < g.numClusters && c != last
            && c as int in Allocatable(g.fatType, FatOf(g, v0))
            && 2 <= c < g.numClusters && IsPtr(c) && c !in cs && FatOf(g, v1)[c] == EOC
            && Decode(g.fatType, Encode(g.fatType, c)) == c && place == Chain(cs) && |FatOf(g, v1)| == g.numClusters
  {
    var cs := place.clusters;
    ExtendedTable(g.fatType, FatOf(g, v0), FatOf(g, v1), cs, c);
    FreeCluster(g, v0, place, c);
    UfatFile.AllocatedSurvives(g, v0, c);
    assert cs[|cs| - 1] as int in Nums(cs);
  }

  /** An allocated cluster has been given back after `v3`. */
  lemma Backed(g: Bpb, v0: seq<Block>, v1: seq<Block>, v2: seq<Block>, v3: seq<Block>, v4: seq<Block>, place: Place,
               c: Cluster,
               last: Cluster, mine: set<int>)
    requires PlaceOk(g, v0, place) && Volume(g, v1) && Volume(g, v2) && Volume(g, v3) && Volume(g, v4)
    requires last as int in mine
    requires Mine(g, v0, place) <= mine && c as int in Allocatable(g.fatType, FatOf(g, v0))
    requires SameOutsideFat(g, v0, v1) && Linked(g.fatType, FatOf(g, v0), FatOf(g, v1), [c])
    requires ClusterChanged(g, v1, v2, c) && FatOf(g, v2) == FatOf(g, v1) && SameOutsideFat(g, v2, v3)
    requires SameOutsideFat(g, v3, v4)
    requires forall j | 0 <= j < g.numClusters && j != last as int :: FatOf(g, v3)[j] == FatOf(g, v2)[j]
    requires Visited(FatOf(g, v3), c) == {c as int}
    requires forall j | 0 <= j < g.numClusters && j !in Visited(FatOf(g, v3), c) :: FatOf(g, v4)[j] == FatOf(g, v3)[j]
    ensures Kept(g, v0, v4, mine, place.Root?) && RecordsKept(g, v0, v4, place)
  {
    hide FatOf, BlockCluster, IsChain, Located, Nums, OwnBlock, Mine;
    GivenUp(g, v0, v4, place, c, last, mine);
  }

  lemma OneClusterChanged(g: Bpb, v: seq<Block>, v': seq<Block>, c: Cluster)
    requires Volume(g, v) && Volume(g, v') && |v'| == |v| && 2 <= c < g.numClusters
    requires forall b | 0 <= b < |v| && !(ClusterBlock(g, c) <= b < ClusterBlock(g, c) + g.blocksPerCluster) ::
              v'[b] == v[b]
    ensures ClusterChanged(g, v, v', c) && FatOf(g, v') == FatOf(g, v)
    ensures Zeroed(g, v', c) ==>
              forall b | 0 <= b < |v'| && g.clusterStart <= b && BlockCluster(g, b) == c ::
                  v'[b] == ZeroBlock(g.blockSize)
    ensures SameOutsideFat(g, v', v')
  {
    BlockOfCluster(g, c, 0, |v|);
    forall b: int
      ensures ClusterBlock(g, c) <= b < ClusterBlock(g, c) + g.blocksPerCluster
              <==> g.clusterStart <= b && BlockCluster(g, b) == c
    {
      BlocksOf(g, c, b, |v|);
    }
    hide ClusterBlock, BlockCluster, ZeroBlock;
    UfatFile.SameFat(g, v, v');
  }

  /** The same directory, perhaps with more clusters at its end. */
  predicate Extends(place: Place, place': Place) {
    place' == place || (place.Chain? && place'.Chain? && place.clusters <= place'.clusters)
  }

  // ---- the position of a handle ----

  /** Block `b` and place `p` are those of record `k`, or of the end. */
  ghost predicate At(g: Bpb, place: Place, k: int, b: Option<nat>, p: nat) {
    && 0 <= k <= Count(g, place) && 0 < g.blocksPerCluster && 0 < PerBlock(g)
    && (if k == Count(g, place) then b == None && p == 0
        else
          && k / PerBlock(g) < BlockCount(g, place) && b.Some? && b.value == DirBlock(g, place, k / PerBlock(g))
          && p == k % PerBlock(g))
  }

  lemma NextRecord(g: Bpb, place: Place, k: nat)
    requires 512 <= g.blockSize && g.blockSize % 32 == 0 && k < Count(g, place)
    ensures 0 < PerBlock(g) && PerBlock(g) * 32 == g.blockSize
    ensures var per := PerBlock(g);
            && k / per < BlockCount(g, place)
            && (k % per + 1 < per ==>
                  k + 1 < Count(g, place) && (k + 1) / per == k / per && (k + 1) % per == k % per + 1)
            && (k % per + 1 == per ==>
                  && (k + 1) / per == k / per + 1 && (k + 1) % per == 0
                  && (k + 1 < Count(g, place) <==> k / per + 1 < BlockCount(g, place)))
  {
    var per, n := PerBlock(g), BlockCount(g, place);
    RecordPlace(g, place, k);
    var q, x := k / per, k % per;
    assert k == q * per + x;
    MulMono(q + 1, n, per);
    assert (q + 1) * per == q * per + per;
    if x + 1 < per {
      DivModUnique(k + 1, per, q, x + 1);
    } else {
      DivModUnique(k + 1, per, q + 1, 0);
      if q + 1 < n {
        MulMono(q + 2, n, per);
        assert (q + 2) * per == (q + 1) * per + per;
      }
    }
  }

  /** From one block of a chain to the next one. */
  lemma NextBlock(g: Bpb, v: seq<Block>, cs: seq<Cluster>, q: nat)
    requires Located(g, v, Chain(cs)) && q < BlockCount(g, Chain(cs))
    ensures var i := q / g.blocksPerCluster; var b := DirBlock(g, Chain(cs), q);
            && 0 <= i < |cs| && BlockCluster(g, b) == cs[i] && g.clusterStart <= b < |v|
            && (BlockCluster(g, b + 1) == cs[i] ==>
                  q + 1 < BlockCount(g, Chain(cs)) && DirBlock(g, Chain(cs), q + 1) == b + 1)
            && (BlockCluster(g, b + 1) != cs[i] ==>
                  && (q + 1 < BlockCount(g, Chain(cs)) <==> i + 1 < |cs|)
                  && (i + 1 < |cs| ==> DirBlock(g, Chain(cs), q + 1) == ClusterBlock(g, cs[i + 1])))
  {
    var bpc, n := g.blocksPerCluster, |cs|;
    DirBlockPlace(g, v, Chain(cs), q);
    DivLess(q, n, bpc);
    var i, x := q / bpc, q % bpc;
    assert q == i * bpc + x;
    assert (i + 1) * bpc == i * bpc + bpc;
    MulMono(i + 1, n, bpc);
    BlocksOf(g, cs[i], DirBlock(g, Chain(cs), q) + 1, |v|);
    if x + 1 < bpc {
      DivModUnique(q + 1, bpc, i, x + 1);
    } else {
      DivModUnique(q + 1, bpc, i + 1, 0);
      if i + 1 < n {
        MulMono(i + 2, n, bpc);
        assert (i + 2) * bpc == (i + 1) * bpc + bpc;
      }
    }
  }

  /** What the table says behind cluster `i` of a chain. */
  lemma ChainNext(g: Bpb, v: seq<Block>, cs: seq<Cluster>, i: nat)
    requires PlaceOk(g, v, Chain(cs)) && i < |cs|
    ensures 2 <= cs[i] < g.numClusters
    ensures i + 1 < |cs| ==> FatOf(g, v)[cs[i]] == cs[i + 1] && IsPtr(cs[i + 1])
    ensures i + 1 == |cs| ==> !IsPtr(FatOf(g, v)[cs[i]]) && cs[i] == cs[|cs| - 1]
  {
  }

  class Directory {
    const uf: Ufat
    var start: nat
    var curBlock: Option<nat>
    var curPos: nat

    /** A handle as ufat_open_root and ufat_open_subdir leave it. */
    constructor (uf: Ufat, start: nat)
      ensures this.uf == uf && this.start == start && curBlock == Some(start) && curPos == 0
    {
      this.uf, this.start, curBlock, curPos := uf, start, Some(start), 0;
    }

    /** The handle is at record `k` of a directory, or at its end. */
    ghost predicate Standing(place: Place, k: int)
      reads this
    {
      At(uf.bpb, place, k, curBlock, curPos)
    }

    ghost predicate Ready(place: Place, mine: set<int>)
      reads this, uf, uf.Objects()
    {
      uf.Valid() && ScanReady(uf) && PlaceOk(uf.bpb, uf.view, place) && Mine(uf.bpb, uf.view, place) <= mine
    }

    /** ufat_dir_rewind */
    method Rewind(ghost place: Place)
      requires Located(uf.bpb, uf.view, place) && start == DirBlock(uf.bpb, place, 0)
      modifies this`curBlock, this`curPos
      ensures Standing(place, 0)
    {
      curBlock, curPos := Some(start), 0;
      FirstRecordExists(uf.bpb, uf.view, place);
    }

    /** ufat_read_raw_dirent: no record at the end. */
    method ReadRaw(ghost place: Place, ghost k: nat) returns (r: Result<Option<Record>>)
      requires uf.Valid() && PlaceOk(uf.bpb, uf.view, place) && Standing(place, k)
      modifies uf.Objects()
      ensures uf.Valid() && uf.view == old(uf.view) && uf.allocPtr == old(uf.allocPtr)
      ensures old(uf.dev.failures) <= uf.dev.failures
      ensures r.Err? ==> r.error == IoError && old(uf.dev.failures) < uf.dev.failures
      ensures r.Ok? ==> r.value == if k < Count(uf.bpb, place) then Some(Records(uf.bpb, uf.view, place)[k]) else None
    {
      hide Ufat.CoherentBut, FatOf, IsChain;
      if curBlock.None? {
        return Ok(None);
      }
      RecordPlace(uf.bpb, place, k);
      DirBlockPlace(uf.bpb, uf.view, place, k / PerBlock(uf.bpb));
      hide DirBlock;
      var idx := uf.Open(curBlock.value, false);
      if idx.Err? {
        return Err(idx.error);
      }
      r := Ok(Some(uf.cacheData[idx.value][curPos * 32..curPos * 32 + 32]));
    }

    /** ufat_write_raw_dirent */
    method WriteRaw(data: seq<byte>, ghost place: Place, ghost k: nat, ghost mine: set<int>) returns (r: Result<()>)
      requires Ready(place, mine) && Standing(place, k) && |data| <= 32
      modifies uf.Objects()
      ensures Ready(place, mine) && Standing(place, k) && old(uf.dev.failures) <= uf.dev.failures
      ensures Kept(uf.bpb, old(uf.view), uf.view, mine, place.Root?)
      ensures FatOf(uf.bpb, uf.view) == FatOf(uf.bpb, old(uf.view))
      ensures r.Err? ==> r.error == IoError && uf.view == old(uf.view)
      ensures r.Err? && k < Count(uf.bpb, place) ==> old(uf.dev.failures) < uf.dev.failures
      ensures r.Ok? ==>
                && k < Count(uf.bpb, place)
                && Records(uf.bpb, uf.view, place) == var recs := Records(uf.bpb, old(uf.view), place);
                                                      recs[k := data + recs[k][|data|..]]
    {
      hide Ufat.CoherentBut, FatOf, IsChain, Mine, Kept;
      ghost var g, v := uf.bpb, uf.view;
      KeptSame(g, v, mine, place.Root?);
      if curBlock.None? {
        return Err(IoError);
      }
      RecordPlace(g, place, k);
      DirBlockPlace(g, v, place, k / PerBlock(g));
      WrittenKeeps(g, v, place, k, data, mine);
      RecordWritten(g, v, place, k, data);
      var idx := uf.Open(curBlock.value, false);
      if idx.Err? {
        return Err(idx.error);
      }
      uf.WriteCached(idx.value, curPos * 32, data);
      r := Ok(());
    }

    /** advance_block_in_chain, at the last record of block `q`. */
    method AdvanceBlockInChain(canAlloc: bool, ghost place: Place, ghost q: nat, ghost mine: set<int>)
      returns (r: Result<()>, ghost place': Place)
      requires Ready(place, mine) && place.Chain? && q < BlockCount(uf.bpb, place) && 0 < uf.bpb.blocksPerCluster
      requires curBlock.Some? && curBlock.value == DirBlock(uf.bpb, place, q)
      modifies this`curBlock, uf.Objects()
      ensures uf.Valid() && ScanReady(uf) && old(uf.dev.failures) <= uf.dev.failures
      ensures Kept(uf.bpb, old(uf.view), uf.view, mine, false)
      ensures r.Ok? ==> Ready(place', mine) && Extends(place, place')
      ensures r.Ok? && q + 1 < BlockCount(uf.bpb, place) ==>
                place' == place && uf.view == old(uf.view)
                && curBlock.Some? && curBlock.value == DirBlock(uf.bpb, place, q + 1)
      ensures r.Ok? && q + 1 == BlockCount(uf.bpb, place) && !canAlloc ==>
                place' == place && uf.view == old(uf.view) && curBlock == None
      ensures r.Ok? && q + 1 == BlockCount(uf.bpb, place) && canAlloc ==>
                && place'.Chain? && q + 1 < BlockCount(uf.bpb, place')
                && curBlock.Some? && curBlock.value == DirBlock(uf.bpb, place', q + 1)
                && Records(uf.bpb, uf.view, place')
                == Records(uf.bpb, old(uf.view), place) + ZeroRecords(ClusterRecords(uf.bpb))
      ensures r.Err? ==> r.error in {NoClusters, IoError} && RecordsKept(uf.bpb, old(uf.view), uf.view, place)
      ensures r.Err? && uf.dev.failures == old(uf.dev.failures) ==>
                r.error == NoClusters && Ready(place, mine) && FullVolume(uf.bpb, uf.view)
      ensures r.Err? && uf.dev.failures == old(uf.dev.failures) ==> q + 1 == BlockCount(uf.bpb, place)
      ensures !canAlloc ==> uf.view == old(uf.view) && Ready(place, mine)
      ensures !canAlloc && r.Err? ==> r.error == IoError && old(uf.dev.failures) < uf.dev.failures
    {
      hide Ufat.CoherentBut, FatOf, IsChain, Mine, Kept, Located, DirBlock, BlockCluster, ClusterBlock, PlaceOk,
        Records, Volume, Ufat.Valid, Bpb.Fits, Sized, BlockCount;
      place' := place;
      ghost var g, v, cs := uf.bpb, uf.view, place.clusters;
      PlaceLocated(g, v, place);
      assert place == Chain(cs);
      NextBlock(g, v, cs, q);
      ghost var i := q / g.blocksPerCluster;
      ChainNext(g, v, cs, i);
      KeptSame(g, v, mine, false);
      var curCluster := BlockCluster(uf.bpb, curBlock.value);
      var nextBlock := curBlock.value + 1;
      if curCluster == BlockCluster(uf.bpb, nextBlock) {
        curBlock := Some(nextBlock);
        return Ok(()), place;
      }
      var next := ReadFat(uf, curCluster);
      if next.Err? {
        RecordsSame(g, v, place);
        return Err(next.error), place;
      }
      if IsPtr(next.value) {
        DirBlockNat(g, v, place, q + 1);
        curBlock := Some(ClusterBlock(uf.bpb, next.value));
        return Ok(()), place;
      }
      if !canAlloc {
        curBlock := None;
        return Ok(()), place;
      }
      r, place' := AppendCluster(curCluster, place, q, mine);
    }

    /** The last part of advance_block_in_chain: the chain gets a new cluster. */
    method AppendCluster(curCluster: Cluster, ghost place: Place, ghost q: nat, ghost mine: set<int>)
      returns (r: Result<()>, ghost place': Place)
      requires Ready(place, mine) && place.Chain? && q + 1 == BlockCount(uf.bpb, place) && 0 < uf.bpb.blocksPerCluster
      requires place.clusters != [] && curCluster == place.clusters[|place.clusters| - 1]
      modifies this`curBlock, uf.Objects()
      ensures uf.Valid() && ScanReady(uf) && old(uf.dev.failures) <= uf.dev.failures
      ensures Kept(uf.bpb, old(uf.view), uf.view, mine, false)
      ensures r.Ok? ==>
                && Ready(place', mine) && place'.Chain? && Extends(place, place') && q + 1 < BlockCount(uf.bpb, place')
                && curBlock.Some? && curBlock.value == DirBlock(uf.bpb, place', q + 1)
                && Records(uf.bpb, uf.view, place')
                   == Records(uf.bpb, old(uf.view), place) + ZeroRecords(ClusterRecords(uf.bpb))
      ensures r.Err? ==> r.error in {NoClusters, IoError} && RecordsKept(uf.bpb, old(uf.view), uf.view, place)
      ensures r.Err? && uf.dev.failures == old(uf.dev.failures) ==>
                r.error == NoClusters && Ready(place, mine) && FullVolume(uf.bpb, uf.view)
    {
      place' := place;
      hide Ufat.CoherentBut, FatOf, IsChain, Mine, Kept, Located, DirBlock, BlockCluster, ClusterBlock, PlaceOk,
        Records, Volume, Ufat.Valid, Bpb.Fits, Sized, ClusterRecords;
      var c := ExtendChain(uf, curCluster, place, mine);
      if c.Err? {
        return Err(c.error), place;
      }
      place' := Chain(place.clusters + [c.value]);
      GrownBlock(uf.bpb, uf.view, place.clusters, c.value, q + 1);
      curBlock := Some(ClusterBlock(uf.bpb, c.value));
      r := Ok(());
    }

    /** ufat_advance_raw_dirent, from record `k` to the next one. The directory grows when the end is reached, it is a
        chain and `canAlloc` is set. */
    method AdvanceRaw(canAlloc: bool, ghost place: Place, ghost k: nat, ghost mine: set<int>)
      returns (r: Result<()>, ghost place': Place)
      requires Ready(place, mine) && Standing(place, k) && k < Count(uf.bpb, place)
      modifies this`curBlock, this`curPos, uf.Objects()
      ensures uf.Valid() && ScanReady(uf) && old(uf.dev.failures) <= uf.dev.failures
      ensures Kept(uf.bpb, old(uf.view), uf.view, mine, place.Root?)
      ensures r.Ok? ==> Ready(place', mine) && Standing(place', k + 1) && Extends(place, place')
      ensures r.Ok? && (k + 1 < Count(uf.bpb, place) || !canAlloc || place.Root?) ==>
                place' == place && uf.view == old(uf.view)
      ensures r.Ok? && k + 1 == Count(uf.bpb, place) && canAlloc && place.Chain? ==>
                && k + 1 < Count(uf.bpb, place')
                && Records(uf.bpb, uf.view, place')
                   == Records(uf.bpb, old(uf.view), place) + ZeroRecords(ClusterRecords(uf.bpb))
      ensures r.Err? ==> r.error in {NoClusters, IoError} && RecordsKept(uf.bpb, old(uf.view), uf.view, place)
      ensures r.Err? && uf.dev.failures == old(uf.dev.failures) ==>
                r.error == NoClusters && Ready(place, mine) && FullVolume(uf.bpb, uf.view)
      ensures r.Err? && uf.dev.failures == old(uf.dev.failures) ==> k + 1 == Count(uf.bpb, place)
      ensures !canAlloc ==> uf.view == old(uf.view) && Ready(place, mine)
      ensures !canAlloc && r.Err? ==> r.error == IoError && old(uf.dev.failures) < uf.dev.failures
    {
      hide Ufat.CoherentBut, FatOf, IsChain, Mine, Kept, Located, DirBlock, PlaceOk, Records, Volume, Ufat.Valid, Sized,
        PerBlock, BlockCount, ClusterRecords, Count, ScanReady;
      place' := place;
      ghost var g, v := uf.bpb, uf.view;
      KeptOfPlace(g, v, place, mine);
      RootEnd(g, v, place, k);
      NextRecord(g, place, k);
      ghost var q := k / PerBlock(g);
      curPos := curPos + 1;
      if curPos * 32 >= uf.bpb.blockSize {
        curPos := 0;
        if curBlock.value < uf.bpb.clusterStart {
          curBlock := if curBlock.value + 1 >= uf.bpb.clusterStart then None else Some(curBlock.value + 1);
          return Ok(()), place;
        }
        r, place' := AdvanceBlockInChain(canAlloc, place, q, mine);
        if r.Ok? {
          StandingNext(g, place, place', k, q, q + 1, curBlock);
        }
        return;
      }
      r := Ok(());
    }
  }

  lemma FirstRecordExists(g: Bpb, v: seq<Block>, place: Place)
    requires Located(g, v, place)
    ensures At(g, place, 0, Some(DirBlock(g, place, 0)), 0) && 0 < Count(g, place)
  {
    MulMono(1, BlockCount(g, place), PerBlock(g));
    DirBlockPlace(g, v, place, 0);
  }

  lemma RecordsSame(g: Bpb, v: seq<Block>, place: Place)
    requires PlaceOk(g, v, place)
    ensures RecordsKept(g, v, v, place)
  {
  }

  lemma DirBlockNat(g: Bpb, v: seq<Block>, place: Place, q: nat)
    requires PlaceOk(g, v, place) && q < BlockCount(g, place)
    ensures 0 < g.blocksPerCluster && 0 <= DirBlock(g, place, q)
  {
    DirBlockPlace(g, v, place, q);
  }

  /** The first block of a new cluster. */
  lemma GrownBlock(g: Bpb, v: seq<Block>, cs: seq<Cluster>, c: Cluster, q: nat)
    requires PlaceOk(g, v, Chain(cs + [c])) && q == |cs| * g.blocksPerCluster
    ensures 0 < g.blocksPerCluster && q < BlockCount(g, Chain(cs + [c]))
    ensures 0 <= ClusterBlock(g, c) == DirBlock(g, Chain(cs + [c]), q)
  {
    var bpc, more := g.blocksPerCluster, cs + [c];
    assert |more| == |cs| + 1 && more[|cs|] == c;
    GrownCount(|cs|, bpc, q);
    DirBlockPlace(g, v, Chain(more), q);
  }

  lemma GrownCount(n: nat, bpc: nat, q: nat)
    requires 0 < bpc && q == n * bpc
    ensures q < (n + 1) * bpc && q / bpc == n && q % bpc == 0
  {
    assert (n + 1) * bpc == n * bpc + bpc;
    DivModUnique(q, bpc, n, 0);
  }

  /** The blocks of the root directory end where the clusters start. */
  lemma RootEnd(g: Bpb, v: seq<Block>, place: Place, k: nat)
    requires PlaceOk(g, v, place) && k < Count(g, place)
    ensures 0 < PerBlock(g) && 0 < g.blocksPerCluster && 0 <= k / PerBlock(g) < BlockCount(g, place)
    ensures var q := k / PerBlock(g); var b := DirBlock(g, place, q);
            && 0 <= b && (place.Root? <==> b < g.clusterStart)
            && (place.Root? ==> (b + 1 >= g.clusterStart <==> q + 1 == BlockCount(g, place))
                                && (q + 1 < BlockCount(g, place) ==> DirBlock(g, place, q + 1) == b + 1))
  {
    RecordPlace(g, place, k);
    DirBlockPlace(g, v, place, k / PerBlock(g));
  }

  lemma KeptOfPlace(g: Bpb, v: seq<Block>, place: Place, mine: set<int>)
    requires PlaceOk(g, v, place)
    ensures Kept(g, v, v, mine, place.Root?) && 512 <= g.blockSize && g.blockSize % 32 == 0
  {
  }

  lemma StandingNext(g: Bpb, place: Place, place': Place, k: nat, q: nat, q': nat, b: Option<nat>)
    requires 0 < g.blocksPerCluster && 0 < PerBlock(g) && k < Count(g, place) && q == k / PerBlock(g) && q' == q + 1
    requires (k + 1) / PerBlock(g) == q' && (k + 1) % PerBlock(g) == 0
    requires if q' < BlockCount(g, place') then b.Some? && b.value == DirBlock(g, place', q')
             else q' == BlockCount(g, place') && b == None
    ensures At(g, place', k + 1, b, 0) && (k + 1 < Count(g, place') <==> q' < BlockCount(g, place'))
  {
    var per, n := PerBlock(g), BlockCount(g, place');
    assert k + 1 == q' * per;
    FirstOfBlock(q', n, per, k + 1);
  }

  lemma FirstOfBlock(q: nat, n: nat, per: nat, k: nat)
    requires 0 < per && k == q * per && q <= n
    ensures q < n <==> k < n * per
    ensures q == n ==> k == n * per
  {
    if q < n {
      assert (q + 1) * per == q * per + per;
      MulMono(q + 1, n, per);
    }
  }

  /** Positions stay the same when the directory grows. */
  lemma AtExtended(g: Bpb, v: seq<Block>, place: Place, place': Place, k: int, b: Option<nat>, p: nat)
    requires Located(g, v, place) && Located(g, v, place') && Extends(place, place')
    requires At(g, place, k, b, p) && k < Count(g, place)
    ensures At(g, place', k, b, p) && k < Count(g, place')
  {
    if place' != place {
      var n, n', per := BlockCount(g, place), BlockCount(g, place'), PerBlock(g);
      MulMono(|place.clusters|, |place'.clusters|, g.blocksPerCluster);
      MulMono(n, n', per);
      RecordPlace(g, place, k);
      var q := k / per;
      DivLess(q, |place.clusters|, g.blocksPerCluster);
    }
  }

  lemma StartExtended(g: Bpb, v: seq<Block>, place: Place, place': Place)
    requires Located(g, v, place) && Located(g, v, place') && Extends(place, place')
    ensures 0 < g.blocksPerCluster && DirBlock(g, place', 0) == DirBlock(g, place, 0)
  {
  }
}
