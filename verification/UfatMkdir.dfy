/** Creating a directory (mysh/fs/ufat_dir.c): a new cluster with the entries of the directory itself and of its parent,
    and an entry for it. */
module UfatMkdir {
  import opened Integers
  import opened UfatCache
  import opened UfatFat
  import opened UfatChain
  import opened UfatNames
  import opened UfatListing
  import opened UfatShort
  import opened UfatDir
  import opened UfatDirOps
  import opened UfatDirEdit
  import opened UfatLookup
  import opened UfatMove
  import opened UfatDelete
  import Arith
  import opened UfatLayout

  // ---- the two entries of an empty directory ----

  function DotEntry(down: Dirent, c: Cluster): Dirent {
    down.(shortName := [DOT], shortExt := [], attributes := 0x10, firstCluster := c, fileSize := 0)
  }

  function DotDotEntry(down: Dirent, parent: Cluster): Dirent {
    DotEntry(down, parent).(shortName := [DOT, DOT])
  }

  /** The entries of the directory itself and of its parent, and no more. */
  ghost predicate OnlyDots(t: FatType, items: seq<Item>, down: Dirent, c: Cluster, parent: Cluster) {
    && |items| == 2 && items[0].name == None && items[1].name == None
    && IsDotFor(t, items[0].rec, [Ascii('.')], down, c)
    && IsDotFor(t, items[1].rec, [Ascii('.'), Ascii('.')], down, parent)
  }

  /** A directory entry without extension and size, for a cluster, with the times of `down`. */
  ghost predicate IsDotFor(t: FatType, r: Record, name: seq<byte>, down: Dirent, c: Cluster) {
    DirentOf(t, r)
    == Dirent(name, [], 0x10, down.createTime, down.createDate, down.accessDate, down.modifyTime, down.modifyDate,
              if t == Fat32 then c else c % 0x1_0000, 0)
  }

  lemma DotsAreHollow(t: FatType, items: seq<Item>, down: Dirent, c: Cluster, parent: Cluster)
    requires OnlyDots(t, items, down, c, parent)
    ensures Hollow(items)
  {
    assert forall i | 0 <= i < |items| :: DirentOf(t, items[i].rec).shortName == ShortOf(items[i].rec);
  }

  lemma DotRecord(t: FatType, e: Dirent, data: Record)
    requires IsDot(e) && data[0x0b] == e.attributes && data[0] == DOT
    ensures IsEntry(data) && !IsLabel(data)
  {
  }

  lemma TwoListed(a: Record, b: Record, n: nat)
    requires IsEntry(a) && !IsLabel(a) && IsEntry(b) && !IsLabel(b)
    ensures var recs := [a, b] + ZeroRecords(n);
            AllClean(recs) && Listing(recs) == [Item(0, None, a, None), Item(1, None, b, None)]
  {
    var two, zeros := [a, b], ZeroRecords(n);
    assert forall k | 0 <= k < n :: zeros[k] == ZeroRecord() && IsFree(zeros[k]) && Clean(zeros[k]);
    assert AllClean(two) && AllClean(two + zeros);
    MoreFree(two, zeros);
    assert ScanTo(two, 2, 2, Idle) == (Idle, []);
    assert ScanTo(two, 1, 2, Idle).1 == [Item(1, None, b, None)];
    assert Listing(two) == [Item(0, None, a, None)] + [Item(1, None, b, None)];
  }

  // ---- a new cluster ----

  lemma ZeroCluster(g: Bpb, v: seq<Block>, c: Cluster)
    requires Located(g, v, Chain([c]))
    requires forall b | 0 <= b < |v| && g.clusterStart <= b && BlockCluster(g, b) == c :: v[b] == ZeroBlock(g.blockSize)
    ensures Records(g, v, Chain([c])) == ZeroRecords(ClusterRecords(g))
  {
    var place := Chain([c]);
    assert 1 * g.blocksPerCluster == g.blocksPerCluster;
    forall k | 0 <= k < Count(g, place)
      ensures RecordAt(g, v, place, k) == ZeroRecord()
    {
      RecordPlace(g, place, k);
      var q, x := k / PerBlock(g), k % PerBlock(g);
      assert Locates(g, k, q, x);
      RecordIs(g, v, place, k, q, x);
      DirBlockPlace(g, v, place, q);
    }
    hide RecordAt;
  }

  /** A cluster has been allocated and zeroed: it is an empty directory, and the other directory is as it was. */
  lemma NewPlace(g: Bpb, v0: seq<Block>, v1: seq<Block>, v2: seq<Block>, place: Place, c: Cluster, mine: set<int>)
    requires PlaceOk(g, v0, place) && Volume(g, v1) && Volume(g, v2) && Mine(g, v0, place) <= mine
    requires SameOutsideFat(g, v0, v1) && Linked(g.fatType, FatOf(g, v0), FatOf(g, v1), [c])
    requires ClusterChanged(g, v1, v2, c) && FatOf(g, v2) == FatOf(g, v1)
    requires forall b | 0 <= b < |v2| && g.clusterStart <= b && BlockCluster(g, b) == c ::
               v2[b] == ZeroBlock(g.blockSize)
    ensures 2 <= c < g.numClusters && IsPtr(c) && FatOf(g, v0)[c] == FREE && FatOf(g, v2) == FatOf(g, v0)[c := EOC]
    ensures PlaceOk(g, v2, place) && RecordsKept(g, v0, v2, place) && Kept(g, v0, v2, mine, place.Root?)
    ensures PlaceOk(g, v2, Chain([c])) && Located(g, v2, Chain([c]))
    ensures Records(g, v2, Chain([c])) == ZeroRecords(ClusterRecords(g))
    ensures Mine(g, v2, place) <= mine && Mine(g, v2, Chain([c])) <= mine && c as int !in Mine(g, v2, place)
    ensures Apart(place, Chain([c]))
  {
    assert [c][0] == c && c in [c];
    FreeCluster(g, v0, place, c);
    TableWith(g.fatType, FatOf(g, v0), FatOf(g, v1), c);
    hide FatOf, BlockCluster, Linked;
    assert c as int in mine;
    GivenUp(g, v0, v2, place, c, c, mine);
    assert Nums([c]) == {c as int};
    assert 1 * g.blocksPerCluster == g.blocksPerCluster;
    ZeroCluster(g, v2, c);
  }

  lemma TableWith(t: FatType, fat0: seq<Cluster>, fat1: seq<Cluster>, c: Cluster)
    requires Linked(t, fat0, fat1, [c])
    ensures c < |fat0| && fat1 == fat0[c := EOC] && c as int in Allocatable(t, fat0) && IsChain(fat1, [c])
    ensures Allocatable(t, fat1) <= Allocatable(t, fat0) && c as int !in Allocatable(t, fat1)
    ensures forall j | 0 <= j < |fat0| && j !in Allocatable(t, fat0) :: fat1[j] == fat0[j]
  {
    assert [c][0] == c && c in [c];
    assert forall j | 0 <= j < |fat0| && j != c :: j !in [c] && fat1[j] == fat0[j];
  }

  /** The start of create_empty_dir. */
  method NewCluster(uf: Ufat, ghost place: Place, ghost mine: set<int>) returns (r: Result<Cluster>)
    requires uf.Valid() && ScanReady(uf) && PlaceOk(uf.bpb, uf.view, place) && Mine(uf.bpb, uf.view, place) <= mine
    modifies uf.Objects()
    ensures uf.Valid() && ScanReady(uf) && old(uf.dev.failures) <= uf.dev.failures
    ensures Volume(uf.bpb, old(uf.view)) && Volume(uf.bpb, uf.view)
    ensures RecordsKept(uf.bpb, old(uf.view), uf.view, place)
    ensures Kept(uf.bpb, old(uf.view), uf.view, mine, place.Root?)
    ensures r.Err? ==> r.error in {NoClusters, IoError}
    ensures r == Err(IoError) ==> old(uf.dev.failures) < uf.dev.failures
    ensures r.Err? && uf.dev.failures == old(uf.dev.failures) ==>
              FatOf(uf.bpb, uf.view) == FatOf(uf.bpb, old(uf.view)) && FullVolume(uf.bpb, uf.view)
    ensures r.Ok? ==>
              var g, c := uf.bpb, r.value;
              && 2 <= c < g.numClusters && IsPtr(c) && FatOf(g, old(uf.view))[c] == FREE
              && FatOf(g, uf.view) == FatOf(g, old(uf.view))[c := EOC]
              && PlaceOk(g, uf.view, place) && PlaceOk(g, uf.view, Chain([c])) && Located(g, uf.view, Chain([c]))
              && Records(g, uf.view, Chain([c])) == ZeroRecords(ClusterRecords(g))
              && Mine(g, uf.view, place) <= mine && Mine(g, uf.view, Chain([c])) <= mine
              && c as int !in Mine(g, uf.view, place) && Apart(place, Chain([c]))
  {
    ghost var g, v0 := uf.bpb, uf.view;
    PlaceLocated(g, v0, place);
    hide *;
    var a, added := AllocChain(uf, 1);
    ghost var v1 := uf.view;
    if a.Err? {
      NotAllocated(g, v0, v1, place, mine);
      NoneLeft(Allocatable(g.fatType, FatOf(g, v0)));
      IsFull(g, v0, v1);
      return Err(a.error);
    }
    var c := a.value;
    OneCluster(g, v0, v1, added, c, place, mine);
    var z := InitDirentCluster(uf, c);
    ghost var v2 := uf.view;
    OneClusterChanged(g, v1, v2, c);
    if z.Err? {
      ReleaseOne(FatOf(g, v2), c);
      var _ := FreeChain(uf, c);
      Backed(g, v0, v1, v2, v2, uf.view, place, c, c, mine);
      return Err(z.error);
    }
    NewPlace(g, v0, v1, v2, place, c, mine);
    r := Ok(c);
  }

  lemma IsFull(g: Bpb, v: seq<Block>, v': seq<Block>)
    requires Volume(g, v) && Volume(g, v')
    ensures Allocatable(g.fatType, FatOf(g, v)) == {} && FatOf(g, v') == FatOf(g, v) ==> FullVolume(g, v')
  {
  }

  lemma OneCluster(g: Bpb, v0: seq<Block>, v1: seq<Block>, added: seq<Cluster>, c: Cluster, place: Place,
                   mine: set<int>)
    requires PlaceOk(g, v0, place) && Volume(g, v1) && Mine(g, v0, place) <= mine
    requires |added| == 1 && added[0] == c && Linked(g.fatType, FatOf(g, v0), FatOf(g, v1), added)
    ensures Linked(g.fatType, FatOf(g, v0), FatOf(g, v1), [c])
    ensures c as int in Allocatable(g.fatType, FatOf(g, v0)) && c as int in mine
    ensures 2 <= c < g.numClusters && IsPtr(c) && FatOf(g, v1)[c] == EOC && |FatOf(g, v1)| == g.numClusters
  {
    assert added == [c];
    TableWith(g.fatType, FatOf(g, v0), FatOf(g, v1), c);
    FreeCluster(g, v0, place, c);
  }

  // ---- the first two records ----

  /** Records 0 and 1 are at the start of the first block. */
  lemma AtStart(g: Bpb, v: seq<Block>, c: Cluster, k: nat, data: Record, mine: set<int>)
    requires PlaceOk(g, v, Chain([c])) && Mine(g, v, Chain([c])) <= mine && k < 2
    ensures 0 <= ClusterBlock(g, c) < |v| && k * 32 + 32 <= g.blockSize && !g.IsMirror(ClusterBlock(g, c))
    ensures Located(g, v, Chain([c]))
    ensures var b: nat := ClusterBlock(g, c); var v' := v[b := Patch(v[b], k * 32, data)];
            && PlaceOk(g, v', Chain([c])) && Located(g, v', Chain([c])) && Volume(g, v) && Volume(g, v')
            && FatOf(g, v') == FatOf(g, v) && Kept(g, v, v', mine, false) && Mine(g, v', Chain([c])) <= mine
            && |Records(g, v, Chain([c]))| == ClusterRecords(g) && 2 <= ClusterRecords(g)
            && Records(g, v', Chain([c])) == Records(g, v, Chain([c]))[k := data]
  {
    var place := Chain([c]);
    StartOf(g, v, place);
    Enough(g, c);
    FirstBlock(g, v, place);
    DirBlockPlace(g, v, place, 0);
    RecordPlace(g, place, k);
    WrittenIs(g, v, place, k, data, 0, k);
    WrittenKeeps(g, v, place, k, data, mine);
    RecordWritten(g, v, place, k, data);
    var last := RecordAt(g, v, place, k);
    hide Written, RecordAt, FatOf, DirBlock, Mine, Kept;
    assert data + last[|data|..] == data;
  }

  lemma Enough(g: Bpb, c: Cluster)
    requires 512 <= g.blockSize && 0 < g.blocksPerCluster && g.blockSize % 32 == 0
    ensures 16 <= PerBlock(g) && PerBlock(g) * 32 == g.blockSize && Count(g, Chain([c])) == ClusterRecords(g)
    ensures 16 <= ClusterRecords(g) && Locates(g, 0, 0, 0) && Locates(g, 1, 0, 1)
  {
    assert 1 * g.blocksPerCluster == g.blocksPerCluster;
    Arith.MulMono(1, g.blocksPerCluster, PerBlock(g));
  }

  lemma DotStored(t: FatType, a: Record, b: Record, down: Dirent, c: Cluster, parent: Cluster)
    requires DirentOf(t, a) == Stored(t, DotEntry(down, c)) && DirentOf(t, b) == Stored(t, DotDotEntry(down, parent))
    ensures IsDotFor(t, a, [Ascii('.')], down, c) && IsDotFor(t, b, [Ascii('.'), Ascii('.')], down, parent)
  {
    hide DirentOf;
  }

  /** The contents of the new directory once both records are there. */
  lemma DotsListed(g: Bpb, v: seq<Block>, v1: seq<Block>, v2: seq<Block>, c: Cluster, down: Dirent, parent: Cluster,
                   a: Record, b: Record)
    requires Located(g, v, Chain([c])) && Located(g, v1, Chain([c])) && Located(g, v2, Chain([c]))
    requires 2 <= ClusterRecords(g) && Records(g, v, Chain([c])) == ZeroRecords(ClusterRecords(g))
    requires Records(g, v1, Chain([c])) == Records(g, v, Chain([c]))[0 := a]
    requires |Records(g, v1, Chain([c]))| == ClusterRecords(g)
    requires Records(g, v2, Chain([c])) == Records(g, v1, Chain([c]))[1 := b]
    requires IsEntry(a) && !IsLabel(a) && IsEntry(b) && !IsLabel(b)
    requires DirentOf(g.fatType, a) == Stored(g.fatType, DotEntry(down, c))
    requires DirentOf(g.fatType, b) == Stored(g.fatType, DotDotEntry(down, parent))
    ensures AllClean(Records(g, v2, Chain([c])))
    ensures OnlyDots(g.fatType, Listing(Records(g, v2, Chain([c]))), down, c, parent)
  {
    DotStored(g.fatType, a, b, down, c, parent);
    hide Located, DirentOf, Stored, IsEntry, IsLabel, DotEntry, DotDotEntry, AllClean, Listing, IsDotFor;
    var n := ClusterRecords(g);
    hide ClusterRecords;
    assert Records(g, v2, Chain([c])) == [a, b] + ZeroRecords(n - 2);
    TwoListed(a, b, n - 2);
  }

  /** The end of create_empty_dir. */
  method WriteDots(uf: Ufat, c: Cluster, down: Dirent, parent: Cluster, ghost mine: set<int>) returns (r: Result<()>)
    requires uf.Valid() && ScanReady(uf) && PlaceOk(uf.bpb, uf.view, Chain([c]))
    requires Mine(uf.bpb, uf.view, Chain([c])) <= mine && Located(uf.bpb, uf.view, Chain([c]))
    requires Records(uf.bpb, uf.view, Chain([c])) == ZeroRecords(ClusterRecords(uf.bpb))
    modifies uf.Objects()
    ensures uf.Valid() && ScanReady(uf) && old(uf.dev.failures) <= uf.dev.failures
    ensures Volume(uf.bpb, uf.view) && Volume(uf.bpb, old(uf.view))
    ensures FatOf(uf.bpb, uf.view) == FatOf(uf.bpb, old(uf.view))
    ensures PlaceOk(uf.bpb, uf.view, Chain([c])) && Located(uf.bpb, uf.view, Chain([c]))
    ensures Kept(uf.bpb, old(uf.view), uf.view, mine, false) && Mine(uf.bpb, uf.view, Chain([c])) <= mine
    ensures r.Ok? ==>
              && AllClean(Records(uf.bpb, uf.view, Chain([c])))
              && OnlyDots(uf.bpb.fatType, Listing(Records(uf.bpb, uf.view, Chain([c]))), down, c, parent)
    ensures r.Err? ==> r.error == IoError && old(uf.dev.failures) < uf.dev.failures && uf.view == old(uf.view)
  {
    hide Ufat.CoherentBut, FatOf, IsChain, Mine, Kept, DirBlock, Located, PlaceOk, Volume, Ufat.Valid, Bpb.Fits, Sized,
      Records, ClusterBlock, DirentOf, Stored, IsEntry, IsLabel, OnlyDots, AllClean, Listing, Patch, ClusterRecords,
      DotEntry, DotDotEntry, IsDot, ZeroRecords, ZeroRecord;
    ghost var g, v := uf.bpb, uf.view;
    PlaceLocated(g, v, Chain([c]));
    KeptSame(g, v, mine, false);
    AtStart(g, v, c, 0, ZeroRecord(), mine);
    var idx := uf.Open(ClusterBlock(uf.bpb, c), false);
    if idx.Err? {
      return Err(idx.error);
    }
    DotNames(down, c, parent);
    var a := PackDot(uf.bpb.fatType, DotEntry(down, c));
    AtStart(g, v, c, 0, a, mine);
    uf.WriteCached(idx.value, 0, a);
    ghost var v1 := uf.view;
    var b := PackDot(uf.bpb.fatType, DotDotEntry(down, parent));
    AtStart(g, v1, c, 1, b, mine);
    uf.WriteCached(idx.value, 32, b);
    KeptTrans(g, v, v1, uf.view, mine, false);
    DotsListed(g, v, v1, uf.view, c, down, parent, a, b);
    r := Ok(());
  }

  predicate IsDot(e: Dirent) {
    e.shortName in {[DOT], [DOT, DOT]} && e.shortExt == [] && e.attributes == 0x10
  }

  lemma DotNames(down: Dirent, c: Cluster, parent: Cluster)
    ensures IsDot(DotEntry(down, c)) && IsDot(DotDotEntry(down, parent))
  {
  }

  method PackDot(t: FatType, e: Dirent) returns (data: Record)
    requires IsDot(e)
    ensures DirentOf(t, data) == Stored(t, e) && IsEntry(data) && !IsLabel(data)
  {
    hide DirentOf, IsEntry, IsLabel;
    DotFits(e);
    hide Storable;
    data := PackDirent(t, e);
    DotRecord(t, e, data);
  }

  lemma DotFits(e: Dirent)
    requires IsDot(e)
    ensures Storable(e) && e.shortName != [] && e.shortName[0] == DOT
  {
  }

  // ---- an empty directory ----

  function ParentCluster(place: Place): Cluster {
    if place.Chain? && place.clusters != [] then place.clusters[0] else 0
  }

  lemma ParentOf(g: Bpb, v: seq<Block>, place: Place, start: nat)
    requires PlaceOk(g, v, place) && 0 < g.blocksPerCluster && start == DirBlock(g, place, 0)
    ensures if start >= g.clusterStart then BlockCluster(g, start) == ParentCluster(place)
            else ParentCluster(place) == 0
  {
    DirBlockPlace(g, v, place, 0);
  }

  /** The cluster has been given back. */
  lemma GaveBack(g: Bpb, v0: seq<Block>, v: seq<Block>, v': seq<Block>, place: Place, c: Cluster, mine: set<int>,
                 root: bool)
    requires Kept(g, v0, v, mine, root) && Located(g, v, place) && c as int in mine && Volume(g, v')
    requires SameOutsideFat(g, v, v')
    requires forall j | 0 <= j < g.numClusters && j != c as int :: FatOf(g, v')[j] == FatOf(g, v)[j]
    ensures Kept(g, v0, v', mine, root) && RecordsKept(g, v, v', place)
  {
    hide FatOf, BlockCluster;
    SameBlocks(g, v, v', place);
  }

  lemma SameMine(g: Bpb, v: seq<Block>, v': seq<Block>, place: Place)
    requires Volume(g, v) && Volume(g, v') && FatOf(g, v') == FatOf(g, v)
    ensures Mine(g, v', place) == Mine(g, v, place)
  {
  }

  lemma OwnCluster(g: Bpb, v: seq<Block>, c: Cluster)
    requires Volume(g, v)
    ensures c as int in Mine(g, v, Chain([c]))
  {
    assert [c][0] == c;
  }

  lemma TwoSides(a: Place, b: Place)
    requires Apart(a, b)
    ensures Apart(b, a)
  {
  }

  /** What create_empty_dir has made. */
  ghost predicate NewDirectory(g: Bpb, v: seq<Block>, c: Cluster, down: Dirent, parent: Cluster) {
    && 2 <= c < g.numClusters && PlaceOk(g, v, Chain([c])) && AllClean(Records(g, v, Chain([c])))
    && OnlyDots(g.fatType, Listing(Records(g, v, Chain([c]))), down, c, parent)
  }

  lemma IsNewDirectory(g: Bpb, v: seq<Block>, c: Cluster, down: Dirent, parent: Cluster)
    requires 2 <= c < g.numClusters && PlaceOk(g, v, Chain([c])) && Located(g, v, Chain([c]))
    requires AllClean(Records(g, v, Chain([c])))
    requires OnlyDots(g.fatType, Listing(Records(g, v, Chain([c]))), down, c, parent)
    ensures NewDirectory(g, v, c, down, parent)
  {
  }

  /** create_empty_dir */
  method CreateEmptyDir(uf: Ufat, parentStart: nat, down: Dirent, ghost place: Place, ghost mine: set<int>)
    returns (r: Result<Cluster>)
    requires uf.Valid() && ScanReady(uf) && PlaceOk(uf.bpb, uf.view, place) && Mine(uf.bpb, uf.view, place) <= mine
    requires 0 < uf.bpb.blocksPerCluster && parentStart == DirBlock(uf.bpb, place, 0)
    modifies uf.Objects()
    ensures uf.Valid() && ScanReady(uf) && old(uf.dev.failures) <= uf.dev.failures
    ensures Volume(uf.bpb, old(uf.view)) && Volume(uf.bpb, uf.view)
    ensures RecordsKept(uf.bpb, old(uf.view), uf.view, place)
    ensures Kept(uf.bpb, old(uf.view), uf.view, mine, place.Root?)
    ensures r.Err? ==> r.error in {NoClusters, IoError}
    ensures r == Err(IoError) ==> old(uf.dev.failures) < uf.dev.failures
    ensures r.Err? && uf.dev.failures == old(uf.dev.failures) ==>
              FatOf(uf.bpb, uf.view) == FatOf(uf.bpb, old(uf.view)) && FullVolume(uf.bpb, uf.view)
    ensures r.Ok? ==>
              var g, c := uf.bpb, r.value;
              && NewDirectory(g, uf.view, c, down, ParentCluster(place)) && c < g.numClusters && IsPtr(c)
              && FatOf(g, old(uf.view))[c] == FREE && FatOf(g, uf.view) == FatOf(g, old(uf.view))[c := EOC]
              && PlaceOk(g, uf.view, place) && Mine(g, uf.view, place) <= mine && c as int in mine
              && c as int !in Mine(g, uf.view, place) && Apart(place, Chain([c]))
  {
    hide Ufat.CoherentBut, FatOf, IsChain, Mine, Kept, DirBlock, Located, PlaceOk, Volume, Ufat.Valid, Bpb.Fits, Sized,
      Records, BlockCluster, OnlyDots, AllClean, Listing, ClusterRecords, ZeroRecords, RecordsKept, Apart,
      NewDirectory, ParentCluster, Visited, Stop, Nums, SameOutsideFat, Released;
    ghost var g, v0 := uf.bpb, uf.view;
    ParentOf(g, v0, place, parentStart);
    r := NewCluster(uf, place, mine);
    if r.Err? {
      return;
    }
    var c := r.value;
    ghost var v2 := uf.view;
    ghost var own := Mine(g, v2, Chain([c]));
    OwnCluster(g, v2, c);
    TwoSides(place, Chain([c]));
    var parent := if parentStart >= uf.bpb.clusterStart then BlockCluster(uf.bpb, parentStart) else 0;
    var d := WriteDots(uf, c, down, parent, own);
    KeptWiden(g, v2, uf.view, own, false, mine, place.Root?);
    KeptTrans(g, v0, v2, uf.view, mine, place.Root?);
    if d.Err? {
      ReleaseOne(FatOf(g, v2), c);
      StartOf(g, v2, place);
      var _ := FreeChain(uf, c);
      GaveBack(g, v0, v2, uf.view, place, c, mine, place.Root?);
      KeptRecords(g, v0, v2, uf.view, place);
      return Err(d.error);
    }
    Across(g, v2, uf.view, Chain([c]), place);
    KeptRecords(g, v0, v2, uf.view, place);
    SameMine(g, v2, uf.view, place);
    IsNewDirectory(g, uf.view, c, down, parent);
  }

  lemma KeptRecords(g: Bpb, v0: seq<Block>, v: seq<Block>, v': seq<Block>, place: Place)
    requires RecordsKept(g, v0, v, place) && RecordsKept(g, v, v', place)
    ensures RecordsKept(g, v0, v', place)
  {
  }

  // ---- the entry of the directory ----

  function DirectoryEntry(ent: Dirent, c: Cluster): Dirent {
    ent.(firstCluster := c, fileSize := 0, attributes := UserAttributes(ent.attributes) + 0x10)
  }

  lemma DirectoryBits(ent: Dirent, c: Cluster)
    ensures UserAttributes(ent.attributes) + 0x10 < 0x100 && IsDirectory(DirectoryEntry(ent, c))
    ensures DirectoryEntry(ent, c).attributes / 8 % 2 == 0
  {
  }

  /** Inserting the entry leaves the new directory alone. */
  lemma StillNew(g: Bpb, v: seq<Block>, v': seq<Block>, place: Place, place': Place, c: Cluster, down: Dirent,
                 parent: Cluster, mine: set<int>)
    requires NewDirectory(g, v, c, down, parent) && PlaceOk(g, v, place) && Apart(place, Chain([c]))
    requires mine == Mine(g, v, place) && c as int !in mine && Kept(g, v, v', mine, place.Root?)
    requires PlaceOk(g, v', place') && Mine(g, v', place') <= mine
    ensures NewDirectory(g, v', c, down, parent) && IsChain(FatOf(g, v'), [c]) && Apart(place', Chain([c]))
    ensures place'.Chain? ==> Nums([c]) !! Nums(place'.clusters)
  {
    hide OnlyDots, FatOf, Listing, AllClean;
    Across(g, v, v', place, Chain([c]));
    SameRecords(g, v, v', Chain([c]));
    assert Nums([c]) == {c as int};
    assert place'.Chain? ==> forall j | j in Nums(place'.clusters) :: j in mine;
  }

  ghost predicate AtMostOneFree(g: Bpb, v: seq<Block>) {
    && Volume(g, v)
    && var free := Allocatable(g.fatType, FatOf(g, v)); forall a, b | a in free && b in free :: a == b
  }

  lemma NoneIsFew(g: Bpb, v: seq<Block>)
    requires FullVolume(g, v)
    ensures AtMostOneFree(g, v)
  {
  }

  lemma SameRun(g: Bpb, v: seq<Block>, v': seq<Block>, place: Place, count: nat)
    requires RecordsKept(g, v, v', place)
    ensures RunMissing(g, v', place, count) ==> RunMissing(g, v, place, count)
  {
  }

  lemma RoomGone(g: Bpb, v: seq<Block>, place: Place, count: nat)
    requires OutOfRoom(g, v, place, count)
    ensures FullVolume(g, v)
  {
  }

  lemma OneGivenBack(g: Bpb, v: seq<Block>, v': seq<Block>, c: Cluster)
    requires FullVolume(g, v) && Volume(g, v') && Released(FatOf(g, v), FatOf(g, v'), {c as int})
    ensures AtMostOneFree(g, v')
  {
    hide FatOf;
  }

  /** The new directory can be deleted again: it has no entries but the two. */
  lemma CanBeDeleted(g: Bpb, v: seq<Block>, c: Cluster, down: Dirent, parent: Cluster, e: Dirent, rootCluster: Cluster)
    requires NewDirectory(g, v, c, down, parent) && e.firstCluster == c
    ensures AllClean(Records(g, v, Chain([c]))) && Hollow(Listing(Records(g, v, Chain([c]))))
    ensures SubPlace(rootCluster, e, Chain([c]))
  {
    hide AllClean, OnlyDots, Listing;
    DotsAreHollow(g.fatType, Listing(Records(g, v, Chain([c]))), down, c, parent);
  }

  /** The cluster of the new directory is given back when there is no entry for it. */
  method TakeBack(uf: Ufat, c: Cluster, ghost v0: seq<Block>, ghost place: Place, ghost mine: set<int>,
                  ghost root: bool)
    requires uf.Valid() && ScanReady(uf) && Volume(uf.bpb, uf.view) && Located(uf.bpb, uf.view, place)
    requires Kept(uf.bpb, v0, uf.view, mine, root) && c as int in mine && IsPtr(c) && c < uf.bpb.numClusters
    requires FatOf(uf.bpb, uf.view)[c] == EOC
    modifies uf.Objects()
    ensures uf.Valid() && ScanReady(uf) && old(uf.dev.failures) <= uf.dev.failures && Volume(uf.bpb, uf.view)
    ensures Kept(uf.bpb, v0, uf.view, mine, root) && RecordsKept(uf.bpb, old(uf.view), uf.view, place)
    ensures uf.dev.failures == old(uf.dev.failures) ==>
              Released(FatOf(uf.bpb, old(uf.view)), FatOf(uf.bpb, uf.view), {c as int})
  {
    hide Ufat.CoherentBut, FatOf, Kept, Located, Volume, Ufat.Valid, Records, Visited, Stop, Released, SameOutsideFat,
      RecordsKept;
    ghost var g, v := uf.bpb, uf.view;
    ReleaseOne(FatOf(g, v), c);
    var _ := FreeChain(uf, c);
    GaveBack(g, v0, v, uf.view, place, c, mine, root);
  }

  /** ufat_dir_create: a new directory that has only the entries of itself and of its parent is listed under its name,
      or the listing is the old one. */
  method MkDir(dir: Directory, ent: Dirent, name: seq<byte>, ghost place0: Place, ghost mine: set<int>)
    returns (r: Result<Entry>, ghost place: Place, ghost x: Option<Item>)
    requires Usable(dir, place0, mine) && |name| <= 247
    requires AllClean(Records(dir.uf.bpb, dir.uf.view, place0))
    requires |Listing(Records(dir.uf.bpb, dir.uf.view, place0))| < NUMBERS - 1
    modifies dir`curBlock, dir`curPos, dir.uf.Objects()
    ensures dir.uf.Valid() && ScanReady(dir.uf) && old(dir.uf.dev.failures) <= dir.uf.dev.failures
    ensures Kept(dir.uf.bpb, old(dir.uf.view), dir.uf.view, mine, place0.Root?)
    ensures Volume(dir.uf.bpb, old(dir.uf.view)) && Volume(dir.uf.bpb, dir.uf.view)
    ensures Located(dir.uf.bpb, dir.uf.view, place) && Extends(place0, place)
    ensures AllClean(Records(dir.uf.bpb, dir.uf.view, place))
    ensures r.Err? ==> r.error in {IllegalName, FileExists, DirectoryFull, NoClusters, IoError}
    ensures r == Err(IoError) ==> old(dir.uf.dev.failures) < dir.uf.dev.failures
    ensures r == Err(DirectoryFull) ==>
              place0.Root? && RunMissing(dir.uf.bpb, old(dir.uf.view), place0, FragmentCount(Wide(name)) + 1)
    ensures r == Err(NoClusters) && dir.uf.dev.failures == old(dir.uf.dev.failures) ==>
              AtMostOneFree(dir.uf.bpb, dir.uf.view)
    ensures r == Err(IllegalName) <==> !Legal(name)
    ensures r == Err(DirectoryFull) && dir.uf.dev.failures == old(dir.uf.dev.failures) ==>
              FatOf(dir.uf.bpb, dir.uf.view) == FatOf(dir.uf.bpb, old(dir.uf.view))
    ensures var g := dir.uf.bpb;
            var was, now := old(Listing(Records(g, dir.uf.view, place0))), Listing(Records(g, dir.uf.view, place));
            var calm := dir.uf.dev.failures == old(dir.uf.dev.failures);
            && (r.Err? ==> now == was)
            && (r == Err(FileExists) ==> !NoneNamed(was, name))
            && (r.Ok? ==>
                  && Usable(dir, place, mine) && x.Some?
                  && var e := r.value.dirent; var c: Cluster := e.firstCluster;
                  && e == DirectoryEntry(ent, c).(shortName := e.shortName, shortExt := e.shortExt)
                  && Inserted(g, place, was, now, e, Wide(name), r.value, x.value)
                  && DosName(e.shortName) && !Taken(was, e.shortName, e.shortExt)
                  && r.value.name == Some(Wide(name))
                  && NewDirectory(g, dir.uf.view, c, ent, ParentCluster(place0)) && Apart(place, Chain([c]))
                  && Owns(g, dir.uf.view, place, e, [c]))
            && (calm && r.Ok? ==> FirstNamed(now, name, x.value))
            && (calm && Legal(name) && !NoneNamed(was, name) ==> r == Err(FileExists))
            && (calm && Distinct(was) ==> Distinct(now))
  {
    hide Usable, Records, AllClean, Listing, NoneNamed, FirstNamed, Ufat.CoherentBut, Legal, Distinct, Inserted, Added,
      Kept, Located, Taken, Tried, Extends, Wide, AsciiName, DosName, Ufat.Valid, EntryIs, PlaceOk,
      Directory.Ready, UserAttributes, Shown, Upper, NewDirectory, Apart, Owns, Mine, FatOf, Volume, DirBlock,
      Visited, Stop, Released, SameOutsideFat, RecordsKept, ParentCluster, IsChain, Nums, RunMissing, OutOfRoom,
      FragmentCount, FullVolume, AtMostOneFree;
    ghost var g, v0 := dir.uf.bpb, dir.uf.view;
    UsableFacts(dir, place0, mine);
    StartHere(dir, place0, mine);
    ghost var was := Listing(Records(g, v0, place0));
    place, x := place0, None;
    var checked := CheckName(dir, name, place0, mine);
    StartHere(dir, place0, mine);
    UsableFacts(dir, place0, mine);
    if checked.Err? {
      return Err(checked.error), place0, None;
    }
    LegalIsAscii(name);
    var made := CreateEmptyDir(dir.uf, dir.start, ent, place0, mine);
    ghost var v3 := dir.uf.view;
    SameRecords(g, v0, v3, place0);
    if made.Err? {
      if dir.uf.dev.failures == old(dir.uf.dev.failures) {
        NoneIsFew(g, v3);
      }
      return Err(made.error), place0, None;
    }
    var c := made.value;
    DirectoryBits(ent, c);
    var e := ent.(firstCluster := c, fileSize := 0, attributes := UserAttributes(ent.attributes) + 0x10);
    ghost var own := Mine(g, v3, place0);
    UsableStill(dir, place0, own, v0);
    ghost var tried;
    r, place, x, tried := InsertDirent(dir, e, name, place0, own);
    ghost var v4 := dir.uf.view;
    KeptWiden(g, v3, v4, own, place0.Root?, mine, place0.Root?);
    KeptTrans(g, v0, v3, v4, mine, place0.Root?);
    if r.Err? {
      EntryKept(g, v3, v4, own, place0.Root?, c);
      TakeBack(dir.uf, c, v0, place, mine, place0.Root?);
      SameRecords(g, v4, dir.uf.view, place);
      if v4 == v3 && dir.uf.dev.failures == old(dir.uf.dev.failures) {
        FreeAgain(FatOf(g, v0), FatOf(g, v4), FatOf(g, dir.uf.view), c);
      }
      SameRun(g, v0, v3, place0, FragmentCount(Wide(name)) + 1);
      if r == Err(NoClusters) && dir.uf.dev.failures == old(dir.uf.dev.failures) {
        RoomGone(g, v4, place, FragmentCount(Wide(name)) + 1);
        OneGivenBack(g, v4, dir.uf.view, c);
      }
      return;
    }
    UsableParts(dir, place, own);
    StillNew(g, v3, v4, place0, place, c, ent, ParentCluster(place0), own);
    IsOwned(g, v4, place, r.value.dirent, c);
    UsableWiden(dir, place, own, mine);
    InsertedNames(g, place, was, Listing(Records(g, v4, place)), r.value.dirent, name, r.value, x.value);
  }

  lemma StartHere(dir: Directory, place: Place, mine: set<int>)
    requires Usable(dir, place, mine)
    ensures PlaceOk(dir.uf.bpb, dir.uf.view, place) && Mine(dir.uf.bpb, dir.uf.view, place) <= mine
    ensures Volume(dir.uf.bpb, dir.uf.view)
    ensures 0 < dir.uf.bpb.blocksPerCluster && dir.start == DirBlock(dir.uf.bpb, place, 0)
  {
  }

  /** After the new directory has been made, the handle is as good as before. */
  lemma UsableStill(dir: Directory, place: Place, mine: set<int>, v0: seq<Block>)
    requires dir.uf.Valid() && ScanReady(dir.uf) && PlaceOk(dir.uf.bpb, dir.uf.view, place)
    requires RecordsKept(dir.uf.bpb, v0, dir.uf.view, place) && Mine(dir.uf.bpb, dir.uf.view, place) <= mine
    requires Located(dir.uf.bpb, v0, place) && AllClean(Records(dir.uf.bpb, v0, place))
    requires 0 < dir.uf.bpb.blocksPerCluster && dir.start == DirBlock(dir.uf.bpb, place, 0)
    ensures Usable(dir, place, mine)
  {
  }

  lemma UsableWiden(dir: Directory, place: Place, mine: set<int>, all: set<int>)
    requires Usable(dir, place, mine) && mine <= all
    ensures Usable(dir, place, all)
  {
  }

  lemma EntryKept(g: Bpb, v: seq<Block>, v': seq<Block>, mine: set<int>, root: bool, c: Cluster)
    requires Kept(g, v, v', mine, root) && c as int !in mine && c < g.numClusters
    ensures Volume(g, v') && FatOf(g, v')[c] == FatOf(g, v)[c] && |FatOf(g, v')| == g.numClusters
  {
    hide FatOf;
  }

  lemma FreeAgain(fat: seq<Cluster>, used: seq<Cluster>, now: seq<Cluster>, c: Cluster)
    requires c < |fat| && fat[c] == FREE && used == fat[c := EOC] && Released(used, now, {c as int})
    ensures now == fat
  {
  }

  lemma IsOwned(g: Bpb, v: seq<Block>, place: Place, e: Dirent, c: Cluster)
    requires Volume(g, v) && IsChain(FatOf(g, v), [c]) && e.firstCluster == c && IsPtr(c)
    requires place.Chain? ==> Nums([c]) !! Nums(place.clusters)
    ensures Owns(g, v, place, e, [c])
  {
    hide FatOf, IsChain, Nums;
  }
}
