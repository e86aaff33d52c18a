/** Whole runs through the layers: formatting and opening, saving a file, and inserting an entry and deleting it
    again. */
module UfatRuns {
  import opened Integers
  import opened UfatCache
  import opened UfatFat
  import opened UfatChain
  import opened UfatNames
  import opened UfatListing
  import opened UfatDir
  import opened UfatDirOps
  import opened UfatShort
  import opened UfatDirEdit
  import opened UfatLookup
  import opened UfatDelete
  import opened UfatMkdir
  import opened UfatMove
  import UfatLayout
  import UfatFile
  import UfatMkfs

  /** Every mirror is the first FAT, as the device has them. */
  ghost predicate MirrorsEqual(g: Bpb, blocks: seq<Block>)
    requires 0 < g.fatSize && g.fatStart + g.fatSize <= |blocks|
  {
    forall m | 0 <= m < |blocks| && g.IsMirror(m) :: blocks[m] == blocks[g.Primary(m)]
  }

  /** The geometry of a device of `n` blocks of 512 bytes. */
  function PlannedGeometry(n: nat): Bpb
    requires UfatMkfs.SMALLEST <= n < UfatMkfs.U32
  {
    PlannedSizes(n);
    UfatMkfs.BpbFor(UfatMkfs.LayoutOf(n))
  }

  lemma PlannedSizes(n: nat)
    requires UfatMkfs.SMALLEST <= n < UfatMkfs.U32
    ensures var fl := UfatMkfs.LayoutOf(n);
            0 <= fl.reservedBlocks && 0 <= fl.fatBlocks && 0 <= fl.rootBlocks && 0 <= fl.clusters
  {
    UfatMkfs.LayoutPlanned(n);
    hide UfatMkfs.LayoutOf;
  }

  /** The root directory of a volume that has just been made: the fixed area, or the first cluster. */
  function RootPlace(g: Bpb): Place {
    if g.fatType == Fat32 then Chain([2]) else Root
  }

  /** A directory without entries. */
  ghost predicate EmptyDirectory(g: Bpb, v: seq<Block>, place: Place) {
    && PlaceOk(g, v, place) && AllClean(Records(g, v, place)) && Listing(Records(g, v, place)) == []
  }

  /** ufat_mkfs and then ufat_open: the volume is there, its table is free, its mirrors are equal and its root directory
      is empty. */
  method FormatAndOpen(dev: Device, n: nat) returns (r: Result<Ufat>, rootCluster: nat)
    requires dev.Valid() && dev.blockSize == 512 && UfatMkfs.SMALLEST <= n < UfatMkfs.U32 && n <= |dev.blocks|
    modifies dev
    ensures dev.Valid() && old(dev.failures) <= dev.failures
    ensures r.Ok? ==>
              var uf, g := r.value, PlannedGeometry(n);
              && fresh(uf) && fresh(uf.cacheDesc) && fresh(uf.cacheData)
              && uf.dev == dev && uf.bpb == g && uf.Valid() && ScanReady(uf)
              && uf.view == dev.blocks && Volume(g, uf.view) && uf.unequal == {}
              && g.fatType == UfatMkfs.TypeFor(n) && rootCluster == (if g.fatType == Fat32 then 2 else 0)
              && EmptyDirectory(g, uf.view, RootPlace(g))
              && forall i | 2 <= i < g.numClusters ::
                   FatOf(g, uf.view)[i] == if g.fatType == Fat32 && i == 2 then EOC else FREE
    ensures r.Err? ==> r.error == IoError && old(dev.failures) < dev.failures
  {
    NineBits();
    GeometryIs(n);
    assert n < UfatMkfs.U64;
    hide *;
    rootCluster := 0;
    var made := UfatMkfs.Mkfs(dev, n, 9);
    if made.Err? {
      return Err(made.error), 0;
    }
    var boot := dev.Read(0, 1);
    if boot.Err? {
      return Err(boot.error), 0;
    }
    DeviceSized(dev);
    UfatMkfs.FormattedIsFree(dev.blocks, n);
    RootIsEmpty(dev.blocks, n);
    var parsed := UfatMkfs.ParseBpb(9, boot.value[0]);
    if parsed.Err? {
      return Err(parsed.error), 0;
    }
    var uf := new Ufat(dev, parsed.value.g);
    r, rootCluster := Ok(uf), parsed.value.rootCluster;
  }

  /** The root directory has been erased, and no file has its cluster. */
  lemma RootIsEmpty(blocks: seq<Block>, n: nat)
    requires UfatMkfs.SMALLEST <= n < UfatMkfs.U32 && n <= |blocks| && Sized(blocks, 512)
    requires UfatMkfs.FreshVolume(blocks, UfatMkfs.LayoutOf(n))
    ensures EmptyDirectory(PlannedGeometry(n), blocks, RootPlace(PlannedGeometry(n)))
  {
    hide *;
    var g := PlannedGeometry(n);
    GeometryIs(n);
    UfatMkfs.FormattedIsFree(blocks, n);
    RootRegion(blocks, n);
    RootLocated(g, blocks);
    var recs := Records(g, blocks, RootPlace(g));
    forall k | 0 <= k < |recs|
      ensures IsFree(recs[k]) && Clean(recs[k])
    {
      ErasedRecord(g, blocks, RootPlace(g), k);
    }
    NothingListed(recs);
    IsEmpty(g, blocks, RootPlace(g));
  }

  /** The number of free clusters that the information sector of a FAT32 volume records is right. */
  lemma FreeCountRight(blocks: seq<Block>, n: nat)
    requires UfatMkfs.SMALLEST <= n < UfatMkfs.U32 && n <= |blocks| && Sized(blocks, 512)
    requires UfatMkfs.FreshVolume(blocks, UfatMkfs.LayoutOf(n)) && UfatMkfs.TypeFor(n) == Fat32
    ensures var g := PlannedGeometry(n);
            && Volume(g, blocks) && 8 <= |blocks| && |blocks[1]| == 512
            && R32(blocks[1], 0x1e8) == |Allocatable(Fat32, FatOf(g, blocks))|
  {
    hide *;
    GeometryIs(n);
    UfatMkfs.FormattedIsFree(blocks, n);
    InfoSector(blocks, n);
    AllButRoot(PlannedGeometry(n), blocks);
  }

  lemma InfoSector(blocks: seq<Block>, n: nat)
    requires UfatMkfs.SMALLEST <= n < UfatMkfs.U32 && n <= |blocks| && Sized(blocks, 512)
    requires UfatMkfs.FreshVolume(blocks, UfatMkfs.LayoutOf(n)) && UfatMkfs.TypeFor(n) == Fat32
    ensures 8 <= |blocks| && |blocks[1]| == 512 && PlannedGeometry(n).fatType == Fat32
    ensures 3 <= PlannedGeometry(n).numClusters < UfatMkfs.U32
    ensures R32(blocks[1], 0x1e8) == PlannedGeometry(n).numClusters - 3
  {
    hide *;
    GeometryIs(n);
    UfatMkfs.VolumeFits(n, |blocks|);
    PlannedClusters(n);
    InfoRead(blocks, UfatMkfs.LayoutOf(n));
  }

  lemma PlannedClusters(n: nat)
    requires UfatMkfs.SMALLEST <= n < UfatMkfs.U32
    ensures var fl, g := UfatMkfs.LayoutOf(n), PlannedGeometry(n);
            g.numClusters == fl.clusters < UfatMkfs.U32 && g.fatType == fl.fatType
  {
    GeometryIs(n);
    UfatMkfs.LayoutPlanned(n);
    hide UfatMkfs.LayoutOf;
  }

  lemma InfoRead(blocks: seq<Block>, fl: UfatMkfs.Layout)
    requires UfatMkfs.FreshVolume(blocks, fl) && Sized(blocks, 512)
    requires fl.fatType == Fat32 && 3 <= fl.clusters < UfatMkfs.U32
    ensures 8 <= |blocks| && |blocks[1]| == 512 && R32(blocks[1], 0x1e8) == fl.clusters - 3
  {
    hide UfatMkfs.FieldsFor, UfatMkfs.FieldsOf, UfatMkfs.FreshFats, UfatMkfs.Erased, UfatMkfs.Storable, R32;
  }

  lemma AllButRoot(g: Bpb, v: seq<Block>)
    requires Volume(g, v) && g.fatType == Fat32 && 3 <= g.numClusters
    requires forall i | 2 <= i < g.numClusters :: FatOf(g, v)[i] == if g.fatType == Fat32 && i == 2 then EOC else FREE
    ensures |Allocatable(Fat32, FatOf(g, v))| == g.numClusters - 3
  {
    hide FatOf;
    FreeBehindRoot(FatOf(g, v));
  }

  lemma {:induction false} FreeBehindRoot(fat: seq<Cluster>)
    requires 3 <= |fat| && forall i | 2 <= i < |fat| :: fat[i] == FREE <==> i != 2
    ensures |Allocatable(Fat32, fat)| == |fat| - 3
    decreases |fat|
  {
    var n := |fat| - 1;
    if 3 < |fat| {
      FreeBehindRoot(fat[..n]);
      assert Allocatable(Fat32, fat) == Allocatable(Fat32, fat[..n]) + {n};
    } else {
      assert Allocatable(Fat32, fat) == {};
    }
  }

  /** What ufat_mkfs has erased are the blocks of the root directory. */
  ghost predicate RootErased(g: Bpb, v: seq<Block>) {
    && 0 < g.blocksPerCluster && (g.fatType == Fat32 ==> g.rootSize == 0 && 3 <= g.numClusters)
    && (g.fatType != Fat32 ==> 0 < g.rootSize)
    && forall b | 0 <= b < |v| && InPlace(g, RootPlace(g), b) :: UfatMkfs.Zero(v[b])
  }

  lemma RootRegion(blocks: seq<Block>, n: nat)
    requires UfatMkfs.SMALLEST <= n < UfatMkfs.U32 && n <= |blocks| && Sized(blocks, 512)
    requires UfatMkfs.FreshVolume(blocks, UfatMkfs.LayoutOf(n))
    ensures RootErased(PlannedGeometry(n), blocks)
  {
    GeometryIs(n);
    UfatMkfs.RootFits(n);
    UfatMkfs.VolumeFits(n, |blocks|);
    hide UfatMkfs.LayoutOf, UfatMkfs.TypeFor, UfatMkfs.SpcFor, UfatMkfs.FieldsFor, UfatMkfs.FieldsOf,
      UfatMkfs.FreshFats, UfatMkfs.Zero, UfatMkfs.Storable;
    var g := PlannedGeometry(n);
    if g.fatType == Fat32 {
      forall b | 0 <= b < |blocks| && InPlace(g, RootPlace(g), b)
        ensures UfatMkfs.Zero(blocks[b])
      {
        FirstCluster(g, b, |blocks|);
      }
    }
  }

  lemma FirstCluster(g: Bpb, b: int, n: nat)
    requires g.Fits(n) && 3 <= g.numClusters && g.clusterStart <= b && UfatLayout.BlockCluster(g, b) in Nums([2])
    ensures g.clusterStart <= b < g.clusterStart + g.blocksPerCluster
  {
    BlocksOf(g, 2, b, n);
  }

  lemma RootLocated(g: Bpb, v: seq<Block>)
    requires Volume(g, v) && RootErased(g, v)
    requires g.fatType == Fat32 && 2 < g.numClusters ==> FatOf(g, v)[2] == EOC
    ensures PlaceOk(g, v, RootPlace(g)) && Located(g, v, RootPlace(g))
  {
    hide FatOf;
  }

  lemma ErasedRecord(g: Bpb, v: seq<Block>, place: Place, k: nat)
    requires place == RootPlace(g) && Located(g, v, place) && RootErased(g, v) && k < |Records(g, v, place)|
    ensures IsFree(Records(g, v, place)[k]) && Clean(Records(g, v, place)[k])
  {
    RecordPlace(g, place, k);
    var q := k / PerBlock(g);
    InsidePlace(g, v, place, q);
    hide InPlace, DirBlock;
    var b := DirBlock(g, place, q);
    assert UfatMkfs.Zero(v[b]);
    assert Records(g, v, place)[k] == v[b][k % PerBlock(g) * 32..k % PerBlock(g) * 32 + 32];
    hide Records;
    assert Records(g, v, place)[k][0] == v[b][k % PerBlock(g) * 32];
    assert Records(g, v, place)[k][0x0b] == v[b][k % PerBlock(g) * 32 + 0x0b];
  }

  lemma NothingListed(recs: seq<Record>)
    requires forall k | 0 <= k < |recs| :: IsFree(recs[k]) && Clean(recs[k])
    ensures AllClean(recs) && Listing(recs) == []
  {
    ScanFree(recs, 0, |recs|, Idle);
  }

  lemma IsEmpty(g: Bpb, v: seq<Block>, place: Place)
    requires PlaceOk(g, v, place) && Located(g, v, place)
    requires AllClean(Records(g, v, place)) && Listing(Records(g, v, place)) == []
    ensures EmptyDirectory(g, v, place)
  {
  }

  lemma GeometryIs(n: nat)
    requires UfatMkfs.SMALLEST <= n < UfatMkfs.U32
    ensures var fl := UfatMkfs.LayoutOf(n);
            0 <= fl.reservedBlocks && 0 <= fl.fatBlocks && 0 <= fl.rootBlocks && 0 <= fl.clusters
    ensures PlannedGeometry(n) == UfatMkfs.BpbFor(UfatMkfs.LayoutOf(n))
  {
    PlannedSizes(n);
    hide UfatMkfs.LayoutOf, UfatMkfs.BpbFor;
  }

  lemma NineBits()
    ensures Arith.Pow2(9) == 512
  {
  }

  lemma DeviceSized(dev: Device)
    requires dev.Valid()
    ensures Sized(dev.blocks, dev.blockSize)
  {
  }

  // ---- what reaches the device ----

  /** The device has the blocks that a caller sees. */
  ghost predicate Synced(uf: Ufat)
    reads uf, uf.dev
  {
    && |uf.dev.blocks| == |uf.view| && Sized(uf.dev.blocks, uf.bpb.blockSize)
    && forall b | 0 <= b < |uf.view| && !uf.bpb.IsMirror(b) :: uf.dev.blocks[b] == uf.view[b]
  }

  /** ufat_sync. If the mirrors were equal when the volume was opened and nothing has been refused since the device was
      there, they are equal now, whatever was done in between. */
  method SyncAll(uf: Ufat) returns (r: Result<()>)
    requires uf.Valid()
    modifies uf.Objects()
    ensures uf.Valid() && uf.view == old(uf.view) && uf.allocPtr == old(uf.allocPtr)
    ensures old(uf.dev.failures) <= uf.dev.failures
    ensures r.Err? ==> r.error == IoError && old(uf.dev.failures) < uf.dev.failures
    ensures r.Ok? ==> Synced(uf)
    ensures 0 < uf.bpb.fatSize && uf.bpb.fatStart + uf.bpb.fatSize <= |uf.dev.blocks|
    ensures r.Ok? && uf.unequal == {} && uf.dev.failures == 0 ==> MirrorsEqual(uf.bpb, uf.dev.blocks)
  {
    r := uf.Sync();
    ValidParts(uf);
    hide Ufat.CoherentBut, Bpb.Primary;
  }

  lemma ValidParts(uf: Ufat)
    requires uf.Valid()
    ensures |uf.dev.blocks| == |uf.view| && Sized(uf.dev.blocks, uf.bpb.blockSize) && uf.bpb.Fits(|uf.view|)
    ensures forall m | uf.bpb.IsMirror(m) :: !uf.bpb.IsMirror(uf.bpb.Primary(m))
  {
  }

  /** ufat_file_write and then ufat_sync: the contents are on the device, and the FATs agree. */
  method SaveFile(f: UfatFile.File, data: seq<byte>) returns (r: Result<()>)
    requires f.Sound() && |data| < 0x1_0000_0000 && f.curPos <= f.fileSize
    modifies f, f.uf.Objects()
    ensures old(f.uf.dev.failures) <= f.uf.dev.failures
    ensures r.Err? ==> r.error in {NoClusters, IoError}
    ensures r.Ok? ==>
              && f.Sound() && Synced(f.uf) && f.uf.bpb.Fits(|f.uf.dev.blocks|)
              && UfatLayout.DataClusters(f.uf.bpb, f.chain)
              && UfatFile.Bytes(f.uf.bpb, f.uf.dev.blocks, f.chain, f.fileSize)
                 == UfatFile.Overwrite(old(f.Contents()), old(f.curPos),
                     data[..UfatFile.WriteLimit(old(f.curPos), |data|)])
              && (f.uf.unequal == {} && f.uf.dev.failures == 0 ==> MirrorsEqual(f.uf.bpb, f.uf.dev.blocks))
  {
    hide *;
    ghost var g := f.uf.bpb;
    f.SoundFacts();
    UfatFile.FileOkFacts(g, f.uf.view, f.chain, f.start, f.fileSize, f.direntBlock, f.direntPos);
    f.ContentsFacts();
    var w := f.Write(data);
    if w.Err? {
      return Err(w.error);
    }
    f.SoundFacts();
    f.ContentsFacts();
    f.MountedFacts();
    UfatFile.FileOkFacts(g, f.uf.view, f.chain, f.start, f.fileSize, f.direntBlock, f.direntPos);
    r := SyncAll(f.uf);
    if r.Ok? {
      f.SoundAgain();
      SyncedIs(f.uf);
      ShapeOf(g, f.uf.view);
      SameOnDevice(g, f.uf.view, f.uf.dev.blocks, f.chain, f.fileSize);
    }
  }

  lemma SyncedIs(uf: Ufat)
    requires Synced(uf)
    ensures |uf.dev.blocks| == |uf.view| && Sized(uf.dev.blocks, uf.bpb.blockSize)
    ensures forall b | 0 <= b < |uf.view| && !uf.bpb.IsMirror(b) :: uf.dev.blocks[b] == uf.view[b]
  {
  }

  lemma ShapeOf(g: Bpb, v: seq<Block>)
    requires Volume(g, v)
    ensures g.Fits(|v|) && Sized(v, g.blockSize)
  {
  }

  lemma SameOnDevice(g: Bpb, v: seq<Block>, blocks: seq<Block>, chain: seq<Cluster>, n: nat)
    requires g.Fits(|v|) && Sized(v, g.blockSize) && |blocks| == |v| && Sized(blocks, g.blockSize)
    requires forall b | 0 <= b < |v| && !g.IsMirror(b) :: blocks[b] == v[b]
    requires UfatLayout.DataClusters(g, chain) && UfatFile.Holds(g, chain, n)
    ensures UfatFile.Bytes(g, blocks, chain, n) == UfatFile.Bytes(g, v, chain, n)
  {
    UfatFile.HoldsAll(g, chain, n);
    forall p: nat | p < n
      ensures UfatFile.ByteAt(g, blocks, chain, p) == UfatFile.ByteAt(g, v, chain, p)
    {
      UfatLayout.FileBlockInVolume(g, chain, p, |v|);
    }
    hide UfatFile.ByteAt;
  }

  /** insert_dirent, delete_entry and ufat_sync: the device lists what it listed before, even if the directory has
      grown. */
  method InsertAndDelete(dir: Directory, ent: Dirent, name: seq<byte>, ghost place0: Place, ghost mine: set<int>)
    returns (r: Result<()>, ghost place: Place)
    requires Usable(dir, place0, mine) && AsciiName(name) && ent.attributes / 8 % 2 == 0
    requires |Listing(Records(dir.uf.bpb, dir.uf.view, place0))| < NUMBERS - 1
    modifies dir`curBlock, dir`curPos, dir.uf.Objects()
    ensures dir.uf.Valid() && old(dir.uf.dev.failures) <= dir.uf.dev.failures
    ensures Located(dir.uf.bpb, old(dir.uf.view), place0) && AllClean(Records(dir.uf.bpb, old(dir.uf.view), place0))
    ensures r.Ok? ==>
              var g, blocks := dir.uf.bpb, dir.uf.dev.blocks;
              && Synced(dir.uf) && Extends(place0, place) && Located(g, blocks, place)
              && AllClean(Records(g, blocks, place))
              && Listing(Records(g, blocks, place)) == Listing(Records(g, old(dir.uf.view), place0))
    ensures r.Err? ==> r.error in {DirectoryFull, NoClusters, IoError}
  {
    hide *;
    ghost var g, v0 := dir.uf.bpb, dir.uf.view;
    UsableRecords(dir, place0, mine);
    var e;
    ghost var x, tried;
    e, place, x, tried := InsertDirent(dir, ent, name, place0, mine);
    if e.Err? {
      return Err(e.error), place;
    }
    ghost var was := Listing(Records(g, v0, place0));
    ghost var recs := Records(g, dir.uf.view, place);
    InsertedOpen(dir, place, mine, was, e.value, Wide(name), x.value);
    var d;
    ghost var m;
    d, m := DeleteEntry(dir.uf, e.value, place, mine, x.value);
    OpenFacts(dir.uf, place, mine);
    if d.Err? {
      return Err(d.error), place;
    }
    InsertThenDelete(was, recs, Records(g, dir.uf.view, place), x.value);
    ghost var v := dir.uf.view;
    r := SyncAll(dir.uf);
    if r.Ok? {
      SyncedIs(dir.uf);
      SameListing(g, v, dir.uf.dev.blocks, place);
    }
  }

  lemma InsertedOpen(dir: Directory, place: Place, mine: set<int>, was: seq<Item>, e: Entry, wide: seq<uint16>, x: Item)
    requires Usable(dir, place, mine) && Located(dir.uf.bpb, dir.uf.view, place)
    requires Inserted(dir.uf.bpb, place, was, Listing(Records(dir.uf.bpb, dir.uf.view, place)), e.dirent, wide, e, x)
    ensures Open(dir.uf, place, mine) && EntryAt(dir.uf.bpb, place, e, x)
    ensures Added(was, Listing(Records(dir.uf.bpb, dir.uf.view, place)), x)
    ensures x in Listing(Records(dir.uf.bpb, dir.uf.view, place))
  {
    hide Listing, Records;
    var now := Listing(Records(dir.uf.bpb, dir.uf.view, place));
    var i: nat :| i <= |was| && now == was[..i] + [x] + was[i..];
    assert now[i] == x;
  }

  lemma SameListing(g: Bpb, v: seq<Block>, blocks: seq<Block>, place: Place)
    requires Located(g, v, place) && |blocks| == |v| && Sized(blocks, g.blockSize)
    requires forall b | 0 <= b < |v| && !g.IsMirror(b) :: blocks[b] == v[b]
    ensures Located(g, blocks, place) && Records(g, blocks, place) == Records(g, v, place)
  {
    SameBlocks(g, v, blocks, place);
    hide Records;
  }

  /** ufat_dir_create and ufat_dir_delete: without refusals a new directory can be deleted again, and then the listing
      is the old one and the cluster is free. */
  method MakeAndRemoveDir(dir: Directory, rootCluster: Cluster, ent: Dirent, name: seq<byte>, ghost place0: Place,
                          ghost mine: set<int>)
    returns (made: Result<Entry>, r: Result<()>, ghost place: Place)
    requires Usable(dir, place0, mine) && |name| <= 247
    requires AllClean(Records(dir.uf.bpb, dir.uf.view, place0))
    requires |Listing(Records(dir.uf.bpb, dir.uf.view, place0))| < NUMBERS - 1
    modifies dir`curBlock, dir`curPos, dir.uf.Objects()
    ensures dir.uf.Valid() && old(dir.uf.dev.failures) <= dir.uf.dev.failures
    ensures Located(dir.uf.bpb, dir.uf.view, place) && Extends(place0, place)
    ensures AllClean(Records(dir.uf.bpb, dir.uf.view, place)) && Volume(dir.uf.bpb, dir.uf.view)
    ensures dir.uf.dev.failures == old(dir.uf.dev.failures) ==>
              && Listing(Records(dir.uf.bpb, dir.uf.view, place))
                 == old(Listing(Records(dir.uf.bpb, dir.uf.view, place0)))
              && (made.Ok? ==>
                    && r.Ok? && IsDirectory(made.value.dirent)
                    && made.value.dirent.firstCluster < dir.uf.bpb.numClusters
                    && FatOf(dir.uf.bpb, dir.uf.view)[made.value.dirent.firstCluster] == FREE)
  {
    hide *;
    ghost var g := dir.uf.bpb;
    UsableRecords(dir, place0, mine);
    ghost var was := Listing(Records(g, dir.uf.view, place0));
    ghost var x;
    made, place, x := MkDir(dir, ent, name, place0, mine);
    if made.Err? {
      return made, Err(made.error), place;
    }
    var e := made.value;
    ghost var v1, c := dir.uf.view, e.dirent.firstCluster;
    ghost var recs := Records(g, v1, place);
    MadeFacts(dir, place, mine, ent, was, e, c, name, x.value, ParentCluster(place0), rootCluster);
    ghost var m;
    r, m := DirDelete(dir.uf, rootCluster, e, place, Chain([c]), Mine(g, v1, Chain([c])), [c], x.value);
    OpenFacts(dir.uf, place, Mine(g, v1, place) + Nums([c]));
    VolumeHere(dir.uf, place);
    if r.Ok? {
      RemovedAgain(was, recs, Listing(Records(g, dir.uf.view, place)), x.value, m);
      ClusterFree(FatOf(g, v1), FatOf(g, dir.uf.view), c);
    }
  }

  lemma VolumeHere(uf: Ufat, place: Place)
    requires PlaceOk(uf.bpb, uf.view, place) && uf.Valid()
    ensures Volume(uf.bpb, uf.view) && Located(uf.bpb, uf.view, place) && |FatOf(uf.bpb, uf.view)| == uf.bpb.numClusters
  {
  }

  lemma ClusterFree(was: seq<Cluster>, now: seq<Cluster>, c: Cluster)
    requires Released(was, now, Nums([c])) && c < |was|
    ensures now[c] == FREE
  {
    assert [c][0] == c;
  }

  /** All that deleting a new directory asks for. */
  lemma MadeFacts(dir: Directory, place: Place, mine: set<int>, ent: Dirent, was: seq<Item>, e: Entry, c: Cluster,
                  name: seq<byte>, x: Item, parent: Cluster, rootCluster: Cluster)
    requires Usable(dir, place, mine) && Located(dir.uf.bpb, dir.uf.view, place) && ScanReady(dir.uf)
    requires AllClean(Records(dir.uf.bpb, dir.uf.view, place)) && Volume(dir.uf.bpb, dir.uf.view)
    requires Inserted(dir.uf.bpb, place, was, Listing(Records(dir.uf.bpb, dir.uf.view, place)), e.dirent, Wide(name),
                      e, x)
    requires e.dirent == DirectoryEntry(ent, c).(shortName := e.dirent.shortName, shortExt := e.dirent.shortExt)
    requires e.name == Some(Wide(name)) && DosName(e.dirent.shortName)
    requires NewDirectory(dir.uf.bpb, dir.uf.view, c, ent, parent)
    ensures Open(dir.uf, place, Mine(dir.uf.bpb, dir.uf.view, place)) && EntryIs(dir.uf.bpb, place, e, x)
    ensures Added(was, Listing(Records(dir.uf.bpb, dir.uf.view, place)), x)
    ensures x in Listing(Records(dir.uf.bpb, dir.uf.view, place)) && c < dir.uf.bpb.numClusters
    ensures IsDirectory(e.dirent) && SubPlace(rootCluster, e.dirent, Chain([c])) && !Dotted(e.dirent.shortName)
    ensures PlaceOk(dir.uf.bpb, dir.uf.view, Chain([c])) && Located(dir.uf.bpb, dir.uf.view, Chain([c]))
    ensures AllClean(Records(dir.uf.bpb, dir.uf.view, Chain([c])))
    ensures Open(dir.uf, Chain([c]), Mine(dir.uf.bpb, dir.uf.view, Chain([c])))
    ensures Hollow(Listing(Records(dir.uf.bpb, dir.uf.view, Chain([c]))))
    ensures FatOf(dir.uf.bpb, dir.uf.view) != [] && |FatOf(dir.uf.bpb, dir.uf.view)| == dir.uf.bpb.numClusters
  {
    hide *;
    SameFields(DirectoryEntry(ent, c), e.dirent, ent, c);
    StartHere(dir, place, mine);
    UsableParts(dir, place, mine);
    CanBeDeleted(dir.uf.bpb, dir.uf.view, c, ent, parent, e.dirent, rootCluster);
    InsertedOpen(dir, place, mine, was, e, Wide(name), x);
    NewPlaceOpen(dir.uf, c, ent, parent);
    OpenOwn(dir.uf, place, mine);
    ReadBack(dir.uf.bpb, dir.uf.view, place, was, Listing(Records(dir.uf.bpb, dir.uf.view, place)), e, Wide(name), x);
    NoDot(e.dirent.shortName);
  }

  lemma SameFields(d: Dirent, e: Dirent, ent: Dirent, c: Cluster)
    requires d == DirectoryEntry(ent, c) && e == d.(shortName := e.shortName, shortExt := e.shortExt)
    ensures IsDirectory(e) && e.firstCluster == c
  {
    DirectoryBits(ent, c);
  }

  lemma NoDot(name: seq<byte>)
    requires DosName(name)
    ensures !Dotted(name)
  {
    assert IsLegalDosChar(name[0]);
  }

  lemma OpenOwn(uf: Ufat, place: Place, mine: set<int>)
    requires Open(uf, place, mine)
    ensures Open(uf, place, Mine(uf.bpb, uf.view, place))
  {
  }

  lemma NewPlaceOpen(uf: Ufat, c: Cluster, down: Dirent, parent: Cluster)
    requires uf.Valid() && ScanReady(uf) && NewDirectory(uf.bpb, uf.view, c, down, parent) && Volume(uf.bpb, uf.view)
    ensures c < uf.bpb.numClusters && |FatOf(uf.bpb, uf.view)| == uf.bpb.numClusters
    ensures PlaceOk(uf.bpb, uf.view, Chain([c])) && Located(uf.bpb, uf.view, Chain([c]))
    ensures AllClean(Records(uf.bpb, uf.view, Chain([c])))
    ensures Open(uf, Chain([c]), Mine(uf.bpb, uf.view, Chain([c])))
  {
    hide OnlyDots, AllClean, Listing;
  }

  /** An entry whose cluster number is one of the volume reads back as it was written. */
  lemma ReadBack(g: Bpb, v: seq<Block>, place: Place, was: seq<Item>, now: seq<Item>, e: Entry, wide: seq<uint16>,
                 x: Item)
    requires Volume(g, v) && Inserted(g, place, was, now, e.dirent, wide, e, x) && e.dirent.firstCluster < g.numClusters
    requires e.name == Some(wide)
    ensures EntryIs(g, place, e, x)
  {
    hide DirentOf, Added;
  }

  lemma RemovedAgain(was: seq<Item>, recs: seq<Record>, after: seq<Item>, x: Item, m: nat)
    requires AllClean(recs) && x in Listing(recs) && Added(was, Listing(recs), x) && m == x.at + 1
    requires Replaced(Listing(recs), after, x, LeftOf(x, m))
    ensures after == was
  {
    hide AllClean, ScanTo, Added, Replaced;
    ScanOrdered(recs, 0, Idle);
    ListedAt(recs, x);
    AddedRemoved(was, Listing(recs), after, x);
  }

  // ---- the first file of a volume ----

  /** Formatting, opening, making a file in the root directory and a sync: the device lists exactly the new file, and
      the FATs agree if nothing was refused. */
  method FirstFile(dev: Device, n: nat, ent: Dirent, name: seq<byte>)
    returns (r: Result<Entry>, ghost g: Bpb, ghost place: Place)
    requires dev.Valid() && dev.blockSize == 512 && UfatMkfs.SMALLEST <= n < UfatMkfs.U32 && n <= |dev.blocks|
    requires |name| <= 247
    modifies dev
    ensures dev.Valid() && old(dev.failures) <= dev.failures
    ensures r.Ok? ==>
              && Legal(name) && g == PlannedGeometry(n) && Located(g, dev.blocks, place)
              && AllClean(Records(g, dev.blocks, place))
              && var items, e := Listing(Records(g, dev.blocks, place)), r.value.dirent;
                 && |items| == 1 && Shown(items[0]) == name && EntryAt(g, place, r.value, items[0])
                 && DirentOf(g.fatType, items[0].rec) == Stored(g.fatType, e)
                 && e == EmptyFile(ent).(shortName := e.shortName, shortExt := e.shortExt)
    ensures r.Err? ==> r.error in {IllegalName, DirectoryFull, NoClusters, IoError}
    ensures r == Err(IllegalName) ==> !Legal(name)
    ensures r.Ok? && dev.failures == 0 ==>
              0 < g.fatSize && g.fatStart + g.fatSize <= |dev.blocks| && MirrorsEqual(g, dev.blocks)
  {
    hide *;
    g, place := PlannedGeometry(n), Root;
    var mounted, rootCluster := FormatAndOpen(dev, n);
    if mounted.Err? {
      return Err(mounted.error), g, place;
    }
    var uf := mounted.value;
    ghost var root, v0 := RootPlace(g), uf.view;
    EmptyParts(g, v0, root, rootCluster);
    ObjectsOf(uf);
    var dir := OpenRoot(uf, rootCluster, root);
    ghost var mine := Mine(g, v0, root);
    MakeUsable(dir, root, mine);
    NumbersLeft();
    NothingNamed(name);
    var e;
    ghost var x;
    e, place, x := MkFile(dir, ent, name, root, mine);
    DeviceOk(uf);
    if e.Err? {
      return Err(e.error), g, place;
    }
    ghost var v1 := uf.view;
    OnlyOne(g, place, Listing(Records(g, v1, place)), e.value.dirent, name, e.value, x.value);
    var s := SyncAll(uf);
    DeviceOk(uf);
    if s.Err? {
      return Err(s.error), g, place;
    }
    SyncedIs(uf);
    SameListing(g, v1, dev.blocks, place);
    r := e;
  }

  lemma NothingNamed(name: seq<byte>)
    ensures NoneNamed([], name)
  {
  }

  lemma NumbersLeft()
    ensures 0 < NUMBERS - 1
  {
  }

  lemma DeviceOk(uf: Ufat)
    requires uf.Valid()
    ensures uf.dev.Valid()
  {
  }

  lemma ObjectsOf(uf: Ufat)
    ensures uf.Objects() == {uf, uf.dev, uf.cacheDesc, uf.cacheData}
  {
  }

  lemma EmptyParts(g: Bpb, v: seq<Block>, place: Place, rootCluster: nat)
    requires EmptyDirectory(g, v, place) && place == RootPlace(g)
    requires rootCluster == if g.fatType == Fat32 then 2 else 0
    ensures PlaceOk(g, v, place) && Located(g, v, place) && Volume(g, v)
    ensures 0 < BlockCount(g, place) && 0 < g.blocksPerCluster
    ensures AllClean(Records(g, v, place)) && Listing(Records(g, v, place)) == []
    ensures rootCluster < 0x1_0000_0000
    ensures if rootCluster == 0 then place.Root?
            else place.Chain? && place.clusters != [] && place.clusters[0] == rootCluster
  {
  }

  lemma OnlyOne(g: Bpb, place: Place, now: seq<Item>, e: Dirent, name: seq<byte>, r: Entry, x: Item)
    requires Inserted(g, place, [], now, e, Wide(name), r, x) && Legal(name)
    ensures now == [x] && Shown(x) == name && EntryAt(g, place, r, x) && r.dirent == e
    ensures DirentOf(g.fatType, x.rec) == Stored(g.fatType, e)
  {
    FindsNew([], now, x, name, name);
  }
}
