/** Opening directories, and deleting a file or an empty directory with its clusters (mysh/fs/ufat_dir.c). */
module UfatDelete {
  import opened Integers
  import opened UfatCache
  import opened UfatFat
  import opened UfatChain
  import opened UfatNames
  import opened UfatListing
  import opened UfatShort
  import opened UfatDir
  import opened UfatDirOps
  import opened UfatDirEdit
  import UfatLayout
  import UfatFile

  // ---- opening ----

  /** ufat_open_root */
  method OpenRoot(uf: Ufat, rootCluster: Cluster, ghost place: Place) returns (dir: Directory)
    requires uf.Valid() && PlaceOk(uf.bpb, uf.view, place)
    requires 0 < BlockCount(uf.bpb, place) && 0 < uf.bpb.blocksPerCluster
    requires if rootCluster == 0 then place.Root? else place.Chain? && place.clusters[0] == rootCluster
    ensures fresh(dir) && dir.uf == uf && dir.start == DirBlock(uf.bpb, place, 0)
    ensures dir.Standing(place, 0)
  {
    FirstBlock(uf.bpb, uf.view, place);
    hide *;
    var start: nat := if rootCluster != 0 then UfatLayout.ClusterBlock(uf.bpb, rootCluster) else uf.bpb.rootStart;
    dir := new Directory(uf, start);
    dir.Rewind(place);
  }

  lemma FirstBlock(g: Bpb, v: seq<Block>, place: Place)
    requires PlaceOk(g, v, place) && 0 < BlockCount(g, place) && 0 < g.blocksPerCluster
    ensures 0 <= DirBlock(g, place, 0) && Located(g, v, place)
    ensures DirBlock(g, place, 0)
         == if place.Root? then g.rootStart else UfatLayout.ClusterBlock(g, place.clusters[0])
  {
    DirBlockPlace(g, v, place, 0);
  }

  /** The directory that an entry stands for; an entry without clusters stands for the root directory. */
  predicate SubPlace(rootCluster: Cluster, e: Dirent, sub: Place) {
    var c := if e.firstCluster == 0 then rootCluster else e.firstCluster;
    if c == 0 then sub.Root? else sub.Chain? && sub.clusters != [] && sub.clusters[0] == c
  }

  predicate IsDirectory(e: Dirent) { e.attributes / 16 % 2 == 1 }

  /** ufat_open_subdir */
  method OpenSubdir(uf: Ufat, rootCluster: Cluster, ent: Entry, ghost sub: Place) returns (r: Result<Directory>)
    requires uf.Valid() && PlaceOk(uf.bpb, uf.view, sub) && 0 < BlockCount(uf.bpb, sub) && 0 < uf.bpb.blocksPerCluster
    requires IsDirectory(ent.dirent) ==> SubPlace(rootCluster, ent.dirent, sub)
    ensures if !IsDirectory(ent.dirent) then r == Err(NotDirectory)
            else r.Ok? && fresh(r.value) && r.value.uf == uf && r.value.start == DirBlock(uf.bpb, sub, 0)
                 && r.value.Standing(sub, 0)
  {
    if ent.dirent.attributes / 16 % 2 == 0 {
      return Err(NotDirectory);
    }
    FirstBlock(uf.bpb, uf.view, sub);
    hide *;
    hide SubPlace;
    var dir;
    if ent.dirent.firstCluster == 0 {
      SubRoot(rootCluster, ent.dirent, sub);
      dir := OpenRoot(uf, rootCluster, sub);
    } else {
      SubChain(rootCluster, ent.dirent, sub);
      dir := new Directory(uf, UfatLayout.ClusterBlock(uf.bpb, ent.dirent.firstCluster));
      dir.Rewind(sub);
    }
    r := Ok(dir);
  }

  lemma SubRoot(rootCluster: Cluster, e: Dirent, sub: Place)
    requires SubPlace(rootCluster, e, sub) && e.firstCluster == 0
    ensures if rootCluster == 0 then sub.Root? else sub.Chain? && sub.clusters != [] && sub.clusters[0] == rootCluster
  {
  }

  lemma SubChain(rootCluster: Cluster, e: Dirent, sub: Place)
    requires SubPlace(rootCluster, e, sub) && e.firstCluster != 0
    ensures sub.Chain? && sub.clusters != [] && sub.clusters[0] == e.firstCluster
  {
  }

  // ---- empty directories ----

  predicate Dotted(name: seq<byte>) { name != [] && name[0] == DOT }

  /** There are at most the entries of the directory itself and of its parent. */
  predicate Hollow(items: seq<Item>) {
    forall i | 0 <= i < |items| :: Dotted(ShortOf(items[i].rec))
  }

  ghost predicate StillHollow(recs: seq<Record>, k: nat) {
    AllClean(recs) && k <= |recs| && (Hollow(Listing(recs)) <==> Hollow(ScanTo(recs, k, |recs|, Idle).1))
  }

  lemma HollowStart(recs: seq<Record>)
    requires AllClean(recs)
    ensures StillHollow(recs, 0)
  {
  }

  lemma HollowStep(recs: seq<Record>, k: nat, k': nat, x: Item)
    requires StillHollow(recs, k) && k <= k' <= |recs|
    requires ScanTo(recs, k, |recs|, Idle).1 == [x] + ScanTo(recs, k', |recs|, Idle).1
    ensures if Dotted(ShortOf(x.rec)) then StillHollow(recs, k') else !Hollow(Listing(recs))
  {
    hide Dotted, ScanTo, Listing;
    var rest := ScanTo(recs, k', |recs|, Idle).1;
    var all := [x] + rest;
    assert all[0] == x && forall i | 0 <= i < |rest| :: all[i + 1] == rest[i];
  }

  lemma HollowEnd(recs: seq<Record>, k: nat)
    requires StillHollow(recs, k) && ScanTo(recs, k, |recs|, Idle).1 == []
    ensures Hollow(Listing(recs))
  {
  }

  lemma MakeUsable(dir: Directory, place: Place, mine: set<int>)
    requires dir.uf.Valid() && ScanReady(dir.uf) && PlaceOk(dir.uf.bpb, dir.uf.view, place)
    requires Mine(dir.uf.bpb, dir.uf.view, place) <= mine
    requires Located(dir.uf.bpb, dir.uf.view, place) && AllClean(Records(dir.uf.bpb, dir.uf.view, place))
    requires 0 < BlockCount(dir.uf.bpb, place) && 0 < dir.uf.bpb.blocksPerCluster
    requires dir.start == DirBlock(dir.uf.bpb, place, 0)
    ensures Usable(dir, place, mine)
  {
  }

  /** verify_empty_dir */
  method VerifyEmpty(uf: Ufat, rootCluster: Cluster, ent: Entry, ghost sub: Place, ghost mine: set<int>)
    returns (r: Result<()>)
    requires Open(uf, sub, mine) && Located(uf.bpb, uf.view, sub) && AllClean(Records(uf.bpb, uf.view, sub))
    requires IsDirectory(ent.dirent) ==> SubPlace(rootCluster, ent.dirent, sub)
    modifies uf.Objects()
    ensures uf.Valid() && ScanReady(uf) && uf.view == old(uf.view) && old(uf.dev.failures) <= uf.dev.failures
    ensures r == Err(NotDirectory) <==> !IsDirectory(ent.dirent)
    ensures r.Ok? ==> Hollow(Listing(Records(uf.bpb, uf.view, sub)))
    ensures r.Err? ==> r.error in {NotDirectory, DirectoryNotEmpty, IoError}
    ensures r == Err(DirectoryNotEmpty) ==> !Hollow(Listing(Records(uf.bpb, uf.view, sub)))
    ensures r == Err(IoError) ==> old(uf.dev.failures) < uf.dev.failures
  {
    hide Ufat.CoherentBut, FatOf, IsChain, Mine, Kept, DirBlock, Located, PlaceOk, Volume, Ufat.Valid, Bpb.Fits, Sized,
      Records, PerBlock, BlockCount, Count, At, AllClean, ScanTo, Listing, EntryIs, StillHollow, Hollow, Open, ShortOf,
      SubPlace, ScanReady, Formattable, Usable;
    ghost var g, v := uf.bpb, uf.view;
    OpenFacts(uf, sub, mine);
    StartOf(g, v, sub);
    var handle := OpenSubdir(uf, rootCluster, ent, sub);
    if handle.Err? {
      return Err(handle.error);
    }
    var dir := handle.value;
    ghost var recs := Records(g, v, sub);
    HollowStart(recs);
    ghost var k: nat := 0;
    while true
      invariant dir.Ready(sub, mine) && dir.Standing(sub, k) && uf.view == v && Located(g, v, sub) && AllClean(recs)
      invariant fresh(dir) && dir.uf == uf && old(uf.dev.failures) <= uf.dev.failures
      invariant k <= |recs| && StillHollow(recs, k)
      decreases |recs| - k
    {
      ghost var k0 := k;
      var e;
      ghost var x;
      e, k, x := DirRead(dir, sub, k, mine);
      if e.Err? {
        return Err(e.error);
      }
      if e.value.None? {
        HollowEnd(recs, k0);
        return Ok(());
      }
      NamesOf(g, sub, e.value.value, x.value);
      HollowStep(recs, k0, k, x.value);
      var name := e.value.value.dirent.shortName;
      if |name| == 0 || name[0] != DOT {
        return Err(DirectoryNotEmpty);
      }
    }
  }

  // ---- deleting ----

  /** The clusters of an entry: the chain that starts at its first cluster, apart from those of the directory. */
  ghost predicate Owns(g: Bpb, v: seq<Block>, place: Place, e: Dirent, cs: seq<Cluster>)
    requires Volume(g, v)
  {
    && IsChain(FatOf(g, v), cs) && (place.Chain? ==> Nums(cs) !! Nums(place.clusters))
    && if IsPtr(e.firstCluster) then cs != [] && cs[0] == e.firstCluster else cs == []
  }

  /** Releasing the clusters of an entry does not touch the directory. */
  lemma ReleasedApart(g: Bpb, v: seq<Block>, v': seq<Block>, place: Place, cs: seq<Cluster>, mine: set<int>)
    requires PlaceOk(g, v, place) && Volume(g, v') && SameOutsideFat(g, v, v')
    requires IsChain(FatOf(g, v), cs) && (place.Chain? ==> Nums(cs) !! Nums(place.clusters))
    requires Mine(g, v, place) <= mine && Nums(cs) <= mine
    requires forall j | 0 <= j < g.numClusters && j !in Nums(cs) :: FatOf(g, v')[j] == FatOf(g, v)[j]
    ensures PlaceOk(g, v', place) && RecordsKept(g, v, v', place) && Kept(g, v, v', mine, place.Root?)
    ensures Mine(g, v', place) <= mine
  {
    hide FatOf;
    forall b | 0 <= b < |v| && InPlace(g, place, b)
      ensures v'[b] == v[b]
    {
      assert !g.InFat(b);
    }
    SameBlocks(g, v, v', place);
    if place.Chain? {
      var ds := place.clusters;
      forall i | 0 <= i < |ds|
        ensures FatOf(g, v')[ds[i]] == FatOf(g, v)[ds[i]]
      {
        assert ds[i] as int in Nums(ds);
      }
    }
  }

  lemma VisitedClusters(fat: seq<Cluster>, c: Cluster, cs: seq<Cluster>)
    requires IsChain(fat, cs) && if IsPtr(c) then cs != [] && cs[0] == c else cs == []
    ensures !IsPtr(Stop(fat, c)) && forall j: int :: j in Visited(fat, c) <==> j in Nums(cs)
  {
    hide IsChain;
    if IsPtr(c) {
      ReleaseVisitsChain(fat, cs);
    }
  }

  lemma SameReleased(was: seq<Cluster>, now: seq<Cluster>, gone: set<int>, gone': set<int>)
    requires forall j: int :: j in gone <==> j in gone'
    ensures Released(was, now, gone) <==> Released(was, now, gone')
  {
  }

  lemma NothingReplaced(items: seq<Item>, x: Item)
    requires x in items
    ensures Replaced(items, items, x, LeftOf(x, 0))
  {
    var i :| 0 <= i < |items| && items[i] == x;
    assert items == items[..i] + [x] + items[i + 1..];
    assert ReplacedAt(items, items, x, [x], i);
  }

  lemma OwnsFacts(g: Bpb, v: seq<Block>, place: Place, e: Dirent, cs: seq<Cluster>)
    requires Volume(g, v) && Owns(g, v, place, e, cs)
    ensures IsChain(FatOf(g, v), cs) && (place.Chain? ==> Nums(cs) !! Nums(place.clusters))
    ensures if IsPtr(e.firstCluster) then cs != [] && cs[0] == e.firstCluster else cs == []
  {
  }

  /** The start of ufat_dir_delete. */
  method MayDelete(uf: Ufat, rootCluster: Cluster, ent: Entry, ghost sub: Place, ghost mine: set<int>)
    returns (r: Result<()>)
    requires uf.Valid() && ScanReady(uf)
    requires IsDirectory(ent.dirent) ==>
               && Open(uf, sub, mine) && Located(uf.bpb, uf.view, sub) && AllClean(Records(uf.bpb, uf.view, sub))
               && SubPlace(rootCluster, ent.dirent, sub)
    modifies uf.Objects()
    ensures uf.Valid() && ScanReady(uf) && uf.view == old(uf.view) && old(uf.dev.failures) <= uf.dev.failures
    ensures r.Err? ==> r.error in {Immutable, DirectoryNotEmpty, IoError}
    ensures r == Err(Immutable) <==> Dotted(ent.dirent.shortName)
    ensures r.Ok? && IsDirectory(ent.dirent) ==> Hollow(Listing(Records(uf.bpb, uf.view, sub)))
    ensures r == Err(DirectoryNotEmpty) ==> IsDirectory(ent.dirent) && !Hollow(Listing(Records(uf.bpb, uf.view, sub)))
    ensures r == Err(IoError) ==> old(uf.dev.failures) < uf.dev.failures
  {
    hide Ufat.CoherentBut, FatOf, Located, PlaceOk, Volume, Ufat.Valid, Records, AllClean, ScanTo, Listing, Hollow,
      Open, SubPlace, ScanReady, Mine;
    if |ent.dirent.shortName| > 0 && ent.dirent.shortName[0] == DOT {
      return Err(Immutable);
    }
    if ent.dirent.attributes / 16 % 2 == 1 {
      r := VerifyEmpty(uf, rootCluster, ent, sub, mine);
      return;
    }
    r := Ok(());
  }

  /** ufat_dir_delete: the entry is gone from the listing and exactly its clusters are free again, if it is no directory
      with entries. */
  method DirDelete(uf: Ufat, rootCluster: Cluster, ent: Entry, ghost place: Place, ghost sub: Place,
                   ghost subMine: set<int>, ghost cs: seq<Cluster>, ghost x: Item)
    returns (r: Result<()>, ghost m: nat)
    requires uf.Valid() && Volume(uf.bpb, uf.view) && Open(uf, place, Mine(uf.bpb, uf.view, place))
    requires Located(uf.bpb, uf.view, place) && AllClean(Records(uf.bpb, uf.view, place))
    requires x in Listing(Records(uf.bpb, uf.view, place)) && EntryIs(uf.bpb, place, ent, x)
    requires Owns(uf.bpb, uf.view, place, ent.dirent, cs)
    requires IsDirectory(ent.dirent) ==>
               && Open(uf, sub, subMine) && Located(uf.bpb, uf.view, sub) && AllClean(Records(uf.bpb, uf.view, sub))
               && SubPlace(rootCluster, ent.dirent, sub)
    modifies uf.Objects()
    ensures Open(uf, place, Mine(uf.bpb, old(uf.view), place) + Nums(cs)) && old(uf.dev.failures) <= uf.dev.failures
    ensures Kept(uf.bpb, old(uf.view), uf.view, Mine(uf.bpb, old(uf.view), place) + Nums(cs), place.Root?)
    ensures Located(uf.bpb, uf.view, place) && AllClean(Records(uf.bpb, uf.view, place))
    ensures r.Err? ==> r.error in {Immutable, DirectoryNotEmpty, IoError}
    ensures r == Err(Immutable) <==> Dotted(ent.dirent.shortName)
    ensures IsDirectory(ent.dirent) ==>
              var hollow := Hollow(old(Listing(Records(uf.bpb, uf.view, sub))));
              (r.Ok? ==> hollow) && (r == Err(DirectoryNotEmpty) ==> !hollow)
    ensures r == Err(DirectoryNotEmpty) ==> IsDirectory(ent.dirent)
    ensures r == Err(Immutable) || r == Err(DirectoryNotEmpty) ==> uf.view == old(uf.view)
    ensures r == Err(IoError) ==> old(uf.dev.failures) < uf.dev.failures
    ensures Replaced(old(Listing(Records(uf.bpb, uf.view, place))), Listing(Records(uf.bpb, uf.view, place)), x,
                     LeftOf(x, m))
    ensures r.Ok? ==>
              m == x.at + 1 && Released(FatOf(uf.bpb, old(uf.view)), FatOf(uf.bpb, uf.view), Nums(cs))
  {
    hide Ufat.CoherentBut, FatOf, IsChain, Mine, Kept, DirBlock, Located, PlaceOk, Volume, Ufat.Valid, Bpb.Fits, Sized,
      Records, BlockCount, AllClean, ScanTo, Listing, EntryAt, Marked, LeftOf, FirstRecord, Open, Replaced, Owns, Nums,
      RecordsKept, ScanReady, Released, SubPlace, Hollow, Visited, Stop;
    ghost var g, v := uf.bpb, uf.view;
    ghost var was, recs := Listing(Records(g, v, place)), Records(g, v, place);
    ghost var mine, all := Mine(g, v, place), Mine(g, v, place) + Nums(cs);
    m := 0;
    OpenFacts(uf, place, mine);
    ReadyKept(g, v, place, all);
    NothingReplaced(was, x);
    OwnsFacts(g, v, place, ent.dirent, cs);
    r := MayDelete(uf, rootCluster, ent, sub, subMine);
    OpenAgain(uf, place, all);
    if r.Err? {
      return;
    }
    OpenAgain(uf, place, mine);
    r, m := DeleteEntry(uf, ent, place, mine, x);
    ghost var v1 := uf.view;
    OpenFacts(uf, place, mine);
    KeptWiden(g, v, v1, mine, place.Root?, all, place.Root?);
    ListedAt(recs, x);
    ReplacedBetween(ScanTo(recs, 0, FirstRecord(x), Idle).1, x, LeftOf(x, m), ScanTo(recs, x.at + 1, |recs|, Idle).1);
    OpenAgain(uf, place, all);
    if r.Err? {
      return;
    }
    VisitedClusters(FatOf(g, v1), ent.dirent.firstCluster, cs);
    r := FreeChain(uf, ent.dirent.firstCluster);
    SameReleased(FatOf(g, v1), FatOf(g, uf.view), Visited(FatOf(g, v1), ent.dirent.firstCluster), Nums(cs));
    ReleasedApart(g, v1, uf.view, place, cs, all);
    SameRecords(g, v1, uf.view, place);
    KeptTrans(g, v, v1, uf.view, all, place.Root?);
    OpenAgain(uf, place, all);
  }
}
