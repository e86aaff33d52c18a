/** Moving an entry to another name or another directory (mysh/fs/ufat_dir.c). */
module UfatMove {
  import opened Integers
  import opened UfatCache
  import opened UfatFat
  import opened UfatChain
  import opened UfatNames
  import opened UfatListing
  import opened UfatShort
  import opened UfatDir
  import opened UfatDirOps
  import opened UfatDirEdit
  import opened UfatLookup

  // ---- two directories ----

  /** The two directories have no cluster in common. */
  predicate Apart(a: Place, b: Place) {
    !(a.Root? && b.Root?) && (a.Chain? && b.Chain? ==> Nums(a.clusters) !! Nums(b.clusters))
  }

  lemma ChainNotFree(g: Bpb, v: seq<Block>, place: Place)
    requires PlaceOk(g, v, place) && place.Chain?
    ensures Nums(place.clusters) !! Allocatable(g.fatType, FatOf(g, v))
  {
    var cs, fat := place.clusters, FatOf(g, v);
    hide FatOf;
    forall i | 0 <= i < |cs|
      ensures fat[cs[i]] != FREE
    {
      if i < |cs| - 1 {
        assert fat[cs[i]] == cs[i + 1] && IsPtr(cs[i + 1]);
      }
    }
  }

  /** The blocks of a directory are none of those of another one, and the links of its clusters are its own. */
  lemma NotOwn(g: Bpb, v: seq<Block>, here: Place, other: Place, b: int)
    requires PlaceOk(g, v, here) && PlaceOk(g, v, other) && Apart(here, other) && 0 < g.blocksPerCluster
    requires InPlace(g, other, b)
    ensures !OwnBlock(g, Mine(g, v, here), here.Root?, b)
  {
    if other.Chain? {
      ChainNotFree(g, v, other);
    }
  }

  /** An operation on one directory leaves the other one as it is. */
  lemma Across(g: Bpb, v: seq<Block>, v': seq<Block>, here: Place, other: Place)
    requires PlaceOk(g, v, here) && PlaceOk(g, v, other) && Apart(here, other)
    requires Kept(g, v, v', Mine(g, v, here), here.Root?)
    ensures PlaceOk(g, v', other) && RecordsKept(g, v, v', other)
  {
    forall b | 0 <= b < |v| && InPlace(g, other, b)
      ensures v'[b] == v[b]
    {
      NotOwn(g, v, here, other, b);
    }
    SameBlocks(g, v, v', other);
    if other.Chain? {
      ChainNotFree(g, v, other);
      var mine, cs := Mine(g, v, here), other.clusters;
      forall i | 0 <= i < |cs|
        ensures FatOf(g, v')[cs[i]] == FatOf(g, v)[cs[i]]
      {
        assert cs[i] as int in Nums(cs);
      }
    }
  }

  /** What an operation on one of the two directories leaves, seen from before the move. */
  lemma KeptBoth(g: Bpb, v0: seq<Block>, v: seq<Block>, v': seq<Block>, here: Place, mine: set<int>, root: bool)
    requires PlaceOk(g, v, here) && Mine(g, v, here) <= mine && (here.Root? ==> root)
    requires Kept(g, v0, v, mine, root) && Kept(g, v, v', Mine(g, v, here), here.Root?)
    ensures Kept(g, v0, v', mine, root)
  {
    KeptWiden(g, v, v', Mine(g, v, here), here.Root?, mine, root);
    KeptTrans(g, v0, v, v', mine, root);
  }

  /** A directory that has grown is still apart from the other one. */
  lemma StillApart(g: Bpb, v: seq<Block>, place: Place, other: Place, v': seq<Block>, place': Place)
    requires PlaceOk(g, v, place) && PlaceOk(g, v, other) && Apart(place, other)
    requires PlaceOk(g, v', place') && Mine(g, v', place') <= Mine(g, v, place) && (place'.Root? <==> place.Root?)
    ensures Apart(place', other)
  {
    if other.Chain? && place'.Chain? {
      ChainNotFree(g, v, other);
      assert forall c | c in Nums(place'.clusters) :: c in Mine(g, v', place');
    }
  }

  lemma EntryAtExtended(g: Bpb, v: seq<Block>, place: Place, place': Place, e: Entry, x: Item)
    requires Located(g, v, place') && Extends(place, place') && 0 < BlockCount(g, place) && EntryAt(g, place, e, x)
    ensures EntryAt(g, place', e, x)
  {
    LocatedPrefix(g, v, place, place');
    AtExtended(g, v, place, place', x.at, Some(e.block), e.pos);
    if x.from.Some? {
      AtExtended(g, v, place, place', x.from.value, Some(e.lfn.value.0), e.lfn.value.1);
    }
  }

  lemma AddedHas(items: seq<Item>, items': seq<Item>, x: Item, y: Item)
    requires Added(items, items', y)
    ensures y in items' && (x in items ==> x in items')
  {
    var i: nat :| i <= |items| && items' == items[..i] + [y] + items[i..];
    assert items == items[..i] + items[i..];
  }

  /** The new entry stays when the old one is taken away. */
  lemma StillListed(items: seq<Item>, mid: seq<Item>, gone: seq<Item>, x: Item, y: Item, left: seq<Item>)
    requires Added(items, mid, y) && x in items && Ordered(mid) && Replaced(mid, gone, x, left)
    ensures y in gone
  {
    hide Ordered, ReplacedAt;
    var i: nat :| i <= |items| && mid == items[..i] + [y] + items[i..];
    var j: nat :| j < |mid| && ReplacedAt(mid, gone, x, left, j);
    var k := OldPlace(items, mid, i, x, y);
    ReplacedHere(mid, gone, x, left, j);
    OnePlace(mid, j, k);
    Spared(mid, i, j, left);
  }

  lemma ReplacedHere(items: seq<Item>, gone: seq<Item>, x: Item, left: seq<Item>, j: nat)
    requires ReplacedAt(items, gone, x, left, j)
    ensures j < |items| && items[j] == x && gone == items[..j] + left + items[j + 1..]
  {
  }

  /** Where an old entry is in the grown listing. */
  lemma OldPlace(items: seq<Item>, mid: seq<Item>, i: nat, x: Item, y: Item) returns (k: nat)
    requires i <= |items| && mid == items[..i] + [y] + items[i..] && x in items
    ensures k < |mid| && mid[k] == x && k != i && mid[i] == y
  {
    var p :| 0 <= p < |items| && items[p] == x;
    k := if p < i then p else p + 1;
    assert mid[i] == y;
    assert p < i ==> mid[p] == items[p];
    assert p >= i ==> mid[p + 1] == items[p];
  }

  lemma Spared(items: seq<Item>, i: nat, j: nat, left: seq<Item>)
    requires i < |items| && j < |items| && i != j
    ensures items[i] in items[..j] + left + items[j + 1..]
  {
    var gone := items[..j] + left + items[j + 1..];
    assert i < j ==> gone[i] == items[i];
    assert i > j ==> gone[j + |left| + (i - j - 1)] == items[i];
  }

  /** The directory that holds the old entry, after the new one has been inserted. */
  lemma SourceAfter(g: Bpb, v: seq<Block>, v': seq<Block>, src: Place, dst: Place, dst': Place, src': Place, e: Entry,
                    x: Item, y: Item)
    requires PlaceOk(g, v, src) && PlaceOk(g, v, dst) && PlaceOk(g, v', dst')
    requires if src == dst then src' == dst' else src' == src && Apart(dst, src)
    requires Kept(g, v, v', Mine(g, v, dst), dst.Root?) && Mine(g, v', dst') <= Mine(g, v, dst) && Extends(dst, dst')
    requires Located(g, v, src) && Located(g, v, dst) && Located(g, v', dst')
    requires AllClean(Records(g, v, src)) && AllClean(Records(g, v, dst)) && AllClean(Records(g, v', dst'))
    requires x in Listing(Records(g, v, src)) && EntryAt(g, src, e, x)
    requires Added(Listing(Records(g, v, dst)), Listing(Records(g, v', dst')), y)
    ensures PlaceOk(g, v', src') && Located(g, v', src') && AllClean(Records(g, v', src'))
    ensures x in Listing(Records(g, v', src')) && EntryAt(g, src', e, x)
    ensures src != dst ==>
              Apart(dst', src) && Apart(src, dst') && Listing(Records(g, v', src)) == Listing(Records(g, v, src))
    ensures Mine(g, v', src') <= Mine(g, v, dst) + Mine(g, v, src)
    ensures y in Listing(Records(g, v', dst'))
  {
    hide Kept, PlaceOk, AllClean, Listing, Added, Located, Mine, Records, RecordsKept, EntryAt, BlockCount;
    AddedHas(Listing(Records(g, v, dst)), Listing(Records(g, v', dst')), x, y);
    if src == dst {
      StartOf(g, v, src);
      EntryAtExtended(g, v', dst, dst', e, x);
    } else {
      Across(g, v, v', dst, src);
      SameRecords(g, v, v', src);
      StillApart(g, v, dst, src, v', dst');
      MineParts(g, v, v', dst, dst', src);
    }
  }

  lemma MineParts(g: Bpb, v: seq<Block>, v': seq<Block>, dst: Place, dst': Place, src: Place)
    requires PlaceOk(g, v, dst) && PlaceOk(g, v, src) && PlaceOk(g, v', dst') && PlaceOk(g, v', src)
    requires Mine(g, v', dst') <= Mine(g, v, dst)
    ensures Mine(g, v', src) <= Mine(g, v, dst) + Mine(g, v, src)
  {
  }

  /** Two directories that are one and the same, or apart. */
  ghost predicate Pair(uf: Ufat, src: Place, dst: Place)
    reads uf, uf.Objects()
  {
    && uf.Valid() && ScanReady(uf) && PlaceOk(uf.bpb, uf.view, src) && PlaceOk(uf.bpb, uf.view, dst)
    && AllClean(Records(uf.bpb, uf.view, src)) && AllClean(Records(uf.bpb, uf.view, dst))
    && (src == dst || (Apart(src, dst) && Apart(dst, src)))
  }

  lemma PairFacts(uf: Ufat, src: Place, dst: Place)
    requires Pair(uf, src, dst)
    ensures uf.Valid() && ScanReady(uf) && PlaceOk(uf.bpb, uf.view, src) && PlaceOk(uf.bpb, uf.view, dst)
    ensures Volume(uf.bpb, uf.view)
    ensures Located(uf.bpb, uf.view, src) && Located(uf.bpb, uf.view, dst)
    ensures AllClean(Records(uf.bpb, uf.view, src)) && AllClean(Records(uf.bpb, uf.view, dst))
    ensures src == dst || (Apart(src, dst) && Apart(dst, src))
    ensures Open(uf, src, Mine(uf.bpb, uf.view, src)) && Open(uf, dst, Mine(uf.bpb, uf.view, dst))
  {
  }

  ghost function ListingOf(uf: Ufat, place: Place): seq<Item>
    requires Located(uf.bpb, uf.view, place) && AllClean(Records(uf.bpb, uf.view, place))
    reads uf
  {
    Listing(Records(uf.bpb, uf.view, place))
  }

  /** delete_entry on one directory of a pair. */
  method DeleteIn(uf: Ufat, ent: Entry, ghost here: Place, ghost other: Place, ghost x: Item)
    returns (r: Result<()>, ghost m: nat)
    requires Pair(uf, here, other) && Located(uf.bpb, uf.view, here) && AllClean(Records(uf.bpb, uf.view, here))
    requires Volume(uf.bpb, uf.view)
    requires Located(uf.bpb, uf.view, other) && AllClean(Records(uf.bpb, uf.view, other))
    requires x in ListingOf(uf, here) && EntryAt(uf.bpb, here, ent, x)
    modifies uf.Objects()
    ensures Pair(uf, here, other) && Located(uf.bpb, uf.view, here) && AllClean(Records(uf.bpb, uf.view, here))
    ensures Located(uf.bpb, uf.view, other) && AllClean(Records(uf.bpb, uf.view, other))
    ensures old(uf.dev.failures) <= uf.dev.failures
    ensures Kept(uf.bpb, old(uf.view), uf.view, Mine(uf.bpb, old(uf.view), here), here.Root?)
    ensures Mine(uf.bpb, uf.view, here) <= Mine(uf.bpb, old(uf.view), here)
    ensures Replaced(old(ListingOf(uf, here)), ListingOf(uf, here), x, LeftOf(x, m))
    ensures here != other ==> ListingOf(uf, other) == old(ListingOf(uf, other))
    ensures r.Ok? ==> m == x.at + 1
    ensures r.Err? ==> r.error == IoError && m <= x.at && old(uf.dev.failures) < uf.dev.failures
  {
    hide Ufat.CoherentBut, FatOf, IsChain, Mine, Kept, DirBlock, Located, PlaceOk, Volume, Ufat.Valid, Bpb.Fits, Sized,
      Records, BlockCount, AllClean, ScanTo, Listing, EntryAt, Marked, LeftOf, FirstRecord, Open, Pair, Replaced, Apart,
      RecordsKept, ScanReady;
    ghost var g, v := uf.bpb, uf.view;
    PairFacts(uf, here, other);
    r, m := DeleteEntry(uf, ent, here, Mine(g, v, here), x);
    OpenFacts(uf, here, Mine(g, v, here));
    ghost var recs := Records(g, v, here);
    ListedAt(recs, x);
    ReplacedBetween(ScanTo(recs, 0, FirstRecord(x), Idle).1, x, LeftOf(x, m), ScanTo(recs, x.at + 1, |recs|, Idle).1);
    if here != other {
      Across(g, v, uf.view, here, other);
      SameRecords(g, v, uf.view, other);
    }
    IsPair(uf, here, other);
  }

  lemma IsPair(uf: Ufat, src: Place, dst: Place)
    requires uf.Valid() && ScanReady(uf) && PlaceOk(uf.bpb, uf.view, src) && PlaceOk(uf.bpb, uf.view, dst)
    requires Located(uf.bpb, uf.view, src) && Located(uf.bpb, uf.view, dst)
    requires AllClean(Records(uf.bpb, uf.view, src)) && AllClean(Records(uf.bpb, uf.view, dst))
    requires src == dst || (Apart(src, dst) && Apart(dst, src))
    ensures Pair(uf, src, dst)
  {
  }

  /** What ufat_move has done once the new entry `y` is in the listing: the old entry is gone; or it is not, as a record
      could not be written, and then the new one has been deleted as far as that went. */
  ghost predicate MoveDone(same: bool, s0: seq<Item>, d0: seq<Item>, s: seq<Item>, d: seq<Item>, ok: bool, x: Item,
                           y: Item,
                           mid: seq<Item>, gone: seq<Item>, m: nat, m2: nat) {
    && Added(d0, mid, y) && Replaced(if same then mid else s0, gone, x, LeftOf(x, m)) && (!same ==> s == gone)
    && (ok <==> m == x.at + 1)
    && (if ok then d == if same then gone else mid
        else Replaced(if same then gone else mid, d, y, LeftOf(y, m2)))
  }

  /** After the insertion the two directories are still a pair. */
  lemma PairAfter(uf: Ufat, v: seq<Block>, src: Place, dst: Place, dst': Place, src': Place, e: Entry, x: Item, y: Item)
    requires uf.Valid() && ScanReady(uf) && PlaceOk(uf.bpb, v, src) && PlaceOk(uf.bpb, v, dst)
    requires PlaceOk(uf.bpb, uf.view, dst')
    requires if src == dst then src' == dst' else src' == src && Apart(dst, src)
    requires Kept(uf.bpb, v, uf.view, Mine(uf.bpb, v, dst), dst.Root?)
    requires Mine(uf.bpb, uf.view, dst') <= Mine(uf.bpb, v, dst) && Extends(dst, dst')
    requires Located(uf.bpb, v, src) && Located(uf.bpb, v, dst) && Located(uf.bpb, uf.view, dst')
    requires AllClean(Records(uf.bpb, v, src)) && AllClean(Records(uf.bpb, v, dst))
    requires AllClean(Records(uf.bpb, uf.view, dst'))
    requires x in Listing(Records(uf.bpb, v, src)) && EntryAt(uf.bpb, src, e, x)
    requires Added(Listing(Records(uf.bpb, v, dst)), Listing(Records(uf.bpb, uf.view, dst')), y)
    ensures Pair(uf, src', dst') && Pair(uf, dst', src') && Located(uf.bpb, uf.view, src')
    ensures AllClean(Records(uf.bpb, uf.view, src'))
    ensures x in ListingOf(uf, src') && EntryAt(uf.bpb, src', e, x) && y in ListingOf(uf, dst')
    ensures src != dst ==> ListingOf(uf, src') == Listing(Records(uf.bpb, v, src))
    ensures Mine(uf.bpb, uf.view, src') <= Mine(uf.bpb, v, dst) + Mine(uf.bpb, v, src)
    ensures (src' == dst') <==> (src == dst)
    ensures src'.Root? <==> src.Root?
  {
    hide Ufat.CoherentBut, FatOf, IsChain, Mine, Kept, DirBlock, Located, PlaceOk, Volume, Ufat.Valid, Bpb.Fits, Sized,
      Records, BlockCount, AllClean, ScanTo, Listing, EntryAt, Pair, Apart, ScanReady, Added;
    SourceAfter(uf.bpb, v, uf.view, src, dst, dst', src', e, x, y);
    SameKind(dst, dst');
    if src != dst {
      NotSame(uf.bpb, uf.view, src, dst');
    }
    IsPair(uf, src', dst');
    IsPair(uf, dst', src');
  }

  lemma SameKind(place: Place, place': Place)
    requires Extends(place, place')
    ensures place'.Root? <==> place.Root?
  {
  }

  lemma NotSame(g: Bpb, v: seq<Block>, a: Place, b: Place)
    requires Apart(a, b) && PlaceOk(g, v, a)
    ensures a != b
  {
    if a.Chain? {
      assert a.clusters[0] as int in Nums(a.clusters);
    }
  }

  /** A listed entry is not a volume label. */
  lemma NotLabel(g: Bpb, recs: seq<Record>, e: Entry, x: Item)
    requires AllClean(recs) && x in Listing(recs) && e.dirent == DirentOf(g.fatType, x.rec)
    ensures e.dirent.attributes / 8 % 2 == 0
  {
    ListedPlace(recs, x);
  }

  lemma NewOneStays(recs: seq<Record>, items: seq<Item>, gone: seq<Item>, x: Item, y: Item, left: seq<Item>)
    requires AllClean(recs) && Added(items, Listing(recs), y) && x in items && Replaced(Listing(recs), gone, x, left)
    ensures y in gone
  {
    ScanOrdered(recs, 0, Idle);
    StillListed(items, Listing(recs), gone, x, y, left);
  }

  /** The last part of ufat_move: the old entry is deleted, or else the new one. */
  method DropOld(uf: Ufat, ent: Entry, newEnt: Entry, ghost src: Place, ghost dst: Place, ghost x: Item, ghost y: Item,
                 ghost s0: seq<Item>, ghost d0: seq<Item>)
    returns (r: Result<()>, ghost mid: seq<Item>, ghost gone: seq<Item>, ghost m: nat, ghost m2: nat)
    requires Pair(uf, src, dst) && Pair(uf, dst, src) && Volume(uf.bpb, uf.view)
    requires Located(uf.bpb, uf.view, src) && AllClean(Records(uf.bpb, uf.view, src))
    requires Located(uf.bpb, uf.view, dst) && AllClean(Records(uf.bpb, uf.view, dst))
    requires x in ListingOf(uf, src) && EntryAt(uf.bpb, src, ent, x)
    requires y in ListingOf(uf, dst) && EntryAt(uf.bpb, dst, newEnt, y)
    requires Added(d0, ListingOf(uf, dst), y) && if src == dst then x in d0 else s0 == ListingOf(uf, src)
    modifies uf.Objects()
    ensures uf.Valid() && ScanReady(uf) && old(uf.dev.failures) <= uf.dev.failures
    ensures Located(uf.bpb, uf.view, src) && AllClean(Records(uf.bpb, uf.view, src))
    ensures Located(uf.bpb, uf.view, dst) && AllClean(Records(uf.bpb, uf.view, dst))
    ensures Kept(uf.bpb, old(uf.view), uf.view, Mine(uf.bpb, old(uf.view), src) + Mine(uf.bpb, old(uf.view), dst),
                 src.Root? || dst.Root?)
    ensures MoveDone(src == dst, s0, d0, ListingOf(uf, src), ListingOf(uf, dst), r.Ok?, x, y, mid, gone, m, m2)
    ensures r.Err? ==> r.error == IoError && old(uf.dev.failures) < uf.dev.failures
  {
    hide Ufat.CoherentBut, FatOf, IsChain, Mine, Kept, DirBlock, Located, PlaceOk, Volume, Ufat.Valid, Bpb.Fits, Sized,
      Records, BlockCount, AllClean, ScanTo, Listing, EntryAt, Pair, Apart, ScanReady, Added, Replaced, LeftOf;
    ghost var g, v := uf.bpb, uf.view;
    ghost var mine := Mine(g, v, src) + Mine(g, v, dst);
    mid, m2 := ListingOf(uf, dst), 0;
    PairFacts(uf, src, dst);
    ghost var midRecs := Records(g, v, dst);
    ReadyKept(g, v, src, mine);
    r, m := DeleteIn(uf, ent, src, dst, x);
    gone := ListingOf(uf, src);
    ghost var v2 := uf.view;
    KeptBoth(g, v, v, v2, src, mine, src.Root? || dst.Root?);
    PairFacts(uf, src, dst);
    if r.Ok? {
      return;
    }
    if src == dst {
      NewOneStays(midRecs, d0, gone, x, y, LeftOf(x, m));
    }
    IsPair(uf, dst, src);
    MineAgain(g, v, v2, src, dst);
    ghost var n;
    var ignored;
    ignored, n := DeleteIn(uf, newEnt, dst, src, y);
    m2 := n;
    KeptBoth(g, v, v2, uf.view, dst, mine, src.Root? || dst.Root?);
    PairFacts(uf, dst, src);
  }

  lemma MineAgain(g: Bpb, v: seq<Block>, v': seq<Block>, src: Place, dst: Place)
    requires PlaceOk(g, v, src) && PlaceOk(g, v, dst) && PlaceOk(g, v', src) && PlaceOk(g, v', dst)
    requires Mine(g, v', src) <= Mine(g, v, src)
    ensures Mine(g, v', dst) <= Mine(g, v, src) + Mine(g, v, dst)
  {
  }

  /** ufat_move behind its checks of the new name. */
  method Relocate(ent: Entry, dst: Directory, name: seq<byte>, ghost src: Place, ghost place0: Place, ghost x: Item)
    returns (r: Result<()>, ghost src': Place, ghost place: Place, ghost y: Option<Item>, ghost mid: seq<Item>,
             ghost gone: seq<Item>, ghost m: nat, ghost m2: nat)
    requires Volume(dst.uf.bpb, dst.uf.view) && Usable(dst, place0, Mine(dst.uf.bpb, dst.uf.view, place0))
    requires Pair(dst.uf, place0, src) && Pair(dst.uf, src, place0)
    requires Located(dst.uf.bpb, dst.uf.view, src) && AllClean(Records(dst.uf.bpb, dst.uf.view, src))
    requires Located(dst.uf.bpb, dst.uf.view, place0) && AllClean(Records(dst.uf.bpb, dst.uf.view, place0))
    requires AsciiName(name) && |ListingOf(dst.uf, place0)| < NUMBERS - 1
    requires x in ListingOf(dst.uf, src) && EntryIs(dst.uf.bpb, src, ent, x)
    modifies dst`curBlock, dst`curPos, dst.uf.Objects()
    ensures dst.uf.Valid() && ScanReady(dst.uf) && old(dst.uf.dev.failures) <= dst.uf.dev.failures
    ensures Located(dst.uf.bpb, dst.uf.view, src') && AllClean(Records(dst.uf.bpb, dst.uf.view, src'))
    ensures Located(dst.uf.bpb, dst.uf.view, place) && AllClean(Records(dst.uf.bpb, dst.uf.view, place))
    ensures Extends(place0, place) && src' == if src == place0 then place else src
    ensures Kept(dst.uf.bpb, old(dst.uf.view), dst.uf.view,
                 Mine(dst.uf.bpb, old(dst.uf.view), place0) + Mine(dst.uf.bpb, old(dst.uf.view), src),
                     place0.Root? || src.Root?)
    ensures var s0, d0, s, d := old(ListingOf(dst.uf, src)), old(ListingOf(dst.uf, place0)), ListingOf(dst.uf,
      src'), ListingOf(dst.uf, place);
            if y.None? then r.Err? && s == s0 && d == d0
            else
              && MoveDone(src == place0, s0, d0, s, d, r.Ok?, x, y.value, mid, gone, m, m2)
              && y.value.name == Some(Wide(name))
              && !Taken(d0, ShortOf(y.value.rec), ExtOf(y.value.rec))
              && DirentOf(dst.uf.bpb.fatType, y.value.rec)
                 == Stored(dst.uf.bpb.fatType, ent.dirent.(shortName := ShortOf(y.value.rec),
                     shortExt := ExtOf(y.value.rec)))
    ensures r.Err? ==> r.error in {Immutable, DirectoryFull, NoClusters, IoError}
    ensures r == Err(DirectoryFull) ==>
              place0.Root? && RunMissing(dst.uf.bpb, old(dst.uf.view), place0, FragmentCount(Wide(name)) + 1)
    ensures r == Err(NoClusters) && dst.uf.dev.failures == old(dst.uf.dev.failures) ==>
              OutOfRoom(dst.uf.bpb, dst.uf.view, place, FragmentCount(Wide(name)) + 1)
    ensures r == Err(IoError) ==> old(dst.uf.dev.failures) < dst.uf.dev.failures
    ensures ent.dirent.shortName != [] && ent.dirent.shortName[0] == DOT ==> r == Err(Immutable)
    ensures r == Err(Immutable) ==>
              dst.uf.view == old(dst.uf.view) && ent.dirent.shortName != [] && ent.dirent.shortName[0] == DOT
  {
    hide Ufat.CoherentBut, FatOf, IsChain, Mine, Kept, DirBlock, Located, PlaceOk, Volume, Ufat.Valid, Bpb.Fits, Sized,
      Records, BlockCount, AllClean, ScanTo, Listing, EntryAt, Pair, Apart, ScanReady, Added, Replaced, LeftOf,
      MoveDone, Inserted, Stored, Tried, Taken, Usable, ShortOf, ExtOf, DirentOf, Wide, AsciiName, Extends, RecordsKept,
      RunMissing, OutOfRoom, FragmentCount,
      Directory.Ready;
    var uf := dst.uf;
    ghost var g, v := uf.bpb, uf.view;
    ghost var s0, d0 := ListingOf(uf, src), ListingOf(uf, place0);
    ghost var both := Mine(g, v, place0) + Mine(g, v, src);
    ghost var root := place0.Root? || src.Root?;
    PairFacts(uf, src, place0);
    KeptSame(g, v, both, root);
    GrownSelf(g, v, place0);
    src', place, y, mid, gone, m, m2 := src, place0, None, [], [], 0, 0;
    if |ent.dirent.shortName| > 0 && ent.dirent.shortName[0] == DOT {
      return Err(Immutable), src', place, y, mid, gone, m, m2;
    }
    NotLabel(g, Records(g, v, src), ent, x);
    var e;
    ghost var tried, item;
    e, place, item, tried := InsertDirent(dst, ent.dirent, name, place0, Mine(g, v, place0));
    src' := if src == place0 then place else src;
    ghost var v1 := uf.view;
    KeptWiden(g, v, v1, Mine(g, v, place0), place0.Root?, both, root);
    if e.Err? {
      if src != place0 {
        Across(g, v, v1, place0, src);
        SameRecords(g, v, v1, src);
      }
      return Err(e.error), src', place, None, mid, gone, m, m2;
    }
    UsableParts(dst, place, Mine(g, v, place0));
    InsertedParts(g, place, d0, Listing(Records(g, v1, place)), e.value.dirent, Wide(name), e.value, item.value);
    y := item;
    PairAfter(uf, v, src, place0, place, src', ent, x, y.value);
    PairFacts(uf, src', place);
    r, mid, gone, m, m2 := DropOld(uf, ent, e.value, src', place, x, y.value, s0, d0);
    SameKind(place0, place);
    WidenMine(g, v, v1, uf.view, src, place0, src', place, both, root);
  }

  lemma GrownSelf(g: Bpb, v: seq<Block>, place: Place)
    ensures Extends(place, place)
  {
  }

  lemma UsableParts(dir: Directory, place: Place, mine: set<int>)
    requires Usable(dir, place, mine)
    ensures dir.uf.Valid() && ScanReady(dir.uf) && PlaceOk(dir.uf.bpb, dir.uf.view, place)
    ensures Mine(dir.uf.bpb, dir.uf.view, place) <= mine
  {
  }

  lemma InsertedParts(g: Bpb, place: Place, was: seq<Item>, now: seq<Item>, e: Dirent, wide: seq<uint16>, r: Entry,
                      x: Item)
    requires Inserted(g, place, was, now, e, wide, r, x)
    ensures Added(was, now, x) && x.name == Some(wide) && EntryAt(g, place, r, x) && r.dirent == e
    ensures DirentOf(g.fatType, x.rec) == Stored(g.fatType, e) && ShortOf(x.rec) == e.shortName
    ensures ExtOf(x.rec) == e.shortExt
  {
  }

  lemma WidenMine(g: Bpb, v: seq<Block>, v1: seq<Block>, v2: seq<Block>, src: Place, dst: Place, src': Place,
                  dst': Place,
                  both: set<int>, root: bool)
    requires PlaceOk(g, v, src) && PlaceOk(g, v, dst) && PlaceOk(g, v1, src') && PlaceOk(g, v1, dst')
    requires both == Mine(g, v, dst) + Mine(g, v, src)
    requires Mine(g, v1, src') <= both && Mine(g, v1, dst') <= Mine(g, v, dst)
    requires (src'.Root? || dst'.Root?) ==> root
    requires Kept(g, v, v1, both, root)
    requires Kept(g, v1, v2, Mine(g, v1, src') + Mine(g, v1, dst'), src'.Root? || dst'.Root?)
    ensures Kept(g, v, v2, both, root)
  {
    hide Mine, PlaceOk;
    KeptWiden(g, v1, v2, Mine(g, v1, src') + Mine(g, v1, dst'), src'.Root? || dst'.Root?, both, root);
    KeptTrans(g, v, v1, v2, both, root);
  }

  /** Moving an entry gives no name twice. */
  lemma MoveKeepsDistinct(same: bool, s0: seq<Item>, d0: seq<Item>, s: seq<Item>, d: seq<Item>, x: Item, y: Item,
                          name: seq<byte>, mid: seq<Item>, gone: seq<Item>, m: nat, m2: nat)
    requires MoveDone(same, s0, d0, s, d, true, x, y, mid, gone, m, m2)
    requires Legal(name) && y.name == Some(Wide(name)) && NoneNamed(d0, name)
    requires Distinct(s0) && Distinct(d0) && (same ==> s == d) && FirstRecord(x) <= x.at
    ensures Distinct(s) && Distinct(d)
  {
    hide Distinct, Added, Replaced, NoneNamed, Legal, Shown, Wide;
    FindsNew(d0, mid, y, name, name);
    AddedDistinct(d0, mid, y);
    RemovedDistinct(if same then mid else s0, gone, x);
  }

  /** ufat_move: the entry gets its new name, in the same directory or in another one, with everything else as it was.
      If it cannot be inserted, nothing has changed. */
  method MoveEntry(ent: Entry, dst: Directory, name: seq<byte>, ghost src: Place, ghost place0: Place, ghost x: Item)
    returns (r: Result<()>, ghost src': Place, ghost place: Place, ghost y: Option<Item>, ghost mid: seq<Item>,
             ghost gone: seq<Item>, ghost m: nat, ghost m2: nat)
    requires Volume(dst.uf.bpb, dst.uf.view) && Usable(dst, place0, Mine(dst.uf.bpb, dst.uf.view, place0))
    requires Pair(dst.uf, place0, src) && Pair(dst.uf, src, place0)
    requires Located(dst.uf.bpb, dst.uf.view, src) && AllClean(Records(dst.uf.bpb, dst.uf.view, src))
    requires Located(dst.uf.bpb, dst.uf.view, place0) && AllClean(Records(dst.uf.bpb, dst.uf.view, place0))
    requires |name| <= 247 && |ListingOf(dst.uf, place0)| < NUMBERS - 1
    requires x in ListingOf(dst.uf, src) && EntryIs(dst.uf.bpb, src, ent, x)
    modifies dst`curBlock, dst`curPos, dst.uf.Objects()
    ensures dst.uf.Valid() && ScanReady(dst.uf) && old(dst.uf.dev.failures) <= dst.uf.dev.failures
    ensures Located(dst.uf.bpb, dst.uf.view, src') && AllClean(Records(dst.uf.bpb, dst.uf.view, src'))
    ensures Located(dst.uf.bpb, dst.uf.view, place) && AllClean(Records(dst.uf.bpb, dst.uf.view, place))
    ensures Extends(place0, place) && src' == if src == place0 then place else src
    ensures Kept(dst.uf.bpb, old(dst.uf.view), dst.uf.view,
                 Mine(dst.uf.bpb, old(dst.uf.view), place0) + Mine(dst.uf.bpb, old(dst.uf.view), src),
                 place0.Root? || src.Root?)
    ensures r.Err? ==> r.error in {IllegalName, FileExists, Immutable, DirectoryFull, NoClusters, IoError}
    ensures r == Err(DirectoryFull) ==>
              place0.Root? && RunMissing(dst.uf.bpb, old(dst.uf.view), place0, FragmentCount(Wide(name)) + 1)
    ensures r == Err(NoClusters) && dst.uf.dev.failures == old(dst.uf.dev.failures) ==>
              OutOfRoom(dst.uf.bpb, dst.uf.view, place, FragmentCount(Wide(name)) + 1)
    ensures r == Err(IoError) ==> old(dst.uf.dev.failures) < dst.uf.dev.failures
    ensures r == Err(IllegalName) <==> !Legal(name)
    ensures y.None? ==> r.Err?
    ensures var s0, d0 := old(ListingOf(dst.uf, src)), old(ListingOf(dst.uf, place0));
            var s, d := ListingOf(dst.uf, src'), ListingOf(dst.uf, place);
            var calm := dst.uf.dev.failures == old(dst.uf.dev.failures);
            && (if y.None? then s == s0 && d == d0
                else
                  && MoveDone(src == place0, s0, d0, s, d, r.Ok?, x, y.value, mid, gone, m, m2)
                  && y.value.name == Some(Wide(name))
                  && !Taken(d0, ShortOf(y.value.rec), ExtOf(y.value.rec))
                  && DirentOf(dst.uf.bpb.fatType, y.value.rec)
                     == Stored(dst.uf.bpb.fatType, ent.dirent.(shortName := ShortOf(y.value.rec),
                                                               shortExt := ExtOf(y.value.rec))))
            && (r == Err(FileExists) ==> !NoneNamed(d0, name))
            && (calm && Legal(name) && !NoneNamed(d0, name) ==> r == Err(FileExists))
            && (calm && r.Ok? && Distinct(s0) && Distinct(d0) ==> Distinct(s) && Distinct(d))
    ensures r.Err? && r.error in {IllegalName, FileExists, Immutable} ==> dst.uf.view == old(dst.uf.view)
    ensures var dots := ent.dirent.shortName != [] && ent.dirent.shortName[0] == DOT;
            && (r == Err(Immutable) ==> dots)
            && (dots ==> r.Err? && r.error in {IllegalName, FileExists, Immutable})
  {
    hide Ufat.CoherentBut, FatOf, IsChain, Mine, Kept, DirBlock, Located, PlaceOk, Volume, Ufat.Valid, Bpb.Fits, Sized,
      Records, BlockCount, AllClean, ScanTo, Listing, EntryAt, Pair, Apart, ScanReady, Added, Replaced, LeftOf,
      MoveDone, Inserted, Stored, Tried, Taken, Usable, ShortOf, ExtOf, DirentOf, Wide, AsciiName, Extends, RecordsKept,
      RunMissing, OutOfRoom, FragmentCount,
      Directory.Ready, Legal, NoneNamed, FirstNamed, Distinct;
    var uf := dst.uf;
    ghost var g, v := uf.bpb, uf.view;
    ghost var mine := Mine(g, v, place0);
    ghost var s0, d0 := ListingOf(uf, src), ListingOf(uf, place0);
    PairFacts(uf, src, place0);
    KeptSame(g, v, mine + Mine(g, v, src), place0.Root? || src.Root?);
    GrownSelf(g, v, place0);
    src', place, y, mid, gone, m, m2 := src, place0, None, [], [], 0, 0;
    var checked := CheckName(dst, name, place0, mine);
    UsableParts(dst, place0, mine);
    if checked.Err? {
      return Err(checked.error), src', place, y, mid, gone, m, m2;
    }
    LegalIsAscii(name);
    IsPair(uf, src, place0);
    IsPair(uf, place0, src);
    ListedPlace(Records(g, v, src), x);
    r, src', place, y, mid, gone, m, m2 := Relocate(ent, dst, name, src, place0, x);
    if r.Ok? && NoneNamed(d0, name) && Distinct(s0) && Distinct(d0) {
      MoveKeepsDistinct(src == place0, s0, d0, ListingOf(uf, src'), ListingOf(uf, place), x, y.value, name, mid, gone,
        m, m2);
    }
  }
}
