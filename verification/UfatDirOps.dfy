/** Operations on a directory (mysh/fs/ufat_dir.c): finding room, listing, inserting and deleting entries. */
module UfatDirOps {
  import opened Integers
  import opened UfatCache
  import opened UfatFat
  import opened UfatChain
  import opened UfatNames
  import opened UfatListing
  import opened UfatDir

  // ---- finding room ----

  ghost predicate FreeRun(recs: seq<Record>, p: int, n: nat) {
    0 <= p && p + n <= |recs| && forall x | p <= x < p + n :: IsFree(recs[x])
  }

  /** No run of `n` free records ends before record `k`. */
  ghost predicate NoRun(recs: seq<Record>, n: nat, k: nat) {
    forall p | 0 <= p <= k - n :: !FreeRun(recs, p, n)
  }

  /** The last `e` of the first `k` records are free, and the one before them is not. */
  ghost predicate Counted(recs: seq<Record>, k: nat, e: nat) {
    e <= k <= |recs| && FreeRun(recs, k - e, e) && (e < k ==> !IsFree(recs[k - e - 1]))
  }

  lemma RunStep(recs: seq<Record>, k: nat, e: nat, n: nat)
    requires Counted(recs, k, e) && NoRun(recs, n, k) && k < |recs| && e < n
    ensures var e' := if IsFree(recs[k]) then e + 1 else 0;
            Counted(recs, k + 1, e') && (e' < n ==> NoRun(recs, n, k + 1))
  {
    var e' := if IsFree(recs[k]) then e + 1 else 0;
    if e' < n && k + 1 >= n {
      var p := k + 1 - n;
      assert !IsFree(recs[k]) || !IsFree(recs[k - e - 1]);
      assert !FreeRun(recs, p, n);
    }
  }

  lemma ZeroAppend(a: nat, b: nat)
    ensures ZeroRecords(a) + ZeroRecords(b) == ZeroRecords(a + b)
  {
  }

  /** Zeroed records behind the records do not change what was counted. */
  lemma RunKept(recs: seq<Record>, more: seq<Record>, k: nat, e: nat, n: nat)
    requires Counted(recs, k, e) && NoRun(recs, n, k)
    ensures Counted(recs + more, k, e) && NoRun(recs + more, n, k)
  {
    assert forall x | 0 <= x < |recs| :: (recs + more)[x] == recs[x];
    forall p | 0 <= p <= k - n
      ensures !FreeRun(recs + more, p, n)
    {
      assert !FreeRun(recs, p, n);
      var x :| p <= x < p + n && !IsFree(recs[x]);
      assert !IsFree((recs + more)[x]);
    }
  }

  /** The records of a directory are the old ones with some zeroed ones behind them. */
  ghost predicate GrownBy(g: Bpb, v0: seq<Block>, place0: Place, v: seq<Block>, place: Place, extra: nat) {
    && Located(g, v0, place0) && Located(g, v, place) && Extends(place0, place)
    && Records(g, v, place) == Records(g, v0, place0) + ZeroRecords(extra)
  }

  lemma NotGrown(g: Bpb, v: seq<Block>, place: Place)
    requires Located(g, v, place)
    ensures GrownBy(g, v, place, v, place, 0)
  {
    assert Records(g, v, place) + ZeroRecords(0) == Records(g, v, place);
  }

  lemma GrownMore(g: Bpb, v0: seq<Block>, place0: Place, v1: seq<Block>, place1: Place, v2: seq<Block>, place2: Place,
                  a: nat, b: nat)
    requires GrownBy(g, v0, place0, v1, place1, a) && GrownBy(g, v1, place1, v2, place2, b)
    ensures GrownBy(g, v0, place0, v2, place2, a + b)
  {
    var r, x, y := Records(g, v0, place0), ZeroRecords(a), ZeroRecords(b);
    assert r + x + y == r + (x + y);
    ZeroAppend(a, b);
    hide Records;
  }

  /** The search for room has passed `k` records; the last `e` of them are free, from the remembered position on. */
  ghost predicate Searching(g: Bpb, v0: seq<Block>, place0: Place, v: seq<Block>, place: Place, extra: nat,
                            mine: set<int>,
                            count: nat, k: nat, e: nat, b: Option<nat>, p: nat) {
    && Kept(g, v0, v, mine, place0.Root?) && GrownBy(g, v0, place0, v, place, extra)
    && Counted(Records(g, v, place), k, e) && NoRun(Records(g, v, place), count, k)
    && (0 < e ==> At(g, place, k - e, b, p))
    && (place0.Root? ==> place == place0 && v == v0)
  }

  lemma SearchStart(g: Bpb, v: seq<Block>, place: Place, mine: set<int>, count: nat)
    requires PlaceOk(g, v, place) && 1 <= count
    ensures Searching(g, v, place, v, place, 0, mine, count, 0, 0, None, 0) && Located(g, v, place)
    ensures 0 < Count(g, place)
  {
    NotGrown(g, v, place);
    KeptSame(g, v, mine, place.Root?);
    FirstRecordExists(g, v, place);
  }

  /** One more record has been looked at. */
  lemma SearchLook(g: Bpb, v0: seq<Block>, place0: Place, v: seq<Block>, place: Place, extra: nat, mine: set<int>,
                   count: nat, k: nat, e: nat, b: Option<nat>, p: nat, hb: Option<nat>, hp: nat)
    requires Searching(g, v0, place0, v, place, extra, mine, count, k, e, b, p) && k < Count(g, place) && e < count
    requires At(g, place, k, hb, hp)
    ensures var recs := Records(g, v, place);
            var free := IsFree(recs[k]); var e' := if free then e + 1 else 0;
            var b' := if free && e == 0 then hb else b; var p' := if free && e == 0 then hp else p;
            && Counted(recs, k + 1, e') && (0 < e' ==> At(g, place, k + 1 - e', b', p'))
            && (e' < count ==> Searching(g, v0, place0, v, place, extra, mine, count, k + 1, e', b', p'))
  {
    RunStep(Records(g, v, place), k, e, count);
    hide Records, Kept, At, GrownBy;
  }

  /** The directory has grown, or not. */
  lemma SearchOn(g: Bpb, v0: seq<Block>, place0: Place, v: seq<Block>, place: Place, extra: nat, mine: set<int>,
                 count: nat, k: nat, e: nat, b: Option<nat>, p: nat, v': seq<Block>, place': Place, more: nat)
    requires Searching(g, v0, place0, v, place, extra, mine, count, k, e, b, p) && k <= Count(g, place)
    requires Kept(g, v, v', mine, place0.Root?) && Located(g, v', place') && Extends(place, place')
    requires if more == 0 then place' == place && v' == v
             else place0.Chain? && Records(g, v', place') == Records(g, v, place) + ZeroRecords(more)
    ensures Searching(g, v0, place0, v', place', extra + more, mine, count, k, e, b, p)
  {
    KeptTrans(g, v0, v, v', mine, place0.Root?);
    if more > 0 {
      GrownMore(g, v0, place0, v, place, v', place', extra, more);
      RunKept(Records(g, v, place), ZeroRecords(more), k, e, count);
      if 0 < e {
        LocatedPrefix(g, v', place, place');
        AtExtended(g, v', place, place', k - e, b, p);
      }
    }
  }

  /** Beyond the old records, all are free. */
  lemma SearchParts(g: Bpb, v0: seq<Block>, place0: Place, v: seq<Block>, place: Place, extra: nat, mine: set<int>,
                    count: nat, k: nat, e: nat, b: Option<nat>, p: nat)
    requires Searching(g, v0, place0, v, place, extra, mine, count, k, e, b, p) && k < Count(g, place)
    ensures Kept(g, v0, v, mine, place0.Root?) && GrownBy(g, v0, place0, v, place, extra)
    ensures Located(g, v, place) && Located(g, v0, place0)
    ensures k >= Count(g, place0) ==> IsFree(Records(g, v, place)[k])
    ensures NoRun(Records(g, v, place), count, k)
    ensures |Records(g, v, place)| == Count(g, place)
  {
  }

  lemma SearchFull(g: Bpb, v0: seq<Block>, place0: Place, v: seq<Block>, place: Place, extra: nat, mine: set<int>,
                   count: nat, k: nat, e: nat, b: Option<nat>, p: nat)
    requires Searching(g, v0, place0, v, place, extra, mine, count, k, e, b, p) && k == Count(g, place)
    ensures Kept(g, v0, v, mine, place0.Root?) && GrownBy(g, v0, place0, v, place, extra)
    ensures place0.Root? ==> v == v0 && RunMissing(g, v0, place0, count)
  {
  }

  lemma AtEnd(g: Bpb, place: Place, k: int, b: Option<nat>, p: nat)
    requires At(g, place, k, b, p)
    ensures b == None <==> k == Count(g, place)
    ensures k <= Count(g, place)
  {
  }

  lemma SearchRoot(place0: Place, place: Place, g: Bpb, v0: seq<Block>, v: seq<Block>, extra: nat)
    requires GrownBy(g, v0, place0, v, place, extra)
    ensures place.Root? <==> place0.Root?
  {
  }

  lemma LocatedPrefix(g: Bpb, v: seq<Block>, place: Place, place': Place)
    requires Located(g, v, place') && Extends(place, place') && 0 < BlockCount(g, place)
    ensures Located(g, v, place)
  {
  }

  lemma SearchFound(g: Bpb, v: seq<Block>, place: Place, k: nat, e: nat, b: Option<nat>, p: nat)
    requires Located(g, v, place) && Counted(Records(g, v, place), k, e) && 0 < e && At(g, place, k - e, b, p)
    ensures FreeRun(Records(g, v, place), k - e, e)
  {
  }

  lemma ReadyLocated(g: Bpb, v: seq<Block>, place: Place)
    requires PlaceOk(g, v, place)
    ensures Located(g, v, place)
  {
  }

  /** A failed step has not changed the records. */
  lemma SearchFailed(g: Bpb, v0: seq<Block>, place0: Place, v: seq<Block>, place: Place, extra: nat, mine: set<int>,
                     v': seq<Block>)
    requires Kept(g, v0, v, mine, place0.Root?) && GrownBy(g, v0, place0, v, place, extra)
    requires Kept(g, v, v', mine, place0.Root?) && RecordsKept(g, v, v', place)
    ensures Kept(g, v0, v', mine, place0.Root?) && GrownBy(g, v0, place0, v', place, extra)
  {
    KeptTrans(g, v0, v, v', mine, place0.Root?);
  }

  /** The directory has no run of `count` free records. */
  ghost predicate RunMissing(g: Bpb, v: seq<Block>, place: Place, count: nat) {
    Located(g, v, place) && var recs := Records(g, v, place); NoRun(recs, count, |recs|)
  }

  /** There are no free records for an entry, and no cluster for more of them. */
  ghost predicate OutOfRoom(g: Bpb, v: seq<Block>, place: Place, count: nat) {
    RunMissing(g, v, place, count) && FullVolume(g, v)
  }

  lemma SearchedAll(g: Bpb, v0: seq<Block>, place0: Place, v: seq<Block>, place: Place, extra: nat, mine: set<int>,
                    count: nat, k: nat, e: nat, b: Option<nat>, p: nat, v': seq<Block>)
    requires Searching(g, v0, place0, v, place, extra, mine, count, k, e, b, p) && k == Count(g, place)
    requires RecordsKept(g, v, v', place) && FullVolume(g, v')
    ensures OutOfRoom(g, v', place, count)
  {
  }

  /** The start of the loop body: whether the record is free. */
  method LookHere(dir: Directory, ghost v0: seq<Block>, ghost place0: Place, ghost place: Place, ghost extra: nat,
                  ghost mine: set<int>, count: nat, ghost k: nat, ghost n0: nat, b0: Option<nat>, p0: nat, e0: nat)
    returns (r: Result<()>, b: Option<nat>, p: nat, e: nat)
    requires dir.Ready(place, mine) && dir.Standing(place, k) && k < Count(dir.uf.bpb, place) && e0 < count
    requires n0 == Count(dir.uf.bpb, place0)
    requires Searching(dir.uf.bpb, v0, place0, dir.uf.view, place, extra, mine, count, k, e0, b0, p0)
    modifies dir.uf.Objects()
    ensures dir.Ready(place, mine) && dir.Standing(place, k) && dir.uf.view == old(dir.uf.view)
    ensures old(dir.uf.dev.failures) <= dir.uf.dev.failures
    ensures Kept(dir.uf.bpb, v0, dir.uf.view, mine, place0.Root?)
    ensures GrownBy(dir.uf.bpb, v0, place0, dir.uf.view, place, extra)
    ensures r.Err? ==> r.error == IoError
    ensures r == Err(IoError) ==> old(dir.uf.dev.failures) < dir.uf.dev.failures
    ensures r.Ok? && k >= n0 ==> e == e0 + 1
    ensures r.Ok? && e < count ==>
              Searching(dir.uf.bpb, v0, place0, dir.uf.view, place, extra, mine, count, k + 1, e, b, p)
    ensures r.Ok? && e >= count ==>
              && e == count <= k + 1 && At(dir.uf.bpb, place, k + 1 - count, b, p)
              && FreeRun(Records(dir.uf.bpb, dir.uf.view, place), k + 1 - count, count)
              && NoRun(Records(dir.uf.bpb, dir.uf.view, place), count, k)
  {
    hide Ufat.CoherentBut, FatOf, IsChain, Mine, Kept, DirBlock, Volume, Ufat.Valid, Bpb.Fits, Sized, Records,
      PerBlock, BlockCount, ClusterRecords, Count, At, NoRun, FreeRun, Extends, GrownBy, Searching, RecordsKept;
    ghost var g := dir.uf.bpb;
    SearchParts(g, v0, place0, dir.uf.view, place, extra, mine, count, k, e0, b0, p0);
    b, p, e := b0, p0, e0;
    var data := dir.ReadRaw(place, k);
    if data.Err? {
      return Err(data.error), b, p, e;
    }
    SearchLook(g, v0, place0, dir.uf.view, place, extra, mine, count, k, e0, b0, p0, dir.curBlock, dir.curPos);
    if data.value.value[0] == 0 || data.value.value[0] == 0xe5 {
      if e == 0 {
        b, p := dir.curBlock, dir.curPos;
      }
      e := e + 1;
    } else {
      e := 0;
    }
    if e >= count {
      SearchFound(g, dir.uf.view, place, k + 1, e, b, p);
    }
    r := Ok(());
  }

  /** The end of the loop body: on to the next record, which may be a new one. */
  method StepOn(dir: Directory, ghost v0: seq<Block>, ghost place0: Place, ghost place1: Place, ghost extra0: nat,
                ghost mine: set<int>, ghost count: nat, ghost k: nat, ghost e: nat, ghost b: Option<nat>, ghost p: nat)
    returns (r: Result<()>, ghost place: Place, ghost extra: nat)
    requires dir.Ready(place1, mine) && dir.Standing(place1, k) && k < Count(dir.uf.bpb, place1)
    requires Searching(dir.uf.bpb, v0, place0, dir.uf.view, place1, extra0, mine, count, k + 1, e, b, p)
    modifies dir`curBlock, dir`curPos, dir.uf.Objects()
    ensures dir.uf.Valid() && ScanReady(dir.uf) && old(dir.uf.dev.failures) <= dir.uf.dev.failures
    ensures Kept(dir.uf.bpb, v0, dir.uf.view, mine, place0.Root?)
    ensures GrownBy(dir.uf.bpb, v0, place0, dir.uf.view, place, extra)
    ensures r.Ok? ==>
              && dir.Ready(place, mine) && dir.Standing(place, k + 1) && k + 1 < Count(dir.uf.bpb, place)
              && Searching(dir.uf.bpb, v0, place0, dir.uf.view, place, extra, mine, count, k + 1, e, b, p)
              && (extra == extra0 || Count(dir.uf.bpb, place0) <= k + 1)
    ensures r == Err(DirectoryFull) ==>
              place0.Root? && dir.uf.view == v0 && RunMissing(dir.uf.bpb, v0, place0, count)
    ensures r.Err? ==> r.error in {DirectoryFull, NoClusters, IoError}
    ensures r == Err(NoClusters) && dir.uf.dev.failures == old(dir.uf.dev.failures) ==>
              OutOfRoom(dir.uf.bpb, dir.uf.view, place, count)
    ensures r == Err(IoError) ==> old(dir.uf.dev.failures) < dir.uf.dev.failures
  {
    hide Ufat.CoherentBut, FatOf, IsChain, Mine, Kept, Located, DirBlock, PlaceOk, Volume, Ufat.Valid, Bpb.Fits, Sized,
      Records, PerBlock, BlockCount, ClusterRecords, Count, At, NoRun, FreeRun, Extends, GrownBy, Counted, Searching,
      RecordsKept, RunMissing, OutOfRoom, FullVolume;
    ghost var g, v1 := dir.uf.bpb, dir.uf.view;
    place, extra := place1, extra0;
    SearchGrown(g, v0, place0, v1, place1, extra, mine, count, k + 1, e, b, p);
    SearchRoot(place0, place1, g, v0, v1, extra);
    ghost var more := if k + 1 < Count(g, place1) || place1.Root? then 0 else ClusterRecords(g);
    r, place := dir.AdvanceRaw(true, place1, k, mine);
    if r.Err? {
      SearchFailed(g, v0, place0, v1, place1, extra, mine, dir.uf.view);
      if dir.uf.dev.failures == old(dir.uf.dev.failures) {
        SearchedAll(g, v0, place0, v1, place1, extra, mine, count, k + 1, e, b, p, dir.uf.view);
      }
      return r, place1, extra;
    }
    ReadyLocated(g, dir.uf.view, place);
    AtEnd(g, place, k + 1, dir.curBlock, dir.curPos);
    MoreRecords(g);
    SearchOn(g, v0, place0, v1, place1, extra, mine, count, k + 1, e, b, p, dir.uf.view, place, more);
    CountGrown(g, v0, place0, v1, place1, extra);
    extra := extra + more;
    SearchGrown(g, v0, place0, dir.uf.view, place, extra, mine, count, k + 1, e, b, p);
    if dir.curBlock.None? {
      SearchFull(g, v0, place0, dir.uf.view, place, extra, mine, count, k + 1, e, b, p);
      return Err(DirectoryFull), place, extra;
    }
  }

  lemma CountGrown(g: Bpb, v0: seq<Block>, place0: Place, v: seq<Block>, place: Place, extra: nat)
    requires GrownBy(g, v0, place0, v, place, extra)
    ensures Count(g, place) == Count(g, place0) + extra
  {
    assert |Records(g, v, place)| == Count(g, place) && |Records(g, v0, place0)| == Count(g, place0);
  }

  lemma MoreRecords(g: Bpb)
    ensures ClusterRecords(g) >= 0
  {
  }

  lemma SearchGrown(g: Bpb, v0: seq<Block>, place0: Place, v: seq<Block>, place: Place, extra: nat, mine: set<int>,
                    count: nat, k: nat, e: nat, b: Option<nat>, p: nat)
    requires Searching(g, v0, place0, v, place, extra, mine, count, k, e, b, p)
    ensures Kept(g, v0, v, mine, place0.Root?) && GrownBy(g, v0, place0, v, place, extra)
  {
  }

  /** ufat_allocate_raw_dirent: the handle is put on the first run of `count` free records, which ends in a new cluster
      only if there is none without. The root area is full only when it has no such run. */
  method AllocateRaw(dir: Directory, count: nat, ghost place0: Place, ghost mine: set<int>)
    returns (r: Result<()>, ghost place: Place, ghost p: nat, ghost extra: nat)
    requires dir.Ready(place0, mine) && 1 <= count
    requires 0 < dir.uf.bpb.blocksPerCluster && 0 < BlockCount(dir.uf.bpb, place0)
    requires dir.start == DirBlock(dir.uf.bpb, place0, 0)
    modifies dir`curBlock, dir`curPos, dir.uf.Objects()
    ensures dir.uf.Valid() && ScanReady(dir.uf) && old(dir.uf.dev.failures) <= dir.uf.dev.failures
    ensures Kept(dir.uf.bpb, old(dir.uf.view), dir.uf.view, mine, place0.Root?)
    ensures GrownBy(dir.uf.bpb, old(dir.uf.view), place0, dir.uf.view, place, extra)
    ensures r.Ok? ==>
              && dir.Ready(place, mine) && dir.Standing(place, p)
              && FreeRun(Records(dir.uf.bpb, dir.uf.view, place), p, count)
              && NoRun(Records(dir.uf.bpb, dir.uf.view, place), count, p + count - 1)
              && (0 < extra ==> Count(dir.uf.bpb, place0) < p + count)
    ensures r == Err(DirectoryFull) ==>
              && place0.Root? && dir.uf.view == old(dir.uf.view)
              && RunMissing(dir.uf.bpb, dir.uf.view, place0, count)
    ensures r.Err? ==> r.error in {DirectoryFull, NoClusters, IoError}
    ensures r == Err(NoClusters) && dir.uf.dev.failures == old(dir.uf.dev.failures) ==>
              OutOfRoom(dir.uf.bpb, dir.uf.view, place, count)
    ensures r == Err(IoError) ==> old(dir.uf.dev.failures) < dir.uf.dev.failures
  {
    hide Ufat.CoherentBut, FatOf, IsChain, Mine, Kept, Located, DirBlock, PlaceOk, Volume, Ufat.Valid, Bpb.Fits, Sized,
      Records, PerBlock, BlockCount, ClusterRecords, Count, At, NoRun, FreeRun, Extends, GrownBy, Counted, Searching,
      RecordsKept, RunMissing, OutOfRoom, FullVolume;
    ghost var g, v0 := dir.uf.bpb, dir.uf.view;
    SearchStart(g, v0, place0, mine, count);
    dir.Rewind(place0);
    place, p, extra := place0, 0, 0;
    ghost var k: nat, n0: nat := 0, Count(g, place0);
    var emptyStart: Option<nat>, emptyPos: nat, emptyCount: nat := None, 0, 0;
    while true
      invariant dir.Ready(place, mine) && dir.Standing(place, k) && k < Count(g, place)
      invariant old(dir.uf.dev.failures) <= dir.uf.dev.failures && emptyCount < count
      invariant Searching(g, v0, place0, dir.uf.view, place, extra, mine, count, k, emptyCount, emptyStart, emptyPos)
      invariant 0 < extra ==> n0 <= k
      decreases if k < n0 then n0 - k else 0, count - emptyCount
    {
      ghost var e0 := emptyCount;
      r, emptyStart, emptyPos, emptyCount :=
        LookHere(dir, v0, place0, place, extra, mine, count, k, n0, emptyStart, emptyPos, emptyCount);
      if r.Err? {
        return;
      }
      if emptyCount >= count {
        p := k + 1 - count;
        break;
      }
      r, place, extra := StepOn(dir, v0, place0, place, extra, mine, count, k, emptyCount, emptyStart, emptyPos);
      if r.Err? {
        return;
      }
      k := k + 1;
    }
    dir.curBlock, dir.curPos := emptyStart, emptyPos;
    r := Ok(());
  }

  // ---- listing ----

  /** What ufat_dir_read returns: the entry, where its record is, and the place and the text of its long name. */
  datatype Entry = Entry(dirent: Dirent, block: nat, pos: nat, lfn: Option<(nat, nat)>, name: Option<seq<uint16>>)

  /** The places of an entry and its long name. */
  ghost predicate EntryAt(g: Bpb, place: Place, e: Entry, x: Item) {
    && At(g, place, x.at, Some(e.block), e.pos)
    && (match x.from
        case None => e.lfn == None
        case Some(f) => e.lfn.Some? && At(g, place, f, Some(e.lfn.value.0), e.lfn.value.1))
  }

  ghost predicate EntryIs(g: Bpb, place: Place, e: Entry, x: Item) {
    e.dirent == DirentOf(g.fatType, x.rec) && e.name == x.name && EntryAt(g, place, e, x)
  }

  /** The names fit the fields and the buffers that they were read into. */
  predicate Formattable(e: Entry) {
    && |e.dirent.shortName| <= 8 && |e.dirent.shortExt| <= 3
    && (e.name.Some? ==> |e.name.value| <= MAX_CHARS && UpToZero(e.name.value) == e.name.value)
  }

  /** The parser's remembered place is that of the fragment where the name starts. */
  ghost predicate Tracked(g: Bpb, place: Place, s: Lfn, b: nat, p: nat) {
    s.Reading? ==> At(g, place, s.start, Some(b), p)
  }

  /** The entries from `k0` on are those from `k` on, read in state `s`. */
  ghost predicate Skipped(recs: seq<Record>, k0: nat, k: nat, s: Lfn) {
    && AllClean(recs) && k0 <= k <= |recs|
    && ScanTo(recs, k0, |recs|, Idle).1 == ScanTo(recs, k, |recs|, s).1
  }

  /** One record without an entry. */
  lemma SkipOne(recs: seq<Record>, k0: nat, k: nat, s: Lfn)
    requires Skipped(recs, k0, k, s) && k < |recs| && !(IsEntry(recs[k]) && !IsLabel(recs[k]))
    ensures Skipped(recs, k0, k + 1, Look(recs[k], k, s).0)
  {
    assert Look(recs[k], k, s).1 == [];
    var rest := ScanTo(recs, k + 1, |recs|, Look(recs[k], k, s).0).1;
    assert [] + rest == rest;
  }

  /** A record with an entry. */
  lemma FindOne(recs: seq<Record>, k0: nat, k: nat, s: Lfn)
    requires Skipped(recs, k0, k, s) && k < |recs| && IsEntry(recs[k]) && !IsLabel(recs[k])
    ensures ScanTo(recs, k0, |recs|, Idle).1 == [ItemAt(recs[k], k, s)] + ScanTo(recs, k + 1, |recs|, Idle).1
  {
  }

  lemma LookAtRecord(r: Record, k: nat, s: Lfn)
    requires Clean(r)
    ensures IsFragment(r) ==> Look(r, k, s).0 == Parsed(s, r, k) && r[0] % 64 != 0 && !IsEntry(r)
    ensures !IsFragment(r) ==> Look(r, k, s).0 == Idle
    ensures IsEntry(r) <==> !IsFragment(r) && r[0] != 0 && r[0] != 0xe5
  {
  }

  lemma ReadStart(g: Bpb, v: seq<Block>, place: Place, recs: seq<Record>, k0: nat, b: Option<nat>, p: nat)
    requires Located(g, v, place) && recs == Records(g, v, place) && AllClean(recs) && At(g, place, k0, b, p)
    ensures Skipped(recs, k0, k0, Idle)
  {
  }

  lemma SkippedAll(recs: seq<Record>, k0: nat, k: nat, s: Lfn)
    requires Skipped(recs, k0, k, s) && k == |recs|
    ensures AllClean(recs) && ScanTo(recs, k0, |recs|, Idle).1 == []
  {
  }

  lemma CleanAt(recs: seq<Record>, k0: nat, k: nat, s: Lfn)
    requires Skipped(recs, k0, k, s) && k < |recs|
    ensures Clean(recs[k])
  {
  }

  /** The body of ufat_dir_read for one record. */
  method DirReadRecord(lfn: LfnParser, t: FatType, data: Record, block: nat, pos: nat,
                       ghost g: Bpb, ghost place: Place, ghost recs: seq<Record>, ghost k0: nat, ghost k: nat)
    returns (r: Option<Entry>, ghost x: Option<Item>)
    requires lfn.Valid() && Skipped(recs, k0, k, lfn.State()) && k < |recs| && recs[k] == data && t == g.fatType
    requires At(g, place, k, Some(block), pos) && Tracked(g, place, lfn.State(), lfn.startBlock, lfn.startPos)
    modifies lfn
    ensures lfn.Valid()
    ensures r.None? ==> x == None && Skipped(recs, k0, k + 1, lfn.State())
                        && Tracked(g, place, lfn.State(), lfn.startBlock, lfn.startPos)
    ensures r.Some? ==>
              && x.Some? && EntryIs(g, place, r.value, x.value) && Formattable(r.value) && AllClean(recs) && k0 <= k
              && ScanTo(recs, k0, |recs|, Idle).1 == [x.value] + ScanTo(recs, k + 1, |recs|, Idle).1
  {
    hide At, AllClean, ScanTo, Parsed, Skipped, DirentOf, UpToZero, Look, ItemAt, RecordChecksum, IsEntry, IsLabel;
    r, x := None, None;
    ghost var s := lfn.State();
    CleanAt(recs, k0, k, s);
    LookAtRecord(data, k, s);
    EntryOrNot(recs, k0, k, s);
    if data[0x0b] == 0x0f && data[0] != 0xe5 {
      lfn.Parse(data, block, pos, k);
    } else if data[0] != 0 && data[0] != 0xe5 {
      var inf := ParseDirent(t, data);
      DirentParts(t, data);
      var sum := ShortChecksum(inf.shortName, inf.shortExt);
      ItemIs(data, k, s);
      hide NameChecksum;
      if sum != lfn.checksum {
        lfn.Reset();
      }
      if inf.attributes / 8 % 2 == 1 {
        lfn.Reset();
        return;
      }
      x := Some(ItemAt(data, k, s));
      if lfn.IsOk() {
        NoZeroInside(lfn.buf[..lfn.len]);
        r := Some(Entry(inf, block, pos, Some((lfn.startBlock, lfn.startPos)), Some(UpToZero(lfn.buf[..lfn.len]))));
      } else {
        r := Some(Entry(inf, block, pos, None, None));
      }
    } else {
      lfn.Reset();
    }
  }

  lemma EntryOrNot(recs: seq<Record>, k0: nat, k: nat, s: Lfn)
    requires Skipped(recs, k0, k, s) && k < |recs|
    ensures AllClean(recs) && k0 <= k && Clean(recs[k])
    ensures if IsEntry(recs[k]) && !IsLabel(recs[k])
            then ScanTo(recs, k0, |recs|, Idle).1 == [ItemAt(recs[k], k, s)] + ScanTo(recs, k + 1, |recs|, Idle).1
            else Skipped(recs, k0, k + 1, Look(recs[k], k, s).0)
  {
    if IsEntry(recs[k]) && !IsLabel(recs[k]) {
      FindOne(recs, k0, k, s);
    } else {
      SkipOne(recs, k0, k, s);
    }
  }

  lemma DirentParts(t: FatType, r: Record)
    ensures var d := DirentOf(t, r);
            && |d.shortName| <= 8 && |d.shortExt| <= 3 && d.attributes == r[0x0b]
            && NameChecksum(d.shortName, d.shortExt) == RecordChecksum(r)
            && (IsLabel(r) <==> d.attributes / 8 % 2 == 1)
  {
  }

  lemma ItemIs(r: Record, k: nat, s: Lfn)
    ensures ItemAt(r, k, s).at == k && ItemAt(r, k, s).rec == r
    ensures if s.Reading? && s.left == 0 && s.checksum == RecordChecksum(r)
            then ItemAt(r, k, s).from == Some(s.start) && ItemAt(r, k, s).name == Some(UpToZero(s.text))
            else ItemAt(r, k, s).from == None && ItemAt(r, k, s).name == None
  {
  }

  /** ufat_dir_read: the next entry of the listing, or none when there is none. */
  method DirRead(dir: Directory, ghost place: Place, ghost k0: nat, ghost mine: set<int>)
    returns (r: Result<Option<Entry>>, ghost k: nat, ghost x: Option<Item>)
    requires dir.Ready(place, mine) && dir.Standing(place, k0)
    requires Located(dir.uf.bpb, dir.uf.view, place) && AllClean(Records(dir.uf.bpb, dir.uf.view, place))
    modifies dir`curBlock, dir`curPos, dir.uf.Objects()
    ensures dir.Ready(place, mine) && dir.uf.view == old(dir.uf.view) && old(dir.uf.dev.failures) <= dir.uf.dev.failures
    ensures r.Err? ==> r.error == IoError && old(dir.uf.dev.failures) < dir.uf.dev.failures
    ensures r.Ok? ==>
              && dir.Standing(place, k) && k0 <= k
              && var recs := Records(dir.uf.bpb, dir.uf.view, place); var all := ScanTo(recs, k0, |recs|, Idle).1;
              if r.value.None? then all == [] && x == None
              else
                && k0 < k <= |recs| && x.Some? && EntryIs(dir.uf.bpb, place, r.value.value, x.value)
                && Formattable(r.value.value)
                && all == [x.value] + ScanTo(recs, k, |recs|, Idle).1
  {
    hide Ufat.CoherentBut, FatOf, IsChain, Mine, Kept, DirBlock, Located, PlaceOk, Volume, Ufat.Valid, Bpb.Fits, Sized,
      Records, PerBlock, BlockCount, ClusterRecords, Count, At, RecordsKept, AllClean, ScanTo, Look, IsEntry, IsLabel,
      Parsed, Skipped, IsFragment, DirentOf, RecordChecksum, ItemAt, UpToZero, Formattable;
    ghost var g, recs := dir.uf.bpb, Records(dir.uf.bpb, dir.uf.view, place);
    var lfn := new LfnParser();
    k, x := k0, None;
    ReadStart(g, dir.uf.view, place, recs, k0, dir.curBlock, dir.curPos);
    while true
      invariant dir.Ready(place, mine) && dir.Standing(place, k) && dir.uf.view == old(dir.uf.view)
      invariant old(dir.uf.dev.failures) <= dir.uf.dev.failures
      invariant fresh(lfn) && lfn.Valid() && k0 <= k <= |recs| && x == None
      invariant Skipped(recs, k0, k, lfn.State()) && Tracked(g, place, lfn.State(), lfn.startBlock, lfn.startPos)
      decreases |recs| - k
    {
      ghost var s := lfn.State();
      var block, pos := dir.curBlock, dir.curPos;
      AtEnd(g, place, k, block, pos);
      var raw := dir.ReadRaw(place, k);
      if raw.Err? {
        return Err(raw.error), k, None;
      }
      if raw.value.None? {
        SkippedAll(recs, k0, k, s);
        return Ok(None), k, None;
      }
      var data := raw.value.value;
      ghost var place';
      var a;
      a, place' := dir.AdvanceRaw(false, place, k, mine);
      if a.Err? {
        return Err(a.error), k, None;
      }
      var e;
      e, x := DirReadRecord(lfn, dir.uf.bpb.fatType, data, block.value, pos, g, place, recs, k0, k);
      k := k + 1;
      if e.Some? {
        return Ok(e), k, x;
      }
    }
  }
}
