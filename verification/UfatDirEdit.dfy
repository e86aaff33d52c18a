/** Changing a directory (mysh/fs/ufat_dir.c): choosing a short name, inserting an entry with its long name, and
    deleting one. */
module UfatDirEdit {
  import opened Integers
  import opened Arith
  import opened UfatCache
  import opened UfatFat
  import opened UfatChain
  import opened UfatNames
  import opened UfatListing
  import opened UfatShort
  import opened UfatDir
  import opened UfatDirOps

  // ---- short names that are taken ----

  function ShortOf(r: Record): seq<byte> { Printable(r[..8]) }

  function ExtOf(r: Record): seq<byte> { Printable(r[8..11]) }

  predicate SameShort(r: Record, name: seq<byte>, ext: seq<byte>) {
    Upper(name) == Upper(ShortOf(r)) && Upper(ext) == Upper(ExtOf(r))
  }

  predicate Taken(items: seq<Item>, name: seq<byte>, ext: seq<byte>) {
    exists i | 0 <= i < |items| :: SameShort(items[i].rec, name, ext)
  }

  lemma TakenFirst(x: Item, rest: seq<Item>, name: seq<byte>, ext: seq<byte>)
    ensures Taken([x] + rest, name, ext) <==> SameShort(x.rec, name, ext) || Taken(rest, name, ext)
  {
    var all := [x] + rest;
    assert all[0] == x;
    if i :| 0 <= i < |rest| && SameShort(rest[i].rec, name, ext) {
      assert all[i + 1] == rest[i];
    }
    if i :| 0 <= i < |all| && SameShort(all[i].rec, name, ext) {
      assert i > 0 ==> all[i] == rest[i - 1];
    }
  }

  /** The answer is the same for the entries from record `k` on. */
  ghost predicate StillTaken(recs: seq<Record>, k: nat, name: seq<byte>, ext: seq<byte>) {
    && AllClean(recs) && k <= |recs|
    && (Taken(Listing(recs), name, ext) <==> Taken(ScanTo(recs, k, |recs|, Idle).1, name, ext))
  }

  lemma TakenStep(recs: seq<Record>, k: nat, k': nat, x: Item, name: seq<byte>, ext: seq<byte>)
    requires StillTaken(recs, k, name, ext) && k <= k' <= |recs|
    requires ScanTo(recs, k, |recs|, Idle).1 == [x] + ScanTo(recs, k', |recs|, Idle).1
    ensures if SameShort(x.rec, name, ext) then Taken(Listing(recs), name, ext) else StillTaken(recs, k', name, ext)
  {
    TakenFirst(x, ScanTo(recs, k', |recs|, Idle).1, name, ext);
    hide Taken, SameShort;
  }

  lemma TakenEnd(recs: seq<Record>, k: nat, name: seq<byte>, ext: seq<byte>)
    requires StillTaken(recs, k, name, ext) && ScanTo(recs, k, |recs|, Idle).1 == []
    ensures !Taken(Listing(recs), name, ext)
  {
  }

  lemma NamesOf(g: Bpb, place: Place, e: Entry, x: Item)
    requires EntryIs(g, place, e, x)
    ensures e.dirent.shortName == ShortOf(x.rec) && e.dirent.shortExt == ExtOf(x.rec)
  {
  }

  /** The handle belongs to a directory of clean records that starts where `place` does. */
  ghost predicate Usable(dir: Directory, place: Place, mine: set<int>)
    reads dir, dir.uf, dir.uf.Objects()
  {
    && dir.Ready(place, mine) && AllClean(Records(dir.uf.bpb, dir.uf.view, place))
    && 0 < dir.uf.bpb.blocksPerCluster && dir.start == DirBlock(dir.uf.bpb, place, 0)
  }

  lemma StartOf(g: Bpb, v: seq<Block>, place: Place)
    requires PlaceOk(g, v, place)
    ensures Located(g, v, place) && |Records(g, v, place)| == Count(g, place) && 0 < BlockCount(g, place)
    ensures 0 < g.blocksPerCluster && Volume(g, v)
  {
  }

  lemma TakenFromStart(recs: seq<Record>, name: seq<byte>, ext: seq<byte>)
    requires AllClean(recs)
    ensures StillTaken(recs, 0, name, ext)
  {
  }

  /** ufat_short_exists */
  method ShortExists(dir: Directory, name: seq<byte>, ext: seq<byte>, ghost place: Place, ghost mine: set<int>)
    returns (r: Result<bool>)
    requires Usable(dir, place, mine)
    modifies dir`curBlock, dir`curPos, dir.uf.Objects()
    ensures Usable(dir, place, mine) && dir.uf.view == old(dir.uf.view)
    ensures old(dir.uf.dev.failures) <= dir.uf.dev.failures
    ensures r.Err? ==> r.error == IoError && old(dir.uf.dev.failures) < dir.uf.dev.failures
    ensures r.Ok? ==> r.value == Taken(Listing(Records(dir.uf.bpb, dir.uf.view, place)), name, ext)
  {
    hide Ufat.CoherentBut, FatOf, IsChain, Mine, Kept, DirBlock, Located, PlaceOk, Volume, Ufat.Valid, Bpb.Fits, Sized,
      Records, PerBlock, BlockCount, Count, At, AllClean, ScanTo, Listing, Taken, SameShort, ShortOf, ExtOf, EntryIs,
      StillTaken;
    ghost var g, v := dir.uf.bpb, dir.uf.view;
    StartOf(g, v, place);
    ghost var recs := Records(g, v, place);
    TakenFromStart(recs, name, ext);
    dir.Rewind(place);
    ghost var k: nat := 0;
    while true
      invariant Usable(dir, place, mine) && dir.Standing(place, k) && dir.uf.view == v
      invariant old(dir.uf.dev.failures) <= dir.uf.dev.failures
      invariant k <= |recs| && StillTaken(recs, k, name, ext)
      decreases |recs| - k
    {
      ghost var k0 := k;
      var e;
      ghost var x;
      e, k, x := DirRead(dir, place, k, mine);
      if e.Err? {
        return Err(e.error);
      }
      if e.value.None? {
        TakenEnd(recs, k0, name, ext);
        return Ok(false);
      }
      NamesOf(g, place, e.value.value, x.value);
      TakenStep(recs, k0, k, x.value, name, ext);
      WholeName(name);
      WholeName(ext);
      var a := CompareName(name, e.value.value.dirent.shortName, false);
      var b := CompareName(ext, e.value.value.dirent.shortExt, false);
      if a >= 0 && b >= 0 {
        SameNames(x.value.rec, name, ext);
        return Ok(true);
      }
      SameNames(x.value.rec, name, ext);
    }
  }

  lemma SameNames(r: Record, name: seq<byte>, ext: seq<byte>)
    ensures SameShort(r, name, ext) <==> Upper(name) == Upper(ShortOf(r)) && Upper(ext) == Upper(ExtOf(r))
  {
  }

  // ---- choosing a short name ----

  predicate NumberTaken(items: seq<Item>, n: nat) {
    exists i | 0 <= i < |items| :: Numbered(Upper(ShortOf(items[i].rec)), n)
  }

  /** Different numbers need different entries. */
  lemma {:induction false} Pigeons(items: seq<Item>, numbers: set<nat>)
    requires forall n | n in numbers :: NumberTaken(items, n)
    ensures |numbers| <= |items|
    decreases |items|
  {
    if items != [] {
      var k := |items| - 1;
      var last := Upper(ShortOf(items[k].rec));
      var rest := set n | n in numbers && !Numbered(last, n);
      forall n | n in rest
        ensures NumberTaken(items[..k], n)
      {
        TakenElsewhere(items, n);
      }
      Pigeons(items[..k], rest);
      hide Numbered, Upper, ShortOf, NumberTaken;
      forall m, n | m in numbers - rest && n in numbers - rest
        ensures m == n
      {
        OneNumber(last, m, n);
      }
      AtMostOneMore(numbers, rest);
    } else {
      assert numbers == {};
    }
  }

  lemma TakenElsewhere(items: seq<Item>, n: nat)
    requires items != [] && NumberTaken(items, n) && !Numbered(Upper(ShortOf(items[|items| - 1].rec)), n)
    ensures NumberTaken(items[..|items| - 1], n)
  {
    hide Numbered, Upper, ShortOf;
    var i :| 0 <= i < |items| && Numbered(Upper(ShortOf(items[i].rec)), n);
    assert items[..|items| - 1][i] == items[i];
  }

  lemma AtMostOneMore(all: set<nat>, rest: set<nat>)
    requires rest <= all && forall m, n | m in all - rest && n in all - rest :: m == n
    ensures |all| <= |rest| + 1
  {
    var more := all - rest;
    assert all == rest + more;
    if more != {} {
      var m :| m in more;
      assert forall n | n in more :: n == m;
      assert more == {m};
    }
  }

  lemma {:induction false} UpTo(n: nat) returns (s: set<nat>)
    ensures |s| == n && forall k :: k in s <==> 1 <= k <= n
  {
    s := {};
    if n > 0 {
      s := UpTo(n - 1);
      s := s + {n};
    }
  }

  /** Where the search for a free name is: at the first name, counting on from the number that the name came with, past
      the largest number, or counting on from 1, with all smaller numbers taken. */
  datatype Phase = FirstName | Counting | NumberEnded | FromOne

  const NUMBERS: nat := 10_000_000

  ghost predicate Numbering(items: seq<Item>, ph: Phase, num: nat, name: seq<byte>) {
    && DosName(name) && num < NUMBERS
    && match ph
       case FirstName => num == 0
       case Counting => Numbered(name, num)
       case NumberEnded => num == 0 && NoTilde(name, 0)
       case FromOne => Numbered(name, num) && 1 <= num && forall n | 1 <= n < num :: NumberTaken(items, n)
  }

  function Remaining(ph: Phase): nat {
    match ph case FirstName => 3 case Counting => 2 case NumberEnded => 1 case FromOne => 0
  }

  /** The search comes closer to its end with every name that is taken. */
  lemma NextCandidate(items: seq<Item>, ph: Phase, num: nat, name: seq<byte>, ext: seq<byte>, name': seq<byte>, t: nat,
                      n: nat)
    returns (ph': Phase, num': nat)
    requires Numbering(items, ph, num, name) && Taken(items, name, ext) && |items| < NUMBERS - 1
    requires SuffixAt(name, t) && n == (Atoi(name[t..]) + 1) % 0x1_0000_0000 && name' == WithNumber(name, t, n)
    ensures Numbering(items, ph', num', name')
    ensures Remaining(ph') < Remaining(ph) || (ph' == ph && num < num')
  {
    hide WithNumber, Numbered, Taken;
    NewNumber(name, t, n);
    if ph.FirstName? {
      if n < NUMBERS {
        return Counting, n;
      }
      return NumberEnded, 0;
    } else if ph.NumberEnded? {
      NoNumber(name, t);
      return FromOne, 1;
    }
    NumberOfName(name, num, t);
    assert n == num + 1;
    if ph.Counting? {
      if n < NUMBERS {
        return Counting, n;
      }
      return NumberEnded, 0;
    }
    TakenNumber(items, name, ext, num);
    var s := UpTo(num);
    Pigeons(items, s);
    return FromOne, n;
  }

  lemma TakenNumber(items: seq<Item>, name: seq<byte>, ext: seq<byte>, num: nat)
    requires DosName(name) && Numbered(name, num) && Taken(items, name, ext)
    ensures NumberTaken(items, num)
  {
    UpperOfDos(name);
    var i :| 0 <= i < |items| && SameShort(items[i].rec, name, ext);
    assert Upper(ShortOf(items[i].rec)) == name;
  }

  /** `b` is what ufat_short_next makes of `a`. */
  ghost predicate NextShort(a: seq<byte>, b: seq<byte>) {
    |a| <= 8 && exists t: nat | SuffixAt(a, t) :: b == WithNumber(a, t, (Atoi(a[t..]) + 1) % 0x1_0000_0000)
  }

  /** `name` and `ext` are what ufat_short_first makes of a long name. */
  ghost predicate FirstShort(long: seq<byte>, name: seq<byte>, ext: seq<byte>) {
    exists e :: FirstShortAt(long, e, name, ext)
  }

  /** The names that were tried: all but the last are taken. */
  ghost predicate Tried(items: seq<Item>, long: seq<byte>, tried: seq<seq<byte>>, ext: seq<byte>) {
    && tried != [] && FirstShort(long, tried[0], ext)
    && (forall i | 0 <= i < |tried| - 1 :: NextShort(tried[i], tried[i + 1]) && Taken(items, tried[i], ext))
  }

  lemma TriedMore(items: seq<Item>, long: seq<byte>, tried: seq<seq<byte>>, ext: seq<byte>, name: seq<byte>)
    requires Tried(items, long, tried, ext) && Taken(items, tried[|tried| - 1], ext)
    requires NextShort(tried[|tried| - 1], name)
    ensures Tried(items, long, tried + [name], ext)
  {
    hide Taken, NextShort, FirstShort;
  }

  lemma {:induction false} ScanLength(recs: seq<Record>, i: nat, s: Lfn)
    requires AllClean(recs) && i <= |recs|
    ensures |ScanTo(recs, i, |recs|, s).1| <= |recs| - i
    decreases |recs| - i
  {
    if i < |recs| {
      ScanLength(recs, i + 1, Look(recs[i], i, s).0);
    }
  }

  /** The start of insert_dirent: the first short name that is not taken. Numbers up to seven digits are different
      names, so that the search ends unless all of them are taken. */
  method ChooseShort(dir: Directory, long: seq<byte>, ghost place: Place, ghost mine: set<int>)
    returns (r: Result<(seq<byte>, seq<byte>)>, ghost tried: seq<seq<byte>>)
    requires Usable(dir, place, mine) && |Listing(Records(dir.uf.bpb, dir.uf.view, place))| < NUMBERS - 1
    modifies dir`curBlock, dir`curPos, dir.uf.Objects()
    ensures Usable(dir, place, mine) && dir.uf.view == old(dir.uf.view)
    ensures old(dir.uf.dev.failures) <= dir.uf.dev.failures
    ensures r.Err? ==> r.error == IoError && old(dir.uf.dev.failures) < dir.uf.dev.failures
    ensures r.Ok? ==>
              var (name, ext) := r.value; var items := Listing(Records(dir.uf.bpb, dir.uf.view, place));
              && DosName(name) && |ext| <= 3 && DosChars(ext) && !Taken(items, name, ext)
              && Tried(items, long, tried, ext) && name == tried[|tried| - 1]
  {
    hide Ufat.CoherentBut, FatOf, IsChain, Mine, Kept, DirBlock, Located, PlaceOk, Volume, Ufat.Valid, Bpb.Fits, Sized,
      Records, PerBlock, BlockCount, Count, At, AllClean, ScanTo, Listing, Taken, Numbering, Tried, DosName, SuffixAt,
      WithNumber, Atoi, DosChars, ScanReady, Usable, NextShort, Directory.Ready;
    UsableRecords(dir, place, mine);
    ghost var items := Listing(Records(dir.uf.bpb, dir.uf.view, place));
    var name, ext, e := ShortFirst(long);
    FirstTried(items, long, e, name, ext);
    tried := [name];
    ghost var ph, num: nat := FirstName, 0;
    while true
      invariant Usable(dir, place, mine) && dir.uf.view == old(dir.uf.view)
      invariant old(dir.uf.dev.failures) <= dir.uf.dev.failures
      invariant DosName(name) && Numbering(items, ph, num, name)
      invariant Tried(items, long, tried, ext) && tried != [] && name == tried[|tried| - 1]
      decreases Remaining(ph), NUMBERS - num
    {
      var taken := ShortExists(dir, name, ext, place, mine);
      if taken.Err? {
        return Err(taken.error), tried;
      }
      if !taken.value {
        return Ok((name, ext)), tried;
      }
      ghost var was := name;
      ghost var t, n;
      name, t, n := ShortNext(name);
      ph, num := NextCandidate(items, ph, num, was, ext, name, t, n);
      NumberingName(items, ph, num, name);
      IsNext(was, name, t);
      TriedMore(items, long, tried, ext, name);
      tried := tried + [name];
    }
  }

  lemma NumberingName(items: seq<Item>, ph: Phase, num: nat, name: seq<byte>)
    requires Numbering(items, ph, num, name)
    ensures DosName(name) && num < NUMBERS
  {
  }

  lemma IsNext(a: seq<byte>, b: seq<byte>, t: nat)
    requires DosName(a) && SuffixAt(a, t) && b == WithNumber(a, t, (Atoi(a[t..]) + 1) % 0x1_0000_0000)
    ensures NextShort(a, b)
  {
  }

  lemma FirstTried(items: seq<Item>, long: seq<byte>, e: nat, name: seq<byte>, ext: seq<byte>)
    requires FirstShortAt(long, e, name, ext) && DosName(name)
    ensures Tried(items, long, [name], ext) && Numbering(items, FirstName, 0, name)
  {
  }

  lemma UsableRecords(dir: Directory, place: Place, mine: set<int>)
    requires Usable(dir, place, mine)
    ensures Located(dir.uf.bpb, dir.uf.view, place) && AllClean(Records(dir.uf.bpb, dir.uf.view, place))
  {
  }

  // ---- deleting ----

  /** The records from `p` up to `m` are marked as deleted. */
  ghost predicate Marked(recs: seq<Record>, recs': seq<Record>, p: nat, m: nat) {
    && AllClean(recs) && AllClean(recs') && |recs'| == |recs| && p <= m <= |recs|
    && forall k | 0 <= k < |recs| :: recs'[k] == if p <= k < m then [0xe5] + recs[k][1..] else recs[k]
  }

  lemma NotMarked(recs: seq<Record>, p: nat)
    requires AllClean(recs) && p <= |recs|
    ensures Marked(recs, recs, p, p)
  {
  }

  lemma MarkOne(recs: seq<Record>, recs': seq<Record>, p: nat, m: nat, m': nat, data: seq<byte>)
    requires Marked(recs, recs', p, m) && m < |recs| && m' == m + 1 && data == [0xe5]
    ensures m < |recs'| && Marked(recs, recs'[m := data + recs'[m][|data|..]], p, m')
  {
    var now := recs'[m := [0xe5] + recs'[m][1..]];
    assert now[m][0] == 0xe5;
    forall k | 0 <= k < |now|
      ensures Clean(now[k])
    {
      assert k != m ==> Clean(recs'[k]);
    }
    hide Clean;
  }

  lemma MarkedFree(recs: seq<Record>, recs': seq<Record>, p: nat, m: nat)
    requires Marked(recs, recs', p, m)
    ensures AllClean(recs') && Rewritten(recs, recs', p, m) && forall k | p <= k < m :: IsFree(recs'[k])
    ensures m == p ==> recs' == recs
  {
  }

  /** What is left of a listed entry when its records before `m` are marked. */
  function LeftOf(x: Item, m: nat): seq<Item> {
    if m <= FirstRecord(x) then [x] else if m <= x.at then [x.(from := None, name := None)] else []
  }

  /** The listing when the records of an entry before `m` are marked: the entry has lost its long name or it is gone. */
  lemma MarkedListing(recs: seq<Record>, recs': seq<Record>, x: Item, m: nat)
    requires AllClean(recs) && x in Listing(recs) && m <= x.at + 1 && Marked(recs, recs', FirstRecord(x), m)
    ensures FirstRecord(x) <= x.at < |recs| && AllClean(recs')
    ensures var before, behind := ScanTo(recs, 0, FirstRecord(x), Idle).1, ScanTo(recs, x.at + 1, |recs|, Idle).1;
            Listing(recs) == before + [x] + behind && Listing(recs') == before + LeftOf(x, m) + behind
  {
    hide AllClean, ScanTo, Listing, FirstRecord, IsFree, Rewritten, Marked;
    ListedAt(recs, x);
    MarkedFree(recs, recs', FirstRecord(x), m);
    LeftCases(x, m);
    hide LeftOf;
    if m == FirstRecord(x) {
      ListedEntry(recs, x);
    } else if m <= x.at {
      PartlyDeleted(recs, recs', x, m);
    } else {
      EntryDeleted(recs, recs', x);
      NothingBetween(ScanTo(recs, 0, FirstRecord(x), Idle).1, ScanTo(recs, x.at + 1, |recs|, Idle).1);
    }
  }

  lemma LeftCases(x: Item, m: nat)
    ensures m <= FirstRecord(x) ==> LeftOf(x, m) == [x]
    ensures FirstRecord(x) < m <= x.at ==> LeftOf(x, m) == [x.(from := None, name := None)]
    ensures FirstRecord(x) < m && x.at < m ==> LeftOf(x, m) == []
  {
  }

  lemma NothingBetween(a: seq<Item>, b: seq<Item>)
    ensures a + [] + b == a + b
  {
  }

  lemma ListedAt(recs: seq<Record>, x: Item)
    requires AllClean(recs) && x in Listing(recs)
    ensures FirstRecord(x) <= x.at < |recs|
  {
    ListedPlace(recs, x);
  }

  lemma ListedEntry(recs: seq<Record>, x: Item)
    requires AllClean(recs) && x in Listing(recs)
    ensures FirstRecord(x) <= x.at < |recs|
    ensures Listing(recs) == ScanTo(recs, 0, FirstRecord(x), Idle).1 + [x] + ScanTo(recs, x.at + 1, |recs|, Idle).1
  {
    ListedPlace(recs, x);
    hide ScanTo, Listing;
    OneEntry(recs, x, FirstRecord(x));
  }

  lemma SamePosition(g: Bpb, v: seq<Block>, place: Place, k: nat, b: Option<nat>, p: nat, j: nat, c: nat, q: nat)
    requires Located(g, v, place) && At(g, place, k, b, p) && At(g, place, j, Some(c), q) && k < Count(g, place)
    ensures b.Some? && (b.value == c && p == q <==> k == j)
  {
    hide DirBlock, Located, BlockCount, Count, PerBlock;
    if b.value == c && p == q {
      DirBlockInjective(g, v, place, k / PerBlock(g), j / PerBlock(g));
      SameParts(k, j, PerBlock(g));
    }
  }

  /** Where the first record of an entry is. */
  lemma EntryPlace(g: Bpb, place: Place, e: Entry, x: Item, recs: seq<Record>)
    requires EntryAt(g, place, e, x) && AllClean(recs) && x in Listing(recs)
    ensures At(g, place, x.at, Some(e.block), e.pos)
    ensures if e.lfn.None? then At(g, place, FirstRecord(x), Some(e.block), e.pos)
            else At(g, place, FirstRecord(x), Some(e.lfn.value.0), e.lfn.value.1)
    ensures FirstRecord(x) <= x.at < |recs|
  {
    ListedPlace(recs, x);
  }

  /** The volume and the directory, without a handle. */
  ghost predicate Open(uf: Ufat, place: Place, mine: set<int>)
    reads uf, uf.Objects()
  {
    && uf.Valid() && ScanReady(uf) && PlaceOk(uf.bpb, uf.view, place) && Mine(uf.bpb, uf.view, place) <= mine
    && AllClean(Records(uf.bpb, uf.view, place))
  }

  lemma OpenFacts(uf: Ufat, place: Place, mine: set<int>)
    requires Open(uf, place, mine)
    ensures uf.Valid() && ScanReady(uf) && PlaceOk(uf.bpb, uf.view, place) && Mine(uf.bpb, uf.view, place) <= mine
    ensures Located(uf.bpb, uf.view, place) && AllClean(Records(uf.bpb, uf.view, place))
    ensures |Records(uf.bpb, uf.view, place)| == Count(uf.bpb, place)
    ensures Kept(uf.bpb, uf.view, uf.view, mine, place.Root?)
  {
  }

  /** delete_entry: the records of the entry are marked, those of its long name first. */
  method DeleteEntry(uf: Ufat, ent: Entry, ghost place: Place, ghost mine: set<int>, ghost x: Item)
    returns (r: Result<()>, ghost m: nat)
    requires Open(uf, place, mine) && Located(uf.bpb, uf.view, place)
    requires x in Listing(Records(uf.bpb, uf.view, place)) && EntryAt(uf.bpb, place, ent, x)
    modifies uf.Objects()
    ensures Open(uf, place, mine) && Located(uf.bpb, uf.view, place) && old(uf.dev.failures) <= uf.dev.failures
    ensures Kept(uf.bpb, old(uf.view), uf.view, mine, place.Root?)
    ensures m <= x.at + 1
    ensures Marked(Records(uf.bpb, old(uf.view), place), Records(uf.bpb, uf.view, place), FirstRecord(x), m)
    ensures var recs := Records(uf.bpb, old(uf.view), place);
            var before, behind := ScanTo(recs, 0, FirstRecord(x), Idle).1, ScanTo(recs, x.at + 1, |recs|, Idle).1;
            && Listing(recs) == before + [x] + behind
            && Listing(Records(uf.bpb, uf.view, place)) == before + LeftOf(x, m) + behind
    ensures r.Ok? ==> m == x.at + 1
    ensures r.Err? ==> r.error == IoError && m <= x.at && old(uf.dev.failures) < uf.dev.failures
    ensures Volume(uf.bpb, old(uf.view)) && Volume(uf.bpb, uf.view)
    ensures FatOf(uf.bpb, uf.view) == FatOf(uf.bpb, old(uf.view))
  {
    hide Ufat.CoherentBut, FatOf, IsChain, Mine, Kept, DirBlock, Located, PlaceOk, Volume, Ufat.Valid, Bpb.Fits, Sized,
      Records, PerBlock, BlockCount, Count, At, AllClean, ScanTo, Listing, EntryAt, Marked, LeftOf, FirstRecord, Open;
    ghost var g, v0 := uf.bpb, uf.view;
    OpenFacts(uf, place, mine);
    ghost var recs := Records(g, v0, place);
    EntryPlace(g, place, ent, x, recs);
    var dir := new Directory(uf, ent.block);
    if ent.lfn.None? {
      dir.curBlock, dir.curPos := Some(ent.block), ent.pos;
    } else {
      dir.curBlock, dir.curPos := Some(ent.lfn.value.0), ent.lfn.value.1;
    }
    m := FirstRecord(x);
    NotMarked(recs, m);
    while true
      invariant fresh(dir) && dir.uf == uf && dir.Ready(place, mine) && dir.Standing(place, m) && m <= x.at
      invariant old(uf.dev.failures) <= uf.dev.failures && Kept(g, v0, uf.view, mine, place.Root?)
      invariant Located(g, uf.view, place) && Marked(recs, Records(g, uf.view, place), FirstRecord(x), m)
      invariant Volume(g, uf.view) && FatOf(g, uf.view) == FatOf(g, v0)
      decreases x.at - m
    {
      ghost var v1 := uf.view;
      MarkedFacts(recs, Records(g, v1, place), FirstRecord(x), m);
      StartOf(g, v1, place);
      r := dir.WriteRaw([0xe5], place, m, mine);
      KeptTrans(g, v0, v1, uf.view, mine, place.Root?);
      StartOf(g, uf.view, place);
      if r.Err? {
        MarkedListing(recs, Records(g, uf.view, place), x, m);
        OpenAgain(uf, place, mine);
        return;
      }
      MarkOne(recs, Records(g, v1, place), FirstRecord(x), m, m + 1, [0xe5]);
      MarkedFacts(recs, Records(g, uf.view, place), FirstRecord(x), m + 1);
      SamePosition(g, uf.view, place, m, dir.curBlock, dir.curPos, x.at, ent.block, ent.pos);
      if dir.curBlock == Some(ent.block) && dir.curPos == ent.pos {
        m := m + 1;
        MarkedListing(recs, Records(g, uf.view, place), x, m);
        OpenAgain(uf, place, mine);
        return Ok(()), m;
      }
      ghost var place';
      r, place' := dir.AdvanceRaw(false, place, m, mine);
      if r.Err? {
        m := m + 1;
        MarkedListing(recs, Records(g, uf.view, place), x, m);
        OpenAgain(uf, place, mine);
        return;
      }
      m := m + 1;
    }
  }

  lemma OpenAgain(uf: Ufat, place: Place, mine: set<int>)
    requires uf.Valid() && ScanReady(uf) && PlaceOk(uf.bpb, uf.view, place) && Mine(uf.bpb, uf.view, place) <= mine
    requires Located(uf.bpb, uf.view, place) && AllClean(Records(uf.bpb, uf.view, place))
    ensures Open(uf, place, mine)
  {
  }

  lemma MarkedFacts(recs: seq<Record>, recs': seq<Record>, p: nat, m: nat)
    requires Marked(recs, recs', p, m)
    ensures AllClean(recs) && AllClean(recs') && |recs'| == |recs|
  {
  }

  // ---- inserting ----

  /** The units of a name of ASCII characters. */
  function Wide(name: seq<byte>): (r: seq<uint16>)
    ensures |r| == |name|
  {
    seq(|name|, i requires 0 <= i < |name| => name[i] as uint16)
  }

  /** ASCII names of up to 247 characters. The check for legal names lets no other characters pass where char is
      signed. */
  predicate AsciiName(name: seq<byte>) {
    1 <= |name| <= 247 && forall i | 0 <= i < |name| :: 1 <= name[i] < 0x80
  }

  lemma WideNameable(name: seq<byte>)
    requires AsciiName(name)
    ensures Nameable(Wide(name)) && 1 <= FragmentCount(Wide(name)) <= 19
    ensures |Wide(name)| <= FragmentCount(Wide(name)) * 13 <= MAX_CHARS
  {
  }

  /** ufat_utf8_to_ucs2, for ASCII */
  method AsciiToUcs2(name: seq<byte>) returns (buf: seq<uint16>, len: nat)
    requires AsciiName(name)
    ensures len == |name| && buf == ZeroPadded(Wide(name), MAX_CHARS)
  {
    buf := seq(MAX_CHARS, _ => 0);
    len := 0;
    while len < |name| && len < MAX_CHARS
      invariant len <= |name| && |buf| == MAX_CHARS
      invariant forall k | 0 <= k < MAX_CHARS :: buf[k] == if k < len then name[k] else 0
    {
      buf := buf[len := name[len]];
      len := len + 1;
    }
  }

  /** The first `k` fragments of a name have been written into a run of free records at `p`, and the rest of it is
      free. */
  ghost predicate Inserting(recs: seq<Record>, recs': seq<Record>, p: nat, k: nat, name: seq<uint16>, sum: byte) {
    && AllClean(recs) && AllClean(recs') && Nameable(name)
    && var n := FragmentCount(name);
    && k <= n && p + n < |recs| && FreeRun(recs, p, n + 1) && Rewritten(recs, recs', p, p + n + 1)
    && Fragments(recs', p, k, name, sum) && FreeRun(recs', p + k, n + 1 - k)
  }

  lemma InsertStart(recs: seq<Record>, p: nat, count: nat, name: seq<uint16>, sum: byte)
    requires AllClean(recs) && Nameable(name) && FreeRun(recs, p, count) && count == FragmentCount(name) + 1
    ensures Inserting(recs, recs, p, 0, name, sum)
  {
  }

  lemma CleanUpdate(recs: seq<Record>, i: nat, data: Record)
    requires AllClean(recs) && i < |recs| && Clean(data)
    ensures AllClean(recs[i := data])
  {
    hide Clean;
  }

  /** One more fragment has been written. */
  lemma InsertStep(recs: seq<Record>, recs': seq<Record>, p: nat, k: nat, k': nat, i: nat, name: seq<uint16>,
                   sum: byte, data: Record)
    requires Inserting(recs, recs', p, k, name, sum) && k < FragmentCount(name) && k' == k + 1 && i == p + k
    requires HoldsPiece(data, name, FragmentCount(name) - k, sum) && Clean(data)
    ensures i < |recs'| && Inserting(recs, recs'[i := data + recs'[i][|data|..]], p, k', name, sum)
  {
    hide HoldsPiece, IsFree, Clean, AllClean, Nameable;
    assert data + recs'[i][|data|..] == data;
    CleanUpdate(recs', i, data);
    var now := recs'[i := data];
    forall q | p <= q < p + k'
      ensures HoldsPiece(now[q], name, FragmentCount(name) - (q - p), sum)
    {
      assert q != i ==> now[q] == recs'[q];
    }
    forall x | p + k' <= x < p + FragmentCount(name) + 1
      ensures IsFree(now[x])
    {
      assert now[x] == recs'[x];
    }
  }

  /** While the entry itself is missing, the listing is the old one. */
  lemma InsertPending(recs: seq<Record>, recs': seq<Record>, p: nat, k: nat, name: seq<uint16>, sum: byte)
    requires Inserting(recs, recs', p, k, name, sum)
    ensures AllClean(recs) && AllClean(recs') && Listing(recs') == Listing(recs)
  {
    hide IsFree, Fragments, AllClean, Nameable, Listing;
    PartlyWritten(recs, recs', p, p + FragmentCount(name) + 1, k, name, sum);
  }

  /** The entry is written: the listing is the old one with it. */
  lemma InsertDone(recs: seq<Record>, recs': seq<Record>, p: nat, q: nat, name: seq<uint16>, sum: byte, data: Record)
    returns (i: nat)
    requires Inserting(recs, recs', p, FragmentCount(name), name, sum) && q == p + FragmentCount(name)
    requires IsEntry(data) && !IsLabel(data) && RecordChecksum(data) == sum
    ensures q < |recs'| && AllClean(recs) && i <= |Listing(recs)|
    ensures var now := recs'[q := data + recs'[q][|data|..]];
            && AllClean(now) && now[q] == data && i <= |Listing(recs)|
            && Listing(now) == Listing(recs)[..i] + [Item(q, Some(p), data, Some(name))] + Listing(recs)[i..]
  {
    hide IsFree, IsLabel, RecordChecksum, AllClean, Nameable, HoldsPiece, ScanTo, Listing;
    assert data + recs'[q][|data|..] == data;
    EntryClean(data);
    hide Clean, IsEntry;
    CleanUpdate(recs', q, data);
    var now := recs'[q := data];
    assert Fragments(now, p, FragmentCount(name), name, sum) by {
      forall x | p <= x < q
        ensures HoldsPiece(now[x], name, FragmentCount(name) - (x - p), sum)
      {
        assert now[x] == recs'[x];
      }
    }
    hide Fragments;
    EntryWritten(recs, now, p, name);
    i := |ScanTo(recs, 0, p, Idle).1|;
  }

  lemma EntryClean(r: Record)
    requires IsEntry(r)
    ensures Clean(r)
  {
  }

  /** The loop of insert_dirent. */
  method WriteFragments(dir: Directory, buf: seq<uint16>, n: nat, sum: byte, ghost name: seq<uint16>,
                        ghost place: Place,
                        ghost mine: set<int>, ghost recs: seq<Record>, ghost p: nat)
    returns (r: Result<()>, ghost k: nat)
    requires dir.Ready(place, mine) && dir.Standing(place, p) && Located(dir.uf.bpb, dir.uf.view, place)
    requires Nameable(name) && n == FragmentCount(name) && buf == ZeroPadded(name, MAX_CHARS)
    requires Inserting(recs, Records(dir.uf.bpb, dir.uf.view, place), p, 0, name, sum)
    modifies dir`curBlock, dir`curPos, dir.uf.Objects()
    ensures dir.Ready(place, mine) && old(dir.uf.dev.failures) <= dir.uf.dev.failures
    ensures Kept(dir.uf.bpb, old(dir.uf.view), dir.uf.view, mine, place.Root?)
    ensures Located(dir.uf.bpb, dir.uf.view, place)
    ensures k <= n && Inserting(recs, Records(dir.uf.bpb, dir.uf.view, place), p, k, name, sum)
    ensures r.Ok? ==> k == n && dir.Standing(place, p + n)
    ensures r.Err? ==> r.error == IoError && old(dir.uf.dev.failures) < dir.uf.dev.failures
  {
    hide Ufat.CoherentBut, FatOf, IsChain, Mine, Kept, DirBlock, Located, PlaceOk, Volume, Ufat.Valid, Bpb.Fits, Sized,
      Records, PerBlock, BlockCount, Count, At, AllClean, Inserting, Nameable, ZeroPadded, HoldsFragment, HoldsPiece,
      IsFragment, Clean, FragmentCount;
    ghost var g, v0 := dir.uf.bpb, dir.uf.view;
    ReadyKept(g, v0, place, mine);
    k := 0;
    var i := 0;
    while i < n
      invariant i <= n && k == i && dir.Ready(place, mine) && dir.Standing(place, p + k)
      invariant old(dir.uf.dev.failures) <= dir.uf.dev.failures && Kept(g, v0, dir.uf.view, mine, place.Root?)
      invariant Located(g, dir.uf.view, place) && Inserting(recs, Records(g, dir.uf.view, place), p, k, name, sum)
    {
      ghost var v1 := dir.uf.view;
      Piece(buf, name, n, n - i);
      InsideRun(recs, Records(g, v1, place), p, k, name, sum);
      StartOf(g, v1, place);
      var data := LfnPackFragment(buf[(n - i - 1) * 13..(n - i) * 13], n - i, i == 0, sum);
      r := dir.WriteRaw(data, place, p + k, mine);
      KeptTrans(g, v0, v1, dir.uf.view, mine, place.Root?);
      StartOf(g, dir.uf.view, place);
      if r.Err? {
        return;
      }
      PieceHeld(data, buf, name, n, n - i, i == 0, sum);
      InsertStep(recs, Records(g, v1, place), p, k, k + 1, p + k, name, sum, data);
      ghost var place';
      r, place' := dir.AdvanceRaw(false, place, p + k, mine);
      k := k + 1;
      if r.Err? {
        return;
      }
      i := i + 1;
    }
    r := Ok(());
  }

  lemma InsideRun(recs: seq<Record>, recs': seq<Record>, p: nat, k: nat, name: seq<uint16>, sum: byte)
    requires Inserting(recs, recs', p, k, name, sum)
    ensures p + FragmentCount(name) < |recs'|
  {
  }

  lemma ReadyKept(g: Bpb, v: seq<Block>, place: Place, mine: set<int>)
    requires PlaceOk(g, v, place)
    ensures Kept(g, v, v, mine, place.Root?)
  {
  }

  lemma Piece(buf: seq<uint16>, name: seq<uint16>, n: nat, m: nat)
    requires Nameable(name) && n == FragmentCount(name) && buf == ZeroPadded(name, MAX_CHARS) && 1 <= m <= n
    ensures 0 <= (m - 1) * 13 <= m * 13 <= |buf| && m < 64 && |buf[(m - 1) * 13..m * 13]| == 13
  {
  }

  lemma PieceHeld(data: Record, buf: seq<uint16>, name: seq<uint16>, n: nat, m: nat, first: bool, sum: byte)
    requires Nameable(name) && n == FragmentCount(name) && buf == ZeroPadded(name, MAX_CHARS) && 1 <= m <= n
    requires (first <==> m == n)
    requires HoldsFragment(data, buf[(m - 1) * 13..m * 13], m, first, sum)
    ensures HoldsPiece(data, name, m, sum)
  {
    assert n * 13 <= MAX_CHARS;
    assert ZeroPadded(name, n * 13) == buf[..n * 13];
    assert buf[..n * 13][(m - 1) * 13..m * 13] == buf[(m - 1) * 13..m * 13];
  }

  /** What a record keeps of an entry: only FAT32 has room for the high half of the first cluster. */
  function Stored(t: FatType, e: Dirent): Dirent {
    if t == Fat32 then e else e.(firstCluster := e.firstCluster % 0x1_0000)
  }

  lemma ShortFits(e: Dirent)
    requires DosName(e.shortName) && |e.shortExt| <= 3 && DosChars(e.shortExt)
    ensures Storable(e) && |e.shortName| <= 8
  {
  }

  /** The packed record is a listed entry, and its checksum is that of the short name. */
  lemma PackedEntry(t: FatType, e: Dirent, data: Record)
    requires DosName(e.shortName) && |e.shortExt| <= 3 && e.attributes / 8 % 2 == 0 && DirentOf(t, data) == Stored(t, e)
    requires data[0x0b] == e.attributes && data[0] == e.shortName[0]
    ensures IsEntry(data) && !IsLabel(data) && RecordChecksum(data) == NameChecksum(e.shortName, e.shortExt)
    ensures ShortOf(data) == e.shortName && ExtOf(data) == e.shortExt
  {
    assert DirentOf(t, data).shortName == Printable(data[..8]) && DirentOf(t, data).shortExt == Printable(data[8..11]);
  }

  /** The records after ufat_allocate_raw_dirent. */
  lemma GrownListing(g: Bpb, v0: seq<Block>, place0: Place, v: seq<Block>, place: Place, extra: nat)
    requires GrownBy(g, v0, place0, v, place, extra) && AllClean(Records(g, v0, place0))
    ensures Located(g, v0, place0) && Located(g, v, place) && AllClean(Records(g, v, place)) && Extends(place0, place)
    ensures Listing(Records(g, v, place)) == Listing(Records(g, v0, place0))
    ensures |Records(g, v, place)| == Count(g, place) && (place.Root? <==> place0.Root?)
  {
    hide Located, Listing;
    var a, b := Records(g, v0, place0), ZeroRecords(extra);
    hide Records;
    assert forall k | 0 <= k < |b| :: b[k] == ZeroRecord() && Clean(b[k]);
    MoreFree(a, b);
  }

  lemma FragmentsOf(name: seq<byte>, len: nat)
    requires len == |name|
    ensures FragmentCount(Wide(name)) == (len + 12) / 13
  {
  }

  lemma NotEmpty(name: seq<byte>)
    requires DosName(name)
    ensures name != []
  {
  }

  lemma StoredIs(t: FatType, e: Dirent)
    ensures Stored(t, e) == if t == Fat32 then e else e.(firstCluster := e.firstCluster % 0x1_0000)
  {
  }

  lemma RunHere(recs: seq<Record>, p: nat, n: nat, g: Bpb, place: Place, b: Option<nat>, pos: nat)
    requires FreeRun(recs, p, n) && 1 <= n && |recs| == Count(g, place) && At(g, place, p, b, pos)
    ensures b.Some? && p < Count(g, place)
  {
  }

  lemma LastOfRun(recs: seq<Record>, p: nat, n: nat, count: nat)
    requires FreeRun(recs, p, count) && count == n + 1
    ensures FreeRun(recs, p + n, 1)
  {
  }

  lemma UnitsOf(name: seq<byte>, buf: seq<uint16>, len: nat)
    requires AsciiName(name) && len == |name| && buf == ZeroPadded(Wide(name), MAX_CHARS)
    ensures len <= |buf| && buf[..len] == Wide(name)
  {
  }

  lemma StartSame(g: Bpb, v: seq<Block>, place: Place, place': Place)
    requires Located(g, v, place') && Extends(place, place') && 0 < BlockCount(g, place)
    ensures 0 < g.blocksPerCluster && DirBlock(g, place', 0) == DirBlock(g, place, 0)
  {
    LocatedPrefix(g, v, place, place');
    StartExtended(g, v, place, place');
  }

  /** The listing is the old one with an entry more. */
  ghost predicate Added(items: seq<Item>, items': seq<Item>, x: Item) {
    exists i: nat | i <= |items| :: items' == items[..i] + [x] + items[i..]
  }

  /** What the last part of insert_dirent has done to the listing `was`. */
  ghost predicate Inserted(g: Bpb, place: Place, was: seq<Item>, now: seq<Item>, e: Dirent, wide: seq<uint16>,
                           r: Entry, x: Item) {
    && Added(was, now, x) && x.name == Some(wide) && r.dirent == e
    && DirentOf(g.fatType, x.rec) == Stored(g.fatType, e) && ShortOf(x.rec) == e.shortName && ExtOf(x.rec) == e.shortExt
    && EntryAt(g, place, r, x)
  }

  lemma InsertedIs(g: Bpb, place: Place, was: seq<Item>, now: seq<Item>, e: Dirent, wide: seq<uint16>, r: Entry,
                   x: Item, i: nat,
                   b: nat, p: nat)
    requires i <= |was| && now == was[..i] + [x] + was[i..] && x.name == Some(wide) && r.dirent == e
    requires DirentOf(g.fatType, x.rec) == Stored(g.fatType, e) && ShortOf(x.rec) == e.shortName
    requires ExtOf(x.rec) == e.shortExt
    requires x.from.Some? && r.lfn == Some((b, p))
    requires At(g, place, x.at, Some(r.block), r.pos) && At(g, place, x.from.value, Some(b), p)
    ensures Inserted(g, place, was, now, e, wide, r, x)
  {
  }

  /** The last part of insert_dirent: the fragments and the entry are written into a run of free records. */
  method WriteEntry(dir: Directory, e: Dirent, ucs2: seq<uint16>, len: nat, n: nat, sum: byte, ghost wide: seq<uint16>,
                    ghost place: Place, ghost mine: set<int>, ghost p: nat)
    returns (r: Result<Entry>, ghost x: Option<Item>)
    requires dir.Ready(place, mine) && dir.Standing(place, p) && Located(dir.uf.bpb, dir.uf.view, place)
    requires AllClean(Records(dir.uf.bpb, dir.uf.view, place))
    requires FreeRun(Records(dir.uf.bpb, dir.uf.view, place), p, n + 1)
    requires Nameable(wide) && n == FragmentCount(wide) && ucs2 == ZeroPadded(wide, MAX_CHARS) && len <= |ucs2|
    requires ucs2[..len] == wide
    requires DosName(e.shortName) && |e.shortExt| <= 3 && DosChars(e.shortExt) && e.attributes / 8 % 2 == 0
    requires sum == NameChecksum(e.shortName, e.shortExt)
    modifies dir`curBlock, dir`curPos, dir.uf.Objects()
    ensures dir.Ready(place, mine) && old(dir.uf.dev.failures) <= dir.uf.dev.failures
    ensures Kept(dir.uf.bpb, old(dir.uf.view), dir.uf.view, mine, place.Root?)
    ensures Located(dir.uf.bpb, dir.uf.view, place)
    ensures AllClean(Records(dir.uf.bpb, dir.uf.view, place))
    ensures var g := dir.uf.bpb;
            var was, now := Listing(Records(g, old(dir.uf.view), place)), Listing(Records(g, dir.uf.view, place));
            if r.Ok? then x.Some? && Inserted(g, place, was, now, e, wide, r.value, x.value)
                && r.value.name == Some(wide)
            else now == was && r.error == IoError && old(dir.uf.dev.failures) < dir.uf.dev.failures
  {
    hide Ufat.CoherentBut, FatOf, IsChain, Mine, Kept, DirBlock, Located, PlaceOk, Volume, Ufat.Valid, Bpb.Fits, Sized,
      Records, PerBlock, BlockCount, Count, At, AllClean, Inserting, Nameable, ZeroPadded, FragmentCount, Listing,
      DosName, DosChars, FreeRun, NameChecksum, RecordChecksum, IsEntry, IsLabel, DirentOf, Stored, ShortOf, ExtOf,
      Storable, Inserted;
    ghost var g, v1 := dir.uf.bpb, dir.uf.view;
    x := None;
    StartOf(g, v1, place);
    ghost var recs := Records(g, v1, place);
    InsertStart(recs, p, n + 1, wide, sum);
    RunHere(recs, p, n + 1, g, place, dir.curBlock, dir.curPos);
    var lfnBlock, lfnPos := dir.curBlock.value, dir.curPos;
    ghost var k;
    var a;
    a, k := WriteFragments(dir, ucs2, n, sum, wide, place, mine, recs, p);
    ghost var v2 := dir.uf.view;
    InsertPending(recs, Records(g, v2, place), p, k, wide, sum);
    if a.Err? {
      return Err(a.error), None;
    }
    ShortFits(e);
    var data := PackDirent(dir.uf.bpb.fatType, e);
    NotEmpty(e.shortName);
    StoredIs(g.fatType, e);
    PackedEntry(g.fatType, e, data);
    LastOfRun(recs, p, n, n + 1);
    RunHere(recs, p + n, 1, g, place, dir.curBlock, dir.curPos);
    var block, pos := dir.curBlock.value, dir.curPos;
    a := dir.WriteRaw(data, place, p + n, mine);
    KeptTrans(g, v1, v2, dir.uf.view, mine, place.Root?);
    StartOf(g, dir.uf.view, place);
    if a.Err? {
      return Err(a.error), None;
    }
    ghost var i := InsertDone(recs, Records(g, v2, place), p, p + n, wide, sum, data);
    x := Some(Item(p + n, Some(p), data, Some(wide)));
    r := Ok(Entry(e, block, pos, Some((lfnBlock, lfnPos)), Some(ucs2[..len])));
    InsertedIs(g, place, Listing(recs), Listing(Records(g, dir.uf.view, place)), e, wide, r.value, x.value, i,
      lfnBlock, lfnPos);
  }

  /** insert_dirent, for a name that the directory does not have: the entry is listed with its long name and the first
      short name that no other entry has, or the listing is the old one. */
  method InsertDirent(dir: Directory, ent: Dirent, name: seq<byte>, ghost place0: Place, ghost mine: set<int>)
    returns (r: Result<Entry>, ghost place: Place, ghost x: Option<Item>, ghost tried: seq<seq<byte>>)
    requires Usable(dir, place0, mine) && AsciiName(name) && ent.attributes / 8 % 2 == 0
    requires |Listing(Records(dir.uf.bpb, dir.uf.view, place0))| < NUMBERS - 1
    modifies dir`curBlock, dir`curPos, dir.uf.Objects()
    ensures dir.uf.Valid() && ScanReady(dir.uf) && old(dir.uf.dev.failures) <= dir.uf.dev.failures
    ensures Kept(dir.uf.bpb, old(dir.uf.view), dir.uf.view, mine, place0.Root?)
    ensures Located(dir.uf.bpb, old(dir.uf.view), place0) && Located(dir.uf.bpb, dir.uf.view, place)
    ensures Extends(place0, place)
    ensures AllClean(Records(dir.uf.bpb, old(dir.uf.view), place0)) && AllClean(Records(dir.uf.bpb, dir.uf.view, place))
    ensures var g := dir.uf.bpb;
            var was, now := Listing(Records(g, old(dir.uf.view), place0)), Listing(Records(g, dir.uf.view, place));
            if r.Err? then now == was
            else
              var e := r.value.dirent;
              && Usable(dir, place, mine) && x.Some? && Inserted(g, place, was, now, e, Wide(name), r.value, x.value)
              && e == ent.(shortName := e.shortName, shortExt := e.shortExt) && r.value.name == Some(Wide(name))
              && DosName(e.shortName) && !Taken(was, e.shortName, e.shortExt)
              && Tried(was, name, tried, e.shortExt) && e.shortName == tried[|tried| - 1]
    ensures r == Err(DirectoryFull) ==>
              && place0.Root? && dir.uf.view == old(dir.uf.view)
              && RunMissing(dir.uf.bpb, dir.uf.view, place0, FragmentCount(Wide(name)) + 1)
    ensures r.Err? ==> r.error in {DirectoryFull, NoClusters, IoError}
    ensures r == Err(NoClusters) && dir.uf.dev.failures == old(dir.uf.dev.failures) ==>
              OutOfRoom(dir.uf.bpb, dir.uf.view, place, FragmentCount(Wide(name)) + 1)
    ensures r == Err(IoError) ==> old(dir.uf.dev.failures) < dir.uf.dev.failures
  {
    hide Ufat.CoherentBut, FatOf, IsChain, Mine, Kept, DirBlock, Located, PlaceOk, Volume, Ufat.Valid, Bpb.Fits, Sized,
      Records, PerBlock, BlockCount, Count, At, AllClean, Nameable, ZeroPadded, FragmentCount, Wide, Listing, Taken,
      Tried, DosName, DosChars, FreeRun, NoRun, GrownBy, NameChecksum, AsciiName, Extends, Storable, Inserted,
      RunMissing, OutOfRoom;
    ghost var g, v0 := dir.uf.bpb, dir.uf.view;
    place, x := place0, None;
    UsableRecords(dir, place0, mine);
    ReadyKept(g, v0, place0, mine);
    NotGrown(g, v0, place0);
    GrownListing(g, v0, place0, v0, place0, 0);
    WideNameable(name);
    var ucs2, len := AsciiToUcs2(name);
    UnitsOf(name, ucs2, len);
    var n := (len + 12) / 13;
    FragmentsOf(name, len);
    var short;
    short, tried := ChooseShort(dir, name, place0, mine);
    if short.Err? {
      return Err(short.error), place0, None, tried;
    }
    var e := ent.(shortName := short.value.0, shortExt := short.value.1);
    ShortFits(e);
    var sum := ShortChecksum(e.shortName, e.shortExt);
    StartOf(g, v0, place0);
    var a;
    ghost var p, extra;
    a, place, p, extra := AllocateRaw(dir, n + 1, place0, mine);
    GrownListing(g, v0, place0, dir.uf.view, place, extra);
    if a.Err? {
      return Err(a.error), place, None, tried;
    }
    ghost var v1 := dir.uf.view;
    r, x := WriteEntry(dir, e, ucs2, len, n, sum, Wide(name), place, mine, p);
    KeptTrans(g, v0, v1, dir.uf.view, mine, place0.Root?);
    if r.Ok? {
      IsInserted(g, place, Listing(Records(g, v1, place)), Listing(Records(g, dir.uf.view, place)), e, Wide(name),
        r.value, x.value);
      StartSame(g, dir.uf.view, place0, place);
    }
  }

  lemma IsInserted(g: Bpb, place: Place, was: seq<Item>, now: seq<Item>, e: Dirent, wide: seq<uint16>, r: Entry,
                   x: Item)
    requires Inserted(g, place, was, now, e, wide, r, x)
    ensures r.dirent == e
  {
  }

  // ---- inserting and deleting ----

  /** In a listing, `x` is replaced by `left`. */
  ghost predicate Replaced(items: seq<Item>, items': seq<Item>, x: Item, left: seq<Item>) {
    exists i: nat | i < |items| :: ReplacedAt(items, items', x, left, i)
  }

  ghost predicate ReplacedAt(items: seq<Item>, items': seq<Item>, x: Item, left: seq<Item>, i: nat) {
    i < |items| && items[i] == x && items' == items[..i] + left + items[i + 1..]
  }

  lemma ReplacedBetween(before: seq<Item>, x: Item, left: seq<Item>, behind: seq<Item>)
    ensures Replaced(before + [x] + behind, before + left + behind, x, left)
  {
    assert ReplacedAt(before + [x] + behind, before + left + behind, x, left, |before|);
  }

  /** The entries are listed in the order of their records. */
  ghost predicate Ordered(items: seq<Item>) {
    forall i, j | 0 <= i < j < |items| :: items[i].at < items[j].at
  }

  lemma {:induction false} ScanOrdered(recs: seq<Record>, i: nat, s: Lfn)
    requires AllClean(recs) && i <= |recs|
    ensures Ordered(ScanTo(recs, i, |recs|, s).1)
    ensures forall k | 0 <= k < |ScanTo(recs, i, |recs|, s).1| :: i <= ScanTo(recs, i, |recs|, s).1[k].at
    decreases |recs| - i
  {
    if i < |recs| {
      ScanOrdered(recs, i + 1, Look(recs[i], i, s).0);
    }
  }

  /** What has been added to a listing and then taken away again leaves it as it was. */
  lemma AddedRemoved(items: seq<Item>, now: seq<Item>, after: seq<Item>, x: Item)
    requires Added(items, now, x) && Ordered(now) && Replaced(now, after, x, [])
    ensures after == items
  {
    hide Ordered;
    var i: nat :| i <= |items| && now == items[..i] + [x] + items[i..];
    var j: nat :| j < |now| && ReplacedAt(now, after, x, [], j);
    SameBack(items, now, after, x, i, j);
  }

  lemma SameBack(items: seq<Item>, now: seq<Item>, after: seq<Item>, x: Item, i: nat, j: nat)
    requires i <= |items| && now == items[..i] + [x] + items[i..] && ReplacedAt(now, after, x, [], j) && Ordered(now)
    ensures after == items
  {
    hide Ordered;
    OnePlace(now, i, j);
    BackAgain(items[..i], items[i..], x);
    assert items[..i] + items[i..] == items;
  }

  lemma OnePlace(items: seq<Item>, i: nat, j: nat)
    requires Ordered(items) && i < |items| && j < |items| && items[i] == items[j]
    ensures i == j
  {
  }

  lemma BackAgain(a: seq<Item>, b: seq<Item>, x: Item)
    ensures (a + [x] + b)[..|a|] + [] + (a + [x] + b)[|a| + 1..] == a + b
  {
  }

  /** Deleting an entry that has been inserted gives back the listing, whatever else is in the directory. */
  lemma InsertThenDelete(was: seq<Item>, recs: seq<Record>, recs': seq<Record>, x: Item)
    requires AllClean(recs) && x in Listing(recs) && Added(was, Listing(recs), x)
    requires Marked(recs, recs', FirstRecord(x), x.at + 1)
    ensures AllClean(recs') && Listing(recs') == was
  {
    hide AllClean, ScanTo, Marked, Added, Replaced;
    ScanOrdered(recs, 0, Idle);
    MarkedListing(recs, recs', x, x.at + 1);
    var before, behind := ScanTo(recs, 0, FirstRecord(x), Idle).1, ScanTo(recs, x.at + 1, |recs|, Idle).1;
    ReplacedBetween(before, x, LeftOf(x, x.at + 1), behind);
    ListedAt(recs, x);
    AddedRemoved(was, Listing(recs), Listing(recs'), x);
  }
}
