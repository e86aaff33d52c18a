/** Allocation and release of cluster chains (mysh/fs/ufat.c:624-691), specified on the table `FatOf`. */
module UfatChain {
  import opened UfatCache
  import opened UfatFat

  /** The entries that are not free. */
  ghost function Used(fat: seq<Cluster>): set<int> {
    set i | 0 <= i < |fat| && fat[i] != FREE
  }

  /** The clusters an allocation may hand out. Cluster 0xff0 of a FAT12 volume is never one. */
  ghost function Allocatable(t: FatType, fat: seq<Cluster>): set<int> {
    set i | 2 <= i < |fat| && fat[i] == FREE && !(t == Fat12 && i == 0xff0)
  }

  /** A volume without a cluster that can be allocated. */
  ghost predicate FullVolume(g: Bpb, v: seq<Block>) {
    Volume(g, v) && Allocatable(g.fatType, FatOf(g, v)) == {}
  }

  /** The entries visited when a chain is released from `c`, on any table, even one with cycles. */
  ghost function Visited(fat: seq<Cluster>, c: Cluster): set<int>
    decreases Used(fat)
  {
    if !IsPtr(c) || |fat| <= c then {}
    else if fat[c] == FREE then {c}
    else
      assert Used(fat[c := FREE]) < Used(fat) by { assert c in Used(fat) && c !in Used(fat[c := FREE]); }
      {c as int} + Visited(fat[c := FREE], fat[c])
  }

  /** Where the release from `c` stops: a value that is no pointer, or a cluster that does not exist. */
  ghost function Stop(fat: seq<Cluster>, c: Cluster): Cluster
    decreases Used(fat)
  {
    if !IsPtr(c) || |fat| <= c then c
    else if fat[c] == FREE then FREE
    else
      assert Used(fat[c := FREE]) < Used(fat) by { assert c in Used(fat) && c !in Used(fat[c := FREE]); }
      Stop(fat[c := FREE], fat[c])
  }

  /** `now` is `was` with the entries in `gone` free. */
  ghost predicate Released(was: seq<Cluster>, now: seq<Cluster>, gone: set<int>) {
    |now| == |was| && forall j | 0 <= j < |was| :: now[j] == if j in gone then FREE else was[j]
  }

  /** The clusters of `chain` are distinct, each entry points to the next and the last entry ends the chain. */
  ghost predicate IsChain(fat: seq<Cluster>, chain: seq<Cluster>) {
    && (forall i | 0 <= i < |chain| :: IsPtr(chain[i]) && chain[i] < |fat|)
    && (forall i, j | 0 <= i < j < |chain| :: chain[i] != chain[j])
    && (forall i | 0 <= i < |chain| - 1 :: fat[chain[i]] == chain[i + 1])
    && (chain != [] ==> !IsPtr(fat[chain[|chain| - 1]]) && fat[chain[|chain| - 1]] != FREE)
  }

  /** Releasing a well-formed chain visits its clusters, no more and no fewer, and stops regularly. */
  lemma {:induction false} ReleaseVisitsChain(fat: seq<Cluster>, chain: seq<Cluster>)
    requires IsChain(fat, chain) && chain != []
    ensures forall j :: j in Visited(fat, chain[0]) <==> j in chain
    ensures !IsPtr(Stop(fat, chain[0]))
    decreases |chain|
  {
    var c := chain[0];
    var rest := chain[1..];
    assert chain == [c] + rest;
    assert fat[c] != FREE by {
      assert |chain| > 1 ==> fat[chain[0]] == chain[0 + 1];
    }
    var fat' := fat[c := FREE];
    if rest != [] {
      assert rest[0] == fat[c];
      assert IsChain(fat', rest);
      ReleaseVisitsChain(fat', rest);
    }
  }

  /** ufat_free_chain. It terminates on every table: each round either stops or turns a used entry into a free one. */
  method FreeChain(uf: Ufat, start: Cluster) returns (r: Result<()>)
    requires uf.Valid() && Volume(uf.bpb, uf.view)
    modifies uf.Objects()
    ensures uf.Valid() && Volume(uf.bpb, uf.view) && uf.allocPtr == old(uf.allocPtr)
    ensures old(uf.dev.failures) <= uf.dev.failures
    ensures SameOutsideFat(uf.bpb, old(uf.view), uf.view)
    ensures var fat := FatOf(uf.bpb, old(uf.view));
            && (r.Ok? ==> !IsPtr(Stop(fat, start)))
            && (r == Err(InvalidCluster) ==> IsPtr(Stop(fat, start)))
            && (r.Ok? || r.error == InvalidCluster ==> Released(fat, FatOf(uf.bpb, uf.view), Visited(fat, start)))
            && (forall j | 0 <= j < |fat| && j !in Visited(fat, start) :: FatOf(uf.bpb, uf.view)[j] == fat[j])
    ensures r.Err? && r.error != InvalidCluster ==> r.error == IoError && old(uf.dev.failures) < uf.dev.failures
  {
    hide Ufat.CoherentBut, FatOf, Volume;
    ghost var g, fat := uf.bpb, FatOf(uf.bpb, uf.view);
    ghost var done: set<int> := {};
    var c := start;
    while IsPtr(c)
      invariant uf.Valid() && Volume(g, uf.view) && uf.allocPtr == old(uf.allocPtr)
      invariant old(uf.dev.failures) <= uf.dev.failures
      invariant SameOutsideFat(g, old(uf.view), uf.view)
      invariant Released(fat, FatOf(g, uf.view), done)
      invariant Visited(fat, start) == done + Visited(FatOf(g, uf.view), c)
      invariant Stop(fat, start) == Stop(FatOf(g, uf.view), c)
      decreases Used(FatOf(g, uf.view)), IsPtr(c)
    {
      ghost var now := FatOf(g, uf.view);
      var next := ReadFat(uf, c);
      if next.Err? {
        return Err(next.error);
      }
      r := WriteFat(uf, c, FREE);
      if r.Err? {
        return;
      }
      assert FatOf(g, uf.view) == now[c := FREE];
      if now[c] != FREE {
        assert c in Used(now) && c !in Used(now[c := FREE]);
      } else {
        assert now[c := FREE] == now;
      }
      done := done + {c as int};
      c := next.value;
    }
    return Ok(());
  }

  /** How many steps the scan from `from` takes to reach `x`, going round `total` places. */
  function Steps(from: nat, x: nat, total: nat): int {
    if x >= from then x - from else x + total - from
  }

  function NextPlace(p: nat, total: nat): (q: nat)
    requires p < total
    ensures q == if p + 1 == total then 0 else p + 1
  {
    (p + 1) % total
  }

  ghost predicate ScanReady(uf: Ufat)
    reads uf
  {
    uf.allocPtr == 0 || uf.allocPtr < uf.bpb.numClusters - 2
  }

  /** The body of the scan of alloc_cluster: takes cluster `idx` if its entry reads as free. */
  method TakeIfFree(uf: Ufat, idx: Cluster, tail: Cluster) returns (r: Result<bool>)
    requires uf.Valid() && Volume(uf.bpb, uf.view) && 2 <= idx < uf.bpb.numClusters
    requires Decode(uf.bpb.fatType, Encode(uf.bpb.fatType, tail)) == tail
    modifies uf.Objects()
    ensures uf.Valid() && Volume(uf.bpb, uf.view) && uf.allocPtr == old(uf.allocPtr)
    ensures old(uf.dev.failures) <= uf.dev.failures
    ensures SameOutsideFat(uf.bpb, old(uf.view), uf.view)
    ensures var was, now := FatOf(uf.bpb, old(uf.view)), FatOf(uf.bpb, uf.view);
            && (forall j | 0 <= j < |was| && j != idx :: now[j] == was[j])
            && (r == Ok(true) ==> was[idx] == FREE && now == was[idx := tail])
            && (r == Ok(false) ==>
                  uf.view == old(uf.view) && (uf.dev.failures == old(uf.dev.failures) ==> was[idx] != FREE))
            && (r.Err? ==> was[idx] == FREE)
    ensures r.Err? ==> r.error == IoError && old(uf.dev.failures) < uf.dev.failures
  {
    hide Ufat.CoherentBut, FatOf, Volume, Decode, Encode;
    var c := ReadFat(uf, idx);
    if c.Err? || c.value != FREE {
      return Ok(false);
    }
    var w := WriteFat(uf, idx, tail);
    return if w.Err? then Err(w.error) else Ok(true);
  }

  /** alloc_cluster: takes the first allocatable cluster from `allocPtr` on, going round once, and makes it point
      to `tail`. Without device refusals it fails only when there is none. */
  method AllocCluster(uf: Ufat, tail: Cluster) returns (r: Result<Cluster>)
    requires uf.Valid() && Volume(uf.bpb, uf.view) && ScanReady(uf)
    requires Decode(uf.bpb.fatType, Encode(uf.bpb.fatType, tail)) == tail
    modifies uf.Objects()
    ensures uf.Valid() && Volume(uf.bpb, uf.view) && ScanReady(uf)
    ensures old(uf.dev.failures) <= uf.dev.failures
    ensures SameOutsideFat(uf.bpb, old(uf.view), uf.view)
    ensures var t := uf.bpb.fatType; var was, now := FatOf(uf.bpb, old(uf.view)), FatOf(uf.bpb, uf.view);
            && (forall j | 0 <= j < |was| && j !in Allocatable(t, was) :: now[j] == was[j])
            && (r.Ok? ==> r.value as int in Allocatable(t, was) && now == was[r.value := tail])
            && (r.Ok? && uf.dev.failures == old(uf.dev.failures) ==>
                  NoneNearer(t, was, old(uf.allocPtr), Steps(old(uf.allocPtr), r.value - 2, |was| - 2)))
            && (r.Ok? ==> Raw(uf.bpb, old(uf.view), r.value) == 0)
            && (r == Err(NoClusters) ==> uf.view == old(uf.view))
            && (r == Err(NoClusters) && uf.dev.failures == old(uf.dev.failures) ==> Allocatable(t, was) == {})
    ensures r.Err? && r.error != NoClusters ==> r.error == IoError && old(uf.dev.failures) < uf.dev.failures
  {
    hide Ufat.CoherentBut, FatOf, Volume, Decode, Encode, NextPlace;
    ClustersBounded(uf.bpb, uf.view);
    ghost var g, view0, from := uf.bpb, uf.view, uf.allocPtr;
    ghost var fat := FatOf(g, view0);
    var total := uf.bpb.numClusters - 2;
    var i := 0;
    while i < total
      invariant 0 <= i <= total
      invariant uf.Valid() && Volume(g, uf.view) && uf.view == view0
      invariant old(uf.dev.failures) <= uf.dev.failures
      invariant uf.allocPtr == if from + i < total then from + i else if i == 0 then from else from + i - total
      invariant uf.dev.failures == old(uf.dev.failures) ==> NoneNearer(g.fatType, fat, from, i)
    {
      var idx := uf.allocPtr + 2;
      uf.SetAllocPtr(NextPlace(uf.allocPtr, total));
      if !(idx == 0xff0 && uf.bpb.fatType == Fat12) {
        var taken := TakeIfFree(uf, idx, tail);
        if taken.Err? {
          return Err(taken.error);
        }
        if taken.value {
          FreeBits(g, view0, idx);
          return Ok(idx);
        }
      }
      i := i + 1;
    }
    return Err(NoClusters);
  }

  /** A cluster that reads as free has no bits stored. */
  lemma FreeBits(g: Bpb, v: seq<Block>, c: Cluster)
    requires Volume(g, v) && c < g.numClusters && FatOf(g, v)[c] == FREE
    ensures Raw(g, v, c) == 0
  {
    EntryMeans(g, v, c);
    hide Raw;
  }

  lemma ClustersBounded(g: Bpb, v: seq<Block>)
    requires Volume(g, v)
    ensures 2 <= g.numClusters <= 0xfff_fff0
  {
  }

  /** No allocatable cluster lies fewer than `n` steps from the scan's start. */
  ghost predicate NoneNearer(t: FatType, fat: seq<Cluster>, from: nat, n: int) {
    forall j | j in Allocatable(t, fat) :: n <= Steps(from, j - 2, |fat| - 2)
  }

  /** `now` is `was` with the clusters of `chain`, all of them allocatable in `was`, linked into a chain. */
  ghost predicate Linked(t: FatType, was: seq<Cluster>, now: seq<Cluster>, chain: seq<Cluster>) {
    && |now| == |was|
    && IsChain(now, chain)
    && (forall c | c in chain :: c as int in Allocatable(t, was))
    && (chain != [] ==> now[chain[|chain| - 1]] == EOC)
    && (forall j | 0 <= j < |was| && j !in chain :: now[j] == was[j])
  }

  lemma ChainIsUsed(fat: seq<Cluster>, chain: seq<Cluster>)
    requires IsChain(fat, chain)
    ensures forall c | c in chain :: c < |fat| && fat[c] != FREE
  {
    forall i | 0 <= i < |chain|
      ensures fat[chain[i]] != FREE
    {
      assert i < |chain| - 1 ==> fat[chain[i]] == chain[i + 1];
    }
  }

  /** Putting one more free cluster in front of a chain. */
  lemma ChainFront(fat: seq<Cluster>, chain: seq<Cluster>, c: Cluster, fat': seq<Cluster>)
    requires IsChain(fat, chain) && IsPtr(c) && c < |fat| && c !in chain
    requires fat' == fat[c := if chain == [] then EOC else chain[0]]
    ensures IsChain(fat', [c] + chain)
  {
    var longer := [c] + chain;
    assert forall i | 0 < i < |longer| :: longer[i] == chain[i - 1] && longer[i] in chain;
    forall i | 0 <= i < |longer| - 1
      ensures fat'[longer[i]] == longer[i + 1]
    {
      if i > 0 {
        assert fat[chain[i - 1]] == chain[i - 1 + 1];
      }
    }
  }

  lemma LinkFront(t: FatType, was: seq<Cluster>, now: seq<Cluster>, chain: seq<Cluster>, c: Cluster, now': seq<Cluster>)
    requires Linked(t, was, now, chain) && c as int in Allocatable(t, now) && IsPtr(c)
    requires now' == now[c := if chain == [] then EOC else chain[0]]
    ensures Linked(t, was, now', [c] + chain)
  {
    ChainIsUsed(now, chain);
    assert c !in chain;
    ChainFront(now, chain, c, now');
    hide IsChain;
    assert now[c] == was[c];
    assert c as int in Allocatable(t, was);
  }

  lemma {:induction false} DistinctCount(chain: seq<Cluster>, s: set<int>)
    requires forall i, j | 0 <= i < j < |chain| :: chain[i] != chain[j]
    requires forall x: int | x in s :: x in chain
    ensures |s| <= |chain|
  {
    if chain == [] {
      assert forall x: int :: x !in s;
      assert s == {};
    } else {
      var c: int := chain[0];
      assert chain == [chain[0]] + chain[1..];
      DistinctCount(chain[1..], s - {c});
      assert s <= s - {c} + {c};
    }
  }

  /** When an allocation is given up, the part of the chain built so far is still a chain, and if nothing is left
      to allocate then the chain holds all that there was. */
  lemma Abandon(t: FatType, was: seq<Cluster>, now: seq<Cluster>, part: seq<Cluster>, chain: seq<Cluster>)
    requires Linked(t, was, now, chain) && |part| == |now|
    requires forall j | 0 <= j < |now| && j !in Allocatable(t, now) :: part[j] == now[j]
    ensures IsChain(part, chain)
    ensures chain != [] ==> (forall j :: j in Visited(part, chain[0]) <==> j in chain) && !IsPtr(Stop(part, chain[0]))
    ensures Allocatable(t, now) == {} ==> |Allocatable(t, was)| <= |chain|
    ensures forall j | 0 <= j < |was| && j !in Allocatable(t, was) :: part[j] == was[j]
    ensures part == now ==> forall j | 0 <= j < |was| && j !in chain :: part[j] == was[j]
    ensures forall j | j in chain :: j as int in Allocatable(t, was)
  {
    ChainIsUsed(now, chain);
    assert forall i | 0 <= i < |chain| :: chain[i] in chain;
    assert IsChain(part, chain);
    if chain != [] {
      ReleaseVisitsChain(part, chain);
    }
    assert forall x: int | x in Allocatable(t, was) && x !in chain :: x in Allocatable(t, now);
    if Allocatable(t, now) == {} {
      DistinctCount(chain, Allocatable(t, was));
    }
  }

  /** The release of an unfinished chain. The caller does not look at the result of ufat_free_chain. */
  method GiveUp(uf: Ufat, head: Cluster, ghost was: seq<Cluster>, ghost now: seq<Cluster>, ghost chain: seq<Cluster>)
    requires uf.Valid() && Volume(uf.bpb, uf.view) && head == if chain == [] then EOC else chain[0]
    requires Linked(uf.bpb.fatType, was, now, chain) && |now| == uf.bpb.numClusters
    requires forall j | 0 <= j < |now| && j !in Allocatable(uf.bpb.fatType, now) :: FatOf(uf.bpb, uf.view)[j] == now[j]
    modifies uf.Objects()
    ensures uf.Valid() && Volume(uf.bpb, uf.view) && uf.allocPtr == old(uf.allocPtr)
    ensures old(uf.dev.failures) <= uf.dev.failures
    ensures SameOutsideFat(uf.bpb, old(uf.view), uf.view)
    ensures forall j | 0 <= j < |was| && j !in Allocatable(uf.bpb.fatType, was) :: FatOf(uf.bpb, uf.view)[j] == was[j]
    ensures FatOf(uf.bpb, old(uf.view)) == now && uf.dev.failures == old(uf.dev.failures) ==>
              FatOf(uf.bpb, uf.view) == was
    ensures Allocatable(uf.bpb.fatType, now) == {} ==> |Allocatable(uf.bpb.fatType, was)| <= |chain|
  {
    ghost var part := FatOf(uf.bpb, uf.view);
    Abandon(uf.bpb.fatType, was, now, part, chain);
    hide Ufat.CoherentBut, FatOf, Volume, IsChain;
    var _ := FreeChain(uf, head);
  }

  /** ufat_alloc_chain: a chain of `count` clusters that were free, built from its end; no other entry changes.
      Without device refusals it fails only when fewer than `count` clusters can be allocated, and then the table
      is as it was. */
  method AllocChain(uf: Ufat, count: nat) returns (r: Result<Cluster>, ghost chain: seq<Cluster>)
    requires uf.Valid() && Volume(uf.bpb, uf.view) && ScanReady(uf)
    modifies uf.Objects()
    ensures uf.Valid() && Volume(uf.bpb, uf.view) && ScanReady(uf)
    ensures old(uf.dev.failures) <= uf.dev.failures
    ensures SameOutsideFat(uf.bpb, old(uf.view), uf.view)
    ensures var t := uf.bpb.fatType; var was, now := FatOf(uf.bpb, old(uf.view)), FatOf(uf.bpb, uf.view);
            && (forall j | 0 <= j < |was| && j !in Allocatable(t, was) :: now[j] == was[j])
            && (r.Ok? ==> |chain| == count && Linked(t, was, now, chain)
                          && r.value == if count == 0 then EOC else chain[0])
            && (r.Err? && uf.dev.failures == old(uf.dev.failures) ==>
                  r.error == NoClusters && now == was && |Allocatable(t, was)| < count)
    ensures r.Err? ==> r.error in {NoClusters, IoError}
  {
    assert uf.bpb.numClusters <= 0xfff_fff0 && uf.bpb.numClusters <= MaxClusters(uf.bpb.fatType);
    hide Ufat.CoherentBut, FatOf, Volume, IsChain, Decode, Encode;
    ghost var g, t, was := uf.bpb, uf.bpb.fatType, FatOf(uf.bpb, uf.view);
    var head, n := EOC, count;
    chain := [];
    EmptyLink(t, was);
    while n > 0
      invariant 0 <= n && n + |chain| == count
      invariant uf.Valid() && Volume(g, uf.view) && ScanReady(uf)
      invariant old(uf.dev.failures) <= uf.dev.failures
      invariant SameOutsideFat(g, old(uf.view), uf.view)
      invariant Linked(t, was, FatOf(g, uf.view), chain)
      invariant head == if chain == [] then EOC else chain[0]
      invariant chain != [] ==> head < g.numClusters && !(t == Fat12 && head == 0xff0)
    {
      StoredValueSurvives(t, head);
      ghost var now := FatOf(g, uf.view);
      var c := AllocCluster(uf, head);
      if c.Err? {
        GiveUp(uf, head, was, now, chain);
        return Err(c.error), chain;
      }
      LinkFront(t, was, now, chain, c.value, FatOf(g, uf.view));
      head := c.value;
      chain := [c.value] + chain;
      n := n - 1;
    }
    return Ok(head), chain;
  }

  lemma EmptyLink(t: FatType, was: seq<Cluster>)
    ensures Linked(t, was, was, [])
  {
  }
}
