/** The listing of a directory (mysh/fs/ufat_dir.c): the entries that ufat_dir_read finds in a sequence of records, and
    what writing an entry into free records and deleting one do to it. */
module UfatListing {
  import opened Integers
  import opened UfatNames

  /** An entry: its record, where it is, and its long name with the place where that starts. */
  datatype Item = Item(at: nat, from: Option<nat>, rec: Record, name: Option<seq<uint16>>)

  /** What format_name shows of the text: the units up to the first zero. */
  function UpToZero(text: seq<uint16>): seq<uint16> {
    if text == [] || text[0] == 0 then [] else [text[0]] + UpToZero(text[1..])
  }

  lemma {:induction false} NoZeroInside(text: seq<uint16>)
    ensures UpToZero(UpToZero(text)) == UpToZero(text) && |UpToZero(text)| <= |text|
  {
    if text != [] && text[0] != 0 {
      NoZeroInside(text[1..]);
      assert UpToZero(text)[1..] == UpToZero(text[1..]);
    }
  }

  predicate IsEntry(r: Record) { r[0x0b] != 0x0f && r[0] != 0 && r[0] != 0xe5 }

  predicate IsLabel(r: Record) { r[0x0b] / 8 % 2 == 1 }

  /** The entry in record `at` when the parser is in state `s`: the long name counts if it is complete and its checksum
      is that of the short name. */
  function ItemAt(r: Record, at: nat, s: Lfn): Item {
    if s.Reading? && s.left == 0 && s.checksum == RecordChecksum(r)
    then Item(at, Some(s.start), r, Some(UpToZero(s.text)))
    else Item(at, None, r, None)
  }

  /** One record: the state of the parser behind it, and the entry it holds, if any. */
  function Look(r: Record, at: nat, s: Lfn): (Lfn, seq<Item>)
    requires Clean(r)
  {
    if IsFragment(r) then (Parsed(s, r, at), [])
    else if IsEntry(r) && !IsLabel(r) then (Idle, [ItemAt(r, at, s)])
    else (Idle, [])
  }

  ghost predicate AllClean(recs: seq<Record>) {
    forall i | 0 <= i < |recs| :: Clean(recs[i])
  }

  /** The state and the entries behind the records from `i` up to `j`. */
  function ScanTo(recs: seq<Record>, i: nat, j: nat, s: Lfn): (Lfn, seq<Item>)
    requires i <= j <= |recs| && AllClean(recs)
    decreases j - i
  {
    if i == j then (s, [])
    else
      var (t, x) := Look(recs[i], i, s);
      var (u, y) := ScanTo(recs, i + 1, j, t);
      (u, x + y)
  }

  /** The whole listing. */
  function Listing(recs: seq<Record>): seq<Item>
    requires AllClean(recs)
  {
    ScanTo(recs, 0, |recs|, Idle).1
  }

  lemma {:induction false} ScanSplit(recs: seq<Record>, i: nat, m: nat, j: nat, s: Lfn)
    requires AllClean(recs) && i <= m <= j <= |recs|
    ensures var a := ScanTo(recs, i, m, s); var b := ScanTo(recs, m, j, a.0);
            ScanTo(recs, i, j, s) == (b.0, a.1 + b.1)
    decreases m - i
  {
    if i < m {
      var (t, x) := Look(recs[i], i, s);
      ScanSplit(recs, i + 1, m, j, t);
      var a, b := ScanTo(recs, i + 1, m, t), ScanTo(recs, m, j, ScanTo(recs, i + 1, m, t).0);
      assert x + (a.1 + b.1) == x + a.1 + b.1;
    } else {
      assert [] + ScanTo(recs, m, j, s).1 == ScanTo(recs, m, j, s).1;
    }
  }

  /** Only the records in the range matter. */
  lemma {:induction false} ScanSame(recs: seq<Record>, recs': seq<Record>, i: nat, j: nat, s: Lfn)
    requires AllClean(recs) && AllClean(recs') && i <= j <= |recs| && j <= |recs'|
    requires forall k | i <= k < j :: recs[k] == recs'[k]
    ensures ScanTo(recs, i, j, s) == ScanTo(recs', i, j, s)
    decreases j - i
  {
    if i < j {
      ScanSame(recs, recs', i + 1, j, Look(recs[i], i, s).0);
    }
  }

  /** Free records hold nothing and end every name that has begun. */
  lemma {:induction false} ScanFree(recs: seq<Record>, i: nat, j: nat, s: Lfn)
    requires AllClean(recs) && i <= j <= |recs| && forall k | i <= k < j :: IsFree(recs[k])
    ensures ScanTo(recs, i, j, s).0 == (if i == j then s else Idle) && ScanTo(recs, i, j, s).1 == []
    decreases j - i
  {
    if i < j {
      assert Clean(recs[i]);
      assert Look(recs[i], i, s).0 == Idle && Look(recs[i], i, s).1 == [];
      ScanFree(recs, i + 1, j, Idle);
    }
  }

  // ---- writing an entry ----

  /** The name with zeros behind it, as the fragments store it. */
  function ZeroPadded(name: seq<uint16>, n: nat): (r: seq<uint16>)
    requires |name| <= n
    ensures |r| == n
  {
    name + seq(n - |name|, _ => 0)
  }

  function FragmentCount(name: seq<uint16>): nat {
    (|name| + 12) / 13
  }

  /** The first `k` fragments of a name are at `p`, the last piece of the name first. */
  ghost predicate Fragments(recs: seq<Record>, p: nat, k: nat, name: seq<uint16>, checksum: byte) {
    && k <= FragmentCount(name) && p + k <= |recs|
    && forall q | p <= q < p + k :: HoldsPiece(recs[q], name, FragmentCount(name) - (q - p), checksum)
  }

  /** The record holds piece number `m` of the name, counted from 1. */
  ghost predicate HoldsPiece(r: Record, name: seq<uint16>, m: nat, checksum: byte) {
    var n := FragmentCount(name);
    1 <= m <= n && HoldsFragment(r, ZeroPadded(name, n * 13)[(m - 1) * 13..m * 13], m, m == n, checksum)
  }

  /** Long names of up to 247 units: 19 full fragments. */
  predicate Nameable(name: seq<uint16>) {
    1 <= |name| <= 247 && forall i | 0 <= i < |name| :: name[i] != 0
  }

  /** Reading the fragments collects the name from its end. */
  lemma {:induction false} ScanFragments(recs: seq<Record>, p: nat, k: nat, name: seq<uint16>, checksum: byte, s: Lfn)
    requires AllClean(recs) && Nameable(name) && Fragments(recs, p, k, name, checksum) && 0 < k
    ensures var n := FragmentCount(name);
            && ScanTo(recs, p, p + k, s).0 == Reading(p, checksum, n - k, ZeroPadded(name, n * 13)[(n - k) * 13..])
            && ScanTo(recs, p, p + k, s).1 == []
    decreases k
  {
    var n := FragmentCount(name);
    var all := ZeroPadded(name, n * 13);
    ScanSplit(recs, p, p + (k - 1), p + k, s);
    var r := recs[p + (k - 1)];
    assert HoldsPiece(r, name, n - (k - 1), checksum);
    if k > 1 {
      ScanFragments(recs, p, k - 1, name, checksum, s);
    }
    var before := ScanTo(recs, p, p + (k - 1), s).0;
    FragmentStep(r, p + (k - 1), before, name, n - (k - 1), n - k, p, checksum);
    hide Look, Parsed, HoldsPiece, Nameable;
  }

  lemma FragmentStep(r: Record, at: nat, s: Lfn, name: seq<uint16>, m: nat, m': nat, p: nat, checksum: byte)
    requires Nameable(name) && HoldsPiece(r, name, m, checksum) && m == m' + 1 && Clean(r)
    requires var n := FragmentCount(name);
             if m == n then at == p else s == Reading(p, checksum, m, ZeroPadded(name, n * 13)[m * 13..])
    ensures Look(r, at, s).0 == Reading(p, checksum, m', ZeroPadded(name, FragmentCount(name) * 13)[m' * 13..])
    ensures Look(r, at, s).1 == []
  {
    var n := FragmentCount(name);
    var all := ZeroPadded(name, n * 13);
    assert n <= 19 && FragmentLength(m) == 13;
    assert Units(r)[..13] == Units(r) == all[m' * 13..m * 13];
    assert all[m' * 13..] == all[m' * 13..m * 13] + all[m * 13..];
    assert m == n ==> all[m * 13..] == [];
    assert IsFragment(r) && r[0] % 64 == m;
  }

  lemma {:induction false} PaddedName(name: seq<uint16>, n: nat)
    requires |name| <= n && forall i | 0 <= i < |name| :: name[i] != 0
    ensures UpToZero(ZeroPadded(name, n)) == name
  {
    if name != [] {
      assert ZeroPadded(name, n)[1..] == ZeroPadded(name[1..], n - 1);
      PaddedName(name[1..], n - 1);
    } else if n > 0 {
      assert ZeroPadded(name, n)[0] == 0;
    }
  }

  /** The records of an entry with its long name, read in any state, are that entry. */
  lemma ScanWritten(recs: seq<Record>, p: nat, name: seq<uint16>, s: Lfn)
    requires AllClean(recs) && Nameable(name) && p + FragmentCount(name) < |recs|
    requires var e := recs[p + FragmentCount(name)];
             IsEntry(e) && !IsLabel(e) && Fragments(recs, p, FragmentCount(name), name, RecordChecksum(e))
    ensures var at := p + FragmentCount(name);
            && ScanTo(recs, p, at + 1, s).0 == Idle
            && ScanTo(recs, p, at + 1, s).1 == [Item(at, Some(p), recs[at], Some(name))]
  {
    var n := FragmentCount(name);
    var e := recs[p + n];
    ScanFragments(recs, p, n, name, RecordChecksum(e), s);
    ScanSplit(recs, p, p + n, p + n + 1, s);
    PaddedName(name, n * 13);
    assert (n - n) * 13 == 0 && ZeroPadded(name, n * 13)[0..] == ZeroPadded(name, n * 13);
    hide Fragments, ZeroPadded, UpToZero, Parsed;
  }

  /** `now` is `was` with the records from `p` up to `q` rewritten. */
  ghost predicate Rewritten(was: seq<Record>, now: seq<Record>, p: nat, q: nat) {
    && |now| == |was| && p <= q <= |was|
    && forall k | 0 <= k < |was| && !(p <= k < q) :: now[k] == was[k]
  }

  /** The listing around a range of free records: nothing in it counts. */
  lemma AroundFree(recs: seq<Record>, p: nat, q: nat)
    requires AllClean(recs) && p < q <= |recs| && forall k | p <= k < q :: IsFree(recs[k])
    ensures Listing(recs) == ScanTo(recs, 0, p, Idle).1 + ScanTo(recs, q, |recs|, Idle).1
  {
    var s := ScanTo(recs, 0, p, Idle).0;
    ScanSplit(recs, 0, p, |recs|, Idle);
    ScanSplit(recs, p, q, |recs|, s);
    ScanFree(recs, p, q, s);
    var rest := ScanTo(recs, q, |recs|, Idle).1;
    assert [] + rest == rest;
  }

  /** Writing the first fragments of a name into free records, when at least one of them stays free, changes nothing. */
  lemma PartlyWritten(recs: seq<Record>, recs': seq<Record>, p: nat, q: nat, k: nat, name: seq<uint16>, checksum: byte)
    requires AllClean(recs) && AllClean(recs') && Rewritten(recs, recs', p, q) && p + k < q
    requires forall x | p <= x < q :: IsFree(recs[x])
    requires forall x | p + k <= x < q :: IsFree(recs'[x])
    requires Nameable(name) && Fragments(recs', p, k, name, checksum)
    ensures Listing(recs') == Listing(recs)
  {
    AroundFree(recs, p, q);
    ScanSame(recs, recs', 0, p, Idle);
    ScanSame(recs, recs', q, |recs|, Idle);
    if k == 0 {
      AroundFree(recs', p, q);
    } else {
      AroundFree(recs', p + k, q);
      ScanSplit(recs', 0, p, p + k, Idle);
      ScanFragments(recs', p, k, name, checksum, ScanTo(recs', 0, p, Idle).0);
      var before := ScanTo(recs', 0, p, Idle).1;
      assert before + [] == before;
      hide Fragments;
    }
  }

  /** Writing a whole entry into free records adds it to the listing, in its place, and nothing else. */
  lemma EntryWritten(recs: seq<Record>, recs': seq<Record>, p: nat, name: seq<uint16>)
    requires AllClean(recs) && AllClean(recs') && Nameable(name) && p + FragmentCount(name) < |recs|
    requires var q := p + FragmentCount(name);
             && Rewritten(recs, recs', p, q + 1) && (forall x | p <= x < q + 1 :: IsFree(recs[x]))
             && IsEntry(recs'[q]) && !IsLabel(recs'[q])
             && Fragments(recs', p, FragmentCount(name), name, RecordChecksum(recs'[q]))
    ensures var q := p + FragmentCount(name);
            var before, behind := ScanTo(recs, 0, p, Idle).1, ScanTo(recs, q + 1, |recs|, Idle).1;
            && Listing(recs) == before + behind
            && Listing(recs') == before + [Item(q, Some(p), recs'[q], Some(name))] + behind
  {
    hide Fragments, RecordChecksum, ScanTo, IsEntry, IsLabel, AllClean;
    var q := p + FragmentCount(name);
    AroundFree(recs, p, q + 1);
    ScanSame(recs, recs', 0, p, Idle);
    ScanSame(recs, recs', q + 1, |recs|, Idle);
    var s := ScanTo(recs', 0, p, Idle).0;
    ScanSplit(recs', 0, p, |recs|, Idle);
    ScanSplit(recs', p, q + 1, |recs|, s);
    ScanWritten(recs', p, name, s);
    var x, y := ScanTo(recs', 0, p, Idle).1, ScanTo(recs', q + 1, |recs|, Idle).1;
    var item := [Item(q, Some(p), recs'[q], Some(name))];
    assert x + (item + y) == x + item + y;
  }

  /** More free records at the end do not change the listing. */
  lemma MoreFree(recs: seq<Record>, more: seq<Record>)
    requires AllClean(recs) && AllClean(recs + more) && forall k | 0 <= k < |more| :: IsFree(more[k])
    ensures Listing(recs + more) == Listing(recs)
  {
    var all := recs + more;
    ScanSplit(all, 0, |recs|, |all|, Idle);
    ScanSame(recs, all, 0, |recs|, Idle);
    ScanFree(all, |recs|, |all|, ScanTo(all, 0, |recs|, Idle).0);
    assert Listing(recs) + [] == Listing(recs);
  }

  // ---- deleting an entry ----

  /** The fragment is marked as the first one of its name. */
  predicate IsFirst(r: Record) { r[0] / 64 % 2 == 1 }

  /** A name that is being read has begun at a fragment, and there have only been later fragments since. */
  ghost predicate Consistent(recs: seq<Record>, i: nat, s: Lfn) {
    s.Reading? ==>
      && s.start < i <= |recs| && (forall k | s.start <= k < i :: IsFragment(recs[k]))
      && (forall k | s.start < k < i :: !IsFirst(recs[k]))
  }

  lemma {:induction false} ScanConsistent(recs: seq<Record>, i: nat, j: nat, s: Lfn)
    requires AllClean(recs) && i <= j <= |recs| && Consistent(recs, i, s)
    ensures Consistent(recs, j, ScanTo(recs, i, j, s).0)
    decreases j - i
  {
    if i < j {
      ScanConsistent(recs, i + 1, j, Look(recs[i], i, s).0);
    }
  }

  /** Each entry of the listing is the one that its record holds. */
  lemma {:induction false} ListedItem(recs: seq<Record>, i: nat, s: Lfn, x: Item)
    requires AllClean(recs) && i <= |recs| && x in ScanTo(recs, i, |recs|, s).1
    ensures i <= x.at < |recs| && IsEntry(recs[x.at]) && !IsLabel(recs[x.at])
    ensures x == ItemAt(recs[x.at], x.at, ScanTo(recs, i, x.at, s).0)
    decreases |recs| - i
  {
    if i < |recs| {
      var (t, y) := Look(recs[i], i, s);
      if x in y {
        assert x == y[0];
      } else {
        ListedItem(recs, i + 1, t, x);
      }
    }
  }

  lemma {:induction false} ScanOnlyFragments(recs: seq<Record>, i: nat, j: nat, s: Lfn)
    requires AllClean(recs) && i <= j <= |recs| && forall k | i <= k < j :: IsFragment(recs[k])
    ensures ScanTo(recs, i, j, s).1 == []
    decreases j - i
  {
    if i < j {
      ScanOnlyFragments(recs, i + 1, j, Look(recs[i], i, s).0);
    }
  }

  /** Where the records of an entry begin. */
  function FirstRecord(x: Item): nat {
    if x.from.Some? then x.from.value else x.at
  }

  /** Marking the records of an entry as deleted takes it from the listing, and nothing else. */
  lemma EntryDeleted(recs: seq<Record>, recs': seq<Record>, x: Item)
    requires AllClean(recs) && AllClean(recs') && x in Listing(recs)
    requires FirstRecord(x) <= x.at < |recs| && Rewritten(recs, recs', FirstRecord(x), x.at + 1)
    requires forall k | FirstRecord(x) <= k < x.at + 1 :: IsFree(recs'[k])
    ensures var before, behind := ScanTo(recs, 0, FirstRecord(x), Idle).1, ScanTo(recs, x.at + 1, |recs|, Idle).1;
            && Listing(recs) == before + [x] + behind
            && Listing(recs') == before + behind
  {
    hide ScanTo, IsEntry, IsLabel, ItemAt, AllClean;
    var p, q := FirstRecord(x), x.at;
    ListedPlace(recs, x);
    AroundFree(recs', p, q + 1);
    ScanSame(recs, recs', 0, p, Idle);
    ScanSame(recs, recs', q + 1, |recs|, Idle);
    OneEntry(recs, x, p);
  }

  lemma OneEntry(recs: seq<Record>, x: Item, p: nat)
    requires AllClean(recs) && p <= x.at < |recs| && IsEntry(recs[x.at]) && !IsLabel(recs[x.at])
    requires x == ItemAt(recs[x.at], x.at, ScanTo(recs, 0, x.at, Idle).0)
    requires forall k | p <= k < x.at :: IsFragment(recs[k])
    ensures Listing(recs) == ScanTo(recs, 0, p, Idle).1 + [x] + ScanTo(recs, x.at + 1, |recs|, Idle).1
  {
    var q := x.at;
    ScanSplit(recs, 0, q, |recs|, Idle);
    ScanSplit(recs, 0, p, q, Idle);
    ScanOnlyFragments(recs, p, q, ScanTo(recs, 0, p, Idle).0);
    var s := ScanTo(recs, 0, q, Idle).0;
    assert ScanTo(recs, q, |recs|, s).1 == [x] + ScanTo(recs, q + 1, |recs|, Idle).1;
    var a, c := ScanTo(recs, 0, p, Idle).1, ScanTo(recs, q + 1, |recs|, Idle).1;
    assert a + [] == a && a + ([x] + c) == a + [x] + c;
  }

  /** The records of a listed entry: it lies behind the fragments of its name. */
  lemma ListedPlace(recs: seq<Record>, x: Item)
    requires AllClean(recs) && x in Listing(recs)
    ensures FirstRecord(x) <= x.at < |recs| && IsEntry(recs[x.at]) && !IsLabel(recs[x.at]) && x.rec == recs[x.at]
    ensures forall k | FirstRecord(x) <= k < x.at :: IsFragment(recs[k])
    ensures forall k | FirstRecord(x) < k < x.at :: !IsFirst(recs[k])
    ensures x == ItemAt(recs[x.at], x.at, ScanTo(recs, 0, x.at, Idle).0)
  {
    ListedItem(recs, 0, Idle, x);
    ScanConsistent(recs, 0, x.at, Idle);
  }

  lemma {:induction false} ScanLaterFragments(recs: seq<Record>, i: nat, j: nat)
    requires AllClean(recs) && i <= j <= |recs| && forall k | i <= k < j :: IsFragment(recs[k]) && !IsFirst(recs[k])
    ensures ScanTo(recs, i, j, Idle) == (Idle, [])
    decreases j - i
  {
    if i < j {
      LookAtFragment(recs[i], i);
      ScanLaterFragments(recs, i + 1, j);
      var none: seq<Item> := [];
      assert none + none == none;
      hide Look, IsFragment, IsFirst;
    }
  }

  lemma LookAtFragment(r: Record, at: nat)
    requires Clean(r) && IsFragment(r) && !IsFirst(r)
    ensures Look(r, at, Idle) == (Idle, [])
  {
  }

  /** Marking only the first records of an entry as deleted takes its long name from the listing, and nothing else. */
  lemma PartlyDeleted(recs: seq<Record>, recs': seq<Record>, x: Item, m: nat)
    requires AllClean(recs) && AllClean(recs') && x in Listing(recs)
    requires FirstRecord(x) < m <= x.at < |recs| && Rewritten(recs, recs', FirstRecord(x), m)
    requires forall k | FirstRecord(x) <= k < m :: IsFree(recs'[k])
    ensures var before, behind := ScanTo(recs, 0, FirstRecord(x), Idle).1, ScanTo(recs, x.at + 1, |recs|, Idle).1;
            && Listing(recs) == before + [x] + behind
            && Listing(recs') == before + [x.(from := None, name := None)] + behind
  {
    hide Look, ItemAt, IsEntry, IsLabel, IsFragment, IsFirst, AllClean, ScanTo, IsFree;
    var p, q := FirstRecord(x), x.at;
    ListedPlace(recs, x);
    OneEntry(recs, x, p);
    AroundFree(recs', p, m);
    ScanSame(recs, recs', 0, p, Idle);
    ScanSplit(recs', m, q, |recs|, Idle);
    ScanLaterFragments(recs', m, q);
    ScanSame(recs, recs', q + 1, |recs|, Idle);
    var a, c := ScanTo(recs, 0, p, Idle).1, ScanTo(recs, q + 1, |recs|, Idle).1;
    var y := x.(from := None, name := None);
    LastEntry(recs', q, y);
    assert a + ([] + ([y] + c)) == a + [y] + c;
  }

  lemma LastEntry(recs: seq<Record>, q: nat, y: Item)
    requires AllClean(recs) && q < |recs| && IsEntry(recs[q]) && !IsLabel(recs[q]) && y == Item(q, None, recs[q], None)
    ensures ScanTo(recs, q, |recs|, Idle).1 == [y] + ScanTo(recs, q + 1, |recs|, Idle).1
  {
    LookAtEntry(recs[q], q, y);
    hide Look;
  }

  lemma LookAtEntry(r: Record, at: nat, y: Item)
    requires IsEntry(r) && !IsLabel(r) && y == Item(at, None, r, None)
    ensures Clean(r) && Look(r, at, Idle) == (Idle, [y])
  {
  }
}
