/** The three packed encodings of the file allocation table (mysh/fs/ufat.c:402-622), over the block cache.

    The table is specified as a sequence of cluster values, `FatOf`, read off the flat block array byte by byte.
    Shifts and masks of the source are written as quotients and remainders. */
module UfatFat {
  import opened Integers
  import opened Arith
  import opened UfatCache

  type Cluster = c: int | 0 <= c < 0x1_0000_0000

  const FREE: Cluster := 0
  const BAD: Cluster := 0xfff_fff7
  const EOC: Cluster := 0xfff_fff8

  predicate IsPtr(c: Cluster) { 2 <= c < 0xfff_fff0 }

  /** Bytes of FAT that `n` entries take. */
  function FatBytes(t: FatType, n: nat): nat {
    match t
    case Fat12 => (n * 3 + 1) / 2
    case Fat16 => n * 2
    case Fat32 => n * 4
  }

  /** Entry values that stand for a cluster number lie below this. */
  function MaxClusters(t: FatType): nat {
    match t
    case Fat12 => 0xff6
    case Fat16 => 0xfff6
    case Fat32 => 0xfff_fff0
  }

  /** The FAT has room for every cluster, and every cluster number can be told from the special values. */
  predicate FatUsable(g: Bpb) {
    FatBytes(g.fatType, g.numClusters) <= g.fatSize * g.blockSize && g.numClusters <= MaxClusters(g.fatType)
  }

  ghost predicate Volume(g: Bpb, v: seq<Block>) {
    g.Fits(|v|) && Sized(v, g.blockSize) && FatUsable(g)
  }

  /** Byte `o` of the first FAT. */
  function FatByte(g: Bpb, v: seq<Block>, o: nat): byte
    requires g.Fits(|v|) && Sized(v, g.blockSize) && o < g.fatSize * g.blockSize
  {
    FatBlock(g, o);
    v[g.fatStart + o / g.blockSize][o % g.blockSize]
  }

  lemma FatBlock(g: Bpb, o: nat)
    requires 0 < g.blockSize && o < g.fatSize * g.blockSize
    ensures 0 <= o / g.blockSize < g.fatSize
  {
    DivLess(o, g.fatSize, g.blockSize);
  }

  /** The bits stored for entry `i`. */
  function Raw(g: Bpb, v: seq<Block>, i: nat): nat
    requires Volume(g, v) && i < g.numClusters
  {
    match g.fatType
    case Fat12 =>
      var o := i / 2 * 3;
      if i % 2 == 1 then FatByte(g, v, o + 2) * 16 + FatByte(g, v, o + 1) / 16
      else FatByte(g, v, o) + FatByte(g, v, o + 1) % 16 * 256
    case Fat16 =>
      FatByte(g, v, 2 * i) + 0x100 * FatByte(g, v, 2 * i + 1)
    case Fat32 =>
      (FatByte(g, v, 4 * i) + 0x100 * FatByte(g, v, 4 * i + 1)
       + 0x1_0000 * FatByte(g, v, 4 * i + 2) + 0x100_0000 * FatByte(g, v, 4 * i + 3)) % 0x1000_0000
  }

  /** The cluster value that stored bits are read as. */
  function Decode(t: FatType, raw: nat): Cluster
    requires raw < 0x1_0000_0000
  {
    match t
    case Fat12 => if raw >= 0xff8 || raw == 0xff0 then EOC else if raw == 0xff7 then BAD else raw
    case Fat16 => if raw >= 0xfff8 then EOC else if raw == 0xfff7 then BAD else raw
    case Fat32 => if raw >= 0xfff_fff8 then EOC else if raw == 0xfff_fff7 then BAD else raw
  }

  /** The bits of a cluster value that an entry keeps. */
  function Encode(t: FatType, c: Cluster): nat {
    match t
    case Fat12 => c % 0x1000
    case Fat16 => c % 0x1_0000
    case Fat32 => c % 0x1000_0000
  }

  function Entry(g: Bpb, v: seq<Block>, i: nat): Cluster
    requires Volume(g, v) && i < g.numClusters
  {
    Decode(g.fatType, Raw(g, v, i))
  }

  /** The table as a sequence of cluster values. */
  ghost function FatOf(g: Bpb, v: seq<Block>): (fat: seq<Cluster>)
    requires Volume(g, v)
    ensures |fat| == g.numClusters
  {
    seq(g.numClusters, i requires 0 <= i < g.numClusters => Entry(g, v, i))
  }

  /** The entry values from here on are markers: a bad cluster and the ends of chains. */
  function FirstMarker(t: FatType): nat {
    match t
    case Fat12 => 0xff7
    case Fat16 => 0xfff7
    case Fat32 => 0xfff_fff7
  }

  /** What stored bits stand for: no bits for a free cluster, the first marker for a bad one, the others (and on FAT12
      one more value) for the end of a chain, and the rest for themselves. */
  ghost predicate Means(t: FatType, raw: nat, c: Cluster) {
    var m := FirstMarker(t);
    && (c == FREE <==> raw == 0)
    && (c == BAD <==> raw == m)
    && (c == EOC <==> raw > m || (t == Fat12 && raw == 0xff0))
    && (c != FREE && c != BAD && c != EOC ==> c == raw)
    && (IsPtr(c) <==> 2 <= raw < m && raw < 0xfff_fff0 && !(t == Fat12 && raw == 0xff0))
  }

  /** Every entry is read as what its bits stand for. */
  lemma EntryMeans(g: Bpb, v: seq<Block>, i: nat)
    requires Volume(g, v) && i < g.numClusters
    ensures Means(g.fatType, Raw(g, v, i), Entry(g, v, i))
  {
    RawBound(g, v, i);
    hide Raw;
  }

  /** An entry has 12, 16 or 28 bits. */
  lemma RawBound(g: Bpb, v: seq<Block>, i: nat)
    requires Volume(g, v) && i < g.numClusters
    ensures Raw(g, v, i) < FirstMarker(g.fatType) + 9
  {
    hide FatByte;
  }

  /** The bits that are stored for a value: the second marker for the end of a chain. */
  lemma StoredBits(t: FatType, c: Cluster)
    ensures c < FirstMarker(t) ==> Encode(t, c) == c
    ensures Encode(t, BAD) == FirstMarker(t) && Encode(t, EOC) == FirstMarker(t) + 1
  {
  }

  /** A value survives being stored exactly when it is the bad marker, the end marker or a number below all markers,
      except that a FAT12 table reads 0xff0 as an end of chain too. */
  lemma StoredValueSurvives(t: FatType, c: Cluster)
    ensures Decode(t, Encode(t, c)) == c
            <==> c == EOC || c == BAD || (c < FirstMarker(t) && !(t == Fat12 && c == 0xff0))
  {
  }

  /** `v'` is `v` with bytes `o`, `o + 1`, ... of the FAT replaced by `bytes`. */
  ghost predicate BytesSet(g: Bpb, v: seq<Block>, v': seq<Block>, o: nat, bytes: seq<byte>)
    requires Volume(g, v)
  {
    && Volume(g, v') && |v'| == |v|
    && (forall b | 0 <= b < |v| && !g.InFat(b) :: v'[b] == v[b])
    && (forall x: nat | x < g.fatSize * g.blockSize ::
          FatByte(g, v', x) == if o <= x < o + |bytes| then bytes[x - o] else FatByte(g, v, x))
  }

  lemma PatchSetsBytes(g: Bpb, v: seq<Block>, o: nat, bytes: seq<byte>)
    requires Volume(g, v) && o < g.fatSize * g.blockSize && o % g.blockSize + |bytes| <= g.blockSize
    requires g.InFat(g.fatStart + o / g.blockSize)
    ensures var b := g.fatStart + o / g.blockSize;
            BytesSet(g, v, v[b := Patch(v[b], o % g.blockSize, bytes)], o, bytes)
  {
    var bs := g.blockSize;
    var b := g.fatStart + o / bs;
    var v' := v[b := Patch(v[b], o % bs, bytes)];
    forall x: nat | x < g.fatSize * bs
      ensures FatByte(g, v', x) == if o <= x < o + |bytes| then bytes[x - o] else FatByte(g, v, x)
    {
      PatchedByte(g, v, o, bytes, x, o / bs, o % bs);
    }
  }

  lemma SameBlock(bs: nat, o: nat, q: nat, r: nat, n: nat, x: nat, q': nat, r': nat)
    requires 0 < bs && o == q * bs + r && r + n <= bs && q' == x / bs && r' == x % bs
    ensures o <= x < o + n <==> q' == q && r <= r' < r + n
    ensures q' == q ==> r' - r == x - o
  {
    assert x == q' * bs + r';
    if o <= x < o + n {
      DivModUnique(x, bs, q, r + (x - o));
    }
  }

  lemma PatchedByte(g: Bpb, v: seq<Block>, o: nat, bytes: seq<byte>, x: nat, q: nat, r: nat)
    requires Volume(g, v) && o < g.fatSize * g.blockSize && x < g.fatSize * g.blockSize
    requires q == o / g.blockSize && r == o % g.blockSize && r + |bytes| <= g.blockSize
    requires g.InFat(g.fatStart + q)
    ensures var v' := v[g.fatStart + q := Patch(v[g.fatStart + q], r, bytes)];
            Volume(g, v') && FatByte(g, v', x) == if o <= x < o + |bytes| then bytes[x - o] else FatByte(g, v, x)
  {
    var bs := g.blockSize;
    var v' := v[g.fatStart + q := Patch(v[g.fatStart + q], r, bytes)];
    assert o == q * bs + r;
    FatBlock(g, x);
    var q', r' := x / bs, x % bs;
    SameBlock(bs, o, q, r, |bytes|, x, q', r');
    assert FatByte(g, v', x) == v'[g.fatStart + q'][r'] && FatByte(g, v, x) == v[g.fatStart + q'][r'];
  }

  /** read_fat_byte */
  method ReadFatByte(uf: Ufat, offset: nat) returns (r: Result<byte>)
    requires uf.Valid() && Volume(uf.bpb, uf.view) && offset < uf.bpb.fatSize * uf.bpb.blockSize
    modifies uf.Objects()
    ensures uf.Valid() && uf.view == old(uf.view) && uf.allocPtr == old(uf.allocPtr)
    ensures old(uf.dev.failures) <= uf.dev.failures
    ensures r.Err? ==> r.error == IoError && old(uf.dev.failures) < uf.dev.failures
    ensures r.Ok? ==> r.value == FatByte(uf.bpb, uf.view, offset)
  {
    hide Ufat.CoherentBut;
    FatBlock(uf.bpb, offset);
    var b := uf.bpb.fatStart + offset / uf.bpb.blockSize;
    var i := uf.Open(b, false);
    if i.Err? {
      return Err(i.error);
    }
    r := Ok(uf.cacheData[i.value][offset % uf.bpb.blockSize]);
  }

  /** Which bits of a byte write_fat_byte replaces: the masks 0xf0, 0x0f and 0xff. */
  datatype Mask = High | Low | Full

  function Masked(was: byte, x: byte, mask: Mask): byte {
    match mask
    case High => x / 16 * 16 + was % 16
    case Low => was / 16 * 16 + x % 16
    case Full => x
  }

  /** write_fat_byte */
  method WriteFatByte(uf: Ufat, offset: nat, x: byte, mask: Mask) returns (r: Result<()>)
    requires uf.Valid() && Volume(uf.bpb, uf.view) && offset < uf.bpb.fatSize * uf.bpb.blockSize
    modifies uf.Objects()
    ensures uf.Valid() && uf.allocPtr == old(uf.allocPtr)
    ensures old(uf.dev.failures) <= uf.dev.failures
    ensures r.Err? ==> r.error == IoError && old(uf.dev.failures) < uf.dev.failures && uf.view == old(uf.view)
    ensures r.Ok? ==> BytesSet(uf.bpb, old(uf.view), uf.view, offset,
                               [Masked(FatByte(uf.bpb, old(uf.view), offset), x, mask)])
  {
    hide Ufat.CoherentBut;
    FatBlock(uf.bpb, offset);
    var b := uf.bpb.fatStart + offset / uf.bpb.blockSize;
    var i := uf.Open(b, false);
    if i.Err? {
      return Err(i.error);
    }
    var o := offset % uf.bpb.blockSize;
    var y := Masked(uf.cacheData[i.value][o], x, mask);
    PatchSetsBytes(uf.bpb, uf.view, offset, [y]);
    uf.WriteCached(i.value, o, [y]);
    r := Ok(());
  }

  /** `v'` is `v` except that entry `i` of the FAT may be any value. */
  ghost predicate OnlyEntry(g: Bpb, v: seq<Block>, v': seq<Block>, i: nat)
    requires Volume(g, v)
  {
    && Volume(g, v') && SameOutsideFat(g, v, v')
    && forall j: nat | j < g.numClusters && j != i :: Raw(g, v', j) == Raw(g, v, j)
  }

  ghost predicate SameOutsideFat(g: Bpb, v: seq<Block>, v': seq<Block>) {
    |v'| == |v| && forall b | 0 <= b < |v| && !g.InFat(b) :: v'[b] == v[b]
  }

  /** One half of a FAT12 store changes no other entry, although neighbours share a byte. */
  lemma Store12Half(g: Bpb, v: seq<Block>, v': seq<Block>, i: nat, o: nat, x: byte, mask: Mask)
    requires Volume(g, v) && g.fatType == Fat12 && i < g.numClusters
    requires (o, mask) in if i % 2 == 1 then {(i / 2 * 3 + 1, High), (i / 2 * 3 + 2, Full)}
                          else {(i / 2 * 3, Full), (i / 2 * 3 + 1, Low)}
    requires o < g.fatSize * g.blockSize && BytesSet(g, v, v', o, [Masked(FatByte(g, v, o), x, mask)])
    ensures OnlyEntry(g, v, v', i)
  {
    hide FatByte, Masked, Bpb.Fits;
    Nibbles(FatByte(g, v, o), x);
    forall j: nat | j < g.numClusters && j != i
      ensures Raw(g, v', j) == Raw(g, v, j)
    {
      InRange12(g, j);
      if j / 2 != i / 2 {
        assert j / 2 * 3 + 2 < i / 2 * 3 || i / 2 * 3 + 2 < j / 2 * 3;
      }
    }
  }

  lemma Nibbles(was: byte, x: byte)
    ensures Masked(was, x, High) / 16 == x / 16 && Masked(was, x, High) % 16 == was % 16
    ensures Masked(was, x, Low) / 16 == was / 16 && Masked(was, x, Low) % 16 == x % 16
    ensures Masked(was, x, Full) == x
  {
  }

  lemma InRange12(g: Bpb, i: nat)
    requires FatUsable(g) && g.fatType == Fat12 && i < g.numClusters
    ensures i / 2 * 3 + 1 + i % 2 < g.fatSize * g.blockSize
  {
  }

  /** Both halves together store twelve bits of `c`. */
  lemma Store12(g: Bpb, v: seq<Block>, v1: seq<Block>, v2: seq<Block>, i: nat, c: Cluster)
    requires Volume(g, v) && g.fatType == Fat12 && i < g.numClusters && i / 2 * 3 + 1 + i % 2 < g.fatSize * g.blockSize
    requires
      var o := i / 2 * 3;
      if i % 2 == 1 then
        && BytesSet(g, v, v1, o + 1, [Masked(FatByte(g, v, o + 1), c % 16 * 16, High)])
        && BytesSet(g, v1, v2, o + 2, [Masked(FatByte(g, v1, o + 2), c % 0x1000 / 16, Full)])
      else
        && BytesSet(g, v, v1, o, [Masked(FatByte(g, v, o), c % 256, Full)])
        && BytesSet(g, v1, v2, o + 1, [Masked(FatByte(g, v1, o + 1), c % 0x1000 / 256, Low)])
    ensures OnlyEntry(g, v, v1, i) && OnlyEntry(g, v, v2, i)
    ensures Raw(g, v2, i) == Encode(Fat12, c)
  {
    hide FatByte, Masked, Bpb.Fits, OnlyEntry, Decode;
    var o := i / 2 * 3;
    if i % 2 == 1 {
      Store12Half(g, v, v1, i, o + 1, c % 16 * 16, High);
      Store12Half(g, v1, v2, i, o + 2, c % 0x1000 / 16, Full);
      Nibbles(FatByte(g, v, o + 1), c % 16 * 16);
      Nibbles(FatByte(g, v1, o + 2), c % 0x1000 / 16);
    } else {
      Store12Half(g, v, v1, i, o, c % 256, Full);
      Store12Half(g, v1, v2, i, o + 1, c % 0x1000 / 256, Low);
      Nibbles(FatByte(g, v, o), c % 256);
      Nibbles(FatByte(g, v1, o + 1), c % 0x1000 / 256);
    }
    Twelve(c);
    OnlyEntryTwice(g, v, v1, v2, i);
  }

  lemma Twelve(c: Cluster)
    ensures c % 0x1000 / 16 * 16 + c % 16 * 16 / 16 == c % 0x1000
    ensures c % 0x1000 / 256 * 256 + c % 256 == c % 0x1000 && c % 0x1000 / 256 % 16 == c % 0x1000 / 256
  {
    var x := c % 0x1000;
    assert c == c / 0x1000 * 0x1000 + x;
    LowBits(c, x, 16, 256);
    LowBits(c, x, 256, 16);
  }

  lemma LowBits(c: nat, x: nat, n: nat, m: nat)
    requires n * m == 0x1000 && 0 < n && x == c % 0x1000
    ensures c % n == x % n && x / n * n + x % n == x && 0 <= x / n < m
  {
    assert c == c / 0x1000 * (n * m) + x == (c / 0x1000 * m + x / n) * n + x % n;
    DivModUnique(c, n, c / 0x1000 * m + x / n, x % n);
    DivLess(x, m, n);
  }

  lemma OnlyEntryTwice(g: Bpb, v: seq<Block>, v1: seq<Block>, v2: seq<Block>, i: nat)
    requires Volume(g, v) && OnlyEntry(g, v, v1, i) && OnlyEntry(g, v1, v2, i)
    ensures OnlyEntry(g, v, v2, i)
  {
  }

  method ReadFat12(uf: Ufat, index: nat) returns (r: Result<Cluster>)
    requires uf.Valid() && Volume(uf.bpb, uf.view) && uf.bpb.fatType == Fat12 && index < uf.bpb.numClusters
    modifies uf.Objects()
    ensures uf.Valid() && uf.view == old(uf.view) && uf.allocPtr == old(uf.allocPtr)
    ensures old(uf.dev.failures) <= uf.dev.failures
    ensures r.Err? ==> r.error == IoError && old(uf.dev.failures) < uf.dev.failures
    ensures r.Ok? ==> r.value == Entry(uf.bpb, uf.view, index)
  {
    hide FatByte, Bpb.Fits, Ufat.CoherentBut;
    InRange12(uf.bpb, index);
    var offset := index / 2 * 3;
    var a := ReadFatByte(uf, offset + 1);
    if a.Err? {
      return Err(a.error);
    }
    var x: nat, raw: nat := a.value, 0;
    if index % 2 == 1 {
      var b := ReadFatByte(uf, offset + 2);
      if b.Err? {
        return Err(b.error);
      }
      raw := b.value;
      raw := raw * 16 + x / 16;
    } else {
      var b := ReadFatByte(uf, offset);
      if b.Err? {
        return Err(b.error);
      }
      raw := b.value;
      raw := raw + x % 16 * 256;
    }
    r := Ok(Decode(Fat12, raw));
  }

  method WriteFat12(uf: Ufat, index: nat, c: Cluster) returns (r: Result<()>)
    requires uf.Valid() && Volume(uf.bpb, uf.view) && uf.bpb.fatType == Fat12 && index < uf.bpb.numClusters
    modifies uf.Objects()
    ensures uf.Valid() && uf.allocPtr == old(uf.allocPtr)
    ensures old(uf.dev.failures) <= uf.dev.failures
    ensures r.Err? ==> r.error == IoError && old(uf.dev.failures) < uf.dev.failures
    ensures OnlyEntry(uf.bpb, old(uf.view), uf.view, index)
    ensures r.Ok? ==> Raw(uf.bpb, uf.view, index) == Encode(Fat12, c)
  {
    hide FatByte, Bpb.Fits, Ufat.CoherentBut, Masked, Raw, Decode, Encode;
    InRange12(uf.bpb, index);
    ghost var g, v := uf.bpb, uf.view;
    var offset := index / 2 * 3;
    if index % 2 == 1 {
      r := WriteFatByte(uf, offset + 1, c % 16 * 16, High);
      if r.Err? {
        return;
      }
      ghost var v1 := uf.view;
      Store12Half(g, v, v1, index, offset + 1, c % 16 * 16, High);
      r := WriteFatByte(uf, offset + 2, c % 0x1000 / 16, Full);
      if r.Ok? {
        Store12(g, v, v1, uf.view, index, c);
      }
    } else {
      r := WriteFatByte(uf, offset, c % 256, Full);
      if r.Err? {
        return;
      }
      ghost var v1 := uf.view;
      Store12Half(g, v, v1, index, offset, c % 256, Full);
      r := WriteFatByte(uf, offset + 1, c % 0x1000 / 256, Low);
      if r.Ok? {
        Store12(g, v, v1, uf.view, index, c);
      }
    }
  }

  /** Entry `i` of `w` bytes lies whole inside one block, at the place the source computes. */
  lemma EntryPlace(bs: nat, i: nat, w: nat, k: nat)
    requires k < w && 0 < bs && bs % w == 0
    ensures bs / w > 0 && 0 <= i / (bs / w) && 0 <= i % (bs / w) * w <= bs - w
    ensures (w * i + k) / bs == i / (bs / w) && (w * i + k) % bs == i % (bs / w) * w + k
  {
    var n := bs / w;
    assert bs == n * w;
    if n == 0 {
      assert false;
    }
    var q, r := i / n, i % n;
    assert i == q * n + r;
    MulMono(r + 1, n, w);
    assert (r + 1) * w == r * w + w;
    Regroup(w, q, n, r);
    DivModUnique(w * i + k, bs, q, r * w + k);
  }

  lemma Regroup(w: int, q: int, n: int, r: int)
    ensures w * (q * n + r) == q * (n * w) + r * w
  {
    assert w * (q * n) == q * (n * w);
  }

  lemma WideBound(g: Bpb, i: nat, w: nat)
    requires FatUsable(g) && i < g.numClusters
    requires w == if g.fatType == Fat16 then 2 else 4
    requires g.fatType != Fat12 && 512 <= g.blockSize && g.blockSize % 32 == 0
    ensures w * i + w <= g.fatSize * g.blockSize && g.blockSize % w == 0
  {
    assert g.blockSize == g.blockSize / 32 * 32;
  }

  /** A byte of the FAT by its block and its place there. */
  lemma WideByte(g: Bpb, v: seq<Block>, x: nat, q: nat, r: nat)
    requires Volume(g, v) && x < g.fatSize * g.blockSize && q == x / g.blockSize && r == x % g.blockSize
    ensures g.InFat(g.fatStart + q) && FatByte(g, v, x) == v[g.fatStart + q][r]
  {
    FatBlock(g, x);
  }

  /** The bytes of a wide entry, where the source finds them. */
  lemma WideEntry(g: Bpb, v: seq<Block>, i: nat, w: nat)
    requires Volume(g, v) && i < g.numClusters
    requires w == if g.fatType == Fat16 then 2 else 4
    requires g.fatType != Fat12
    ensures g.blockSize / w > 0 && w * i + w <= g.fatSize * g.blockSize
    ensures var b, r := g.fatStart + i / (g.blockSize / w), i % (g.blockSize / w) * w;
            && g.InFat(b) && b < |v| && r + w <= g.blockSize
            && w * i / g.blockSize == i / (g.blockSize / w) && w * i % g.blockSize == r
            && FatByte(g, v, w * i) == v[b][r] && FatByte(g, v, w * i + 1) == v[b][r + 1]
            && (w == 4 ==> FatByte(g, v, w * i + 2) == v[b][r + 2] && FatByte(g, v, w * i + 3) == v[b][r + 3])
  {
    var bs, o := g.blockSize, w * i;
    WideBound(g, i, w);
    EntryPlace(bs, i, w, 0);
    EntryPlace(bs, i, w, 1);
    if w == 4 {
      EntryPlace(bs, i, w, 2);
      EntryPlace(bs, i, w, 3);
    }
    var q, r := i / (bs / w), i % (bs / w) * w;
    WidePlace(g, v, o, w, q, r);
    hide FatByte, Volume, FatUsable;
  }

  lemma WidePlace(g: Bpb, v: seq<Block>, o: nat, w: nat, q: nat, r: nat)
    requires Volume(g, v) && (w == 2 || w == 4) && o + w <= g.fatSize * g.blockSize
    requires o / g.blockSize == q && o % g.blockSize == r && (o + 1) / g.blockSize == q
    requires (o + 1) % g.blockSize == r + 1
    requires w == 4 ==> (o + 2) / g.blockSize == q && (o + 2) % g.blockSize == r + 2
                        && (o + 3) / g.blockSize == q && (o + 3) % g.blockSize == r + 3
    ensures var b := g.fatStart + q;
            && g.InFat(b) && b < |v| && r + w <= g.blockSize
            && FatByte(g, v, o) == v[b][r] && FatByte(g, v, o + 1) == v[b][r + 1]
            && (w == 4 ==> FatByte(g, v, o + 2) == v[b][r + 2] && FatByte(g, v, o + 3) == v[b][r + 3])
  {
    WideByte(g, v, o, q, r);
    WideByte(g, v, o + 1, q, r + 1);
    if w == 4 {
      WideByte(g, v, o + 2, q, r + 2);
      WideByte(g, v, o + 3, q, r + 3);
    }
    hide FatByte;
  }

  /** Storing a whole 16-bit or 32-bit entry. */
  lemma Store16(g: Bpb, v: seq<Block>, v': seq<Block>, i: nat, c: Cluster)
    requires Volume(g, v) && g.fatType == Fat16 && i < g.numClusters
    requires BytesSet(g, v, v', 2 * i, W16(c % 0x1_0000))
    ensures OnlyEntry(g, v, v', i) && Raw(g, v', i) == Encode(Fat16, c)
  {
    hide FatByte, Bpb.Fits, W16, Decode;
  }

  lemma Store32(g: Bpb, v: seq<Block>, v': seq<Block>, i: nat, c: Cluster)
    requires Volume(g, v) && g.fatType == Fat32 && i < g.numClusters
    requires BytesSet(g, v, v', 4 * i, W32(c))
    ensures OnlyEntry(g, v, v', i) && Raw(g, v', i) == Encode(Fat32, c)
  {
    hide FatByte, Bpb.Fits, W32, Decode;
    var b := W32(c);
    assert R32(b, 0) == c;
  }

  /** The four bits of a FAT32 entry that are not part of the cluster number. */
  ghost function ReservedBits(g: Bpb, v: seq<Block>, i: nat): nat
    requires Volume(g, v) && g.fatType == Fat32 && i < g.numClusters
  {
    WideEntry(g, v, i, 4);
    FatByte(g, v, 4 * i + 3) / 16
  }

  /** Storing an entry overwrites them with the high bits of the value. */
  lemma ReservedBitsStored(g: Bpb, v: seq<Block>, v': seq<Block>, i: nat, c: Cluster)
    requires Volume(g, v) && g.fatType == Fat32 && i < g.numClusters
    requires BytesSet(g, v, v', 4 * i, W32(c))
    ensures forall j: nat | j < g.numClusters ::
              ReservedBits(g, v', j) == if j == i then c / 0x1000_0000 else ReservedBits(g, v, j)
  {
    var b := W32(c);
    assert R32(b, 0) == c;
    forall j: nat | j < g.numClusters
      ensures ReservedBits(g, v', j) == if j == i then c / 0x1000_0000 else ReservedBits(g, v, j)
    {
      WideEntry(g, v, j, 4);
      hide FatByte, Bpb.Fits, W32;
    }
  }

  /** They survive exactly when they already were the high bits of the value; for every value below 2^28, which is all
      that is ever stored, exactly when they were 0. */
  lemma ReservedBitsSurvive(g: Bpb, v: seq<Block>, v': seq<Block>, i: nat, c: Cluster)
    requires Volume(g, v) && g.fatType == Fat32 && i < g.numClusters
    requires BytesSet(g, v, v', 4 * i, W32(c))
    ensures ReservedBits(g, v', i) == ReservedBits(g, v, i) <==> ReservedBits(g, v, i) == c / 0x1000_0000
    ensures c < 0x1000_0000 ==> (ReservedBits(g, v', i) == ReservedBits(g, v, i) <==> ReservedBits(g, v, i) == 0)
  {
    ReservedBitsStored(g, v, v', i, c);
    hide ReservedBits, W32;
  }

  method ReadFat16(uf: Ufat, index: nat) returns (r: Result<Cluster>)
    requires uf.Valid() && Volume(uf.bpb, uf.view) && uf.bpb.fatType == Fat16 && index < uf.bpb.numClusters
    modifies uf.Objects()
    ensures uf.Valid() && uf.view == old(uf.view) && uf.allocPtr == old(uf.allocPtr)
    ensures old(uf.dev.failures) <= uf.dev.failures
    ensures r.Err? ==> r.error == IoError && old(uf.dev.failures) < uf.dev.failures
    ensures r.Ok? ==> r.value == Entry(uf.bpb, uf.view, index)
  {
    hide FatByte, Bpb.Fits, Ufat.CoherentBut, Decode, Encode;
    var perBlock := uf.bpb.blockSize / 2;
    WideEntry(uf.bpb, uf.view, index, 2);
    var i := uf.Open(uf.bpb.fatStart + index / perBlock, false);
    if i.Err? {
      return Err(i.error);
    }
    var raw := R16(uf.cacheData[i.value], index % perBlock * 2);
    assert raw == Raw(uf.bpb, uf.view, index);
    r := Ok(Decode(Fat16, raw));
  }

  method ReadFat32(uf: Ufat, index: nat) returns (r: Result<Cluster>)
    requires uf.Valid() && Volume(uf.bpb, uf.view) && uf.bpb.fatType == Fat32 && index < uf.bpb.numClusters
    modifies uf.Objects()
    ensures uf.Valid() && uf.view == old(uf.view) && uf.allocPtr == old(uf.allocPtr)
    ensures old(uf.dev.failures) <= uf.dev.failures
    ensures r.Err? ==> r.error == IoError && old(uf.dev.failures) < uf.dev.failures
    ensures r.Ok? ==> r.value == Entry(uf.bpb, uf.view, index)
  {
    hide FatByte, Bpb.Fits, Ufat.CoherentBut, Decode, Encode;
    var perBlock := uf.bpb.blockSize / 4;
    WideEntry(uf.bpb, uf.view, index, 4);
    var i := uf.Open(uf.bpb.fatStart + index / perBlock, false);
    if i.Err? {
      return Err(i.error);
    }
    var raw := R32(uf.cacheData[i.value], index % perBlock * 4) % 0x1000_0000;
    assert raw == Raw(uf.bpb, uf.view, index);
    r := Ok(Decode(Fat32, raw));
  }

  method WriteFat16(uf: Ufat, index: nat, c: Cluster) returns (r: Result<()>)
    requires uf.Valid() && Volume(uf.bpb, uf.view) && uf.bpb.fatType == Fat16 && index < uf.bpb.numClusters
    modifies uf.Objects()
    ensures uf.Valid() && uf.allocPtr == old(uf.allocPtr)
    ensures old(uf.dev.failures) <= uf.dev.failures
    ensures r.Err? ==> r.error == IoError && old(uf.dev.failures) < uf.dev.failures
    ensures OnlyEntry(uf.bpb, old(uf.view), uf.view, index)
    ensures r.Ok? ==> Raw(uf.bpb, uf.view, index) == Encode(Fat16, c)
  {
    hide FatByte, Bpb.Fits, Ufat.CoherentBut, Decode, Encode;
    var perBlock := uf.bpb.blockSize / 2;
    WideEntry(uf.bpb, uf.view, index, 2);
    var i := uf.Open(uf.bpb.fatStart + index / perBlock, false);
    if i.Err? {
      return Err(i.error);
    }
    PatchSetsBytes(uf.bpb, uf.view, 2 * index, W16(c % 0x1_0000));
    uf.WriteCached(i.value, index % perBlock * 2, W16(c % 0x1_0000));
    Store16(uf.bpb, old(uf.view), uf.view, index, c);
    r := Ok(());
  }

  method WriteFat32(uf: Ufat, index: nat, c: Cluster) returns (r: Result<()>)
    requires uf.Valid() && Volume(uf.bpb, uf.view) && uf.bpb.fatType == Fat32 && index < uf.bpb.numClusters
    modifies uf.Objects()
    ensures uf.Valid() && uf.allocPtr == old(uf.allocPtr)
    ensures old(uf.dev.failures) <= uf.dev.failures
    ensures r.Err? ==> r.error == IoError && old(uf.dev.failures) < uf.dev.failures
    ensures OnlyEntry(uf.bpb, old(uf.view), uf.view, index)
    ensures r.Ok? ==> Raw(uf.bpb, uf.view, index) == Encode(Fat32, c)
    ensures r.Ok? ==>
              forall j: nat | j < uf.bpb.numClusters ::
                ReservedBits(uf.bpb, uf.view, j)
                == if j == index then c / 0x1000_0000 else ReservedBits(uf.bpb, old(uf.view), j)
  {
    hide FatByte, Bpb.Fits, Ufat.CoherentBut, Decode, Encode, ReservedBits;
    var perBlock := uf.bpb.blockSize / 4;
    WideEntry(uf.bpb, uf.view, index, 4);
    var i := uf.Open(uf.bpb.fatStart + index / perBlock, false);
    if i.Err? {
      return Err(i.error);
    }
    PatchSetsBytes(uf.bpb, uf.view, 4 * index, W32(c));
    uf.WriteCached(i.value, index % perBlock * 4, W32(c));
    Store32(uf.bpb, old(uf.view), uf.view, index, c);
    ReservedBitsStored(uf.bpb, old(uf.view), uf.view, index, c);
    r := Ok(());
  }

  /** ufat_read_fat: reads one element of `FatOf`. */
  method ReadFat(uf: Ufat, index: Cluster) returns (r: Result<Cluster>)
    requires uf.Valid() && Volume(uf.bpb, uf.view)
    modifies uf.Objects()
    ensures uf.Valid() && uf.view == old(uf.view) && uf.allocPtr == old(uf.allocPtr)
    ensures old(uf.dev.failures) <= uf.dev.failures
    ensures r == Err(InvalidCluster) <==> uf.bpb.numClusters <= index
    ensures r.Err? && r.error != InvalidCluster ==> r.error == IoError && old(uf.dev.failures) < uf.dev.failures
    ensures r.Ok? ==> index < uf.bpb.numClusters && r.value == FatOf(uf.bpb, uf.view)[index]
    ensures r.Ok? ==> Means(uf.bpb.fatType, Raw(uf.bpb, uf.view, index), r.value)
  {
    if index >= uf.bpb.numClusters {
      return Err(InvalidCluster);
    }
    EntryMeans(uf.bpb, uf.view, index);
    hide Means, Raw, Decode;
    match uf.bpb.fatType
    case Fat12 => r := ReadFat12(uf, index);
    case Fat16 => r := ReadFat16(uf, index);
    case Fat32 => r := ReadFat32(uf, index);
  }

  /** ufat_write_fat: updates one element of `FatOf`. When the device refuses, the entry may hold anything,
      because a FAT12 entry can be written by halves; every other entry is still unchanged. */
  method WriteFat(uf: Ufat, index: Cluster, c: Cluster) returns (r: Result<()>)
    requires uf.Valid() && Volume(uf.bpb, uf.view)
    modifies uf.Objects()
    ensures uf.Valid() && Volume(uf.bpb, uf.view) && uf.allocPtr == old(uf.allocPtr)
    ensures old(uf.dev.failures) <= uf.dev.failures
    ensures r == Err(InvalidCluster) <==> uf.bpb.numClusters <= index
    ensures r == Err(InvalidCluster) ==> uf.view == old(uf.view)
    ensures r.Err? && r.error != InvalidCluster ==> r.error == IoError && old(uf.dev.failures) < uf.dev.failures
    ensures SameOutsideFat(uf.bpb, old(uf.view), uf.view)
    ensures r.Ok? && uf.bpb.fatType == Fat32 ==> ReservedBits(uf.bpb, uf.view, index) == c / 0x1000_0000
    ensures forall j | 0 <= j < uf.bpb.numClusters && j != index ::
              FatOf(uf.bpb, uf.view)[j] == FatOf(uf.bpb, old(uf.view))[j]
    ensures r.Ok? ==>
              index < uf.bpb.numClusters
              && FatOf(uf.bpb, uf.view)
                 == FatOf(uf.bpb, old(uf.view))[index := Decode(uf.bpb.fatType, Encode(uf.bpb.fatType, c))]
    ensures r.Ok? ==> Raw(uf.bpb, uf.view, index) == Encode(uf.bpb.fatType, c)
  {
    if index >= uf.bpb.numClusters {
      return Err(InvalidCluster);
    }
    hide Raw, Decode;
    match uf.bpb.fatType {
      case Fat12 => r := WriteFat12(uf, index, c);
      case Fat16 => r := WriteFat16(uf, index, c);
      case Fat32 => r := WriteFat32(uf, index, c);
    }
  }
}
