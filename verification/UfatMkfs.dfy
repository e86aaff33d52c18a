/** Making a file system and opening it (mysh/fs/ufat_mkfs.c, and parse_bpb of mysh/fs/ufat.c): what is written for a
    device of a given size is what is read back, it fits, and its table is free.

    Sizes that the source keeps as base-2 logarithms are kept as such here, since the boot sector is made from them. */
module UfatMkfs {
  import opened Integers
  import opened Arith
  import opened UfatCache
  import opened UfatFat

  // ---- the layout ----

  datatype Layout = Layout(
    log2SectorSize: nat, log2Bpc: nat,
    reservedBlocks: int, rootBlocks: int, fatBlocks: int, logicalBlocks: int,
    clusters: int, fatType: FatType)

  const U32: nat := 0x1_0000_0000
  const U64: nat := 0x1_0000_0000_0000_0000

  /** `x << k` and `x >> k` */
  function Shl(x: nat, k: nat): nat { x * Pow2(k) }

  function Shr(x: nat, k: nat): nat {
    Quotient(x, Pow2(k));
    x / Pow2(k)
  }

  lemma NoShift(x: nat)
    ensures Shl(x, 0) == x && Shr(x, 0) == x && Shl(x, 4) == x * 16
  {
    assert Pow2(0) == 1 && Pow2(4) == 16;
  }

  function Sub64(a: int, b: int): (r: nat)
    ensures 0 <= a - b < U64 ==> r == a - b
  {
    (a - b) % U64
  }

  /** The choice of fatgen103, "FAT Volume Initialization". */
  function TypeFor(sectors: nat): FatType {
    if sectors < 8400 then Fat12 else if sectors < 1048576 then Fat16 else Fat32
  }

  function Threshold(t: FatType): nat {
    match t
    case Fat12 => 0x1000
    case Fat16 => 0x1_0000
    case Fat32 => 2097152
  }

  function FirstSpc(t: FatType): nat {
    if t == Fat32 then 3 else 1
  }

  /** The loop that enlarges the clusters. */
  function GrowSpc(sectors: nat, threshold: nat, log2SectorSize: nat, spc: nat): (r: nat)
    decreases 7 - spc
  {
    if spc < 7 && log2SectorSize + spc < 15 && Shr(sectors, spc) > threshold
    then GrowSpc(sectors, threshold, log2SectorSize, spc + 1)
    else spc
  }

  function BytesToBlocks(log2BlockSize: nat, bytes: nat): nat {
    (bytes + Pow2(log2BlockSize) - 1) / Pow2(log2BlockSize)
  }

  /** What write_bpb needs of a layout. */
  predicate Storable(fl: Layout, log2BlockSize: nat) {
    && log2BlockSize <= fl.log2SectorSize && fl.log2SectorSize - log2BlockSize <= fl.log2Bpc
    && 0 <= fl.reservedBlocks && 0 <= fl.rootBlocks && 0 <= fl.fatBlocks && 0 <= fl.logicalBlocks && 0 <= fl.clusters
  }

  /** calculate_layout, with the wrap-around of its unsigned types. */
  method CalculateLayout(blocks: nat, log2BlockSize: nat) returns (r: Result<Layout>)
    requires blocks < U64
    ensures r.Err? <==> log2BlockSize > 12
    ensures r.Err? ==> r.error == BlockSizeError
    ensures r.Ok? ==> Storable(r.value, log2BlockSize)
    ensures log2BlockSize == 9 && SMALLEST <= blocks < U32 ==> r == Ok(LayoutOf(blocks))
  {
    if log2BlockSize > 12 {
      return Err(BlockSizeError);
    }
    hide *;
    NoShift(blocks);
    SmallSectors(blocks);
    var log2Bps, nblk := SectorSize(blocks, log2BlockSize);
    var log2SectorSize := log2BlockSize + log2Bps;
    var nsect := Shr(nblk, log2Bps) % U32;
    var fatType := TypeFor(nsect);
    var log2Spc := ClusterSize(nsect, fatType, log2SectorSize);
    UsualSpc(nsect);
    var fl := SizeRegions(nblk, log2BlockSize, log2Bps, log2Spc, fatType);
    r := Ok(fl);
  }

  /** The loop that enlarges the sectors, and the number of blocks that it leaves. */
  method SectorSize(blocks: nat, log2BlockSize: nat) returns (log2Bps: nat, nblk: nat)
    requires blocks < U64 && log2BlockSize <= 12
    ensures nblk < U64
    ensures log2BlockSize == 9 && blocks < U32 ==> log2Bps == 0 && nblk == blocks
  {
    NoShift(blocks);
    hide Pow2, Shl, Shr;
    nblk := blocks;
    log2Bps := if log2BlockSize < 9 then 9 - log2BlockSize else 0;
    while log2BlockSize + log2Bps < 12 && Shr(nblk, log2Bps) > U32 - 1
      invariant log2BlockSize == 9 && blocks < U32 ==> log2Bps == 0
      invariant log2BlockSize + log2Bps <= 12
      decreases 12 - log2Bps
    {
      log2Bps := log2Bps + 1;
    }
    if Shr(nblk, log2Bps) > U32 - 1 {
      LargestShift(log2Bps);
      nblk := Shl(U32 - 1, log2Bps);
    }
  }

  lemma LargestShift(k: nat)
    requires k <= 12
    ensures Shl(U32 - 1, k) < U64
  {
    Pow2Mono(k, 12);
    assert Pow2(12) == 4096;
    MulMono(Pow2(k), 4096, U32 - 1);
  }

  /** The loop that enlarges the clusters. */
  method ClusterSize(nsect: nat, fatType: FatType, log2SectorSize: nat) returns (log2Spc: nat)
    ensures log2Spc == GrowSpc(nsect, Threshold(fatType), log2SectorSize, FirstSpc(fatType))
  {
    hide Shr, Pow2;
    log2Spc := FirstSpc(fatType);
    while log2Spc < 7 && log2SectorSize + log2Spc < 15 && Shr(nsect, log2Spc) > Threshold(fatType)
      invariant GrowSpc(nsect, Threshold(fatType), log2SectorSize, log2Spc)
             == GrowSpc(nsect, Threshold(fatType), log2SectorSize, FirstSpc(fatType))
      decreases 7 - log2Spc
    {
      log2Spc := log2Spc + 1;
    }
  }

  lemma SmallSectors(n: nat)
    ensures Shr(n, 0) == n && (n < U32 ==> n % U32 == n)
  {
    NoShift(n);
  }

  lemma UsualSpc(n: nat)
    ensures SpcFor(n) == GrowSpc(n, Threshold(TypeFor(n)), 9, FirstSpc(TypeFor(n)))
  {
  }

  /** The clusters, with the two reserved entries, that a number of blocks has room for, and the blocks that they
      take. */
  function ClustersIn(blocks: nat, bpc: nat): nat
    requires 0 < bpc
  {
    (blocks / bpc + 2) % U32
  }

  function DataBlocks(clusters: nat, bpc: nat): nat {
    (clusters - 2) % U32 * bpc % U32
  }

  /** The second half of calculate_layout. */
  method SizeRegions(nblk: nat, log2BlockSize: nat, log2Bps: nat, log2Spc: nat, fatType: FatType) returns (fl: Layout)
    requires nblk < U64
    ensures Storable(fl, log2BlockSize)
    ensures log2BlockSize == 9 && SMALLEST <= nblk < U32 && log2Bps == 0 && fatType == TypeFor(nblk)
              && log2Spc == SpcFor(nblk)
            ==> fl == LayoutOf(nblk)
  {
    NoShift(Reserved(fatType));
    SmallPowers();
    hide Pow2, Shl, ClustersIn, DataBlocks, FatBytes, LayoutOf, SpcFor;
    ghost var usual := log2BlockSize == 9 && SMALLEST <= nblk < U32 && log2Bps == 0
                       && fatType == TypeFor(nblk) && log2Spc == SpcFor(nblk);
    var log2Bpc := log2Bps + log2Spc;
    var bpc := Pow2(log2Bpc);
    var reserved := Shl(Reserved(fatType), log2Bps);
    var estClusters := ClustersIn(Sub64(nblk, reserved), bpc);
    var fatBytes := FatBytes(fatType, estClusters) % U32;
    var fat := BytesToBlocks(log2BlockSize, fatBytes);
    var root := if fatType == Fat32 then 0 else BytesToBlocks(log2BlockSize, 16384);
    assert usual ==> reserved == Reserved(fatType) && root == LeastRoot(fatType);
    var clusters := ClustersIn(Sub64(nblk, reserved + root + fat * 2), bpc);
    var data := DataBlocks(clusters, bpc);
    if fatType != Fat32 {
      root := Sub64(nblk, reserved + fat * 2 + data);
    }
    var logical: nat := (data + fat * 2 + reserved + root) % U64;
    hide BytesToBlocks, Sub64;
    fl := Layout(log2BlockSize + log2Bps, log2Bpc, reserved, root, fat, logical, clusters, fatType);
    if usual {
      NoWrap(nblk, bpc, fat, clusters, data, root, logical);
    }
  }

  /** The smallest device that has room for the tables and the root directory. */
  const SMALLEST: nat := 35

  function Reserved(t: FatType): nat { if t == Fat32 then 32 else 1 }

  function LeastRoot(t: FatType): nat { if t == Fat32 then 0 else 32 }

  function SpcFor(n: nat): nat {
    GrowSpc(n, Threshold(TypeFor(n)), 9, FirstSpc(TypeFor(n)))
  }

  /** Blocks of one FAT, for clusters of `bpc` blocks. */
  function FatFor(t: FatType, n: nat, bpc: nat): int
    requires 0 < bpc && SMALLEST <= n
  {
    (FatBytes(t, (n - Reserved(t)) / bpc + 2) + 511) / 512
  }

  function ClustersFor(t: FatType, n: nat, bpc: nat): int
    requires 0 < bpc && SMALLEST <= n
  {
    (n - Reserved(t) - LeastRoot(t) - 2 * FatFor(t, n, bpc)) / bpc + 2
  }

  /** The layout of a device of 512-byte blocks, in exact arithmetic. */
  function LayoutOf(n: nat): Layout
    requires SMALLEST <= n
  {
    var t, bpc := TypeFor(n), Pow2(SpcFor(n));
    var fat, clusters := FatFor(t, n, bpc), ClustersFor(t, n, bpc);
    var data := (clusters - 2) * bpc;
    var root := if t == Fat32 then 0 else n - Reserved(t) - 2 * fat - data;
    Layout(9, SpcFor(n), Reserved(t), root, fat, data + 2 * fat + Reserved(t) + root, clusters, t)
  }

  lemma {:induction false} GrowBound(n: nat, threshold: nat, spc: nat)
    requires spc <= 6
    ensures var s := GrowSpc(n, threshold, 9, spc);
            spc <= s <= 6 && (s < 6 ==> n / Pow2(s) <= threshold) && (spc < s ==> n / Pow2(s - 1) > threshold)
    decreases 7 - spc
  {
    if spc < 6 && n / Pow2(spc) > threshold {
      GrowBound(n, threshold, spc + 1);
    }
  }

  lemma SmallPowers()
    ensures Pow2(0) == 1 && Pow2(1) == 2 && Pow2(2) == 4 && Pow2(3) == 8 && Pow2(4) == 16 && Pow2(5) == 32
    ensures Pow2(6) == 64
    ensures Pow2(9) == 512
  {
  }

  /** The cluster sizes that are chosen, with the bounds that the choice leaves for the device. */
  lemma BpcFor(n: nat)
    requires n < U32
    ensures 1 <= SpcFor(n) <= 6
    ensures var bpc := Pow2(SpcFor(n));
            match TypeFor(n)
            case Fat12 => (bpc == 2 && n <= 8193) || bpc == 4
            case Fat16 => (bpc == 2 && n < 131074) || (bpc == 4 && 131074 <= n < 262148)
                          || (bpc == 8 && 262148 <= n < 524296) || (bpc == 16 && 524296 <= n)
            case Fat32 => ((bpc == 8 || bpc == 16 || bpc == 32) && n / bpc <= 2097152) || bpc == 64
  {
    var t := TypeFor(n);
    SmallPowers();
    GrowBound(n, Threshold(t), FirstSpc(t));
    hide GrowSpc, Pow2;
  }

  /** The FAT type and the cluster size for each size of a device, in blocks of 512 bytes. */
  lemma SizeTable(n: nat)
    requires n < U32
    ensures (TypeFor(n), Pow2(SpcFor(n)))
         == if n < 8194 then (Fat12, 2) else if n < 8400 then (Fat12, 4)
            else if n < 131074 then (Fat16, 2) else if n < 262148 then (Fat16, 4)
            else if n < 524296 then (Fat16, 8) else if n < 1048576 then (Fat16, 16)
            else if n < 16777224 then (Fat32, 8) else if n < 33554448 then (Fat32, 16)
            else if n < 67108896 then (Fat32, 32) else (Fat32, 64)
  {
    var t := TypeFor(n);
    SmallPowers();
    GrowBound(n, Threshold(t), FirstSpc(t));
    hide GrowSpc, Pow2;
  }

  /** How many bytes into the FAT the last byte of an entry is. */
  function LastByte(t: FatType, i: nat): nat {
    match t
    case Fat12 => i / 2 * 3 + 1 + i % 2
    case Fat16 => 2 * i + 1
    case Fat32 => 4 * i + 3
  }

  /** The bytes of a table end with those of its last entry. */
  lemma TableBytes(t: FatType, n: nat)
    requires 0 < n
    ensures FatBytes(t, n) == LastByte(t, n - 1) + 1
  {
  }

  /** Room is rounded up to blocks. */
  lemma LeastBlocks(bytes: nat)
    ensures var k := BytesToBlocks(9, bytes); bytes <= k * 512 < bytes + 512
  {
    SmallPowers();
  }

  /** No block is wasted: there are 32 or 1 reserved blocks, the FAT is the smallest that has an entry for every cluster
      that could lie behind them, the rest holds as many clusters as possible, and for FAT12 and FAT16 the root
      directory takes what is left. */
  lemma LayoutTight(n: nat)
    requires SMALLEST <= n < U32
    ensures var fl, bpc := LayoutOf(n), Pow2(SpcFor(n));
            && fl.reservedBlocks == (if fl.fatType == Fat32 then 32 else 1)
            && (var entries := (n - fl.reservedBlocks) / bpc + 2;
                LastByte(fl.fatType, entries - 1) < fl.fatBlocks * 512 <= LastByte(fl.fatType, entries - 1) + 512)
            && n - bpc < fl.logicalBlocks <= n && (fl.fatType != Fat32 ==> fl.logicalBlocks == n)
            && fl.logicalBlocks == fl.reservedBlocks + 2 * fl.fatBlocks + fl.rootBlocks + (fl.clusters - 2) * bpc
            && (fl.fatType == Fat32 ==> fl.rootBlocks == 0) && (fl.fatType != Fat32 ==> 32 <= fl.rootBlocks < 32 + bpc)
  {
    var t, bpc := TypeFor(n), Pow2(SpcFor(n));
    RootFits(n);
    TableBytes(t, (n - Reserved(t)) / bpc + 2);
    hide SpcFor, Pow2, TypeFor;
    Quotient(n - Reserved(t) - LeastRoot(t) - 2 * FatFor(t, n, bpc), bpc);
    hide FatBytes, LastByte;
  }

  /** The parts of the layout: nothing overlaps or wraps around, the FAT has an entry for every cluster, and the number
      of clusters tells the type. */
  ghost predicate Sound(t: FatType, n: nat, bpc: nat)
    requires 0 < bpc && SMALLEST <= n
  {
    var fat, clusters := FatFor(t, n, bpc), ClustersFor(t, n, bpc);
    && 1 <= fat && 2 <= clusters && (t == Fat32 ==> 3 <= clusters) && (t != Fat32 ==> fat <= 0xffff)
    && Reserved(t) + LeastRoot(t) + 2 * fat <= n
    && FatBytes(t, (n - Reserved(t)) / bpc + 2) < U32 && (n - Reserved(t)) / bpc + 2 < U32
    && FatBytes(t, clusters) <= 512 * fat && clusters <= MaxClusters(t)
    && (t == Fat16 ==> 0xff6 < clusters)
  }

  lemma LayoutSound(n: nat)
    requires SMALLEST <= n < U32
    ensures Sound(TypeFor(n), n, Pow2(SpcFor(n)))
  {
    BpcFor(n);
    hide SpcFor, Pow2;
    match TypeFor(n)
    case Fat12 => Sound12(n, Pow2(SpcFor(n)));
    case Fat16 => Sound16(n, Pow2(SpcFor(n)));
    case Fat32 => Sound32(n, Pow2(SpcFor(n)));
  }

  lemma Sound12(n: nat, bpc: nat)
    requires SMALLEST <= n < 8400 && ((bpc == 2 && n <= 8193) || bpc == 4)
    ensures Sound(Fat12, n, bpc)
  {
  }

  lemma Sound16(n: nat, bpc: nat)
    requires 8400 <= n < 1048576
    requires (bpc == 2 && n < 131074) || (bpc == 4 && 131074 <= n < 262148)
             || (bpc == 8 && 262148 <= n < 524296) || (bpc == 16 && 524296 <= n)
    ensures Sound(Fat16, n, bpc)
  {
    if bpc == 2 {
      Sound16By2(n);
    } else if bpc == 4 {
      Sound16By4(n);
    } else if bpc == 8 {
      Sound16By8(n);
    } else {
      Sound16By16(n);
    }
  }

  lemma Sound16By2(n: nat)
    requires 8400 <= n < 131074
    ensures Sound(Fat16, n, 2)
  {
  }

  lemma Sound16By4(n: nat)
    requires 131074 <= n < 262148
    ensures Sound(Fat16, n, 4)
  {
  }

  lemma Sound16By8(n: nat)
    requires 262148 <= n < 524296
    ensures Sound(Fat16, n, 8)
  {
  }

  lemma Sound16By16(n: nat)
    requires 524296 <= n < 1048576
    ensures Sound(Fat16, n, 16)
  {
  }

  lemma Sound32(n: nat, bpc: nat)
    requires 1048576 <= n < U32
    requires ((bpc == 8 || bpc == 16 || bpc == 32) && n / bpc <= 2097152) || bpc == 64
    ensures Sound(Fat32, n, bpc)
  {
    if bpc == 8 {
      Sound32By8(n);
    } else if bpc == 16 {
      Sound32By16(n);
    } else if bpc == 32 {
      Sound32By32(n);
    } else {
      Sound32By64(n);
    }
  }

  lemma Sound32By8(n: nat)
    requires 1048576 <= n < U32 && n / 8 <= 2097152
    ensures Sound(Fat32, n, 8)
  {
  }

  lemma Sound32By16(n: nat)
    requires 1048576 <= n < U32 && n / 16 <= 2097152
    ensures Sound(Fat32, n, 16)
  {
  }

  lemma Sound32By32(n: nat)
    requires 1048576 <= n < U32 && n / 32 <= 2097152
    ensures Sound(Fat32, n, 32)
  {
  }

  lemma Sound32By64(n: nat)
    requires 1048576 <= n < U32
    ensures Sound(Fat32, n, 64)
  {
  }

  /** For these sizes, none of the unsigned operations of calculate_layout wraps around. */
  lemma NoWrap(n: nat, bpc: nat, fat: nat, clusters: nat, data: int, root: int, logical: int)
    requires SMALLEST <= n < U32 && bpc == Pow2(SpcFor(n)) && 0 < bpc
    requires var t := TypeFor(n);
             && fat == BytesToBlocks(9, FatBytes(t, ClustersIn(Sub64(n, Reserved(t)), bpc)) % U32)
             && clusters == ClustersIn(Sub64(n, Reserved(t) + LeastRoot(t) + fat * 2), bpc)
             && data == DataBlocks(clusters, bpc)
             && root == (if t == Fat32 then 0 else Sub64(n, Reserved(t) + fat * 2 + data))
             && logical == (data + fat * 2 + Reserved(t) + root) % U64
    ensures Layout(9, SpcFor(n), Reserved(TypeFor(n)), root, fat, logical, clusters, TypeFor(n)) == LayoutOf(n)
  {
    var t := TypeFor(n);
    LayoutSound(n);
    SmallPowers();
    hide SpcFor, Pow2, TypeFor;
    NoWrapFat(t, n, bpc);
    var x := n - Reserved(t) - LeastRoot(t) - 2 * fat;
    assert 0 <= x && fat == FatFor(t, n, bpc) && ClustersFor(t, n, bpc) == x / bpc + 2;
    Quotient(x, bpc);
    assert x / bpc + 2 < U32 && LayoutOf(n).fatBlocks == fat;
    hide FatFor, FatBytes, ClustersFor, Sound, Reserved, LeastRoot;
    DataNoWrap(x, bpc, clusters, data);
    Small(data + fat * 2 + Reserved(t) + root, U64);
  }

  lemma DataNoWrap(x: nat, bpc: nat, clusters: nat, data: int)
    requires 0 < bpc && x < U32 && x / bpc + 2 < U32
    requires clusters == ClustersIn(x, bpc) && data == DataBlocks(clusters, bpc)
    ensures clusters == x / bpc + 2 && 0 <= data == (clusters - 2) * bpc <= x
  {
    var q := x / bpc;
    Quotient(x, bpc);
    Small(q + 2, U32);
    Small(q, U32);
    Small(q * bpc, U32);
  }

  lemma NoWrapFat(t: FatType, n: nat, bpc: nat)
    requires 0 < bpc && SMALLEST <= n < U32 && Sound(t, n, bpc)
    ensures BytesToBlocks(9, FatBytes(t, ClustersIn(Sub64(n, Reserved(t)), bpc)) % U32) == FatFor(t, n, bpc)
  {
    SmallPowers();
    hide ClustersFor, Pow2;
    var q := (n - Reserved(t)) / bpc;
    Small(q + 2, U32);
    Small(FatBytes(t, q + 2), U32);
  }

  lemma Small(x: nat, m: nat)
    requires x < m
    ensures x % m == x
  {
  }

  lemma Quotient(x: nat, n: nat)
    requires 0 < n
    ensures 0 <= x / n * n <= x < x / n * n + n && 0 <= x / n <= x
  {
    assert x == x / n * n + x % n;
    MulMono(1, n, x / n);
  }

  // ---- the boot sector ----

  /** The fields of the BIOS parameter block that decide about the geometry. */
  datatype Fields = Fields(
    bytesPerSector: nat, sectorsPerCluster: nat, reserved: nat, fats: nat, rootEntries: nat,
    total16: nat, perFat16: nat, total32: nat, perFat32: nat, rootCluster: nat, signature: nat)

  function FieldsOf(b: Block): Fields
    requires |b| >= 512
  {
    Fields(R16(b, 0x0b), b[0x0d], R16(b, 0x0e), b[0x10], R16(b, 0x11),
           R16(b, 0x13), R16(b, 0x16), R32(b, 0x20), R32(b, 0x24), R32(b, 0x2c), R16(b, 0x1fe))
  }

  function Put32(b: Block, o: nat, v: nat): (r: Block)
    requires o + 4 <= |b|
    ensures |r| == |b|
  {
    Put16(Put16(b, o, v % 0x1_0000), o + 2, v / 0x1_0000)
  }

  /** Bytes outside `n` bytes from `o` on are not touched. */
  ghost predicate SameBut(b: Block, r: Block, o: nat, n: nat) {
    |r| == |b| && forall i | 0 <= i < |b| && !(o <= i < o + n) :: r[i] == b[i]
  }

  lemma PatchKeeps(b: Block, o: nat, bytes: seq<byte>)
    requires o + |bytes| <= |b|
    ensures SameBut(b, Patch(b, o, bytes), o, |bytes|)
    ensures forall i | o <= i < o + |bytes| :: Patch(b, o, bytes)[i] == bytes[i - o]
  {
  }

  /** Names and signatures are outside the fields. */
  lemma FieldsKept(b: Block, r: Block, o: nat, n: nat)
    requires 512 <= |b| && SameBut(b, r, o, n)
    requires o + n <= 0x0b || (o == 0x15 && n == 1) || (0x30 <= o && o + n <= 0x1fe)
    ensures FieldsOf(r) == FieldsOf(b)
  {
  }

  /** With a 16-bit FAT, the extended signature and the volume label lie where the 32-bit fields would be. */
  lemma LabelFields(b: Block, r: Block)
    requires 512 <= |b| && SameBut(b, r, 0x26, 16) && FieldsOf(b).perFat32 == 0 && r[0x27] == b[0x27]
    requires r[0x26] == 0x29 && forall i | 0x2b <= i < 0x36 :: r[i] == 0x20
    ensures FieldsOf(r) == FieldsOf(b).(perFat32 := 0x29_0000, rootCluster := 0x2020_2020)
  {
  }

  lemma {:induction false} R16Put(b: Block, o: nat, v: nat)
    requires o + 2 <= |b|
    ensures R16(Put16(b, o, v), o) == v % 0x1_0000 && SameBut(b, Put16(b, o, v), o, 2)
  {
  }

  lemma R32Put(b: Block, o: nat, v: nat)
    requires o + 4 <= |b| && v < U32
    ensures R32(Put32(b, o, v), o) == v && SameBut(b, Put32(b, o, v), o, 4)
  {
    var c := Put16(b, o, v % 0x1_0000);
    R16Put(b, o, v % 0x1_0000);
    R16Put(c, o + 2, v / 0x1_0000);
  }

  /** Storing one field changes that field only. */
  lemma StoreSector(b: Block, v: nat)
    requires 512 <= |b|
    ensures FieldsOf(Put16(b, 0x0b, v)) == FieldsOf(b).(bytesPerSector := v % 0x1_0000)
    ensures FieldsOf(Put16(b, 0x0e, v)) == FieldsOf(b).(reserved := v % 0x1_0000)
    ensures FieldsOf(Put16(b, 0x11, v)) == FieldsOf(b).(rootEntries := v % 0x1_0000)
  {
    R16Put(b, 0x0b, v);
    R16Put(b, 0x0e, v);
    R16Put(b, 0x11, v);
    hide Put16;
  }

  lemma StoreCounts(b: Block, v: nat)
    requires 512 <= |b|
    ensures FieldsOf(Put16(b, 0x13, v)) == FieldsOf(b).(total16 := v % 0x1_0000)
    ensures FieldsOf(Put16(b, 0x16, v)) == FieldsOf(b).(perFat16 := v % 0x1_0000)
  {
    R16Put(b, 0x13, v);
    R16Put(b, 0x16, v);
    hide Put16;
  }

  lemma StoreLong(b: Block, v: nat)
    requires 512 <= |b| && v < U32
    ensures FieldsOf(Put32(b, 0x20, v)) == FieldsOf(b).(total32 := v)
    ensures FieldsOf(Put32(b, 0x24, v)) == FieldsOf(b).(perFat32 := v)
    ensures FieldsOf(Put32(b, 0x2c, v)) == FieldsOf(b).(rootCluster := v)
  {
    R32Put(b, 0x20, v);
    R32Put(b, 0x24, v);
    R32Put(b, 0x2c, v);
    hide Put32;
  }

  lemma StoreByte(b: Block, v: byte)
    requires 512 <= |b|
    ensures FieldsOf(b[0x0d := v]) == FieldsOf(b).(sectorsPerCluster := v)
    ensures FieldsOf(b[0x10 := v]) == FieldsOf(b).(fats := v)
    ensures FieldsOf(b[0x1fe := 0x55][0x1ff := 0xaa]) == FieldsOf(b).(signature := 0xaa55)
    ensures FieldsOf(b[0x15 := v]) == FieldsOf(b) && FieldsOf(b[0x42 := v]) == FieldsOf(b)
  {
  }

  /** What write_bpb stores for a layout. The shifts of the source agree with the reader's only when a sector is a
      block. */
  function FieldsFor(fl: Layout, log2BlockSize: nat): Fields
    requires Storable(fl, log2BlockSize) && 5 <= log2BlockSize
  {
    var bps := fl.log2SectorSize - log2BlockSize;
    var small := fl.fatType != Fat32 && fl.logicalBlocks <= 0xffff;
    Fields(
      Pow2(fl.log2SectorSize) % 0x1_0000, Pow2(fl.log2Bpc - (fl.log2SectorSize - log2BlockSize)) % 0x100,
      Shl(fl.reservedBlocks, bps) % 0x1_0000, 2, Shl(fl.rootBlocks, log2BlockSize - 5) % 0x1_0000,
      if small then Shl(fl.logicalBlocks, bps) % 0x1_0000 else 0,
      if fl.fatType == Fat32 then 0 else Shl(fl.fatBlocks, bps) % 0x1_0000,
      if small then 0 else Shl(fl.logicalBlocks, bps) % U32,
      if fl.fatType == Fat32 then Shl(fl.fatBlocks, bps) % U32 else 0x29_0000,
      if fl.fatType == Fat32 then 2 else 0x2020_2020,
      0xaa55)
  }

  /** The buffer that write_bpb fills. */
  method BootSector(fl: Layout, log2BlockSize: nat, blockSize: nat) returns (buf: Block)
    requires Storable(fl, log2BlockSize) && 5 <= log2BlockSize
    requires 512 <= blockSize
    ensures |buf| == blockSize && FieldsOf(buf) == FieldsFor(fl, log2BlockSize)
  {
    var log2Bps := fl.log2SectorSize - log2BlockSize;
    var bps := log2Bps;
    var perFat := Shl(fl.fatBlocks, bps);
    buf := CommonPart(blockSize, Pow2(fl.log2SectorSize), Pow2(fl.log2Bpc - log2Bps) % 0x100,
        Shl(fl.reservedBlocks, bps),
                      Shl(fl.rootBlocks, log2BlockSize - 5),
                      fl.fatType != Fat32 && fl.logicalBlocks <= 0xffff, Shl(fl.logicalBlocks, bps));
    if fl.fatType != Fat32 {
      buf := TypePart16(buf, perFat, fl.fatType);
    } else {
      buf := TypePart32(buf, perFat % U32);
    }
  }

  method CommonPart(blockSize: nat, sector: nat, spc: byte, reserved: nat, rootEntries: nat, small: bool, total: nat)
    returns (buf: Block)
    requires 512 <= blockSize
    ensures |buf| == blockSize
    ensures FieldsOf(buf) == Fields(
              sector % 0x1_0000, spc, reserved % 0x1_0000, 2, rootEntries % 0x1_0000, if small then total % 0x1_0000
                  else 0,
              0, if small then 0 else total % U32, 0, 0, 0xaa55)
  {
    hide Put16, Put32, Patch;
    buf := seq(blockSize, _ => 0);
    assert FieldsOf(buf) == Fields(0, 0, 0, 0, 0, 0, 0, 0, 0, 0, 0);
    hide FieldsOf;
    var header: seq<byte> := [0xeb, 0xfe, 0x90, 0x75, 0x66, 0x61, 0x74, 0x20, 0x20, 0x20, 0x20];
    buf := PutName(buf, 0, header);
    StoreByte(buf, 0);
    buf := buf[0x1fe := 0x55][0x1ff := 0xaa];
    StoreSector(buf, sector);
    buf := Put16(buf, 0x0b, sector);
    StoreByte(buf, spc);
    buf := buf[0x0d := spc];
    StoreSector(buf, reserved);
    buf := Put16(buf, 0x0e, reserved);
    StoreByte(buf, 2);
    buf := buf[0x10 := 2];
    StoreSector(buf, rootEntries);
    buf := Put16(buf, 0x11, rootEntries);
    if small {
      StoreCounts(buf, total);
      buf := Put16(buf, 0x13, total);
    } else {
      StoreLong(buf, total % U32);
      buf := Put32(buf, 0x20, total % U32);
    }
    StoreByte(buf, 0xf8);
    buf := buf[0x15 := 0xf8];
  }

  method PutName(b: Block, o: nat, name: seq<byte>) returns (r: Block)
    requires 512 <= |b| && o + |name| <= |b| && (o + |name| <= 0x0b || (0x30 <= o && o + |name| <= 0x1fe))
    ensures |r| == |b| && FieldsOf(r) == FieldsOf(b)
  {
    PatchKeeps(b, o, name);
    r := Patch(b, o, name);
    FieldsKept(b, r, o, |name|);
  }

  method TypePart16(b: Block, perFat: nat, t: FatType) returns (buf: Block)
    requires 512 <= |b| && FieldsOf(b).perFat32 == 0 && t != Fat32
    ensures |buf| == |b|
    ensures FieldsOf(buf) == FieldsOf(b).(perFat16 := perFat % 0x1_0000, perFat32 := 0x29_0000,
              rootCluster := 0x2020_2020)
  {
    StoreCounts(b, perFat);
    buf := Put16(b, 0x16, perFat);
    ghost var before := buf;
    buf := buf[0x26 := 0x29];
    var blank: seq<byte> := seq(11, _ => 0x20);
    PatchKeeps(buf, 0x2b, blank);
    buf := Patch(buf, 0x2b, blank);
    LabelFields(before, buf);
    var name: seq<byte> := [0x46, 0x41, 0x54, 0x31, if t == Fat12 then 0x32 else 0x36, 0x20, 0x20, 0x20];
    buf := PutName(buf, 0x36, name);
  }

  method TypePart32(b: Block, perFat: nat) returns (buf: Block)
    requires 512 <= |b| && perFat < U32
    ensures |buf| == |b| && FieldsOf(buf) == FieldsOf(b).(perFat32 := perFat, rootCluster := 2)
  {
    StoreLong(b, perFat);
    buf := Put32(b, 0x24, perFat);
    StoreLong(buf, 2);
    buf := Put32(buf, 0x2c, 2);
    hide FieldsOf;
    R16Put(buf, 0x30, 1);
    FieldsKept(buf, Put16(buf, 0x30, 1), 0x30, 2);
    buf := Put16(buf, 0x30, 1);
    R16Put(buf, 0x32, 6);
    FieldsKept(buf, Put16(buf, 0x32, 6), 0x32, 2);
    buf := Put16(buf, 0x32, 6);
    StoreByte(buf, 0x29);
    buf := buf[0x42 := 0x29];
    var blank: seq<byte> := seq(11, _ => 0x20);
    buf := PutName(buf, 0x47, blank);
    var name: seq<byte> := [0x46, 0x41, 0x54, 0x33, 0x32, 0x20, 0x20, 0x20];
    buf := PutName(buf, 0x52, name);
  }

  // ---- opening ----

  /** log2_exact: the exponent of a power of two. */
  function Log2Exact(e: nat): Result<nat> {
    if e == 0 then Err(InvalidBpb)
    else if e == 1 then Ok(0)
    else if e % 2 == 1 then Err(InvalidBpb)
    else
      var r := Log2Exact(e / 2);
      if r.Err? then r else Ok(r.value + 1)
  }

  /** log2_exact: the exponent of a power of two, and an error for every other number. */
  method Log2ExactLoop(n: nat) returns (r: Result<nat>)
    ensures r == Log2Exact(n)
    ensures r.Ok? ==> n == Pow2(r.value)
    ensures r.Err? ==> r.error == InvalidBpb && forall k: nat :: n != Pow2(k)
  {
    Log2ExactIff(n);
    if n == 0 {
      return Err(InvalidBpb);
    }
    var e, count := n, 0;
    while e > 1
      invariant e >= 1
      invariant Log2Exact(n) == match Log2Exact(e) case Ok(k) => Ok(k + count) case Err(x) => Err(x)
    {
      if e % 2 == 1 {
        return Err(InvalidBpb);
      }
      e := e / 2;
      count := count + 1;
    }
    r := Ok(count);
  }

  lemma {:induction false} Log2OfPow2(k: nat)
    ensures Log2Exact(Pow2(k)) == Ok(k)
  {
    if k > 0 {
      Log2OfPow2(k - 1);
      var p := Pow2(k - 1);
      assert Pow2(k) == 2 * p && (2 * p) / 2 == p;
    }
  }

  /** Only powers of two are accepted. */
  lemma {:induction false} Log2ExactSound(e: nat)
    ensures Log2Exact(e).Ok? ==> Pow2(Log2Exact(e).value) == e
  {
    if e > 1 && e % 2 == 0 {
      Log2ExactSound(e / 2);
    }
  }

  lemma Log2ExactIff(n: nat)
    ensures Log2Exact(n).Ok? ==> n == Pow2(Log2Exact(n).value)
    ensures Log2Exact(n).Err? ==> Log2Exact(n).error == InvalidBpb && forall k: nat :: n != Pow2(k)
  {
    if Log2Exact(n).Ok? {
      Log2ExactSound(n);
    } else {
      Log2ExactError(n);
      forall k: nat
        ensures n != Pow2(k)
      {
        Log2OfPow2(k);
      }
    }
  }

  lemma {:induction false} Log2ExactError(n: nat)
    requires Log2Exact(n).Err?
    ensures Log2Exact(n).error == InvalidBpb
  {
    if n > 1 && n % 2 == 0 {
      Log2ExactError(n / 2);
    }
  }

  datatype Opened = Opened(g: Bpb, rootCluster: nat)

  function RootSectors(f: Fields): nat
    requires 0 < f.bytesPerSector
  {
    (f.rootEntries * 32 + f.bytesPerSector - 1) / f.bytesPerSector
  }

  /** The geometry that the fields stand for, with the sectors counted in blocks. */
  function Geometry(log2Block: nat, f: Fields, log2Sector: Result<nat>, log2Spc: Result<nat>): Result<Opened>
    requires 0 < f.bytesPerSector
  {
    var root := RootSectors(f);
    var total := if f.total16 == 0 then f.total32 else f.total16;
    var perFat := if f.perFat16 == 0 then f.perFat32 else f.perFat16;
    if log2Block < 9 then Err(BlockSizeError)
    else if log2Sector.Err? || log2Spc.Err? || f.signature != 0xaa55 then Err(InvalidBpb)
    else
      var ls, lc := log2Sector.value, log2Spc.value;
      var down, up := if log2Block > ls then log2Block - ls else 0, if log2Block > ls then 0 else ls - log2Block;
      var unit := Pow2(down);
      if log2Block > ls && (lc < down || f.reserved % unit != 0 || perFat % unit != 0 || root % unit != 0)
      then Err(BlockAlignment)
      else if f.fats == 0 then Err(InvalidBpb)
      else
        var bpc := Pow2(if log2Block > ls then lc - down else lc + up);
        var fatStart, fatSize := Shl(Shr(f.reserved, down), up), Shl(Shr(perFat, down), up) % U32;
        var rootSize := Shl(Shr(root, down), up) % U32;
        var clusters := (Shr((total - f.reserved - perFat * f.fats - root) % U32, lc) + 2) % U32;
        var rootStart := fatStart + fatSize * f.fats;
        var t := if root == 0 then Fat32 else if clusters <= 0xff6 then Fat12 else Fat16;
        Ok(Opened(Bpb(t, Pow2(log2Block), bpc, fatStart, fatSize, f.fats, rootStart, rootSize, rootStart + rootSize,
            clusters),
                  if root == 0 then f.rootCluster % 0x1000_0000 else 0))
  }

  /** A length in sectors and the same length in blocks, unless the number of blocks does not fit in 32 bits. */
  predicate SameBytes(blocks: nat, blockSize: nat, sectors: nat, sectorSize: nat) {
    blocks * blockSize == sectors * sectorSize || U32 * blockSize <= sectors * sectorSize
  }

  /** The regions have the same place and size in bytes as in the boot sector. */
  ghost predicate SameRegions(log2Block: nat, f: Fields, g: Bpb)
    requires 0 < f.bytesPerSector
  {
    && g.blockSize == Pow2(log2Block)
    && g.blocksPerCluster * g.blockSize == f.sectorsPerCluster * f.bytesPerSector
    && g.fatStart * g.blockSize == f.reserved * f.bytesPerSector
    && SameBytes(g.fatSize, g.blockSize, if f.perFat16 == 0 then f.perFat32 else f.perFat16, f.bytesPerSector)
    && SameBytes(g.rootSize, g.blockSize, RootSectors(f), f.bytesPerSector)
  }

  /** What an accepted boot sector and the geometry made of it have in common: sizes are powers of two, the regions have
      the same place and size in bytes and follow each other, the clusters are as many as there is room for, and their
      number tells FAT12 from FAT16. */
  ghost predicate Described(log2Block: nat, f: Fields, o: Opened)
    requires 0 < f.bytesPerSector
  {
    var g, perFat, root := o.g, if f.perFat16 == 0 then f.perFat32 else f.perFat16, RootSectors(f);
    && f.signature == 0xaa55 && 9 <= log2Block && 0 < f.fats
    && (exists ls: nat :: f.bytesPerSector == Pow2(ls)) && (exists lc: nat :: f.sectorsPerCluster == Pow2(lc))
    && SameRegions(log2Block, f, g) && g.fatCount == f.fats
    && g.rootStart == g.fatStart + g.fatSize * g.fatCount && g.clusterStart == g.rootStart + g.rootSize
    && LeastSectors(root, f.bytesPerSector, f.rootEntries * 32)
    && (g.fatType == Fat32 <==> root == 0) && (root > 0 ==> o.rootCluster == 0)
    && (root > 0 ==> (g.fatType == Fat12 <==> g.numClusters <= 0xff6))
    && (root == 0 ==> o.rootCluster < 0x1000_0000 && (f.rootCluster - o.rootCluster) % 0x1000_0000 == 0)
    && MostClusters(g.numClusters, DataSectors(f, perFat, root), f.sectorsPerCluster)
  }

  /** The sectors behind all tables, in 32-bit arithmetic. */
  function DataSectors(f: Fields, perFat: nat, root: nat): nat {
    ((if f.total16 == 0 then f.total32 else f.total16) - f.reserved - perFat * f.fats - root) % U32
  }

  /** The bytes fill the sectors, except for a part of the last one. */
  predicate LeastSectors(sectors: nat, size: nat, bytes: nat) {
    bytes <= sectors * size < bytes + size
  }

  /** With the two entries that stand for no cluster, `clusters` counts all the clusters that the sectors hold. */
  predicate MostClusters(clusters: nat, sectors: nat, spc: nat) {
    sectors < U32 - 2 ==> 2 <= clusters && (clusters - 2) * spc <= sectors < (clusters - 1) * spc
  }

  lemma CountClusters(sectors: nat, spc: nat, clusters: nat)
    requires 0 < spc && clusters == (sectors / spc + 2) % U32
    ensures MostClusters(clusters, sectors, spc)
  {
    if sectors < U32 - 2 {
      var q := sectors / spc;
      Quotient(sectors, spc);
      Small(q + 2, U32);
      assert (q + 1) * spc == q * spc + spc;
    }
  }

  /** parse_bpb. A sector size of 0 is divided by before it is rejected, and then nothing is promised. */
  method ParseBpb(log2Block: nat, b: Block) returns (r: Result<Opened>)
    requires |b| >= 512
    ensures 0 < R16(b, 0x0b) && r.Ok? ==> Described(log2Block, FieldsOf(b), r.value)
    ensures 0 < R16(b, 0x0b) ==>
              r == Geometry(log2Block, FieldsOf(b), Log2Exact(R16(b, 0x0b)), Log2Exact(b[0x0d]))
  {
    var f := FieldsOf(b);
    if f.bytesPerSector == 0 {
      r := *;
      return;
    }
    var log2Sector := Log2ExactLoop(f.bytesPerSector);
    var log2Spc := Log2ExactLoop(f.sectorsPerCluster);
    r := Geometry(log2Block, f, log2Sector, log2Spc);
    if r.Ok? {
      GeometryDescribed(log2Block, f, log2Sector.value, log2Spc.value);
    }
  }

  lemma ClusterBytes(a: nat, u: nat, s: nat)
    ensures a * u * s == a * (s * u)
  {
  }

  lemma Wrapped(y: nat, size: nat, sectors: nat, sectorSize: nat)
    requires y * size == sectors * sectorSize
    ensures SameBytes(y % U32, size, sectors, sectorSize)
  {
    if y < U32 {
      assert y % U32 == y;
    } else {
      MulMono(U32, y, size);
    }
  }

  lemma FewerBlocks(x: nat, down: nat, s: nat)
    requires x % Pow2(down) == 0
    ensures Shl(Shr(x, down), 0) * (s * Pow2(down)) == x * s
    ensures SameBytes(Shl(Shr(x, down), 0) % U32, s * Pow2(down), x, s)
  {
    var u, y := Pow2(down), Shr(x, down);
    NoShift(y);
    assert y == x / u && x == y * u;
    hide Shl, Shr, Pow2, SameBytes;
    ClusterBytes(y, u, s);
    Wrapped(y, s * u, x, s);
  }

  lemma MoreBlocks(x: nat, up: nat, b: nat)
    ensures Shl(Shr(x, 0), up) * b == x * (b * Pow2(up))
    ensures SameBytes(Shl(Shr(x, 0), up) % U32, b, x, b * Pow2(up))
  {
    var u := Pow2(up);
    NoShift(x);
    assert Shl(x, up) == x * u;
    hide Shl, Shr, Pow2, SameBytes;
    ClusterBytes(x, u, b);
    Wrapped(x * u, b, x, b * u);
  }

  lemma RootRoom(f: Fields)
    requires 0 < f.bytesPerSector
    ensures LeastSectors(RootSectors(f), f.bytesPerSector, f.rootEntries * 32)
  {
    Quotient(f.rootEntries * 32 + f.bytesPerSector - 1, f.bytesPerSector);
  }

  lemma RootNumber(c: nat)
    ensures (c - c % 0x1000_0000) % 0x1000_0000 == 0
  {
  }

  lemma ShrIs(x: nat, k: nat)
    ensures Shr(x, k) == x / Pow2(k)
  {
  }

  /** Converting from sectors to blocks keeps the bytes. */
  lemma GeometryRegions(log2Block: nat, f: Fields, ls: nat, lc: nat)
    requires f.bytesPerSector == Pow2(ls) && f.sectorsPerCluster == Pow2(lc)
    requires Geometry(log2Block, f, Ok(ls), Ok(lc)).Ok?
    ensures SameRegions(log2Block, f, Geometry(log2Block, f, Ok(ls), Ok(lc)).value.g)
  {
    hide Pow2, Shl, Shr, RootSectors, SameBytes;
    var perFat, root := if f.perFat16 == 0 then f.perFat32 else f.perFat16, RootSectors(f);
    if log2Block > ls {
      var down := log2Block - ls;
      Pow2Sum(ls, down);
      Pow2Sum(lc - down, down);
      FewerBlocks(f.reserved, down, Pow2(ls));
      FewerBlocks(perFat, down, Pow2(ls));
      FewerBlocks(root, down, Pow2(ls));
      ClusterBytes(Pow2(lc - down), Pow2(down), Pow2(ls));
    } else {
      var up := ls - log2Block;
      Pow2Sum(log2Block, up);
      Pow2Sum(lc, up);
      MoreBlocks(f.reserved, up, Pow2(log2Block));
      MoreBlocks(perFat, up, Pow2(log2Block));
      MoreBlocks(root, up, Pow2(log2Block));
      ClusterBytes(Pow2(lc), Pow2(up), Pow2(log2Block));
    }
  }

  lemma GeometryDescribed(log2Block: nat, f: Fields, ls: nat, lc: nat)
    requires f.bytesPerSector == Pow2(ls) && f.sectorsPerCluster == Pow2(lc)
    requires Geometry(log2Block, f, Ok(ls), Ok(lc)).Ok?
    ensures Described(log2Block, f, Geometry(log2Block, f, Ok(ls), Ok(lc)).value)
  {
    RootNumber(f.rootCluster);
    RootRoom(f);
    GeometryRegions(log2Block, f, ls, lc);
    hide Pow2, Shl, Shr, RootSectors, SameRegions, MostClusters, LeastSectors;
    var o := Geometry(log2Block, f, Ok(ls), Ok(lc)).value;
    var perFat, root := if f.perFat16 == 0 then f.perFat32 else f.perFat16, RootSectors(f);
    assert o.g.numClusters == (Shr(DataSectors(f, perFat, root), lc) + 2) % U32;
    ShrIs(DataSectors(f, perFat, root), lc);
    CountClusters(DataSectors(f, perFat, root), Pow2(lc), o.g.numClusters);
  }

  lemma RootFits(n: nat)
    requires SMALLEST <= n < U32
    ensures var fl := LayoutOf(n); var bpc := Pow2(SpcFor(n));
            && LeastRoot(fl.fatType) <= fl.rootBlocks < LeastRoot(fl.fatType) + bpc
            && 0 <= (fl.clusters - 2) * bpc && fl.logicalBlocks <= n
            && fl.logicalBlocks == fl.reservedBlocks + 2 * fl.fatBlocks + fl.rootBlocks + (fl.clusters - 2) * bpc
  {
    var t, bpc := TypeFor(n), Pow2(SpcFor(n));
    LayoutSound(n);
    Quotient(n - Reserved(t) - LeastRoot(t) - 2 * FatFor(t, n, bpc), bpc);
  }

  /** The sizes of a planned layout, small enough for the fields of the boot sector. */
  ghost predicate Planned(fl: Layout, n: nat) {
    && fl.log2SectorSize == 9 && 1 <= fl.log2Bpc <= 6 && fl.reservedBlocks == Reserved(fl.fatType)
    && 0 <= fl.rootBlocks < 32 + Pow2(fl.log2Bpc) <= 96 && (fl.fatType == Fat32 <==> fl.rootBlocks == 0)
    && 1 <= fl.fatBlocks && (fl.fatType != Fat32 ==> fl.fatBlocks <= 0xffff)
    && 2 <= fl.clusters <= MaxClusters(fl.fatType) && (fl.fatType == Fat16 ==> 0xff6 < fl.clusters)
    && fl.logicalBlocks == fl.reservedBlocks + 2 * fl.fatBlocks + fl.rootBlocks + (fl.clusters - 2) * Pow2(fl.log2Bpc)
    && 0 <= (fl.clusters - 2) * Pow2(fl.log2Bpc) && fl.logicalBlocks <= n < U32
  }

  lemma LayoutPlanned(n: nat)
    requires SMALLEST <= n < U32
    ensures Planned(LayoutOf(n), n)
  {
    BpcFor(n);
    LayoutSound(n);
    RootFits(n);
    SmallPowers();
    var bpc := Pow2(SpcFor(n));
    assert bpc <= 64;
    hide SpcFor, FatFor, ClustersFor, TypeFor, Pow2;
  }

  /** What the fields of the boot sector are, in exact arithmetic. */
  ghost predicate Stores(f: Fields, fl: Layout) {
    && f.bytesPerSector == 512 && f.sectorsPerCluster == Pow2(fl.log2Bpc) && f.fats == 2 && f.signature == 0xaa55
    && f.reserved == fl.reservedBlocks && f.rootEntries == fl.rootBlocks * 16
    && (if f.total16 == 0 then f.total32 else f.total16) == fl.logicalBlocks
    && (if f.perFat16 == 0 then f.perFat32 else f.perFat16) == fl.fatBlocks
    && (fl.fatType == Fat32 ==> f.rootCluster == 2)
  }

  lemma FieldsStore(fl: Layout, n: nat)
    requires Planned(fl, n)
    ensures Stores(FieldsFor(fl, 9), fl)
  {
    SmallPowers();
    NoShift(fl.reservedBlocks);
    NoShift(fl.rootBlocks);
    NoShift(fl.logicalBlocks);
    NoShift(fl.fatBlocks);
    assert 9 - 5 == 4 && fl.log2SectorSize - 9 == 0 && fl.log2Bpc - (9 - 9) == fl.log2Bpc;
    hide Pow2, Shl;
  }

  lemma GeometryStored(fl: Layout, f: Fields, n: nat)
    requires Planned(fl, n) && Stores(f, fl)
    ensures var rootStart := fl.reservedBlocks + fl.fatBlocks * 2;
            Geometry(9, f, Ok(9), Ok(fl.log2Bpc))
            == Ok(Opened(Bpb(fl.fatType, 512, Pow2(fl.log2Bpc), fl.reservedBlocks, fl.fatBlocks, 2, rootStart,
                fl.rootBlocks,
                             rootStart + fl.rootBlocks, fl.clusters),
                         if fl.fatType == Fat32 then 2 else 0))
  {
    SmallPowers();
    assert RootSectors(f) == fl.rootBlocks;
    assert fl.log2Bpc + (9 - 9) == fl.log2Bpc;
    NoShift(fl.reservedBlocks);
    NoShift(fl.fatBlocks);
    NoShift(fl.rootBlocks);
    var data := (fl.clusters - 2) * Pow2(fl.log2Bpc);
    assert Shr(data, fl.log2Bpc) == fl.clusters - 2 by {
      DivModUnique(data, Pow2(fl.log2Bpc), fl.clusters - 2, 0);
    }
    hide Pow2, RootSectors, Shl, Shr;
    Small(data, U32);
    Small(fl.clusters, U32);
    Small(fl.fatBlocks, U32);
    Small(fl.rootBlocks, U32);
  }

  function BpbFor(fl: Layout): Bpb
    requires 0 <= fl.reservedBlocks && 0 <= fl.fatBlocks && 0 <= fl.rootBlocks && 0 <= fl.clusters
  {
    var rootStart := fl.reservedBlocks + fl.fatBlocks * 2;
    Bpb(fl.fatType, 512, Pow2(fl.log2Bpc), fl.reservedBlocks, fl.fatBlocks, 2, rootStart, fl.rootBlocks,
        rootStart + fl.rootBlocks, fl.clusters)
  }

  /** Opening reads back what was planned. */
  lemma OpenReadsPlan(fl: Layout, n: nat)
    requires Planned(fl, n)
    ensures var f := FieldsFor(fl, 9);
            && 0 < f.bytesPerSector
            && Geometry(9, f, Log2Exact(f.bytesPerSector), Log2Exact(f.sectorsPerCluster))
            == Ok(Opened(BpbFor(fl), if fl.fatType == Fat32 then 2 else 0))
  {
    FieldsStore(fl, n);
    GeometryStored(fl, FieldsFor(fl, 9), n);
    SmallPowers();
    Log2OfPow2(9);
    Log2OfPow2(fl.log2Bpc);
    hide Geometry, FieldsFor, Log2Exact, Pow2;
  }

  /** The planned volume fits on any device of at least that size, and its FAT has room for all clusters. */
  lemma VolumeFits(n: nat, m: nat)
    requires SMALLEST <= n < U32 && n <= m
    ensures Planned(LayoutOf(n), n) && LayoutOf(n).fatType == TypeFor(n)
    ensures BpbFor(LayoutOf(n)).Fits(m) && FatUsable(BpbFor(LayoutOf(n)))
    ensures TypeFor(n) == Fat32 ==> 3 <= LayoutOf(n).clusters
  {
    LayoutPlanned(n);
    LayoutSound(n);
    assert FatBytes(TypeFor(n), LayoutOf(n).clusters) <= LayoutOf(n).fatBlocks * 512;
    hide SpcFor, FatFor, ClustersFor, TypeFor, Pow2, LayoutOf;
  }

  // ---- the fresh table ----

  /** Byte `x` of a fresh FAT: entries without a cluster are bad, and the first ones are reserved. */
  function InitByte(t: FatType, clusters: int, x: nat): byte {
    match t
    case Fat12 =>
      if x == 0 then 0xf8 else if x == 1 then 0x8f else if x == 2 then 0xff else PairByte(clusters, x / 3, x % 3)
    case Fat16 => if x < 4 then (if x % 2 == 0 then 0xf8 else 0xff) else WideByteOf(clusters, x / 2, x % 2)
    case Fat32 => if x < 12 then (if x % 4 == 0 then 0xf8 else 0xff) else WideByteOf(clusters, x / 4, x % 4)
  }

  /** Byte `k` of a 16-bit or 32-bit entry. */
  function WideByteOf(clusters: int, c: nat, k: nat): byte {
    if c < clusters then 0 else if k == 0 then 0xf7 else 0xff
  }

  /** A byte of the three that hold two 12-bit entries. */
  function PairByte(clusters: int, pair: nat, minor: nat): byte
    requires minor < 3
  {
    var data := if pair * 2 >= clusters then 0xff7ff7 else if pair * 2 + 1 >= clusters then 0xff7000 else 0;
    if minor == 0 then data % 0x100 else if minor == 1 then data / 0x100 % 0x100 else data / 0x1_0000
  }

  ghost predicate InitBlock(t: FatType, clusters: int, block: nat, b: Block) {
    forall j | 0 <= j < |b| :: b[j] == InitByte(t, clusters, block * |b| + j)
  }

  ghost predicate Filled12(b: Block, clusters: int, start: nat, j: nat) {
    j <= |b| && forall k | 0 <= k < j :: b[k] == PairByte(clusters, (start + k) / 3, (start + k) % 3)
  }

  lemma FillStep12(b: Block, clusters: int, start: nat, j: nat, pair: nat, minor: nat)
    requires j < |b| && pair * 3 + minor == start + j && minor < 3 && Filled12(b, clusters, start, j)
    ensures Filled12(b[j := PairByte(clusters, pair, minor)], clusters, start, j + 1)
  {
    DivModUnique(start + j, 3, pair, minor);
  }

  lemma Finish12(b: Block, clusters: int, block: nat, start: nat)
    requires 512 <= |b| && start == block * |b| && Filled12(b, clusters, start, |b|)
    ensures InitBlock(Fat12, clusters, block, if block == 0 then b[0 := 0xf8][1 := 0x8f][2 := 0xff] else b)
  {
    if block > 0 {
      MulMono(1, block, |b|);
    }
  }

  /** The inner loop of init_fat12. The counters go on from block to block. */
  method FillBlock12(clusters: int, blockSize: nat, block: nat, minor0: nat, pair0: nat)
    returns (buf: Block, minor: nat, pair: nat)
    requires minor0 < 3 && pair0 * 3 + minor0 == block * blockSize && 512 <= blockSize
    ensures minor < 3 && pair * 3 + minor == block * blockSize + blockSize
    ensures |buf| == blockSize && InitBlock(Fat12, clusters, block, buf)
  {
    buf, minor, pair := seq(blockSize, _ => 0), minor0, pair0;
    var start := block * blockSize;
    var j := 0;
    while j < blockSize
      invariant j <= blockSize == |buf| && minor < 3 && pair * 3 + minor == start + j
      invariant Filled12(buf, clusters, start, j)
    {
      FillStep12(buf, clusters, start, j, pair, minor);
      hide Filled12;
      var data := if pair * 2 >= clusters then 0xff7ff7 else if pair * 2 + 1 >= clusters then 0xff7000 else 0;
      var b: byte := if minor == 0 then data % 0x100 else if minor == 1 then data / 0x100 % 0x100 else data / 0x1_0000;
      buf := buf[j := b];
      minor := minor + 1;
      if minor >= 3 {
        minor := 0;
        pair := pair + 1;
      }
      j := j + 1;
    }
    Finish12(buf, clusters, block, start);
    if block == 0 {
      buf := buf[0 := 0xf8][1 := 0x8f][2 := 0xff];
    }
  }

  ghost predicate Filled16(b: Block, clusters: int, start: nat, j: nat) {
    && j <= |b|
    && (forall k | 0 <= k < j :: b[k] == WideByteOf(clusters, (start + k) / 2, (start + k) % 2))
    && (forall k | j <= k < |b| :: b[k] == 0)
  }

  lemma FillStep16(b: Block, clusters: int, start: nat, j: nat, c: nat)
    requires j + 2 <= |b| && c * 2 == start + j && Filled16(b, clusters, start, j)
    ensures Filled16(if c >= clusters then b[j := 0xf7][j + 1 := 0xff] else b, clusters, start, j + 2)
  {
    DivModUnique(start + j, 2, c, 0);
    DivModUnique(start + (j + 1), 2, c, 1);
  }

  lemma FillStart16(buf: Block, clusters: int, start: nat)
    requires forall i | 0 <= i < |buf| :: buf[i] == 0
    ensures Filled16(buf, clusters, start, 0)
  {
  }

  predicate Pairs(j: nat, n: nat) { j % 2 == 0 && n % 2 == 0 }

  lemma NextPair(j: nat, n: nat)
    ensures Pairs(j, n) && j < n ==> j + 2 <= n && Pairs(j + 2, n)
    ensures n % 2 == 0 ==> Pairs(0, n)
  {
  }

  /** The inner loops of init_fat16 and init_fat32. */
  method FillBlock16(clusters: int, blockSize: nat, block: nat, c0: nat) returns (buf: Block, c: nat)
    requires c0 * 2 == block * blockSize && 512 <= blockSize && blockSize % 2 == 0
    ensures c * 2 == block * blockSize + blockSize
    ensures |buf| == blockSize && InitBlock(Fat16, clusters, block, buf)
  {
    hide Filled16, InitBlock, Pairs;
    buf, c := seq(blockSize, _ => 0), c0;
    var start := block * blockSize;
    var j := 0;
    FillStart16(buf, clusters, start);
    NextPair(0, blockSize);
    while j < blockSize
      invariant j <= blockSize == |buf| && Pairs(j, blockSize) && c * 2 == start + j
      invariant Filled16(buf, clusters, start, j)
    {
      NextPair(j, blockSize);
      FillStep16(buf, clusters, start, j, c);
      if c >= clusters {
        buf := buf[j := 0xf7][j + 1 := 0xff];
      }
      c := c + 1;
      j := j + 2;
    }
    Finish16(buf, clusters, block, start);
    if block == 0 {
      buf := buf[0 := 0xf8][1 := 0xff][2 := 0xf8][3 := 0xff];
    }
  }

  lemma Finish16(b: Block, clusters: int, block: nat, start: nat)
    requires 512 <= |b| && start == block * |b|
    requires Filled16(b, clusters, start, |b|)
    ensures InitBlock(Fat16, clusters, block, if block == 0 then b[0 := 0xf8][1 := 0xff][2 := 0xf8][3 := 0xff] else b)
  {
    if block > 0 {
      MulMono(1, block, |b|);
    }
  }

  const FIRST32: seq<byte> := [0xf8, 0xff, 0xff, 0xff, 0xf8, 0xff, 0xff, 0xff, 0xf8, 0xff, 0xff, 0xff]

  lemma Finish32(b: Block, clusters: int, block: nat, start: nat)
    requires 512 <= |b| && start == block * |b|
    requires Filled32(b, clusters, start, |b|)
    ensures InitBlock(Fat32, clusters, block, if block == 0 then FIRST32 + b[12..] else b)
  {
    if block > 0 {
      MulMono(1, block, |b|);
    }
  }

  function Bad32(b: Block, j: nat): (r: Block)
    requires j + 4 <= |b|
    ensures |r| == |b|
  {
    b[j := 0xf7][j + 1 := 0xff][j + 2 := 0xff][j + 3 := 0xff]
  }

  ghost predicate Filled32(b: Block, clusters: int, start: nat, j: nat) {
    && j <= |b|
    && (forall k | 0 <= k < j :: b[k] == WideByteOf(clusters, (start + k) / 4, (start + k) % 4))
    && (forall k | j <= k < |b| :: b[k] == 0)
  }

  lemma FillStart32(buf: Block, clusters: int, start: nat)
    requires forall i | 0 <= i < |buf| :: buf[i] == 0
    ensures Filled32(buf, clusters, start, 0)
  {
  }

  lemma FillStep32(b: Block, clusters: int, start: nat, j: nat, c: nat)
    requires j + 4 <= |b| && c * 4 == start + j && Filled32(b, clusters, start, j)
    ensures Filled32(if c >= clusters then Bad32(b, j) else b, clusters, start, j + 4)
  {
    DivModUnique(start + j, 4, c, 0);
    DivModUnique(start + (j + 1), 4, c, 1);
    DivModUnique(start + (j + 2), 4, c, 2);
    DivModUnique(start + (j + 3), 4, c, 3);
  }

  predicate Fours(j: nat, n: nat) { j % 4 == 0 && n % 4 == 0 }

  lemma NextFour(j: nat, n: nat)
    ensures Fours(j, n) && j < n ==> j + 4 <= n && Fours(j + 4, n)
    ensures n % 4 == 0 ==> Fours(0, n)
  {
  }

  method FillBlock32(clusters: int, blockSize: nat, block: nat, c0: nat) returns (buf: Block, c: nat)
    requires c0 * 4 == block * blockSize && 512 <= blockSize && blockSize % 4 == 0
    ensures c * 4 == block * blockSize + blockSize
    ensures |buf| == blockSize && InitBlock(Fat32, clusters, block, buf)
  {
    hide Filled32, Bad32, InitBlock, Fours;
    buf, c := seq(blockSize, _ => 0), c0;
    var start := block * blockSize;
    var j := 0;
    FillStart32(buf, clusters, start);
    NextFour(0, blockSize);
    while j < blockSize
      invariant j <= blockSize == |buf| && Fours(j, blockSize) && c * 4 == start + j
      invariant Filled32(buf, clusters, start, j)
    {
      NextFour(j, blockSize);
      FillStep32(buf, clusters, start, j, c);
      if c >= clusters {
        buf := Bad32(buf, j);
      }
      c := c + 1;
      j := j + 4;
    }
    Finish32(buf, clusters, block, start);
    if block == 0 {
      buf := FIRST32 + buf[12..];
    }
  }

  // ---- making the file system ----

  /** Blocks outside a range are not touched. */
  ghost predicate Untouched(was: seq<Block>, now: seq<Block>, start: int, count: int) {
    |now| == |was| && forall b | 0 <= b < |now| && !(start <= b < start + count) :: now[b] == was[b]
  }

  ghost predicate Zero(b: Block) {
    forall j | 0 <= j < |b| :: b[j] == 0
  }

  ghost predicate Erased(blocks: seq<Block>, start: int, count: int) {
    0 < count ==> 0 <= start && start + count <= |blocks| && forall b | start <= b < start + count :: Zero(blocks[b])
  }

  /** erase_blocks */
  method EraseBlocks(dev: Device, start: nat, count: nat) returns (r: Result<()>)
    requires dev.Valid()
    modifies dev
    ensures dev.Valid() && Untouched(old(dev.blocks), dev.blocks, start, count)
    ensures r.Ok? ==> Erased(dev.blocks, start, count)
    ensures r.Err? ==> r.error == IoError
    ensures old(dev.failures) <= dev.failures && (r.Ok? <==> dev.failures == old(dev.failures))
  {
    var buf: Block := seq(dev.blockSize, _ => 0);
    var i := 0;
    while i < count
      invariant i <= count && dev.Valid() && Untouched(old(dev.blocks), dev.blocks, start, i)
      invariant dev.failures == old(dev.failures)
      invariant Erased(dev.blocks, start, i)
    {
      var w := dev.Write(start + i, [buf]);
      if w.Err? {
        return w;
      }
      i := i + 1;
    }
    r := Ok(());
  }

  /** Both copies of the FAT are fresh. */
  ghost predicate FreshFats(blocks: seq<Block>, fl: Layout, upTo: int) {
    forall i | 0 <= i < upTo ::
      0 <= fl.reservedBlocks + i < |blocks| && InitBlock(fl.fatType, fl.clusters, FatIndex(i, fl.fatBlocks),
          blocks[fl.reservedBlocks + i])
  }

  /** The block of its FAT that block `i` of the FAT area is. */
  function FatIndex(i: int, fatBlocks: int): nat
    requires 0 <= i
  {
    if fatBlocks <= i then i - fatBlocks else i
  }

  /** The counters of the inner loops stand at byte `x` of the FAT. */
  ghost predicate CountersAt(t: FatType, minor: nat, pair: nat, c: nat, x: int) {
    match t
    case Fat12 => minor < 3 && pair * 3 + minor == x
    case Fat16 => c * 2 == x
    case Fat32 => c * 4 == x
  }

  method FillBlock(t: FatType, clusters: int, blockSize: nat, block: nat, minor0: nat, pair0: nat, c0: nat)
    returns (buf: Block, minor: nat, pair: nat, c: nat)
    requires CountersAt(t, minor0, pair0, c0, block * blockSize) && 512 <= blockSize && blockSize % 4 == 0
    ensures CountersAt(t, minor, pair, c, (block + 1) * blockSize)
    ensures |buf| == blockSize && InitBlock(t, clusters, block, buf)
  {
    minor, pair, c := minor0, pair0, c0;
    match t {
      case Fat12 => buf, minor, pair := FillBlock12(clusters, blockSize, block, minor, pair);
      case Fat16 => buf, c := FillBlock16(clusters, blockSize, block, c);
      case Fat32 => buf, c := FillBlock32(clusters, blockSize, block, c);
    }
    hide InitBlock;
    assert (block + 1) * blockSize == block * blockSize + blockSize;
  }

  /** init_fat12, init_fat16 and init_fat32: the two copies are filled in one loop, with the counters reset between. */
  method InitFat(dev: Device, fl: Layout) returns (r: Result<()>)
    requires dev.Valid() && 512 <= dev.blockSize && dev.blockSize % 4 == 0
    requires 0 <= fl.reservedBlocks && 0 <= fl.fatBlocks
    modifies dev
    ensures dev.Valid() && Untouched(old(dev.blocks), dev.blocks, fl.reservedBlocks, fl.fatBlocks * 2)
    ensures r.Ok? ==> FreshFats(dev.blocks, fl, fl.fatBlocks * 2)
    ensures r.Err? ==> r.error == IoError
    ensures old(dev.failures) <= dev.failures && (r.Ok? <==> dev.failures == old(dev.failures))
  {
    var block, minor, pair, c := 0, 0, 0, 0;
    var i := 0;
    while i < fl.fatBlocks * 2
      invariant 0 <= i <= fl.fatBlocks * 2 && block == (if i <= fl.fatBlocks then i else i - fl.fatBlocks)
      invariant dev.Valid() && Untouched(old(dev.blocks), dev.blocks, fl.reservedBlocks, i)
      invariant dev.failures == old(dev.failures)
      invariant FreshFats(dev.blocks, fl, i)
      invariant CountersAt(fl.fatType, minor, pair, c, block * dev.blockSize)
    {
      if block == fl.fatBlocks {
        block, minor, pair, c := 0, 0, 0, 0;
      }
      var buf: Block;
      buf, minor, pair, c := FillBlock(fl.fatType, fl.clusters, dev.blockSize, block, minor, pair, c);
      hide CountersAt, InitBlock;
      var w := dev.Write(fl.reservedBlocks + i, [buf]);
      if w.Err? {
        return w;
      }
      block := block + 1;
      i := i + 1;
    }
    r := Ok(());
  }

  /** Of the blocks, only the first one and the seventh may differ. */
  ghost predicate OnlyBoot(was: seq<Block>, now: seq<Block>) {
    |now| == |was| && forall b | 0 < b < |now| && b != 6 :: now[b] == was[b]
  }

  /** write_bpb; a FAT32 volume has a second boot sector. */
  method WriteBpb(dev: Device, fl: Layout, log2BlockSize: nat) returns (r: Result<()>)
    requires dev.Valid() && 512 <= dev.blockSize && 5 <= log2BlockSize && Storable(fl, log2BlockSize)
    modifies dev
    ensures dev.Valid() && Untouched(old(dev.blocks), dev.blocks, 0, if fl.fatType == Fat32 then 7 else 1)
    ensures r.Ok? ==> 0 < |dev.blocks| && |dev.blocks[0]| == dev.blockSize
    ensures r.Ok? && log2BlockSize == fl.log2SectorSize ==> FieldsOf(dev.blocks[0]) == FieldsFor(fl, log2BlockSize)
    ensures log2BlockSize == fl.log2SectorSize ==> OnlyBoot(old(dev.blocks), dev.blocks)
    ensures r.Err? ==> r.error == IoError
    ensures old(dev.failures) <= dev.failures && (r.Ok? <==> dev.failures == old(dev.failures))
  {
    var buf := BootSector(fl, log2BlockSize, dev.blockSize);
    hide FieldsOf, FieldsFor;
    r := dev.Write(0, [buf]);
    if r.Err? {
      return;
    }
    assert dev.blocks[0] == buf;
    if fl.fatType == Fat32 {
      BackupPlace(fl.log2SectorSize - log2BlockSize, 6);
      r := dev.Write(Shr(6, fl.log2SectorSize - log2BlockSize), [buf]);
    }
  }

  lemma BackupPlace(k: nat, x: nat)
    ensures 0 <= Shr(x, k) <= x && (k == 0 ==> Shr(x, k) == x)
  {
    Quotient(x, Pow2(k));
  }

  /** The information sector: its signatures, the number of free clusters, and where to look for one. */
  ghost predicate FsInfo(b: Block, clusters: int) {
    && |b| >= 512 && R32(b, 0x000) == 0x4161_5252 && R32(b, 0x1e4) == 0x6141_7272 && R32(b, 0x1fc) == 0xaa55_0000
    && R32(b, 0x1e8) == (clusters - 3) % U32 && R32(b, 0x1ec) == 2
  }

  method FsInfoSector(clusters: int, blockSize: nat) returns (buf: Block)
    requires 512 <= blockSize
    ensures |buf| == blockSize && FsInfo(buf, clusters)
  {
    buf := seq(blockSize, _ => 0);
    hide Put32;
    R32Put(buf, 0x000, 0x4161_5252);
    buf := Put32(buf, 0x000, 0x4161_5252);
    R32Put(buf, 0x1e4, 0x6141_7272);
    buf := Put32(buf, 0x1e4, 0x6141_7272);
    R32Put(buf, 0x1e8, (clusters - 3) % U32);
    buf := Put32(buf, 0x1e8, (clusters - 3) % U32);
    R32Put(buf, 0x1ec, 2);
    buf := Put32(buf, 0x1ec, 2);
    R32Put(buf, 0x1fc, 0xaa55_0000);
    buf := Put32(buf, 0x1fc, 0xaa55_0000);
  }

  /** write_fsinfo: the information sector and its copy. */
  method WriteFsInfo(dev: Device, fl: Layout, log2BlockSize: nat) returns (r: Result<()>)
    requires dev.Valid() && 512 <= dev.blockSize && Storable(fl, log2BlockSize)
    modifies dev
    ensures dev.Valid() && Untouched(old(dev.blocks), dev.blocks, 0, 8)
    ensures r.Ok? ==>
              var k := fl.log2SectorSize - log2BlockSize;
              && 0 <= Shr(1, k) < |dev.blocks| && 0 <= Shr(7, k) < |dev.blocks|
              && FsInfo(dev.blocks[Shr(1, k)], fl.clusters) && FsInfo(dev.blocks[Shr(7, k)], fl.clusters)
    ensures r.Err? ==> r.error == IoError
    ensures old(dev.failures) <= dev.failures && (r.Ok? <==> dev.failures == old(dev.failures))
  {
    var buf := FsInfoSector(fl.clusters, dev.blockSize);
    hide FsInfo;
    var k := fl.log2SectorSize - log2BlockSize;
    BackupPlace(k, 1);
    BackupPlace(k, 7);
    r := dev.Write(Shr(1, k), [buf]);
    if r.Ok? {
      assert dev.blocks[Shr(1, k)] == [buf][0];
      r := dev.Write(Shr(7, k), [buf]);
      assert r.Ok? ==> dev.blocks[Shr(7, k)] == [buf][0];
    }
  }

  /** What ufat_mkfs leaves on the device. */
  ghost predicate FreshVolume(blocks: seq<Block>, fl: Layout) {
    && 0 < |blocks| && |blocks[0]| == 512 && Storable(fl, 9) && fl.log2SectorSize == 9
    && FieldsOf(blocks[0]) == FieldsFor(fl, 9) && FreshFats(blocks, fl, fl.fatBlocks * 2)
    && Erased(blocks, fl.reservedBlocks + fl.fatBlocks * 2, if fl.fatType == Fat32 then Pow2(fl.log2Bpc)
        else fl.rootBlocks)
    && (fl.fatType == Fat32 ==> 8 <= |blocks| && FsInfo(blocks[1], fl.clusters) && FsInfo(blocks[7], fl.clusters))
  }

  /** ufat_mkfs, on a device whose blocks hold a boot sector. */
  method Mkfs(dev: Device, nblk: nat, log2BlockSize: nat) returns (r: Result<()>)
    requires dev.Valid() && dev.blockSize == Pow2(log2BlockSize) && 9 <= log2BlockSize && nblk < U64
    modifies dev
    ensures dev.Valid() && |dev.blocks| == |old(dev.blocks)|
    ensures log2BlockSize > 12 ==> r == Err(BlockSizeError) && dev.blocks == old(dev.blocks)
    ensures log2BlockSize <= 12 ==>
              old(dev.failures) <= dev.failures && (r.Ok? <==> dev.failures == old(dev.failures))
                  && (r.Err? ==> r.error == IoError)
    ensures r.Ok? && log2BlockSize == 9 && SMALLEST <= nblk < U32 ==> FreshVolume(dev.blocks, LayoutOf(nblk))
  {
    var layout := CalculateLayout(nblk, log2BlockSize);
    if layout.Err? {
      return Err(layout.error);
    }
    var fl := layout.value;
    BlockSizes(log2BlockSize);
    if log2BlockSize == 9 && SMALLEST <= nblk < U32 {
      LayoutPlanned(nblk);
      PlannedSector(LayoutOf(nblk), nblk);
    }
    hide *;
    r := EraseBlocks(dev, 0, fl.reservedBlocks);
    if r.Err? {
      return;
    }
    r := InitFat(dev, fl);
    if r.Err? {
      return;
    }
    ghost var filled := dev.blocks;
    var root := fl.fatBlocks * 2 + fl.reservedBlocks;
    var count := if fl.fatType == Fat32 then Pow2(fl.log2Bpc) else fl.rootBlocks;
    var start := if fl.fatType == Fat32 then root + fl.rootBlocks else root;
    r := EraseBlocks(dev, start, count);
    if r.Err? {
      return;
    }
    ghost var erased := dev.blocks;
    if fl.fatType == Fat32 {
      r := WriteFsInfo(dev, fl, log2BlockSize);
      if r.Err? {
        return;
      }
      NoShift(1);
      NoShift(7);
    }
    ghost var described := dev.blocks;
    r := WriteBpb(dev, fl, log2BlockSize);
    if r.Ok? && log2BlockSize == 9 && SMALLEST <= nblk < U32 {
      Formatted(filled, erased, described, dev.blocks, fl, nblk, start, count);
    }
  }

  /** The later steps keep what the earlier ones have written. */
  lemma Formatted(a: seq<Block>, b: seq<Block>, c: seq<Block>, d: seq<Block>, fl: Layout, n: nat, start: nat,
                  count: nat)
    requires Planned(fl, n) && Storable(fl, 9) && FreshFats(a, fl, fl.fatBlocks * 2)
    requires count == (if fl.fatType == Fat32 then Pow2(fl.log2Bpc) else fl.rootBlocks)
    requires start == fl.fatBlocks * 2 + fl.reservedBlocks + (if fl.fatType == Fat32 then fl.rootBlocks else 0)
    requires Untouched(a, b, start, count) && Erased(b, start, count)
    requires if fl.fatType == Fat32 then Untouched(b, c, 0, 8) else b == c
    requires Untouched(c, d, 0, if fl.fatType == Fat32 then 7 else 1)
    requires 0 < |d| && |d[0]| == 512 && FieldsOf(d[0]) == FieldsFor(fl, 9)
    requires fl.fatType == Fat32 ==>
               8 <= |c| && FsInfo(c[1], fl.clusters) && FsInfo(c[7], fl.clusters) && OnlyBoot(c, d)
    ensures FreshVolume(d, fl)
  {
    hide FsInfo;
    assert fl.reservedBlocks == if fl.fatType == Fat32 then 32 else 1;
    assert start == fl.reservedBlocks + fl.fatBlocks * 2 && fl.log2SectorSize == 9 && fl.reservedBlocks <= start;
    hide FieldsOf, FieldsFor, Pow2, InitBlock, Zero, Planned, Storable;
    assert |d| == |c| == |b| == |a|;
    assert forall x | fl.reservedBlocks <= x < |d| :: d[x] == b[x];
    assert forall x | fl.reservedBlocks <= x < start && x < |d| :: d[x] == a[x];
    assert Erased(d, start, count);
    forall i | 0 <= i < fl.fatBlocks * 2
      ensures fl.reservedBlocks + i < |d|
      ensures InitBlock(fl.fatType, fl.clusters, FatIndex(i, fl.fatBlocks), d[fl.reservedBlocks + i])
    {
      assert InitBlock(fl.fatType, fl.clusters, FatIndex(i, fl.fatBlocks), a[fl.reservedBlocks + i]);
    }
  }

  lemma PlannedSector(fl: Layout, n: nat)
    requires Planned(fl, n)
    ensures fl.log2SectorSize == 9
  {
  }

  lemma BlockSizes(k: nat)
    requires 9 <= k
    ensures 512 <= Pow2(k) && Pow2(k) % 4 == 0
    ensures k == 9 ==> Pow2(k) == 512
  {
    SmallPowers();
    Pow2Mono(9, k);
    assert Pow2(k) == 2 * Pow2(k - 1) && Pow2(k - 1) == 2 * Pow2(k - 2);
  }

  // ---- what opening finds ----

  lemma FreshFatByte(g: Bpb, v: seq<Block>, fl: Layout, x: nat)
    requires Volume(g, v) && FreshFats(v, fl, fl.fatBlocks * 2) && g.blockSize == 512
    requires g.fatStart == fl.reservedBlocks && g.fatSize == fl.fatBlocks && x < g.fatSize * 512
    ensures FatByte(g, v, x) == InitByte(fl.fatType, fl.clusters, x)
  {
    hide InitByte, InitBlock, Bpb.Fits;
    FatBlock(g, x);
    var i := x / 512;
    assert i < fl.fatBlocks && i * 512 + x % 512 == x;
    assert FatIndex(i, fl.fatBlocks) == i;
    var b := v[fl.reservedBlocks + i];
    assert InitBlock(fl.fatType, fl.clusters, i, b);
    InitBlockAt(fl.fatType, fl.clusters, i, b, x % 512);
  }

  lemma InitBlockAt(t: FatType, clusters: int, block: nat, b: Block, j: nat)
    requires InitBlock(t, clusters, block, b) && j < |b|
    ensures b[j] == InitByte(t, clusters, block * |b| + j)
  {
    hide InitByte;
  }

  /** Every entry of a cluster reads as free, except that the root directory of FAT32 is a chain of one cluster. */
  lemma FreshEntry(g: Bpb, v: seq<Block>, fl: Layout, i: nat)
    requires Volume(g, v) && FreshFats(v, fl, fl.fatBlocks * 2) && g.blockSize == 512
    requires g.fatStart == fl.reservedBlocks && g.fatSize == fl.fatBlocks
    requires g.fatType == fl.fatType && g.numClusters == fl.clusters && 2 <= i < g.numClusters
    ensures Entry(g, v, i) == if g.fatType == Fat32 && i == 2 then EOC else FREE
  {
    match g.fatType
    case Fat12 => FreshEntry12(g, v, fl, i, i / 2 * 3);
    case Fat16 => FreshEntry16(g, v, fl, i);
    case Fat32 => FreshEntry32(g, v, fl, i);
  }

  ghost predicate Matches(g: Bpb, v: seq<Block>, fl: Layout, i: int) {
    && Volume(g, v) && FreshFats(v, fl, fl.fatBlocks * 2) && g.blockSize == 512
    && g.fatStart == fl.reservedBlocks && g.fatSize == fl.fatBlocks
    && g.fatType == fl.fatType && g.numClusters == fl.clusters && 2 <= i < g.numClusters
  }

  lemma FreshEntry12(g: Bpb, v: seq<Block>, fl: Layout, i: nat, o: nat)
    requires Matches(g, v, fl, i) && g.fatType == Fat12 && o == i / 2 * 3
    ensures Entry(g, v, i) == FREE
  {
    FreshPair(g, v, fl, i / 2, o);
    hide FatByte, InitByte, FreshFats;
  }

  /** The pair of entries that holds a cluster: all zero, or the second one bad. */
  lemma MatchesShape(g: Bpb, v: seq<Block>, fl: Layout, i: nat)
    requires Matches(g, v, fl, i)
    ensures Volume(g, v) && g.blockSize == 512 && 2 <= i < fl.clusters
  {
  }

  lemma FreshPair(g: Bpb, v: seq<Block>, fl: Layout, pair: nat, o: nat)
    requires Matches(g, v, fl, pair * 2) && g.fatType == Fat12 && o == pair * 3
    requires o + 1 < g.fatSize * 512 && (pair * 2 + 1 < fl.clusters ==> o + 2 < g.fatSize * 512)
    ensures FatByte(g, v, o) == 0 && FatByte(g, v, o + 1) % 16 == 0
    ensures pair * 2 + 1 < fl.clusters ==> FatByte(g, v, o + 1) == 0 && FatByte(g, v, o + 2) == 0
  {
    hide FatByte, FatBytes, FreshFats, InitByte, Matches;
    MatchesShape(g, v, fl, pair * 2);
    FreshPairByte(g, v, fl, pair, 0, o);
    FreshPairByte(g, v, fl, pair, 1, o + 1);
    if pair * 2 + 1 < fl.clusters {
      FreshPairByte(g, v, fl, pair, 2, o + 2);
    }
  }

  lemma FreshPairByte(g: Bpb, v: seq<Block>, fl: Layout, pair: nat, minor: nat, x: nat)
    requires Matches(g, v, fl, pair * 2) && g.fatType == Fat12 && minor < 3 && pair * 3 + minor == x < g.fatSize * 512
    ensures FatByte(g, v, x) == PairByte(fl.clusters, pair, minor)
  {
    FreshFatByte(g, v, fl, x);
    DivModUnique(x, 3, pair, minor);
    hide FatByte;
  }

  lemma FreshEntry16(g: Bpb, v: seq<Block>, fl: Layout, i: nat)
    requires Matches(g, v, fl, i) && g.fatType == Fat16
    ensures Entry(g, v, i) == FREE
  {
    FreshFatByte(g, v, fl, 2 * i);
    FreshFatByte(g, v, fl, 2 * i + 1);
    hide FatByte;
  }

  lemma FreshEntry32(g: Bpb, v: seq<Block>, fl: Layout, i: nat)
    requires Matches(g, v, fl, i) && g.fatType == Fat32
    ensures Entry(g, v, i) == if i == 2 then EOC else FREE
  {
    FreshFatByte(g, v, fl, 4 * i);
    FreshFatByte(g, v, fl, 4 * i + 1);
    FreshFatByte(g, v, fl, 4 * i + 2);
    FreshFatByte(g, v, fl, 4 * i + 3);
    hide FatByte;
  }

  /** The two copies of the FAT are equal. */
  lemma FreshMirror(g: Bpb, v: seq<Block>, fl: Layout, m: nat)
    requires Volume(g, v) && FreshFats(v, fl, fl.fatBlocks * 2) && g.fatCount == 2
    requires g.fatStart == fl.reservedBlocks && g.fatSize == fl.fatBlocks && g.IsMirror(m)
    ensures m < |v| && v[m] == v[g.Primary(m)]
  {
    var i := m - g.fatStart;
    DivModUnique(i, g.fatSize, 1, i - g.fatSize);
    assert v[fl.reservedBlocks + i] == v[m];
    assert v[fl.reservedBlocks + (i - g.fatSize)] == v[g.Primary(m)];
    assert InitBlock(fl.fatType, fl.clusters, FatIndex(i, fl.fatBlocks), v[fl.reservedBlocks + i]);
    assert InitBlock(fl.fatType, fl.clusters, FatIndex(i - g.fatSize, fl.fatBlocks),
        v[fl.reservedBlocks + (i - g.fatSize)]);
  }

  /** A device that has just been formatted is opened with the planned geometry, it holds the volume, and the table is
      free. */
  lemma FormattedIsFree(blocks: seq<Block>, n: nat)
    requires SMALLEST <= n < U32 && n <= |blocks| && Sized(blocks, 512) && FreshVolume(blocks, LayoutOf(n))
    ensures var f, g := FieldsOf(blocks[0]), BpbFor(LayoutOf(n));
            && 0 < f.bytesPerSector
            && Geometry(9, f, Log2Exact(f.bytesPerSector), Log2Exact(f.sectorsPerCluster))
            == Ok(Opened(g, if TypeFor(n) == Fat32 then 2 else 0))
            && g.fatType == TypeFor(n) && Volume(g, blocks)
            && (forall i | 2 <= i < g.numClusters ::
                  FatOf(g, blocks)[i] == if g.fatType == Fat32 && i == 2 then EOC else FREE)
            && (forall m | g.IsMirror(m) :: blocks[m] == blocks[g.Primary(m)])
  {
    var fl := LayoutOf(n);
    VolumeFits(n, |blocks|);
    OpenReadsPlan(fl, n);
    hide LayoutOf, FieldsFor, FieldsOf, Geometry, TypeFor;
    var g := BpbFor(fl);
    forall i | 2 <= i < g.numClusters
      ensures FatOf(g, blocks)[i] == if g.fatType == Fat32 && i == 2 then EOC else FREE
    {
      FreshEntry(g, blocks, fl, i);
    }
    forall m | g.IsMirror(m)
      ensures 0 <= m < |blocks| && blocks[m] == blocks[g.Primary(m)]
    {
      FreshMirror(g, blocks, fl, m);
    }
  }
}
