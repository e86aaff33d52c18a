/** Directory entries and long names (mysh/fs/ufat_ent.c): the 32-byte records of a directory, the fragments of a long
    name, and the listing that a sequence of records stands for.

    Long names are sequences of UCS-2 units. */
module UfatNames {
  import opened Integers
  import opened Arith
  import opened UfatCache

  datatype Option<+T> = None | Some(value: T)

  type Record = r: seq<byte> | |r| == 32 witness seq(32, _ => 0)

  const MAX_CHARS: nat := 255

  // ---- records ----

  function Unit(r: Record, i: nat): uint16
    requires i < 13
  {
    if i < 5 then R16(r, 0x01 + i * 2) else if i < 11 then R16(r, 0x0e + (i - 5) * 2) else R16(r, 0x1c + (i - 11) * 2)
  }

  /** The thirteen units of a fragment. */
  function Units(r: Record): (u: seq<uint16>)
    ensures |u| == 13
  {
    seq(13, i requires 0 <= i < 13 => Unit(r, i))
  }

  predicate IsFree(r: Record) { r[0] == 0 || r[0] == 0xe5 }

  predicate IsFragment(r: Record) { r[0x0b] == 0x0f && r[0] != 0xe5 }

  /** Fragments are numbered from 1. The parser would write in front of its buffer otherwise. */
  predicate Clean(r: Record) { IsFragment(r) ==> r[0] % 64 != 0 }

  /** A record that holds fragment number `n` of a long name. */
  predicate HoldsFragment(r: Record, units: seq<uint16>, n: nat, first: bool, checksum: byte) {
    && r[0] == (if first then n + 64 else n) && r[0x0b] == 0x0f && r[0x0d] == checksum && Units(r) == units
  }

  lemma Put16Is(b: seq<byte>, o: nat, v: uint16)
    requires o + 2 <= |b|
    ensures R16(Put16(b, o, v), o) == v
    ensures forall i | 0 <= i < |b| && i != o && i != o + 1 :: Put16(b, o, v)[i] == b[i]
  {
  }

  /** ufat_lfn_pack_fragment; what the units at `ucs` are is read back from the record. */
  method LfnPackFragment(ucs: seq<uint16>, n: nat, first: bool, checksum: byte) returns (data: Record)
    requires |ucs| == 13 && 1 <= n < 64
    ensures HoldsFragment(data, ucs, n, first, checksum) && Clean(data)
  {
    hide Put16;
    var d: seq<byte> := seq(32, _ => 0);
    d := d[0 := if first then n + 64 else n];
    var i := 0;
    while i < 5
      invariant i <= 5 && |d| == 32 && d[0] == if first then n + 64 else n
      invariant forall k | 0 <= k < i :: R16(d, 0x01 + k * 2) == ucs[k]
    {
      Put16Is(d, 0x01 + i * 2, ucs[i]);
      d := Put16(d, 0x01 + i * 2, ucs[i]);
      i := i + 1;
    }
    d := d[0x0b := 0x0f][0x0c := 0][0x0d := checksum];
    i := 0;
    while i < 6
      invariant i <= 6 && |d| == 32 && d[0] == (if first then n + 64 else n) && d[0x0b] == 0x0f && d[0x0d] == checksum
      invariant forall k | 0 <= k < 5 :: R16(d, 0x01 + k * 2) == ucs[k]
      invariant forall k | 0 <= k < i :: R16(d, 0x0e + k * 2) == ucs[k + 5]
    {
      Put16Is(d, 0x0e + i * 2, ucs[i + 5]);
      d := Put16(d, 0x0e + i * 2, ucs[i + 5]);
      i := i + 1;
    }
    d := d[0x1a := 0][0x1b := 0];
    Put16Is(d, 0x1c, ucs[11]);
    d := Put16(d, 0x1c, ucs[11]);
    Put16Is(d, 0x1e, ucs[12]);
    d := Put16(d, 0x1e, ucs[12]);
    data := d;
    forall k | 0 <= k < 13
      ensures Unit(data, k) == ucs[k]
    {
      assert k >= 5 && k < 11 ==> R16(d, 0x0e + (k - 5) * 2) == ucs[k - 5 + 5];
    }
    assert Units(data) == ucs;
  }

  // ---- the parser of long names ----

  /** What has been read of a long name: where it started, its checksum, how many fragments are left, and the units from
      there on. */
  datatype Lfn = Idle | Reading(start: nat, checksum: byte, left: nat, text: seq<uint16>)

  function FragmentLength(n: nat): nat
    requires 1 <= n
  {
    var pos := (n - 1) * 13;
    if pos + 13 <= MAX_CHARS then 13 else if pos < MAX_CHARS then MAX_CHARS - pos else 0
  }

  /** A name has up to 255 units: nineteen whole fragments and eight units of the twentieth. */
  lemma LongestName(n: nat)
    requires 1 <= n
    ensures FragmentLength(n) == if n <= 19 then 13 else if n == 20 then 8 else 0
  {
  }

  function Parsed(s: Lfn, r: Record, at: nat): Lfn
    requires r[0] % 64 != 0
  {
    var n := r[0] % 64;
    var units := Units(r)[..FragmentLength(n)];
    if r[0] / 64 % 2 == 1 then Reading(at, r[0x0d], n - 1, units)
    else if s.Idle? || r[0] != s.left || s.checksum != r[0x0d] then Idle
    else Reading(s.start, s.checksum, n - 1, units + s.text)
  }

  lemma FragmentFits(n: nat)
    requires 1 <= n
    ensures var pos := (n - 1) * 13;
            FragmentLength(n) == if pos + 13 <= MAX_CHARS then 13 else if pos < MAX_CHARS then MAX_CHARS - pos else 0
  {
  }

  lemma ParsedCases(s: Lfn, r: Record, at: nat)
    requires r[0] % 64 != 0
    ensures var n := r[0] % 64; var units := Units(r)[..FragmentLength(n)];
            Parsed(s, r, at)
            == if r[0] / 64 % 2 == 1 then Reading(at, r[0x0d], n - 1, units)
               else if s.Idle? || r[0] != s.left || s.checksum != r[0x0d] then Idle
               else Reading(s.start, s.checksum, n - 1, units + s.text)
  {
  }

  /** The text in the buffer behind the fragments that are missing. */
  function TextFrom(buf: seq<uint16>, left: int, len: int): seq<uint16>
    requires 0 <= left && 0 <= len <= |buf|
  {
    if left * 13 <= len then buf[left * 13..len] else []
  }

  /** What a copied fragment adds to the text. */
  lemma ParsedText(before: seq<uint16>, buf: seq<uint16>, pos: nat, len: nat, n: nat, units: seq<uint16>)
    requires |before| == |buf| == MAX_CHARS && |units| == 13 && 1 <= n && pos == (n - 1) * 13
    requires len <= MAX_CHARS && (pos + 13 <= len || len == MAX_CHARS)
    requires forall k | 0 <= k < MAX_CHARS ::
               buf[k] == if pos <= k < pos + FragmentLength(n) then units[k - pos] else before[k]
    ensures TextFrom(buf, n - 1, len) == units[..FragmentLength(n)] + TextFrom(before, n, len)
  {
    if pos <= len {
      assert buf[pos..len] == units[..FragmentLength(n)] + if n * 13 <= len then before[n * 13..len] else [];
    }
  }

  lemma NoTextBehind(buf: seq<uint16>, n: nat, len: nat)
    requires |buf| == MAX_CHARS && len <= MAX_CHARS && (len == n * 13 || (len == MAX_CHARS && len < n * 13))
    ensures TextFrom(buf, n, len) == []
  {
  }

  /** The loop that copies a fragment. */
  method CopyFragment(data: Record, before: seq<uint16>, frPos: nat, frLen: int) returns (buf: seq<uint16>)
    requires |before| == MAX_CHARS && frLen <= 13 && (frLen > 0 ==> frPos + frLen <= MAX_CHARS)
    ensures |buf| == MAX_CHARS
    ensures forall k | 0 <= k < MAX_CHARS ::
              buf[k] == if frPos <= k < frPos + frLen then Units(data)[k - frPos] else before[k]
  {
    buf := before;
    var i := 0;
    while i < frLen
      invariant 0 <= i && (i <= frLen || i == 0) && |buf| == MAX_CHARS
      invariant forall k | 0 <= k < MAX_CHARS ::
                buf[k] == if frPos <= k < frPos + i then Units(data)[k - frPos] else before[k]
    {
      buf := buf[frPos + i := Unit(data, i)];
      i := i + 1;
    }
  }

  class LfnParser {
    var startBlock: nat
    var startPos: nat
    ghost var startAt: nat
    var checksum: byte
    var len: int
    var left: int
    var buf: seq<uint16>

    ghost predicate Valid()
      reads this
    {
      && |buf| == MAX_CHARS
      && (left == -1 || (0 <= left < 64 && 0 <= len <= MAX_CHARS && (left * 13 <= len || len == MAX_CHARS)))
    }

    ghost function State(): Lfn
      requires Valid()
      reads this
    {
      if left == -1 then Idle else Reading(startAt, checksum, left, TextFrom(buf, left, len))
    }

    constructor ()
      ensures Valid() && State() == Idle
    {
      assert |seq(MAX_CHARS, _ => 0 as uint16)| == MAX_CHARS;
      var garbage: seq<uint16> :| |garbage| == MAX_CHARS;
      buf, left := garbage, -1;
    }

    /** ufat_lfn_reset */
    method Reset()
      requires Valid()
      modifies this`left
      ensures Valid() && State() == Idle
    {
      left := -1;
    }

    /** ufat_lfn_parse */
    method Parse(data: Record, blk: nat, pos: nat, ghost at: nat)
      requires Valid() && data[0] % 64 != 0
      modifies this
      ensures Valid() && State() == Parsed(old(State()), data, at)
      ensures State().Reading? ==>
                if data[0] / 64 % 2 == 1 then State().start == at && startBlock == blk && startPos == pos
                else old(State()).Reading? && State().start == old(State()).start
                     && startBlock == old(startBlock) && startPos == old(startPos)
    {
      hide Units, Unit, Parsed, TextFrom, FragmentLength;
      ParsedCases(State(), data, at);
      FragmentFits(data[0] % 64);
      var frSeq: nat := data[0];
      var frPos := (frSeq % 64 - 1) * 13;
      var frLen := 13;
      if frPos + frLen > MAX_CHARS {
        frLen := MAX_CHARS - frPos;
      }
      if frSeq / 64 % 2 == 1 {
        startBlock, startPos, startAt := blk, pos, at;
        left := frSeq % 64;
        len := frPos + frLen;
        checksum := data[0x0d];
      } else if frSeq != left || checksum != data[0x0d] {
        Reset();
        return;
      }
      left := left - 1;
      var n := frSeq % 64;
      ghost var before := buf;
      buf := CopyFragment(data, buf, frPos, frLen);
      ParsedText(before, buf, frPos, len, n, Units(data));
      if frSeq / 64 % 2 == 1 {
        NoTextBehind(before, n, len);
      }
    }

    /** ufat_lfn_ok */
    predicate IsOk()
      reads this
    {
      left == 0
    }
  }

  // ---- entries with a short name ----

  datatype Dirent = Dirent(
    shortName: seq<byte>, shortExt: seq<byte>, attributes: byte,
    createTime: uint16, createDate: uint16, accessDate: uint16, modifyTime: uint16, modifyDate: uint16,
    firstCluster: uint32, fileSize: uint32)

  /** Up to the first space or control character. */
  function Printable(s: seq<byte>): (r: seq<byte>)
    ensures |r| <= |s|
  {
    if s == [] || s[0] <= 0x20 then [] else [s[0]] + Printable(s[1..])
  }

  function DirentOf(t: FatType, r: Record): Dirent {
    Dirent(Printable(r[..8]), Printable(r[8..11]), r[0x0b],
           R16(r, 0x0e), R16(r, 0x10), R16(r, 0x12), R16(r, 0x16), R16(r, 0x18),
           R16(r, 0x1a) + (if t == Fat32 then 0x1_0000 * R16(r, 0x14) else 0), R32(r, 0x1c))
  }

  /** sn_copy */
  method SnCopy(src: seq<byte>) returns (dst: seq<byte>)
    ensures dst == Printable(src)
  {
    dst := [];
    var i := 0;
    while i < |src| && src[i] > 0x20
      invariant i <= |src| && dst + Printable(src[i..]) == Printable(src)
    {
      assert src[i..][1..] == src[i + 1..];
      assert dst + ([src[i]] + Printable(src[i + 1..])) == dst + [src[i]] + Printable(src[i + 1..]);
      dst := dst + [src[i]];
      i := i + 1;
    }
    assert Printable(src[i..]) == [];
  }

  /** ufat_parse_dirent */
  method ParseDirent(t: FatType, data: Record) returns (inf: Dirent)
    ensures inf == DirentOf(t, data)
  {
    var name := SnCopy(data[..8]);
    var ext := SnCopy(data[8..11]);
    var first := R16(data, 0x1a);
    if t == Fat32 {
      first := first + 0x1_0000 * R16(data, 0x14);
    }
    inf := Dirent(name, ext, data[0x0b], R16(data, 0x0e), R16(data, 0x10), R16(data, 0x12), R16(data, 0x16),
        R16(data, 0x18),
                  first, R32(data, 0x1c));
  }

  /** The names have no spaces or control characters and fit their fields. */
  predicate Storable(e: Dirent) {
    && |e.shortName| <= 8 && |e.shortExt| <= 3
    && (forall i | 0 <= i < |e.shortName| :: e.shortName[i] > 0x20)
    && (forall i | 0 <= i < |e.shortExt| :: e.shortExt[i] > 0x20)
  }

  function Padded(s: seq<byte>, n: nat): (r: seq<byte>)
    requires |s| <= n
    ensures |r| == n
  {
    s + seq(n - |s|, _ => 0x20)
  }

  /** ufat_pack_dirent: parsing gives the entry back, except that only FAT32 keeps the high half of the cluster. */
  method PackDirent(t: FatType, e: Dirent) returns (data: Record)
    requires Storable(e)
    ensures DirentOf(t, data) == if t == Fat32 then e else e.(firstCluster := e.firstCluster % 0x1_0000)
    ensures data[0x0b] == e.attributes && (e.shortName != [] ==> data[0] == e.shortName[0])
    ensures forall i | 0 <= i < 8 :: data[i] == if i < |e.shortName| then e.shortName[i] else 0x20
    ensures forall i | 0 <= i < 3 :: data[8 + i] == if i < |e.shortExt| then e.shortExt[i] else 0x20
    ensures data[0x0c] == data[0x0d] == 0
  {
    var head := Padded(e.shortName, 8) + Padded(e.shortExt, 3);
    PrintablePadded(e.shortName, 8);
    PrintablePadded(e.shortExt, 3);
    assert e.shortName != [] ==> head[0] == e.shortName[0];
    assert head[..8] == Padded(e.shortName, 8) && head[8..11] == Padded(e.shortExt, 3);
    assert forall i | 0 <= i < 8 :: head[i] == if i < |e.shortName| then e.shortName[i] else 0x20;
    assert forall i | 0 <= i < 3 :: head[8 + i] == if i < |e.shortExt| then e.shortExt[i] else 0x20;
    hide Printable, Padded;
    var tail := PackFields(e);
    data := head + tail;
    assert forall i | 0 <= i < 11 :: data[i] == head[i];
    assert data[..8] == head[..8] && data[8..11] == head[8..11];
    Behind(head, tail);
    hide R16;
  }

  /** The fields behind the names. */
  method PackFields(e: Dirent) returns (d: seq<byte>)
    ensures |d| == 21 && d[0] == e.attributes && d[1] == d[2] == 0
    ensures R16(d, 0x03) == e.createTime && R16(d, 0x05) == e.createDate && R16(d, 0x07) == e.accessDate
    ensures R16(d, 0x09) == e.firstCluster / 0x1_0000 && R16(d, 0x0f) == e.firstCluster % 0x1_0000
    ensures R16(d, 0x0b) == e.modifyTime && R16(d, 0x0d) == e.modifyDate && R32(d, 0x11) == e.fileSize
  {
    hide Put16;
    d := [e.attributes] + seq(20, _ => 0);
    Put16Is(d, 0x03, e.createTime);
    d := Put16(d, 0x03, e.createTime);
    Put16Is(d, 0x05, e.createDate);
    d := Put16(d, 0x05, e.createDate);
    Put16Is(d, 0x07, e.accessDate);
    d := Put16(d, 0x07, e.accessDate);
    Put16Is(d, 0x09, e.firstCluster / 0x1_0000);
    d := Put16(d, 0x09, e.firstCluster / 0x1_0000);
    Put16Is(d, 0x0b, e.modifyTime);
    d := Put16(d, 0x0b, e.modifyTime);
    Put16Is(d, 0x0d, e.modifyDate);
    d := Put16(d, 0x0d, e.modifyDate);
    Put16Is(d, 0x0f, e.firstCluster % 0x1_0000);
    d := Put16(d, 0x0f, e.firstCluster % 0x1_0000);
    Put16Is(d, 0x11, e.fileSize % 0x1_0000);
    d := Put16(d, 0x11, e.fileSize % 0x1_0000);
    Put16Is(d, 0x13, e.fileSize / 0x1_0000);
    d := Put16(d, 0x13, e.fileSize / 0x1_0000);
    assert R16(d, 0x11) == e.fileSize % 0x1_0000 && R16(d, 0x13) == e.fileSize / 0x1_0000;
  }

  lemma Behind(head: seq<byte>, tail: seq<byte>)
    requires |head| == 11 && |tail| == 21
    ensures var d := head + tail;
            && d[0] == head[0] && d[0x0b] == tail[0] && d[0x0c] == tail[1] && d[0x0d] == tail[2]
            && R16(d, 0x0e) == R16(tail, 0x03) && R16(d, 0x10) == R16(tail, 0x05) && R16(d, 0x12) == R16(tail, 0x07)
            && R16(d, 0x14) == R16(tail, 0x09) && R16(d, 0x16) == R16(tail, 0x0b) && R16(d, 0x18) == R16(tail, 0x0d)
            && R16(d, 0x1a) == R16(tail, 0x0f) && R32(d, 0x1c) == R32(tail, 0x11)
  {
  }

  lemma {:induction false} PrintablePadded(s: seq<byte>, n: nat)
    requires |s| <= n && forall i | 0 <= i < |s| :: s[i] > 0x20
    ensures Printable(Padded(s, n)) == s
  {
    if s != [] {
      assert Padded(s, n)[1..] == Padded(s[1..], n - 1);
      PrintablePadded(s[1..], n - 1);
    }
  }

  // ---- the checksum that ties a long name to its entry ----

  /** cksum_next */
  function CksumNext(cur: byte, c: byte): byte {
    (cur % 2 * 128 + cur / 2 + c) % 256
  }

  /** The sum is rotated by one bit to the right before the character is added. */
  lemma CksumRotates(x: byte, c: byte)
    ensures var r := (CksumNext(x, c) - c) % 256; r / 128 == x % 2 && r % 128 == x / 2
  {
    var r := x % 2 * 128 + x / 2;
    if r + c < 256 {
      assert CksumNext(x, c) == r + c;
    } else {
      assert CksumNext(x, c) == r + c - 256;
    }
  }

  /** Different sums stay different, and different characters make different sums. */
  lemma CksumInjective(x: byte, c: byte, y: byte, d: byte)
    requires CksumNext(x, c) == CksumNext(y, d)
    ensures x == y <==> c == d
  {
    CksumRotates(x, c);
    CksumRotates(y, d);
    if c == d {
      SameHalves(x, y);
    }
    if x == y {
      SameMod(CksumNext(x, c), c, d);
    }
  }

  lemma SameHalves(x: byte, y: byte)
    ensures x % 2 == y % 2 && x / 2 == y / 2 <==> x == y
  {
  }

  lemma SameMod(s: byte, c: byte, d: byte)
    ensures (s - c) % 256 == (s - d) % 256 <==> c == d
  {
  }

  function Cksum(s: seq<byte>): byte {
    if s == [] then 0 else CksumNext(Cksum(s[..|s| - 1]), s[|s| - 1])
  }

  function NameChecksum(name: seq<byte>, ext: seq<byte>): byte
    requires |name| <= 8 && |ext| <= 3
  {
    Cksum(Padded(name, 8) + Padded(ext, 3))
  }

  /** ufat_short_checksum */
  method ShortChecksum(name: seq<byte>, ext: seq<byte>) returns (sum: byte)
    requires |name| <= 8 && |ext| <= 3
    ensures sum == NameChecksum(name, ext)
  {
    ghost var all := Padded(name, 8) + Padded(ext, 3);
    sum := 0;
    assert all[..0] == [];
    hide Cksum, CksumNext;
    var i := 0;
    while i < |name|
      invariant i <= |name| && sum == Cksum(all[..i])
    {
      CksumStep(all, i, i + 1);
      sum := CksumNext(sum, name[i]);
      i := i + 1;
    }
    while i < 8
      invariant |name| <= i <= 8 && sum == Cksum(all[..i])
    {
      CksumStep(all, i, i + 1);
      sum := CksumNext(sum, 0x20);
      i := i + 1;
    }
    i := 0;
    while i < |ext|
      invariant i <= |ext| && sum == Cksum(all[..8 + i])
    {
      CksumStep(all, 8 + i, 8 + (i + 1));
      sum := CksumNext(sum, ext[i]);
      i := i + 1;
    }
    while i < 3
      invariant |ext| <= i <= 3 && sum == Cksum(all[..8 + i])
    {
      CksumStep(all, 8 + i, 8 + (i + 1));
      sum := CksumNext(sum, 0x20);
      i := i + 1;
    }
    assert all[..8 + i] == all;
  }

  lemma CksumStep(s: seq<byte>, i: nat, i': nat)
    requires i < |s| && i' == i + 1
    ensures Cksum(s[..i']) == CksumNext(Cksum(s[..i]), s[i])
  {
    assert s[..i'][..i] == s[..i];
  }

  /** Every bit of every character counts: a change of one of them changes the checksum. */
  lemma {:induction false} OneCharacter(a: seq<byte>, b: seq<byte>, i: nat)
    requires |a| == |b| && i < |a| && forall k | 0 <= k < |a| && k != i :: a[k] == b[k]
    ensures Cksum(a) == Cksum(b) <==> a[i] == b[i]
    decreases |a|
  {
    var n := |a| - 1;
    if i == n {
      assert a[..n] == b[..n];
    } else {
      OneCharacter(a[..n], b[..n], i);
    }
    hide CksumNext;
    if Cksum(a) == Cksum(b) {
      CksumInjective(Cksum(a[..n]), a[n], Cksum(b[..n]), b[n]);
    }
  }

  function Rotated(x: byte): byte { CksumNext(x, 0) }

  lemma RotatedTwo(x: byte)
    ensures Rotated(Rotated(x)) == x % 4 * 64 + x / 4
  {
    RotatedOne(x);
    RotatedOne(Rotated(x));
    hide Rotated;
    TwoBits(x, Rotated(x), x / 4, x / 2 % 2, x % 2);
  }

  lemma RotatedOne(x: byte)
    ensures Rotated(x) == x % 2 * 128 + x / 2
  {
  }

  lemma TwoBits(x: byte, a: int, q: int, s: int, r: int)
    requires q == x / 4 && s == x / 2 % 2 && r == x % 2 && a == r * 128 + x / 2
    ensures a % 2 * 128 + a / 2 == x % 4 * 64 + x / 4
  {
    assert x / 2 == q * 2 + s && x % 4 == s * 2 + r;
    DivModUnique(a, 2, r * 64 + q, s);
  }

  lemma RotatedFour(x: byte)
    ensures Rotated(Rotated(Rotated(Rotated(x)))) == x % 16 * 16 + x / 16
  {
    RotatedTwo(x);
    RotatedTwo(Rotated(Rotated(x)));
    hide Rotated;
    FourBits(x, Rotated(Rotated(x)), x / 16, x / 4 % 4, x % 4);
  }

  lemma FourBits(x: byte, a: int, q: int, s: int, r: int)
    requires q == x / 16 && s == x / 4 % 4 && r == x % 4 && a == r * 64 + x / 4
    ensures a % 4 * 64 + a / 4 == x % 16 * 16 + x / 16
  {
    assert x / 4 == q * 4 + s && x % 16 == s * 4 + r;
    DivModUnique(a, 4, r * 16 + q, s);
  }

  /** After eight characters of value 0 every bit is back where it was. */
  lemma RotatesBack(x: byte)
    ensures Rotated(Rotated(Rotated(Rotated(Rotated(Rotated(Rotated(Rotated(x)))))))) == x
  {
    var a := Rotated(Rotated(Rotated(Rotated(x))));
    RotatedFour(x);
    RotatedFour(a);
    hide Rotated;
    DivModUnique(a, 16, x % 16, x / 16);
  }

  /** A single character is its own sum. */
  lemma SingleCharacter(c: byte)
    ensures Cksum([c]) == c
  {
    assert [c][..0] == [];
  }

  function RecordChecksum(r: Record): byte {
    NameChecksum(Printable(r[..8]), Printable(r[8..11]))
  }
}
