/** The bit reader of h264/H264Analysis/bs.h, and the Exp-Golomb codes of section 9.1 of ITU-T H.264 that it decodes. */
module BitStream {
  import opened Integers
  import opened Arith

  type bit = x: int | 0 <= x < 2

  // ---- bits and numbers ----

  /** `(b >> k) & 1` */
  function ShiftedBit(b: byte, k: nat): bit {
    b / Pow2(k) % 2
  }

  /** `b << k` for one bit, and `x << k`. */
  function ShiftedLeft(b: bit, k: nat): nat {
    if b == 0 then 0 else Pow2(k)
  }

  function Scaled(x: nat, k: nat): nat {
    x * Pow2(k)
  }

  /** The bits of a byte, the highest first. */
  function BitOf(b: byte, k: nat): bit
    requires k < 8
  {
    ShiftedBit(b, 7 - k)
  }

  function Bits(bytes: seq<byte>): (s: seq<bit>)
    ensures |s| == 8 * |bytes|
  {
    seq(8 * |bytes|, i requires 0 <= i < 8 * |bytes| => BitOf(bytes[i / 8], i % 8))
  }

  /** The number that bits stand for, the highest first. */
  function Number(s: seq<bit>): nat {
    if s == [] then 0
    else
      var n := |s| - 1;
      var low: nat := s[n];
      2 * Number(s[..n]) + low
  }

  lemma {:induction false} NumberAppend(s: seq<bit>, t: seq<bit>)
    ensures Number(s + t) == Number(s) * Pow2(|t|) + Number(t)
    decreases |t|
  {
    if t == [] {
      assert s + t == s;
    } else {
      var n := |t| - 1;
      assert (s + t)[..|s + t| - 1] == s + t[..n];
      NumberAppend(s, t[..n]);
      assert Pow2(|t|) == 2 * Pow2(n);
      Doubled(Number(s), Pow2(n));
    }
  }

  lemma Doubled(x: nat, p: nat)
    ensures 2 * (x * p) == x * (2 * p)
  {
  }

  /** The first bits of a byte are its highest ones. */
  lemma {:induction false} HighBits(b: byte, k: nat)
    requires k <= 8
    ensures Number(Bits([b])[..k]) == b / Pow2(8 - k)
  {
    if k == 0 {
      assert Pow2(8) == 256;
    } else {
      HighBits(b, k - 1);
      var s := Bits([b]);
      assert s[..k][..k - 1] == s[..k - 1] && s[k - 1] == BitOf(b, k - 1) == b / Pow2(8 - k) % 2;
      assert Pow2(8 - (k - 1)) == 2 * Pow2(8 - k);
      HalfQuotient(b, Pow2(8 - k));
    }
  }

  lemma HalfQuotient(b: nat, p: nat)
    requires 0 < p
    ensures b / p == 2 * (b / (2 * p)) + b / p % 2
  {
    var q, r := b / p, b % p;
    assert b == q * p + r && q == q / 2 * 2 + q % 2;
    assert q * p == q / 2 * (2 * p) + q % 2 * p;
    MulMono(q % 2, 1, p);
    DivModUnique(b, 2 * p, q / 2, q % 2 * p + r);
  }

  /** Bytes are read with the highest bit first, and the first byte is the highest. */
  lemma BytesToNumber(a: seq<byte>, b: byte)
    ensures Number(Bits([b])) == b
    ensures Number(Bits(a + [b])) == 0x100 * Number(Bits(a)) + b
  {
    HighBits(b, 8);
    assert Bits([b])[..8] == Bits([b]);
    assert Bits(a + [b]) == Bits(a) + Bits([b]);
    NumberAppend(Bits(a), Bits([b]));
    assert Pow2(0) == 1 && Pow2(8) == 256;
  }

  /** The last `n` binary digits of a number. */
  function Binary(x: nat, n: nat): (s: seq<bit>)
    ensures |s| == n
  {
    if n == 0 then [] else Binary(x / 2, n - 1) + [x % 2]
  }

  lemma {:induction false} NumberOfBinary(x: nat, n: nat)
    requires x < Pow2(n)
    ensures Number(Binary(x, n)) == x
  {
    if n > 0 {
      NumberOfBinary(x / 2, n - 1);
      assert Binary(x, n)[..n - 1] == Binary(x / 2, n - 1);
    }
  }

  // ---- reading ----

  /** Behind the end, every bit reads as 0. */
  function Head(s: seq<bit>): bit { if s == [] then 0 else s[0] }

  function Tail(s: seq<bit>): seq<bit> { if s == [] then [] else s[1..] }

  function Take(s: seq<bit>, n: nat): (t: seq<bit>)
    ensures |t| == n
  {
    if n == 0 then [] else [Head(s)] + Take(Tail(s), n - 1)
  }

  function Drop(s: seq<bit>, n: nat): seq<bit> {
    if n <= |s| then s[n..] else []
  }

  lemma {:induction false} TakePrefix(a: seq<bit>, b: seq<bit>)
    ensures Take(a + b, |a|) == a && Drop(a + b, |a|) == b
  {
    if a != [] {
      assert Tail(a + b) == a[1..] + b;
      TakePrefix(a[1..], b);
    }
  }

  /** bs_t. The reader never writes to the buffer, which is therefore a value. */
  class BitReader {
    const buf: seq<byte>
    var start: nat
    var p: nat
    var end: nat
    var bitsLeft: int

    ghost predicate Valid()
      reads this
    {
      1 <= bitsLeft <= 8 && end <= |buf|
    }

    /** The bits that have not been read. */
    ghost function Rest(): seq<bit>
      requires Valid()
      reads this
    {
      Drop(Bits(buf[..end]), 8 * p + 8 - bitsLeft)
    }

    /** bs_init */
    constructor (buf: seq<byte>, size: nat)
      requires size <= |buf|
      ensures Valid() && this.buf == buf && Rest() == Bits(buf[..size])
    {
      this.buf, start, p, end, bitsLeft := buf, 0, 0, size, 8;
    }

    /** bs_clone */
    constructor Clone(src: BitReader)
      requires src.Valid()
      ensures Valid() && buf == src.buf && Rest() == src.Rest()
    {
      buf, start, p, end, bitsLeft := src.buf, src.p, src.p, src.end, src.bitsLeft;
    }

    /** bs_eof: whole bytes are counted, but no bit of the last one is left either. */
    predicate Eof()
      reads this
    {
      p >= end
    }

    lemma EofIsEmpty()
      requires Valid()
      ensures Eof() <==> Rest() == []
    {
    }

    /** The bit that the shift and the mask select. */
    lemma NextBit()
      requires Valid() && !Eof()
      ensures Rest() != [] && Rest()[0] == BitOf(buf[p], 8 - bitsLeft)
      ensures ShiftedBit(buf[p], bitsLeft - 1) == Rest()[0]
    {
      var bits := Bits(buf[..end]);
      var k := 8 * p + 8 - bitsLeft;
      DivModUnique(k, 8, p, 8 - bitsLeft);
      assert bits[k] == BitOf(buf[..end][k / 8], k % 8);
    }

    /** bs_peek_u1 */
    method PeekU1() returns (r: bit)
      requires Valid()
      ensures r == Head(Rest())
    {
      EofIsEmpty();
      r := 0;
      if !Eof() {
        NextBit();
        r := ShiftedBit(buf[p], bitsLeft - 1);
      }
    }

    /** bs_read_u1 */
    method ReadU1() returns (r: bit)
      requires Valid()
      modifies this
      ensures Valid() && end == old(end)
      ensures r == Head(old(Rest())) && Rest() == Tail(old(Rest()))
    {
      hide Bits, BitOf, ShiftedBit, Pow2, Number, Drop, Tail;
      EofIsEmpty();
      r := 0;
      if !Eof() {
        NextBit();
      }
      var k := 8 * p + 8 - bitsLeft;
      DropNext(Bits(buf[..end]), k, k + 1);
      bitsLeft := bitsLeft - 1;
      if !Eof() {
        r := ShiftedBit(buf[p], bitsLeft);
      }
      if bitsLeft == 0 {
        p := p + 1;
        bitsLeft := 8;
      }
    }

    /** bs_read_u; the bits that are or-ed together do not overlap, so that they can be added. */
    method ReadU(n: nat) returns (r: nat)
      requires Valid() && n <= 32
      modifies this
      ensures Valid() && end == old(end)
      ensures r == Number(Take(old(Rest()), n)) && Rest() == Drop(old(Rest()), n)
    {
      hide *;
      r := 0;
      var i := 0;
      ghost var s := Rest();
      ReadStart(s, n);
      while i < n
        invariant i <= n && Valid() && end == old(end)
        invariant Rest() == Drop(s, i)
        invariant r == Scaled(Number(Take(s, i)), n - i)
      {
        var i', m := i + 1, n - i - 1;
        TakeOneMore(s, i, i');
        ScaledNext(Number(Take(s, i)), Head(Drop(s, i)), m, n - i);
        var b := ReadU1();
        r := r + ShiftedLeft(b, m);
        i := i';
      }
    }
  }

  lemma ReadStart(s: seq<bit>, n: nat)
    ensures Drop(s, 0) == s && Scaled(Number(Take(s, 0)), n) == 0
    ensures Scaled(Number(Take(s, n)), 0) == Number(Take(s, n))
  {
  }

  lemma ScaledNext(x: nat, b: bit, k: nat, k': nat)
    requires k' == k + 1
    ensures Scaled(x, k') + ShiftedLeft(b, k) == Scaled(2 * x + b, k)
  {
    var p := Pow2(k);
    assert Pow2(k') == 2 * p;
    assert x * (2 * p) == 2 * x * p;
    assert (2 * x + b) * p == 2 * x * p + b * p;
  }

  lemma DropNext(s: seq<bit>, k: nat, k': nat)
    requires k' == k + 1
    ensures Drop(s, k') == Tail(Drop(s, k))
  {
  }

  lemma {:induction false} TakeLast(s: seq<bit>, n: nat)
    ensures Take(s, n + 1) == Take(s, n) + [Head(Drop(s, n))] && Drop(s, n + 1) == Tail(Drop(s, n))
  {
    if n > 0 {
      TakeLast(Tail(s), n - 1);
      assert Drop(Tail(s), n - 1) == Drop(s, n);
    } else {
      assert Drop(s, 0) == s;
    }
  }

  lemma TakeOneMore(s: seq<bit>, n: nat, n': nat)
    requires n' == n + 1
    ensures Drop(s, n') == Tail(Drop(s, n))
    ensures Number(Take(s, n')) == 2 * Number(Take(s, n)) + Head(Drop(s, n))
  {
    TakeLast(s, n);
    var t := Take(s, n);
    assert (t + [Head(Drop(s, n))])[..n] == t;
  }

  // ---- Exp-Golomb codes ----

  /** The number of bits of `x` behind its highest one. */
  function Log2(x: nat): (n: nat)
    requires x > 0
    ensures Pow2(n) <= x < Pow2(n + 1)
  {
    if x == 1 then 0 else 1 + Log2(x / 2)
  }

  function Zeros(n: nat): (s: seq<bit>)
    ensures |s| == n
  {
    seq(n, _ => 0)
  }

  /** ue(v): as many zeros as there are bits behind the highest one of `v + 1`, and then `v + 1`. */
  function CodeUe(v: nat): seq<bit> {
    Zeros(Log2(v + 1)) + Binary(v + 1, Log2(v + 1) + 1)
  }

  /** se(v): the positive numbers are the odd code numbers. */
  function CodeNumber(v: int): nat {
    if v > 0 then 2 * v - 1 else -2 * v
  }

  function CodeSe(v: int): seq<bit> {
    CodeUe(CodeNumber(v))
  }

  /** The loop over the leading zeros: their number, and what is left. */
  function Scan(s: seq<bit>, i: nat): (r: (nat, seq<bit>))
    requires i <= 32
    ensures i <= r.0 <= 32
    decreases |s|
  {
    if Head(s) == 0 && i < 32 && Tail(s) != [] then Scan(Tail(s), i + 1) else (i, Tail(s))
  }

  /** What bs_read_ue returns, for a number of leading zeros that its int32_t arithmetic can take. */
  function ValueUe(s: seq<bit>): nat {
    var (i, rest) := Scan(s, 0);
    Number(Take(rest, i)) + Pow2(i) - 1
  }

  function RestUe(s: seq<bit>): seq<bit> {
    var (i, rest) := Scan(s, 0);
    Drop(rest, i)
  }

  lemma ScanStep(s: seq<bit>, i: nat, i': nat)
    requires i <= 32 && i' == i + 1
    ensures Scan(s, i) == if Head(s) == 0 && i < 32 && Tail(s) != [] then Scan(Tail(s), i') else (i, Tail(s))
  {
  }

  lemma {:induction false} ScanZeros(n: nat, i: nat, tail: seq<bit>)
    requires i + n <= 32
    ensures Scan(Zeros(n) + [1] + tail, i) == (i + n, tail)
  {
    var s := Zeros(n) + [1] + tail;
    if n > 0 {
      assert Tail(s) == Zeros(n - 1) + [1] + tail;
      ScanZeros(n - 1, i + 1, tail);
    } else {
      assert Tail(s) == tail;
    }
  }

  /** The highest digit of a number that needs all its digits is 1. */
  lemma {:induction false} LeadingOne(x: nat, n: nat)
    requires Pow2(n) <= x < Pow2(n + 1)
    ensures Binary(x, n + 1) == [1] + Binary(x - Pow2(n), n)
  {
    if n == 0 {
      assert x == 1;
      assert Binary(1, 1) == Binary(0, 0) + [1];
    } else {
      LeadingOne(x / 2, n - 1);
      assert (x - Pow2(n)) / 2 == x / 2 - Pow2(n - 1) && (x - Pow2(n)) % 2 == x % 2;
    }
  }

  lemma Regrouped(a: seq<bit>, b: seq<bit>, c: seq<bit>, d: seq<bit>)
    ensures a + (b + c) + d == a + b + (c + d)
  {
  }

  lemma FewDigits(x: nat)
    requires 0 < x < 0x8000_0000
    ensures Log2(x) <= 30
  {
    var n := Log2(x);
    hide Log2;
    if n > 30 {
      Pow2Mono(31, n);
      Pow2Of31();
      assert false;
    }
  }

  /** A code word is `n` zeros, a one and the other `n` digits of `v + 1`. */
  lemma UeCode(v: nat, n: nat, info: seq<bit>)
    requires v <= 0x7fff_fffe && n == Log2(v + 1) && info == Binary(v + 1 - Pow2(n), n)
    ensures CodeUe(v) == Zeros(n) + ([1] + info) && n <= 30 && Number(info) + Pow2(n) - 1 == v
  {
    FewDigits(v + 1);
    LeadingOne(v + 1, n);
    assert Pow2(n + 1) == 2 * Pow2(n);
    NumberOfBinary(v + 1 - Pow2(n), n);
  }

  /** A code word is decoded to its value and consumed exactly, whatever follows it. */
  lemma UeInverts(v: nat, tail: seq<bit>)
    requires v <= 0x7fff_fffe
    ensures Scan(CodeUe(v) + tail, 0).0 <= 30
    ensures ValueUe(CodeUe(v) + tail) == v && RestUe(CodeUe(v) + tail) == tail
  {
    var n := Log2(v + 1);
    var info := Binary(v + 1 - Pow2(n), n);
    UeCode(v, n, info);
    hide Take, Drop, Number, Pow2, Log2, Binary, Scan, CodeUe;
    Regrouped(Zeros(n), [1], info, tail);
    ScanZeros(n, 0, info + tail);
    TakePrefix(info, tail);
  }

  /** bs_read_ue. With more than 30 leading zeros, `1 << i` overflows and the result is not determined. */
  method ReadUe(b: BitReader) returns (r: nat)
    requires b.Valid()
    modifies b
    ensures b.Valid() && b.end == old(b.end) && b.Rest() == RestUe(old(b.Rest()))
    ensures Scan(old(b.Rest()), 0).0 <= 30 ==> r == ValueUe(old(b.Rest()))
  {
    hide BitReader.Rest, Bits, Drop, Take, Number, Pow2, Head, Tail, Scan;
    ghost var s := b.Rest();
    var i := 0;
    ScanStep(s, 0, 1);
    var bit := b.ReadU1();
    b.EofIsEmpty();
    while bit == 0 && i < 32 && !b.Eof()
      invariant b.Valid() && b.end == old(b.end) && i <= 32
      invariant b.Eof() <==> b.Rest() == []
      invariant Scan(s, 0) == if bit == 0 && i < 32 && b.Rest() != [] then Scan(b.Rest(), i + 1) else (i, b.Rest())
      decreases 32 - i
    {
      i := i + 1;
      ScanStep(b.Rest(), i, i + 1);
      bit := b.ReadU1();
      b.EofIsEmpty();
    }
    r := b.ReadU(i);
    if i <= 30 {
      r := r + Pow2(i) - 1;
    } else {
      r := *;
    }
  }

  /** bs_read_se */
  method ReadSe(b: BitReader) returns (r: int)
    requires b.Valid()
    modifies b
    ensures b.Valid() && b.end == old(b.end) && b.Rest() == RestUe(old(b.Rest()))
    ensures Scan(old(b.Rest()), 0).0 <= 30 ==> r == SignedValue(ValueUe(old(b.Rest())))
  {
    var k: int := ReadUe(b);
    if k % 2 == 1 {
      r := (k + 1) / 2;
    } else {
      r := -(k / 2);
    }
  }

  function SignedValue(k: nat): int {
    if k % 2 == 1 then (k + 1) / 2 else -(k / 2)
  }

  lemma SeInverts(v: int, tail: seq<bit>)
    requires -0x3fff_ffff <= v <= 0x3fff_ffff
    ensures Scan(CodeSe(v) + tail, 0).0 <= 30
    ensures SignedValue(ValueUe(CodeSe(v) + tail)) == v && RestUe(CodeSe(v) + tail) == tail
  {
    hide CodeUe, Scan, ValueUe, RestUe;
    UeInverts(CodeNumber(v), tail);
  }

  /** A syntax element: an unsigned or a signed number. */
  datatype Element = Ue(value: int) | Se(value: int)

  predicate Codable(e: Element) {
    match e case Ue(v) => 0 <= v <= 0x7fff_fffe case Se(v) => -0x3fff_ffff <= v <= 0x3fff_ffff
  }

  function Code(e: Element): seq<bit>
    requires Codable(e)
  {
    match e case Ue(v) => CodeUe(v) case Se(v) => CodeSe(v)
  }

  function CodeAll(es: seq<Element>): seq<bit>
    requires forall i | 0 <= i < |es| :: Codable(es[i])
  {
    if es == [] then [] else Code(es[0]) + CodeAll(es[1..])
  }

  /** Reading elements of the kinds that were written gives back the list, at any place in a stream. */
  method ReadAll(b: BitReader, signed: seq<bool>, ghost es: seq<Element>, ghost tail: seq<bit>) returns (rs: seq<int>)
    requires forall i | 0 <= i < |es| :: Codable(es[i])
    requires |signed| == |es| && forall i | 0 <= i < |es| :: signed[i] <==> es[i].Se?
    requires b.Valid() && b.Rest() == CodeAll(es) + tail
    modifies b
    ensures b.Valid() && b.Rest() == tail
    ensures |rs| == |es| && forall i | 0 <= i < |es| :: rs[i] == es[i].value
  {
    rs := [];
    var k := 0;
    hide BitReader.Rest, ValueUe, RestUe, CodeUe, CodeSe, Scan, SignedValue;
    while k < |signed|
      invariant k <= |es| && b.Valid() && b.Rest() == CodeAll(es[k..]) + tail
      invariant |rs| == k && forall i | 0 <= i < k :: rs[i] == es[i].value
    {
      var rest := es[k..];
      assert rest[1..] == es[k + 1..];
      assert CodeAll(rest) + tail == Code(es[k]) + (CodeAll(es[k + 1..]) + tail);
      var r: int;
      if signed[k] {
        SeInverts(es[k].value, CodeAll(es[k + 1..]) + tail);
        r := ReadSe(b);
      } else {
        UeInverts(es[k].value, CodeAll(es[k + 1..]) + tail);
        r := ReadUe(b);
      }
      rs := rs + [r];
      k := k + 1;
    }
    assert CodeAll([]) + tail == tail;
  }

  // ---- the end of the data ----

  /** Nothing, or the stop bit and zeros (section 7.2). */
  ghost predicate OnlyTrailing(s: seq<bit>) {
    s == [] || (s[0] == 1 && forall i | 0 < i < |s| :: s[i] == 0)
  }

  /** more_rbsp_data: looks ahead with a clone and leaves the reader where it is. */
  method MoreRbspData(b: BitReader) returns (more: bool)
    requires b.Valid()
    ensures more <==> !OnlyTrailing(b.Rest())
  {
    hide BitReader.Rest, Bits, Drop, Take, Number, Pow2, Binary, ShiftedBit, Head, Tail;
    b.EofIsEmpty();
    if b.Eof() {
      return false;
    }
    var next := b.PeekU1();
    SuffixStep(b.Rest(), 0);
    assert b.Rest()[0..] == b.Rest();
    if next == 0 {
      return true;
    }
    var temp := new BitReader.Clone(b);
    ghost var s := b.Rest();
    ghost var k := 1;
    SuffixStep(s, 0);
    assert s[0..] == s;
    var first := temp.ReadU1();
    temp.EofIsEmpty();
    while !temp.Eof()
      invariant temp.Valid() && fresh(temp) && b.Valid() && b.Rest() == s
      invariant 1 <= k <= |s| && temp.Rest() == s[k..] && (temp.Eof() <==> temp.Rest() == [])
      invariant forall i | 0 < i < k :: s[i] == 0
      decreases |s| - k
    {
      SuffixStep(s, k);
      var bit := temp.ReadU1();
      temp.EofIsEmpty();
      hide BitReader.Valid;
      if bit == 1 {
        return true;
      }
      k := k + 1;
    }
    return false;
  }

  lemma SuffixStep(s: seq<bit>, k: nat)
    requires k < |s|
    ensures Head(s[k..]) == s[k] && Tail(s[k..]) == s[k + 1..]
    ensures 0 < k && s[k] == 1 ==> !OnlyTrailing(s)
  {
  }
}
