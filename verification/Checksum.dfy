/** The Internet checksum of tcpip/common/utils.c (RFC 1071). The 16-bit words are read as the machine stores them,
    the low byte first. */
module Checksum {
  import opened Arith
  import opened Integers

  const M: nat := 0xffff

  /** The exact sum of the words of `data`; a byte left over counts as a word with a zero high byte. */
  function WordSum(data: seq<byte>): nat {
    if data == [] then 0
    else if |data| == 1 then var b: nat := data[0]; b
    else
      var lo: nat, hi: nat := data[0], data[1];
      lo + 0x100 * hi + WordSum(data[2..])
  }

  /** A last odd byte counts as if a byte 0 followed. */
  lemma {:induction false} OddByte(data: seq<byte>)
    requires |data| % 2 == 1
    ensures WordSum(data) == WordSum(data + [0])
  {
    if |data| > 1 {
      OddByte(data[2..]);
      assert (data + [0])[2..] == data[2..] + [0];
    } else {
      assert (data + [0])[2..] == [];
    }
  }

  /** Every byte counts in its place: a low one for itself, a high one for 256 times as much. */
  lemma {:induction false} ByteWeight(data: seq<byte>, i: nat, b: byte)
    requires i < |data|
    ensures WordSum(data[i := b]) == WordSum(data) + (b - data[i]) * (if i % 2 == 0 then 1 else 0x100)
    decreases i
  {
    var data' := data[i := b];
    if i >= 2 {
      ByteWeight(data[2..], i - 2, b);
      assert data'[2..] == data[2..][i - 2 := b];
    } else {
      assert |data| >= 2 ==> data'[2..] == data[2..];
    }
  }

  /** sum_every_16bits, with the 32-bit sum wrapping around. */
  method SumEvery16Bits(data: seq<byte>) returns (sum: uint32)
    ensures sum == WordSum(data) % 0x1_0000_0000
  {
    sum := 0;
    var i := 0;
    ghost var exact: nat := 0;
    while |data| - i > 1
      invariant 0 <= i <= |data| && exact + WordSum(data[i..]) == WordSum(data)
      invariant sum == exact % 0x1_0000_0000
    {
      var lo: nat, hi: nat := data[i], data[i + 1];
      assert data[i..][2..] == data[i + 2..];
      var word := lo + 0x100 * hi;
      Wrapped(exact, word);
      exact := exact + word;
      sum := (sum + word) % 0x1_0000_0000;
      i := i + 2;
    }
    if |data| - i > 0 {
      var b: nat := data[i];
      Wrapped(exact, b);
      sum := (sum + b) % 0x1_0000_0000;
    }
  }

  lemma Wrapped(a: nat, b: nat)
    ensures (a % 0x1_0000_0000 + b) % 0x1_0000_0000 == (a + b) % 0x1_0000_0000
  {
  }

  /** What folding leaves of a sum: its value modulo 0xffff, with 0xffff for the multiples that are not zero. */
  function Folded(sum: nat): (r: uint16)
    ensures r % M == sum % M && (r == 0 <==> sum == 0)
  {
    if sum == 0 then 0 else if sum % M == 0 then M else sum % M
  }

  /** The same value modulo 0xffff, and 0 only for 0. */
  predicate Folds(sum: nat, all: nat) { sum % M == all % M && (sum == 0 <==> all == 0) }

  lemma FoldsItself(sum: nat)
    ensures Folds(sum, sum)
  {
  }

  lemma FoldStep(sum: nat, all: nat)
    requires Folds(sum, all) && sum / 0x1_0000 > 0
    ensures 0 < sum % 0x1_0000 + sum / 0x1_0000 < sum
    ensures Folds(sum % 0x1_0000 + sum / 0x1_0000, all)
  {
    var q, r := sum / 0x1_0000, sum % 0x1_0000;
    assert sum == q * M + (q + r);
    DivModUnique(sum, M, q + (q + r) / M, (q + r) % M);
  }

  lemma FoldedIs(all: nat, sum: nat)
    requires Folds(sum, all) && sum / 0x1_0000 == 0
    ensures sum == Folded(all) && 0 <= M - sum < 0x1_0000
  {
  }

  /** checksum: the complement of the folded sum. */
  method Checksum(data: seq<byte>, startSum: uint32) returns (r: uint16)
    ensures r == M - Folded((startSum + WordSum(data)) % 0x1_0000_0000)
  {
    hide *;
    var s := SumEvery16Bits(data);
    StartAdded(startSum, s, WordSum(data));
    var sum: nat := (startSum + s) % 0x1_0000_0000;
    ghost var all := sum;
    FoldsItself(sum);
    while sum / 0x1_0000 > 0
      invariant Folds(sum, all)
      decreases sum
    {
      FoldStep(sum, all);
      sum := sum % 0x1_0000 + sum / 0x1_0000;
    }
    FoldedIs(all, sum);
    r := M - sum;
  }

  lemma StartAdded(start: nat, s: nat, w: nat)
    requires s == w % 0x1_0000_0000
    ensures (start + s) % 0x1_0000_0000 == (start + w) % 0x1_0000_0000
  {
    Wrapped(w, start);
  }

  /** The header with the word at byte `o` replaced. */
  function Stored(data: seq<byte>, o: nat, w: uint16): (d: seq<byte>)
    requires o + 2 <= |data|
    ensures |d| == |data|
  {
    data[o := w % 0x100][o + 1 := w / 0x100]
  }

  lemma {:induction false} StoredSum(data: seq<byte>, o: nat, w: uint16)
    requires o % 2 == 0 && o + 2 <= |data|
    ensures WordSum(Stored(data, o, w)) == WordSum(Stored(data, o, 0)) + w
  {
    if o > 0 {
      assert Stored(data, o, w)[2..] == Stored(data[2..], o - 2, w);
      assert Stored(data, o, 0)[2..] == Stored(data[2..], o - 2, 0);
      StoredSum(data[2..], o - 2, w);
    } else {
      assert Stored(data, o, w)[2..] == data[2..] && Stored(data, o, 0)[2..] == data[2..];
    }
  }

  lemma {:induction false} SumBound(data: seq<byte>)
    ensures WordSum(data) <= (|data| + 1) / 2 * M
  {
    if |data| > 1 {
      SumBound(data[2..]);
      assert (|data| + 1) / 2 == 1 + (|data| - 1) / 2;
      assert (1 + (|data| - 1) / 2) * M == M + (|data| - 1) / 2 * M;
    }
  }

  /** The result for a sum that does not overflow. */
  function Result(sum: nat): uint16 {
    M - Folded(sum)
  }

  /** A header that stores its own checksum in an aligned word is found to be intact. */
  lemma StoredChecksumVerifies(header: seq<byte>, o: nat, start: nat)
    requires o % 2 == 0 && o + 2 <= |header|
    ensures var c := Result(start + WordSum(Stored(header, o, 0)));
            Result(start + WordSum(Stored(header, o, c))) == 0
  {
    var s := start + WordSum(Stored(header, o, 0));
    StoredSum(header, o, Result(s));
    Complements(s);
  }

  /** The method computes this result as long as the 32-bit sum does not overflow, which it cannot in a packet that an
      IPv4 header can describe. */
  lemma NoOverflow(data: seq<byte>, start: nat)
    requires |data| <= 0x1_0000 && start <= 0x1_0000
    ensures start + WordSum(data) < 0x1_0000_0000
  {
    SumBound(data);
    MulMono((|data| + 1) / 2, 0x8000, M);
  }

  method ChecksumVerifies(header: seq<byte>, o: nat) returns (c: uint16, check: uint16)
    requires o % 2 == 0 && o + 2 <= |header| <= 0x1_0000
    ensures c == Result(WordSum(Stored(header, o, 0))) && check == 0
  {
    hide *;
    NoOverflow(Stored(header, o, 0), 0);
    NotWrapped(WordSum(Stored(header, o, 0)));
    c := Checksum(Stored(header, o, 0), 0);
    NoOverflow(Stored(header, o, c), 0);
    NotWrapped(WordSum(Stored(header, o, c)));
    StartAtZero(WordSum(Stored(header, o, 0)), WordSum(Stored(header, o, c)));
    StoredChecksumVerifies(header, o, 0);
    check := Checksum(Stored(header, o, c), 0);
  }

  lemma NotWrapped(sum: nat)
    requires sum < 0x1_0000_0000
    ensures M - Folded((0 + sum) % 0x1_0000_0000) == Result(sum)
  {
  }

  lemma StartAtZero(a: nat, b: nat)
    ensures Result(0 + a) == Result(a) && Result(0 + b) == Result(b)
  {
  }

  lemma Complements(s: nat)
    ensures Result(s + Result(s)) == 0
  {
    var f := Folded(s);
    assert s == s / M * M + s % M;
    var k := if s == 0 then 0 else if s % M == 0 then s / M - 1 else s / M;
    assert s == k * M + f;
    assert s + (M - f) == (k + 1) * M;
    DivModUnique(s + (M - f), M, k + 1, 0);
  }

  /** Of all changes of one aligned word, the check misses only an exchange of 0 and 0xffff. */
  lemma OneWordChange(header: seq<byte>, o: nat, w: uint16, w': uint16)
    requires o % 2 == 0 && o + 2 <= |header| && w < w'
    requires Result(WordSum(Stored(header, o, w))) == 0
    ensures Result(WordSum(Stored(header, o, w'))) == 0 <==> w == 0 && w' == M
  {
    StoredSum(header, o, w);
    StoredSum(header, o, w');
    var s := WordSum(Stored(header, o, w));
    assert s % M == 0 && s > 0;
    assert s == s / M * M;
    DivModUnique(s + (w' - w), M, if w' - w == M then s / M + 1 else s / M, if w' - w == M then 0 else w' - w);
  }
}
