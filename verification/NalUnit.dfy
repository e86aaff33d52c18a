/** The removal of emulation prevention bytes of h264/H264Analysis/nalu.c, against the insertion that sections 7.3.1
    and 7.4.1.1 of ITU-T H.264 prescribe. */
module NalUnit {
  import opened Integers

  /** The payload with a byte 3 wherever two zeros are followed by a byte of at most 3, and behind a final zero.
      `zeros` zeros come before it. */
  function Escaped(payload: seq<byte>, zeros: nat): seq<byte>
    decreases |payload|
  {
    if payload == [] then (if zeros > 0 then [3] else [])
    else
      var b, rest := payload[0], payload[1..];
      if zeros == 2 && b <= 3 then [3, b] + Escaped(rest, if b == 0 then 1 else 0)
      else [b] + Escaped(rest, if b == 0 then zeros + 1 else 0)
  }

  /** What nal_to_rbsp keeps of `s`. */
  function Kept(s: seq<byte>, count: nat): (r: seq<byte>)
    ensures |r| <= |s|
    decreases |s|
  {
    if s == [] then []
    else if count == 2 && s[0] == 3 then
      if |s| == 1 then [] else [s[1]] + Kept(s[2..], if s[1] == 0 then 1 else 0)
    else [s[0]] + Kept(s[1..], if s[0] == 0 then count + 1 else 0)
  }

  /** nal_to_rbsp, in place: the first `j` bytes are what is kept, and the others are left as they were. */
  method NalToRbsp(buf: array<byte>, len: nat) returns (j: nat)
    requires len <= buf.Length
    modifies buf
    ensures j <= len && buf[..j] == Kept(old(buf[..len]), 0)
    ensures buf[j..] == old(buf[..])[j..]
  {
    hide Kept;
    j := 0;
    var count := 0;
    var i := 0;
    ghost var s, done: seq<byte> := buf[..len], [];
    KeptStart(s);
    while i < len
      invariant j <= i <= len && |done| == j
      invariant buf[..j] == done && buf[j..] == old(buf[..])[j..]
      invariant done + Kept(s[i..], count) == Kept(s, 0)
    {
      ghost var c, from, was := count, i, done;
      assert buf[i] == s[i];
      if count == 2 && buf[i] == 3 {
        if i == len - 1 {
          break;
        } else {
          i := i + 1;
          count := 0;
        }
      }
      assert buf[i] == s[i];
      KeptStep(s, from, c, i);
      ghost var before := buf[..];
      buf[j] := buf[i];
      Placed(before, buf[..], old(buf[..]), j, s[i]);
      if buf[i] == 0 {
        count := count + 1;
      } else {
        count := 0;
      }
      Moved(done, s[i], Kept(s[i + 1..], count));
      done := done + [s[i]];
      j := j + 1;
      i := i + 1;
    }
    KeptEnd(s, i, count);
    assert done + [] == done;
  }

  lemma Placed(a: seq<byte>, b: seq<byte>, was: seq<byte>, j: nat, x: byte)
    requires |a| == |was| && j < |a| && b == a[j := x] && a[j..] == was[j..]
    ensures b[..j + 1] == a[..j] + [x] && b[j + 1..] == was[j + 1..]
  {
    assert a[j..][1..] == a[j + 1..] && was[j..][1..] == was[j + 1..];
  }

  lemma KeptStart(s: seq<byte>)
    ensures [] + Kept(s[0..], 0) == Kept(s, 0)
  {
    assert s[0..] == s;
  }

  lemma KeptEnd(s: seq<byte>, i: nat, count: nat)
    requires i <= |s| && (i < |s| ==> i == |s| - 1 && count == 2 && s[i] == 3)
    ensures Kept(s[i..], count) == []
  {
  }

  lemma Moved(a: seq<byte>, b: byte, c: seq<byte>)
    ensures a + ([b] + c) == a + [b] + c
  {
  }

  /** One round of the loop. */
  lemma KeptStep(s: seq<byte>, from: nat, count: nat, i: nat)
    requires from <= i < |s|
    requires i == if count == 2 && s[from] == 3 then from + 1 else from
    ensures var c := if i > from then 0 else count;
            Kept(s[from..], count) == [s[i]] + Kept(s[i + 1..], if s[i] == 0 then c + 1 else 0)
  {
    assert s[from..][1..] == s[from + 1..];
    if i > from {
      assert s[from..][2..] == s[i + 1..];
    }
  }

  /** The number of zeros, counted modulo the inserted bytes, that the decoder has seen last. */
  function LastZeros(payload: seq<byte>, zeros: nat): nat
    decreases |payload|
  {
    if payload == [] then zeros
    else
      var b, rest := payload[0], payload[1..];
      LastZeros(rest, if b != 0 then 0 else if zeros == 2 then 1 else zeros + 1)
  }

  /** What the decoder makes of an encoded payload: the payload, with one byte too many when it ends in an odd number of
      zeros. */
  lemma {:induction false} KeptEscaped(payload: seq<byte>, zeros: nat)
    requires zeros <= 2
    ensures Kept(Escaped(payload, zeros), zeros) == payload + (if LastZeros(payload, zeros) == 1 then [3] else [])
    decreases |payload|
  {
    hide Kept, Escaped;
    if payload != [] {
      var b, rest := payload[0], payload[1..];
      var z := if b != 0 then 0 else if zeros == 2 then 1 else zeros + 1;
      KeptEscaped(rest, z);
      OneEscaped(b, rest, zeros, z);
      var end: seq<byte> := if LastZeros(rest, z) == 1 then [3] else [];
      assert payload == [b] + rest && [b] + (rest + end) == [b] + rest + end;
    } else {
      NoneEscaped(zeros);
    }
  }

  lemma NoneEscaped(zeros: nat)
    requires zeros <= 2
    ensures Kept(Escaped([], zeros), zeros) == [] + if zeros == 1 then [3] else []
  {
  }

  /** The decoder gets the first byte back. */
  lemma OneEscaped(b: byte, rest: seq<byte>, zeros: nat, z: nat)
    requires zeros <= 2 && z == if b != 0 then 0 else if zeros == 2 then 1 else zeros + 1
    ensures Kept(Escaped([b] + rest, zeros), zeros) == [b] + Kept(Escaped(rest, z), z)
  {
    assert ([b] + rest)[1..] == rest;
    var e := Escaped(rest, z);
    if zeros == 2 && b <= 3 {
      assert Escaped([b] + rest, zeros) == [3, b] + e;
      hide Escaped;
      assert ([3, b] + e)[2..] == e;
    } else {
      assert Escaped([b] + rest, zeros) == [b] + e;
      hide Escaped;
      assert ([b] + e)[1..] == e;
    }
  }

  /** The length of the run of zeros at the end. */
  function TrailingZeros(payload: seq<byte>): nat {
    if payload == [] || payload[|payload| - 1] != 0 then 0 else 1 + TrailingZeros(payload[..|payload| - 1])
  }

  lemma {:induction false} LastZerosAppend(payload: seq<byte>, b: byte, zeros: nat)
    ensures var z := LastZeros(payload, zeros);
            LastZeros(payload + [b], zeros) == if b != 0 then 0 else if z == 2 then 1 else z + 1
    decreases |payload|
  {
    if payload == [] {
      assert (payload + [b])[1..] == [];
    } else {
      assert (payload + [b])[1..] == payload[1..] + [b];
      LastZerosAppend(payload[1..], b, if payload[0] != 0 then 0 else if zeros == 2 then 1 else zeros + 1);
    }
  }

  lemma {:induction false} LastZerosParity(payload: seq<byte>)
    ensures var t := TrailingZeros(payload); LastZeros(payload, 0) == if t == 0 then 0 else 2 - t % 2
    decreases |payload|
  {
    if payload != [] {
      var n := |payload| - 1;
      assert payload == payload[..n] + [payload[n]];
      LastZerosAppend(payload[..n], payload[n], 0);
      LastZerosParity(payload[..n]);
    }
  }

  /** Removing the emulation prevention bytes gives back the payload exactly when the payload ends in an even number of
      zeros. A raw byte sequence payload of the standard always does: it ends in a byte with the stop bit, which is not
      zero, or behind that in whole words 0x0000. */
  lemma RemovalInverts(payload: seq<byte>)
    ensures Kept(Escaped(payload, 0), 0) == payload <==> TrailingZeros(payload) % 2 == 0
    ensures TrailingZeros(payload) % 2 == 1 ==> Kept(Escaped(payload, 0), 0) == payload + [3]
  {
    KeptEscaped(payload, 0);
    LastZerosParity(payload);
    assert payload + [] == payload;
  }

  /** No two zeros are followed by a byte that makes a start code of them. */
  ghost predicate Safe(e: seq<byte>) {
    forall i | 0 <= i < |e| - 2 && e[i] == 0 && e[i + 1] == 0 :: e[i + 2] > 2
  }

  function Zeros(n: nat): (s: seq<byte>)
    ensures |s| == n
  {
    seq(n, _ => 0)
  }

  lemma Led(zeros: nat, b: byte, e: seq<byte>)
    requires zeros <= 2 && b != 0 && (zeros == 2 ==> b > 2) && Safe(e)
    ensures Safe(Zeros(zeros) + [b] + e)
  {
    var s := Zeros(zeros) + [b] + e;
    forall i | 0 <= i < |s| - 2 && s[i] == 0 && s[i + 1] == 0
      ensures s[i + 2] > 2
    {
      if i > zeros {
        assert e[i - zeros - 1] == s[i] && e[i - zeros - 1 + 1] == s[i + 1] && e[i - zeros - 1 + 2] == s[i + 2];
      }
    }
  }

  /** The encoded form never shows three bytes that could be taken for a start code. */
  lemma {:induction false} NoStartCode(payload: seq<byte>, zeros: nat)
    requires zeros <= 2
    ensures Safe(Zeros(zeros) + Escaped(payload, zeros))
    decreases |payload|
  {
    if payload == [] {
      assert |Escaped(payload, zeros)| <= 1 && (zeros == 2 ==> Escaped(payload, zeros) == [3]);
    } else {
      var b, rest := payload[0], payload[1..];
      var z := if b != 0 then 0 else if zeros == 2 then 1 else zeros + 1;
      var e := Escaped(rest, z);
      NoStartCode(rest, z);
      FirstEscaped(payload, zeros, z);
      hide Escaped, Safe, Zeros;
      if zeros == 2 && b <= 3 {
        if b != 0 {
          Led(0, b, Zeros(0) + e);
        }
        Led(2, 3, if b == 0 then Zeros(1) + e else Zeros(0) + [b] + (Zeros(0) + e));
      } else if b != 0 {
        Led(zeros, b, Zeros(0) + e);
      }
    }
  }

  /** What the first byte of a payload adds. */
  lemma FirstEscaped(payload: seq<byte>, zeros: nat, z: nat)
    requires payload != [] && zeros <= 2
    requires z == if payload[0] != 0 then 0 else if zeros == 2 then 1 else zeros + 1
    ensures var b, e := payload[0], Escaped(payload[1..], z);
            Zeros(zeros) + Escaped(payload, zeros)
            == if zeros == 2 && b <= 3 then
                 Zeros(2) + [3] + if b == 0 then Zeros(1) + e else Zeros(0) + [b] + (Zeros(0) + e)
               else if b == 0 then Zeros(zeros + 1) + e
               else Zeros(zeros) + [b] + (Zeros(0) + e)
  {
  }
}
