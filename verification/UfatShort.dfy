/** Short names (mysh/fs/ufat_ent.c): the one that is made from a long name, and the numbering that looks for a free
    one. */
module UfatShort {
  import opened Integers

  const TILDE: byte := 0x7e
  const DOT: byte := 0x2e
  const MINUS: byte := 0x2d
  const ZERO: byte := 0x30

  predicate IsDigit(c: byte) { 0x30 <= c <= 0x39 }

  function ToUpper(c: byte): byte { if 0x61 <= c <= 0x7a then c - 32 else c }

  /** is_legal_dos_char */
  predicate IsLegalDosChar(c: byte) {
    || 0x30 <= c <= 0x39 || 0x41 <= c <= 0x5a || 0x61 <= c <= 0x7a
    || 0x21 <= c <= 0x29 || c == 0x2d || c == 0x40 || 0x5e <= c <= 0x60 || c == 0x7b || c == 0x7d || c == 0x7e
  }

  /** The printable characters but these: all that the FAT specification allows, and the quotation mark. */
  lemma LegalDosChars(c: byte)
    ensures IsLegalDosChar(c) <==> 0x20 < c < 0x7f && (c as char) !in "*+,./:;<=>?[\\]|"
  {
    var not := "*+,./:;<=>?[\\]|";
    assert not[0] == '*' && not[1] == '+' && not[2] == ',' && not[3] == '.' && not[4] == '/' && not[5] == ':';
    assert not[6] == ';' && not[7] == '<' && not[8] == '=' && not[9] == '>' && not[10] == '?' && not[11] == '[';
    assert not[12] == '\\' && not[13] == ']' && not[14] == '|' && |not| == 15;
  }

  /** The characters that the source compares with. */
  lemma Characters()
    ensures TILDE == Ascii('~') && DOT == Ascii('.') && MINUS == Ascii('-') && ZERO == Ascii('0')
    ensures forall c: byte :: IsDigit(c) <==> Ascii('0') <= c <= Ascii('9')
    ensures forall c: byte :: IsSlash(c) <==> c == Ascii('/') || c == Ascii('\\')
  {
  }

  /** The characters of a short name: legal, and no small letters. */
  predicate DosChars(s: seq<byte>) {
    forall i | 0 <= i < |s| :: IsLegalDosChar(s[i]) && ToUpper(s[i]) == s[i]
  }

  predicate DosName(s: seq<byte>) { 1 <= |s| <= 8 && DosChars(s) }

  // ---- comparing ----

  function Upper(s: seq<byte>): (r: seq<byte>)
    ensures |r| == |s|
  {
    seq(|s|, i requires 0 <= i < |s| => ToUpper(s[i]))
  }

  /** The same character, or a small letter and its capital. */
  predicate SameLetter(a: byte, b: byte) {
    || a == b
    || (Ascii('a') <= a <= Ascii('z') && b == a - Ascii('a') + Ascii('A'))
    || (Ascii('a') <= b <= Ascii('z') && a == b - Ascii('a') + Ascii('A'))
  }

  /** Two names are equal in capitals exactly when they differ in nothing but small letters and capitals. */
  lemma UpperMeans(a: seq<byte>, b: seq<byte>)
    ensures Upper(a) == Upper(b) <==> |a| == |b| && forall i | 0 <= i < |a| :: SameLetter(a[i], b[i])
  {
    if Upper(a) == Upper(b) {
      assert forall i | 0 <= i < |a| :: Upper(a)[i] == ToUpper(a[i]) && Upper(b)[i] == ToUpper(b[i]);
    }
  }

  lemma UpperOfDos(s: seq<byte>)
    requires DosChars(s)
    ensures Upper(s) == s
  {
  }

  predicate IsSlash(c: byte) { c == 0x2f || c == 0x5c }

  /** What is compared: the whole name, or the name up to the first slash. */
  function Component(name: seq<byte>, componentOnly: bool): (r: seq<byte>)
    ensures |r| <= |name| && r == name[..|r|]
  {
    if name == [] || (componentOnly && IsSlash(name[0])) then []
    else [name[0]] + Component(name[1..], componentOnly)
  }

  lemma {:induction false} ComponentEnd(name: seq<byte>, componentOnly: bool, m: nat)
    requires m <= |name| && forall i | 0 <= i < m :: !(componentOnly && IsSlash(name[i]))
    ensures m <= |Component(name, componentOnly)|
    ensures m == |name| || (componentOnly && IsSlash(name[m])) ==> |Component(name, componentOnly)| == m
    decreases m
  {
    if m > 0 {
      ComponentEnd(name[1..], componentOnly, m - 1);
    }
  }

  lemma {:induction false} WholeName(name: seq<byte>)
    ensures Component(name, false) == name
  {
    if name != [] {
      WholeName(name[1..]);
    }
  }

  /** ufat_compare_name: how much of the name has matched, or -1. */
  method CompareName(searchName: seq<byte>, dirName: seq<byte>, componentOnly: bool) returns (m: int)
    ensures var name := Component(searchName, componentOnly); m == if Upper(name) == Upper(dirName) then |name| else -1
  {
    hide Component;
    ghost var name := Component(searchName, componentOnly);
    m := 0;
    while m < |searchName|
      invariant 0 <= m <= |searchName| && m <= |dirName|
      invariant forall i | 0 <= i < m :: !(componentOnly && IsSlash(searchName[i]))
      invariant forall i | 0 <= i < m :: ToUpper(searchName[i]) == ToUpper(dirName[i])
    {
      ComponentEnd(searchName, componentOnly, m);
      if componentOnly && IsSlash(searchName[m]) {
        break;
      }
      ComponentEnd(searchName, componentOnly, m + 1);
      if m >= |dirName| {
        return -1;
      }
      if ToUpper(searchName[m]) != ToUpper(dirName[m]) {
        Differs(name, dirName, m);
        return -1;
      }
      m := m + 1;
    }
    ComponentEnd(searchName, componentOnly, m);
    if m < |dirName| {
      return -1;
    }
    assert name == searchName[..m];
  }

  lemma Differs(a: seq<byte>, b: seq<byte>, m: nat)
    requires m < |a| && m < |b| && ToUpper(a[m]) != ToUpper(b[m])
    ensures Upper(a) != Upper(b)
  {
    assert Upper(a)[m] != Upper(b)[m];
  }

  // ---- the first short name ----

  /** The legal characters of a name, in capitals. */
  function Capitals(s: seq<byte>): (r: seq<byte>)
    ensures DosChars(r)
  {
    if s == [] then []
    else
      var c := s[|s| - 1];
      Capitals(s[..|s| - 1]) + if IsLegalDosChar(c) then [ToUpper(c)] else []
  }

  function Limit(s: seq<byte>, n: nat): seq<byte> { if |s| <= n then s else s[..n] }

  lemma {:induction false} CapitalsGrow(s: seq<byte>, i: nat, n: nat)
    requires i <= |s| && n <= |Capitals(s[..i])|
    ensures n <= |Capitals(s)| && Capitals(s)[..n] == Capitals(s[..i])[..n]
    decreases |s|
  {
    if i < |s| {
      var t := s[..|s| - 1];
      assert t[..i] == s[..i];
      CapitalsGrow(t, i, n);
    } else {
      assert s[..i] == s;
    }
  }

  /** The loops that collect the first `max` legal characters. */
  method Collect(s: seq<byte>, max: nat) returns (r: seq<byte>)
    ensures r == Limit(Capitals(s), max)
  {
    r := [];
    var i := 0;
    assert s[..0] == [];
    while |r| < max && i < |s|
      invariant i <= |s| && |r| <= max && r == Capitals(s[..i])
    {
      assert s[..i + 1][..i] == s[..i];
      if IsLegalDosChar(s[i]) {
        r := r + [ToUpper(s[i])];
      }
      i := i + 1;
    }
    if |r| == max {
      CapitalsGrow(s, i, max);
    } else {
      assert s[..i] == s;
    }
  }

  /** The place of the extension: behind the last dot, unless the name starts with it. */
  predicate ExtensionAt(long: seq<byte>, e: nat) {
    || (2 <= e <= |long| && long[e - 1] == DOT && DOT !in long[e..])
    || (e == |long| && forall i | 1 <= i < |long| :: long[i] != DOT)
  }

  /** What ufat_short_first makes of a name whose extension starts at `e`. */
  predicate FirstShortAt(long: seq<byte>, e: nat, name: seq<byte>, ext: seq<byte>) {
    && e <= |long| && ExtensionAt(long, e)
    && ext == Limit(Capitals(long[e..]), 3)
    && name == if Capitals(long[..e]) == [] then seq(8, _ => TILDE) else Limit(Capitals(long[..e]), 8)
  }

  /** ufat_short_first */
  method ShortFirst(long: seq<byte>) returns (name: seq<byte>, ext: seq<byte>, ghost e: nat)
    ensures FirstShortAt(long, e, name, ext) && DosName(name) && |ext| <= 3 && DosChars(ext)
  {
    var at := |long|;
    while at >= 0 && !(at < |long| && long[at] == DOT)
      invariant -1 <= at <= |long| && forall i | at < i < |long| :: long[i] != DOT
    {
      at := at - 1;
    }
    if at > 0 {
      at := at + 1;
    } else {
      at := |long|;
    }
    e := at;
    ext := Collect(long[at..], 3);
    name := Collect(long[..at], 8);
    if |name| == 0 {
      name := seq(8, _ => TILDE);
    }
  }

  // ---- numbering ----

  function Digits(n: nat): (r: seq<byte>)
    ensures AllDigits(r)
  {
    if n == 0 then [] else Digits(n / 10) + [n % 10 + ZERO]
  }

  /** The number that the digits at the start of `s` make. */
  function Number(s: seq<byte>): nat {
    if s == [] then 0
    else if IsDigit(s[|s| - 1]) && AllDigits(s[..|s| - 1]) then Number(s[..|s| - 1]) * 10 + (s[|s| - 1] - ZERO)
    else Number(s[..|s| - 1])
  }

  predicate AllDigits(s: seq<byte>) { forall i | 0 <= i < |s| :: IsDigit(s[i]) }

  /** atoi, on text without spaces and plus signs. */
  function Atoi(s: seq<byte>): int {
    if s != [] && s[0] == MINUS then 0 - Number(s[1..]) else Number(s)
  }

  lemma {:induction false} NumberOfPrefix(s: seq<byte>, i: nat)
    requires i <= |s| && AllDigits(s[..i]) && (i < |s| ==> !IsDigit(s[i]))
    ensures Number(s) == Number(s[..i])
    decreases |s|
  {
    if i < |s| {
      var t := s[..|s| - 1];
      if |t| == i {
        assert t == s[..i];
      } else {
        assert t[..i] == s[..i] && t[i] == s[i];
        NumberOfPrefix(t, i);
      }
    } else {
      assert s[..i] == s;
    }
  }

  method AtoiOf(s: seq<byte>) returns (n: int)
    ensures n == Atoi(s)
  {
    var neg := |s| > 0 && s[0] == MINUS;
    var t := if neg then s[1..] else s;
    n := 0;
    var i := 0;
    while i < |t| && IsDigit(t[i])
      invariant i <= |t| && AllDigits(t[..i]) && n == Number(t[..i])
    {
      assert t[..i + 1][..i] == t[..i];
      n := n * 10 + (t[i] - ZERO);
      i := i + 1;
    }
    NumberOfPrefix(t, i);
    if neg {
      n := -n;
    }
  }

  lemma {:induction false} NumberOfDigits(n: nat)
    ensures Number(Digits(n)) == n
  {
    if n > 0 {
      NumberOfDigits(n / 10);
      assert Digits(n)[..|Digits(n)| - 1] == Digits(n / 10);
    }
  }

  /** Behind the last tilde, or the end if there is none. */
  predicate SuffixAt(name: seq<byte>, t: nat) {
    && t <= |name| && NoTilde(name, t)
    && ((0 < t && name[t - 1] == TILDE) || (t == |name| && NoTilde(name, 0)))
  }

  predicate NoTilde(name: seq<byte>, t: nat) {
    forall i | t <= i < |name| :: name[i] != TILDE
  }

  /** What the name with number `num` looks like: as much of `name[..t]` as there is room for, tildes, the digits. */
  function WithNumber(name: seq<byte>, t: nat, num: nat): (r: seq<byte>)
    requires t <= |name| <= 8
    ensures |r| == 8
  {
    var d := Digits(num);
    if |d| >= 8 then d[|d| - 8..]
    else
      var keep := if t < 7 - |d| then t else 7 - |d|;
      name[..keep] + seq(8 - |d| - keep, _ => TILDE) + d
  }

  method FindTilde(name: seq<byte>) returns (t: nat)
    ensures SuffixAt(name, t)
  {
    var tilde := |name|;
    while tilde >= 0 && !(tilde < |name| && name[tilde] == TILDE)
      invariant -1 <= tilde <= |name| && NoTilde(name, tilde + 1)
    {
      tilde := tilde - 1;
    }
    t := if tilde < 0 then |name| else tilde + 1;
  }

  /** The loop that writes the digits, from the last one on. */
  method WriteDigits(name: seq<byte>, num: nat) returns (buf: seq<byte>, i: int)
    requires |name| <= 8
    ensures |buf| == 8 && -1 <= i <= 7
    ensures var d := Digits(num); if |d| >= 8 then i == -1 && buf == d[|d| - 8..] else i == 7 - |d| && buf[i + 1..] == d
    ensures forall k | 0 <= k <= i && k < |name| :: buf[k] == name[k]
  {
    var left: nat := num;
    buf, i := name + seq(8 - |name|, _ => 0), 7;
    hide Digits;
    while left > 0 && i >= 0
      invariant -1 <= i <= 7 && |buf| == 8 && Digits(num) == Digits(left) + buf[i + 1..]
      invariant forall k | 0 <= k <= i && k < |name| :: buf[k] == name[k]
    {
      DigitWritten(left, buf, i);
      buf := buf[i := left % 10 + ZERO];
      left := left / 10;
      i := i - 1;
    }
    DigitsDone(num, left, buf, i);
  }

  /** One more digit of the number is in the buffer. */
  lemma DigitWritten(left: nat, buf: seq<byte>, i: nat)
    requires 0 < left && i < |buf|
    ensures Digits(left) + buf[i + 1..] == Digits(left / 10) + buf[i := left % 10 + ZERO][i..]
  {
    hide Digits;
    var rest, digit := Digits(left / 10), left % 10 + ZERO;
    OneDigit(left);
    Joined(rest, digit, buf, i);
  }

  lemma OneDigit(left: nat)
    requires 0 < left
    ensures Digits(left) == Digits(left / 10) + [left % 10 + ZERO]
  {
  }

  lemma Joined(rest: seq<byte>, digit: byte, buf: seq<byte>, i: nat)
    requires i < |buf|
    ensures rest + [digit] + buf[i + 1..] == rest + buf[i := digit][i..]
  {
    assert buf[i := digit][i..] == [digit] + buf[i + 1..];
  }

  lemma DigitsDone(num: nat, left: nat, buf: seq<byte>, i: int)
    requires -1 <= i <= 7 && |buf| == 8 && Digits(num) == Digits(left) + buf[i + 1..] && (left == 0 || i < 0)
    ensures var d := Digits(num);
            if |d| >= 8 then i == -1 && buf == d[|d| - 8..] else i == 7 - |d| && buf[i + 1..] == d
  {
    assert left == 0 ==> Digits(left) == [];
    hide Digits;
    assert i < 0 ==> buf[i + 1..] == buf;
  }

  /** The rest of the name: a tilde in front of the digits, and more up to the place where the old number was. */
  method FillTildes(name: seq<byte>, t: nat, buf0: seq<byte>, last: int) returns (buf: seq<byte>)
    requires t <= |name| <= 8 && |buf0| == 8 && -1 <= last <= 7
    requires forall k | 0 <= k <= last && k < |name| :: buf0[k] == name[k]
    ensures |buf| == 8 && buf[last + 1..] == buf0[last + 1..]
    ensures last >= 0 ==>
              var keep := if t < last then t else last;
              buf[..last + 1] == name[..keep] + seq(last + 1 - keep, _ => TILDE)
  {
    buf := buf0;
    var i := last;
    if i >= 0 {
      buf := buf[i := TILDE];
      i := i - 1;
    }
    while i >= t
      invariant -1 <= i && (if last < 0 then i == -1 else i < last) && |buf| == 8
      invariant buf[last + 1..] == buf0[last + 1..]
      invariant i < last - 1 ==> t <= i + 1
      invariant forall k | i < k <= last :: buf[k] == TILDE
      invariant forall k | 0 <= k <= i && k < |name| :: buf[k] == name[k]
    {
      buf := buf[i := TILDE];
      i := i - 1;
    }
  }

  lemma NameLength(name: seq<byte>)
    requires DosName(name)
    ensures |name| <= 8
  {
  }

  lemma SuffixEnd(name: seq<byte>, t: nat)
    requires SuffixAt(name, t)
    ensures t <= |name|
  {
  }

  /** ufat_short_next */
  method ShortNext(name: seq<byte>) returns (r: seq<byte>, ghost t: nat, ghost num: nat)
    requires DosName(name)
    ensures SuffixAt(name, t) && num == (Atoi(name[t..]) + 1) % 0x1_0000_0000 && r == WithNumber(name, t, num)
  {
    hide SuffixAt, NoTilde, Atoi, Number, Digits, DosName;
    NameLength(name);
    var tilde := FindTilde(name);
    SuffixEnd(name, tilde);
    var suffix := AtoiOf(name[tilde..]);
    t, num := tilde, (suffix + 1) % 0x1_0000_0000;
    var buf, i := WriteDigits(name, (suffix + 1) % 0x1_0000_0000);
    r := FillTildes(name, tilde, buf, i);
    assert r == r[..i + 1] + r[i + 1..];
  }

  // ---- the numbers are all different ----

  /** The name ends in a tilde and the digits of `num`. */
  predicate Numbered(name: seq<byte>, num: nat) {
    var d := Digits(num);
    |name| == 8 && |d| <= 7 && name[8 - |d|..] == d && name[7 - |d|] == TILDE
  }

  lemma {:induction false} DigitCount(n: nat, k: nat)
    requires n < Pow10(k)
    ensures |Digits(n)| <= k
  {
    if n > 0 {
      DigitCount(n / 10, k - 1);
    }
  }

  function Pow10(k: nat): nat { if k == 0 then 1 else 10 * Pow10(k - 1) }

  lemma SuffixUnique(name: seq<byte>, t: nat, u: nat)
    requires SuffixAt(name, t) && SuffixAt(name, u)
    ensures t == u
  {
  }

  lemma DigitsNotSigned(num: nat)
    ensures Digits(num) != [] ==> Digits(num)[0] != MINUS
  {
    assert AllDigits(Digits(num));
    hide Digits;
  }

  lemma NumberedSuffix(name: seq<byte>, num: nat)
    requires Numbered(name, num)
    ensures SuffixAt(name, 8 - |Digits(num)|)
  {
    var d := Digits(num);
    assert forall i | 8 - |d| <= i < 8 :: name[i] == d[i - (8 - |d|)];
  }

  lemma OneNumber(name: seq<byte>, m: nat, n: nat)
    requires Numbered(name, m) && Numbered(name, n)
    ensures m == n
  {
    NumberedSuffix(name, m);
    NumberOfName(name, m, 8 - |Digits(m)|);
    NumberOfName(name, n, 8 - |Digits(m)|);
  }

  /** A numbered name has only one number, and ufat_short_next finds it. */
  lemma NumberOfName(name: seq<byte>, num: nat, t: nat)
    requires Numbered(name, num) && SuffixAt(name, t)
    ensures Atoi(name[t..]) == num
  {
    hide SuffixAt, NoTilde, Number, AllDigits, IsDigit;
    var d := Digits(num);
    NumberedSuffix(name, num);
    SuffixUnique(name, t, 8 - |d|);
    NumberOfDigits(num);
    DigitsNotSigned(num);
    hide Digits;
  }

  /** The new name has the new number if that has at most seven digits, and no tilde at all if it has more. */
  lemma NewNumber(name: seq<byte>, t: nat, num: nat)
    requires DosName(name) && t <= |name|
    ensures var r := WithNumber(name, t, num);
            DosName(r) && (if num < 10_000_000 then Numbered(r, num) else NoTilde(r, 0))
  {
    Sevens();
    if num < 10_000_000 {
      DigitCount(num, 7);
      NumberedIs(name, t, num);
    } else {
      ManyDigits(num, 7);
      OnlyDigits(name, t, num);
    }
  }

  lemma OnlyDigits(name: seq<byte>, t: nat, num: nat)
    requires t <= |name| <= 8 && 8 <= |Digits(num)|
    ensures var r := WithNumber(name, t, num); DosName(r) && NoTilde(r, 0)
  {
    var d, r := Digits(num), WithNumber(name, t, num);
    assert forall i | 0 <= i < 8 :: r[i] == d[|d| - 8 + i] && IsDigit(d[|d| - 8 + i]);
  }

  /** A name without a tilde has no number yet. */
  lemma NoNumber(name: seq<byte>, t: nat)
    requires SuffixAt(name, t) && NoTilde(name, 0)
    ensures Atoi(name[t..]) == 0
  {
    assert name[t..] == [];
  }

  lemma Sevens()
    ensures Pow10(7) == 10_000_000
  {
  }

  lemma NumberedIs(name: seq<byte>, t: nat, num: nat)
    requires DosName(name) && t <= |name| && |Digits(num)| <= 7
    ensures Numbered(WithNumber(name, t, num), num) && DosName(WithNumber(name, t, num))
  {
    var d, r := Digits(num), WithNumber(name, t, num);
    var keep := if t < 7 - |d| then t else 7 - |d|;
    assert r[8 - |d|..] == d;
    forall i | 0 <= i < 8
      ensures r[i] == if i < keep then name[i] else if i < 8 - |d| then TILDE else d[i - (8 - |d|)]
    {
    }
    hide Digits;
  }

  lemma {:induction false} ManyDigits(n: nat, k: nat)
    requires Pow10(k) <= n
    ensures k < |Digits(n)|
  {
    if k > 0 {
      ManyDigits(n / 10, k - 1);
    }
  }
}
