/** Finding an entry by its name, and making a file (mysh/fs/ufat_dir.c, mysh/fs/ufat_ent.c). The check for legal names
    compares characters as signed numbers, so that only ASCII names pass it. */
module UfatLookup {
  import opened Integers
  import opened UfatCache
  import opened UfatFat
  import opened UfatChain
  import opened UfatNames
  import opened UfatListing
  import opened UfatShort
  import opened UfatDir
  import opened UfatDirOps
  import opened UfatDirEdit

  // ---- the text of a name ----

  /** The bytes of a unit: one to three. */
  function Utf8Char(c: uint16): seq<byte> {
    if c >= 0x800 then [0xe0 + c / 0x1000, 0x80 + c / 0x40 % 0x40, 0x80 + c % 0x40]
    else if c >= 0x80 then [0xc0 + c / 0x40, 0x80 + c % 0x40]
    else [c]
  }

  /** They are the shortest UTF-8 form of the unit: a leading byte that tells how many follow, and bytes that carry
      six bits each. */
  lemma Utf8Form(c: uint16)
    ensures var b: seq<int> := Utf8Char(c);
            || (|b| == 1 && b[0] < 0x80 && c == b[0])
            || (|b| == 2 && 0xc0 <= b[0] < 0xe0 && 0x80 <= b[1] < 0xc0 && 0x80 <= c
                && c == (b[0] - 0xc0) * 0x40 + (b[1] - 0x80))
            || (|b| == 3 && 0xe0 <= b[0] < 0xf0 && 0x80 <= b[1] < 0xc0 && 0x80 <= b[2] < 0xc0 && 0x800 <= c
                && c == (b[0] - 0xe0) * 0x1000 + (b[1] - 0x80) * 0x40 + (b[2] - 0x80))
  {
    assert c / 0x40 == c / 0x1000 * 0x40 + c / 0x40 % 0x40;
  }

  function Utf8(units: seq<uint16>): (text: seq<byte>)
    ensures |text| <= 3 * |units|
  {
    if units == [] then [] else Utf8(units[..|units| - 1]) + Utf8Char(units[|units| - 1])
  }

  lemma Utf8Next(units: seq<uint16>, i: nat)
    requires i < |units|
    ensures Utf8(units[..i + 1]) == Utf8(units[..i]) + Utf8Char(units[i])
  {
    assert units[..i + 1][..i] == units[..i];
  }

  /** ASCII names are their own text. */
  lemma {:induction false} AsciiText(name: seq<byte>)
    requires forall i | 0 <= i < |name| :: name[i] < 0x80
    ensures Utf8(Wide(name)) == name
    decreases |name|
  {
    if name != [] {
      var n := |name| - 1;
      AsciiText(name[..n]);
      assert Wide(name)[..n] == Wide(name[..n]);
      assert name == name[..n] + [name[n]];
    }
  }

  lemma {:induction false} ZeroFree(units: seq<uint16>, i: nat)
    requires i <= |units| && (forall k | 0 <= k < i :: units[k] != 0) && (i < |units| ==> units[i] == 0)
    ensures UpToZero(units) == units[..i]
    decreases i
  {
    if i > 0 {
      ZeroFree(units[1..], i - 1);
      assert units[..i] == [units[0]] + units[1..][..i - 1];
    }
  }

  /** ufat_ucs2_to_utf8. A buffer of three bytes for each unit, and one more, is large enough. */
  method Ucs2ToUtf8(src: seq<uint16>, dstLen: nat) returns (r: Result<seq<byte>>)
    ensures r.Ok? ==> r.value == Utf8(UpToZero(src)) && |r.value| < dstLen
    ensures 3 * |src| < dstLen ==> r.Ok?
    ensures r.Err? ==> r.error in {BadEncoding, NameTooLong}
  {
    var dst: seq<byte> := [];
    var i := 0;
    assert src[..0] == [];
    hide Utf8, Utf8Char, UpToZero;
    TextOfNothing();
    while i < |src| && src[i] != 0
      invariant i <= |src| && dst == Utf8(src[..i]) && (forall k | 0 <= k < i :: src[k] != 0)
      invariant |dst| <= 3 * i
    {
      var c := src[i];
      Utf8Next(src, i);
      CharSize(c);
      if |dst| + |Utf8Char(c)| >= dstLen {
        return Err(BadEncoding);
      }
      dst := dst + Utf8Char(c);
      i := i + 1;
    }
    ZeroFree(src, i);
    if |dst| >= dstLen {
      return Err(NameTooLong);
    }
    r := Ok(dst);
  }

  lemma TextOfNothing()
    ensures Utf8([]) == []
  {
  }

  lemma CharSize(c: uint16)
    ensures 1 <= |Utf8Char(c)| <= 3
  {
  }

  /** A short name with its extension. */
  function ShortText(name: seq<byte>, ext: seq<byte>): seq<byte> {
    name + if ext == [] then [] else [DOT] + ext
  }

  /** ufat_format_short */
  method FormatShort(name: seq<byte>, ext: seq<byte>, maxLen: nat) returns (r: Result<seq<byte>>)
    ensures r == if |ShortText(name, ext)| < maxLen then Ok(ShortText(name, ext)) else Err(NameTooLong)
  {
    assert |ShortText(name, ext)| == |name| + if ext == [] then 0 else 1 + |ext|;
    var out: seq<byte> := [];
    var i := 0;
    while i < |name|
      invariant i <= |name| && out == name[..i] && i <= maxLen
    {
      if |out| >= maxLen {
        return Err(NameTooLong);
      }
      out := out + [name[i]];
      i := i + 1;
    }
    assert out == name;
    if |ext| > 0 {
      if |out| >= maxLen {
        return Err(NameTooLong);
      }
      out := out + [DOT];
      i := 0;
      while i < |ext|
        invariant i <= |ext| && out == name + ([DOT] + ext[..i]) && |out| <= maxLen
      {
        if |out| >= maxLen {
          return Err(NameTooLong);
        }
        out := out + [ext[i]];
        i := i + 1;
      }
      assert ext[..i] == ext;
    } else {
      assert name + [] == name;
    }
    assert out == ShortText(name, ext);
    if |out| >= maxLen {
      return Err(NameTooLong);
    }
    r := Ok(out);
  }

  /** The name under which an entry is shown and found. */
  function Shown(x: Item): seq<byte> {
    if x.name.Some? then Utf8(x.name.value) else ShortText(ShortOf(x.rec), ExtOf(x.rec))
  }

  const MAX_UTF8: nat := 768

  /** format_name: the long name if there is one, and otherwise the short one. Its buffer is always large enough. */
  method FormatName(e: Entry, ghost g: Bpb, ghost place: Place, ghost x: Item) returns (name: Result<seq<byte>>)
    requires EntryIs(g, place, e, x) && Formattable(e)
    ensures name == Ok(Shown(x))
  {
    NamesOf(g, place, e, x);
    if e.name.Some? {
      name := Ucs2ToUtf8(e.name.value, MAX_UTF8);
    } else {
      name := FormatShort(e.dirent.shortName, e.dirent.shortExt, MAX_UTF8);
    }
  }

  // ---- legal names ----

  /** Not empty, no dot or two dots, and of the ASCII characters from the space on, without slashes. */
  predicate Legal(name: seq<byte>) {
    && name != [] && name != [DOT] && name != [DOT, DOT]
    && forall i | 0 <= i < |name| :: 0x20 <= name[i] < 0x80 && !IsSlash(name[i])
  }

  function Signed(c: byte): int { if c < 0x80 then c else c - 0x100 }

  /** ufat_lfn_is_legal, where char is signed */
  method LfnIsLegal(name: seq<byte>) returns (r: bool)
    ensures r == Legal(name)
  {
    if |name| == 0 {
      return false;
    }
    if name[0] == DOT {
      if |name| == 1 {
        return false;
      }
      if name[1] == DOT && |name| == 2 {
        return false;
      }
    }
    var i := 0;
    while i < |name|
      invariant i <= |name| && forall k | 0 <= k < i :: 0x20 <= name[k] < 0x80 && !IsSlash(name[k])
    {
      if name[i] == 0x5c || name[i] == 0x2f || Signed(name[i]) < 0x20 {
        return false;
      }
      i := i + 1;
    }
    r := true;
  }

  lemma LegalIsAscii(name: seq<byte>)
    requires Legal(name) && |name| <= 247
    ensures AsciiName(name)
  {
  }

  // ---- finding ----

  predicate Named(x: Item, target: seq<byte>) { Upper(Shown(x)) == Upper(target) }

  predicate NoneNamed(items: seq<Item>, target: seq<byte>) {
    forall i | 0 <= i < |items| :: !Named(items[i], target)
  }

  ghost predicate FirstNamed(items: seq<Item>, target: seq<byte>, x: Item) {
    exists i: nat | i < |items| :: items[i] == x && Named(x, target) && NoneNamed(items[..i], target)
  }

  /** The entries of the listing before record `k` are `before`, and none of them has the name. */
  ghost predicate Passed(recs: seq<Record>, k: nat, before: seq<Item>, target: seq<byte>) {
    && AllClean(recs) && k <= |recs| && NoneNamed(before, target)
    && Listing(recs) == before + ScanTo(recs, k, |recs|, Idle).1
  }

  lemma PassedStart(recs: seq<Record>, target: seq<byte>)
    requires AllClean(recs)
    ensures Passed(recs, 0, [], target)
  {
  }

  lemma PassedEnd(recs: seq<Record>, k: nat, before: seq<Item>, target: seq<byte>)
    requires Passed(recs, k, before, target) && ScanTo(recs, k, |recs|, Idle).1 == []
    ensures NoneNamed(Listing(recs), target)
  {
    assert before + [] == before;
  }

  /** One more entry: it is the one that is looked for, or it has another name. */
  lemma PassedStep(recs: seq<Record>, k: nat, k': nat, before: seq<Item>, x: Item, target: seq<byte>)
    requires Passed(recs, k, before, target) && k <= k' <= |recs|
    requires ScanTo(recs, k, |recs|, Idle).1 == [x] + ScanTo(recs, k', |recs|, Idle).1
    ensures if Named(x, target) then FirstNamed(Listing(recs), target, x)
            else Passed(recs, k', before + [x], target)
  {
    hide Named, ScanTo;
    var rest := ScanTo(recs, k', |recs|, Idle).1;
    assert before + ([x] + rest) == before + [x] + rest;
    assert Listing(recs)[|before|] == x && Listing(recs)[..|before|] == before;
  }

  lemma SameName(x: Item, target: seq<byte>)
    ensures Named(x, target) <==> Upper(Shown(x)) == Upper(target)
  {
  }

  /** ufat_dir_find: the first entry with the name, in small letters or capitals. */
  method DirFind(dir: Directory, target: seq<byte>, ghost place: Place, ghost mine: set<int>)
    returns (r: Result<Option<Entry>>, ghost x: Option<Item>)
    requires Usable(dir, place, mine)
    modifies dir`curBlock, dir`curPos, dir.uf.Objects()
    ensures Usable(dir, place, mine) && dir.uf.view == old(dir.uf.view)
    ensures old(dir.uf.dev.failures) <= dir.uf.dev.failures
    ensures r.Err? ==> r.error == IoError && old(dir.uf.dev.failures) < dir.uf.dev.failures
    ensures r.Ok? ==>
              && AllClean(Records(dir.uf.bpb, dir.uf.view, place))
              && var items := Listing(Records(dir.uf.bpb, dir.uf.view, place));
                 if r.value.None? then NoneNamed(items, target)
                 else x.Some? && FirstNamed(items, target, x.value)
                      && EntryIs(dir.uf.bpb, place, r.value.value, x.value)
  {
    hide Ufat.CoherentBut, FatOf, IsChain, Mine, Kept, DirBlock, Located, PlaceOk, Volume, Ufat.Valid, Bpb.Fits, Sized,
      Records, PerBlock, BlockCount, Count, At, AllClean, ScanTo, Listing, EntryIs, Passed, NoneNamed, FirstNamed,
      Named, Shown, Upper, Formattable;
    x := None;
    ghost var g, v := dir.uf.bpb, dir.uf.view;
    StartOf(g, v, place);
    ghost var recs := Records(g, v, place);
    PassedStart(recs, target);
    dir.Rewind(place);
    ghost var k: nat, before: seq<Item> := 0, [];
    while true
      invariant Usable(dir, place, mine) && dir.Standing(place, k) && dir.uf.view == v
      invariant old(dir.uf.dev.failures) <= dir.uf.dev.failures
      invariant k <= |recs| && Passed(recs, k, before, target)
      decreases |recs| - k
    {
      ghost var k0 := k;
      var e;
      ghost var y;
      e, k, y := DirRead(dir, place, k, mine);
      if e.Err? {
        return Err(e.error), None;
      }
      if e.value.None? {
        PassedEnd(recs, k0, before, target);
        return Ok(None), None;
      }
      var name := FormatName(e.value.value, g, place, y.value);
      PassedStep(recs, k0, k, before, y.value, target);
      SameName(y.value, target);
      WholeName(target);
      var m := CompareName(target, name.value, false);
      if m >= 0 {
        return Ok(e.value), y;
      }
      before := before + [y.value];
    }
  }

  // ---- making a file ----

  /** The attributes that a user may set. */
  function UserAttributes(a: byte): byte { a % 8 + a / 32 % 2 * 32 }

  /** The bits for read-only, hidden, system and archive stay; those for labels and directories do not. */
  lemma UserBits(a: byte)
    ensures var u := UserAttributes(a);
            && u % 2 == a % 2 && u / 2 % 2 == a / 2 % 2 && u / 4 % 2 == a / 4 % 2 && u / 32 % 2 == a / 32 % 2
            && u / 8 % 2 == 0 && u / 16 % 2 == 0 && u / 64 == 0
  {
    var low, high := a % 8, a / 32 % 2;
    LowBits(a, low);
    HighBit(low, high, UserAttributes(a));
    hide UserAttributes;
  }

  lemma LowBits(a: byte, low: int)
    requires low == a % 8
    ensures low % 2 == a % 2 && low / 2 % 2 == a / 2 % 2 && low / 4 == a / 4 % 2
  {
    var q := a / 8;
    assert a == q * 8 + low && a / 2 == q * 4 + low / 2 && a / 4 == q * 2 + low / 4;
  }

  lemma HighBit(low: int, high: int, u: int)
    requires 0 <= low < 8 && 0 <= high < 2 && u == low + high * 32
    ensures u % 2 == low % 2 && u / 2 % 2 == low / 2 % 2 && u / 4 % 2 == low / 4 && u / 32 % 2 == high
    ensures u / 8 % 2 == 0 && u / 16 % 2 == 0 && u / 64 == 0
  {
    assert u / 2 == low / 2 + high * 16 && u / 4 == low / 4 + high * 8 && u / 8 == high * 4 && u / 16 == high * 2;
  }

  lemma NoLabel(a: byte)
    ensures UserAttributes(a) / 8 % 2 == 0
  {
  }

  /** An empty file. */
  function EmptyFile(ent: Dirent): Dirent {
    ent.(fileSize := 0, firstCluster := 0, attributes := UserAttributes(ent.attributes))
  }

  /** The start of ufat_dir_mkfile, ufat_dir_create and ufat_move. A search that the device refuses counts as one that
      finds nothing. */
  method CheckName(dir: Directory, name: seq<byte>, ghost place: Place, ghost mine: set<int>)
    returns (r: Result<()>)
    requires Usable(dir, place, mine) && AllClean(Records(dir.uf.bpb, dir.uf.view, place))
    modifies dir`curBlock, dir`curPos, dir.uf.Objects()
    ensures Usable(dir, place, mine) && dir.uf.view == old(dir.uf.view)
    ensures old(dir.uf.dev.failures) <= dir.uf.dev.failures
    ensures r.Err? ==> r.error in {IllegalName, FileExists}
    ensures r == Err(IllegalName) <==> !Legal(name)
    ensures var free := NoneNamed(old(Listing(Records(dir.uf.bpb, dir.uf.view, place))), name);
            && (r == Err(FileExists) ==> !free)
            && (Legal(name) && !free && dir.uf.dev.failures == old(dir.uf.dev.failures) ==> r == Err(FileExists))
  {
    hide Ufat.CoherentBut, FatOf, IsChain, Mine, Kept, DirBlock, Located, PlaceOk, Volume, Ufat.Valid, Bpb.Fits, Sized,
      Records, AllClean, ScanTo, Listing, EntryIs, NoneNamed, FirstNamed, Legal, Usable, Directory.Ready, ScanReady;
    var legal := LfnIsLegal(name);
    if !legal {
      return Err(IllegalName);
    }
    var check;
    ghost var x;
    check, x := DirFind(dir, name, place, mine);
    if check.Ok? && check.value.Some? {
      UsableFacts(dir, place, mine);
      ghost var items := Listing(Records(dir.uf.bpb, dir.uf.view, place));
      NamedOnce(items, name, x.value);
      return Err(FileExists);
    }
    r := Ok(());
  }

  lemma NamedOnce(items: seq<Item>, target: seq<byte>, x: Item)
    requires FirstNamed(items, target, x)
    ensures !NoneNamed(items, target)
  {
  }

  /** Only one entry comes first. */
  lemma OneFirst(items: seq<Item>, target: seq<byte>, x: Item, y: Item)
    requires FirstNamed(items, target, x) && FirstNamed(items, target, y)
    ensures x == y
  {
    hide Named;
    var i: nat :| i < |items| && items[i] == x && Named(x, target) && NoneNamed(items[..i], target);
    var j: nat :| j < |items| && items[j] == y && Named(y, target) && NoneNamed(items[..j], target);
    if i < j {
      NotBefore(items, i, j, target);
    } else if j < i {
      NotBefore(items, j, i, target);
    }
  }

  lemma NotBefore(items: seq<Item>, i: nat, j: nat, target: seq<byte>)
    requires i < j <= |items| && NoneNamed(items[..j], target)
    ensures !Named(items[i], target)
  {
    assert items[..j][i] == items[i];
  }

  /** An entry that is inserted under a name that was free is the one that is found under it, however it is spelled. */
  lemma FindsNew(was: seq<Item>, now: seq<Item>, y: Item, name: seq<byte>, target: seq<byte>)
    requires Added(was, now, y) && Legal(name) && y.name == Some(Wide(name)) && NoneNamed(was, name)
    requires Upper(target) == Upper(name)
    ensures Shown(y) == name && FirstNamed(now, target, y)
  {
    AsciiText(name);
    var i: nat :| i <= |was| && now == was[..i] + [y] + was[i..];
    hide Shown, Upper;
    assert now[i] == y && now[..i] == was[..i];
    forall k | 0 <= k < i
      ensures !Named(now[..i][k], target)
    {
      assert !Named(was[k], name);
    }
  }

  // ---- no name twice ----

  ghost predicate Distinct(items: seq<Item>) {
    forall i, j | 0 <= i < j < |items| :: Upper(Shown(items[i])) != Upper(Shown(items[j]))
  }

  lemma AddedDistinct(was: seq<Item>, now: seq<Item>, y: Item)
    requires Added(was, now, y) && Distinct(was) && NoneNamed(was, Shown(y))
    ensures Distinct(now)
  {
    hide Distinct, NoneNamed, Shown, Upper;
    var p: nat :| p <= |was| && now == was[..p] + [y] + was[p..];
    forall i, j | 0 <= i < j < |now|
      ensures Upper(Shown(now[i])) != Upper(Shown(now[j]))
    {
      assert i < p ==> now[i] == was[i];
      assert i > p ==> now[i] == was[i - 1];
      assert j < p ==> now[j] == was[j];
      assert j > p ==> now[j] == was[j - 1];
      if i == p {
        OtherName(was, y, j - 1);
      } else if j == p {
        OtherName(was, y, i);
      } else {
        TwoNames(was, if i < p then i else i - 1, if j < p then j else j - 1);
      }
    }
    AllDiffer(now);
  }

  lemma AllDiffer(items: seq<Item>)
    requires forall i, j | 0 <= i < j < |items| :: Upper(Shown(items[i])) != Upper(Shown(items[j]))
    ensures Distinct(items)
  {
  }

  lemma OtherName(items: seq<Item>, y: Item, i: nat)
    requires NoneNamed(items, Shown(y)) && i < |items|
    ensures Upper(Shown(items[i])) != Upper(Shown(y))
  {
    assert !Named(items[i], Shown(y));
  }

  lemma TwoNames(items: seq<Item>, i: nat, j: nat)
    requires Distinct(items) && i < j < |items|
    ensures Upper(Shown(items[i])) != Upper(Shown(items[j]))
  {
  }

  lemma RemovedDistinct(items: seq<Item>, gone: seq<Item>, x: Item)
    requires Replaced(items, gone, x, []) && Distinct(items)
    ensures Distinct(gone)
  {
    hide Distinct, Shown, Upper;
    var p: nat :| p < |items| && ReplacedAt(items, gone, x, [], p);
    forall i, j | 0 <= i < j < |gone|
      ensures Upper(Shown(gone[i])) != Upper(Shown(gone[j]))
    {
      assert gone[i] == items[if i < p then i else i + 1] && gone[j] == items[if j < p then j else j + 1];
      TwoNames(items, if i < p then i else i + 1, if j < p then j else j + 1);
    }
    AllDiffer(gone);
  }

  /** ufat_dir_mkfile: the file is listed under its name, which no other entry has; or the listing is the old one. */
  method MkFile(dir: Directory, ent: Dirent, name: seq<byte>, ghost place0: Place, ghost mine: set<int>)
    returns (r: Result<Entry>, ghost place: Place, ghost x: Option<Item>)
    requires Usable(dir, place0, mine) && |name| <= 247
    requires AllClean(Records(dir.uf.bpb, dir.uf.view, place0))
    requires |Listing(Records(dir.uf.bpb, dir.uf.view, place0))| < NUMBERS - 1
    modifies dir`curBlock, dir`curPos, dir.uf.Objects()
    ensures dir.uf.Valid() && ScanReady(dir.uf) && old(dir.uf.dev.failures) <= dir.uf.dev.failures
    ensures Kept(dir.uf.bpb, old(dir.uf.view), dir.uf.view, mine, place0.Root?)
    ensures Located(dir.uf.bpb, dir.uf.view, place) && Extends(place0, place)
    ensures AllClean(Records(dir.uf.bpb, dir.uf.view, place))
    ensures r.Err? ==> r.error in {IllegalName, FileExists, DirectoryFull, NoClusters, IoError}
    ensures r == Err(IoError) ==> old(dir.uf.dev.failures) < dir.uf.dev.failures
    ensures r == Err(DirectoryFull) ==>
              place0.Root? && RunMissing(dir.uf.bpb, old(dir.uf.view), place0, FragmentCount(Wide(name)) + 1)
    ensures r == Err(NoClusters) && dir.uf.dev.failures == old(dir.uf.dev.failures) ==>
              OutOfRoom(dir.uf.bpb, dir.uf.view, place, FragmentCount(Wide(name)) + 1)
    ensures r == Err(IllegalName) <==> !Legal(name)
    ensures var g := dir.uf.bpb;
            var was, now := old(Listing(Records(g, dir.uf.view, place0))), Listing(Records(g, dir.uf.view, place));
            var calm := dir.uf.dev.failures == old(dir.uf.dev.failures);
            && (r.Err? ==> now == was)
            && (r == Err(FileExists) ==> !NoneNamed(was, name))
            && (r.Ok? ==>
                  && Usable(dir, place, mine) && x.Some?
                  && var e := r.value.dirent;
                  && e == EmptyFile(ent).(shortName := e.shortName, shortExt := e.shortExt)
                  && Inserted(g, place, was, now, e, Wide(name), r.value, x.value)
                  && DosName(e.shortName) && !Taken(was, e.shortName, e.shortExt)
                  && r.value.name == Some(Wide(name)))
            && (calm && r.Ok? ==> FirstNamed(now, name, x.value))
            && (calm && Legal(name) && !NoneNamed(was, name) ==> r == Err(FileExists))
            && (calm && Distinct(was) ==> Distinct(now))
  {
    hide Usable, Records, AllClean, Listing, NoneNamed, FirstNamed, Ufat.CoherentBut, Legal, Distinct, Inserted, Added,
      Kept, Located, Taken, Tried, Extends, Wide, AsciiName, Ufat.Valid, EntryIs, PlaceOk, ScanReady, Directory.Ready,
      UserAttributes, Shown, Upper, DosName, RunMissing, OutOfRoom, FragmentCount;
    ghost var g, v0 := dir.uf.bpb, dir.uf.view;
    UsableFacts(dir, place0, mine);
    ghost var was := Listing(Records(g, v0, place0));
    place, x := place0, None;
    var checked := CheckName(dir, name, place0, mine);
    if checked.Err? {
      UsableFacts(dir, place0, mine);
      return Err(checked.error), place0, None;
    }
    LegalIsAscii(name);
    var e := ent.(fileSize := 0, firstCluster := 0, attributes := UserAttributes(ent.attributes));
    NoLabel(ent.attributes);
    ghost var tried;
    r, place, x, tried := InsertDirent(dir, e, name, place0, mine);
    if r.Ok? {
      ghost var now := Listing(Records(g, dir.uf.view, place));
      InsertedNames(g, place, was, now, r.value.dirent, name, r.value, x.value);
    }
  }

  lemma UsableFacts(dir: Directory, place: Place, mine: set<int>)
    requires Usable(dir, place, mine)
    ensures dir.uf.Valid() && ScanReady(dir.uf) && Located(dir.uf.bpb, dir.uf.view, place)
    ensures AllClean(Records(dir.uf.bpb, dir.uf.view, place)) && Extends(place, place)
    ensures Kept(dir.uf.bpb, dir.uf.view, dir.uf.view, mine, place.Root?)
  {
    ReadyKept(dir.uf.bpb, dir.uf.view, place, mine);
  }

  lemma InsertedNames(g: Bpb, place: Place, was: seq<Item>, now: seq<Item>, e: Dirent, name: seq<byte>, r: Entry,
                      y: Item)
    requires Inserted(g, place, was, now, e, Wide(name), r, y) && Legal(name)
    ensures NoneNamed(was, name) ==> FirstNamed(now, name, y) && (Distinct(was) ==> Distinct(now))
  {
    hide Legal, Added, NoneNamed, Distinct, FirstNamed, Shown, Wide;
    if NoneNamed(was, name) {
      FindsNew(was, now, y, name, name);
      if Distinct(was) {
        AddedDistinct(was, now, y);
      }
    }
  }
}
