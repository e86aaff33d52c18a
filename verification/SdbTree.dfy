/** The stored form of a simpledb table: pages that are leaves or the one internal node above them, and the sequence
    of rows that they stand for (simpledb/node.h, simpledb/node.c).

    A page is a record of the fields that node.h lays out, with storage for as many cells as fit. Because splitting an
    internal node is not implemented, a table is a single leaf or a root with leaves below it. */
module SdbTree {
  import opened Integers

  datatype Row = Row(id: uint32, username: string, email: string)

  /** A cell of a leaf: a key and a serialized row. */
  datatype Cell = Cell(key: uint32, row: Row)

  /** A cell of an internal node: a child page and the largest key below it. */
  datatype Entry = Entry(child: nat, key: uint32)

  datatype NodeType = Internal | Leaf

  datatype Page = Page(
    kind: NodeType, isRoot: bool, parent: nat,
    numCells: nat, nextLeaf: nat, cells: seq<Cell>,
    numKeys: nat, rightChild: nat, entries: seq<Entry>)
  {
    /** The cells in use. */
    function Used(): seq<Cell>
      requires numCells <= |cells|
    {
      cells[..numCells]
    }

    /** internal_node_child: the last child is kept apart from the others. */
    function Child(i: nat): nat
      requires i <= numKeys <= |entries|
    {
      if i == numKeys then rightChild else entries[i].child
    }
  }

  predicate Sorted(cells: seq<Cell>) {
    forall i, j | 0 <= i < j < |cells| :: cells[i].key < cells[j].key
  }

  function Flat(leaves: seq<seq<Cell>>): seq<Cell> {
    if leaves == [] then [] else leaves[0] + Flat(leaves[1..])
  }

  lemma {:induction false} FlatAppend(a: seq<seq<Cell>>, b: seq<seq<Cell>>)
    ensures Flat(a + b) == Flat(a) + Flat(b)
  {
    if a == [] {
      assert a + b == b;
    } else {
      assert (a + b)[1..] == a[1..] + b;
      FlatAppend(a[1..], b);
    }
  }

  /** The rows before, in and after one leaf. */
  lemma FlatAround(leaves: seq<seq<Cell>>, i: nat)
    requires i < |leaves|
    ensures Flat(leaves) == Flat(leaves[..i]) + leaves[i] + Flat(leaves[i + 1..])
  {
    assert leaves == leaves[..i] + leaves[i..];
    FlatAppend(leaves[..i], leaves[i..]);
    assert leaves[i..][1..] == leaves[i + 1..];
  }

  lemma FlatReplaced(leaves: seq<seq<Cell>>, i: nat, mid: seq<seq<Cell>>)
    requires i < |leaves|
    ensures Flat(leaves[..i] + mid + leaves[i + 1..]) == Flat(leaves[..i]) + Flat(mid) + Flat(leaves[i + 1..])
  {
    FlatAppend(leaves[..i] + mid, leaves[i + 1..]);
    FlatAppend(leaves[..i], mid);
  }

  /** A member of the flat sequence is a member of one of the leaves. */
  lemma {:induction false} FlatMember(leaves: seq<seq<Cell>>, x: nat) returns (a: nat, y: nat)
    requires x < |Flat(leaves)|
    ensures a < |leaves| && y < |leaves[a]| && leaves[a][y] == Flat(leaves)[x]
  {
    if x < |leaves[0]| {
      a, y := 0, x;
    } else {
      var b, z := FlatMember(leaves[1..], x - |leaves[0]|);
      a, y := b + 1, z;
    }
  }

  /** Where the cells of leaf `a` are in the flat sequence. */
  lemma FlatPlace(leaves: seq<seq<Cell>>, a: nat, x: nat)
    requires a < |leaves| && x < |leaves[a]|
    ensures |Flat(leaves[..a])| + x < |Flat(leaves)| && Flat(leaves)[|Flat(leaves[..a])| + x] == leaves[a][x]
  {
    FlatAround(leaves, a);
  }

  /** In sorted leaves, every key of an earlier leaf is below every key of a later one. */
  lemma LeafBelow(leaves: seq<seq<Cell>>, a: nat, x: nat, b: nat, y: nat)
    requires Sorted(Flat(leaves))
    requires a < b < |leaves| && x < |leaves[a]| && y < |leaves[b]|
    ensures leaves[a][x].key < leaves[b][y].key
  {
    FlatPlace(leaves, a, x);
    FlatPlace(leaves, b, y);
    FlatAround(leaves[..b], a);
    assert leaves[..b][..a] == leaves[..a];
  }

  lemma LeafSorted(leaves: seq<seq<Cell>>, a: nat)
    requires Sorted(Flat(leaves)) && a < |leaves|
    ensures Sorted(leaves[a])
  {
    FlatAround(leaves, a);
    forall x, y | 0 <= x < y < |leaves[a]|
      ensures leaves[a][x].key < leaves[a][y].key
    {
      FlatPlace(leaves, a, x);
      FlatPlace(leaves, a, y);
    }
  }

  /** Every page has room for `maxCells` cells, or for one entry more than `maxKeys`, and its counts stay below. */
  ghost predicate Stored(p: Page, maxCells: nat, maxKeys: nat) {
    && |p.cells| == maxCells && |p.entries| == maxKeys + 1
    && (p.kind.Leaf? ==> p.numCells <= maxCells)
    && (p.kind.Internal? ==> p.numKeys <= maxKeys)
  }

  ghost predicate AllStored(pages: seq<Page>, maxCells: nat, maxKeys: nat) {
    forall n | 0 <= n < |pages| :: Stored(pages[n], maxCells, maxKeys)
  }

  /** The children of an internal node, from left to right. */
  function Children(p: Page): (ids: seq<nat>)
    requires p.numKeys <= |p.entries|
    ensures |ids| == p.numKeys + 1
  {
    seq(p.numKeys, i requires 0 <= i < p.numKeys => p.entries[i].child) + [p.rightChild]
  }

  function Keys(p: Page): (keys: seq<uint32>)
    requires p.numKeys <= |p.entries|
    ensures |keys| == p.numKeys
  {
    seq(p.numKeys, i requires 0 <= i < p.numKeys => p.entries[i].key)
  }

  /** The pages of the leaves, from left to right. */
  function LeafIds(pages: seq<Page>): (ids: seq<nat>)
    requires pages != [] && (pages[0].kind.Internal? ==> pages[0].numKeys <= |pages[0].entries|)
  {
    if pages[0].kind.Leaf? then [0] else Children(pages[0])
  }

  /** The page behind the `i`-th; 0 stands for none. */
  function Next(ids: seq<nat>, i: nat): nat {
    if i + 1 < |ids| then ids[i + 1] else 0
  }

  /** The pages `ids` are different leaves, linked in this order. */
  ghost predicate Linked(pages: seq<Page>, ids: seq<nat>) {
    && (forall i | 0 <= i < |ids| ::
          ids[i] < |pages| && pages[ids[i]].kind.Leaf? && pages[ids[i]].numCells <= |pages[ids[i]].cells|)
    && (forall i, j | 0 <= i < j < |ids| :: ids[i] != ids[j])
    && (forall i | 0 <= i < |ids| :: pages[ids[i]].nextLeaf == Next(ids, i))
    && (forall i | 0 < i < |ids| :: ids[i] != 0)
  }

  /** The cells of the leaves. */
  ghost function Leaves(pages: seq<Page>, ids: seq<nat>): (leaves: seq<seq<Cell>>)
    requires Linked(pages, ids)
    ensures |leaves| == |ids|
  {
    seq(|ids|, i requires 0 <= i < |ids| => pages[ids[i]].Used())
  }

  /** The largest key of a leaf, get_node_max_key. */
  function MaxKey(p: Page): uint32
    requires 1 <= p.numCells <= |p.cells|
  {
    p.cells[p.numCells - 1].key
  }

  /** The children of the root know their parent and hold rows, and each separator is the largest key of the child to
      its left. */
  ghost predicate RootOk(pages: seq<Page>, ids: seq<nat>, keys: seq<uint32>)
    requires Linked(pages, ids)
  {
    && 2 <= |ids| == |keys| + 1
    && (forall i | 0 <= i < |ids| ::
          ids[i] != 0 && !pages[ids[i]].isRoot && pages[ids[i]].parent == 0 && 1 <= pages[ids[i]].numCells)
    && (forall i | 0 <= i < |keys| :: keys[i] == MaxKey(pages[ids[i]]))
  }

  ghost predicate TreeOk(pages: seq<Page>, maxCells: nat, maxKeys: nat) {
    && 1 <= maxCells && 1 <= maxKeys
    && pages != [] && AllStored(pages, maxCells, maxKeys) && pages[0].isRoot
    && Linked(pages, LeafIds(pages)) && Sorted(Flat(Leaves(pages, LeafIds(pages))))
    && (pages[0].kind.Internal? ==> RootOk(pages, LeafIds(pages), Keys(pages[0])))
  }

  /** The rows of the table, in the order of the leaves. */
  ghost function Rows(pages: seq<Page>): seq<Cell>
    requires pages != [] && (pages[0].kind.Internal? ==> pages[0].numKeys <= |pages[0].entries|)
    requires Linked(pages, LeafIds(pages))
  {
    Flat(Leaves(pages, LeafIds(pages)))
  }

  /** When there is more than one leaf, each is at least half full. */
  ghost predicate HalfFull(leaves: seq<seq<Cell>>, maxCells: nat) {
    |leaves| == 1 || forall i | 0 <= i < |leaves| :: (maxCells + 1) / 2 <= |leaves[i]|
  }

  /** Nothing is wasted: every page but the root is a leaf of the tree, and the leaves are half full. */
  ghost predicate Filled(pages: seq<Page>, maxCells: nat)
    requires pages != [] && (pages[0].kind.Internal? ==> pages[0].numKeys <= |pages[0].entries|)
    requires Linked(pages, LeafIds(pages))
  {
    var leaves: seq<seq<Cell>> := Leaves(pages, LeafIds(pages));
    |pages| == (if |leaves| == 1 then 1 else |leaves| + 1) && HalfFull(leaves, maxCells)
  }

  lemma {:induction false} RowsAtLeast(leaves: seq<seq<Cell>>, n: nat)
    requires forall i | 0 <= i < |leaves| :: n <= |leaves[i]|
    ensures |leaves| * n <= |Flat(leaves)|
  {
    if leaves != [] {
      RowsAtLeast(leaves[1..], n);
      assert |leaves| * n == n + |leaves[1..]| * n;
    }
  }

  /** The rows of half full leaves, one of which is full. */
  lemma RowsWithFull(leaves: seq<seq<Cell>>, i: nat, n: nat)
    requires i < |leaves| && forall k | 0 <= k < |leaves| :: n <= |leaves[k]|
    ensures |leaves[i]| + (|leaves| - 1) * n <= |Flat(leaves)|
  {
    hide Flat;
    FlatAround(leaves, i);
    RowsAtLeast(leaves[..i], n);
    RowsAtLeast(leaves[i + 1..], n);
    Shares(i, |leaves| - 1 - i, |leaves| - 1, n);
  }

  lemma Shares(a: nat, b: nat, all: nat, n: nat)
    requires a + b == all
    ensures a * n + b * n == all * n
  {
  }

  /** One more cell keeps the leaves half full. */
  lemma HalfFullPlain(leaves: seq<seq<Cell>>, i: nat, j: nat, c: Cell, maxCells: nat)
    requires HalfFull(leaves, maxCells) && i < |leaves| && j <= |leaves[i]|
    ensures var leaves' := leaves[..i] + [With(leaves[i], j, c)] + leaves[i + 1..];
            HalfFull(leaves', maxCells) && |leaves'| == |leaves|
  {
    var leaves' := leaves[..i] + [With(leaves[i], j, c)] + leaves[i + 1..];
    assert forall k | 0 <= k < |leaves| :: leaves'[k] == if k == i then With(leaves[i], j, c) else leaves[k];
  }

  /** Dividing a full leaf in two halves does. */
  lemma HalfFullSplit(leaves: seq<seq<Cell>>, i: nat, w: seq<Cell>, n: nat, maxCells: nat)
    requires HalfFull(leaves, maxCells) && i < |leaves| && |w| == maxCells + 1
    requires (maxCells + 1) / 2 <= n <= |w| && (maxCells + 1) / 2 <= |w| - n
    ensures var leaves' := leaves[..i] + [w[..n], w[n..]] + leaves[i + 1..];
            HalfFull(leaves', maxCells) && |leaves'| == |leaves| + 1
  {
    var leaves' := leaves[..i] + [w[..n], w[n..]] + leaves[i + 1..];
    assert forall k | 0 <= k < |leaves'| ::
        leaves'[k] == if k < i then leaves[k] else if k == i then w[..n] else if k == i + 1 then w[n..]
                      else leaves[k - 1];
  }

  /** Place `j` of leaf `i` is where `key` is, or where it has to be inserted. Only the last leaf can grow at its end,
      so that no separator changes. */
  ghost predicate Slot(leaves: seq<seq<Cell>>, i: nat, j: nat, key: uint32) {
    && i < |leaves| && j <= |leaves[i]| && (i + 1 < |leaves| ==> j < |leaves[i]|)
    && (forall a, x | 0 <= a < i && 0 <= x < |leaves[a]| :: leaves[a][x].key < key)
    && (forall x | 0 <= x < j :: leaves[i][x].key < key)
    && (forall x | j <= x < |leaves[i]| :: key <= leaves[i][x].key)
    && (forall a, x | i < a < |leaves| && 0 <= x < |leaves[a]| :: key < leaves[a][x].key)
  }

  /** The rows below `key` and the others. */
  ghost function Before(leaves: seq<seq<Cell>>, i: nat, j: nat): seq<Cell>
    requires i < |leaves| && j <= |leaves[i]|
  {
    Flat(leaves[..i]) + leaves[i][..j]
  }

  ghost function After(leaves: seq<seq<Cell>>, i: nat, j: nat): seq<Cell>
    requires i < |leaves| && j <= |leaves[i]|
  {
    leaves[i][j..] + Flat(leaves[i + 1..])
  }

  /** A slot parts the rows of the whole table at the key, so there is only one way to part them. */
  lemma SlotParts(leaves: seq<seq<Cell>>, i: nat, j: nat, key: uint32)
    requires Slot(leaves, i, j, key)
    ensures Flat(leaves) == Before(leaves, i, j) + After(leaves, i, j)
    ensures forall x | 0 <= x < |Before(leaves, i, j)| :: Before(leaves, i, j)[x].key < key
    ensures forall x | 0 <= x < |After(leaves, i, j)| :: key <= After(leaves, i, j)[x].key
  {
    FlatAround(leaves, i);
    assert leaves[i] == leaves[i][..j] + leaves[i][j..];
    forall x | 0 <= x < |Before(leaves, i, j)|
      ensures Before(leaves, i, j)[x].key < key
    {
      if x < |Flat(leaves[..i])| {
        var a, y := FlatMember(leaves[..i], x);
        assert leaves[a][y].key < key;
      }
    }
    forall x | 0 <= x < |After(leaves, i, j)|
      ensures key <= After(leaves, i, j)[x].key
    {
      if |leaves[i]| - j <= x {
        var a, y := FlatMember(leaves[i + 1..], x - (|leaves[i]| - j));
        assert key < leaves[i + 1 + a][y].key;
      }
    }
  }

  /** A sequence with one more element, at place `j`. */
  function With<T>(s: seq<T>, j: nat, x: T): (r: seq<T>)
    requires j <= |s|
    ensures |r| == |s| + 1
  {
    s[..j] + [x] + s[j..]
  }

  predicate HasKey(rows: seq<Cell>, key: uint32) {
    exists x | 0 <= x < |rows| :: rows[x].key == key
  }

  /** The cell at a slot has the key, or no row of the table has it. */
  lemma SlotAbsent(leaves: seq<seq<Cell>>, i: nat, j: nat, key: uint32)
    requires Slot(leaves, i, j, key) && Sorted(Flat(leaves))
    ensures (j < |leaves[i]| && leaves[i][j].key == key) <==> HasKey(Flat(leaves), key)
  {
    SlotParts(leaves, i, j, key);
    var n := |Before(leaves, i, j)|;
    if j < |leaves[i]| && leaves[i][j].key == key {
      assert Flat(leaves)[n] == leaves[i][j];
    } else {
      if j < |leaves[i]| {
        assert After(leaves, i, j)[0] == leaves[i][j];
      } else {
        assert leaves[i + 1..] == [];
      }
      assert |After(leaves, i, j)| > 0 ==> key < After(leaves, i, j)[0].key;
      forall x | 0 <= x < |Flat(leaves)|
        ensures Flat(leaves)[x].key != key
      {
        if x < n {
          assert Flat(leaves)[x] == Before(leaves, i, j)[x];
        } else {
          assert Flat(leaves)[n] == After(leaves, i, j)[0];
        }
      }
    }
  }

  /** A new cell between the smaller and the larger ones. */
  lemma SortedInsert(a: seq<Cell>, c: Cell, b: seq<Cell>)
    requires Sorted(a + b)
    requires forall x | 0 <= x < |a| :: a[x].key < c.key
    requires forall x | 0 <= x < |b| :: c.key < b[x].key
    ensures Sorted(a + [c] + b)
  {
    var s, t := a + [c] + b, a + b;
    forall i, j | 0 <= i < j < |s|
      ensures s[i].key < s[j].key
    {
      var i', j' := if i < |a| then i else i - 1, if j < |a| then j else j - 1;
      if i == |a| {
        assert s[j] == b[j - |a| - 1];
      } else if j == |a| {
        assert s[i] == a[i];
      } else {
        assert s[i] == t[i'] && s[j] == t[j'];
      }
    }
  }

  lemma WithLast(cells: seq<Cell>, j: nat, c: Cell)
    requires j < |cells|
    ensures With(cells, j, c)[|cells|] == cells[|cells| - 1]
  {
  }

  /** When no row has the key, those behind the slot are above it. */
  lemma AboveSlot(leaves: seq<seq<Cell>>, i: nat, j: nat, key: uint32)
    requires Sorted(Flat(leaves)) && Slot(leaves, i, j, key)
    requires j < |leaves[i]| ==> leaves[i][j].key != key
    ensures forall x | 0 <= x < |After(leaves, i, j)| :: key < After(leaves, i, j)[x].key
  {
    SlotParts(leaves, i, j, key);
    SlotAbsent(leaves, i, j, key);
    var a, b := Before(leaves, i, j), After(leaves, i, j);
    forall x | 0 <= x < |b|
      ensures key < b[x].key
    {
      assert Flat(leaves)[|a| + x] == b[x];
    }
  }

  lemma FourParts(a: seq<Cell>, l: seq<Cell>, c: Cell, r: seq<Cell>, b: seq<Cell>)
    ensures a + (l + [c] + r) + b == (a + l) + [c] + (r + b)
  {
  }

  /** Inserting into one leaf. */
  lemma InsertPlain(leaves: seq<seq<Cell>>, i: nat, j: nat, c: Cell)
    requires Sorted(Flat(leaves)) && Slot(leaves, i, j, c.key)
    requires j < |leaves[i]| ==> leaves[i][j].key != c.key
    ensures Sorted(Before(leaves, i, j) + [c] + After(leaves, i, j))
    ensures Flat(leaves[..i] + [With(leaves[i], j, c)] + leaves[i + 1..])
              == Before(leaves, i, j) + [c] + After(leaves, i, j)
  {
    var w := With(leaves[i], j, c);
    FlatReplaced(leaves, i, [w]);
    assert Flat([w]) == w + Flat([]) == w;
    FourParts(Flat(leaves[..i]), leaves[i][..j], c, leaves[i][j..], Flat(leaves[i + 1..]));
    SlotParts(leaves, i, j, c.key);
    SlotAbsent(leaves, i, j, c.key);
    AboveSlot(leaves, i, j, c.key);
    SortedInsert(Before(leaves, i, j), c, After(leaves, i, j));
  }

  /** Inserting into one leaf and dividing it behind its first `n` cells. */
  lemma InsertSplit(leaves: seq<seq<Cell>>, i: nat, j: nat, c: Cell, n: nat)
    requires Sorted(Flat(leaves)) && Slot(leaves, i, j, c.key)
    requires j < |leaves[i]| ==> leaves[i][j].key != c.key
    requires n <= |leaves[i]| + 1
    ensures Sorted(Before(leaves, i, j) + [c] + After(leaves, i, j))
    ensures var w := With(leaves[i], j, c);
            Flat(leaves[..i] + [w[..n], w[n..]] + leaves[i + 1..]) == Before(leaves, i, j) + [c] + After(leaves, i, j)
  {
    hide Flat, Sorted, Before, After, With;
    InsertPlain(leaves, i, j, c);
    var w := With(leaves[i], j, c);
    LongerByOne(leaves[i], j, c);
    FlatReplaced(leaves, i, [w]);
    FlatReplaced(leaves, i, [w[..n], w[n..]]);
    SameFlat(w, n);
  }

  lemma LongerByOne(leaf: seq<Cell>, j: nat, c: Cell)
    requires j <= |leaf|
    ensures |With(leaf, j, c)| == |leaf| + 1
  {
  }

  /** A leaf and its two halves hold the same cells. */
  lemma SameFlat(w: seq<Cell>, n: nat)
    requires n <= |w|
    ensures Flat([w[..n], w[n..]]) == Flat([w]) == w
  {
    assert Flat([w]) == w + Flat([]) == w;
    assert [w[..n], w[n..]][1..] == [w[n..]];
    assert Flat([w[n..]]) == w[n..] + Flat([]) == w[n..];
    assert w[..n] + w[n..] == w;
  }

  /** The child that a key belongs to: the first one whose separator is not below it. */
  function Route(keys: seq<uint32>, key: uint32): (i: nat)
    ensures i <= |keys|
    ensures forall a | 0 <= a < i :: keys[a] < key
    ensures i < |keys| ==> key <= keys[i]
  {
    if keys == [] || key <= keys[0] then 0 else 1 + Route(keys[1..], key)
  }

  predicate Rising(keys: seq<uint32>) {
    forall a, b | 0 <= a < b < |keys| :: keys[a] < keys[b]
  }

  lemma RouteUnique(keys: seq<uint32>, key: uint32, i: nat)
    requires i <= |keys|
    requires forall a | 0 <= a < i :: keys[a] < key
    requires i < |keys| ==> key <= keys[i]
    ensures Route(keys, key) == i
  {
  }

  /** The separators of the root; none when it is a leaf. */
  function RootKeys(pages: seq<Page>): seq<uint32>
    requires pages != [] && (pages[0].kind.Internal? ==> pages[0].numKeys <= |pages[0].entries|)
  {
    if pages[0].kind.Leaf? then [] else Keys(pages[0])
  }

  /** Each separator is the last key of the leaf to its left. */
  ghost predicate Separated(leaves: seq<seq<Cell>>, keys: seq<uint32>) {
    && |leaves| == |keys| + 1
    && (forall a | 0 <= a < |keys| :: leaves[a] != [] && leaves[a][|leaves[a]| - 1].key == keys[a])
  }

  lemma SeparatedInsert(leaves: seq<seq<Cell>>, keys: seq<uint32>, i: nat, j: nat, c: Cell)
    requires Separated(leaves, keys) && i < |leaves| && j <= |leaves[i]| && (i + 1 < |leaves| ==> j < |leaves[i]|)
    ensures Separated(leaves[..i] + [With(leaves[i], j, c)] + leaves[i + 1..], keys)
  {
    var l: seq<seq<Cell>> := leaves[..i] + [With(leaves[i], j, c)] + leaves[i + 1..];
    forall a | 0 <= a < |keys|
      ensures l[a] != [] && l[a][|l[a]| - 1].key == keys[a]
    {
      if a == i {
        WithLast(leaves[i], j, c);
      }
    }
  }

  lemma UsedLast(p: Page)
    requires 1 <= p.numCells <= |p.cells|
    ensures |p.Used()| == p.numCells && p.Used()[p.numCells - 1].key == MaxKey(p)
  {
  }

  lemma TreeSeparated(pages: seq<Page>, maxCells: nat, maxKeys: nat)
    requires TreeOk(pages, maxCells, maxKeys)
    ensures Separated(Leaves(pages, LeafIds(pages)), RootKeys(pages))
  {
    hide Leaves, Linked, RootOk, Keys, Children, Flat, Sorted, AllStored, TreeOk;
    TreeParts(pages, maxCells, maxKeys);
    var ids, keys := LeafIds(pages), RootKeys(pages);
    var leaves: seq<seq<Cell>> := Leaves(pages, ids);
    if pages[0].kind.Internal? {
      forall a | 0 <= a < |keys|
        ensures leaves[a] != [] && leaves[a][|leaves[a]| - 1].key == keys[a]
      {
        Separator(pages, ids, keys, a);
      }
      RootCount(pages, ids, keys);
    }
  }

  lemma TreeParts(pages: seq<Page>, maxCells: nat, maxKeys: nat)
    requires TreeOk(pages, maxCells, maxKeys)
    ensures pages != [] && (pages[0].kind.Internal? ==> pages[0].numKeys <= |pages[0].entries|)
    ensures Linked(pages, LeafIds(pages))
    ensures pages[0].kind.Internal? ==> RootOk(pages, LeafIds(pages), Keys(pages[0]))
  {
  }

  lemma RootCount(pages: seq<Page>, ids: seq<nat>, keys: seq<uint32>)
    requires Linked(pages, ids) && RootOk(pages, ids, keys)
    ensures |Leaves(pages, ids)| == |keys| + 1
  {
  }

  lemma Separator(pages: seq<Page>, ids: seq<nat>, keys: seq<uint32>, a: nat)
    requires Linked(pages, ids) && RootOk(pages, ids, keys) && a < |keys|
    ensures var leaf := Leaves(pages, ids)[a]; leaf != [] && leaf[|leaf| - 1].key == keys[a]
  {
    UsedLast(pages[ids[a]]);
  }

  lemma KeysRise(leaves: seq<seq<Cell>>, keys: seq<uint32>)
    requires Sorted(Flat(leaves)) && Separated(leaves, keys)
    ensures Rising(keys)
  {
    forall a, b | 0 <= a < b < |keys|
      ensures keys[a] < keys[b]
    {
      LeafBelow(leaves, a, |leaves[a]| - 1, b, |leaves[b]| - 1);
    }
  }

  lemma LeafUpTo(leaf: seq<Cell>, x: nat)
    requires Sorted(leaf) && x < |leaf|
    ensures leaf[x].key <= leaf[|leaf| - 1].key
  {
  }

  /** The place found in the leaf that a key is routed to is a slot of the whole table. */
  lemma RouteSlot(leaves: seq<seq<Cell>>, keys: seq<uint32>, key: uint32, j: nat)
    requires Sorted(Flat(leaves)) && Separated(leaves, keys)
    requires var leaf := leaves[Route(keys, key)];
             && j <= |leaf|
             && (forall x | 0 <= x < j :: leaf[x].key < key)
             && (forall x | j <= x < |leaf| :: key <= leaf[x].key)
    ensures Slot(leaves, Route(keys, key), j, key)
  {
    var i := Route(keys, key);
    forall a, x | 0 <= a < i && 0 <= x < |leaves[a]|
      ensures leaves[a][x].key < key
    {
      LeafSorted(leaves, a);
      LeafUpTo(leaves[a], x);
      assert keys[a] < key;
    }
    forall a, x | i < a < |leaves| && 0 <= x < |leaves[a]|
      ensures key < leaves[a][x].key
    {
      LeafBelow(leaves, i, |leaves[i]| - 1, a, x);
    }
  }
}
