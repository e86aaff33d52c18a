/** The B+tree of simpledb (simpledb/node_btree.c, simpledb/table.c, simpledb/statement.c, simpledb/pager.c): search,
    scan, and insertion with leaf splitting, on a table of pages that are changed in place.

    The capacities of the two kinds of nodes are parameters. Where the program leaves with exit(), the methods
    return `false` or `ProcessExit`; nothing of the table is written back then. */
module SdbTable {
  import opened Integers
  import opened SdbTree
  import opened SdbGrow
  import opened Arith

  const TABLE_MAX_PAGES: nat := 100

  datatype ExecuteResult = Success | DuplicateKey | ProcessExit

  /** The rows with one more, in the order of the keys. */
  function Inserted(rows: seq<Cell>, c: Cell): seq<Cell> {
    if rows == [] || c.key < rows[0].key then [c] + rows else [rows[0]] + Inserted(rows[1..], c)
  }

  lemma {:induction false} InsertedBetween(a: seq<Cell>, c: Cell, b: seq<Cell>)
    requires forall x | 0 <= x < |a| :: a[x].key < c.key
    requires forall x | 0 <= x < |b| :: c.key < b[x].key
    ensures Inserted(a + b, c) == a + [c] + b
  {
    if a == [] {
      assert a + b == b;
    } else {
      assert (a + b)[1..] == a[1..] + b;
      InsertedBetween(a[1..], c, b);
    }
  }

  function AsMap(rows: seq<Cell>): map<uint32, Row> {
    if rows == [] then map[] else AsMap(rows[1..])[rows[0].key := rows[0].row]
  }

  /** As a map from keys to rows, the table gains exactly the new key. */
  lemma {:induction false} InsertedAsMap(rows: seq<Cell>, c: Cell)
    requires !HasKey(rows, c.key)
    ensures AsMap(Inserted(rows, c)) == AsMap(rows)[c.key := c.row]
  {
    if rows == [] || c.key < rows[0].key {
      assert ([c] + rows)[1..] == rows;
    } else {
      var rest := rows[1..];
      assert !HasKey(rest, c.key) by {
        assert forall x | 0 <= x < |rest| :: rest[x] == rows[x + 1];
      }
      InsertedAsMap(rest, c);
      assert ([rows[0]] + Inserted(rest, c))[1..] == Inserted(rest, c);
    }
  }

  /** What dividing the leaf `p` leaves on its own page and puts on page `n`. */
  ghost predicate Halves(p: Page, left: Page, right: Page, n: nat, j: nat, c: Cell, count: nat) {
    && p.numCells == |p.cells| && j <= |p.cells| && count <= |p.cells|
    && left == p.(nextLeaf := n, numCells := count, cells := left.cells) && |left.cells| == |p.cells|
    && left.Used() == With(p.Used(), j, c)[..count]
    && right.kind.Leaf? && !right.isRoot && right.parent == p.parent && right.nextLeaf == p.nextLeaf
    && right.numCells == |p.cells| + 1 - count <= |right.cells| == |p.cells|
    && right.Used() == With(p.Used(), j, c)[count..]
  }

  /** The cell at the slot of a key decides whether the table has the key. */
  lemma SlotDecides(pages: seq<Page>, maxCells: nat, maxKeys: nat, i: nat, j: nat, key: uint32)
    requires TreeOk(pages, maxCells, maxKeys) && Slot(Leaves(pages, LeafIds(pages)), i, j, key)
    ensures i < |LeafIds(pages)| && LeafIds(pages)[i] < |pages|
    ensures var node := pages[LeafIds(pages)[i]];
            && node.numCells <= |node.cells|
            && (HasKey(Rows(pages), key) <==> j < node.numCells && node.cells[j].key == key)
  {
    hide Flat, Sorted, HasKey;
    var leaves := Leaves(pages, LeafIds(pages));
    assert leaves[i] == pages[LeafIds(pages)[i]].Used();
    SlotAbsent(leaves, i, j, key);
    assert Rows(pages) == Flat(leaves);
    hide Slot, Linked;
  }

  /** A key that the table does not have fits in its slot. */
  lemma SlotTakes(pages: seq<Page>, maxCells: nat, maxKeys: nat, i: nat, j: nat, c: Cell)
    requires TreeOk(pages, maxCells, maxKeys) && Slot(Leaves(pages, LeafIds(pages)), i, j, c.key)
    requires !HasKey(Rows(pages), c.key)
    ensures var leaves := Leaves(pages, LeafIds(pages));
            Fits(leaves, i, j, c) && Inserted(Rows(pages), c) == Before(leaves, i, j) + [c] + After(leaves, i, j)
  {
    hide Flat, Sorted, Inserted, Before, After, HasKey;
    var leaves := Leaves(pages, LeafIds(pages));
    SlotAbsent(leaves, i, j, c.key);
    SlotParts(leaves, i, j, c.key);
    AboveSlot(leaves, i, j, c.key);
    hide Slot, Linked;
    InsertedBetween(Before(leaves, i, j), c, After(leaves, i, j));
  }

  lemma LeafKinds(pages: seq<Page>, maxCells: nat, maxKeys: nat, i: nat)
    requires TreeOk(pages, maxCells, maxKeys) && i < |LeafIds(pages)|
    ensures var o := LeafIds(pages)[i];
            && o < |pages| && pages[o].kind.Leaf? && (pages[o].isRoot <==> pages[0].kind.Leaf?)
            && (pages[0].kind.Leaf? ==> o == 0 && i == 0)
            && (pages[0].kind.Internal? ==> o != 0 && pages[o].parent == 0)
            && AllStored(pages, maxCells, maxKeys) && pages[0].isRoot && 1 <= maxCells && 1 <= maxKeys && 0 < |pages|
            && |pages[o].cells| == maxCells && pages[o].numCells <= maxCells
            && (maxCells <= pages[o].numCells ==>
                  (Exhausted(pages, maxCells, maxKeys, i) <==>
                     (if pages[0].kind.Leaf? then TABLE_MAX_PAGES < |pages| + 2
                      else TABLE_MAX_PAGES <= |pages| || maxKeys <= pages[0].numKeys)))
  {
  }

  /** The whole table behind create_new_root. */
  lemma RootDivided(was: seq<Page>, left: Page, right: Page, pages: seq<Page>, maxCells: nat, maxKeys: nat, j: nat,
                    c: Cell, count: nat)
    requires TreeOk(was, maxCells, maxKeys) && was[0].kind.Leaf? && was[0].numCells == maxCells
    requires Fits(Leaves(was, LeafIds(was)), 0, j, c) && 0 < count <= maxCells
    requires Halves(was[0], left, right, |was|, j, c, count) && |right.entries| == maxKeys + 1
    requires |pages| == |was| + 2
    requires pages == was[0 := pages[0]] + [right.(parent := 0), left.(isRoot := false, parent := 0)]
    requires pages[0].kind.Internal? && pages[0].isRoot && Stored(pages[0], maxCells, maxKeys)
    requires left.numCells >= 1 && Children(pages[0]) == [|was| + 1, |was|] && Keys(pages[0]) == [MaxKey(left)]
    ensures TreeOk(pages, maxCells, maxKeys)
    ensures var leaves := Leaves(was, LeafIds(was)); Rows(pages) == Before(leaves, 0, j) + [c] + After(leaves, 0, j)
    ensures Filled(was, maxCells) && IsHalf(count, maxCells) ==> Filled(pages, maxCells)
  {
    LeafKinds(was, maxCells, maxKeys, 0);
    assert LeafIds(was)[0] == 0;
    var r, l := right.(parent := 0), left.(isRoot := false, parent := 0);
    assert was[0].nextLeaf == 0;
    assert r.Used() == right.Used() && l.Used() == left.Used();
    UsedLast(left);
    SplitRoot(was, pages[0], r, l, maxCells, maxKeys, j, c, count);
  }

  function WithCells(pages: seq<Page>, n: nat, cells: seq<Cell>): (r: seq<Page>)
    requires n < |pages|
    ensures |r| == |pages|
  {
    pages[n := pages[n].(cells := cells)]
  }

  function InitializeLeaf(p: Page): Page {
    p.(kind := Leaf, isRoot := false, numCells := 0, nextLeaf := 0)
  }

  function InitializeInternal(p: Page): Page {
    p.(kind := Internal, isRoot := false, numKeys := 0)
  }

  /** An insertion into leaf `i` needs pages or separators that there is no room for. */
  ghost predicate Exhausted(pages: seq<Page>, maxCells: nat, maxKeys: nat, i: nat)
    requires TreeOk(pages, maxCells, maxKeys) && i < |LeafIds(pages)|
  {
    && maxCells <= pages[LeafIds(pages)[i]].numCells
    && (if pages[0].kind.Leaf? then TABLE_MAX_PAGES < |pages| + 2
        else TABLE_MAX_PAGES <= |pages| || maxKeys <= pages[0].numKeys)
  }

  /** The divisions that a table can make before it runs out of separators or pages. */
  function Divisions(maxKeys: nat): nat {
    if maxKeys < TABLE_MAX_PAGES - 2 then maxKeys else TABLE_MAX_PAGES - 2
  }

  /** A table with fewer rows than this has room for one more. */
  function SurelyFits(maxCells: nat, maxKeys: nat): nat {
    maxCells + Divisions(maxKeys) * ((maxCells + 1) / 2)
  }

  /** With the capacities of the program, 55 cells and 3 separators, the first 139 rows fit in any order; however many
      separators there are, a table has at most 99 leaves. */
  lemma Capacity(maxCells: nat, maxKeys: nat)
    ensures SurelyFits(55, 3) == 139
    ensures 98 <= maxKeys ==> SurelyFits(maxCells, maxKeys) == maxCells + 98 * ((maxCells + 1) / 2)
  {
  }

  /** As all leaves are half full, there are many rows when pages or separators are exhausted. */
  lemma ExhaustedRows(pages: seq<Page>, maxCells: nat, maxKeys: nat, i: nat)
    requires TreeOk(pages, maxCells, maxKeys) && Filled(pages, maxCells) && i < |LeafIds(pages)|
    requires Exhausted(pages, maxCells, maxKeys, i)
    ensures SurelyFits(maxCells, maxKeys) <= |Rows(pages)|
  {
    hide *;
    ExhaustedShape(pages, maxCells, maxKeys, i);
    ManyRows(Leaves(pages, LeafIds(pages)), maxCells, maxKeys, i);
  }

  lemma ManyRows(leaves: seq<seq<Cell>>, maxCells: nat, maxKeys: nat, i: nat)
    requires i < |leaves| && Divisions(maxKeys) <= |leaves| - 1 && maxCells <= |leaves[i]|
    requires forall k | 0 <= k < |leaves| :: (maxCells + 1) / 2 <= |leaves[k]|
    ensures SurelyFits(maxCells, maxKeys) <= |Flat(leaves)|
  {
    hide Flat, Divisions;
    var half := (maxCells + 1) / 2;
    RowsWithFull(leaves, i, half);
    MulMono(Divisions(maxKeys), |leaves| - 1, half);
  }

  lemma ExhaustedShape(pages: seq<Page>, maxCells: nat, maxKeys: nat, i: nat)
    requires TreeOk(pages, maxCells, maxKeys) && Filled(pages, maxCells) && i < |LeafIds(pages)|
    requires Exhausted(pages, maxCells, maxKeys, i)
    ensures pages != [] && (pages[0].kind.Internal? ==> pages[0].numKeys <= |pages[0].entries|)
    ensures Linked(pages, LeafIds(pages))
    ensures var leaves: seq<seq<Cell>> := Leaves(pages, LeafIds(pages));
            && i < |leaves| && Divisions(maxKeys) <= |leaves| - 1 && maxCells <= |leaves[i]|
            && Rows(pages) == Flat(leaves)
            && forall k | 0 <= k < |leaves| :: (maxCells + 1) / 2 <= |leaves[k]|
  {
    hide Flat, Sorted;
  }

  /** internal_node_find_child. */
  method FindChild(p: Page, key: uint32) returns (index: nat)
    requires p.numKeys <= |p.entries| && Rising(Keys(p))
    ensures index == Route(Keys(p), key)
  {
    var minIndex, maxIndex := 0, p.numKeys;
    while minIndex != maxIndex
      invariant minIndex <= maxIndex <= p.numKeys
      invariant forall a | 0 <= a < minIndex :: Keys(p)[a] < key
      invariant maxIndex < p.numKeys ==> key <= Keys(p)[maxIndex]
      decreases maxIndex - minIndex
    {
      var at := (minIndex + maxIndex) / 2;
      var keyToRight := p.entries[at].key;
      assert keyToRight == Keys(p)[at];
      if keyToRight >= key {
        maxIndex := at;
      } else {
        minIndex := at + 1;
      }
    }
    RouteUnique(Keys(p), key, minIndex);
    index := minIndex;
  }

  /** A table is empty when its first leaf is. */
  lemma EmptyTable(pages: seq<Page>, maxCells: nat, maxKeys: nat)
    requires TreeOk(pages, maxCells, maxKeys)
    ensures Rows(pages) == [] <==> Leaves(pages, LeafIds(pages))[0] == []
    ensures Sorted(Rows(pages)) && |LeafIds(pages)| > 0
  {
    var leaves: seq<seq<Cell>> := Leaves(pages, LeafIds(pages));
    assert Flat(leaves) == leaves[0] + Flat(leaves[1..]);
    if leaves[0] == [] {
      assert pages[LeafIds(pages)[0]].numCells == 0;
      assert leaves[1..] == [];
    }
  }

  /** The leaf on a page, and that only the first one can be empty. */
  lemma LeafHere(pages: seq<Page>, maxCells: nat, maxKeys: nat, i: nat)
    requires TreeOk(pages, maxCells, maxKeys) && i < |LeafIds(pages)|
    ensures var p, leaf := pages[LeafIds(pages)[i]], Leaves(pages, LeafIds(pages))[i];
            p.numCells == |leaf| <= |p.cells| && (forall x | 0 <= x < |leaf| :: leaf[x] == p.cells[x])
    ensures 0 < i ==> Leaves(pages, LeafIds(pages))[i] != []
    ensures LeafIds(pages)[i] < |pages| && |Leaves(pages, LeafIds(pages))| == |LeafIds(pages)|
    ensures forall k | 0 <= k < |LeafIds(pages)| && k != i :: LeafIds(pages)[k] != LeafIds(pages)[i]
  {
  }

  lemma LeafLink(pages: seq<Page>, maxCells: nat, maxKeys: nat, i: nat)
    requires TreeOk(pages, maxCells, maxKeys) && i < |LeafIds(pages)|
    ensures LeafIds(pages)[i] < |pages|
    ensures i + 1 < |LeafIds(pages)| ==> 0 != LeafIds(pages)[i + 1] == pages[LeafIds(pages)[i]].nextLeaf
    ensures i + 1 == |LeafIds(pages)| ==> pages[LeafIds(pages)[i]].nextLeaf == 0
  {
  }

  predicate Printed(printed: seq<Row>, rows: seq<Cell>) {
    |printed| == |rows| && forall x | 0 <= x < |rows| :: printed[x] == rows[x].row
  }

  /** The rows before cell `j` of leaf `i` have been printed. */
  ghost predicate Scanned(printed: seq<Row>, leaves: seq<seq<Cell>>, i: nat, j: nat) {
    && i < |leaves| && j < |leaves[i]| && |printed| == |Flat(leaves[..i])| + j <= |Flat(leaves)|
    && (forall x | 0 <= x < |printed| :: printed[x] == Flat(leaves)[x].row)
  }

  lemma ScannedPlace(printed: seq<Row>, leaves: seq<seq<Cell>>, i: nat, j: nat)
    requires Scanned(printed, leaves, i, j)
    ensures i < |leaves| && j < |leaves[i]|
  {
  }

  lemma ScanStart(leaves: seq<seq<Cell>>)
    ensures leaves != [] && leaves[0] != [] ==> Scanned([], leaves, 0, 0)
    ensures Flat(leaves) == [] ==> Printed([], Flat(leaves))
  {
    if leaves != [] {
      assert leaves[..0] == [];
    }
  }

  lemma ScanNext(printed: seq<Row>, leaves: seq<seq<Cell>>, i: nat, j: nat, row: Row)
    requires Scanned(printed, leaves, i, j) && row == leaves[i][j].row
    ensures |printed| < |Flat(leaves)|
    ensures j + 1 < |leaves[i]| ==> Scanned(printed + [row], leaves, i, j + 1)
    ensures j + 1 == |leaves[i]| && i + 1 < |leaves| && leaves[i + 1] != [] ==>
              Scanned(printed + [row], leaves, i + 1, 0)
    ensures j + 1 == |leaves[i]| && i + 1 == |leaves| ==> Printed(printed + [row], Flat(leaves))
  {
    FlatPlace(leaves, i, j);
    FlatUpTo(leaves, i);
    assert forall x | 0 <= x < |printed| + 1 :: (printed + [row])[x] == Flat(leaves)[x].row;
  }

  class Cursor {
    var pageNum: nat
    var cellNum: nat
    var endOfTable: bool

    constructor (pageNum: nat, cellNum: nat)
      ensures this.pageNum == pageNum && this.cellNum == cellNum
    {
      this.pageNum := pageNum;
      this.cellNum := cellNum;
      this.endOfTable := false;
    }
  }

  /** The cells of `w` behind the `i`-th are in their half, and the old leaf still has the others. */
  ghost predicate Dividing(w: seq<Cell>, was: seq<Cell>, l: seq<Cell>, r: seq<Cell>, i: int, left: nat, m: nat) {
    && |was| == |l| == |r| == m && |w| == m + 1 && left <= m < 2 * left
    && (forall x | 0 <= x <= i && x < m :: l[x] == was[x])
    && (forall x | i < x < left && 0 <= x :: l[x] == w[x])
    && (forall x | 0 <= x <= m - left && i - left < x :: r[x] == w[left + x])
  }

  lemma DivideStart(was: seq<Cell>, r: seq<Cell>, j: nat, c: Cell, left: nat)
    requires |was| == |r| && 0 < left <= |was| < 2 * left && j <= |was|
    ensures Dividing(With(was, j, c), was, was, r, |was|, left, |was|)
  {
  }

  lemma WithOwnCells(pages: seq<Page>, o: nat, n: nat)
    requires o < |pages| && n < |pages|
    ensures pages == WithCells(WithCells(pages, o, pages[o].cells), n, pages[n].cells)
  {
  }

  lemma WithCellsTwice(pages: seq<Page>, o: nat, n: nat, l: seq<Cell>, r: seq<Cell>, d: nat, x: seq<Cell>)
    requires o < |pages| && n < |pages| && o != n && (d == n || d == o)
    ensures var p := WithCells(WithCells(WithCells(pages, o, l), n, r), d, x);
            && |p| == |pages| && p[o].cells == (if d == o then x else l) && p[n].cells == (if d == n then x else r)
            && p == WithCells(WithCells(pages, o, p[o].cells), n, p[n].cells)
  {
  }

  lemma Overwritten(a: seq<Page>, b: seq<Page>, c: seq<Page>)
    requires |a| == |b| == |c| > 0 && b == a[0 := b[0]] && c == b[0 := c[0]]
    ensures c == a[0 := c[0]]
  {
  }

  lemma ShiftedIn(p: Page, p': Page, j: nat, c: Cell)
    requires j <= p.numCells < |p.cells| == |p'.cells| && p'.numCells == p.numCells + 1
    requires forall x | 0 <= x < j :: p'.cells[x] == p.cells[x]
    requires p'.cells[j] == c
    requires forall x | j < x <= p.numCells :: p'.cells[x] == p.cells[x - 1]
    ensures p'.Used() == With(p.Used(), j, c)
  {
  }

  lemma HalvesDone(p: Page, right: Page, l: seq<Cell>, r: seq<Cell>, n: nat, j: nat, c: Cell, count: nat)
    requires p.numCells == |p.cells| == |l| == |r| && j <= |p.cells| && 0 < count <= |p.cells|
    requires right.kind.Leaf? && !right.isRoot && right.parent == p.parent && right.nextLeaf == p.nextLeaf
    requires l[..count] == With(p.cells, j, c)[..count] && r[..|l| + 1 - count] == With(p.cells, j, c)[count..]
    ensures Halves(p, p.(nextLeaf := n, cells := l, numCells := count), right.(cells := r, numCells := |l| + 1 - count),
              n, j, c, count)
  {
    assert p.Used() == p.cells;
  }

  lemma HalvesMax(p: Page, left: Page, right: Page, n: nat, j: nat, c: Cell, count: nat)
    requires Halves(p, left, right, n, j, c, count) && 0 < count
    ensures left.numCells == count <= |left.cells| && 1 <= right.numCells <= |right.cells|
    ensures var w := With(p.Used(), j, c);
            |w| == |p.cells| + 1 && MaxKey(left) == w[count - 1].key && MaxKey(right) == w[|p.cells|].key
  {
    UsedLast(left);
    UsedLast(right);
  }

  /** The two halves when the child `p` of the root is divided. */
  lemma ChildHalves(p: Page, leaf: seq<Cell>, n: nat, next: nat, left: Page, right: Page, j: nat, c: Cell, count: nat)
    requires IsLeaf(p, next, leaf) && Halves(p, left, right, n, j, c, count) && 0 < count <= |leaf|
    ensures IsLeaf(left, n, With(p.Used(), j, c)[..count]) && IsLeaf(right, next, With(p.Used(), j, c)[count..])
    ensures left.numCells == count <= |left.cells| && 1 <= right.numCells <= |right.cells| && p.Used() == leaf
    ensures MaxKey(left) == With(leaf, j, c)[count - 1].key && MaxKey(right) == With(leaf, j, c)[|leaf|].key
    ensures 1 <= p.numCells <= |p.cells| && MaxKey(p) == leaf[|leaf| - 1].key
  {
    HalvesMax(p, left, right, n, j, c, count);
    UsedLast(p);
  }

  /** The separators then. */
  lemma ChildKeys(leaves: seq<seq<Cell>>, keys: seq<uint32>, l: uint32, r: uint32, top: uint32, last: uint32,
                  i: nat, j: nat, c: Cell, count: nat)
    requires Separated(leaves, keys) && Fits(leaves, i, j, c) && 0 < count <= |leaves[i]| && leaves[|keys|] != []
    requires l == With(leaves[i], j, c)[count - 1].key && r == With(leaves[i], j, c)[|leaves[i]|].key
    requires top == leaves[i][|leaves[i]| - 1].key && last == leaves[|keys|][|leaves[|keys|]| - 1].key
    ensures Rising(keys) && Rising(With(keys, i, l)) && l < r && Route(keys, top) == i
    ensures i < |keys| ==> r == keys[i] <= last
  {
    SplitKeys(leaves, keys, i, j, c, count);
    TopRoute(leaves, keys, i);
  }

  /** The same on the level of the cells and the separators. */
  lemma SplitKeys(leaves: seq<seq<Cell>>, keys: seq<uint32>, i: nat, j: nat, c: Cell, count: nat)
    requires Separated(leaves, keys) && Fits(leaves, i, j, c) && 0 < count <= |leaves[i]|
    ensures Rising(With(keys, i, With(leaves[i], j, c)[count - 1].key))
    ensures With(leaves[i], j, c)[count - 1].key < With(leaves[i], j, c)[|leaves[i]|].key
    ensures i < |keys| ==> With(leaves[i], j, c)[|leaves[i]|].key == keys[i]
  {
    var w, n := With(leaves[i], j, c), |leaves[i]|;
    InsertSplit(leaves, i, j, c, count);
    SeparatedSplit(leaves, keys, i, j, c, count);
    var leaves': seq<seq<Cell>> := leaves[..i] + [w[..count], w[count..]] + leaves[i + 1..];
    KeysRise(leaves', With(keys, i, w[count - 1].key));
    LeafBelow(leaves', i, count - 1, i + 1, n - count);
    if i < |keys| {
      WithLast(leaves[i], j, c);
    }
  }

  /** The largest key of a leaf is routed to it. */
  lemma TopRoute(leaves: seq<seq<Cell>>, keys: seq<uint32>, i: nat)
    requires Separated(leaves, keys) && Sorted(Flat(leaves)) && i < |leaves| && leaves[i] != [] && leaves[|keys|] != []
    ensures Rising(keys) && Route(keys, leaves[i][|leaves[i]| - 1].key) == i
    ensures i < |keys| ==> keys[i] <= leaves[|keys|][|leaves[|keys|]| - 1].key
  {
    KeysRise(leaves, keys);
    if i < |keys| {
      LeafBelow(leaves, i, |leaves[i]| - 1, |keys|, |leaves[|keys|]| - 1);
    } else {
      forall a | 0 <= a < i
        ensures keys[a] < leaves[i][|leaves[i]| - 1].key
      {
        LeafBelow(leaves, a, |leaves[a]| - 1, i, |leaves[i]| - 1);
      }
    }
    RouteUnique(keys, leaves[i][|leaves[i]| - 1].key, i);
  }

  /** What update_internal_node_key and internal_node_insert find after a child of the root has been divided. */
  ghost predicate ParentReady(pages: seq<Page>, maxCells: nat, maxKeys: nat, o: nat, n: nat, oldMax: uint32, i: nat) {
    && AllStored(pages, maxCells, maxKeys) && 0 < o < |pages| && 0 < n < |pages| && o != n
    && pages[0].kind.Internal? && pages[0].rightChild < |pages| && 0 != pages[0].rightChild
    && pages[o].parent == 0 && pages[o].kind.Leaf? && 1 <= pages[o].numCells
    && pages[n].kind.Leaf? && 1 <= pages[n].numCells
    && pages[pages[0].rightChild].kind.Leaf? && 1 <= pages[pages[0].rightChild].numCells
    && var keys := Keys(pages[0]);
    && Rising(keys) && Route(keys, oldMax) == i && Rising(With(keys, i, MaxKey(pages[o])))
    && MaxKey(pages[o]) < MaxKey(pages[n])
    && (if i < |keys| then MaxKey(pages[n]) == keys[i] <= MaxKey(pages[pages[0].rightChild])
        else o == pages[0].rightChild)
  }

  /** Changing a separator and inserting the old one behind it is inserting the new one before it. */
  lemma KeyMoved(keys: seq<uint32>, i: nat, m: uint32, k: uint32)
    requires i <= |keys| && Rising(keys) && Rising(With(keys, i, m))
    requires m < k && (i < |keys| ==> k == keys[i])
    ensures i < |keys| ==>
      var keys' := keys[i := m];
      Rising(keys') && Route(keys', k) == i + 1 && With(keys', i + 1, k) == With(keys, i, m)
  {
    if i < |keys| {
      var keys' := keys[i := m];
      KeyReplaced(keys, i, m);
      RouteUnique(keys', k, i + 1);
      assert keys'[..i + 1] == keys[..i] + [m] && [k] + keys'[i + 1..] == keys[i..];
    }
  }

  lemma KeyReplaced(keys: seq<uint32>, i: nat, m: uint32)
    requires i < |keys| && Rising(keys) && Rising(With(keys, i, m))
    ensures Rising(keys[i := m]) && (forall a | 0 <= a < i :: keys[a] < m) && m < keys[i]
  {
    var all, keys' := With(keys, i, m), keys[i := m];
    assert all[i] == m && all[i + 1] == keys[i];
    forall a | 0 <= a < i
      ensures keys[a] < m
    {
      assert all[a] == keys[a];
    }
    forall a | i < a < |keys|
      ensures m < keys[a]
    {
      assert all[a + 1] == keys[a];
    }
  }

  lemma ParentFacts(was: seq<Page>, maxCells: nat, maxKeys: nat, o: nat, n: nat, oldMax: uint32, i: nat)
    requires ParentReady(was, maxCells, maxKeys, o, n, oldMax, i)
    ensures 0 < o < |was| && 0 < n < |was| && was[0].numKeys < |was[0].entries|
    ensures was[o].parent == 0 && 1 <= was[o].numCells <= |was[o].cells|
    ensures Rising(Keys(was[0])) && i == Route(Keys(was[0]), oldMax)
  {
    assert Stored(was[o], maxCells, maxKeys) && Stored(was[0], maxCells, maxKeys);
  }

  /** What internal_node_insert is called with, and that it puts the new child behind the old one. */
  lemma ParentUpdated(was: seq<Page>, pages: seq<Page>, maxCells: nat, maxKeys: nat, o: nat, n: nat, oldMax: uint32,
                      i: nat)
    requires ParentReady(was, maxCells, maxKeys, o, n, oldMax, i)
    requires |pages| == |was| && pages == was[0 := pages[0]]
    requires pages[0] == was[0].(entries := pages[0].entries) && |pages[0].entries| == |was[0].entries|
    requires Children(pages[0]) == Children(was[0])
    requires Keys(pages[0]) == if i < was[0].numKeys then Keys(was[0])[i := MaxKey(was[o])] else Keys(was[0])
    ensures AllStored(pages, maxCells, maxKeys) && pages[0].kind.Internal? && Rising(Keys(pages[0]))
    ensures pages[n] == was[n] && pages[n].kind.Leaf? && 1 <= pages[n].numCells <= |pages[n].cells|
    ensures pages[0].rightChild < |pages| && pages[0].numKeys == was[0].numKeys && pages[0].isRoot == was[0].isRoot
    ensures var p := pages[pages[0].rightChild]; p.kind.Leaf? && 1 <= p.numCells <= |p.cells|
    ensures i <= was[0].numKeys < |was[0].entries| && 0 < o < |was| && 0 < n < |was|
    ensures var ids, keys, keys' := Children(was[0]), Keys(was[0]), Keys(pages[0]);
            var k, last := MaxKey(pages[n]), MaxKey(pages[pages[0].rightChild]);
            var r := Route(keys', k);
            && (if k > last then ids + [n] else With(ids, r, n)) == With(ids, i + 1, n)
            && (if k > last then keys' + [last] else With(keys', r, k)) == With(keys, i, MaxKey(was[o]))
  {
    hide With, Route, Rising, Children, Keys;
    var keys, m, k, right := Keys(was[0]), MaxKey(was[o]), MaxKey(was[n]), was[0].rightChild;
    assert pages[n] == was[n] && pages[right] == was[right];
    assert forall x | 0 <= x < |was| :: Stored(was[x], maxCells, maxKeys);
    KeyMoved(keys, i, m, k);
    RootGrown(Children(was[0]), keys, i, n, m, k, MaxKey(was[right]));
  }

  /** The new children and separators of the root, from those that internal_node_insert computes. */
  lemma RootGrown(ids: seq<nat>, keys: seq<uint32>, i: nat, n: nat, m: uint32, k: uint32, last: uint32)
    requires |ids| == |keys| + 1 && i <= |keys| && m < k
    requires if i < |keys| then k == keys[i] <= last else last == m
    requires i < |keys| ==> Route(keys[i := m], k) == i + 1
    ensures var keys' := if i < |keys| then keys[i := m] else keys;
            var r := Route(keys', k);
            && (if k > last then ids + [n] else With(ids, r, n)) == With(ids, i + 1, n)
            && (if k > last then keys' + [last] else With(keys', r, k)) == With(keys, i, m)
  {
    if i < |keys| {
      hide Route;
      KeysGrown(keys, i, m);
    } else {
      hide Route;
      AtTheEnd(ids, n);
      AtTheEnd(keys, m);
    }
  }

  lemma KeysGrown(keys: seq<uint32>, i: nat, m: uint32)
    requires i < |keys|
    ensures With(keys[i := m], i + 1, keys[i]) == With(keys, i, m)
  {
    var keys' := keys[i := m];
    assert keys'[..i + 1] == keys[..i] + [m] && [keys[i]] + keys'[i + 1..] == keys[i..];
  }

  lemma AtTheEnd<T>(s: seq<T>, x: T)
    ensures s + [x] == With(s, |s|, x)
  {
  }

  lemma SplitBelowRoot(was: seq<Page>, mid: seq<Page>, maxCells: nat, maxKeys: nat, i: nat, j: nat, c: Cell, count: nat)
    requires TreeOk(was, maxCells, maxKeys) && was[0].kind.Internal? && i < |LeafIds(was)|
    requires Fits(Leaves(was, LeafIds(was)), i, j, c) && was[LeafIds(was)[i]].numCells == maxCells
    requires 0 < count <= maxCells
    requires var o, n := LeafIds(was)[i], |was|;
             && |mid| == n + 1 && mid == was[o := mid[o]] + [mid[n]]
             && Halves(was[o], mid[o], mid[n], n, j, c, count) && |mid[n].entries| == maxKeys + 1
    ensures var o, n := LeafIds(was)[i], |was|; var w := With(was[o].Used(), j, c);
            && ParentReady(mid, maxCells, maxKeys, o, n, MaxKey(was[o]), i)
            && IsLeaf(mid[o], n, w[..count]) && IsLeaf(mid[n], Next(LeafIds(was), i), w[count..])
            && |w| == maxCells + 1 && MaxKey(mid[o]) == w[count - 1].key && mid[0] == was[0]
            && Stored(mid[o], maxCells, maxKeys) && Stored(mid[n], maxCells, maxKeys)
            && Children(was[0]) == LeafIds(was) && was[0].numKeys < |was[0].entries|
  {
    var o, n, ids, keys := LeafIds(was)[i], |was|, LeafIds(was), Keys(was[0]);
    var leaves: seq<seq<Cell>> := Leaves(was, ids);
    Disassembled(was, maxCells, maxKeys);
    HalvesStored(was, mid, o, maxCells, maxKeys, j, c, count);
    assert IsLeaf(was[o], Next(ids, i), leaves[i]);
    assert IsLeaf(was[ids[|keys|]], 0, leaves[|keys|]);
    assert was[0].numKeys < |was[0].entries| && |keys| == was[0].numKeys;
    HalvesMax(was[o], mid[o], mid[n], n, j, c, count);
    hide *;
    HalvesReady(was, mid, ids, leaves, maxCells, maxKeys, o, ids[|keys|], i, j, c, count);
  }

  lemma BelowRootDone(was: seq<Page>, mid: seq<Page>, pages: seq<Page>, maxCells: nat, maxKeys: nat, i: nat, j: nat,
                      c: Cell, count: nat)
    requires TreeOk(was, maxCells, maxKeys) && was[0].kind.Internal? && i < |LeafIds(was)|
    requires Fits(Leaves(was, LeafIds(was)), i, j, c) && was[LeafIds(was)[i]].numCells == maxCells
    requires 0 < count <= maxCells
    requires var o, n := LeafIds(was)[i], |was|;
             && |mid| == n + 1 && mid == was[o := mid[o]] + [mid[n]]
             && Halves(was[o], mid[o], mid[n], n, j, c, count) && |mid[n].entries| == maxKeys + 1
    requires var o, n, ids, keys := LeafIds(was)[i], |was|, Children(was[0]), Keys(was[0]);
             && |pages| == |mid| && pages == mid[0 := pages[0]]
             && Stored(pages[0], maxCells, maxKeys) && pages[0].kind.Internal? && pages[0].isRoot == was[0].isRoot
             && Children(pages[0]) == With(ids, i + 1, n)
             && Keys(pages[0]) == With(keys, i, MaxKey(mid[o]))
    ensures TreeOk(pages, maxCells, maxKeys)
    ensures var leaves := Leaves(was, LeafIds(was)); Rows(pages) == Before(leaves, i, j) + [c] + After(leaves, i, j)
    ensures Filled(was, maxCells) && IsHalf(count, maxCells) ==> Filled(pages, maxCells)
  {
    var o, n := LeafIds(was)[i], |was|;
    SplitBelowRoot(was, mid, maxCells, maxKeys, i, j, c, count);
    LeafKinds(was, maxCells, maxKeys, i);
    hide *;
    Rebased(was, mid, pages, o);
    SplitChild(was, pages[0], mid[o], mid[n], maxCells, maxKeys, i, j, c, count);
  }

  lemma Rebased(was: seq<Page>, mid: seq<Page>, pages: seq<Page>, o: nat)
    requires 0 < o < |was| && |mid| == |was| + 1 == |pages|
    requires mid == was[o := mid[o]] + [mid[|was|]] && pages == mid[0 := pages[0]]
    ensures pages == was[0 := pages[0]][o := mid[o]] + [mid[|was|]]
  {
  }

  lemma HalvesStored(was: seq<Page>, mid: seq<Page>, o: nat, maxCells: nat, maxKeys: nat, j: nat, c: Cell, count: nat)
    requires AllStored(was, maxCells, maxKeys) && o < |was| && |mid| == |was| + 1
    requires mid == was[o := mid[o]] + [mid[|was|]]
    requires Halves(was[o], mid[o], mid[|was|], |was|, j, c, count) && |mid[|was|].entries| == maxKeys + 1
    requires was[o].kind.Leaf?
    ensures AllStored(mid, maxCells, maxKeys) && (o > 0 ==> mid[0] == was[0])
    ensures Stored(mid[o], maxCells, maxKeys) && Stored(mid[|was|], maxCells, maxKeys)
  {
    assert Stored(was[o], maxCells, maxKeys);
    if o > 0 {
      StoredDivided(was, was[0], o, mid[o], mid[|was|], maxCells, maxKeys);
      assert was[0 := was[0]] == was;
    }
  }

  lemma HalvesReady(was: seq<Page>, mid: seq<Page>, ids: seq<nat>, leaves: seq<seq<Cell>>, maxCells: nat, maxKeys: nat,
                    o: nat, last: nat, i: nat, j: nat, c: Cell, count: nat)
    requires was != [] && was[0].kind.Internal? && was[0].numKeys < |was[0].entries| && ids == Children(was[0])
    requires Distinct(ids, |was|) && i < |ids| && o == ids[i] && last == ids[|ids| - 1]
    requires Separated(leaves, Keys(was[0])) && Fits(leaves, i, j, c) && 0 < count <= |leaves[i]|
    requires leaves[was[0].numKeys] != []
    requires IsLeaf(was[o], Next(ids, i), leaves[i]) && IsLeaf(was[last], 0, leaves[was[0].numKeys])
    requires |mid| == |was| + 1 && mid == was[o := mid[o]] + [mid[|was|]] && AllStored(mid, maxCells, maxKeys)
    requires Halves(was[o], mid[o], mid[|was|], |was|, j, c, count)
    ensures ParentReady(mid, maxCells, maxKeys, o, |was|, MaxKey(was[o]), i)
    ensures IsLeaf(mid[o], |was|, With(was[o].Used(), j, c)[..count])
    ensures IsLeaf(mid[|was|], Next(ids, i), With(was[o].Used(), j, c)[count..])
  {
    assert i < |ids| - 1 ==> last != o;
    ChildHalves(was[o], leaves[i], |was|, Next(ids, i), mid[o], mid[|was|], j, c, count);
    UsedLast(was[last]);
    assert was[last].Used() == leaves[was[0].numKeys];
    ChildKeys(leaves, Keys(was[0]), MaxKey(mid[o]), MaxKey(mid[|was|]), MaxKey(was[o]), MaxKey(was[last]), i, j, c,
      count);
  }

  lemma EntryInserted(p: Page, p': Page, index: nat, e: Entry)
    requires index <= p.numKeys < |p.entries| == |p'.entries| && p'.numKeys == p.numKeys + 1
    requires p'.rightChild == p.rightChild
    requires forall x | 0 <= x < index :: p'.entries[x] == p.entries[x]
    requires p'.entries[index] == e
    requires forall x | index < x <= p.numKeys :: p'.entries[x] == p.entries[x - 1]
    ensures Children(p') == With(Children(p), index, e.child)
    ensures Keys(p') == With(Keys(p), index, e.key)
  {
  }

  lemma SmallMod(i: nat, n: nat)
    requires i < 2 * n
    ensures i % n == if i >= n then i - n else i
  {
    DivModUnique(i, n, if i >= n then 1 else 0, if i >= n then i - n else i);
  }

  lemma DivideStep(was: seq<Cell>, l: seq<Cell>, r: seq<Cell>, i: nat, j: nat, c: Cell, left: nat, at: nat)
    requires j <= |was| && i <= |was| && Dividing(With(was, j, c), was, l, r, i, left, |was|)
    requires at == if i >= left then i - left else i
    ensures |l| == |r| == |was| && at < |was| && (i > j ==> i > 0) && (i < j ==> i < |was|)
    ensures var w := With(was, j, c);
            var cell := if i == j then c else if i > j then l[i - 1] else l[i];
            if i >= left then Dividing(w, was, l, r[at := cell], i - 1, left, |was|)
            else Dividing(w, was, l[at := cell], r, i - 1, left, |was|)
  {
    var w := With(was, j, c);
    assert w[i] == if i == j then c else if i > j then l[i - 1] else l[i];
  }

  lemma DivideDone(w: seq<Cell>, was: seq<Cell>, l: seq<Cell>, r: seq<Cell>, i: int, left: nat, m: nat)
    requires i < 0 && Dividing(w, was, l, r, i, left, m)
    ensures |l| == m == |r| && l[..left] == w[..left] && r[..m + 1 - left] == w[left..]
  {
  }

  lemma FlatUpTo(leaves: seq<seq<Cell>>, i: nat)
    requires i < |leaves|
    ensures Flat(leaves[..i + 1]) == Flat(leaves[..i]) + leaves[i]
    ensures i + 1 == |leaves| ==> Flat(leaves[..i + 1]) == Flat(leaves)
  {
    FlatAround(leaves[..i + 1], i);
    assert leaves[..i + 1][..i] == leaves[..i] && leaves[..i + 1][i + 1..] == [];
    assert i + 1 == |leaves| ==> leaves[..i + 1] == leaves;
  }

  class Table {
    var pages: seq<Page>
    const maxCells: nat
    const maxKeys: nat

    ghost predicate Valid()
      reads this
    {
      TreeOk(pages, maxCells, maxKeys) && |pages| <= TABLE_MAX_PAGES && Filled(pages, maxCells)
    }

    /** db_open on a new file. */
    constructor (maxCells: nat, maxKeys: nat)
      requires 1 <= maxCells && 1 <= maxKeys
      ensures Valid() && Rows(pages) == [] && this.maxCells == maxCells && this.maxKeys == maxKeys
    {
      this.maxCells := maxCells;
      this.maxKeys := maxKeys;
      this.pages := [];
      new;
      var ok := GetPage(0);
      pages := [InitializeLeaf(pages[0]).(isRoot := true)];
      assert LeafIds(pages) == [0];
      assert Leaves(pages, LeafIds(pages)) == [[]];
      assert Flat([[]]) == [] + Flat([]);
    }

    /** pager_get_page for the page that pager_get_unused_page_num returns: what it holds is not determined. */
    method GetPage(n: nat) returns (ok: bool)
      requires n == |pages|
      modifies this
      ensures ok == (n < TABLE_MAX_PAGES)
      ensures ok ==> |pages| == n + 1 && pages[..n] == old(pages)
                     && |pages[n].cells| == maxCells && |pages[n].entries| == maxKeys + 1
      ensures !ok ==> pages == old(pages)
    {
      if n >= TABLE_MAX_PAGES {
        return false;
      }
      var junk: Page := *;
      var row: Row := *;
      var cells := seq(maxCells, _ => Cell(0, row));
      var entries := seq(maxKeys + 1, _ => Entry(0, 0));
      if |junk.cells| == maxCells && |junk.entries| == maxKeys + 1 {
        pages := pages + [junk];
      } else {
        pages := pages + [junk.(cells := cells, entries := entries)];
      }
      ok := true;
    }

    /** leaf_node_find. */
    method LeafNodeFind(n: nat, key: uint32) returns (cursor: Cursor)
      requires n < |pages| && pages[n].numCells <= |pages[n].cells| && Sorted(pages[n].Used())
      ensures fresh(cursor) && cursor.pageNum == n && cursor.cellNum <= pages[n].numCells
      ensures forall x | 0 <= x < cursor.cellNum :: pages[n].Used()[x].key < key
      ensures forall x | cursor.cellNum <= x < pages[n].numCells :: key <= pages[n].Used()[x].key
    {
      var cells := pages[n].Used();
      var minIndex, onePastMaxIndex := 0, pages[n].numCells;
      while onePastMaxIndex != minIndex
        invariant minIndex <= onePastMaxIndex <= |cells|
        invariant forall x | 0 <= x < minIndex :: cells[x].key < key
        invariant forall x | onePastMaxIndex <= x < |cells| :: key <= cells[x].key
        decreases onePastMaxIndex - minIndex
      {
        var index := (minIndex + onePastMaxIndex) / 2;
        var keyAtIndex := cells[index].key;
        if key == keyAtIndex {
          cursor := new Cursor(n, index);
          return;
        }
        if key < keyAtIndex {
          onePastMaxIndex := index;
        } else {
          minIndex := index + 1;
        }
      }
      cursor := new Cursor(n, minIndex);
    }

    /** internal_node_find: every child of the root is a leaf. */
    method InternalNodeFind(key: uint32) returns (cursor: Cursor)
      requires Valid() && pages[0].kind.Internal?
      ensures fresh(cursor)
      ensures var i := Route(Keys(pages[0]), key);
              cursor.pageNum == LeafIds(pages)[i] && Slot(Leaves(pages, LeafIds(pages)), i, cursor.cellNum, key)
    {
      ghost var ids := LeafIds(pages);
      ghost var leaves := Leaves(pages, ids);
      TreeSeparated(pages, maxCells, maxKeys);
      KeysRise(leaves, Keys(pages[0]));
      var childIndex := FindChild(pages[0], key);
      var childNum := pages[0].Child(childIndex);
      assert childNum == ids[childIndex];
      LeafSorted(leaves, childIndex);
      cursor := LeafNodeFind(childNum, key);
      RouteSlot(leaves, Keys(pages[0]), key, cursor.cellNum);
    }

    /** table_find. */
    method TableFind(key: uint32) returns (cursor: Cursor)
      requires Valid()
      ensures fresh(cursor)
      ensures var i := Route(RootKeys(pages), key);
              cursor.pageNum == LeafIds(pages)[i] && Slot(Leaves(pages, LeafIds(pages)), i, cursor.cellNum, key)
    {
      if pages[0].kind.Leaf? {
        ghost var leaves := Leaves(pages, LeafIds(pages));
        assert LeafIds(pages)[0] == 0;
        LeafSorted(leaves, 0);
        cursor := LeafNodeFind(0, key);
      } else {
        cursor := InternalNodeFind(key);
      }
    }

    /** table_start: the first row, or the end of an empty table. */
    method TableStart() returns (cursor: Cursor)
      requires Valid()
      ensures fresh(cursor) && cursor.pageNum == LeafIds(pages)[0] && cursor.cellNum == 0
      ensures cursor.endOfTable <==> Rows(pages) == []
    {
      var key0: uint32 := 0;
      cursor := TableFind(key0);
      var node := pages[cursor.pageNum];
      cursor.endOfTable := node.numCells == 0;
      ghost var ids := LeafIds(pages);
      ghost var leaves := Leaves(pages, ids);
      assert Route(RootKeys(pages), key0) == 0;
      assert leaves[0] == node.Used();
      assert cursor.cellNum > 0 ==> leaves[0][0].key < key0;
      EmptyTable(pages, maxCells, maxKeys);
    }

    /** cursor_advance: to the next cell, through the links between the leaves. */
    method CursorAdvance(cursor: Cursor, ghost i: nat)
      requires Valid() && i < |LeafIds(pages)| && cursor.pageNum == LeafIds(pages)[i]
      requires cursor.cellNum < pages[cursor.pageNum].numCells
      modifies cursor
      ensures var ids := LeafIds(pages); var n := old(cursor.cellNum) + 1;
              if n < pages[ids[i]].numCells then
                cursor.cellNum == n && cursor.pageNum == ids[i] && cursor.endOfTable == old(cursor.endOfTable)
              else if i + 1 < |ids| then
                cursor.cellNum == 0 && cursor.pageNum == ids[i + 1] && cursor.endOfTable == old(cursor.endOfTable)
              else cursor.endOfTable && cursor.pageNum == ids[i]
    {
      LeafLink(pages, maxCells, maxKeys, i);
      hide *;
      var node := pages[cursor.pageNum];
      cursor.cellNum := cursor.cellNum + 1;
      if cursor.cellNum >= node.numCells {
        var nextPageNum := node.nextLeaf;
        if nextPageNum == 0 {
          cursor.endOfTable := true;
        } else {
          cursor.pageNum := nextPageNum;
          cursor.cellNum := 0;
        }
      }
    }

    lemma TableFacts()
      requires Valid()
      ensures TreeOk(pages, maxCells, maxKeys) && Linked(pages, LeafIds(pages)) && 0 < |LeafIds(pages)|
      ensures pages != [] && (pages[0].kind.Internal? ==> pages[0].numKeys <= |pages[0].entries|)
      ensures Rows(pages) == Flat(Leaves(pages, LeafIds(pages))) && Sorted(Rows(pages))
    {
    }

    /** execute_select: the rows printed are the rows of the table, each once, in the order of the keys. */
    method ExecuteSelect() returns (printed: seq<Row>)
      requires Valid()
      ensures Printed(printed, Rows(pages))
      ensures Sorted(Rows(pages))
    {
      hide *;
      TableFacts();
      var cursor := TableStart();
      printed := [];
      ghost var i, ids := 0, LeafIds(pages);
      ghost var leaves: seq<seq<Cell>> := Leaves(pages, ids);
      EmptyTable(pages, maxCells, maxKeys);
      ScanStart(leaves);
      while !cursor.endOfTable
        invariant if cursor.endOfTable then Printed(printed, Flat(leaves))
                  else Scanned(printed, leaves, i, cursor.cellNum)
        invariant !cursor.endOfTable ==> i < |ids| && cursor.pageNum == ids[i]
        decreases |Flat(leaves)| - |printed|
      {
        LeafHere(pages, maxCells, maxKeys, i);
        ScannedPlace(printed, leaves, i, cursor.cellNum);
        var row := pages[cursor.pageNum].cells[cursor.cellNum].row;
        ScanNext(printed, leaves, i, cursor.cellNum, row);
        printed := printed + [row];
        CursorAdvance(cursor, i);
        if cursor.pageNum != ids[i] {
          i := i + 1;
          LeafHere(pages, maxCells, maxKeys, i);
        }
      }
    }

    method SetCell(n: nat, index: nat, c: Cell)
      requires n < |pages| && index < |pages[n].cells|
      modifies this
      ensures pages == WithCells(old(pages), n, old(pages)[n].cells[index := c])
    {
      pages := WithCells(pages, n, pages[n].cells[index := c]);
    }

    /** leaf_node_insert, without splitting: the cells from the place on move one up, the last one first. */
    method LeafNodeShiftIn(n: nat, j: nat, c: Cell)
      requires n < |pages| && j <= pages[n].numCells < |pages[n].cells|
      modifies this
      ensures |pages| == |old(pages)| && pages == old(pages)[n := pages[n]]
      ensures Extended(old(pages)[n], pages[n], j, c)
    {
      ghost var p := pages[n];
      var numCells := pages[n].numCells;
      if j < numCells {
        var i := numCells;
        while i > j
          invariant j <= i <= numCells && |pages| == |old(pages)|
          invariant pages == old(pages)[n := pages[n]]
          invariant pages[n] == p.(cells := pages[n].cells) && |pages[n].cells| == |p.cells|
          invariant forall x | 0 <= x <= i :: x < numCells ==> pages[n].cells[x] == p.cells[x]
          invariant forall x | i < x <= numCells :: pages[n].cells[x] == p.cells[x - 1]
        {
          SetCell(n, i, pages[n].cells[i - 1]);
          i := i - 1;
        }
      }
      pages := pages[n := pages[n].(numCells := pages[n].numCells + 1)];
      SetCell(n, j, c);
      ShiftedIn(p, pages[n], j, c);
    }

    /** create_new_root: the root keeps its page, and its old content moves to a new left child. */
    method CreateNewRoot(right: nat) returns (ok: bool)
      requires 0 < right < |pages| && pages[0].kind.Leaf? && 1 <= pages[0].numCells <= |pages[0].cells|
      requires AllStored(pages, maxCells, maxKeys) && 1 <= maxKeys
      modifies this
      ensures ok <==> |old(pages)| < TABLE_MAX_PAGES
      ensures ok ==>
        var was := old(pages);
        && |pages| == |was| + 1
        && pages == was[0 := pages[0]][right := was[right].(parent := 0)] + [was[0].(isRoot := false, parent := 0)]
        && pages[0].kind.Internal? && pages[0].isRoot && Stored(pages[0], maxCells, maxKeys)
        && Children(pages[0]) == [|was|, right] && Keys(pages[0]) == [MaxKey(was[0])]
    {
      ghost var was := pages;
      var leftNum := |pages|;
      ok := GetPage(leftNum);
      if !ok {
        return;
      }
      pages := pages[leftNum := pages[0].(isRoot := false)];
      pages := pages[0 := InitializeInternal(pages[0]).(isRoot := true, numKeys := 1)];
      var left := pages[leftNum];
      var entries := pages[0].entries;
      entries := entries[0 := entries[0].(child := leftNum)];
      entries := entries[0 := entries[0].(key := MaxKey(left))];
      pages := pages[0 := pages[0].(entries := entries, rightChild := right)];
      pages := pages[leftNum := pages[leftNum].(parent := 0)];
      pages := pages[right := pages[right].(parent := 0)];
    }

    /** update_internal_node_key. For the last child, the write goes behind the separators in use. */
    method UpdateInternalNodeKey(n: nat, oldKey: uint32, newKey: uint32)
      requires n < |pages| && pages[n].numKeys < |pages[n].entries| && Rising(Keys(pages[n]))
      modifies this
      ensures |pages| == |old(pages)| && pages == old(pages)[n := pages[n]]
      ensures var p, r := old(pages)[n], Route(Keys(old(pages)[n]), oldKey);
              && pages[n] == p.(entries := pages[n].entries) && |pages[n].entries| == |p.entries|
              && Children(pages[n]) == Children(p)
              && Keys(pages[n]) == if r < p.numKeys then Keys(p)[r := newKey] else Keys(p)
    {
      var index := FindChild(pages[n], oldKey);
      var p := pages[n];
      pages := pages[n := p.(entries := p.entries[index := p.entries[index].(key := newKey)])];
    }

    /** The loop of internal_node_insert that makes room for an entry. */
    static method PlaceEntry(entries0: seq<Entry>, n: nat, index: nat, e: Entry) returns (entries: seq<Entry>)
      requires index <= n < |entries0|
      ensures |entries| == |entries0| && entries[index] == e
      ensures forall x | 0 <= x < index :: entries[x] == entries0[x]
      ensures forall x | index < x <= n :: entries[x] == entries0[x - 1]
    {
      entries := entries0;
      var i := n;
      while i > index
        invariant index <= i <= n && |entries| == |entries0|
        invariant forall x | 0 <= x <= i :: entries[x] == entries0[x]
        invariant forall x | i < x <= n :: entries[x] == entries0[x - 1]
      {
        entries := entries[i := entries[i - 1]];
        i := i - 1;
      }
      entries := entries[index := e];
    }

    /** internal_node_insert: a new last child, or a new child and its separator before the first larger one. */
    method InternalNodeInsert(n: nat, child: nat) returns (ok: bool)
      requires n < |pages| && child < |pages| && AllStored(pages, maxCells, maxKeys)
      requires pages[n].kind.Internal? && Rising(Keys(pages[n])) && pages[n].rightChild < |pages|
      requires pages[child].kind.Leaf? && 1 <= pages[child].numCells
      requires pages[pages[n].rightChild].kind.Leaf? && 1 <= pages[pages[n].rightChild].numCells
      modifies this
      ensures |pages| == |old(pages)| && pages == old(pages)[n := pages[n]]
      ensures ok <==> old(pages)[n].numKeys < maxKeys
      ensures ok ==>
        var p, k := old(pages)[n], MaxKey(old(pages)[child]);
        var last := MaxKey(old(pages)[p.rightChild]);
        var r := Route(Keys(p), k);
        && Stored(pages[n], maxCells, maxKeys) && pages[n].kind.Internal? && pages[n].isRoot == p.isRoot
        && Children(pages[n]) == (if k > last then Children(p) + [child] else With(Children(p), r, child))
        && Keys(pages[n]) == (if k > last then Keys(p) + [last] else With(Keys(p), r, k))
    {
      ghost var was := pages;
      var childMaxKey := MaxKey(pages[child]);
      var index := FindChild(pages[n], childMaxKey);
      var originalNumKeys := pages[n].numKeys;
      pages := pages[n := pages[n].(numKeys := originalNumKeys + 1)];
      if originalNumKeys >= maxKeys {
        return false;
      }
      var rightNum := pages[n].rightChild;
      var rightMaxKey := MaxKey(pages[rightNum]);
      var entries := pages[n].entries;
      if childMaxKey > rightMaxKey {
        entries := entries[originalNumKeys := Entry(rightNum, rightMaxKey)];
        pages := pages[n := pages[n].(entries := entries, rightChild := child)];
      } else {
        entries := PlaceEntry(entries, originalNumKeys, index, Entry(child, childMaxKey));
        pages := pages[n := pages[n].(entries := entries)];
        EntryInserted(was[n], pages[n], index, Entry(child, childMaxKey));
      }
      ok := true;
    }

    /** The loop of leaf_node_split_and_insert: from the right, every cell goes to its place in one of the halves. */
    method Divide(o: nat, n: nat, j: nat, c: Cell)
      requires o < |pages| && n < |pages| && o != n && 1 <= maxCells && j <= maxCells
      requires |pages[o].cells| == maxCells && |pages[n].cells| == maxCells
      modifies this
      ensures |pages| == |old(pages)|
      ensures pages == WithCells(WithCells(old(pages), o, pages[o].cells), n, pages[n].cells)
      ensures |pages[o].cells| == maxCells && |pages[n].cells| == maxCells
      ensures var w := With(old(pages)[o].cells, j, c);
              && pages[o].cells[..LeftCount()] == w[..LeftCount()]
              && pages[n].cells[..maxCells + 1 - LeftCount()] == w[LeftCount()..]
    {
      hide With, WithCells, Dividing;
      ghost var was := pages[o].cells;
      ghost var w := With(was, j, c);
      var left := LeftCount();
      var i := maxCells;
      DivideStart(was, pages[n].cells, j, c, left);
      WithOwnCells(pages, o, n);
      hide *;
      while i >= 0
        invariant -1 <= i <= maxCells && |pages| == |old(pages)|
        invariant pages == WithCells(WithCells(old(pages), o, pages[o].cells), n, pages[n].cells)
        invariant Dividing(w, was, pages[o].cells, pages[n].cells, i, left, maxCells)
      {
        var destination := if i >= left then n else o;
        var indexWithinNode := i % left;
        SmallMod(i, left);
        DivideStep(was, pages[o].cells, pages[n].cells, i, j, c, left, indexWithinNode);
        var cell := if i == j then c else if i > j then pages[o].cells[i - 1] else pages[o].cells[i];
        if i >= left {
          WithCellsTwice(old(pages), o, n, pages[o].cells, pages[n].cells, n, pages[n].cells[indexWithinNode := cell]);
        } else {
          WithCellsTwice(old(pages), o, n, pages[o].cells, pages[n].cells, o, pages[o].cells[indexWithinNode := cell]);
        }
        SetCell(destination, indexWithinNode, cell);
        i := i - 1;
      }
      DivideDone(w, was, pages[o].cells, pages[n].cells, i, left, maxCells);
    }

    /** LEAF_NODE_LEFT_SPLIT_COUNT */
    function LeftCount(): (n: nat)
      ensures 1 <= maxCells ==> 1 <= n <= maxCells && maxCells + 1 <= 2 * n && IsHalf(n, maxCells)
    {
      maxCells + 1 - (maxCells + 1) / 2
    }

    /** The first part of leaf_node_split_and_insert: a new page takes the right half and comes next. */
    method SplitLeaf(o: nat, j: nat, c: Cell) returns (ok: bool)
      requires AllStored(pages, maxCells, maxKeys) && 1 <= maxCells && o < |pages| && j <= maxCells
      requires pages[o].kind.Leaf? && pages[o].numCells == maxCells
      modifies this
      ensures ok <==> |old(pages)| < TABLE_MAX_PAGES
      ensures ok ==> |pages| == |old(pages)| + 1
                     && pages == old(pages)[o := pages[o]] + [pages[|old(pages)|]]
                     && Halves(old(pages)[o], pages[o], pages[|old(pages)|], |old(pages)|, j, c, LeftCount())
                     && |pages[|old(pages)|].entries| == maxKeys + 1
    {
      var n := |pages|;
      ok := GetPage(n);
      if !ok {
        return;
      }
      pages := pages[n := InitializeLeaf(pages[n])];
      pages := pages[n := pages[n].(parent := pages[o].parent, nextLeaf := pages[o].nextLeaf)];
      pages := pages[o := pages[o].(nextLeaf := n)];
      ghost var p, right := old(pages)[o], pages[n];
      Divide(o, n, j, c);
      HalvesDone(p, right, pages[o].cells, pages[n].cells, n, j, c, LeftCount());
      hide Halves;
      pages := pages[o := pages[o].(numCells := LeftCount())];
      pages := pages[n := pages[n].(numCells := maxCells + 1 - LeftCount())];
    }

    /** leaf_node_split_and_insert. */
    method LeafNodeSplitAndInsert(cursor: Cursor, c: Cell, ghost i: nat) returns (ok: bool)
      requires Valid() && i < |LeafIds(pages)| && cursor.pageNum == LeafIds(pages)[i]
      requires Fits(Leaves(pages, LeafIds(pages)), i, cursor.cellNum, c) && pages[cursor.pageNum].numCells == maxCells
      modifies this
      ensures ok <==> !Exhausted(old(pages), maxCells, maxKeys, i)
      ensures ok ==> Valid() && Rows(pages) == var leaves := Leaves(old(pages), LeafIds(old(pages)));
                              Before(leaves, i, cursor.cellNum) + [c] + After(leaves, i, cursor.cellNum)
    {
      ghost var was := pages;
      var o, j := cursor.pageNum, cursor.cellNum;
      LeafKinds(pages, maxCells, maxKeys, i);
      var oldMax := MaxKey(pages[o]);
      var n := |pages|;
      ok := SplitLeaf(o, j, c);
      if !ok {
        return;
      }
      if pages[o].isRoot {
        ok := MoveRoot(was, n, j, c);
      } else {
        ok := ExtendRoot(was, o, n, oldMax, i, j, c);
      }
    }

    /** The last part of leaf_node_split_and_insert, when the leaf was the root. */
    method MoveRoot(ghost was: seq<Page>, n: nat, ghost j: nat, ghost c: Cell) returns (ok: bool)
      requires TreeOk(was, maxCells, maxKeys) && was[0].kind.Leaf? && was[0].numCells == maxCells
      requires Fits(Leaves(was, LeafIds(was)), 0, j, c) && Filled(was, maxCells)
      requires n == |was| == |pages| - 1 && pages == was[0 := pages[0]] + [pages[n]]
      requires Halves(was[0], pages[0], pages[n], n, j, c, LeftCount()) && |pages[n].entries| == maxKeys + 1
      modifies this
      ensures ok <==> |old(pages)| < TABLE_MAX_PAGES
      ensures ok ==> Valid() && Rows(pages) == var leaves := Leaves(was, LeafIds(was));
                                               Before(leaves, 0, j) + [c] + After(leaves, 0, j)
    {
      ghost var mid := pages;
      LeafKinds(was, maxCells, maxKeys, 0);
      HalvesStored(was, mid, 0, maxCells, maxKeys, j, c, LeftCount());
      hide TreeOk, Fits, Rows, Before, After, AllStored, Leaves, LeafIds, Filled;
      ok := CreateNewRoot(n);
      if ok {
        assert pages == was[0 := pages[0]] + [mid[n].(parent := 0), mid[0].(isRoot := false, parent := 0)];
        RootDivided(was, mid[0], mid[n], pages, maxCells, maxKeys, j, c, LeftCount());
      }
    }

    /** The last part of leaf_node_split_and_insert, when there is a root above the leaf. */
    method ExtendRoot(ghost was: seq<Page>, o: nat, n: nat, oldMax: uint32, ghost i: nat, ghost j: nat, ghost c: Cell)
      returns (ok: bool)
      requires TreeOk(was, maxCells, maxKeys) && was[0].kind.Internal? && i < |LeafIds(was)| && o == LeafIds(was)[i]
      requires was[o].numCells == maxCells == |was[o].cells| && 1 <= maxCells && oldMax == MaxKey(was[o])
      requires Fits(Leaves(was, LeafIds(was)), i, j, c) && Filled(was, maxCells)
      requires n == |was| == |pages| - 1 <= TABLE_MAX_PAGES - 1 && pages == was[o := pages[o]] + [pages[n]]
      requires Halves(was[o], pages[o], pages[n], n, j, c, LeftCount()) && |pages[n].entries| == maxKeys + 1
      modifies this
      ensures ok <==> was[0].numKeys < maxKeys
      ensures ok ==>
                && TreeOk(pages, maxCells, maxKeys) && |pages| == |old(pages)| && Filled(pages, maxCells)
                && Rows(pages) == var leaves := Leaves(was, LeafIds(was));
                                               Before(leaves, i, j) + [c] + After(leaves, i, j)
    {
      ghost var mid, ids, keys := pages, LeafIds(was), Keys(was[0]);
      LeafKinds(was, maxCells, maxKeys, i);
      SplitBelowRoot(was, mid, maxCells, maxKeys, i, j, c, LeftCount());
      hide *;
      ok := UpdateParent(o, n, oldMax, i);
      if ok {
        BelowRootDone(was, mid, pages, maxCells, maxKeys, i, j, c, LeftCount());
      }
    }

    /** The old page keeps its place among the children of the root, with its new largest key, and the new page comes
        next. */
    method UpdateParent(o: nat, n: nat, oldMax: uint32, ghost i: nat) returns (ok: bool)
      requires ParentReady(pages, maxCells, maxKeys, o, n, oldMax, i)
      modifies this
      ensures ok <==> old(pages)[0].numKeys < maxKeys
      ensures ok ==>
        var ids, keys := Children(old(pages)[0]), Keys(old(pages)[0]);
        && |pages| == |old(pages)| && pages == old(pages)[0 := pages[0]]
        && Stored(pages[0], maxCells, maxKeys) && pages[0].kind.Internal? && pages[0].isRoot == old(pages)[0].isRoot
        && Children(pages[0]) == With(ids, i + 1, n)
        && Keys(pages[0]) == With(keys, i, MaxKey(old(pages)[o]))
    {
      ghost var was := pages;
      ParentFacts(was, maxCells, maxKeys, o, n, oldMax, i);
      hide *;
      var parent := pages[o].parent;
      var newMax := MaxKey(pages[o]);
      UpdateInternalNodeKey(parent, oldMax, newMax);
      ParentUpdated(was, pages, maxCells, maxKeys, o, n, oldMax, i);
      ghost var mid := pages;
      ok := InternalNodeInsert(parent, n);
      Overwritten(was, mid, pages);
    }

    /** leaf_node_insert. */
    method LeafNodeInsert(cursor: Cursor, c: Cell, ghost i: nat) returns (ok: bool)
      requires Valid() && i < |LeafIds(pages)| && cursor.pageNum == LeafIds(pages)[i]
      requires Fits(Leaves(pages, LeafIds(pages)), i, cursor.cellNum, c)
      modifies this
      ensures ok <==> !Exhausted(old(pages), maxCells, maxKeys, i)
      ensures ok ==> Valid() && Rows(pages) == var leaves := Leaves(old(pages), LeafIds(old(pages)));
                              Before(leaves, i, cursor.cellNum) + [c] + After(leaves, i, cursor.cellNum)
    {
      ghost var was := pages;
      var n, j := cursor.pageNum, cursor.cellNum;
      if pages[n].numCells >= maxCells {
        ok := LeafNodeSplitAndInsert(cursor, c, i);
        return;
      }
      LeafNodeShiftIn(n, j, c);
      if was[0].kind.Leaf? {
        PlainRoot(was, pages[n], maxCells, maxKeys, j, c);
      } else {
        PlainChild(was, pages[n], maxCells, maxKeys, i, j, c);
      }
      ok := true;
    }

    /** execute_insert: one more row in its place, or nothing when the key is taken. The process ends when the leaf
        for the key is full and there is no page left for dividing it, or no separator. */
    method ExecuteInsert(row: Row) returns (r: ExecuteResult)
      requires Valid()
      modifies this
      ensures r.DuplicateKey? <==> HasKey(Rows(old(pages)), row.id)
      ensures r.DuplicateKey? ==> pages == old(pages)
      ensures r.ProcessExit? <==> !HasKey(Rows(old(pages)), row.id)
                                  && Exhausted(old(pages), maxCells, maxKeys, Route(RootKeys(old(pages)), row.id))
      ensures r.ProcessExit? ==> SurelyFits(maxCells, maxKeys) <= |Rows(old(pages))|
      ensures r.Success? ==> Valid() && Rows(pages) == Inserted(Rows(old(pages)), Cell(row.id, row))
    {
      hide *;
      var key := row.id;
      IsTree();
      var cursor := TableFind(key);
      ghost var i := Route(RootKeys(pages), key);
      SlotDecides(pages, maxCells, maxKeys, i, cursor.cellNum, key);
      var node := pages[cursor.pageNum];
      if cursor.cellNum < node.numCells {
        var keyAtIndex := node.cells[cursor.cellNum].key;
        if keyAtIndex == key {
          return DuplicateKey;
        }
      }
      SlotTakes(pages, maxCells, maxKeys, i, cursor.cellNum, Cell(key, row));
      if Exhausted(pages, maxCells, maxKeys, i) {
        ExhaustedRows(pages, maxCells, maxKeys, i);
      }
      var ok := LeafNodeInsert(cursor, Cell(key, row), i);
      r := if ok then Success else ProcessExit;
    }

    lemma IsTree()
      requires Valid()
      ensures TreeOk(pages, maxCells, maxKeys) && pages != [] && Linked(pages, LeafIds(pages))
      ensures Filled(pages, maxCells)
      ensures pages[0].kind.Internal? ==> pages[0].numKeys <= |pages[0].entries|
    {
    }
  }
}
