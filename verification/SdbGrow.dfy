/** What the steps of an insertion make of a simpledb table: the page of one leaf rewritten, or one leaf divided in two
    and the root extended (simpledb/node_btree.c). */
module SdbGrow {
  import opened Integers
  import opened SdbTree

  /** A child of the root that holds `cells`. */
  ghost predicate IsLeaf(p: Page, next: nat, cells: seq<Cell>) {
    && p.kind.Leaf? && !p.isRoot && p.parent == 0 && p.nextLeaf == next
    && p.numCells == |cells| <= |p.cells| && p.Used() == cells
  }

  ghost predicate Distinct(ids: seq<nat>, limit: nat) {
    && (forall i | 0 <= i < |ids| :: 0 < ids[i] < limit)
    && (forall i, j | 0 <= i < j < |ids| :: ids[i] != ids[j])
  }

  /** A root above at least two leaves. */
  lemma Assembled(pages: seq<Page>, ids: seq<nat>, leaves: seq<seq<Cell>>, maxCells: nat, maxKeys: nat)
    requires 1 <= maxCells && 1 <= maxKeys
    requires pages != [] && AllStored(pages, maxCells, maxKeys) && pages[0].isRoot
    requires pages[0].kind.Internal? && Children(pages[0]) == ids && 2 <= |ids|
    requires Distinct(ids, |pages|) && |leaves| == |ids|
    requires forall i | 0 <= i < |ids| :: IsLeaf(pages[ids[i]], Next(ids, i), leaves[i]) && leaves[i] != []
    requires Separated(leaves, Keys(pages[0])) && Sorted(Flat(leaves))
    ensures TreeOk(pages, maxCells, maxKeys) && Leaves(pages, LeafIds(pages)) == leaves && Rows(pages) == Flat(leaves)
  {
    assert LeafIds(pages) == ids;
    assert Linked(pages, ids) by {
      forall i | 0 <= i < |ids|
        ensures pages[ids[i]].kind.Leaf? && pages[ids[i]].numCells <= |pages[ids[i]].cells|
        ensures pages[ids[i]].nextLeaf == Next(ids, i)
      {
        assert IsLeaf(pages[ids[i]], Next(ids, i), leaves[i]);
      }
    }
    assert Leaves(pages, ids) == leaves;
    assert RootOk(pages, ids, Keys(pages[0])) by {
      forall i | 0 <= i < |ids|
        ensures !pages[ids[i]].isRoot && pages[ids[i]].parent == 0 && 1 <= pages[ids[i]].numCells
        ensures MaxKey(pages[ids[i]]) == leaves[i][|leaves[i]| - 1].key
      {
        assert IsLeaf(pages[ids[i]], Next(ids, i), leaves[i]);
        UsedLast(pages[ids[i]]);
      }
    }
  }

  /** The children of a root, as Assembled wants them. */
  lemma Disassembled(pages: seq<Page>, maxCells: nat, maxKeys: nat)
    requires TreeOk(pages, maxCells, maxKeys) && pages[0].kind.Internal?
    ensures var ids := LeafIds(pages); var leaves := Leaves(pages, ids);
            && ids == Children(pages[0]) && 2 <= |ids| && Distinct(ids, |pages|)
            && (forall i | 0 <= i < |ids| :: IsLeaf(pages[ids[i]], Next(ids, i), leaves[i]) && leaves[i] != [])
            && Separated(leaves, Keys(pages[0]))
  {
    TreeSeparated(pages, maxCells, maxKeys);
    var ids := LeafIds(pages);
    var leaves := Leaves(pages, ids);
    assert RootOk(pages, ids, Keys(pages[0]));
    forall i | 0 <= i < |ids|
      ensures IsLeaf(pages[ids[i]], Next(ids, i), leaves[i]) && leaves[i] != []
    {
      assert leaves[i] == pages[ids[i]].Used();
    }
  }

  /** The new cell `c` belongs at place `j` of leaf `i`. */
  ghost predicate Fits(leaves: seq<seq<Cell>>, i: nat, j: nat, c: Cell) {
    && Sorted(Flat(leaves)) && Slot(leaves, i, j, c.key)
    && (j < |leaves[i]| ==> leaves[i][j].key != c.key)
  }

  /** The page `p` with the cell `c` at place `j`. */
  ghost predicate Extended(p: Page, p': Page, j: nat, c: Cell) {
    && p.numCells < |p.cells| && j <= p.numCells
    && p' == p.(numCells := p.numCells + 1, cells := p'.cells)
    && |p'.cells| == |p.cells| && p'.Used() == With(p.Used(), j, c)
  }

  /** A root that is a leaf with room takes one more cell. */
  lemma PlainRoot(pages: seq<Page>, p: Page, maxCells: nat, maxKeys: nat, j: nat, c: Cell)
    requires TreeOk(pages, maxCells, maxKeys) && pages[0].kind.Leaf?
    requires Fits(Leaves(pages, LeafIds(pages)), 0, j, c) && Extended(pages[0], p, j, c)
    ensures TreeOk(pages[0 := p], maxCells, maxKeys)
    ensures var leaves := Leaves(pages, LeafIds(pages));
            Rows(pages[0 := p]) == Before(leaves, 0, j) + [c] + After(leaves, 0, j)
    ensures Filled(pages, maxCells) ==> Filled(pages[0 := p], maxCells)
  {
    hide *;
    OneLeaf(pages, maxCells, maxKeys);
    var leaves: seq<seq<Cell>> := [pages[0].Used()];
    FitsParts(leaves, 0, j, c);
    InsertPlain(leaves, 0, j, c);
    var leaf := With(leaves[0], j, c);
    assert leaves[..0] + [leaf] + leaves[1..] == [leaf];
    OneLeafAgain(pages, p, leaf, maxCells, maxKeys, j, c);
  }

  /** A root that is a leaf, from the cells that it holds. */
  lemma OneLeafAgain(pages: seq<Page>, p: Page, leaf: seq<Cell>, maxCells: nat, maxKeys: nat, j: nat, c: Cell)
    requires TreeOk(pages, maxCells, maxKeys) && pages[0].kind.Leaf? && Extended(pages[0], p, j, c)
    requires leaf == With(pages[0].Used(), j, c) && Sorted(Flat([leaf]))
    ensures TreeOk(pages[0 := p], maxCells, maxKeys) && Rows(pages[0 := p]) == Flat([leaf])
    ensures Filled(pages, maxCells) ==> Filled(pages[0 := p], maxCells)
  {
    hide Flat, Sorted, With;
    assert LeafIds(pages)[0] == 0 && LeafIds(pages[0 := p])[0] == 0;
    assert Leaves(pages[0 := p], [0]) == [leaf];
  }

  /** A child of the root with room takes one more cell. */
  lemma PlainChild(pages: seq<Page>, p: Page, maxCells: nat, maxKeys: nat, i: nat, j: nat, c: Cell)
    requires TreeOk(pages, maxCells, maxKeys) && pages[0].kind.Internal?
    requires Fits(Leaves(pages, LeafIds(pages)), i, j, c) && Extended(pages[LeafIds(pages)[i]], p, j, c)
    ensures TreeOk(pages[LeafIds(pages)[i] := p], maxCells, maxKeys)
    ensures var leaves := Leaves(pages, LeafIds(pages));
            Rows(pages[LeafIds(pages)[i] := p]) == Before(leaves, i, j) + [c] + After(leaves, i, j)
    ensures Filled(pages, maxCells) ==> Filled(pages[LeafIds(pages)[i] := p], maxCells)
  {
    hide *;
    TreeParts(pages, maxCells, maxKeys);
    FullChild(pages, maxCells, maxKeys, i, j, c);
    var ids := LeafIds(pages);
    var leaves: seq<seq<Cell>> := Leaves(pages, ids);
    var leaves' := leaves[..i] + [With(leaves[i], j, c)] + leaves[i + 1..];
    var pages' := pages[ids[i] := p];
    InsertPlain(leaves, i, j, c);
    Disassembled(pages, maxCells, maxKeys);
    SeparatedInsert(leaves, Keys(pages[0]), i, j, c);
    Replaced(pages, p, ids, leaves, i, j, c);
    StoredPlain(pages, p, ids[i], j, c, maxCells, maxKeys);
    Assembled(pages', ids, leaves', maxCells, maxKeys);
    TreeParts(pages', maxCells, maxKeys);
    if Filled(pages, maxCells) {
      FilledCount(pages, leaves, maxCells);
      HalfFullPlain(leaves, i, j, c, maxCells);
      IsFilled(pages', leaves', maxCells);
    }
  }

  lemma StoredPlain(pages: seq<Page>, p: Page, o: nat, j: nat, c: Cell, maxCells: nat, maxKeys: nat)
    requires AllStored(pages, maxCells, maxKeys) && 0 < o < |pages| && Extended(pages[o], p, j, c)
    ensures AllStored(pages[o := p], maxCells, maxKeys) && pages[o := p][0] == pages[0]
  {
  }

  /** The leaves when only leaf `i` has changed. */
  lemma Replaced(pages: seq<Page>, p: Page, ids: seq<nat>, leaves: seq<seq<Cell>>, i: nat, j: nat, c: Cell)
    requires Distinct(ids, |pages|) && |ids| == |leaves| && i < |ids| && j <= |leaves[i]|
    requires forall k | 0 <= k < |ids| :: IsLeaf(pages[ids[k]], Next(ids, k), leaves[k]) && leaves[k] != []
    requires Extended(pages[ids[i]], p, j, c)
    ensures var leaves' := leaves[..i] + [With(leaves[i], j, c)] + leaves[i + 1..];
            && |leaves'| == |ids|
            && forall k | 0 <= k < |ids| ::
                 IsLeaf(pages[ids[i] := p][ids[k]], Next(ids, k), leaves'[k]) && leaves'[k] != []
  {
    var leaves' := leaves[..i] + [With(leaves[i], j, c)] + leaves[i + 1..];
    forall k | 0 <= k < |ids|
      ensures IsLeaf(pages[ids[i] := p][ids[k]], Next(ids, k), leaves'[k]) && leaves'[k] != []
    {
      assert IsLeaf(pages[ids[k]], Next(ids, k), leaves[k]);
      if k == i {
        assert leaves'[i] == With(leaves[i], j, c);
      } else {
        assert ids[k] != ids[i] && leaves'[k] == leaves[k];
      }
    }
  }

  /** The root is a leaf and is divided: its left half moves to the second new page, so that page 0 stays the root. */
  lemma SplitRoot(pages: seq<Page>, root: Page, right: Page, left: Page, maxCells: nat, maxKeys: nat, j: nat, c: Cell,
                  n: nat)
    requires TreeOk(pages, maxCells, maxKeys) && pages[0].kind.Leaf?
    requires Fits(Leaves(pages, LeafIds(pages)), 0, j, c) && 0 < n <= pages[0].numCells
    requires var w := With(pages[0].Used(), j, c);
             && IsLeaf(left, |pages|, w[..n]) && IsLeaf(right, 0, w[n..])
             && root.isRoot && root.kind.Internal? && Stored(root, maxCells, maxKeys)
             && Children(root) == [|pages| + 1, |pages|] && Keys(root) == [w[n - 1].key]
    requires Stored(left, maxCells, maxKeys) && Stored(right, maxCells, maxKeys)
    ensures TreeOk(pages[0 := root] + [right, left], maxCells, maxKeys)
    ensures var leaves := Leaves(pages, LeafIds(pages));
            Rows(pages[0 := root] + [right, left]) == Before(leaves, 0, j) + [c] + After(leaves, 0, j)
    ensures Filled(pages, maxCells) && IsHalf(n, maxCells) && pages[0].numCells == maxCells ==>
              Filled(pages[0 := root] + [right, left], maxCells)
  {
    hide *;
    OneLeaf(pages, maxCells, maxKeys);
    var leaves: seq<seq<Cell>> := [pages[0].Used()];
    FitsParts(leaves, 0, j, c);
    var w := With(leaves[0], j, c);
    LongerByOne(leaves[0], j, c);
    InsertSplit(leaves, 0, j, c, n);
    var leaves' := [w[..n], w[n..]];
    assert leaves[..0] + leaves' + leaves[1..] == leaves';
    RootHalves(pages, root, right, left, w, n, maxCells, maxKeys);
    Assembled(pages[0 := root] + [right, left], [|pages| + 1, |pages|], leaves', maxCells, maxKeys);
    TreeParts(pages, maxCells, maxKeys);
    TreeParts(pages[0 := root] + [right, left], maxCells, maxKeys);
    if Filled(pages, maxCells) && IsHalf(n, maxCells) && pages[0].numCells == maxCells {
      FilledCount(pages, leaves, maxCells);
      HalfCount(n, maxCells);
      HalfFullSplit(leaves, 0, w, n, maxCells);
      IsFilled(pages[0 := root] + [right, left], leaves', maxCells);
    }
  }

  /** Both sides of a division of `maxCells + 1` cells get at least half of them. */
  ghost predicate IsHalf(n: nat, maxCells: nat) {
    n <= maxCells && (maxCells + 1) / 2 <= n && (maxCells + 1) / 2 <= maxCells + 1 - n
  }

  lemma HalfCount(n: nat, maxCells: nat)
    requires IsHalf(n, maxCells)
    ensures n <= maxCells && (maxCells + 1) / 2 <= n && (maxCells + 1) / 2 <= maxCells + 1 - n
  {
  }

  lemma FilledCount(pages: seq<Page>, leaves: seq<seq<Cell>>, maxCells: nat)
    requires pages != [] && (pages[0].kind.Internal? ==> pages[0].numKeys <= |pages[0].entries|)
    requires Linked(pages, LeafIds(pages)) && leaves == Leaves(pages, LeafIds(pages)) && Filled(pages, maxCells)
    ensures HalfFull(leaves, maxCells) && |pages| == if |leaves| == 1 then 1 else |leaves| + 1
  {
  }

  lemma IsFilled(pages: seq<Page>, leaves: seq<seq<Cell>>, maxCells: nat)
    requires pages != [] && (pages[0].kind.Internal? ==> pages[0].numKeys <= |pages[0].entries|)
    requires Linked(pages, LeafIds(pages)) && leaves == Leaves(pages, LeafIds(pages))
    requires HalfFull(leaves, maxCells) && |pages| == if |leaves| == 1 then 1 else |leaves| + 1
    ensures Filled(pages, maxCells)
  {
  }

  lemma OneLeaf(pages: seq<Page>, maxCells: nat, maxKeys: nat)
    requires TreeOk(pages, maxCells, maxKeys) && pages[0].kind.Leaf?
    ensures LeafIds(pages) == [0] && Leaves(pages, LeafIds(pages)) == [pages[0].Used()]
    ensures |pages[0].Used()| == pages[0].numCells && AllStored(pages, maxCells, maxKeys)
    ensures 1 <= maxCells && 1 <= maxKeys && pages != [] && pages[0].numCells <= |pages[0].cells|
  {
    assert LeafIds(pages) == [0];
  }

  lemma FitsParts(leaves: seq<seq<Cell>>, i: nat, j: nat, c: Cell)
    requires Fits(leaves, i, j, c)
    ensures Sorted(Flat(leaves)) && Slot(leaves, i, j, c.key) && i < |leaves| && j <= |leaves[i]|
    ensures j < |leaves[i]| ==> leaves[i][j].key != c.key
  {
  }

  /** The two halves as the children of the new root. */
  lemma RootHalves(pages: seq<Page>, root: Page, right: Page, left: Page, w: seq<Cell>, n: nat, maxCells: nat,
                   maxKeys: nat)
    requires pages != [] && AllStored(pages, maxCells, maxKeys) && 0 < n < |w|
    requires IsLeaf(left, |pages|, w[..n]) && IsLeaf(right, 0, w[n..])
    requires Stored(root, maxCells, maxKeys) && Stored(left, maxCells, maxKeys) && Stored(right, maxCells, maxKeys)
    ensures var pages' := pages[0 := root] + [right, left];
            var ids, leaves := [|pages| + 1, |pages|], [w[..n], w[n..]];
            && AllStored(pages', maxCells, maxKeys) && Distinct(ids, |pages'|) && pages'[0] == root
            && Separated(leaves, [w[n - 1].key])
            && forall k | 0 <= k < 2 :: IsLeaf(pages'[ids[k]], Next(ids, k), leaves[k]) && leaves[k] != []
  {
    hide IsLeaf, Stored;
  }

  /** A child of the root is divided: the new page comes behind it, and the root has one more separator. */
  lemma SplitChild(pages: seq<Page>, root: Page, left: Page, right: Page, maxCells: nat, maxKeys: nat, i: nat, j: nat,
                   c: Cell, n: nat)
    requires TreeOk(pages, maxCells, maxKeys) && pages[0].kind.Internal?
    requires Fits(Leaves(pages, LeafIds(pages)), i, j, c) && 0 < n <= pages[LeafIds(pages)[i]].numCells
    requires var ids := LeafIds(pages); var w := With(pages[ids[i]].Used(), j, c);
             && IsLeaf(left, |pages|, w[..n]) && IsLeaf(right, Next(ids, i), w[n..])
             && root.isRoot && root.kind.Internal? && Stored(root, maxCells, maxKeys)
             && Children(root) == With<nat>(ids, i + 1, |pages|)
             && Keys(root) == With(Keys(pages[0]), i, w[n - 1].key)
    requires Stored(left, maxCells, maxKeys) && Stored(right, maxCells, maxKeys)
    ensures TreeOk(pages[0 := root][LeafIds(pages)[i] := left] + [right], maxCells, maxKeys)
    ensures var leaves := Leaves(pages, LeafIds(pages));
            Rows(pages[0 := root][LeafIds(pages)[i] := left] + [right])
                == Before(leaves, i, j) + [c] + After(leaves, i, j)
    ensures Filled(pages, maxCells) && IsHalf(n, maxCells) && pages[LeafIds(pages)[i]].numCells == maxCells ==>
              Filled(pages[0 := root][LeafIds(pages)[i] := left] + [right], maxCells)
  {
    hide *;
    TreeParts(pages, maxCells, maxKeys);
    FullChild(pages, maxCells, maxKeys, i, j, c);
    var ids := LeafIds(pages);
    var leaves: seq<seq<Cell>> := Leaves(pages, ids);
    var w := With(leaves[i], j, c);
    InsertSplit(leaves, i, j, c, n);
    Disassembled(pages, maxCells, maxKeys);
    var ids' := With<nat>(ids, i + 1, |pages|);
    var leaves' := leaves[..i] + [w[..n], w[n..]] + leaves[i + 1..];
    var pages' := pages[0 := root][ids[i] := left] + [right];
    DividedIds(ids, i, |pages|);
    SeparatedSplit(leaves, Keys(pages[0]), i, j, c, n);
    DividedLeaves(pages, root, left, right, ids, leaves, i, w, n);
    StoredDivided(pages, root, ids[i], left, right, maxCells, maxKeys);
    Assembled(pages', ids', leaves', maxCells, maxKeys);
    TreeParts(pages', maxCells, maxKeys);
    if Filled(pages, maxCells) && IsHalf(n, maxCells) && pages[ids[i]].numCells == maxCells {
      FilledCount(pages, leaves, maxCells);
      HalfCount(n, maxCells);
      HalfFullSplit(leaves, i, w, n, maxCells);
      IsFilled(pages', leaves', maxCells);
    }
  }

  lemma FullChild(pages: seq<Page>, maxCells: nat, maxKeys: nat, i: nat, j: nat, c: Cell)
    requires TreeOk(pages, maxCells, maxKeys) && pages[0].kind.Internal?
    requires Fits(Leaves(pages, LeafIds(pages)), i, j, c)
    ensures var ids := LeafIds(pages); var leaves: seq<seq<Cell>> := Leaves(pages, ids);
            && 2 <= |ids| == |leaves| && i < |ids| && 0 < ids[i] < |pages| && ids == Children(pages[0])
            && pages[ids[i]].numCells <= |pages[ids[i]].cells| && leaves[i] == pages[ids[i]].Used()
            && |leaves[i]| == pages[ids[i]].numCells && |With(leaves[i], j, c)| == |leaves[i]| + 1
            && j <= |leaves[i]| && Sorted(Flat(leaves)) && Slot(leaves, i, j, c.key)
            && (i + 1 < |leaves| ==> j < |leaves[i]|) && (j < |leaves[i]| ==> leaves[i][j].key != c.key)
    ensures AllStored(pages, maxCells, maxKeys) && 1 <= maxCells && 1 <= maxKeys
    ensures |Keys(pages[0])| == pages[0].numKeys && pages[0].isRoot
  {
    hide Flat, Sorted;
  }

  lemma StoredDivided(pages: seq<Page>, root: Page, o: nat, left: Page, right: Page, maxCells: nat, maxKeys: nat)
    requires AllStored(pages, maxCells, maxKeys) && 0 < o < |pages|
    requires Stored(root, maxCells, maxKeys) && Stored(left, maxCells, maxKeys) && Stored(right, maxCells, maxKeys)
    ensures AllStored(pages[0 := root][o := left] + [right], maxCells, maxKeys)
  {
  }

  lemma DividedIds(ids: seq<nat>, i: nat, n: nat)
    requires Distinct(ids, n) && i < |ids| && 0 < n
    ensures var ids' := With<nat>(ids, i + 1, n);
            && Distinct(ids', n + 1) && (forall k | 0 <= k < i :: Next(ids', k) == Next(ids, k))
            && Next(ids', i) == n && (forall k | i < k < |ids'| :: Next(ids', k) == Next(ids, k - 1))
  {
  }

  lemma SeparatedSplit(leaves: seq<seq<Cell>>, keys: seq<uint32>, i: nat, j: nat, c: Cell, n: nat)
    requires Separated(leaves, keys) && i < |leaves| && j <= |leaves[i]| && (i + 1 < |leaves| ==> j < |leaves[i]|)
    requires 0 < n <= |leaves[i]|
    ensures var w := With(leaves[i], j, c);
            Separated(leaves[..i] + [w[..n], w[n..]] + leaves[i + 1..], With(keys, i, w[n - 1].key))
  {
    var w := With(leaves[i], j, c);
    var l: seq<seq<Cell>> := leaves[..i] + [w[..n], w[n..]] + leaves[i + 1..];
    var k := With(keys, i, w[n - 1].key);
    forall a | 0 <= a < |k|
      ensures l[a] != [] && l[a][|l[a]| - 1].key == k[a]
    {
      if a == i + 1 {
        WithLast(leaves[i], j, c);
        assert k[a] == keys[i];
      } else if a > i + 1 {
        assert l[a] == leaves[a - 1] && k[a] == keys[a - 1];
      }
    }
  }

  /** The leaves when leaf `i` has been divided. */
  lemma DividedLeaves(pages: seq<Page>, root: Page, left: Page, right: Page, ids: seq<nat>, leaves: seq<seq<Cell>>,
                      i: nat, w: seq<Cell>, n: nat)
    requires pages != [] && Distinct(ids, |pages|) && |ids| == |leaves| && i < |ids| && 0 < n < |w|
    requires forall k | 0 <= k < |ids| :: IsLeaf(pages[ids[k]], Next(ids, k), leaves[k]) && leaves[k] != []
    requires IsLeaf(left, |pages|, w[..n]) && IsLeaf(right, Next(ids, i), w[n..])
    ensures var pages' := pages[0 := root][ids[i] := left] + [right];
            var ids' := With<nat>(ids, i + 1, |pages|);
            var leaves' := leaves[..i] + [w[..n], w[n..]] + leaves[i + 1..];
            && |leaves'| == |ids'| && Distinct(ids', |pages'|)
            && forall k | 0 <= k < |ids'| :: IsLeaf(pages'[ids'[k]], Next(ids', k), leaves'[k]) && leaves'[k] != []
  {
    var pages' := pages[0 := root][ids[i] := left] + [right];
    var ids' := With<nat>(ids, i + 1, |pages|);
    var leaves' := leaves[..i] + [w[..n], w[n..]] + leaves[i + 1..];
    hide IsLeaf, Next, With;
    DividedIds(ids, i, |pages|);
    assert |leaves'| == |ids'|;
    forall k | 0 <= k < |ids'|
      ensures IsLeaf(pages'[ids'[k]], Next(ids', k), leaves'[k]) && leaves'[k] != []
    {
      DividedLeaf(pages, root, left, right, ids, leaves, i, w, n, k);
    }
  }

  lemma DividedLeaf(pages: seq<Page>, root: Page, left: Page, right: Page, ids: seq<nat>, leaves: seq<seq<Cell>>,
                    i: nat, w: seq<Cell>, n: nat, k: nat)
    requires pages != [] && Distinct(ids, |pages|) && |ids| == |leaves| && i < |ids| && 0 < n < |w| && k <= |ids|
    requires forall k | 0 <= k < |ids| :: IsLeaf(pages[ids[k]], Next(ids, k), leaves[k]) && leaves[k] != []
    requires IsLeaf(left, |pages|, w[..n]) && IsLeaf(right, Next(ids, i), w[n..])
    ensures var pages' := pages[0 := root][ids[i] := left] + [right];
            var ids' := With<nat>(ids, i + 1, |pages|);
            var leaves' := leaves[..i] + [w[..n], w[n..]] + leaves[i + 1..];
            ids'[k] < |pages'| && IsLeaf(pages'[ids'[k]], Next(ids', k), leaves'[k]) && leaves'[k] != []
  {
    hide IsLeaf, Next, With;
    DividedIds(ids, i, |pages|);
    DividedAt(pages, root, left, right, ids, leaves, i, w, n, k);
    if k < i {
      assert IsLeaf(pages[ids[k]], Next(ids, k), leaves[k]) && leaves[k] != [];
    } else if k > i + 1 {
      assert IsLeaf(pages[ids[k - 1]], Next(ids, k - 1), leaves[k - 1]) && leaves[k - 1] != [];
    }
  }

  /** What is at place `k` then. */
  lemma DividedAt(pages: seq<Page>, root: Page, left: Page, right: Page, ids: seq<nat>, leaves: seq<seq<Cell>>, i: nat,
                  w: seq<Cell>, n: nat, k: nat)
    requires pages != [] && Distinct(ids, |pages|) && |ids| == |leaves| && i < |ids| && k <= |ids| && 0 < n < |w|
    ensures var pages' := pages[0 := root][ids[i] := left] + [right];
            var ids' := With<nat>(ids, i + 1, |pages|);
            var leaves' := leaves[..i] + [w[..n], w[n..]] + leaves[i + 1..];
            && ids'[k] < |pages'|
            && (pages'[ids'[k]], leaves'[k])
               == if k < i then (pages[ids[k]], leaves[k])
                  else if k == i then (left, w[..n])
                  else if k == i + 1 then (right, w[n..])
                  else (pages[ids[k - 1]], leaves[k - 1])
  {
    assert k < i ==> ids[k] != ids[i];
    assert k > i + 1 ==> ids[k - 1] != ids[i];
  }
}
