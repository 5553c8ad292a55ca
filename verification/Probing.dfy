/**
 * Linear probing on sequences: what the cells of an object's table look like between operations, what
 * they look like while a deleted cell is being filled by backward shift, and why each step keeps that.
 */
module Probing {
  import opened Bytes
  import opened Pigeonhole

  /** OBJECT_INVALID_IX: the cell holds no item. */
  const EMPTY: int := -1

  const WORD := 0x1_0000_0000_0000_0000

  /** djb2 over the bytes of a name, in a 64-bit word; it stops at a NUL. */
  function HashFrom(s: bytes, i: nat, h: nat): nat
    requires i <= |s|
    decreases |s| - i
  {
    if i == |s| || s[i] == NUL then h else HashFrom(s, i + 1, (h * 33 + s[i]) % WORD)
  }

  function Hash(s: bytes): nat {
    HashFrom(s, 0, 5381)
  }

  /** The cell at which the search for a hash starts. */
  function Home(h: nat, n: nat): (r: nat)
    requires n > 0
    ensures r < n
  {
    Rem(h, n)
  }

  /** Number of steps of a cyclic scan from cell `a` to cell `b`. */
  function Dist(a: nat, b: nat, n: nat): (r: nat)
    requires a < n && b < n
    ensures r < n
  {
    if b >= a then b - a else b - a + n
  }

  /** Cell `d` is visited by a scan that starts at `h`, before it reaches `c`. */
  predicate Before(h: nat, d: nat, c: nat, n: nat)
    requires h < n && d < n && c < n
  {
    Dist(h, d, n) < Dist(h, c, n)
  }

  /** Items and cells: `cells` points at items, `ixs` points back, `hashes` belong to `names`. */
  ghost predicate Linked(cells: seq<int>, ixs: seq<nat>, hashes: seq<nat>, names: seq<bytes>, hole: int) {
    && |ixs| == |hashes| == |names|
    && (forall i :: 0 <= i < |ixs| ==> ixs[i] < |cells| && ixs[i] != hole && cells[ixs[i]] == i)
    && (forall c :: 0 <= c < |cells| && c != hole ==>
          cells[c] == EMPTY || (0 <= cells[c] < |ixs| && ixs[cells[c]] == c))
    && (forall i :: 0 <= i < |names| ==> NulFree(names[i]) && hashes[i] == Hash(names[i]))
    && (forall i, j :: 0 <= i < j < |names| ==> names[i] != names[j])
  }

  /** The probe path of the item in cell `c` runs through cell `d` before it ends. */
  ghost predicate OnPath(cells: seq<int>, hashes: seq<nat>, c: nat, d: nat)
    requires c < |cells| && d < |cells|
  {
    0 <= cells[c] < |hashes| && Before(Home(hashes[cells[c]], |cells|), d, c, |cells|)
  }

  /** No empty cell lies cyclically between an item's home cell and its actual cell. */
  ghost predicate Probed(cells: seq<int>, hashes: seq<nat>) {
    forall c, d :: 0 <= c < |cells| && 0 <= d < |cells| && OnPath(cells, hashes, c, d) ==> cells[d] != EMPTY
  }

  ghost predicate TableOk(cells: seq<int>, ixs: seq<nat>, hashes: seq<nat>, names: seq<bytes>) {
    Linked(cells, ixs, hashes, names, EMPTY) && Probed(cells, hashes)
  }

  // ----- lookup

  /** Every cell of the first `k` steps from `home` is occupied by an item with another name. */
  ghost predicate Passed(cells: seq<int>, names: seq<bytes>, home: nat, key: bytes, k: nat)
    requires home < |cells|
  {
    forall c :: 0 <= c < |cells| && Dist(home, c, |cells|) < k ==>
                  cells[c] != EMPTY && (0 <= cells[c] < |names| ==> names[cells[c]] != key)
  }

  lemma PassOne(cells: seq<int>, names: seq<bytes>, home: nat, key: bytes, k: nat, c: nat)
    requires home < |cells| && c < |cells| && Passed(cells, names, home, key, k) && Dist(home, c, |cells|) == k
    requires 0 <= cells[c] < |names| && names[cells[c]] != key
    ensures Passed(cells, names, home, key, k + 1)
  {
  }

  /** A scan that stops at an empty cell, or that has been everywhere, has excluded the key. */
  lemma ScanExcludes(cells: seq<int>, ixs: seq<nat>, hashes: seq<nat>, names: seq<bytes>, key: bytes, home: nat,
                     k: nat, m: nat)
    requires TableOk(cells, ixs, hashes, names) && |cells| > 0
    requires home == Home(Hash(key), |cells|)
    requires Passed(cells, names, home, key, k)
    requires k == |cells| || exists c :: 0 <= c < |cells| && Dist(home, c, |cells|) == k && cells[c] == EMPTY
    requires m < |names|
    ensures names[m] != key
  {
    var n, at := |cells|, ixs[m];
    if k < n {
      var c :| 0 <= c < n && Dist(home, c, n) == k && cells[c] == EMPTY;
      assert !OnPath(cells, hashes, at, c);
    }
  }

  /** A new name stored at the first empty cell of its scan keeps the links and every item's probe path. */
  lemma InsertKeepsTable(cells: seq<int>, ixs: seq<nat>, hashes: seq<nat>, names: seq<bytes>, key: bytes, at: nat)
    requires TableOk(cells, ixs, hashes, names)
    requires at < |cells| && cells[at] == EMPTY && NulFree(key)
    requires forall i :: 0 <= i < |names| ==> names[i] != key
    requires Passed(cells, names, Home(Hash(key), |cells|), key, Dist(Home(Hash(key), |cells|), at, |cells|))
    ensures TableOk(cells[at := |names|], ixs + [at], hashes + [Hash(key)], names + [key])
  {
    var cells', hashes', n := cells[at := |names|], hashes + [Hash(key)], |cells|;
    assert Linked(cells', ixs + [at], hashes', names + [key], EMPTY);
    forall c, d | 0 <= c < n && 0 <= d < n && OnPath(cells', hashes', c, d)
      ensures cells'[d] != EMPTY
    {
      if c != at {
        assert OnPath(cells, hashes, c, d);
      }
    }
  }

  // ----- removal

  /**
   * The table while cell `hole` is being vacated and the cells up to `j` have been examined: a probe path may
   * run through the hole, but not the path of any item that lies between the hole and `j`.
   */
  ghost predicate Holed(cells: seq<int>, ixs: seq<nat>, hashes: seq<nat>, names: seq<bytes>, hole: nat, j: nat) {
    var n := |cells|;
    && hole < n && j < n
    && Linked(cells, ixs, hashes, names, hole)
    && (forall c, d :: 0 <= c < n && 0 <= d < n && c != hole && OnPath(cells, hashes, c, d)
                       ==> d == hole || cells[d] != EMPTY)
    && (forall c :: 0 <= c < n && c != hole && Dist(hole, c, n) <= Dist(hole, j, n)
                    ==> !OnPath(cells, hashes, c, hole))
  }

  /** The test of the shifting loop: item home `k` does not lie cyclically in (i, j]. */
  predicate MustShift(i: nat, j: nat, k: nat) {
    (j > i && (k <= i || k > j)) || (j < i && (k <= i && k > j))
  }

  lemma MustShiftMeaning(i: nat, j: nat, k: nat, n: nat)
    requires i < n && j < n && k < n && i != j
    ensures MustShift(i, j, k) <==> Dist(k, j, n) >= Dist(i, j, n)
  {
  }

  /** Item slots after dropping item `m` by moving the last item into its place. */
  ghost predicate Dropped<T(!new)>(s: seq<T>, m: nat, s': seq<T>) {
    m < |s| && |s'| == |s| - 1 && forall i :: 0 <= i < |s'| ==> s'[i] == s[if i == m then |s| - 1 else i]
  }

  /** Dropping item `m` leaves its cell as the hole. */
  lemma DropItem(cells: seq<int>, ixs: seq<nat>, hashes: seq<nat>, names: seq<bytes>, m: nat,
                 cells': seq<int>, ixs': seq<nat>, hashes': seq<nat>, names': seq<bytes>)
    requires TableOk(cells, ixs, hashes, names) && m < |names|
    requires cells' == if m < |names| - 1 then cells[ixs[|names| - 1] := m] else cells
    requires Dropped(ixs, m, ixs') && Dropped(hashes, m, hashes') && Dropped(names, m, names')
    ensures Holed(cells', ixs', hashes', names', ixs[m], ixs[m])
  {
    DropItemLinked(cells, ixs, hashes, names, m, cells', ixs', hashes', names');
    DropItemCells(cells, ixs, hashes, names, m, cells', hashes');
    hide Linked, Dropped;
    var n := |cells|;
    forall c, d | 0 <= c < n && 0 <= d < n && c != ixs[m] && OnPath(cells', hashes', c, d)
      ensures d == ixs[m] || cells'[d] != EMPTY
    {
      assert OnPath(cells, hashes, c, d);
    }
  }

  lemma DropItemLinked(cells: seq<int>, ixs: seq<nat>, hashes: seq<nat>, names: seq<bytes>, m: nat,
                       cells': seq<int>, ixs': seq<nat>, hashes': seq<nat>, names': seq<bytes>)
    requires Linked(cells, ixs, hashes, names, EMPTY) && m < |names|
    requires cells' == if m < |names| - 1 then cells[ixs[|names| - 1] := m] else cells
    requires Dropped(ixs, m, ixs') && Dropped(hashes, m, hashes') && Dropped(names, m, names')
    ensures Linked(cells', ixs', hashes', names', ixs[m])
  {
    forall i | 0 <= i < |ixs'|
      ensures ixs'[i] < |cells'| && ixs'[i] != ixs[m] && cells'[ixs'[i]] == i
    {
      var o := if i == m then |names'| else i;
      assert cells[ixs[o]] == o && cells[ixs[m]] == m;
    }
  }

  /** Every other cell keeps its item, under whichever number, and an empty cell stays empty. */
  lemma DropItemCells(cells: seq<int>, ixs: seq<nat>, hashes: seq<nat>, names: seq<bytes>, m: nat,
                      cells': seq<int>, hashes': seq<nat>)
    requires Linked(cells, ixs, hashes, names, EMPTY) && m < |names| && Dropped(hashes, m, hashes')
    requires cells' == if m < |names| - 1 then cells[ixs[|names| - 1] := m] else cells
    ensures ixs[m] < |cells| && forall c :: 0 <= c < |cells| && c != ixs[m] && cells'[c] != EMPTY ==>
                          0 <= cells'[c] < |hashes'| && 0 <= cells[c] < |hashes|
                            && hashes'[cells'[c]] == hashes[cells[c]]
    ensures |cells'| == |cells| && forall c :: 0 <= c < |cells| ==> (cells'[c] == EMPTY <==> cells[c] == EMPTY)
  {
  }

  /** An examined item whose path avoids the hole stays. */
  lemma KeepItem(cells: seq<int>, ixs: seq<nat>, hashes: seq<nat>, names: seq<bytes>, i: nat, j: nat, j': nat)
    requires Holed(cells, ixs, hashes, names, i, j)
    requires j' < |cells| && Dist(i, j', |cells|) == Dist(i, j, |cells|) + 1 && cells[j'] != EMPTY
    requires !MustShift(i, j', Home(hashes[cells[j']], |cells|))
    ensures Holed(cells, ixs, hashes, names, i, j')
  {
  }

  /** An item whose path may need the hole moves into it and leaves the hole behind. */
  lemma ShiftItem(cells: seq<int>, ixs: seq<nat>, hashes: seq<nat>, names: seq<bytes>, i: nat, j: nat, j': nat)
    requires Holed(cells, ixs, hashes, names, i, j)
    requires j' < |cells| && Dist(i, j', |cells|) == Dist(i, j, |cells|) + 1 && cells[j'] != EMPTY
    requires MustShift(i, j', Home(hashes[cells[j']], |cells|))
    ensures Holed(cells[i := cells[j']], ixs[cells[j'] := i], hashes, names, j', j')
  {
    var n, k := |cells|, Home(hashes[cells[j']], |cells|);
    var cells', ixs' := cells[i := cells[j']], ixs[cells[j'] := i];
    MustShiftMeaning(i, j', k, n);
    assert Linked(cells', ixs', hashes, names, j');
    forall c, d | 0 <= c < n && 0 <= d < n && c != j' && OnPath(cells', hashes, c, d)
      ensures d == j' || cells'[d] != EMPTY
    {
      assert OnPath(cells, hashes, if c == i then j' else c, d);
    }
  }

  /** Reaching an empty cell ends the shifting: nothing beyond it can need the hole. */
  lemma CloseHole(cells: seq<int>, ixs: seq<nat>, hashes: seq<nat>, names: seq<bytes>, i: nat, j: nat, j': nat)
    requires Holed(cells, ixs, hashes, names, i, j)
    requires j' < |cells| && Dist(i, j', |cells|) == Dist(i, j, |cells|) + 1 && cells[j'] == EMPTY
    ensures TableOk(cells[i := EMPTY], ixs, hashes, names)
  {
    var n, cells' := |cells|, cells[i := EMPTY];
    assert Linked(cells', ixs, hashes, names, EMPTY);
    forall c | 0 <= c < n && c != i && cells[c] != EMPTY
      ensures !OnPath(cells, hashes, c, i)
    {
      FurtherOn(Home(hashes[cells[c]], n), i, j', c, n);
      assert !OnPath(cells, hashes, c, j');
    }
    forall c, d | 0 <= c < n && 0 <= d < n && OnPath(cells', hashes, c, d)
      ensures cells'[d] != EMPTY
    {
      assert OnPath(cells, hashes, c, d);
    }
  }

  /** A scan from `h` that meets `i` before `c` also meets any cell that lies between them. */
  lemma FurtherOn(h: nat, i: nat, j: nat, c: nat, n: nat)
    requires h < n && i < n && j < n && c < n
    ensures Before(h, i, c, n) && Dist(i, j, n) < Dist(i, c, n) ==> Before(h, j, c, n)
  {
  }

  /** The shifting scan left `start`, has its hole at `i` and has examined `x` cells up to `j`, short of `e`. */
  ghost predicate Scanning(start: nat, i: nat, j: nat, e: nat, x: nat, n: nat) {
    && start < n && i < n && j < n && e < n && i != e
    && Dist(start, j, n) == x && Dist(start, i, n) + Dist(i, j, n) == x
    && x < Dist(start, e, n)
  }

  /** What one more step of that scan does, with and without moving the hole. */
  ghost predicate CanStep(start: nat, i: nat, j: nat, e: nat, x: nat, n: nat)
    requires i < n && j < n
  {
    var j' := if j + 1 < n then j + 1 else 0;
    && Dist(i, j', n) == Dist(i, j, n) + 1
    && (e != j' ==> Scanning(start, i, j', e, x + 1, n) && Scanning(start, j', j', e, x + 1, n))
  }

  lemma ScanOn(start: nat, i: nat, j: nat, e: nat, x: nat, n: nat)
    requires Scanning(start, i, j, e, x, n)
    ensures x + 1 < n && CanStep(start, i, j, e, x, n)
  {
  }

  /** A table with fewer items than cells has an empty cell. */
  lemma HasEmptyCell(cells: seq<int>, ixs: seq<nat>, hashes: seq<nat>, names: seq<bytes>) returns (e: nat)
    requires Linked(cells, ixs, hashes, names, EMPTY) && |names| < |cells|
    ensures e < |cells| && cells[e] == EMPTY
  {
    if forall c :: 0 <= c < |cells| ==> cells[c] != EMPTY {
      forall c | c in UpTo(|cells|) ensures c in Elements(ixs) {
        assert ixs[cells[c]] == c;
      }
      SubsetSize(UpTo(|cells|), Elements(ixs));
    }
    e :| 0 <= e < |cells| && cells[e] == EMPTY;
  }
}
