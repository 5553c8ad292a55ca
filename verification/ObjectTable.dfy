/**
 * The hash table behind a JSON object, with its arrays updated in place: open addressing with linear
 * probing over `cells`, which index the dense arrays `names`, `values`, `hashes`, `cellIxs`.
 * Every operation is proved against the member-list functions of JsonValue.dfy.
 */
module ObjectTable {
  import opened Bytes
  import opened JsonValue
  import opened Probing

  const STARTING_CAPACITY: nat := 16

  ghost predicate IsCapacity(c: nat) {
    c == 0 || exists k: nat :: c == Pow2(k) && c >= STARTING_CAPACITY
  }

  ghost function Zip(names: seq<bytes>, values: seq<Value>): (ms: seq<Member>)
    requires |names| == |values|
  {
    seq(|names|, i requires 0 <= i < |names| => Member(names[i], values[i]))
  }

  /** The name hash, computed by the loop of the source. */
  method HashString(s: bytes) returns (hash: nat)
    ensures hash == Hash(s)
  {
    hash := 5381;
    var i := 0;
    while i < |s|
      invariant i <= |s| && Hash(s) == HashFrom(s, i, hash)
    {
      if s[i] == NUL {
        break;
      }
      hash := (hash * 33 + s[i]) % WORD;
      i := i + 1;
    }
  }

  /** `hash & (capacity - 1)` is the remainder for the capacities a table can have. */
  lemma MaskedIsHome(h: nat, c: nat)
    requires IsCapacity(c) && c > 0
    ensures BitAnd(h, c - 1) == Home(h, c)
  {
    var k: nat :| c == Pow2(k) && c >= STARTING_CAPACITY;
    MaskIsRemainder(h, k);
  }

  lemma MaskedSumIsStep(home: nat, i: nat, c: nat)
    requires IsCapacity(c) && home < c && i < c
    ensures BitAnd(home + i, c - 1) == if home + i < c then home + i else home + i - c
  {
    MaskedIsHome(home + i, c);
    if home + i < c {
      RemainderUnique(home + i, c, 0, home + i);
    } else {
      RemainderUnique(home + i, c, 1, home + i - c);
    }
  }

  lemma DoubledCapacity(c: nat)
    requires IsCapacity(c)
    ensures IsCapacity(if c * 2 > STARTING_CAPACITY then c * 2 else STARTING_CAPACITY)
  {
    if c > 0 {
      var k: nat :| c == Pow2(k) && c >= STARTING_CAPACITY;
      assert c * 2 == Pow2(k + 1);
    } else {
      assert STARTING_CAPACITY == Pow2(4);
    }
  }

  class Table {
    var cells: array<int>
    var hashes: array<nat>
    var names: array<bytes>
    var values: array<Value>
    var cellIxs: array<nat>
    var count: nat
    var itemCapacity: nat
    var cellCapacity: nat

    ghost function Arrays(): set<object>
      reads this
    {
      {cells, hashes, names, values, cellIxs}
    }

    ghost predicate Valid()
      reads this, Arrays()
    {
      && IsCapacity(cellCapacity)
      && itemCapacity == cellCapacity * 7 / 10
      && cells.Length == cellCapacity
      && hashes.Length == names.Length == values.Length == cellIxs.Length == itemCapacity
      && count <= itemCapacity
      && cells as object != hashes && cells as object != cellIxs && hashes != cellIxs
      && TableOk(cells[..], cellIxs[..count], hashes[..count], names[..count])
    }

    /** The members in iteration order. */
    ghost function Members(): seq<Member>
      requires Valid()
      reads this, Arrays()
    {
      Zip(names[..count], values[..count])
    }

    /** json_object_init */
    constructor (capacity: nat)
      requires IsCapacity(capacity)
      ensures Valid() && Members() == [] && cellCapacity == capacity
      ensures fresh(Arrays())
    {
      cells := new int[capacity](_ => EMPTY);
      names := new bytes[capacity * 7 / 10];
      values := new Value[capacity * 7 / 10];
      cellIxs := new nat[capacity * 7 / 10];
      hashes := new nat[capacity * 7 / 10];
      count := 0;
      cellCapacity := capacity;
      itemCapacity := capacity * 7 / 10;
    }

    /** json_object_get_cell_ix: the cell of the key, or the empty cell where it would go. */
    method GetCellIx(key: bytes, hash: nat) returns (ix: int, found: bool)
      requires Valid() && NulFree(key) && hash == Hash(key)
      ensures found <==> HasName(Members(), key)
      ensures found ==> 0 <= ix < cells.Length && 0 <= cells[ix] < count && names[cells[ix]] == key
      ensures !found && cellCapacity > 0 ==>
                0 <= ix < cells.Length && cells[ix] == EMPTY
                && Passed(cells[..], names[..count], Home(hash, cellCapacity), key,
                          Dist(Home(hash, cellCapacity), ix, cellCapacity))
    {
      if cellCapacity == 0 {
        return EMPTY, false;
      }
      assert Passed(cells[..], names[..count], Home(hash, cellCapacity), key, 0);
      hide TableOk, Passed;
      var home := BitAnd(hash, cellCapacity - 1);
      MaskedIsHome(hash, cellCapacity);
      ghost var cs, ns := cells[..], names[..count];
      var i := 0;
      while i < cellCapacity
        invariant i <= cellCapacity
        invariant Passed(cs, ns, home, key, i)
      {
        MaskedSumIsStep(home, i, cellCapacity);
        ix := BitAnd(home + i, cellCapacity - 1);
        assert Dist(home, ix, cellCapacity) == i && cs[ix] == cells[ix];
        var cell := cells[ix];
        if cell == EMPTY {
          NotAMember(key, home, i);
          return ix, false;
        }
        ItemInCell(ix);
        if hash == hashes[cell] && names[cell] == key {
          assert Members()[cell].name == key;
          return ix, true;
        }
        PassOne(cs, ns, home, key, i, ix);
        i := i + 1;
      }
      NeverFull(key, home);
      assert false;
    }

    /** The load limit leaves an empty cell, so no scan goes all the way round. */
    lemma NeverFull(key: bytes, home: nat)
      requires Valid() && home < cellCapacity
      ensures !Passed(cells[..], names[..count], home, key, cellCapacity)
    {
      var e := HasEmptyCell(cells[..], cellIxs[..count], hashes[..count], names[..count]);
      assert Dist(home, e, cellCapacity) < cellCapacity;
    }

    lemma ItemInCell(c: nat)
      requires Valid() && c < cells.Length && cells[c] != EMPTY
      ensures 0 <= cells[c] < count && hashes[cells[c]] == Hash(names[cells[c]])
    {
    }

    lemma NotAMember(key: bytes, home: nat, k: nat)
      requires Valid() && cellCapacity > 0 && home == Home(Hash(key), cellCapacity)
      requires Passed(cells[..], names[..count], home, key, k)
      requires exists c :: 0 <= c < cells.Length && Dist(home, c, cellCapacity) == k && cells[..][c] == EMPTY
      ensures !HasName(Members(), key)
    {
      forall m | 0 <= m < count ensures names[m] != key {
        ScanExcludes(cells[..], cellIxs[..count], hashes[..count], names[..count], key, home, k, m);
        assert names[..count][m] == names[m];
      }
    }

    /** json_object_get_value and json_object_getn_value */
    method GetValue(key: bytes) returns (r: Option<Value>)
      requires Valid() && NulFree(key)
      ensures r == Lookup(Members(), key)
    {
      var hash := HashString(key);
      var cell, found := GetCellIx(key, hash);
      if !found {
        return None;
      }
      var item := cells[cell];
      MembersDistinct();
      LookupAt(Members(), item);
      return Some(values[item]);
    }

    lemma MembersDistinct()
      requires Valid()
      ensures Distinct(Members())
    {
    }

    /** The writes that json_object_add and json_object_set_value share, once an empty cell is known. */
    method Store(key: bytes, value: Value, hash: nat, cell: nat)
      requires Valid() && NulFree(key) && hash == Hash(key) && !HasName(Members(), key)
      requires count < itemCapacity && cell < cells.Length && cells[cell] == EMPTY
      requires Passed(cells[..], names[..count], Home(hash, cellCapacity), key,
                      Dist(Home(hash, cellCapacity), cell, cellCapacity))
      modifies this`count, Arrays()
      ensures Valid() && Members() == old(Members()) + [Member(key, value)]
      ensures count == old(count) + 1
    {
      forall m | 0 <= m < count ensures names[..count][m] != key {
        assert Members()[m].name == names[m];
      }
      InsertKeepsTable(cells[..], cellIxs[..count], hashes[..count], names[..count], key, cell);
      names[count] := key;
      cells[cell] := count;
      values[count] := value;
      cellIxs[count] := cell;
      hashes[count] := hash;
      count := count + 1;
      assert cells[..] == old(cells[..])[cell := old(count)];
      assert cellIxs[..count] == old(cellIxs[..count]) + [cell];
      assert hashes[..count] == old(hashes[..count]) + [hash];
      assert names[..count] == old(names[..count]) + [key];
      assert values[..count] == old(values[..count]) + [value];
    }

    /** Growing a full table first, as json_object_add and json_object_set_value both do before storing. */
    method Append(key: bytes, value: Value, hash: nat, cell: int)
      requires Valid() && NulFree(key) && hash == Hash(key) && !HasName(Members(), key)
      requires cellCapacity > 0 ==>
                 0 <= cell < cells.Length && cells[cell] == EMPTY
                 && Passed(cells[..], names[..count], Home(hash, cellCapacity), key,
                           Dist(Home(hash, cellCapacity), cell, cellCapacity))
      modifies this, Arrays()
      ensures Valid() && fresh(Arrays() - old(Arrays()))
      ensures Members() == old(Members()) + [Member(key, value)]
      ensures old(count) < old(itemCapacity) ==> cellCapacity == old(cellCapacity)
      decreases if count >= itemCapacity then 1 else 0, 1
    {
      var at := cell;
      if count >= itemCapacity {
        Grow();
        var found;
        at, found := GetCellIx(key, hash);
      }
      Store(key, value, hash, at);
    }

    /** json_object_add: refuses a name that is already there, grows a full table first. */
    method Add(key: bytes, value: Value) returns (ok: bool)
      requires Valid() && NulFree(key)
      modifies this, Arrays()
      ensures Valid() && fresh(Arrays() - old(Arrays()))
      ensures ok <==> AddMember(old(Members()), key, value).Some?
      ensures Members() == if ok then AddMember(old(Members()), key, value).value else old(Members())
      ensures old(count) < old(itemCapacity) ==> cellCapacity == old(cellCapacity)
      decreases if count >= itemCapacity then 1 else 0, 2
    {
      var hash := HashString(key);
      var cell, found := GetCellIx(key, hash);
      if found {
        return false;
      }
      Append(key, value, hash, cell);
      return true;
    }

    /** json_object_grow_and_rehash: same members in the same order, with a free item slot. */
    method Grow()
      requires Valid()
      modifies this
      ensures Valid() && Members() == old(Members())
      ensures fresh(Arrays())
      ensures count < itemCapacity
      ensures cellCapacity == if old(cellCapacity) * 2 > STARTING_CAPACITY then old(cellCapacity) * 2
                              else STARTING_CAPACITY
      decreases 1, 0
    {
      hide TableOk;
      var t := Rehashed();
      cells, hashes, names, values, cellIxs := t.cells, t.hashes, t.names, t.values, t.cellIxs;
      count, itemCapacity, cellCapacity := t.count, t.itemCapacity, t.cellCapacity;
      SameTable(t);
    }

    method Rehashed() returns (t: Table)
      requires Valid()
      ensures fresh(t) && fresh(t.Arrays()) && t.Valid() && t.Members() == Members()
      ensures t.count < t.itemCapacity
      ensures t.cellCapacity == if cellCapacity * 2 > STARTING_CAPACITY then cellCapacity * 2 else STARTING_CAPACITY
      decreases 0, 4
    {
      var newCapacity := if cellCapacity * 2 > STARTING_CAPACITY then cellCapacity * 2 else STARTING_CAPACITY;
      DoubledCapacity(cellCapacity);
      t := new Table(newCapacity);
      RehashInto(t);
      assert |t.Members()| == t.count;
    }

    lemma SameTable(t: Table)
      requires t.Valid()
      requires cells == t.cells && hashes == t.hashes && names == t.names && values == t.values && cellIxs == t.cellIxs
      requires count == t.count && itemCapacity == t.itemCapacity && cellCapacity == t.cellCapacity
      ensures Valid() && Members() == t.Members()
    {
    }

    /** The loop of json_object_grow_and_rehash: adds every member to a larger table, which never grows meanwhile. */
    method RehashInto(t: Table)
      requires Valid() && t.Valid() && t.Members() == [] && count < t.itemCapacity
      requires t != this && t !in Arrays() && t.Arrays() !! Arrays() && this !in t.Arrays()
      modifies t, t.Arrays()
      ensures t.Valid() && t.Members() == Members() && t.cellCapacity == old(t.cellCapacity)
      ensures t.count == count
      ensures fresh(t.Arrays() - old(t.Arrays()))
      decreases 0, 3
    {
      ghost var ms := Members();
      var i := 0;
      while i < count
        invariant i <= count && t.Valid() && t.cellCapacity == old(t.cellCapacity)
        invariant fresh(t.Arrays() - old(t.Arrays()))
        invariant t.Members() == ms[..i]
        invariant Valid() && Members() == ms
      {
        AddNext(t, i);
        i := i + 1;
      }
      assert ms[..count] == ms && |t.Members()| == t.count;
    }

    method AddNext(t: Table, i: nat)
      requires Valid() && t.Valid() && i < count < t.itemCapacity && t.Members() == Members()[..i]
      requires t != this && t !in Arrays() && t.Arrays() !! Arrays() && this !in t.Arrays()
      modifies t, t.Arrays()
      ensures t.Valid() && t.Members() == Members()[..i + 1] && t.cellCapacity == old(t.cellCapacity)
      ensures fresh(t.Arrays() - old(t.Arrays()))
      decreases 0, 3, 0
    {
      ghost var ms := Members();
      MembersDistinct();
      assert |t.Members()| == t.count && ms[i] == Member(names[i], values[i]);
      assert names[i] == names[..count][i];
      var ok := t.Add(names[i], values[i]);
      assert ms[..i + 1] == ms[..i] + [ms[i]];
    }

    /**
     * json_object_set_value: replaces in place, or stores a new member last; a value that belongs to an array or an
     * object already (`owned`) is refused.
     */
    method SetValue(key: bytes, value: Value, owned: bool) returns (ok: bool)
      requires Valid() && NulFree(key)
      modifies this, Arrays()
      ensures Valid() && fresh(Arrays() - old(Arrays()))
      ensures ok <==> !owned
      ensures Members() == if owned then old(Members()) else SetMember(old(Members()), key, value)
    {
      if owned {
        return false;
      }
      hide TableOk, IsCapacity, Passed, HasName;
      var hash := HashString(key);
      var cell, found := GetCellIx(key, hash);
      if found {
        Replace(cells[cell], value);
        return true;
      }
      Append(key, value, hash, cell);
      return true;
    }

    /** json_object_remove: the last item takes the free slot, then the cells behind are shifted back. */
    method Remove(key: bytes) returns (ok: bool)
      requires Valid() && NulFree(key)
      modifies this`count, Arrays()
      ensures Valid()
      ensures ok <==> RemoveMember(old(Members()), key).Some?
      ensures Members() == if ok then RemoveMember(old(Members()), key).value else old(Members())
    {
      var hash := HashString(key);
      var cell, found := GetCellIx(key, hash);
      if !found {
        return false;
      }
      ItemIsMember(cells[cell], cell);
      hide TableOk, IsCapacity, HasName;
      RemoveAt(cell);
      return true;
    }

    /** The part of json_object_remove behind the search. */
    method RemoveAt(cell: nat)
      requires Valid() && cell < cells.Length && 0 <= cells[cell] < count
      modifies this`count, Arrays()
      ensures Valid() && Members() == SwapOut(old(Members()), old(cells[cell]))
    {
      var item := cells[cell];
      ItemIsMember(item, cell);
      ghost var e := FreeCell();
      hide TableOk, Holed, Probed, Linked, Passed, IsCapacity, HasName;
      DropSlot(item);
      CloseGap(cell, e);
    }

    lemma ItemIsMember(item: nat, cell: nat)
      requires Valid() && item < count && cell < cells.Length && cells[cell] == item
      ensures cellIxs[item] == cell && cell < cellCapacity
      ensures IndexOf(Members(), names[item]) == item < |Members()|
    {
      MembersDistinct();
      LookupAt(Members(), item);
      assert cellIxs[..count][cells[..][cell]] == cell;
    }

    lemma FreeCell() returns (e: nat)
      requires Valid() && count > 0
      ensures e < cells.Length && cells[e] == EMPTY
    {
      e := HasEmptyCell(cells[..], cellIxs[..count], hashes[..count], names[..count]);
    }

    /** Everything but the hole that the vacated cell leaves. */
    ghost predicate ValidBut(hole: nat, j: nat)
      reads this, Arrays()
    {
      && IsCapacity(cellCapacity)
      && itemCapacity == cellCapacity * 7 / 10
      && cells.Length == cellCapacity
      && hashes.Length == names.Length == values.Length == cellIxs.Length == itemCapacity
      && count <= itemCapacity
      && cells as object != hashes && cells as object != cellIxs && hashes != cellIxs
      && Holed(cells[..], cellIxs[..count], hashes[..count], names[..count], hole, j)
    }

    /** The item slot is given to the last item. */
    method DropSlot(item: nat)
      requires Valid() && item < count
      modifies this`count, Arrays()
      ensures ValidBut(old(cellIxs[item]), old(cellIxs[item])) && count == old(count) - 1
      ensures Zip(names[..count], values[..count]) == SwapOut(old(Members()), item)
      ensures forall c :: 0 <= c < cells.Length ==> (cells[c] == EMPTY <==> old(cells[c]) == EMPTY)
    {
      hide TableOk, Holed, IsCapacity, Dropped;
      SlotFacts(item);
      ghost var cs, xs, hs, ns := cells[..], cellIxs[..count], hashes[..count], names[..count];
      MoveLast(item);
      DropItem(cs, xs, hs, ns, item, cells[..], cellIxs[..count], hashes[..count], names[..count]);
    }

    lemma SlotFacts(item: nat)
      requires Valid() && item < count
      ensures hashes.Length == names.Length == values.Length == cellIxs.Length && count <= names.Length
      ensures cells as object != hashes && cells as object != cellIxs && hashes != cellIxs
      ensures cellIxs[count - 1] < cells.Length && cells[cellIxs[count - 1]] == count - 1
              && cellIxs[item] < cells.Length
      ensures TableOk(cells[..], cellIxs[..count], hashes[..count], names[..count])
    {
      hide Probed;
      assert cellIxs[..count][count - 1] == cellIxs[count - 1] && cellIxs[..count][item] == cellIxs[item];
      assert cells[..][cellIxs[count - 1]] == count - 1;
    }

    method MoveLast(item: nat)
      requires hashes.Length == names.Length == values.Length == cellIxs.Length && item < count <= names.Length
      requires cells as object != hashes && cells as object != cellIxs && hashes != cellIxs
      requires cellIxs[count - 1] < cells.Length
      modifies this`count, Arrays()
      ensures count == old(count) - 1
      ensures cells[..] == if item < count then old(cells[..])[old(cellIxs[count - 1]) := item] else old(cells[..])
      ensures Dropped(old(cellIxs[..count]), item, cellIxs[..count])
      ensures Dropped(old(hashes[..count]), item, hashes[..count])
      ensures Dropped(old(names[..count]), item, names[..count])
      ensures names[..count] == SwapOut(old(names[..count]), item)
      ensures values[..count] == SwapOut(old(values[..count]), item)
    {
      var last := count - 1;
      if item < last {
        names[item] := names[last];
        values[item] := values[last];
        cellIxs[item] := cellIxs[last];
        hashes[item] := hashes[last];
        cells[cellIxs[item]] := item;
      }
      count := count - 1;
    }

    /** The backward shift, over at most every other cell. */
    method CloseGap(cell: nat, ghost e: nat)
      requires ValidBut(cell, cell) && e < cells.Length && cells[e] == EMPTY && e != cell
      modifies cells, cellIxs
      ensures Valid() && names[..count] == old(names[..count]) && values[..count] == old(values[..count])
    {
      hide TableOk, Holed, IsCapacity;
      GapStarts(cell, e);
      var i, j := cell, cell;
      var x := 0;
      ScanOn(cell, i, j, e, x, cellCapacity);
      while x < cellCapacity - 1
        invariant 0 <= i < cellCapacity && 0 <= j < cellCapacity == cells.Length && 0 <= x < cellCapacity - 1
        invariant ValidBut(i, j) && Scanning(cell, i, j, e, x, cellCapacity) && cells[e] == EMPTY
        invariant CanStep(cell, i, j, e, x, cellCapacity)
      {
        var j' := NextCell(j);
        if cells[j'] == EMPTY {
          FillGap(i, j, j');
          return;
        }
        i := Examine(i, j, j');
        j := j';
        x := x + 1;
        ScanOn(cell, i, j, e, x, cellCapacity);
      }
      assert false;
    }

    lemma GapStarts(cell: nat, e: nat)
      requires ValidBut(cell, cell) && e < cells.Length && cells[e] == EMPTY && e != cell
      ensures cell < cellCapacity == cells.Length && Scanning(cell, cell, cell, e, 0, cellCapacity)
    {
      hide Linked, OnPath;
    }

    /** `(j + 1) & (capacity - 1)` */
    method NextCell(j: nat) returns (j': nat)
      requires IsCapacity(cellCapacity) && j < cellCapacity
      ensures j' == if j + 1 < cellCapacity then j + 1 else 0
    {
      MaskedSumIsStep(j, 1, cellCapacity);
      j' := BitAnd(j + 1, cellCapacity - 1);
    }

    /** The scan has reached an empty cell. */
    method FillGap(i: nat, ghost j: nat, ghost j': nat)
      requires ValidBut(i, j)
      requires j' < cellCapacity && Dist(i, j', cellCapacity) == Dist(i, j, cellCapacity) + 1 && cells[j'] == EMPTY
      modifies cells
      ensures Valid()
    {
      CloseHole(cells[..], cellIxs[..count], hashes[..count], names[..count], i, j, j');
      cells[i] := EMPTY;
    }

    /** One step of the shift: the item in cell `j'` moves into the hole unless its path avoids the hole. */
    method Examine(i: nat, j: nat, j': nat) returns (i': nat)
      requires ValidBut(i, j)
      requires j' < cellCapacity && Dist(i, j', cellCapacity) == Dist(i, j, cellCapacity) + 1 && cells[j'] != EMPTY
      modifies cells, cellIxs
      ensures ValidBut(i', j') && (i' == i || i' == j')
      ensures forall c :: 0 <= c < cellCapacity && old(cells[c]) == EMPTY && c != i ==> cells[c] == EMPTY
      ensures names[..count] == old(names[..count])
    {
      var k := BitAnd(hashes[cells[j']], cellCapacity - 1);
      MaskedIsHome(hashes[cells[j']], cellCapacity);
      if (j' > i && (k <= i || k > j')) || (j' < i && (k <= i && k > j')) {
        ShiftItem(cells[..], cellIxs[..count], hashes[..count], names[..count], i, j, j');
        cellIxs[cells[j']] := i;
        cells[i] := cells[j'];
        i' := j';
        assert cellIxs[..count] == old(cellIxs[..count])[old(cells[j']) := i];
      } else {
        KeepItem(cells[..], cellIxs[..count], hashes[..count], names[..count], i, j, j');
        i' := i;
      }
    }

    method Replace(item: nat, value: Value)
      requires Valid() && item < count
      modifies values
      ensures Valid() && Members() == SetMember(old(Members()), names[item], value)
    {
      MembersDistinct();
      LookupAt(Members(), item);
      values[item] := value;
      assert values[..count] == old(values[..count])[item := value];
    }

    /** The members in the order of json_object_get_name and json_object_get_value_at. */
    method Listing() returns (ms: seq<Member>)
      requires Valid()
      ensures ms == Members()
    {
      ms := [];
      var i := 0;
      while i < count
        invariant i <= count && ms == Members()[..i]
      {
        ms := ms + [Member(names[i], values[i])];
        i := i + 1;
      }
    }

    /** json_object_clear */
    method Clear()
      requires Valid()
      modifies this`count, Arrays()
      ensures Valid() && Members() == []
    {
      count := 0;
      var i := 0;
      while i < cellCapacity
        invariant i <= cellCapacity
        invariant forall c :: 0 <= c < i ==> cells[c] == EMPTY
        modifies cells
      {
        cells[i] := EMPTY;
        i := i + 1;
      }
    }
  }
}
