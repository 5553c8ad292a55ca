/**
 * The symbol board: a sorted table of symbol codes, each with a room number, and one hook per room that counts
 * the clients listening there. Functions on values; Broker.dfy runs the same steps on arrays.
 */
module SymbolBoard {
  import opened Bytes
  import opened Pigeonhole
  import opened SymbolCodes

  datatype Hook = Hook(code: bytes, many: nat, mark: bool)

  /** `symbs` and `hooks` have a slot for every room; the first `valr` entries of `symbs` are live. */
  datatype Board = Board(symbs: seq<Symb>, valr: nat, hooks: seq<Hook>, dynamic: bool)

  /** Room numbers are stored in a 16-bit signed field. */
  const MAX_ROOMS: nat := 0x8000

  function ToShort(x: int): int {
    (x + 0x8000) % 0x1_0000 - 0x8000
  }

  /** The listener count is a 16-bit unsigned field. */
  function ToCount(x: int): nat {
    x % 0x1_0000
  }

  function Live(b: Board): seq<Symb>
    requires b.valr <= |b.symbs|
  {
    b.symbs[..b.valr]
  }

  /** Room numbers of a table: one per entry, below the number of entries. */
  ghost predicate RoomsOk(s: seq<Symb>) {
    && (forall i :: 0 <= i < |s| ==> 0 <= s[i].seqn < |s|)
    && (forall i, j :: 0 <= i < j < |s| ==> s[i].seqn != s[j].seqn)
  }

  ghost predicate BoardOk(b: Board) {
    && b.valr <= |b.symbs| == |b.hooks| <= MAX_ROOMS
    && Sorted(Live(b)) && RoomsOk(Live(b))
  }

  /** The live entry for a code. */
  function Entry(s: seq<Symb>, code: bytes): Option<Symb> {
    var p := Position(s, code);
    if p < |s| then Some(s[p]) else None
  }

  // ----- steps

  /** An entry whose room nobody listens to: what cleaning_board looks for. */
  predicate Idle(b: Board, i: nat)
    requires i < |b.symbs|
  {
    var r := b.symbs[i].seqn;
    0 <= r < |b.symbs| && r < |b.hooks| && b.hooks[r].many <= 0
  }

  /** Index of the first idle entry, or the table size. */
  function FirstIdle(b: Board, i: nat): (r: nat)
    requires i <= |b.symbs|
    ensures i <= r <= |b.symbs|
    ensures r < |b.symbs| ==> Idle(b, r)
    ensures forall k :: i <= k < r ==> !Idle(b, k)
    decreases |b.symbs| - i
  {
    if i == |b.symbs| || Idle(b, i) then i else FirstIdle(b, i + 1)
  }

  /** The marks after cleaning; hook marks are cleared at the entry's index, not at its room. */
  function Cleaned(b: Board): (r: Board)
    requires |b.hooks| == |b.symbs|
    ensures r.valr == b.valr && r.dynamic == b.dynamic && |r.symbs| == |b.symbs| && |r.hooks| == |b.hooks|
    ensures forall k :: 0 <= k < |b.symbs| ==> r.symbs[k] == b.symbs[k].(mark := b.symbs[k].mark && !Idle(b, k))
    ensures forall k :: 0 <= k < |b.hooks| ==> r.hooks[k] == b.hooks[k].(mark := b.hooks[k].mark && !Idle(b, k))
  {
    b.(symbs := seq(|b.symbs|, k requires 0 <= k < |b.symbs| => b.symbs[k].(mark := b.symbs[k].mark && !Idle(b, k))),
       hooks := seq(|b.hooks|, k requires 0 <= k < |b.hooks| => b.hooks[k].(mark := b.hooks[k].mark && !Idle(b, k))))
  }

  /** A new symbol goes to entry `i` with room `room`; the live table is sorted again and the entry marked valid. */
  function StoreNew(b: Board, i: nat, room: nat, code: bytes): Board
    requires i < |b.symbs| && b.valr <= |b.symbs| && room < |b.hooks|
  {
    var stored := b.symbs[i := Symb(code, ToShort(room), false)];
    var valr := if i >= b.valr then i + 1 else b.valr;
    var sorted := Sort(stored[..valr]);
    var p := Position(sorted, code);
    var live := if p < |sorted| then sorted[p := sorted[p].(mark := true)] else sorted;
    b.(symbs := live + stored[valr..], valr := valr, hooks := b.hooks[room := Hook(code, 0, true)])
  }

  /** The board half of insert_symbol_to_board: the room of the symbol, or -1 when there is none to be had. */
  function Place(b: Board, code: bytes): (Board, int)
    requires BoardOk(b)
  {
    var p := Position(Live(b), code);
    if p < b.valr then
      var x := b.symbs[p];
      if x.mark then (b, x.seqn)
      else
        (b.(symbs := b.symbs[p := x.(mark := true)],
            hooks := b.hooks[x.seqn := b.hooks[x.seqn].(many := 0, mark := true)]), x.seqn)
    else if b.valr < |b.symbs| then (StoreNew(b, b.valr, b.valr, code), b.valr)
    else if !b.dynamic then (b, -1)
    else
      var i := FirstIdle(b, 0);
      if i == |b.symbs| then (Cleaned(b), -1)
      else (StoreNew(Cleaned(b), i, b.symbs[i].seqn, code), b.symbs[i].seqn)
  }

  /** search_symbol_on_board */
  function Search(b: Board, code: bytes): int
    requires b.valr <= |b.symbs|
  {
    var x := Entry(Live(b), code);
    if x.None? || !x.value.mark then -1 else x.value.seqn
  }

  /** delete_symbol_from_board, which only static boards use. */
  function Delete(b: Board, code: bytes): Board
    requires BoardOk(b)
  {
    var p := Position(Live(b), code);
    if p < b.valr && b.symbs[p].mark then
      b.(symbs := b.symbs[p := b.symbs[p].(mark := false)],
         hooks := b.hooks[b.symbs[p].seqn := b.hooks[b.symbs[p].seqn].(mark := false)])
    else b
  }

  /** The entries symbol_file_to_board reads, before it numbers them. */
  function Lines(codes: seq<bytes>): (s: seq<Symb>)
    ensures |s| == |codes|
  {
    seq(|codes|, i requires 0 <= i < |codes| => Symb(codes[i], 0, true))
  }

  /** symbol_file_to_board, on the codes of the accepted lines: sort, then number. */
  function Load(b: Board, codes: seq<bytes>): (r: Board)
    requires |codes| <= |b.symbs| == |b.hooks|
    ensures r.valr == |codes| && |r.symbs| == |b.symbs| && |r.hooks| == |b.hooks| && r.dynamic == b.dynamic
  {
    var sorted := Sort(Lines(codes));
    b.(symbs := seq(|codes|, i requires 0 <= i < |codes| => sorted[i].(seqn := ToShort(i))) + b.symbs[|codes|..],
       valr := |codes|,
       hooks := seq(|codes|, i requires 0 <= i < |codes| => b.hooks[i].(code := sorted[i].code, mark := true))
                + b.hooks[|codes|..])
  }

  // ----- entries under permutation

  lemma EntryByMember(s: seq<Symb>, x: Symb)
    requires DistinctCodes(s) && x in s
    ensures Entry(s, x.code) == Some(x)
  {
  }

  /** Sorting moves entries but keeps which entry a code has. */
  lemma SortKeepsEntries(s: seq<Symb>)
    requires DistinctCodes(s)
    ensures Sorted(Sort(s)) && |Sort(s)| == |s| && DistinctCodes(Sort(s))
    ensures forall c :: Entry(Sort(s), c) == Entry(s, c)
    ensures RoomsOk(s) ==> RoomsOk(Sort(s))
  {
    var t := Sort(s);
    SortSorts(s);
    SameEntries(s, t);
    SortedIsDistinct(t);
    forall c ensures Entry(t, c) == Entry(s, c) {
      if Entry(s, c).Some? {
        EntryByMember(t, Entry(s, c).value);
      } else if Entry(t, c).Some? {
        EntryByMember(s, Entry(t, c).value);
      }
    }
    if RoomsOk(s) {
      RoomsOfPermutation(s, t);
    }
  }

  lemma RoomsOfPermutation(s: seq<Symb>, t: seq<Symb>)
    requires RoomsOk(s) && DistinctCodes(t) && |s| == |t| && forall x :: x in s <==> x in t
    ensures RoomsOk(t)
  {
    forall i | 0 <= i < |t| ensures 0 <= t[i].seqn < |t| {
      assert t[i] in s;
    }
    forall i, j | 0 <= i < j < |t| ensures t[i].seqn != t[j].seqn {
      assert t[i] in s && t[j] in s && t[i] != t[j];
    }
  }

  // ----- what Place does

  /** The table before sorting, when entry `i` is overwritten or appended. */
  lemma StoredRooms(s: seq<Symb>, i: nat, x: Symb)
    requires DistinctCodes(s) && RoomsOk(s) && i <= |s| && Position(s, x.code) == |s|
    requires x.seqn == if i < |s| then s[i].seqn else i
    ensures var t := if i < |s| then s[i := x] else s + [x];
            && DistinctCodes(t) && RoomsOk(t) && Entry(t, x.code) == Some(x)
            && forall c :: c != x.code ==>
                 Entry(t, c) == if Entry(s, c).Some? && Entry(s, c).value.seqn == x.seqn then None else Entry(s, c)
  {
    var t := if i < |s| then s[i := x] else s + [x];
    StoredDistinct(s, i, x, t);
    hide RoomsOk;
    PositionUnique(t, x.code, i);
    forall c | c != x.code
      ensures Entry(t, c) == if Entry(s, c).Some? && Entry(s, c).value.seqn == x.seqn then None else Entry(s, c)
    {
      StoredEntry(s, i, x, t, c);
    }
  }

  lemma StoredDistinct(s: seq<Symb>, i: nat, x: Symb, t: seq<Symb>)
    requires DistinctCodes(s) && RoomsOk(s) && i <= |s| && Position(s, x.code) == |s|
    requires x.seqn == (if i < |s| then s[i].seqn else i) && t == if i < |s| then s[i := x] else s + [x]
    ensures DistinctCodes(t) && RoomsOk(t)
    ensures forall j :: 0 <= j < |s| ==> (s[j].seqn == x.seqn <==> j == i)
  {
    hide Position;
    forall j | 0 <= j < |s| ensures s[j].seqn == x.seqn <==> j == i {
      assert i < |s| ==> s[i].seqn == x.seqn;
    }
    assert forall j :: 0 <= j < |t| ==> t[j] == if j == i then x else s[j];
  }

  lemma StoredEntry(s: seq<Symb>, i: nat, x: Symb, t: seq<Symb>, c: bytes)
    requires DistinctCodes(s) && DistinctCodes(t) && i <= |s| && c != x.code
    requires t == if i < |s| then s[i := x] else s + [x]
    requires forall j :: 0 <= j < |s| ==> (s[j].seqn == x.seqn <==> j == i)
    ensures Entry(t, c) == if Entry(s, c).Some? && Entry(s, c).value.seqn == x.seqn then None else Entry(s, c)
  {
    var p, q := Position(s, c), Position(t, c);
    assert q < |t| ==> q != i && q < |s| && s[q].code == c;
    if p < |s| && p != i {
      PositionUnique(t, c, p);
    }
  }

  lemma MarkKeeps(s: seq<Symb>, p: nat, mark: bool)
    requires Sorted(s) && RoomsOk(s) && p < |s|
    ensures var t := s[p := s[p].(mark := mark)];
            && Sorted(t) && RoomsOk(t)
            && Entry(t, s[p].code) == Some(s[p].(mark := mark))
            && forall c :: c != s[p].code ==> Entry(t, c) == Entry(s, c)
  {
    var t := s[p := s[p].(mark := mark)];
    SortedIsDistinct(s);
    assert Sorted(t);
    SortedIsDistinct(t);
    PositionUnique(t, s[p].code, p);
    forall c | c != s[p].code ensures Entry(t, c) == Entry(s, c) {
      if Position(s, c) < |s| {
        PositionUnique(t, c, Position(s, c));
      } else if Position(t, c) < |t| {
        PositionUnique(s, c, Position(t, c));
      }
    }
  }

  /** Storing a new symbol: the board stays in order, and only the old holder of the room loses its entry. */
  lemma StoreNewKeeps(b: Board, i: nat, room: nat, code: bytes)
    requires BoardOk(b) && i < |b.symbs| && i <= b.valr && Position(Live(b), code) == b.valr
    requires room == if i < b.valr then b.symbs[i].seqn else i
    ensures var b' := StoreNew(b, i, room, code);
            && BoardOk(b') && |b'.symbs| == |b.symbs| && b'.dynamic == b.dynamic
            && b'.valr == (if i < b.valr then b.valr else b.valr + 1) && room < b'.valr
            && b'.hooks == b.hooks[room := Hook(code, 0, true)]
            && Entry(Live(b'), code) == Some(Symb(code, room, true))
            && forall c :: c != code ==>
                 Entry(Live(b'), c) == if Entry(Live(b), c).Some? && Entry(Live(b), c).value.seqn == room then None
                                       else Entry(Live(b), c)
  {
    var x := Symb(code, room, false);
    var s := Live(b);
    var t := if i < |s| then s[i := x] else s + [x];
    StoreNewShape(b, i, room, code, t);
    hide StoreNew, RoomsOk, Sorted, Sort, Position;
    SortedIsDistinct(s);
    StoredRooms(s, i, x);
    SortKeepsEntries(t);
    MarkKeeps(Sort(t), Position(Sort(t), code), true);
  }

  lemma StoreNewShape(b: Board, i: nat, room: nat, code: bytes, t: seq<Symb>)
    requires BoardOk(b) && i < |b.symbs| && i <= b.valr && Position(Live(b), code) == b.valr
    requires room == if i < b.valr then b.symbs[i].seqn else i
    requires t == if i < b.valr then Live(b)[i := Symb(code, room, false)] else Live(b) + [Symb(code, room, false)]
    ensures DistinctCodes(t) && |Sort(t)| == |t| && Position(Sort(t), code) < |t|
    ensures var b', p := StoreNew(b, i, room, code), Position(Sort(t), code);
            && |b'.symbs| == |b.symbs| && b'.dynamic == b.dynamic
            && b'.valr == (if i < b.valr then b.valr else b.valr + 1) && room < b'.valr <= |b'.symbs|
            && b'.hooks == b.hooks[room := Hook(code, 0, true)]
            && Live(b') == Sort(t)[p := Sort(t)[p].(mark := true)]
  {
    assert room < (if i < b.valr then b.valr else b.valr + 1);
    StoredSorted(b, i, room, code, t);
    StoredTable(b, i, room, code, t);
  }

  lemma StoredSorted(b: Board, i: nat, room: nat, code: bytes, t: seq<Symb>)
    requires BoardOk(b) && i < |b.symbs| && i <= b.valr && Position(Live(b), code) == b.valr
    requires room == if i < b.valr then b.symbs[i].seqn else i
    requires t == if i < b.valr then Live(b)[i := Symb(code, room, false)] else Live(b) + [Symb(code, room, false)]
    ensures DistinctCodes(t) && |Sort(t)| == |t| && Position(Sort(t), code) < |t|
    ensures Sorted(Sort(t)) && Sort(t)[Position(Sort(t), code)] == Symb(code, room, false)
  {
    hide Sort, Sorted, Position, RoomsOk, DistinctCodes;
    var x := Symb(code, room, false);
    SortedIsDistinct(Live(b));
    StoredRooms(Live(b), i, x);
    SortKeepsEntries(t);
    assert Entry(Sort(t), code) == Some(x);
  }

  lemma StoredTable(b: Board, i: nat, room: nat, code: bytes, t: seq<Symb>)
    requires i < |b.symbs| && i <= b.valr <= |b.symbs| == |b.hooks| <= MAX_ROOMS && room < |b.hooks|
    requires t == if i < b.valr then Live(b)[i := Symb(code, room, false)] else Live(b) + [Symb(code, room, false)]
    requires |Sort(t)| == |t| && Position(Sort(t), code) < |t|
    ensures var b', p := StoreNew(b, i, room, code), Position(Sort(t), code);
            && |b'.symbs| == |b.symbs| && b'.dynamic == b.dynamic
            && b'.valr == (if i < b.valr then b.valr else b.valr + 1) <= |b'.symbs|
            && b'.hooks == b.hooks[room := Hook(code, 0, true)]
            && Live(b') == Sort(t)[p := Sort(t)[p].(mark := true)]
  {
    hide Sort, Position;
    assert ToShort(room) == room;
    assert b.symbs[i := Symb(code, room, false)][..if i >= b.valr then i + 1 else b.valr] == t;
  }

  lemma CleanedKeeps(b: Board)
    requires BoardOk(b)
    ensures var b' := Cleaned(b);
            && BoardOk(b')
            && forall c :: Entry(Live(b'), c) == (match Entry(Live(b), c)
                                                  case None => None
                                                  case Some(x) => Some(x.(mark := x.mark && b.hooks[x.seqn].many > 0)))
  {
    var b' := Cleaned(b);
    var s, t := Live(b), Live(b');
    assert forall k :: 0 <= k < |s| ==> t[k] == s[k].(mark := s[k].mark && b.hooks[s[k].seqn].many > 0);
    SortedIsDistinct(s);
    assert Sorted(t);
    SortedIsDistinct(t);
    forall c ensures Position(t, c) == Position(s, c) {
      if Position(s, c) < |s| {
        PositionUnique(t, c, Position(s, c));
      } else if Position(t, c) < |t| {
        PositionUnique(s, c, Position(t, c));
      }
    }
  }

  // ----- the contract of Place

  /** What becomes of another code's entry: its room may be taken, and its mark may go if nobody listens there. */
  ghost predicate Kept(b: Board, e: Option<Symb>, e': Option<Symb>, room: int) {
    match e
    case None => e' == None
    case Some(x) =>
      if x.seqn == room then e' == None
      else
        || e' == e
        || (e' == Some(x.(mark := false)) && 0 <= x.seqn < |b.hooks| && b.hooks[x.seqn].many == 0)
  }

  /** Where a symbol may go: its own room, the first unused one, or one that nobody listens to. */
  ghost predicate RoomFor(b: Board, code: bytes, room: nat)
    requires BoardOk(b)
  {
    match Entry(Live(b), code)
    case Some(x) => room == x.seqn
    case None => room < |b.symbs| && (room == b.valr || (b.dynamic && b.valr == |b.symbs| && b.hooks[room].many == 0))
  }

  ghost predicate Placed(b: Board, code: bytes, b': Board, room: int)
    requires BoardOk(b) && BoardOk(b')
  {
    && |b'.symbs| == |b.symbs| && b'.dynamic == b.dynamic && b.valr <= b'.valr && -1 <= room < b'.valr
    && Entry(Live(b'), code) == (if room < 0 then None else Some(Symb(code, room, true)))
    && (if room < 0 then Entry(Live(b), code) == None else RoomFor(b, code, room))
    && (forall c :: c != code ==> Kept(b, Entry(Live(b), c), Entry(Live(b'), c), room))
    && (forall r :: 0 <= r < |b.hooks| ==>
          b'.hooks[r].many == if r == room && Search(b, code) < 0 then 0 else b.hooks[r].many)
  }

  /** An accepted symbol is valid at the returned room, and no other code loses a room that has listeners. */
  lemma PlaceOk(b: Board, code: bytes)
    requires BoardOk(b)
    ensures BoardOk(Place(b, code).0) && Placed(b, code, Place(b, code).0, Place(b, code).1)
  {
    var p := Position(Live(b), code);
    if p < b.valr {
      PlaceKnown(b, code);
    } else if b.valr < |b.symbs| {
      StoreNewKeeps(b, b.valr, b.valr, code);
      PlaceNew(b, b, b.valr, b.valr, code);
    } else if b.dynamic {
      CleanedKeeps(b);
      PlaceCleaned(b, code);
    }
  }

  lemma PlaceKnown(b: Board, code: bytes)
    requires BoardOk(b) && Position(Live(b), code) < b.valr
    ensures BoardOk(Place(b, code).0) && Placed(b, code, Place(b, code).0, Place(b, code).1)
  {
    var p := Position(Live(b), code);
    MarkKeeps(Live(b), p, true);
    assert Live(b)[p] == b.symbs[p];
    RoomsDiffer(b, code);
    var (b', room) := Place(b, code);
    if !b.symbs[p].mark {
      assert Live(b') == Live(b)[p := b.symbs[p].(mark := true)];
    }
    hide Sorted, RoomsOk, Position;
    assert Entry(Live(b'), code) == Some(Symb(code, room, true));
  }

  /** No two symbols share a room. */
  lemma RoomsDiffer(b: Board, code: bytes)
    requires BoardOk(b)
    ensures forall c :: c != code && Entry(Live(b), c).Some? && Entry(Live(b), code).Some? ==>
              Entry(Live(b), c).value.seqn != Entry(Live(b), code).value.seqn
    ensures forall c :: Entry(Live(b), c).Some? ==> 0 <= Entry(Live(b), c).value.seqn < b.valr
  {
  }

  lemma PlaceNew(b: Board, b1: Board, i: nat, room: nat, code: bytes)
    requires BoardOk(b) && BoardOk(b1) && i < |b1.symbs| && i <= b1.valr && room < |b.hooks|
    requires |b1.symbs| == |b.symbs| && b1.dynamic == b.dynamic && b1.valr == b.valr
             && Position(Live(b), code) == b.valr
    requires RoomFor(b, code, room)
    requires forall c :: Kept(b, Entry(Live(b), c), Entry(Live(b1), c), -1)
    requires forall r :: 0 <= r < |b.hooks| ==> b1.hooks[r].many == b.hooks[r].many
    requires var b' := StoreNew(b1, i, room, code);
             && BoardOk(b') && |b'.symbs| == |b1.symbs| && b'.dynamic == b1.dynamic
             && b1.valr <= b'.valr && room < b'.valr
             && b'.hooks == b1.hooks[room := Hook(code, 0, true)]
             && Entry(Live(b'), code) == Some(Symb(code, room, true))
             && forall c :: c != code ==>
                  Entry(Live(b'), c) == if Entry(Live(b1), c).Some? && Entry(Live(b1), c).value.seqn == room then None
                                        else Entry(Live(b1), c)
    ensures Placed(b, code, StoreNew(b1, i, room, code), room)
  {
    hide Sorted, RoomsOk, StoreNew, Position;
    var b' := StoreNew(b1, i, room, code);
    RoomsDiffer(b, code);
    forall c | c != code ensures Kept(b, Entry(Live(b), c), Entry(Live(b'), c), room) {
      assert Kept(b, Entry(Live(b), c), Entry(Live(b1), c), -1);
    }
  }

  lemma PlaceCleaned(b: Board, code: bytes)
    requires BoardOk(b) && Position(Live(b), code) == b.valr == |b.symbs| && b.dynamic
    requires BoardOk(Cleaned(b))
    requires forall c ::
               Entry(Live(Cleaned(b)), c) == match Entry(Live(b), c)
                                             case None => None
                                             case Some(x) => Some(x.(mark := x.mark && b.hooks[x.seqn].many > 0))
    ensures BoardOk(Place(b, code).0) && Placed(b, code, Place(b, code).0, Place(b, code).1)
  {
    var b1 := Cleaned(b);
    var i := FirstIdle(b, 0);
    CleanedEntries(b, code);
    hide Entry, Sorted, RoomsOk, StoreNew, Cleaned, Kept;
    if i < |b.symbs| {
      StoreNewKeeps(b1, i, b.symbs[i].seqn, code);
      PlaceNew(b, b1, i, b.symbs[i].seqn, code);
    }
  }

  lemma CleanedEntries(b: Board, code: bytes)
    requires BoardOk(b) && Position(Live(b), code) == b.valr
    requires BoardOk(Cleaned(b))
    requires forall c ::
               Entry(Live(Cleaned(b)), c) == match Entry(Live(b), c)
                                             case None => None
                                             case Some(x) => Some(x.(mark := x.mark && b.hooks[x.seqn].many > 0))
    ensures Entry(Live(Cleaned(b)), code) == None && Position(Live(Cleaned(b)), code) == b.valr && Search(b, code) < 0
    ensures forall c :: Kept(b, Entry(Live(b), c), Entry(Live(Cleaned(b)), c), -1)
  {
  }

  /** There is no room to be had exactly when the table is full and cleaning may not or cannot free one. */
  lemma PlaceFails(b: Board, code: bytes)
    requires BoardOk(b)
    ensures Place(b, code).1 == -1 <==>
              && Entry(Live(b), code) == None && b.valr == |b.symbs|
              && (b.dynamic ==> forall r :: 0 <= r < |b.hooks| ==> b.hooks[r].many > 0)
  {
    RoomsDiffer(b, code);
    hide Sorted, StoreNew, Cleaned;
    var i := FirstIdle(b, 0);
    if b.valr == |b.symbs| && i == |b.symbs| {
      forall r | 0 <= r < |b.hooks| ensures b.hooks[r].many > 0 {
        var k := EntryOfRoom(b, r);
        assert !Idle(b, k);
      }
    }
  }

  /** Every room below valr belongs to a symbol. */
  lemma EntryOfRoom(b: Board, r: nat) returns (k: nat)
    requires BoardOk(b) && r < b.valr
    ensures k < b.valr && b.symbs[k].seqn == r
  {
    hide Sorted;
    var rooms := seq(b.valr, i requires 0 <= i < b.valr => b.symbs[i].seqn);
    assert forall i :: 0 <= i < b.valr ==> rooms[i] == Live(b)[i].seqn;
    Onto(rooms, r);
    k :| 0 <= k < b.valr && rooms[k] == r;
  }

  /** Deleting a symbol takes its mark and nothing else that is looked up or counted. */
  lemma DeleteOk(b: Board, code: bytes)
    requires BoardOk(b)
    ensures var b' := Delete(b, code);
            && BoardOk(b') && |b'.symbs| == |b.symbs| && b'.valr == b.valr && b'.dynamic == b.dynamic
            && (forall c :: c != code ==> Entry(Live(b'), c) == Entry(Live(b), c))
            && Entry(Live(b'), code) == (if Entry(Live(b), code).None? then None
                                         else Some(Entry(Live(b), code).value.(mark := false)))
            && forall r :: 0 <= r < |b.hooks| ==> b'.hooks[r].many == b.hooks[r].many
  {
    var p, b' := Position(Live(b), code), Delete(b, code);
    if p < b.valr && b.symbs[p].mark {
      MarkKeeps(Live(b), p, false);
      assert Live(b') == Live(b)[p := b.symbs[p].(mark := false)];
    }
    hide Sorted, RoomsOk, Position;
  }

  // ----- loading

  /** A loaded board is in order exactly when the file holds no code twice; its codes are the ones found. */
  lemma LoadOk(b: Board, codes: seq<bytes>)
    requires |codes| <= |b.symbs| == |b.hooks| <= MAX_ROOMS
    ensures BoardOk(Load(b, codes)) <==> forall i, j :: 0 <= i < j < |codes| ==> codes[i] != codes[j]
    ensures forall c :: Search(Load(b, codes), c) >= 0 <==> c in codes
  {
    var lines, b' := Lines(codes), Load(b, codes);
    LoadedLive(b, codes);
    LoadedDistinct(b, codes);
    if i, j :| 0 <= i < j < |codes| && codes[i] == codes[j] {
      TwiceMeansTwo(lines, i, j);
      SortPermutes(lines);
      var k, l := TwoMeansTwice(Sort(lines), lines[i]);
    } else {
      SortSorts(lines);
    }
    forall c ensures Search(b', c) >= 0 <==> c in codes {
      LoadedSearch(b, codes, c);
    }
  }

  lemma LoadedDistinct(b: Board, codes: seq<bytes>)
    requires |codes| <= |b.symbs| == |b.hooks| <= MAX_ROOMS
    ensures BoardOk(Load(b, codes)) ==> DistinctCodes(Sort(Lines(codes)))
  {
    var t := Live(Load(b, codes));
    LoadedLive(b, codes);
    if BoardOk(Load(b, codes)) {
      SortedIsDistinct(t);
      hide Load;
      assert forall i :: 0 <= i < |t| ==> t[i].code == Sort(Lines(codes))[i].code;
    }
  }

  lemma LoadedLive(b: Board, codes: seq<bytes>)
    requires |codes| <= |b.symbs| == |b.hooks| <= MAX_ROOMS
    ensures var t := Live(Load(b, codes));
            && |t| == |codes| && RoomsOk(t)
            && forall i :: 0 <= i < |t| ==> t[i] == Sort(Lines(codes))[i].(seqn := i)
  {
    var t := Live(Load(b, codes));
    assert forall i :: 0 <= i < |t| ==> ToShort(i) == i;
  }

  lemma LoadedSearch(b: Board, codes: seq<bytes>, c: bytes)
    requires |codes| <= |b.symbs| == |b.hooks| <= MAX_ROOMS
    ensures Search(Load(b, codes), c) >= 0 <==> c in codes
  {
    hide Load, Sort;
    var lines := Lines(codes);
    var s, t := Sort(lines), Live(Load(b, codes));
    LoadedLive(b, codes);
    SortPermutes(lines);
    SameEntries(lines, s);
    forall k | 0 <= k < |s| ensures s[k].mark && s[k].code in codes {
      assert s[k] in lines;
    }
    forall k | 0 <= k < |codes| ensures exists i :: 0 <= i < |t| && t[i].code == codes[k] {
      assert lines[k] in s;
      var i :| 0 <= i < |s| && s[i] == lines[k];
      assert t[i].code == codes[k];
    }
  }

  /** A listener count survives its 16-bit field exactly up to 65535; one more starts again at nothing. */
  lemma CountField(n: nat)
    ensures ToCount(n) == n <==> n <= 0xFFFF
    ensures ToCount(0xFFFF + 1) == 0
  {
  }

  /** Room numbers survive their 16-bit field exactly when there are at most 32768 of them. */
  lemma ShortRooms(n: nat)
    ensures (forall r :: 0 <= r < n ==> ToShort(r) == r) <==> n <= MAX_ROOMS
  {
    if n > MAX_ROOMS {
      assert ToShort(MAX_ROOMS) < 0;
    }
  }
}
