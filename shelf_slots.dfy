/** The shelf's slot table as values (src/components/Bookshelf.tsx, with React
    and three.js stripped away): placement, removal with re-packing, the
    reconciliation pass against the store's list, the cover palette, the
    scene-graph membership of each book's group and the tap lookup. */
module ShelfSlots {
  import opened JsArray
  import opened BookModel

  /** Slots one shelf row holds. */
  const SHELF_CAPACITY: nat := 4
  const BOOK_WIDTH: real := 0.5
  const BOOK_SPACING: real := 0.05
  /** Distance between neighbouring books: one width plus one gap. */
  const SLOT_STRIDE: real := BOOK_WIDTH + BOOK_SPACING
  const ROW_LEFT_X: real := -0.9
  const ROW_Y: real := 1.1
  const ROW_Z: real := -0.22

  datatype Vec3 = Vec3(x: real, y: real, z: real)

  /** The book's renderable group: an opaque handle and its own transform. */
  datatype MeshRef = MeshRef(handle: nat, position: Vec3)

  /** A `SceneBook` record (its constant rotation (0, π/2, 0) is left out). */
  datatype Slot = Slot(
    id: string,
    title: string,
    shelfIndex: int,
    position: Vec3,
    mesh: MeshRef,
    coverColour: string)

  /** The slot table together with the next unused group handle. */
  datatype ShelfState = ShelfState(slots: seq<Slot>, nextHandle: nat)

  // ---------------------------------------------------------------------
  // Cover colour

  const Palette: seq<string> := [
    "#FF6B6B", "#4ECDC4", "#45B7D1", "#96CEB4", "#FFEEAD",
    "#D4A5A5", "#9B59B6", "#3498DB", "#E67E22", "#2ECC71",
    "#F1C40F", "#E74C3C", "#1ABC9C", "#34495E", "#8B4513"
  ]

  /** `Math.floor(rand * colors.length)` for a draw `rand` in [0, 1). */
  function ColourIndex(rand: real): (i: nat)
    requires 0.0 <= rand < 1.0
    ensures i < |Palette|
    ensures (i as real) <= rand * 15.0 < (i as real) + 1.0
  {
    (rand * (|Palette| as real)).Floor
  }

  /** `extractColorFromCover`: ignores the URL and picks a palette entry with
      the random draw `rand`. */
  function ExtractColorFromCover(coverUrl: string, rand: real): (c: string)
    requires 0.0 <= rand < 1.0
    ensures c in Palette
  {
    Palette[ColourIndex(rand)]
  }

  // ---------------------------------------------------------------------
  // Queries on the table

  function SlotIds(slots: seq<Slot>): (ids: seq<string>)
    ensures |ids| == |slots|
    ensures forall i :: 0 <= i < |slots| ==> ids[i] == slots[i].id
  {
    seq(|slots|, i requires 0 <= i < |slots| => slots[i].id)
  }

  function Handles(slots: seq<Slot>): (hs: seq<nat>)
    ensures |hs| == |slots|
    ensures forall i :: 0 <= i < |slots| ==> hs[i] == slots[i].mesh.handle
  {
    seq(|slots|, i requires 0 <= i < |slots| => slots[i].mesh.handle)
  }

  /** `shelfBooks.some(s => s.id === id)` */
  predicate OnShelf(slots: seq<Slot>, id: string)
  {
    id in SlotIds(slots)
  }

  /** `shelfBooks.filter(b => b.shelfIndex === 0).length` */
  function RowCount(slots: seq<Slot>): nat
  {
    Count(slots, (s: Slot) => s.shelfIndex == 0)
  }

  /** x of the n-th book of a row: left-aligned, one stride apart. */
  function SlotX(n: nat): real
  {
    ROW_LEFT_X + (n as real) * SLOT_STRIDE
  }

  /** Slot `s` stands, with its group, at position `i` of the first row. */
  predicate SlotAt(s: Slot, i: nat)
  {
    && s.shelfIndex == 0
    && s.position == Vec3(SlotX(i), ROW_Y, ROW_Z)
    && s.mesh.position == s.position
  }

  /** The table is a contiguous, left-packed first row within capacity, with
      distinct ids, palette colours, and handles below `nextHandle` in
      increasing order. */
  predicate TableInvariant(st: ShelfState)
  {
    && 0 < st.nextHandle
    && |st.slots| <= SHELF_CAPACITY
    && (forall i :: 0 <= i < |st.slots| ==> SlotAt(st.slots[i], i))
    && (forall i :: 0 <= i < |st.slots| ==>
          st.slots[i].coverColour in Palette && 0 < st.slots[i].mesh.handle < st.nextHandle)
    && (forall i, j :: 0 <= i < j < |st.slots| ==>
          st.slots[i].id != st.slots[j].id && st.slots[i].mesh.handle < st.slots[j].mesh.handle)
  }

  /** In a packed table every slot is on the first row. */
  lemma PackedRowCount(slots: seq<Slot>)
    requires forall i :: 0 <= i < |slots| ==> slots[i].shelfIndex == 0
    ensures RowCount(slots) == |slots|
  {
    FilterKeepsAll(slots, (s: Slot) => s.shelfIndex == 0);
  }

  // ---------------------------------------------------------------------
  // Placement (addBookToShelf)

  function NewSlot(book: Book, n: nat, colour: string, handle: nat): Slot
  {
    var at := Vec3(SlotX(n), ROW_Y, ROW_Z);
    Slot(book.id, book.title, 0, at, MeshRef(handle, at), colour)
  }

  /** `addBookToShelf(book)` when it reads `n` occupants of the first row:
      nothing happens once `n` reaches the capacity; otherwise one slot for the
      book is appended at x = -0.9 + n·0.55, y = 1.1, z = -0.22, its group at
      the same place and its colour drawn from the palette. */
  function Place(st: ShelfState, book: Book, n: nat, rand: real): (r: ShelfState)
    requires 0.0 <= rand < 1.0
    ensures n >= SHELF_CAPACITY ==> r == st
    ensures n < SHELF_CAPACITY ==>
      && |r.slots| == |st.slots| + 1
      && r.slots[..|st.slots|] == st.slots
      && r.slots[|st.slots|].id == book.id
      && r.slots[|st.slots|].title == book.title
      && r.slots[|st.slots|].shelfIndex == 0
      && r.slots[|st.slots|].position == Vec3(-0.9 + (n as real) * 0.55, 1.1, -0.22)
      && r.slots[|st.slots|].mesh == MeshRef(st.nextHandle, r.slots[|st.slots|].position)
      && r.slots[|st.slots|].coverColour in Palette
      && r.nextHandle == st.nextHandle + 1
  {
    if n >= SHELF_CAPACITY then st
    else
      var s := NewSlot(book, n, ExtractColorFromCover(book.coverUrl, rand), st.nextHandle);
      ShelfState(st.slots + [s], st.nextHandle + 1)
  }

  /** Placing a book whose id is not on a valid shelf, counting the live
      table, keeps the table packed and within capacity. */
  lemma PlaceKeepsInvariant(st: ShelfState, book: Book, rand: real)
    requires TableInvariant(st)
    requires !OnShelf(st.slots, book.id)
    requires 0.0 <= rand < 1.0
    ensures TableInvariant(Place(st, book, RowCount(st.slots), rand))
  {
    PackedRowCount(st.slots);
    var r := Place(st, book, RowCount(st.slots), rand);
    if |st.slots| < SHELF_CAPACITY {
      forall i | 0 <= i < |st.slots| ensures st.slots[i].id != book.id {
        assert SlotIds(st.slots)[i] == st.slots[i].id;
      }
      forall i | 0 <= i < |r.slots| ensures SlotAt(r.slots[i], i) {
        if i < |st.slots| {
          assert r.slots[i] == r.slots[..|st.slots|][i];
        }
      }
      forall i | 0 <= i < |st.slots| ensures r.slots[i] == st.slots[i] {
        assert r.slots[i] == r.slots[..|st.slots|][i];
      }
    }
  }

  // ---------------------------------------------------------------------
  // Removal (removeBook)

  /** Membership of `booksToShift`: same row, strictly right of the victim. */
  predicate ShiftsFor(s: Slot, victim: Slot)
  {
    s.shelfIndex == victim.shelfIndex && s.position.x > victim.position.x
  }

  /** Moves a slot and its group one stride to the left, together. */
  function ShiftLeft(s: Slot): Slot
  {
    s.(position := s.position.(x := s.position.x - SLOT_STRIDE),
       mesh := s.mesh.(position := s.mesh.position.(x := s.mesh.position.x - SLOT_STRIDE)))
  }

  function ShiftRow(slots: seq<Slot>, victim: Slot): (r: seq<Slot>)
    ensures |r| == |slots|
    ensures forall i :: 0 <= i < |slots| ==>
      r[i] == if ShiftsFor(slots[i], victim) then ShiftLeft(slots[i]) else slots[i]
  {
    seq(|slots|, i requires 0 <= i < |slots| =>
      if ShiftsFor(slots[i], victim) then ShiftLeft(slots[i]) else slots[i])
  }

  function SlotIdIsNot(id: string): Slot -> bool
  {
    (s: Slot) => s.id != id
  }

  /** `removeBook(victim)`: shifts the slots that follow the victim on its row,
      then drops every slot carrying the victim's id. */
  function Unplace(st: ShelfState, victim: Slot): (r: ShelfState)
    ensures r.nextHandle == st.nextHandle
    ensures !OnShelf(r.slots, victim.id)
    ensures |r.slots| <= |st.slots|
  {
    var r := Filter(ShiftRow(st.slots, victim), SlotIdIsNot(victim.id));
    assert forall i :: 0 <= i < |r| ==> SlotIds(r)[i] != victim.id;
    ShelfState(r, st.nextHandle)
  }

  /** A slot after the removal of `victim`: moved one stride left when it
      is in `booksToShift`, untouched otherwise. */
  function Moved(o: Slot, victim: Slot): (r: Slot)
    ensures r.id == o.id && r.title == o.title && r.shelfIndex == o.shelfIndex
    ensures r.coverColour == o.coverColour && r.mesh.handle == o.mesh.handle
    ensures r.position == o.position.(x := o.position.x - (if ShiftsFor(o, victim) then 0.55 else 0.0))
    ensures r.mesh.position == o.mesh.position.(x := o.mesh.position.x - (if ShiftsFor(o, victim) then 0.55 else 0.0))
  {
    if ShiftsFor(o, victim) then ShiftLeft(o) else o
  }

  /** Index in the old table of the i-th survivor once index k is gone. */
  function Skip(k: nat, i: nat): nat
  {
    if i < k then i else i + 1
  }

  /** Removing the slot at index k (whose id no other slot carries) removes
      exactly that slot; every other slot keeps its place in the order and
      all its fields, except that a same-row slot right of the removed one
      moves left by exactly 0.55, slot and group together (see Moved). */
  lemma UnplaceAt(st: ShelfState, k: nat)
    requires k < |st.slots|
    requires forall i :: 0 <= i < |st.slots| && i != k ==> st.slots[i].id != st.slots[k].id
    ensures |Unplace(st, st.slots[k]).slots| == |st.slots| - 1
    ensures forall i :: 0 <= i < |st.slots| - 1 ==>
      Unplace(st, st.slots[k]).slots[i] == Moved(st.slots[Skip(k, i)], st.slots[k])
  {
    var v := st.slots[k];
    var m := ShiftRow(st.slots, v);
    var keep := SlotIdIsNot(v.id);
    forall i | 0 <= i < |m| && i != k ensures keep(m[i]) {
      assert m[i].id == st.slots[i].id;
    }
    FilterDropsOne(m, keep, k);
    SkipIndex(m, k);
  }

  /** Deleting index k from a list shifts the later elements down by one. */
  lemma SkipIndex<T>(m: seq<T>, k: nat)
    requires k < |m|
    ensures |m[..k] + m[k+1..]| == |m| - 1
    ensures forall i :: 0 <= i < |m| - 1 ==> (m[..k] + m[k+1..])[i] == m[Skip(k, i)]
  {
  }

  /** A packed slot stays packed after another slot of the row is removed:
      the ones to its left stay, the ones to its right move into the gap. */
  lemma MovedSlotAt(o: Slot, v: Slot, j: nat, k: nat)
    requires SlotAt(o, j) && SlotAt(v, k) && j != k
    ensures SlotAt(Moved(o, v), if j < k then j else j - 1)
  {
  }

  /** The survivors of a removal from a valid table stand packed, in
      order, with distinct ids and increasing handles. */
  lemma SurvivorsValid(st: ShelfState, k: nat, r: seq<Slot>)
    requires TableInvariant(st)
    requires k < |st.slots|
    requires |r| == |st.slots| - 1
    requires forall i :: 0 <= i < |r| ==> r[i] == Moved(st.slots[Skip(k, i)], st.slots[k])
    ensures TableInvariant(ShelfState(r, st.nextHandle))
  {
    forall i | 0 <= i < |r| ensures SlotAt(r[i], i) {
      MovedSlotAt(st.slots[Skip(k, i)], st.slots[k], Skip(k, i), k);
    }
    forall i, j | 0 <= i < j < |r|
      ensures r[i].id != r[j].id && r[i].mesh.handle < r[j].mesh.handle
    {
      assert Skip(k, i) < Skip(k, j);
    }
  }

  /** The ids of the survivors are the other ids, in their original order. */
  lemma SurvivorIds(slots: seq<Slot>, k: nat, r: seq<Slot>)
    requires k < |slots|
    requires |r| == |slots| - 1
    requires forall i :: 0 <= i < |r| ==> r[i].id == slots[Skip(k, i)].id
    ensures SlotIds(r) == SlotIds(slots[..k]) + SlotIds(slots[k+1..])
  {
    forall i | 0 <= i < |r| ensures SlotIds(r)[i] == (SlotIds(slots[..k]) + SlotIds(slots[k+1..]))[i] {
      if i < k {
        assert slots[..k][i] == slots[i];
      } else {
        assert slots[k+1..][i - k] == slots[i + 1];
      }
    }
  }

  /** The groups of the survivors are the other groups, in order. */
  lemma SurvivorHandles(slots: seq<Slot>, k: nat, r: seq<Slot>)
    requires k < |slots|
    requires |r| == |slots| - 1
    requires forall i :: 0 <= i < |r| ==> r[i].mesh.handle == slots[Skip(k, i)].mesh.handle
    ensures Handles(r) == Handles(slots[..k]) + Handles(slots[k+1..])
  {
    forall i | 0 <= i < |r| ensures Handles(r)[i] == (Handles(slots[..k]) + Handles(slots[k+1..]))[i] {
      if i < k {
        assert slots[..k][i] == slots[i];
      } else {
        assert slots[k+1..][i - k] == slots[i + 1];
      }
    }
  }

  /** Removing a slot from a valid table re-packs the row with no gap, and
      the ids and groups that remain are the others in their original order. */
  lemma UnplaceKeepsInvariant(st: ShelfState, k: nat)
    requires TableInvariant(st)
    requires k < |st.slots|
    ensures TableInvariant(Unplace(st, st.slots[k]))
    ensures SlotIds(Unplace(st, st.slots[k]).slots) == SlotIds(st.slots[..k]) + SlotIds(st.slots[k+1..])
    ensures Handles(Unplace(st, st.slots[k]).slots) == Handles(st.slots[..k]) + Handles(st.slots[k+1..])
  {
    UnplaceAt(st, k);
    var u := Unplace(st, st.slots[k]);
    SurvivorsValid(st, k, u.slots);
    SurvivorIds(st.slots, k, u.slots);
    SurvivorHandles(st.slots, k, u.slots);
    assert u == ShelfState(u.slots, st.nextHandle);
  }

  // ---------------------------------------------------------------------
  // Reconciliation (the effect that follows the store's list)

  /** The index of the slot carrying `id` in the live table, if any: how a
      removal victim is looked up once earlier removals have re-packed the
      table. */
  function FindSlot(slots: seq<Slot>, id: string): (r: Option<nat>)
    ensures r.Some? ==> r.value < |slots| && slots[r.value].id == id
    ensures r.None? <==> !OnShelf(slots, id)
    decreases |slots|
  {
    if slots == [] then None
    else if slots[0].id == id then Some(0)
    else
      match FindSlot(slots[1..], id)
      case None =>
        assert SlotIds(slots) == [slots[0].id] + SlotIds(slots[1..]);
        None
      case Some(k) => Some(k + 1)
  }

  /** Removes the slot carrying `id`, if there is one. */
  function RemoveId(st: ShelfState, id: string): (r: ShelfState)
    ensures !OnShelf(st.slots, id) ==> r == st
    ensures r.nextHandle == st.nextHandle && |r.slots| <= |st.slots|
  {
    match FindSlot(st.slots, id)
    case None => st
    case Some(k) => Unplace(st, st.slots[k])
  }

  /** Deleting the one occurrence of ids[k] from a list of distinct ids
      leaves exactly the other ids. */
  lemma DropIdMembers(ids: seq<string>, k: nat)
    requires k < |ids|
    requires forall i :: 0 <= i < |ids| && i != k ==> ids[i] != ids[k]
    ensures forall x :: x in ids[..k] + ids[k+1..] <==> x in ids && x != ids[k]
  {
    assert ids == ids[..k] + [ids[k]] + ids[k+1..];
    forall x | x in ids && x != ids[k] ensures x in ids[..k] + ids[k+1..] {
      var i :| 0 <= i < |ids| && ids[i] == x;
      if i < k { assert ids[..k][i] == x; } else { assert ids[k+1..][i - k - 1] == x; }
    }
  }

  /** A table whose ids are those of `slots` without index k holds exactly
      the other ids of `slots`, and one fewer slot. */
  lemma DropIdOnShelf(slots: seq<Slot>, k: nat, r: seq<Slot>)
    requires k < |slots|
    requires forall i :: 0 <= i < |slots| && i != k ==> slots[i].id != slots[k].id
    requires SlotIds(r) == SlotIds(slots[..k]) + SlotIds(slots[k+1..])
    ensures |r| == |slots| - 1
    ensures forall x :: OnShelf(r, x) <==> OnShelf(slots, x) && x != slots[k].id
  {
    var ids := SlotIds(slots);
    assert SlotIds(slots[..k]) == ids[..k];
    assert SlotIds(slots[k+1..]) == ids[k+1..];
    DropIdMembers(ids, k);
  }

  /** Removing one id from a valid table keeps it valid, drops exactly that
      id and shrinks the table by one when the id was present. */
  lemma RemoveIdEffect(st: ShelfState, id: string)
    requires TableInvariant(st)
    ensures TableInvariant(RemoveId(st, id))
    ensures RemoveId(st, id).nextHandle == st.nextHandle
    ensures forall x :: OnShelf(RemoveId(st, id).slots, x) <==> OnShelf(st.slots, x) && x != id
    ensures |RemoveId(st, id).slots| == if OnShelf(st.slots, id) then |st.slots| - 1 else |st.slots|
  {
    match FindSlot(st.slots, id)
    case None =>
    case Some(k) =>
      UnplaceKeepsInvariant(st, k);
      DropIdOnShelf(st.slots, k, Unplace(st, st.slots[k]).slots);
  }

  /** The first half of the pass: each slot of `victims` (the snapshot, in
      order) whose id the store lacks is removed from the current table. */
  function RemovalPass(st: ShelfState, victims: seq<Slot>, store: seq<Book>): (r: ShelfState)
    ensures r.nextHandle == st.nextHandle && |r.slots| <= |st.slots|
    decreases |victims|
  {
    if victims == [] then st
    else
      var before := RemovalPass(st, victims[..|victims| - 1], store);
      var v := victims[|victims| - 1];
      if HasId(store, v.id) then before else RemoveId(before, v.id)
  }

  /** Which occupant count a placement reads: the live table's, or one count
      frozen for the whole pass. */
  datatype CountMode = LiveCount | SnapshotCount(n: nat)

  predicate Draws(rands: seq<real>)
  {
    forall i :: 0 <= i < |rands| ==> 0.0 <= rands[i] < 1.0
  }

  /** The second half of the pass: each store book (in order) whose id is not
      in the snapshot is offered to placement, with its own colour draw. */
  function AdditionPass(st: ShelfState, books: seq<Book>, rands: seq<real>, snapshot: seq<Slot>, mode: CountMode): (r: ShelfState)
    requires |rands| == |books| && Draws(rands)
    ensures st.slots <= r.slots && |r.slots| <= |st.slots| + |books|
    ensures r.nextHandle == st.nextHandle + (|r.slots| - |st.slots|)
    decreases |books|
  {
    if books == [] then st
    else
      var m := |books| - 1;
      var before := AdditionPass(st, books[..m], rands[..m], snapshot, mode);
      if OnShelf(snapshot, books[m].id) then before
      else Place(before, books[m], if mode.LiveCount? then RowCount(before.slots) else mode.n, rands[m])
  }

  /** The effect as written: every placement in the pass reads the occupant
      count of the render's snapshot, which still holds the slots removed in
      the same pass. */
  function ReconcileAsWritten(st: ShelfState, store: seq<Book>, rands: seq<real>): (r: ShelfState)
    requires |rands| == |store| && Draws(rands)
    ensures r.nextHandle >= st.nextHandle && |r.slots| <= |st.slots| + |store|
  {
    AdditionPass(RemovalPass(st, st.slots, store), store, rands, st.slots, SnapshotCount(RowCount(st.slots)))
  }

  /** The effect with each placement counting the live table, so that the
      removals of a pass free capacity for its additions. */
  function Reconcile(st: ShelfState, store: seq<Book>, rands: seq<real>): (r: ShelfState)
    requires |rands| == |store| && Draws(rands)
    ensures r.nextHandle >= st.nextHandle && |r.slots| <= |st.slots| + |store|
  {
    AdditionPass(RemovalPass(st, st.slots, store), store, rands, st.slots, LiveCount)
  }

  /** What the removal half guarantees on a valid table. */
  lemma {:induction false} RemovalPassEffect(st: ShelfState, victims: seq<Slot>, store: seq<Book>)
    requires TableInvariant(st)
    ensures var r := RemovalPass(st, victims, store);
      && RemovalKeeps(st, r, store)
      && VictimsGone(r.slots, victims, store)
    decreases |victims|
  {
    if victims != [] {
      var pre := victims[..|victims| - 1];
      RemovalPassEffect(st, pre, store);
      var before := RemovalPass(st, pre, store);
      var v := victims[|victims| - 1];
      RemovalStep(st, before, v, store);
      assert victims == pre + [v];
      VictimsGoneStep(before.slots, RemovalPass(st, victims, store).slots, pre, v, store);
    }
  }

  /** Every victim whose id the store lacks is off the table. */
  predicate VictimsGone(slots: seq<Slot>, victims: seq<Slot>, store: seq<Book>)
  {
    forall j :: 0 <= j < |victims| && !HasId(store, victims[j].id) ==> !OnShelf(slots, victims[j].id)
  }

  /** A step that removes no id back and drops victim v when the store
      lacks it extends VictimsGone from `pre` to `pre + [v]`. */
  lemma VictimsGoneStep(before: seq<Slot>, after: seq<Slot>, pre: seq<Slot>, v: Slot, store: seq<Book>)
    requires VictimsGone(before, pre, store)
    requires forall x :: !OnShelf(before, x) ==> !OnShelf(after, x)
    requires !HasId(store, v.id) ==> !OnShelf(after, v.id)
    ensures VictimsGone(after, pre + [v], store)
  {
    var vs := pre + [v];
    forall j | 0 <= j < |vs| && !HasId(store, vs[j].id) ensures !OnShelf(after, vs[j].id) {
      if j < |pre| {
        assert vs[j] == pre[j];
      }
    }
  }

  /** The facts the removal half keeps, for a table `r` reached from `st`:
      valid, same handle counter, no new ids, every stored id kept, and a
      shorter table whenever some id went. */
  ghost predicate RemovalKeeps(st: ShelfState, r: ShelfState, store: seq<Book>)
  {
    && TableInvariant(r)
    && r.nextHandle == st.nextHandle
    && |r.slots| <= |st.slots|
    && (forall x :: OnShelf(r.slots, x) ==> OnShelf(st.slots, x))
    && (forall x :: OnShelf(st.slots, x) && HasId(store, x) ==> OnShelf(r.slots, x))
    && (forall x :: OnShelf(st.slots, x) && !OnShelf(r.slots, x) ==> |r.slots| < |st.slots|)
  }

  /** One step of the removal half keeps those facts, removes the victim
      when the store lacks it, and brings back no removed id. */
  lemma RemovalStep(st: ShelfState, before: ShelfState, v: Slot, store: seq<Book>)
    requires RemovalKeeps(st, before, store)
    ensures var r := if HasId(store, v.id) then before else RemoveId(before, v.id);
      && RemovalKeeps(st, r, store)
      && (!HasId(store, v.id) ==> !OnShelf(r.slots, v.id))
      && (forall x :: !OnShelf(before.slots, x) ==> !OnShelf(r.slots, x))
  {
    if !HasId(store, v.id) {
      RemoveIdEffect(before, v.id);
    }
  }

  /** The book offered last is not yet on a table made of the snapshot's
      books followed by slots for the books offered before it. */
  lemma AdditionFresh(old_: seq<Slot>, table: seq<Slot>, books: seq<Book>, snapshot: seq<Slot>)
    requires |books| > 0 && DistinctIds(books)
    requires old_ <= table
    requires forall i :: 0 <= i < |old_| ==> OnShelf(snapshot, old_[i].id)
    requires forall i :: |old_| <= i < |table| ==> HasId(books[..|books| - 1], table[i].id)
    requires !OnShelf(snapshot, books[|books| - 1].id)
    ensures !OnShelf(table, books[|books| - 1].id)
  {
    var m := |books| - 1;
    forall i | 0 <= i < |table| ensures table[i].id != books[m].id {
      if i < |old_| {
        assert table[i] == old_[i];
      } else {
        var j :| 0 <= j < m && books[..m][j].id == table[i].id;
        assert books[j] == books[..m][j];
      }
    }
  }

  /** The facts the addition half keeps, for a table `r` grown from `st` by
      the books `books`. */
  predicate AddedFrom(st: ShelfState, r: ShelfState, books: seq<Book>, snapshot: seq<Slot>)
  {
    && TableInvariant(r)
    && st.slots <= r.slots
    && (forall i :: |st.slots| <= i < |r.slots| ==> HasId(books, r.slots[i].id))
    && (forall j :: 0 <= j < |books| && !OnShelf(snapshot, books[j].id) ==>
          OnShelf(r.slots, books[j].id) || |r.slots| == SHELF_CAPACITY)
  }

  /** An id held by a prefix of a list is held by the list. */
  lemma PrefixIds(books: seq<Book>, m: nat)
    requires m <= |books|
    ensures forall id :: HasId(books[..m], id) ==> HasId(books, id)
  {
    forall id | HasId(books[..m], id) ensures HasId(books, id) {
      var j :| 0 <= j < m && books[..m][j].id == id;
      assert books[j] == books[..m][j];
    }
  }

  /** A table that only grows at its end keeps every id it held. */
  lemma SlotsGrow(a: seq<Slot>, b: seq<Slot>)
    requires a <= b
    ensures forall id :: OnShelf(a, id) ==> OnShelf(b, id)
  {
    forall id | OnShelf(a, id) ensures OnShelf(b, id) {
      var i :| 0 <= i < |a| && SlotIds(a)[i] == id;
      assert SlotIds(b)[i] == id;
    }
  }

  /** A step that skips a book of the snapshot keeps AddedFrom. */
  lemma AdditionStepSkip(st: ShelfState, before: ShelfState, books: seq<Book>, snapshot: seq<Slot>)
    requires |books| > 0 && OnShelf(snapshot, books[|books| - 1].id)
    requires AddedFrom(st, before, books[..|books| - 1], snapshot)
    ensures AddedFrom(st, before, books, snapshot)
  {
    var m := |books| - 1;
    PrefixIds(books, m);
    forall j | 0 <= j < |books| && !OnShelf(snapshot, books[j].id)
      ensures OnShelf(before.slots, books[j].id) || |before.slots| == SHELF_CAPACITY
    {
      assert books[..m][j] == books[j];
    }
  }

  /** A step that offers a book missing from the snapshot to placement
      keeps AddedFrom. */
  lemma AdditionStepPlace(st: ShelfState, before: ShelfState, books: seq<Book>, rand: real, snapshot: seq<Slot>)
    requires |books| > 0 && DistinctIds(books) && 0.0 <= rand < 1.0
    requires forall i :: 0 <= i < |st.slots| ==> OnShelf(snapshot, st.slots[i].id)
    requires !OnShelf(snapshot, books[|books| - 1].id)
    requires AddedFrom(st, before, books[..|books| - 1], snapshot)
    ensures AddedFrom(st, Place(before, books[|books| - 1], RowCount(before.slots), rand), books, snapshot)
  {
    var m := |books| - 1;
    var b := books[m];
    var r := Place(before, b, RowCount(before.slots), rand);
    AdditionFresh(st.slots, before.slots, books, snapshot);
    PlaceKeepsInvariant(before, b, rand);
    PackedRowCount(before.slots);
    PrefixIds(books, m);
    SlotsGrow(before.slots, r.slots);
    if |before.slots| < SHELF_CAPACITY {
      assert SlotIds(r.slots)[|before.slots|] == b.id;
    }
    forall i | |st.slots| <= i < |r.slots| ensures HasId(books, r.slots[i].id) {
      if i < |before.slots| {
        assert r.slots[i] == before.slots[i];
      }
    }
    forall j | 0 <= j < |books| && !OnShelf(snapshot, books[j].id)
      ensures OnShelf(r.slots, books[j].id) || |r.slots| == SHELF_CAPACITY
    {
      if j < m {
        assert books[..m][j] == books[j];
      }
    }
  }

  /** One step of the addition half keeps AddedFrom. */
  lemma AdditionStep(st: ShelfState, before: ShelfState, books: seq<Book>, rand: real, snapshot: seq<Slot>)
    requires |books| > 0 && DistinctIds(books) && 0.0 <= rand < 1.0
    requires forall i :: 0 <= i < |st.slots| ==> OnShelf(snapshot, st.slots[i].id)
    requires AddedFrom(st, before, books[..|books| - 1], snapshot)
    ensures var b := books[|books| - 1];
      AddedFrom(st, if OnShelf(snapshot, b.id) then before else Place(before, b, RowCount(before.slots), rand), books, snapshot)
  {
    if OnShelf(snapshot, books[|books| - 1].id) {
      AdditionStepSkip(st, before, books, snapshot);
    } else {
      AdditionStepPlace(st, before, books, rand, snapshot);
    }
  }

  /** What the addition half guarantees when placements count the live table:
      the table stays valid and only grows at its end, each new slot is for
      an offered book, and each offered book that is not in the snapshot ends
      on the shelf unless the row is full. */
  lemma {:induction false} AdditionPassEffect(st: ShelfState, books: seq<Book>, rands: seq<real>, snapshot: seq<Slot>)
    requires |rands| == |books| && Draws(rands)
    requires TableInvariant(st)
    requires DistinctIds(books)
    requires forall i :: 0 <= i < |st.slots| ==> OnShelf(snapshot, st.slots[i].id)
    ensures AddedFrom(st, AdditionPass(st, books, rands, snapshot, LiveCount), books, snapshot)
    decreases |books|
  {
    if books != [] {
      var m := |books| - 1;
      assert DistinctIds(books[..m]);
      AdditionPassEffect(st, books[..m], rands[..m], snapshot);
      AdditionStep(st, AdditionPass(st, books[..m], rands[..m], snapshot, LiveCount), books, rands[m], snapshot);
    }
  }

  /** The corrected pass brings the shelf in step with the store: the table
      stays packed and within capacity, every slot's book is in the store,
      and every store book is on the shelf unless the row is full. */
  lemma ReconcileSyncs(st: ShelfState, store: seq<Book>, rands: seq<real>)
    requires |rands| == |store| && Draws(rands)
    requires TableInvariant(st)
    requires DistinctIds(store)
    ensures var r := Reconcile(st, store, rands);
      && TableInvariant(r)
      && (forall i :: 0 <= i < |r.slots| ==> HasId(store, r.slots[i].id))
      && (forall j :: 0 <= j < |store| ==> OnShelf(r.slots, store[j].id) || |r.slots| == SHELF_CAPACITY)
  {
    var mid := RemovalPass(st, st.slots, store);
    RemovalPassEffect(st, st.slots, store);
    AdditionPassEffect(mid, store, rands, st.slots);
    var r := Reconcile(st, store, rands);
    forall i | 0 <= i < |r.slots| ensures HasId(store, r.slots[i].id) {
      var x := r.slots[i].id;
      assert SlotIds(r.slots)[i] == x;
      if !HasId(store, x) {
        assert OnShelf(mid.slots, x);
        var j :| 0 <= j < |st.slots| && SlotIds(st.slots)[j] == x;
        assert false;
      }
    }
    forall j | 0 <= j < |store| ensures OnShelf(r.slots, store[j].id) || |r.slots| == SHELF_CAPACITY {
      if OnShelf(st.slots, store[j].id) {
        assert HasId(store, store[j].id);
      }
    }
  }

  /** A removal half whose victims are all still in the store does nothing. */
  lemma {:induction false} RemovalPassKeepsStored(st: ShelfState, victims: seq<Slot>, store: seq<Book>)
    requires forall i :: 0 <= i < |victims| ==> HasId(store, victims[i].id)
    ensures RemovalPass(st, victims, store) == st
    decreases |victims|
  {
    if victims != [] {
      RemovalPassKeepsStored(st, victims[..|victims| - 1], store);
    }
  }

  /** An addition half over books that are all on the shelf, or that all
      find the row full, does nothing. */
  lemma {:induction false} AdditionPassSettled(st: ShelfState, books: seq<Book>, rands: seq<real>)
    requires |rands| == |books| && Draws(rands)
    requires forall j :: 0 <= j < |books| ==> OnShelf(st.slots, books[j].id) || RowCount(st.slots) >= SHELF_CAPACITY
    ensures AdditionPass(st, books, rands, st.slots, LiveCount) == st
    decreases |books|
  {
    if books != [] {
      var m := |books| - 1;
      AdditionPassSettled(st, books[..m], rands[..m]);
    }
  }

  /** With the shelf already in step with the store, a pass changes nothing. */
  lemma ReconcileInSync(st: ShelfState, store: seq<Book>, rands: seq<real>)
    requires |rands| == |store| && Draws(rands)
    requires forall i :: 0 <= i < |st.slots| ==> HasId(store, st.slots[i].id)
    requires forall j :: 0 <= j < |store| ==> OnShelf(st.slots, store[j].id)
    ensures Reconcile(st, store, rands) == st
  {
    RemovalPassKeepsStored(st, st.slots, store);
    AdditionPassSettled(st, store, rands);
  }

  /** Running the corrected pass a second time with the same list changes
      nothing, whatever colours the second pass would draw. */
  lemma ReconcileIdempotent(st: ShelfState, store: seq<Book>, rands: seq<real>, rands2: seq<real>)
    requires |rands| == |store| && Draws(rands)
    requires |rands2| == |store| && Draws(rands2)
    requires TableInvariant(st)
    requires DistinctIds(store)
    ensures Reconcile(Reconcile(st, store, rands), store, rands2) == Reconcile(st, store, rands)
  {
    var r := Reconcile(st, store, rands);
    ReconcileSyncs(st, store, rands);
    PackedRowCount(r.slots);
    RemovalPassKeepsStored(r, r.slots, store);
    AdditionPassSettled(r, store, rands2);
  }

  /** An addition half whose frozen count already shows a full row places
      nothing. */
  lemma {:induction false} AdditionPassFrozenFull(st: ShelfState, books: seq<Book>, rands: seq<real>, snapshot: seq<Slot>, n: nat)
    requires |rands| == |books| && Draws(rands)
    requires n >= SHELF_CAPACITY
    ensures AdditionPass(st, books, rands, snapshot, SnapshotCount(n)) == st
    decreases |books|
  {
    if books != [] {
      var m := |books| - 1;
      AdditionPassFrozenFull(st, books[..m], rands[..m], snapshot, n);
    }
  }

  /** The pass as written strands a book: when the shelf is full, the store
      has dropped one of its books and gained one that is not on it, the
      freed slot stays empty and the new book is not placed, while the
      corrected pass ends with more books on the shelf. */
  lemma AsWrittenStrandsFreedSlot(st: ShelfState, store: seq<Book>, rands: seq<real>, gone: nat, added: nat)
    requires |rands| == |store| && Draws(rands)
    requires TableInvariant(st) && |st.slots| == SHELF_CAPACITY
    requires DistinctIds(store)
    requires gone < |st.slots| && !HasId(store, st.slots[gone].id)
    requires added < |store| && !OnShelf(st.slots, store[added].id)
    ensures |ReconcileAsWritten(st, store, rands).slots| < SHELF_CAPACITY
    ensures !OnShelf(ReconcileAsWritten(st, store, rands).slots, store[added].id)
    ensures |ReconcileAsWritten(st, store, rands).slots| < |Reconcile(st, store, rands).slots|
  {
    var mid := RemovalPass(st, st.slots, store);
    RemovalFreesSlot(st, store, gone, added);
    PackedRowCount(st.slots);
    AdditionPassFrozenFull(mid, store, rands, st.slots, RowCount(st.slots));
    AdditionPassEffect(mid, store, rands, st.slots);
    CorrectedPlaces(mid, Reconcile(st, store, rands), store, st.slots, added);
  }

  /** On a full shelf whose store lacks slot `gone`, the removal half frees
      a slot, and it never brings in a book that was not on the shelf. */
  lemma RemovalFreesSlot(st: ShelfState, store: seq<Book>, gone: nat, added: nat)
    requires TableInvariant(st) && |st.slots| == SHELF_CAPACITY
    requires gone < |st.slots| && !HasId(store, st.slots[gone].id)
    requires added < |store| && !OnShelf(st.slots, store[added].id)
    ensures var mid := RemovalPass(st, st.slots, store);
      && TableInvariant(mid)
      && |mid.slots| < SHELF_CAPACITY
      && !OnShelf(mid.slots, store[added].id)
      && forall i :: 0 <= i < |mid.slots| ==> OnShelf(st.slots, mid.slots[i].id)
  {
    var mid := RemovalPass(st, st.slots, store);
    RemovalPassEffect(st, st.slots, store);
    assert OnShelf(st.slots, st.slots[gone].id) by {
      assert SlotIds(st.slots)[gone] == st.slots[gone].id;
    }
    forall i | 0 <= i < |mid.slots| ensures OnShelf(st.slots, mid.slots[i].id) {
      assert SlotIds(mid.slots)[i] == mid.slots[i].id;
    }
  }

  /** When the addition half grows a non-full table that lacks an offered
      book missing from the snapshot, it ends longer than it started. */
  lemma CorrectedPlaces(mid: ShelfState, r: ShelfState, store: seq<Book>, snapshot: seq<Slot>, added: nat)
    requires AddedFrom(mid, r, store, snapshot)
    requires |mid.slots| < SHELF_CAPACITY
    requires added < |store| && !OnShelf(snapshot, store[added].id)
    requires !OnShelf(mid.slots, store[added].id)
    ensures |mid.slots| < |r.slots|
  {
    assert r.slots[..|mid.slots|] == mid.slots;
  }

  /** The store books that the snapshot lacks, that is the books the
      addition half offers to placement. */
  function FreshCount(books: seq<Book>, snapshot: seq<Slot>): (c: nat)
    ensures c <= |books|
    decreases |books|
  {
    if books == [] then 0
    else
      var m := |books| - 1;
      FreshCount(books[..m], snapshot) + if OnShelf(snapshot, books[m].id) then 0 else 1
  }

  /** With a frozen count n below the capacity, the addition half places
      every book it offers, and places all of them at the n-th spot of the
      row. */
  lemma {:induction false} FrozenCountPlacesAll(st: ShelfState, books: seq<Book>, rands: seq<real>, snapshot: seq<Slot>, n: nat)
    requires |rands| == |books| && Draws(rands) && n < SHELF_CAPACITY
    ensures var r := AdditionPass(st, books, rands, snapshot, SnapshotCount(n));
      && |r.slots| == |st.slots| + FreshCount(books, snapshot)
      && forall i :: |st.slots| <= i < |r.slots| ==> r.slots[i].position == Vec3(SlotX(n), ROW_Y, ROW_Z)
    decreases |books|
  {
    if books != [] {
      var m := |books| - 1;
      FrozenCountPlacesAll(st, books[..m], rands[..m], snapshot, n);
    }
  }

  /** Counterexample to the pass as written: on a shelf of fewer than four
      books that are all still stored, every store book new to the shelf is
      placed, and all of them at the first free spot, so two new books share
      one position. */
  lemma AsWrittenStacksBooks(st: ShelfState, store: seq<Book>, rands: seq<real>)
    requires TableInvariant(st)
    requires |rands| == |store| && Draws(rands)
    requires |st.slots| < SHELF_CAPACITY
    requires forall i :: 0 <= i < |st.slots| ==> HasId(store, st.slots[i].id)
    ensures var r := ReconcileAsWritten(st, store, rands);
      && |r.slots| == |st.slots| + FreshCount(store, st.slots)
      && r.slots[..|st.slots|] == st.slots
      && (forall i :: |st.slots| <= i < |r.slots| ==>
            r.slots[i].position == Vec3(SlotX(|st.slots|), ROW_Y, ROW_Z))
      && (FreshCount(store, st.slots) >= 2 ==>
            r.slots[|st.slots|].position == r.slots[|st.slots| + 1].position)
  {
    RemovalPassKeepsStored(st, st.slots, store);
    PackedRowCount(st.slots);
    FrozenCountPlacesAll(st, store, rands, st.slots, |st.slots|);
  }

  /** On a shelf with room, more new books than free spots make the pass
      as written leave a table that breaks the four-book row, while the
      corrected pass keeps it valid. */
  lemma AsWrittenOverfills(st: ShelfState, store: seq<Book>, rands: seq<real>)
    requires TableInvariant(st) && DistinctIds(store)
    requires |rands| == |store| && Draws(rands)
    requires forall i :: 0 <= i < |st.slots| ==> HasId(store, st.slots[i].id)
    requires |st.slots| < SHELF_CAPACITY < |st.slots| + FreshCount(store, st.slots)
    ensures |ReconcileAsWritten(st, store, rands).slots| > SHELF_CAPACITY
    ensures !TableInvariant(ReconcileAsWritten(st, store, rands))
    ensures TableInvariant(Reconcile(st, store, rands))
  {
    AsWrittenStacksBooks(st, store, rands);
    ReconcileSyncs(st, store, rands);
  }

  // ---------------------------------------------------------------------
  // Scene-graph membership of the book groups

  /** Handle of the bookshelf group itself; book groups get handles from 1. */
  const SHELF_GROUP: nat := 0

  /** The scene's direct children and the bookshelf group's children. */
  datatype SceneGraph = SceneGraph(sceneChildren: seq<nat>, shelfChildren: seq<nat>)

  /** A group is drawn when the scene holds it, or holds the bookshelf group
      that holds it. */
  predicate Rendered(g: SceneGraph, h: nat)
  {
    h in g.sceneChildren || (SHELF_GROUP in g.sceneChildren && h in g.shelfChildren)
  }

  /** `parent.remove(h)`: detaches h only when it is a direct child. */
  function RemoveChild(children: seq<nat>, h: nat): seq<nat>
  {
    Filter(children, (c: nat) => c != h)
  }

  /** `bookshelf.add(bookGroup)` */
  function Attach(g: SceneGraph, h: nat): (r: SceneGraph)
    ensures r.sceneChildren == g.sceneChildren
    ensures SHELF_GROUP in g.sceneChildren ==> Rendered(r, h)
  {
    g.(shelfChildren := g.shelfChildren + [h])
  }

  /** `scene.remove(book.mesh)`, as written: the book group is a child of
      the bookshelf group, not of the scene. */
  function DetachAsWritten(g: SceneGraph, h: nat): (r: SceneGraph)
    ensures h !in r.sceneChildren && r.shelfChildren == g.shelfChildren
  {
    g.(sceneChildren := RemoveChild(g.sceneChildren, h))
  }

  /** Detaching the book group from the group that holds it. */
  function Detach(g: SceneGraph, h: nat): (r: SceneGraph)
    ensures h !in r.shelfChildren && r.sceneChildren == g.sceneChildren
  {
    g.(shelfChildren := RemoveChild(g.shelfChildren, h))
  }

  /** As written, removing a placed book leaves its group drawn. */
  lemma DetachAsWrittenLeavesMesh(g: SceneGraph, h: nat)
    requires SHELF_GROUP in g.sceneChildren && h !in g.sceneChildren
    requires h in g.shelfChildren
    ensures DetachAsWritten(g, h) == g
    ensures Rendered(DetachAsWritten(g, h), h)
  {
    forall i | 0 <= i < |g.sceneChildren| ensures g.sceneChildren[i] != h { }
    FilterKeepsAll(g.sceneChildren, (c: nat) => c != h);
  }

  /** Detaching from the bookshelf group hides exactly that group. */
  lemma DetachHidesMesh(g: SceneGraph, h: nat)
    requires h !in g.sceneChildren
    ensures !Rendered(Detach(g, h), h)
    ensures forall k :: k != h ==> (Rendered(Detach(g, h), k) <==> Rendered(g, k))
  {
  }

  /** With increasing handles, detaching slot k's group from the group list
      of the table removes that one entry. */
  lemma DetachSlot(slots: seq<Slot>, k: nat)
    requires k < |slots|
    requires forall i, j :: 0 <= i < j < |slots| ==> slots[i].mesh.handle < slots[j].mesh.handle
    ensures RemoveChild(Handles(slots), slots[k].mesh.handle) == Handles(slots[..k]) + Handles(slots[k+1..])
  {
    var hs := Handles(slots);
    FilterDropsOne(hs, (c: nat) => c != slots[k].mesh.handle, k);
    assert hs[..k] == Handles(slots[..k]);
    assert hs[k+1..] == Handles(slots[k+1..]);
  }

  // ---------------------------------------------------------------------
  // Tap selection, after the raycast

  /** `storeBooks.find(b => b.id === id)` */
  function FindBook(books: seq<Book>, id: string): (r: Option<Book>)
    ensures r.Some? ==> r.value in books && r.value.id == id
    ensures r.None? <==> !HasId(books, id)
    decreases |books|
  {
    if books == [] then None
    else if books[0].id == id then Some(books[0])
    else
      var r := FindBook(books[1..], id);
      assert HasId(books, id) ==> HasId(books[1..], id) by {
        if HasId(books, id) {
          var i :| 0 <= i < |books| && books[i].id == id;
          assert books[1..][i - 1].id == id;
        }
      }
      assert r.Some? ==> books[1..][0] == books[1];
      r
  }

  /** Index of the first slot whose group is `h`. */
  function FindSlotByMesh(slots: seq<Slot>, h: nat): (r: Option<nat>)
    ensures r.Some? ==> r.value < |slots| && slots[r.value].mesh.handle == h
                        && forall i :: 0 <= i < r.value ==> slots[i].mesh.handle != h
    ensures r.None? ==> forall i :: 0 <= i < |slots| ==> slots[i].mesh.handle != h
    decreases |slots|
  {
    if slots == [] then None
    else if slots[0].mesh.handle == h then Some(0)
    else
      match FindSlotByMesh(slots[1..], h)
      case None => None
      case Some(k) => Some(k + 1)
  }

  /** The book a tap selects, given the group `hit` that the nearest hit
      belongs to (None when the ray hits nothing): the store book of the first
      slot owning that group, or nothing. */
  function SelectBook(slots: seq<Slot>, store: seq<Book>, hit: Option<nat>): (r: Option<Book>)
    ensures hit.None? ==> r.None?
    ensures r.Some? ==> r.value in store
    ensures r.Some? ==>
      exists i :: 0 <= i < |slots| && slots[i].mesh.handle == hit.value && slots[i].id == r.value.id
    ensures r.None? && hit.Some? ==>
      forall i :: (0 <= i < |slots| && slots[i].mesh.handle == hit.value &&
                   forall k :: 0 <= k < i ==> slots[k].mesh.handle != hit.value)
                  ==> !HasId(store, slots[i].id)
  {
    match hit
    case None => None
    case Some(h) =>
      match FindSlotByMesh(slots, h)
      case None => None
      case Some(i) => FindBook(store, slots[i].id)
  }
}
