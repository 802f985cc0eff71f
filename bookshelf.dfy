/** The shelf component's scene state as the component mutates it
    (src/components/Bookshelf.tsx): the `shelfBooks` table, the groups under
    the bookshelf group, and the reconciliation effect's two loops. Each
    method is proved against the value-level definitions of ShelfSlots. */
module Bookshelf {
  import opened JsArray
  import opened BookModel
  import opened ShelfSlots

  /** The state RemoveBook leaves behind is valid, with the victim's group
      no longer drawn. */
  lemma RemoveBookValid(st: ShelfState, g: SceneGraph, victim: Slot)
    requires TableInvariant(st) && g == SceneGraph([SHELF_GROUP], Handles(st.slots))
    requires victim in st.slots
    ensures TableInvariant(Unplace(st, victim))
    ensures Detach(g, victim.mesh.handle) == SceneGraph([SHELF_GROUP], Handles(Unplace(st, victim).slots))
    ensures !Rendered(Detach(g, victim.mesh.handle), victim.mesh.handle)
  {
    var k :| 0 <= k < |st.slots| && st.slots[k] == victim;
    UnplaceKeepsInvariant(st, k);
    DetachSlot(st.slots, k);
    DetachHidesMesh(g, victim.mesh.handle);
  }

  /** Placing a book on a row with room appends its new slot, keeps the
      table valid, and attaching its group keeps the scene in step. */
  lemma AddBookValid(st: ShelfState, g: SceneGraph, book: Book, rand: real)
    requires TableInvariant(st) && g == SceneGraph([SHELF_GROUP], Handles(st.slots))
    requires !OnShelf(st.slots, book.id) && 0.0 <= rand < 1.0
    requires RowCount(st.slots) < SHELF_CAPACITY
    ensures var s := NewSlot(book, RowCount(st.slots), ExtractColorFromCover(book.coverUrl, rand), st.nextHandle);
      var r := ShelfState(st.slots + [s], st.nextHandle + 1);
      && Place(st, book, RowCount(st.slots), rand) == r
      && TableInvariant(r)
      && Attach(g, st.nextHandle) == SceneGraph([SHELF_GROUP], Handles(r.slots))
  {
    PlaceKeepsInvariant(st, book, rand);
    var s := NewSlot(book, RowCount(st.slots), ExtractColorFromCover(book.coverUrl, rand), st.nextHandle);
    assert Handles(st.slots + [s]) == Handles(st.slots) + [st.nextHandle];
  }

  /** One iteration of the removal loop is one step of RemovalPass. */
  lemma RemovalLoopStep(st0: ShelfState, victims: seq<Slot>, i: nat, store: seq<Book>)
    requires i < |victims|
    ensures var before := RemovalPass(st0, victims[..i], store);
      RemovalPass(st0, victims[..i + 1], store) ==
        if HasId(store, victims[i].id) then before else RemoveId(before, victims[i].id)
  {
    assert victims[..i + 1][..i] == victims[..i];
  }

  /** After the removal half, every slot left comes from the snapshot. */
  lemma RemovalLeavesSnapshotIds(st0: ShelfState, store: seq<Book>)
    requires TableInvariant(st0)
    ensures var mid := RemovalPass(st0, st0.slots, store);
      && TableInvariant(mid)
      && forall i :: 0 <= i < |mid.slots| ==> OnShelf(st0.slots, mid.slots[i].id)
  {
    var mid := RemovalPass(st0, st0.slots, store);
    RemovalPassEffect(st0, st0.slots, store);
    forall i | 0 <= i < |mid.slots| ensures OnShelf(st0.slots, mid.slots[i].id) {
      assert SlotIds(mid.slots)[i] == mid.slots[i].id;
    }
  }

  /** One iteration of the addition loop is one step of AdditionPass with
      live counting, and a book it offers is not yet on the shelf. */
  lemma AdditionLoopStep(mid: ShelfState, store: seq<Book>, rands: seq<real>, snapshot: seq<Slot>, j: nat)
    requires TableInvariant(mid) && j < |store| == |rands| && Draws(rands) && DistinctIds(store)
    requires forall i :: 0 <= i < |mid.slots| ==> OnShelf(snapshot, mid.slots[i].id)
    ensures Draws(rands[..j]) && Draws(rands[..j + 1])
    ensures var before := AdditionPass(mid, store[..j], rands[..j], snapshot, LiveCount);
      && AdditionPass(mid, store[..j + 1], rands[..j + 1], snapshot, LiveCount) ==
           (if OnShelf(snapshot, store[j].id) then before
            else Place(before, store[j], RowCount(before.slots), rands[j]))
      && (!OnShelf(snapshot, store[j].id) ==> !OnShelf(before.slots, store[j].id))
  {
    assert store[..j + 1][..j] == store[..j] && rands[..j + 1][..j] == rands[..j];
    if !OnShelf(snapshot, store[j].id) {
      AdditionPassEffect(mid, store[..j], rands[..j], snapshot);
      AdditionFresh(mid.slots, AdditionPass(mid, store[..j], rands[..j], snapshot, LiveCount).slots, store[..j + 1], snapshot);
    }
  }

  class Shelf {
    /** `shelfBooks`, in insertion order. */
    var slots: seq<Slot>
    /** The handle the next book group receives. */
    var nextHandle: nat
    /** The scene's children and the bookshelf group's children. */
    var graph: SceneGraph

    function State(): ShelfState
      reads this
    {
      ShelfState(slots, nextHandle)
    }

    /** The table is valid and the bookshelf group holds exactly the groups
        of the slots, in order, under a scene that holds the bookshelf. */
    ghost predicate Valid()
      reads this
    {
      TableInvariant(State()) && graph == SceneGraph([SHELF_GROUP], Handles(slots))
    }

    /** The state once the GL context exists: an empty shelf whose group has
        been added to the scene. */
    constructor ()
      ensures Valid() && slots == [] && graph.shelfChildren == []
    {
      slots := [];
      nextHandle := 1;
      graph := SceneGraph([SHELF_GROUP], []);
    }

    /** `addBookToShelf(book)`, counting the occupants of the live table; the
        colour draw `rand` stands for `Math.random()`. */
    method AddBookToShelf(book: Book, rand: real)
      requires Valid() && !OnShelf(slots, book.id) && 0.0 <= rand < 1.0
      modifies this
      ensures Valid()
      ensures State() == Place(old(State()), book, RowCount(old(slots)), rand)
      ensures graph.shelfChildren ==
        if RowCount(old(slots)) >= SHELF_CAPACITY then old(graph.shelfChildren)
        else old(graph.shelfChildren) + [old(nextHandle)]
    {
      var booksOnShelf := RowCount(slots);
      if booksOnShelf >= SHELF_CAPACITY {
        return;
      }
      ghost var st := State();
      AddBookValid(st, graph, book, rand);
      var coverColor := ExtractColorFromCover(book.coverUrl, rand);
      var xPosition := ROW_LEFT_X + (booksOnShelf as real) * (BOOK_WIDTH + BOOK_SPACING);
      var at := Vec3(xPosition, ROW_Y, ROW_Z);
      var sceneBook := Slot(book.id, book.title, 0, at, MeshRef(nextHandle, at), coverColor);
      assert at == Vec3(SlotX(booksOnShelf), ROW_Y, ROW_Z);
      assert sceneBook == NewSlot(book, booksOnShelf, coverColor, st.nextHandle);
      graph := Attach(graph, nextHandle);
      slots := slots + [sceneBook];
      nextHandle := nextHandle + 1;
      assert State() == ShelfState(st.slots + [sceneBook], st.nextHandle + 1);
    }

    /** `removeBook(victim)`: detaches the victim's group, moves every
        same-row slot right of it (slot and group together) one stride left
        in place, then drops the victim from the table. */
    method RemoveBook(victim: Slot)
      requires Valid() && victim in slots
      modifies this
      ensures Valid()
      ensures State() == Unplace(old(State()), victim)
      ensures !Rendered(graph, victim.mesh.handle)
    {
      ghost var st0, g0 := State(), graph;
      var row := slots;
      var i := 0;
      while i < |row|
        invariant 0 <= i <= |row| == |st0.slots|
        invariant forall j :: 0 <= j < i ==> row[j] == ShiftRow(st0.slots, victim)[j]
        invariant forall j :: i <= j < |row| ==> row[j] == st0.slots[j]
      {
        if ShiftsFor(row[i], victim) {
          row := row[i := ShiftLeft(row[i])];
        }
        i := i + 1;
      }
      assert row == ShiftRow(st0.slots, victim);
      RemoveBookValid(st0, g0, victim);
      graph := Detach(graph, victim.mesh.handle);
      slots := Filter(row, SlotIdIsNot(victim.id));
    }

    /** The reconciliation effect: a snapshot of the table is taken; each of
        its slots whose id the store lacks is removed (looked up by id in the
        live table, where it still stands with any shifts applied); then each
        store book whose id the snapshot lacks is offered to placement with
        its own colour draw. */
    method Reconcile(store: seq<Book>, rands: seq<real>)
      requires Valid() && DistinctIds(store)
      requires |rands| == |store| && Draws(rands)
      modifies this
      ensures Valid()
      ensures State() == ShelfSlots.Reconcile(old(State()), store, rands)
    {
      var snapshot := slots;
      ghost var st0 := State();
      for i := 0 to |snapshot|
        invariant Valid()
        invariant State() == RemovalPass(st0, snapshot[..i], store)
      {
        RemovalLoopStep(st0, snapshot, i, store);
        var shelfBook := snapshot[i];
        var isInStore := HasId(store, shelfBook.id);
        if !isInStore {
          var k := FindSlot(slots, shelfBook.id);
          if k.Some? {
            RemoveBook(slots[k.value]);
          }
        }
      }
      assert snapshot[..|snapshot|] == snapshot;
      ghost var mid := State();
      RemovalLeavesSnapshotIds(st0, store);
      for j := 0 to |store|
        invariant Valid()
        invariant State() == AdditionPass(mid, store[..j], rands[..j], snapshot, LiveCount)
      {
        AdditionLoopStep(mid, store, rands, snapshot, j);
        var book := store[j];
        if !OnShelf(snapshot, book.id) {
          AddBookToShelf(book, rands[j]);
        }
      }
      assert store[..|store|] == store && rands[..|rands|] == rands;
    }
  }
}
