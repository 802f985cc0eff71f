# Bookshelf app: a Dafny model of its book logic

The app is a React Native bookshelf. Users search Google Books and add
volumes to a collection store. A three.js scene then lays those books out
on the top row of a wooden shelf, a row meant for four books (see
"## Findings": as written, one pass can stack new books on one spot and
overfill the row). Users can tilt the shelf by
dragging and tap a book to open its details.

This project models the logic under that UI and proves what it promises.

- **The collection store** (`useBookStore`) and the earlier React-context
  store (`BookContext`) are modelled as functions on `seq<Book>`.
- **The shelf's slot table** is modelled twice:
  - as values in module `ShelfSlots`, covering placement, removal with
    re-packing, the reconciliation pass, the cover palette, the scene-graph
    membership of book groups, and the tap lookup;
  - as a class `Bookshelf.Shelf`, whose methods update the table in place
    and are proved against those values.
- **The pan gesture and per-frame easing** are modelled as pure rules in
  `Gesture`, plus a `PanController` class holding the mutable refs.
- **The tap-to-device-coordinate mapping** and its inverse are in
  `TapMapping`.
- **The search page** (`Search`) covers the trimmed-query guard and the
  conversion of a selected volume into a store book.

Coordinates and rotations are Dafny `real`s, which are exact. The constants
are short decimals, and the properties are about clamping, offsets and
membership. `Math.random()` becomes a parameter `rand` in [0, 1). The fetch
result becomes a `Response` parameter. The object the ray cast hits becomes
an optional group handle.

Modules, in dependency order:

| file | module |
|---|---|
| js_array.dfy | `JsArray`: JavaScript's `filter`, and counting |
| book_model.dfy | `BookModel`: the `Book` record and id queries |
| book_store.dfy | `BookStore`: the collection store |
| book_context.dfy | `BookContext`: the context store |
| shelf_slots.dfy | `ShelfSlots`: the shelf table as values |
| bookshelf.dfy | `Bookshelf`: the shelf table as a mutable class |
| tap_mapping.dfy | `TapMapping`: screen coordinates to device coordinates |
| gesture.dfy | `Gesture`: drag, easing, tap refs |
| search.dfy | `Search`: query guard and result selection |

## Model

| member | source | states |
|---|---|---|
| JsArray.Filter | src/store/useBookStore.ts:26 | `filter` returns exactly the elements that pass the test, each taken from the input, as an order-preserving subsequence; its length is the count of passing elements |
| BookModel.CountIdPositive | src/store/useBookStore.ts:9-11 | `some(b => b.id === id)` holds exactly when at least one book carries the id |
| BookModel.SubsequenceKeepsDistinct | src/store/useBookStore.ts:26 | a subsequence of a list with distinct ids has distinct ids |
| BookStore.AddBook | src/store/useBookStore.ts:6-23 | a duplicate id leaves the list unchanged. A fresh id appends exactly one book after the old list, with the same id, title, authors and cover and with position {0,0,0,0}. Either way the id is then present |
| BookStore.RemoveBook | src/store/useBookStore.ts:24-27 | no book with the id remains, and the rest keep their order (a subsequence). Every other book survives, the length drops by the number of copies of the id, and an absent id leaves the list unchanged |
| BookStore.UpdateBookPosition | src/store/useBookStore.ts:28-33 | the length is kept, and so are the id, title, authors and cover of every book. Position changes exactly on the books carrying the id, and an absent id changes nothing |
| BookStore.AddBookKeepsDistinct | src/store/useBookStore.ts:9-22 | adding keeps ids pairwise distinct |
| BookStore.RemoveBookKeepsDistinct | src/store/useBookStore.ts:24-27 | removing keeps ids pairwise distinct |
| BookStore.UpdateBookPositionKeepsDistinct | src/store/useBookStore.ts:28-33 | moving a book keeps ids pairwise distinct |
| BookStore.AddBookIdempotent | src/store/useBookStore.ts:9-15 | adding the same book twice is the same as adding it once |
| BookStore.AddThenRemove | src/store/useBookStore.ts:6-27 | for an id not in the list, removing it after adding the book gives back the original list |
| BookStore.UpdateThenRemove | src/store/useBookStore.ts:24-33 | removing an id after moving it is the same as removing it directly |
| BookContext.AddBook | BookContext.js:8-10 | always appends the book unchanged after the old list. The number of books carrying its id grows by one |
| BookContext.RemoveBook | BookContext.js:12-14 | no book with the id remains, the others survive in order, the length drops by the copy count, and an absent id changes nothing |
| BookContext.AddBookAdmitsDuplicate | BookContext.js:8-10 | adding a book whose id is present leaves at least two books with that id, so ids are no longer distinct |
| BookContext.DuplicateAddContrast | BookContext.js:8-10 | from the same duplicate-free list and a repeated id, the collection store returns the list unchanged and distinct, while the context store breaks distinctness |
| BookContext.RemoveDropsEveryCopy | BookContext.js:8-14 | one removal after two adds of the same book equals removing from the original list |
| ShelfSlots.ColourIndex | src/components/Bookshelf.tsx:66 | `Math.floor(rand * 15)` is a valid palette index, the floor of rand·15 |
| ShelfSlots.ExtractColorFromCover | src/components/Bookshelf.tsx:48-67 | the colour is always one of the 15 palette entries |
| ShelfSlots.PackedRowCount | src/components/Bookshelf.tsx:187 | when every slot is on the first row, the row count is the table length |
| ShelfSlots.Place | src/components/Bookshelf.tsx:183-252 | with 4 or more occupants counted, nothing changes. Otherwise exactly one slot is appended after the old table. It has the book's id and title, shelfIndex 0, position (-0.9 + n·0.55, 1.1, -0.22), a group at the same position with a fresh handle, and a palette colour |
| ShelfSlots.PlaceKeepsInvariant | src/components/Bookshelf.tsx:187-251 | placing a book that is not on the shelf, counting the live table, keeps the table packed, within capacity, with distinct ids and fresh increasing handles |
| ShelfSlots.Unplace | src/components/Bookshelf.tsx:254-271 | the victim's id is gone afterwards, the table does not grow, and the handle counter is unchanged |
| ShelfSlots.Moved | src/components/Bookshelf.tsx:257-268 | a surviving slot keeps every field except x. Its slot x and group x both drop by exactly 0.55 when it is on the victim's row right of the victim, and are untouched otherwise |
| ShelfSlots.UnplaceAt | src/components/Bookshelf.tsx:254-270 | removing the slot at k (its id unique) deletes exactly that slot. Every other slot stays, in order, as `Moved` describes |
| ShelfSlots.UnplaceKeepsInvariant | src/components/Bookshelf.tsx:254-270 | removal from a valid table leaves a valid, re-packed table. Its ids and group handles are the old ones minus the victim's |
| ShelfSlots.FindSlot | src/components/Bookshelf.tsx:169-171 | finds a slot carrying the id exactly when the table holds it |
| ShelfSlots.RemoveIdEffect | src/components/Bookshelf.tsx:156-159 | removing by id keeps the table valid. An id stays on the shelf exactly when it was there and is not the removed one |
| ShelfSlots.RemoveId | src/components/Bookshelf.tsx:156-159 | an id absent from the table leaves the state unchanged. The handle counter is kept and the table does not grow; `RemoveIdEffect` states what it removes |
| ShelfSlots.RemovalPass | src/components/Bookshelf.tsx:152-160 | the removal loop over the snapshot never grows the table and keeps the handle counter; `RemovalPassEffect` states which ids it removes and keeps |
| ShelfSlots.AdditionPass | src/components/Bookshelf.tsx:162-180 | the addition loop only appends, at most one slot per offered book, and advances the handle counter by the number appended; `AdditionPassEffect` and `FrozenCountPlacesAll` state what each counting mode places |
| ShelfSlots.Reconcile | src/components/Bookshelf.tsx:142-181 | the corrected pass (each placement counts the live table) grows the table by at most the store's size and never lowers the handle counter; `ReconcileSyncs` states that it leaves the shelf valid and in step with the store |
| ShelfSlots.ReconcileAsWritten | src/components/Bookshelf.tsx:142-193 | the pass as written (every placement reads the snapshot's count) grows the table by at most the store's size and never lowers the handle counter; `AsWrittenStrandsFreedSlot` and `AsWrittenStacksBooks` state how it departs from the corrected pass |
| ShelfSlots.RemovalPassEffect | src/components/Bookshelf.tsx:152-160 | the removal loop keeps the table valid, never adds ids, keeps every stored id, and removes every victim whose id the store lacks |
| ShelfSlots.AdditionPassEffect | src/components/Bookshelf.tsx:162-180 | the addition loop with a live count extends the table. Each new slot's book comes from the store, and each store book missing from the snapshot ends on the shelf unless the row is full |
| ShelfSlots.ReconcileSyncs | src/components/Bookshelf.tsx:142-181 | after a pass, the table is valid, every slot's book is in the store, and every store book is on the shelf unless the row is full |
| ShelfSlots.RemovalPassKeepsStored | src/components/Bookshelf.tsx:152-160 | when every victim is still in the store, the removal loop changes nothing |
| ShelfSlots.AdditionPassSettled | src/components/Bookshelf.tsx:162-180 | when every store book is on the shelf or the row is full, the addition loop changes nothing |
| ShelfSlots.ReconcileInSync | src/components/Bookshelf.tsx:142-181 | a shelf already in step with the store is left unchanged |
| ShelfSlots.ReconcileIdempotent | src/components/Bookshelf.tsx:142-181 | a second pass with the same store list changes nothing, whatever colours it would draw |
| ShelfSlots.AdditionPassFrozenFull | src/components/Bookshelf.tsx:187-193 | an addition loop that reads a frozen count of 4 or more places nothing |
| ShelfSlots.AsWrittenStrandsFreedSlot | src/components/Bookshelf.tsx:187-193 | counterexample to the pass as written. A full shelf whose store dropped one book and gained another ends with a free slot, and the new book is not placed; the corrected pass ends with more books |
| ShelfSlots.FrozenCountPlacesAll | src/components/Bookshelf.tsx:187-234 | with a frozen count n below 4, the addition loop places every book the snapshot lacks, each at x = -0.9 + n·0.55 |
| ShelfSlots.AsWrittenStacksBooks | src/components/Bookshelf.tsx:162-234 | counterexample to the pass as written. On a shelf of fewer than four books that are all still stored, every new store book is placed, after the old slots and all at the first free spot, so two new books share a position |
| ShelfSlots.AsWrittenOverfills | src/components/Bookshelf.tsx:162-234 | counterexample to the pass as written. On such a shelf, more new books than free spots leave a table of over four slots that breaks the row's invariant, while the corrected pass on the same input keeps it valid |
| ShelfSlots.Attach | src/components/Bookshelf.tsx:250 | `bookshelf.add` leaves the scene's children alone, and draws the new group when the bookshelf group is in the scene |
| ShelfSlots.DetachAsWritten | src/components/Bookshelf.tsx:255 | `scene.remove` as written takes the group out of the scene's direct children only and leaves the bookshelf group's children as they were |
| ShelfSlots.Detach | src/components/Bookshelf.tsx:255 | the corrected removal takes the group out of the bookshelf group's children and leaves the scene's children alone |
| ShelfSlots.DetachAsWrittenLeavesMesh | src/components/Bookshelf.tsx:255 | `scene.remove` of a group held by the bookshelf group leaves the scene graph unchanged and the group still drawn |
| ShelfSlots.DetachHidesMesh | src/components/Bookshelf.tsx:250 | removing the group from the bookshelf group hides exactly that group |
| ShelfSlots.DetachSlot | src/components/Bookshelf.tsx:250-255 | detaching slot k's group removes exactly that entry from the ordered group list |
| ShelfSlots.FindBook | src/components/Bookshelf.tsx:322 | `storeBooks.find` by id returns a store book with that id, and returns nothing exactly when none exists |
| ShelfSlots.FindSlotByMesh | src/components/Bookshelf.tsx:317-319 | finds the first slot owning the hit group, or reports that none does |
| ShelfSlots.SelectBook | src/components/Bookshelf.tsx:315-327 | no hit selects nothing. A selected book is a store book whose id is that of a slot owning the hit group. Nothing is selected only when the first such slot's book is not in the store |
| Bookshelf.RemoveBookValid | src/components/Bookshelf.tsx:254-270 | removing a slot from a valid table with a consistent scene gives a valid table. The bookshelf group then holds exactly the survivors' groups and no longer draws the victim |
| Bookshelf.RemovalLoopStep | src/components/Bookshelf.tsx:152-160 | one iteration of the removal loop is one step of the removal pass |
| Bookshelf.RemovalLeavesSnapshotIds | src/components/Bookshelf.tsx:152-160 | after the removal loop the table is valid, and each remaining slot comes from the snapshot |
| Bookshelf.AdditionLoopStep | src/components/Bookshelf.tsx:162-180 | one iteration of the addition loop is one placement step counting the live table, and the book it offers is not yet on the shelf |
| Bookshelf.Shelf.constructor | src/components/Bookshelf.tsx:76 | the shelf starts empty and valid, with no book groups |
| Bookshelf.Shelf.AddBookToShelf | src/components/Bookshelf.tsx:183-252 | the new table is `Place` of the old at the live row count. The bookshelf group gains the new group exactly when a slot was appended, and the table stays valid |
| Bookshelf.Shelf.RemoveBook | src/components/Bookshelf.tsx:254-271 | the in-place shift loop followed by the filter yields `Unplace` of the old table, and the table stays valid. It applies the corrected detach of the line 255 finding (`ShelfSlots.Detach`, removal from the bookshelf group), so the victim's group is no longer drawn; the code as written leaves it drawn |
| Bookshelf.Shelf.Reconcile | src/components/Bookshelf.tsx:142-181 | the two `forEach` loops over the snapshot and the store yield the corrected pass `ShelfSlots.Reconcile`, keeping the table and scene valid |
| TapMapping.TapToNdc | src/components/Bookshelf.tsx:308-309 | a point in the window maps into [-1, 1]². The left half maps to negative x and the top half to positive y |
| TapMapping.NdcToScreen | src/components/Bookshelf.tsx:388-389 | device coordinates in [-1, 1]² map to a point in the window |
| TapMapping.TapRoundTrip | src/components/Bookshelf.tsx:308-309 | mapping a tap to device coordinates and back gives the tap |
| TapMapping.NdcRoundTrip | src/components/Bookshelf.tsx:388-389 | mapping device coordinates to the screen and back gives them again |
| Gesture.Clamp | src/components/Bookshelf.tsx:289-292 | the result lies in [-0.52, 0.52] and equals the input when that is in range. Beyond either limit it is the limit |
| Gesture.Apply | src/components/Bookshelf.tsx:277-299 | grant records x and starts a drag, leaving the target alone. A move while not dragging changes nothing. A move while dragging records x and sets the target to target + Δx·0.005 when that is in range, to 0.52 when it is above, and to -0.52 when it is below. Release ends the drag with target 0 |
| Gesture.Run | src/components/Bookshelf.tsx:277-299 | the refs after a sequence of pan callbacks in order; without a grant among them, a shelf not being dragged stays undragged |
| Gesture.RunStaysInRange | src/components/Bookshelf.tsx:277-299 | after any sequence of grant, move and release, the target stays in [-0.52, 0.52] |
| Gesture.StrayMovesIgnored | src/components/Bookshelf.tsx:282 | moves arriving while no drag is in progress change nothing |
| Gesture.DragTelescopes | src/components/Bookshelf.tsx:281-294 | while no position of a drag leaves the range, the target turns by the total travel times 0.005, however the travel was split into moves |
| Gesture.ReleaseRecentres | src/components/Bookshelf.tsx:296-299 | ending with a release gives target 0 and no drag |
| Gesture.Ease | src/components/Bookshelf.tsx:364-371 | a difference up to 0.001 leaves the rotation unchanged. A larger one moves it strictly closer to the target without overshooting, to exactly 0.9 of the old distance |
| Gesture.EaseNApproaches | src/components/Bookshelf.tsx:364-371 | any number of frames never moves the rotation away from a fixed target |
| Gesture.EaseNRate | src/components/Bookshelf.tsx:364-371 | while still more than 0.001 from the target, n frames have shrunk the distance by exactly 0.9ⁿ |
| Gesture.EaseStaysInRange | src/components/Bookshelf.tsx:364-368 | a frame keeps the rotation in the tilt range when it and the target start there |
| Gesture.PanController.constructor | src/components/Bookshelf.tsx:82-85 | the refs start at zero with no drag, and the invariant holds |
| Gesture.PanController.OnGrant | src/components/Bookshelf.tsx:277-280 | the refs become `Apply` of grant. The rotations and the mouse ref are unchanged and the invariant is kept |
| Gesture.PanController.OnMove | src/components/Bookshelf.tsx:281-295 | the refs become `Apply` of the move. The rotations are unchanged and the target stays in range |
| Gesture.PanController.OnRelease | src/components/Bookshelf.tsx:296-299 | the refs become `Apply` of release |
| Gesture.PanController.RenderStep | src/components/Bookshelf.tsx:364-371 | the rotation becomes `Ease` of the old rotation toward the target. The scene yaw follows it, the drag refs are unchanged, and both rotations stay in range |
| Gesture.PanController.HandleTap | src/components/Bookshelf.tsx:303-309 | while dragging, the tap is ignored and nothing changes. Otherwise the mouse ref and the result are the tap's device coordinates |
| Search.StringOr | src/components/SearchPage.tsx:88 | `s \|\| fallback` keeps a present non-empty string and otherwise gives the fallback |
| Search.ArrayOr | src/components/SearchPage.tsx:89 | `a \|\| fallback` keeps any present array, even an empty one, and otherwise gives the fallback |
| Search.ToBook | src/components/SearchPage.tsx:86-93 | the record keeps the volume id. A missing or empty title becomes "Unknown Title", missing authors ["Unknown Author"], and a missing or empty thumbnail the placeholder URL. Non-empty title and thumbnail are copied, any present author array (even an empty one) is copied, there is no position, and the title and cover are never empty |
| Search.HandleBookSelect | src/components/SearchPage.tsx:71-97 | the alert is shown exactly when the store already holds the id, and then the store is unchanged. Otherwise the store becomes `addBook` of the converted record |
| Search.SelectAppendsOnce | src/components/SearchPage.tsx:86-95 | from a duplicate-free store, a selection keeps ids distinct and leaves the id present. An added volume is appended once, after the old store, with a zeroed position |
| Search.SelectTwice | src/components/SearchPage.tsx:73-84 | selecting the same volume again reports the duplicate and changes nothing |
| Search.TrimStart | src/components/SearchPage.tsx:45 | leading white space is dropped; what is kept is a suffix that starts with a visible character |
| Search.TrimEnd | src/components/SearchPage.tsx:45 | trailing white space is dropped; what is kept is a prefix that ends with a visible character |
| Search.Trim | src/components/SearchPage.tsx:45 | `query.trim()` is no longer than the query, and when non-empty neither starts nor ends with white space |
| Search.TrimBlank | src/components/SearchPage.tsx:45 | `query.trim()` is empty exactly when the query is all white space |
| Search.SearchBooks | src/components/SearchPage.tsx:44-64 | a blank query clears the results without a fetch. Otherwise the results become the response items (none when the body lacks them, unchanged on failure) and loading ends false |
| Search.BlankQueryClears | src/components/SearchPage.tsx:45-48 | an all-white-space query never fetches and clears the results |
| Search.VisibleQueryFetches | src/components/SearchPage.tsx:45-50 | a query with any visible character is fetched |

## Left out

- three.js meshes, materials, lights, shadows, the wooden frame and the
  ray cast are foreign library calls. A book's group is an opaque handle
  whose position mirrors its slot. The ray cast's answer is a parameter of
  `ShelfSlots.SelectBook`, and the opening of the modal is not modelled.
- The constant book rotation (0, π/2, 0) of each slot and group is not
  stored.
- `getScreenPosition` (src/components/Bookshelf.tsx:379-402) is only partly
  modelled. Its axis-angle rotation and camera projection are matrix
  arithmetic inside three.js, and its label offsets depend on a
  float-equality index lookup. Only its last step, device coordinates back
  to the screen (lines 388-389), is modelled, as `TapMapping.NdcToScreen`.
- The GL context, the renderer and the self-rescheduling
  `requestAnimationFrame` loop are left out. One frame's easing step is
  `Gesture.Ease` and `PanController.RenderStep`, and the `rotation` React
  state that mirrors it is represented by `sceneYaw`.
- `Math.random` is a parameter in [0, 1). No colour is cached per cover
  URL, because the code keeps no such cache.
- The Google Books `fetch`, the JSON decoding, `Alert` and navigation are
  left out. The fetch outcome is a `Response` parameter, and the alert and
  the navigation back are the `Outcome` of a selection.
- React re-render and effect scheduling, and `console.log`, are left out.
  The reconciliation effect is modelled as one synchronous pass over the
  render's snapshot, with queued table updates applied in order.
- The effect's early return when `storeBooks` is missing (line 144) is left
  out. The prop defaults to `[]`, so the pass always runs.
- Bookshelf.Shelf.Reconcile: a victim is looked up by id in the live table.
  The code instead passes the snapshot's own object, whose position the
  earlier shifts have already moved in place. With distinct ids both
  designate the same slot at the same position.
- ShelfSlots.RemoveChild: drops every occurrence of the handle, while
  three.js drops the one child it finds. Handles are distinct, so the two
  agree.
- Gesture: the arithmetic is exact, while the source uses IEEE doubles. The
  easing and clamping properties are stated for exact arithmetic.
- Search.SearchBooks: each keystroke starts a search (lines 66-69), and the
  fetch is asynchronous. The model treats every call as atomic and one at
  a time. It does not capture overlapping searches: a blank query's cleared
  results (line 46) can be overwritten by an earlier fetch that resolves
  later (line 58), and `setLoading(false)` (line 62) can run while another
  fetch is still pending. "Clears the results" (`BlankQueryClears`) holds
  per call only.
- Screen dimensions are parameters. `Dimensions.get("window")` is an
  environment read.
- App.tsx, the list, the details modal and the static `Book` GL widget
  render only and are not part of this model.

## Findings

| source | as written | input that shows it | evidently intended | confidence | as-written member | corrected member |
|---|---|---|---|---|---|---|
| src/components/Bookshelf.tsx:187 | `addBookToShelf` counts occupants in the render's `shelfBooks` snapshot. Removals in the same reconciliation pass therefore do not free capacity. Worse, every book one pass offers reads the same count, so they all land at the same x (line 234), and the 4-book capacity can be exceeded | (1) a full shelf [A,B,C,D] and a store that changes to [B,C,D,E]: A is removed and E is not placed, leaving three books. (2) then one more book F is added, so the store is [B,C,D,E,F] and the shelf [B,C,D]: E and F are both placed at x = -0.9 + 3·0.55, leaving five slots | the live table is counted, so each new book takes the next free spot and none is placed once four are on the row | medium, not executed | ShelfSlots.ReconcileAsWritten, ShelfSlots.AsWrittenStrandsFreedSlot, ShelfSlots.AsWrittenStacksBooks, ShelfSlots.AsWrittenOverfills | ShelfSlots.Reconcile, ShelfSlots.ReconcileSyncs |
| src/components/Bookshelf.tsx:255 | `scene.remove(book.mesh)` looks only at the scene's direct children, but the group was added to the bookshelf group (line 250) | removing any placed book: the scene graph is unchanged and the group is still drawn | the group is removed from the bookshelf group | high, not executed | ShelfSlots.DetachAsWritten, ShelfSlots.DetachAsWrittenLeavesMesh | ShelfSlots.Detach, ShelfSlots.DetachHidesMesh, Bookshelf.Shelf.RemoveBook |
