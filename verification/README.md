# Item store and item view model

A model of the persistence-and-synchronisation core of a small Android record
manager: a single SQLite table `items` of `(id, name)` rows behind
`DatabaseHelper`, and `ItemViewModel`, which keeps an in-memory snapshot of
that table for the screen.

- `items.dfy` (module `Items`): the `Item` value and the list operations both
  sides use: `WithoutId` (Kotlin's `filterNot { it.id == id }`), `Seeded` (the
  rows a run of inserts produces), and `Live`, an independent reference
  definition of the table's contents (every row ever inserted, minus the
  deleted ids, in insertion order), with the lemmas relating them.
- `database_helper.dfy` (module `Storage`): class `DatabaseHelper`. The table
  is a `seq<Item>` field in insertion order. `nextId` stands in for the
  AUTOINCREMENT counter. Three ghost fields record history: every id ever
  issued, every row ever inserted, every id deleted. The invariant `Valid()`
  says that ids are positive and ascending, hence distinct. It says every
  issued id is below the counter, so ids are never reused. It also says the
  rows equal `Live(inserted, deleted)`.
- `item_view_model.dfy` (module `ViewModel`): class `ItemViewModel` with the
  snapshot `items`, the dialog flag and a reference to the table. Its
  constructor seeds the five default names if and only if the table is empty.
  `InSync()` (snapshot equals the table's listing) holds after construction
  and after `RefreshItems`, and `AddItem`/`DeleteItem` preserve it. Two
  client methods show construction twice over one table and the
  seed/add/delete/delete scenario.

The view model calls the table first and then updates the snapshot. The
model has no failure path: every table operation succeeds (see "## Left out"
for the `-1` insert result and the exceptions the database calls can throw).

## Model

| member | source | states |
|---|---|---|
| Items.WithoutId | app/src/main/java/com/cst2335/teamprojectapp/ItemViewModel.kt:45 | no item of the removed id remains, and the result is never longer than the input |
| Items.WithoutIdMembers | app/src/main/java/com/cst2335/teamprojectapp/ItemViewModel.kt:45 | an item survives exactly when it was present and carries another id; the listing shrinks exactly when the id was present |
| Items.WithoutIdAbsent | app/src/main/java/com/cst2335/teamprojectapp/DatabaseHelper.kt:65-68 | deleting an id that no row carries leaves the listing unchanged (no error, no change) |
| Items.WithoutIdIdempotent | app/src/main/java/com/cst2335/teamprojectapp/ItemViewModel.kt:43-46 | deleting the same id twice equals deleting it once |
| Items.WithoutIdAppend | app/src/main/java/com/cst2335/teamprojectapp/ItemViewModel.kt:45 | filtering distributes over concatenation, so the kept items stay in their relative order |
| Items.WithoutIdExact | app/src/main/java/com/cst2335/teamprojectapp/DatabaseHelper.kt:65-68 | with distinct ids, deleting the id of row k yields the listing with exactly position k cut out |
| Items.WithoutIdIncreasing | app/src/main/java/com/cst2335/teamprojectapp/DatabaseHelper.kt:65-68 | deletion keeps ids ascending (and so distinct) |
| Items.ConsIncreasingLast | app/src/main/java/com/cst2335/teamprojectapp/DatabaseHelper.kt:25 | appending a row whose id exceeds every existing id keeps ids ascending |
| Items.SeededAppend | app/src/main/java/com/cst2335/teamprojectapp/ItemViewModel.kt:28 | inserting names in two batches, the second starting where the counter stopped, gives the same rows as inserting them all at once (`Seeded`: the i-th name gets id `start + i`) |
| Items.SeededAfter | app/src/main/java/com/cst2335/teamprojectapp/ItemViewModel.kt:28 | rows seeded from a counter above every existing id can follow those rows with ids still ascending |
| Items.LiveMembers | app/src/main/java/com/cst2335/teamprojectapp/DatabaseHelper.kt:25 | the reference listing holds exactly the inserted rows whose id is not deleted |
| Items.LiveAppend | app/src/main/java/com/cst2335/teamprojectapp/DatabaseHelper.kt:39-45 | inserting a row whose id was never deleted appends it to the reference listing |
| Items.LiveRemove | app/src/main/java/com/cst2335/teamprojectapp/DatabaseHelper.kt:65-68 | deleting one more id is the same as filtering it out of the reference listing |
| Storage.DatabaseHelper.Valid | app/src/main/java/com/cst2335/teamprojectapp/DatabaseHelper.kt:25 | the PRIMARY KEY AUTOINCREMENT invariant implies pairwise distinct ids; the invariant also ties the rows to the reference listing `Items.Live(inserted, deleted)` (rows ever inserted, minus deleted ids, in insertion order) |
| Storage.DatabaseHelper.constructor | app/src/main/java/com/cst2335/teamprojectapp/DatabaseHelper.kt:22-30 | a freshly created table has no rows, has issued no id, and the counter starts at 1 |
| Storage.DatabaseHelper.AddItem | app/src/main/java/com/cst2335/teamprojectapp/DatabaseHelper.kt:39-45 | returns an id never issued before, greater than every issued id, not live and not deleted; rows become the old rows followed by `Item(k, name)`; the invariant is kept |
| Storage.DatabaseHelper.GetAllItems | app/src/main/java/com/cst2335/teamprojectapp/DatabaseHelper.kt:47-63 | returns every row as `Item(id, name)` in table order, without changing the table |
| Storage.DatabaseHelper.DeleteItem | app/src/main/java/com/cst2335/teamprojectapp/DatabaseHelper.kt:65-68 | the rows become the old rows without that id; counter and issued ids are unchanged; the invariant (distinct ascending ids, rows equal the reference listing) is kept |
| ViewModel.SeedsFreshTable | app/src/main/java/com/cst2335/teamprojectapp/ItemViewModel.kt:18-24 | seeding a freshly created table (counter at 1) produces exactly the hard-coded default list `ViewModel.DefaultItems` (the `defaultItems` constant): the table-assigned ids 1 to 5 coincide with the hard-coded ones |
| ViewModel.InsertNames | app/src/main/java/com/cst2335/teamprojectapp/ItemViewModel.kt:28 | inserting the names of a list of items, one `addItem` after another, appends exactly `Items.Seeded(names, start)` (the closed form: the i-th name gets id `start + i`, `start` being the counter before seeding), and the counter advances by the number of names; the hard-coded ids are ignored |
| ViewModel.ItemViewModel.constructor | app/src/main/java/com/cst2335/teamprojectapp/ItemViewModel.kt:26-31 | over an empty table, the table then holds exactly the five default names in order with table-assigned ids; over a non-empty table nothing is inserted; the snapshot equals the listing; the dialog is hidden |
| ViewModel.ItemViewModel.LoadItemsFromDatabase | app/src/main/java/com/cst2335/teamprojectapp/ItemViewModel.kt:33-35 | the snapshot becomes the table's listing |
| ViewModel.ItemViewModel.AddItem | app/src/main/java/com/cst2335/teamprojectapp/ItemViewModel.kt:37-41 | table and snapshot both gain `Item(k, name)` at the end, `k` being the fresh id the table returned; a snapshot in sync (`InSync()`: snapshot equals the table's rows) stays in sync |
| ViewModel.ItemViewModel.DeleteItem | app/src/main/java/com/cst2335/teamprojectapp/ItemViewModel.kt:43-46 | table and snapshot both lose every item of that id, others in order; a snapshot in sync (`InSync()`) stays in sync |
| ViewModel.ItemViewModel.RefreshItems | app/src/main/java/com/cst2335/teamprojectapp/ItemViewModel.kt:48-53 | whatever the snapshot held, it becomes the table's current listing |
| ViewModel.ItemViewModel.ShowAddItemDialog | app/src/main/java/com/cst2335/teamprojectapp/ItemViewModel.kt:55-57 | the flag is true afterwards and the snapshot is untouched |
| ViewModel.ItemViewModel.HideAddItemDialog | app/src/main/java/com/cst2335/teamprojectapp/ItemViewModel.kt:59-61 | the flag is false afterwards and the snapshot is untouched |
| ViewModel.ConstructTwice | app/src/main/java/com/cst2335/teamprojectapp/ItemViewModel.kt:26-31 | constructing twice over one table seeds at most once (only if it was empty) and both snapshots equal the listing |
| ViewModel.SeedAddDeleteScenario | app/src/main/java/com/cst2335/teamprojectapp/ItemViewModel.kt:26-46 | empty table, construct, add "X", delete 6 twice: the snapshots are the five defaults, the defaults plus `Item(6, "X")`, then the defaults twice |

## Left out

- SQLite mechanics: SQL text, `ContentValues`, `Cursor`, `Context` and the readable/writable handles are replaced by the row sequence and the counter. Persistence across process restarts is represented by passing an existing `DatabaseHelper` in any valid state to the view model.
- `onUpgrade` (drop and recreate) is not modelled: at schema version 1 it never runs.
- Storage.DatabaseHelper.AddItem: `db.insert` returning -1 on failure is not modelled; every insert succeeds. The view model appends the returned value unchecked, so a failure would put id -1 into the snapshot; the model does not capture this.
- ViewModel.ItemViewModel.DeleteItem / ViewModel.ItemViewModel.constructor: the exception paths are not modelled. Opening the database (`writableDatabase`, `readableDatabase`), `db.query` and `db.delete` can throw `SQLiteException` (DatabaseHelper.kt:40, 49-52, 66-67). The exception leaves `deleteItem` or `init` before the snapshot is touched (ItemViewModel.kt:27, 44-45), so a failed delete leaves the snapshot unchanged and the error propagates to the caller; the model always succeeds and always filters. The same holds for `AddItem` and `LoadItemsFromDatabase`.
- ViewModel.ItemViewModel.AddItem: the `Long` to `Int` narrowing of the returned id (ItemViewModel.kt:38) is not modelled, nor are the 32-bit `Int` ids read back by `cursor.getInt` (DatabaseHelper.kt:56) and taken by `deleteItem(id: Int)` (DatabaseHelper.kt:65). Ids are unbounded integers, which matches the code while fewer than 2^31 rows have ever been inserted.
- Storage.DatabaseHelper.AddItem: the counter always hands out the next consecutive id. SQLite's AUTOINCREMENT only promises a larger id than any used before, and fails once the largest 64-bit id is used; neither is modelled.
- Storage.DatabaseHelper.GetAllItems: the query has no `ORDER BY`. The model assumes the listing comes back in insertion order, which is ascending id order.
- `MutableStateFlow` publication to subscribers and `viewModelScope.launch` are not modelled. `RefreshItems` runs synchronously. The `onComplete` callback is code of the caller (it clears the screen's refresh indicator), so returning from `RefreshItems` stands for invoking it.
- `MainActivity.kt` (Compose layout, the timed float progress bar), `AddItemDialog.kt` (UI; its non-empty-name guard is not a precondition here because the table accepts any name) and `ItemViewModelFactory.kt` (reflection) are not part of this model.
