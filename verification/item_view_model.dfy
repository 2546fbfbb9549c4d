/** `ItemViewModel`: the in-memory snapshot of the `items` table that the
    screen observes, kept in step with the table by the view model's own
    operations and re-read wholesale on refresh. */
module ViewModel {
  import opened Items
  import opened Storage

  /** The five items the view model seeds an empty table with. Only their
      names are inserted; the table assigns the ids. */
  const DefaultItems: seq<Item> := [
    Item(1, "Mikhail Senchenko"),
    Item(2, "Michelle Senchenko"),
    Item(3, "Mihan44"),
    Item(4, "Michelanjelo"),
    Item(5, "Michigun")
  ]

  /** On a freshly created table the ids the table assigns while seeding
      coincide with the hard-coded ones: the seeded rows are exactly the list. */
  lemma SeedsFreshTable()
    ensures Seeded(Names(DefaultItems), 1) == DefaultItems
  {
  }

  /** The `forEach` of `init`: inserts the name of each default item, one
      after another, so the table assigns them consecutive ids and the
      hard-coded ids are ignored. */
  method InsertNames(dbHelper: DatabaseHelper, defaults: seq<Item>)
    requires dbHelper.Valid()
    modifies dbHelper
    ensures dbHelper.Valid()
    ensures dbHelper.rows == old(dbHelper.rows) + Seeded(Names(defaults), old(dbHelper.nextId))
    ensures dbHelper.nextId == old(dbHelper.nextId) + |defaults|
  {
    ghost var start, pre := dbHelper.nextId, dbHelper.rows;
    ghost var seeded: seq<Item> := [];
    var i := 0;
    while i < |defaults|
      invariant 0 <= i <= |defaults|
      invariant dbHelper.Valid()
      invariant |seeded| == i
      invariant forall j :: 0 <= j < i ==> seeded[j] == Item(start + j, defaults[j].name)
      invariant dbHelper.rows == pre + seeded
      invariant dbHelper.nextId == start + i
    {
      var k := dbHelper.AddItem(defaults[i].name);
      seeded := seeded + [Item(k, defaults[i].name)];
      i := i + 1;
    }
    assert seeded == Seeded(Names(defaults), start) by {
      var r := Seeded(Names(defaults), start);
      forall j | 0 <= j < |r| ensures r[j] == seeded[j] {
        assert Names(r)[j] == r[j].name;
      }
    }
  }

  class ItemViewModel {
    /** The table the view model reads and writes (`dbHelper`). */
    const store: DatabaseHelper
    /** The snapshot published to the screen (`_items`). */
    var items: seq<Item>
    /** Whether the add-item dialog is shown (`isDialogVisible`). */
    var isDialogVisible: bool

    /** The snapshot equals the table's full listing. */
    ghost predicate InSync()
      reads this, store
    {
      items == store.rows
    }

    /** `init`: seeds the five default names if and only if the table is
        empty, then loads the snapshot from the table. */
    constructor (dbHelper: DatabaseHelper)
      requires dbHelper.Valid()
      modifies dbHelper
      ensures store == dbHelper && store.Valid()
      ensures old(dbHelper.rows) == [] ==>
                && dbHelper.rows == Seeded(Names(DefaultItems), old(dbHelper.nextId))
                && dbHelper.nextId == old(dbHelper.nextId) + |DefaultItems|
      ensures old(dbHelper.rows) != [] ==>
                && dbHelper.rows == old(dbHelper.rows)
                && dbHelper.nextId == old(dbHelper.nextId)
                && dbHelper.issued == old(dbHelper.issued)
      ensures dbHelper.rows != []
      ensures InSync()
      ensures !isDialogVisible
    {
      var existing := dbHelper.GetAllItems();
      if |existing| == 0 {
        InsertNames(dbHelper, DefaultItems);
      }
      store := dbHelper;
      isDialogVisible := false;
      new;
      LoadItemsFromDatabase();
    }

    /** `loadItemsFromDatabase`: the snapshot becomes the table's listing. */
    method LoadItemsFromDatabase()
      modifies this
      ensures InSync()
      ensures isDialogVisible == old(isDialogVisible)
    {
      items := store.GetAllItems();
    }

    /** `addItem`: inserts into the table, then appends the item carrying the
        id the table returned to the snapshot. */
    method AddItem(name: string)
      requires store.Valid()
      modifies this, store
      ensures store.Valid()
      ensures var k := old(store.nextId);
              && k !in old(store.issued)
              && store.rows == old(store.rows) + [Item(k, name)]
              && items == old(items) + [Item(k, name)]
      ensures old(InSync()) ==> InSync()
      ensures isDialogVisible == old(isDialogVisible)
    {
      var newItemId := store.AddItem(name);
      var newItem := Item(newItemId, name);
      items := items + [newItem];
    }

    /** `deleteItem`: deletes from the table, then drops every item of that
        id from the snapshot, keeping the others in order. */
    method DeleteItem(id: int)
      requires store.Valid()
      modifies this, store
      ensures store.Valid()
      ensures store.rows == WithoutId(old(store.rows), id)
      ensures store.nextId == old(store.nextId) && store.issued == old(store.issued)
      ensures items == WithoutId(old(items), id)
      ensures old(InSync()) ==> InSync()
      ensures isDialogVisible == old(isDialogVisible)
    {
      store.DeleteItem(id);
      items := WithoutId(items, id);
    }

    /** `refreshItems`: replaces the snapshot with the table's current
        listing, whatever it held before; returning is the completion signal. */
    method RefreshItems()
      modifies this
      ensures InSync()
      ensures isDialogVisible == old(isDialogVisible)
    {
      LoadItemsFromDatabase();
    }

    /** `showAddItemDialog`: raises the dialog flag; the snapshot is untouched. */
    method ShowAddItemDialog()
      modifies this`isDialogVisible
      ensures isDialogVisible
      ensures items == old(items)
    {
      isDialogVisible := true;
    }

    /** `hideAddItemDialog`: lowers the dialog flag; the snapshot is untouched. */
    method HideAddItemDialog()
      modifies this`isDialogVisible
      ensures !isDialogVisible
      ensures items == old(items)
    {
      isDialogVisible := false;
    }
  }

  /** Two view models constructed one after the other over the same table:
      only the first can seed, and both show the same listing. */
  method ConstructTwice(db: DatabaseHelper) returns (first: ItemViewModel, second: ItemViewModel)
    requires db.Valid()
    modifies db
    ensures first.store == db && second.store == db && db.Valid()
    ensures old(db.rows) == [] ==> db.rows == Seeded(Names(DefaultItems), old(db.nextId))
    ensures old(db.rows) != [] ==> db.rows == old(db.rows)
    ensures first.items == db.rows && second.items == db.rows
  {
    first := new ItemViewModel(db);
    second := new ItemViewModel(db);
  }

  /** An empty table, a view model over it, one add and the same delete
      twice: the snapshots the screen sees along the way. */
  method SeedAddDeleteScenario() returns (seeded: seq<Item>, added: seq<Item>, deleted: seq<Item>, deletedAgain: seq<Item>)
    ensures seeded == DefaultItems
    ensures added == DefaultItems + [Item(6, "X")]
    ensures deleted == DefaultItems
    ensures deletedAgain == DefaultItems
  {
    var db := new DatabaseHelper();
    var vm := new ItemViewModel(db);
    SeedsFreshTable();
    seeded := vm.items;
    vm.AddItem("X");
    added := vm.items;
    vm.DeleteItem(6);
    deleted := vm.items;
    WithoutIdAppend(DefaultItems, [Item(6, "X")], 6);
    WithoutIdAbsent(DefaultItems, 6);
    vm.DeleteItem(6);
    deletedAgain := vm.items;
    WithoutIdAbsent(DefaultItems, 6);
  }
}
