/** The `items` table behind `DatabaseHelper`: its rows in insertion order and
    the AUTOINCREMENT counter that hands out ids. SQL text, cursors and the
    database handles are replaced by these two fields. */
module Storage {
  import opened Items

  class DatabaseHelper {
    /** The rows of the table, in the order they were inserted. */
    var rows: seq<Item>
    /** The id the next insert receives (one past the largest id ever used). */
    var nextId: int
    /** Every id the table has ever handed out, deleted or not. */
    ghost var issued: set<int>
    /** Every row ever inserted, in insertion order. */
    ghost var inserted: seq<Item>
    /** The ids of the rows that have been deleted. */
    ghost var deleted: set<int>

    /** The table's invariant: ids are positive, ascending in insertion order,
        every live id was issued, every issued id is below the counter, only
        issued ids are recorded as deleted, and the rows are exactly the
        inserted rows whose id was not deleted. */
    ghost predicate Valid()
      reads this
      ensures Valid() ==> DistinctIds(rows)
    {
      && 1 <= nextId
      && IdsIncreasing(rows)
      && (forall i :: 0 <= i < |rows| ==> rows[i].id in issued)
      && (forall x :: x in issued ==> 1 <= x < nextId)
      && deleted <= issued
      && rows == Live(inserted, deleted)
    }

    /** `onCreate`: a freshly created table holds no rows and has issued no id. */
    constructor ()
      ensures Valid()
      ensures rows == [] && nextId == 1
      ensures issued == {} && inserted == [] && deleted == {}
    {
      rows := [];
      nextId := 1;
      issued, inserted, deleted := {}, [], {};
    }

    /** `addItem`: inserts a row named `name` and returns its new id. */
    method AddItem(name: string) returns (k: int)
      requires Valid()
      modifies this
      ensures Valid()
      ensures k !in old(issued) && forall x :: x in old(issued) ==> x < k
      ensures k !in Ids(old(rows)) && k !in old(deleted)
      ensures rows == old(rows) + [Item(k, name)]
      ensures k == old(nextId) && nextId == k + 1
      ensures issued == old(issued) + {k}
      ensures inserted == old(inserted) + [Item(k, name)] && deleted == old(deleted)
    {
      k := nextId;
      var row := Item(k, name);
      forall it | it in rows ensures it.id < k {
        var i :| 0 <= i < |rows| && rows[i] == it;
      }
      ConsIncreasingLast(rows, row);
      LiveAppend(inserted, deleted, row);
      ghost var oldRows, oldIssued := rows, issued;
      rows := rows + [row];
      nextId := nextId + 1;
      issued := issued + {k};
      inserted := inserted + [row];
      forall i | 0 <= i < |rows| ensures rows[i].id in issued {
        if i < |oldRows| {
          assert rows[i] == oldRows[i] && oldRows[i].id in oldIssued;
        }
      }
    }

    /** `getAllItems`: every row, as `Item(id, name)`, in table order. The
        table is only read. */
    method GetAllItems() returns (items: seq<Item>)
      ensures items == rows
    {
      items := [];
      var i := 0;
      while i < |rows|
        invariant 0 <= i <= |rows|
        invariant items == rows[..i]
      {
        items := items + [Item(rows[i].id, rows[i].name)];
        i := i + 1;
      }
    }

    /** `deleteItem`: removes the row with that id, if there is one. */
    method DeleteItem(id: int)
      requires Valid()
      modifies this
      ensures Valid()
      ensures rows == WithoutId(old(rows), id)
      ensures nextId == old(nextId) && issued == old(issued) && inserted == old(inserted)
      ensures deleted == if id in old(issued) then old(deleted) + {id} else old(deleted)
    {
      WithoutIdIncreasing(rows, id);
      IdsWithin(rows, issued, id);
      if id in issued {
        LiveRemove(inserted, deleted, id);
        deleted := deleted + {id};
      } else {
        WithoutIdAbsent(rows, id);
      }
      rows := WithoutId(rows, id);
    }
  }

  /** Filtering keeps every remaining id inside a set that held all ids. */
  lemma IdsWithin(rows: seq<Item>, ids: set<int>, id: int)
    requires forall i :: 0 <= i < |rows| ==> rows[i].id in ids
    ensures forall i :: 0 <= i < |WithoutId(rows, id)| ==> WithoutId(rows, id)[i].id in ids
    ensures id !in ids ==> id !in Ids(rows)
  {
    var r := WithoutId(rows, id);
    WithoutIdMembers(rows, id);
    forall i | 0 <= i < |r| ensures r[i].id in ids {
      assert r[i] in r;
      var j :| 0 <= j < |rows| && rows[j] == r[i];
    }
    if id !in ids {
      forall it | it in rows ensures it.id != id {
        var j :| 0 <= j < |rows| && rows[j] == it;
      }
    }
  }
}
