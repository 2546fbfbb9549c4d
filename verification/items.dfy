/** The one entity of the record manager and the list operations both the
    item table and the view model's snapshot are built from. */
module Items {

  /** A row of the `items` table: the id the table assigned and the name. */
  datatype Item = Item(id: int, name: string)

  /** The set of ids that occur in a listing. */
  function Ids(s: seq<Item>): set<int>
  {
    set it | it in s :: it.id
  }

  /** The names of a listing, in listing order. */
  function Names(s: seq<Item>): seq<string>
  {
    seq(|s|, i requires 0 <= i < |s| => s[i].name)
  }

  /** Ids appear in strictly ascending order, as AUTOINCREMENT hands them out. */
  ghost predicate IdsIncreasing(s: seq<Item>)
  {
    forall i, j :: 0 <= i < j < |s| ==> s[i].id < s[j].id
  }

  /** No two rows share an id (the PRIMARY KEY constraint). */
  ghost predicate DistinctIds(s: seq<Item>)
  {
    forall i, j :: 0 <= i < j < |s| ==> s[i].id != s[j].id
  }

  /** `filterNot { it.id == id }`: the listing without every item of that id,
      the others kept in their order. */
  function WithoutId(s: seq<Item>, id: int): (r: seq<Item>)
    ensures forall i :: 0 <= i < |r| ==> r[i].id != id
    ensures |r| <= |s|
  {
    if s == [] then []
    else if s[0].id == id then WithoutId(s[1..], id)
    else [s[0]] + WithoutId(s[1..], id)
  }

  /** An item survives the filter exactly when it was there and carries
      another id; the listing shrinks exactly when the id was present. */
  lemma {:induction false} WithoutIdMembers(s: seq<Item>, id: int)
    ensures forall it :: it in WithoutId(s, id) <==> it in s && it.id != id
    ensures id in Ids(s) <==> |WithoutId(s, id)| < |s|
  {
    if s != [] {
      WithoutIdMembers(s[1..], id);
      assert s == [s[0]] + s[1..];
      assert Ids(s) == {s[0].id} + Ids(s[1..]);
    }
  }

  /** The rows that inserting `names` one after another produce when the next
      free id is `start`: the i-th name receives id `start + i`. */
  function Seeded(names: seq<string>, start: int): (r: seq<Item>)
  {
    seq(|names|, i requires 0 <= i < |names| => Item(start + i, names[i]))
  }

  /** Inserting names in two batches, the second one starting where the
      counter stopped, gives the same rows as inserting them all at once. */
  lemma SeededAppend(a: seq<string>, b: seq<string>, start: int)
    ensures Seeded(a + b, start) == Seeded(a, start) + Seeded(b, start + |a|)
  {
  }

  /** Rows seeded from a counter above every existing id can follow those
      rows, keeping ids ascending. */
  lemma SeededAfter(s: seq<Item>, names: seq<string>, start: int)
    requires IdsIncreasing(s)
    requires forall it :: it in s ==> it.id < start
    ensures IdsIncreasing(s + Seeded(names, start))
  {
  }

  /** Removing an id that no item carries changes nothing. */
  lemma {:induction false} WithoutIdAbsent(s: seq<Item>, id: int)
    requires id !in Ids(s)
    ensures WithoutId(s, id) == s
  {
    if s != [] {
      assert s[0] in s;
      assert id !in Ids(s[1..]) by {
        forall it | it in s[1..] ensures it.id != id {
          assert it in s;
        }
      }
      WithoutIdAbsent(s[1..], id);
      assert s == [s[0]] + s[1..];
    }
  }

  /** Removing the same id twice is the same as removing it once. */
  lemma WithoutIdIdempotent(s: seq<Item>, id: int)
    ensures WithoutId(WithoutId(s, id), id) == WithoutId(s, id)
  {
    WithoutIdAbsent(WithoutId(s, id), id);
  }

  /** Filtering distributes over concatenation, so relative order is kept. */
  lemma {:induction false} WithoutIdAppend(a: seq<Item>, b: seq<Item>, id: int)
    ensures WithoutId(a + b, id) == WithoutId(a, id) + WithoutId(b, id)
  {
    if a != [] {
      assert (a + b)[1..] == a[1..] + b;
      WithoutIdAppend(a[1..], b, id);
    } else {
      assert a + b == b;
    }
  }

  /** Dropping the first row keeps ids distinct. */
  lemma TailDistinct(s: seq<Item>)
    requires s != [] && DistinctIds(s)
    ensures DistinctIds(s[1..])
  {
    forall i, j | 0 <= i < j < |s| - 1 ensures s[1..][i].id != s[1..][j].id {
      assert s[1..][i] == s[i + 1] && s[1..][j] == s[j + 1];
    }
  }

  /** With distinct ids, the first row's id occurs nowhere after it. */
  lemma HeadIdNotInTail(s: seq<Item>)
    requires s != [] && DistinctIds(s)
    ensures s[0].id !in Ids(s[1..])
  {
    forall it | it in s[1..] ensures it.id != s[0].id {
      var j :| 0 <= j < |s| - 1 && s[1..][j] == it;
      assert s[j + 1] == it;
    }
  }

  /** Cutting out position k > 0 keeps the head and cuts position k - 1 of the tail. */
  lemma CutAfterHead(s: seq<Item>, k: nat)
    requires 0 < k < |s|
    ensures s[..k] + s[k + 1..] == [s[0]] + (s[1..][..k - 1] + s[1..][k..])
  {
    assert s[..k] == [s[0]] + s[1..][..k - 1];
    assert s[k + 1..] == s[1..][k..];
  }

  /** With distinct ids, removing the id of row k removes that row and no
      other: the result is the listing with position k cut out. */
  lemma {:induction false} WithoutIdExact(s: seq<Item>, k: nat)
    requires DistinctIds(s)
    requires k < |s|
    ensures WithoutId(s, s[k].id) == s[..k] + s[k + 1..]
  {
    if k == 0 {
      HeadIdNotInTail(s);
      WithoutIdAbsent(s[1..], s[0].id);
    } else {
      var t := s[1..];
      assert t[k - 1] == s[k];
      assert s[0].id != s[k].id;
      TailDistinct(s);
      WithoutIdExact(t, k - 1);
      CutAfterHead(s, k);
    }
  }

  /** Dropping the first row keeps ascending ids ascending. */
  lemma TailIncreasing(s: seq<Item>)
    requires s != [] && IdsIncreasing(s)
    ensures IdsIncreasing(s[1..])
  {
    forall i, j | 0 <= i < j < |s| - 1 ensures s[1..][i].id < s[1..][j].id {
      assert s[1..][i] == s[i + 1] && s[1..][j] == s[j + 1];
    }
  }

  /** A row whose id is below every id of an ascending listing can lead it. */
  lemma ConsIncreasing(x: Item, t: seq<Item>)
    requires IdsIncreasing(t)
    requires forall it :: it in t ==> x.id < it.id
    ensures IdsIncreasing([x] + t)
  {
    forall i, j | 0 <= i < j < |t| + 1 ensures ([x] + t)[i].id < ([x] + t)[j].id {
      assert ([x] + t)[j] == t[j - 1];
      assert t[j - 1] in t;
      if i > 0 {
        assert ([x] + t)[i] == t[i - 1];
      }
    }
  }

  /** Filtering keeps ascending ids ascending. */
  lemma {:induction false} WithoutIdIncreasing(s: seq<Item>, id: int)
    requires IdsIncreasing(s)
    ensures IdsIncreasing(WithoutId(s, id))
  {
    if s != [] {
      TailIncreasing(s);
      WithoutIdIncreasing(s[1..], id);
      if s[0].id != id {
        var t := WithoutId(s[1..], id);
        WithoutIdMembers(s[1..], id);
        forall it | it in t ensures s[0].id < it.id {
          var m :| 0 <= m < |s[1..]| && s[1..][m] == it;
          assert s[m + 1] == it;
        }
        ConsIncreasing(s[0], t);
      }
    }
  }

  /** An item whose id exceeds every id of an ascending listing can follow it. */
  lemma ConsIncreasingLast(s: seq<Item>, x: Item)
    requires IdsIncreasing(s)
    requires forall it :: it in s ==> it.id < x.id
    ensures IdsIncreasing(s + [x])
  {
    forall i, j | 0 <= i < j < |s| + 1 ensures (s + [x])[i].id < (s + [x])[j].id {
      assert (s + [x])[i] == s[i];
      if j < |s| {
        assert (s + [x])[j] == s[j];
      } else {
        assert s[i] in s;
      }
    }
  }

  /** The reference listing: the rows ever inserted, in insertion order,
      except those whose id is in `gone`. */
  function Live(inserted: seq<Item>, gone: set<int>): (r: seq<Item>)
  {
    if inserted == [] then []
    else if inserted[0].id in gone then Live(inserted[1..], gone)
    else [inserted[0]] + Live(inserted[1..], gone)
  }

  /** The reference listing holds exactly the inserted rows whose id is not
      in `gone`. */
  lemma {:induction false} LiveMembers(inserted: seq<Item>, gone: set<int>)
    ensures forall it :: it in Live(inserted, gone) <==> it in inserted && it.id !in gone
  {
    if inserted != [] {
      LiveMembers(inserted[1..], gone);
      assert inserted == [inserted[0]] + inserted[1..];
    }
  }

  /** Inserting a row whose id was never deleted appends it to the listing. */
  lemma {:induction false} LiveAppend(inserted: seq<Item>, gone: set<int>, x: Item)
    requires x.id !in gone
    ensures Live(inserted + [x], gone) == Live(inserted, gone) + [x]
  {
    if inserted == [] {
      assert inserted + [x] == [x];
      assert Live([x], gone) == [x] + Live([], gone);
    } else {
      assert (inserted + [x])[1..] == inserted[1..] + [x];
      LiveAppend(inserted[1..], gone, x);
    }
  }

  /** Deleting one more id filters that id out of the listing. */
  lemma {:induction false} LiveRemove(inserted: seq<Item>, gone: set<int>, id: int)
    ensures Live(inserted, gone + {id}) == WithoutId(Live(inserted, gone), id)
  {
    if inserted != [] {
      LiveRemove(inserted[1..], gone, id);
    }
  }
}
