/** Tables of kernel lists, and what moving one item does to all lists of a table (uxListRemove, vListInsertEnd and
    vListInsert of list.rs, called one after the other). */
module ListTable {
  import opened KernelList

  /** No two lists of the table are the same, nor their sentinels. */
  ghost predicate Apart(lists: seq<XList>) {
    forall i, j | 0 <= i < j < |lists| :: lists[i] != lists[j] && lists[i].end != lists[j].end
  }

  ghost function Ends(lists: seq<XList>): set<Item> {
    set l | l in lists :: l.end
  }

  /** What never changes: the lists are different, and no cell is a sentinel. */
  ghost predicate Ground(lists: seq<XList>, cells: set<Item>) {
    Apart(lists) && Ends(lists) !! cells
  }

  /** The table is in order: all lists are valid and hold nothing but the cells, and a cell that names a list is in it. */
  ghost predicate Zone(lists: seq<XList>, cells: set<Item>)
    reads lists, Ends(lists), cells`next, cells`prev, cells`container
  {
    && (forall l, y | l in lists && y in l.items :: y in cells)
    && (forall l | l in lists :: l.Valid())
    && (forall x | x in cells && x.container != null :: x.container in lists && x in x.container.items)
  }

  ghost function View(lists: seq<XList>): (v: seq<seq<Item>>)
    reads lists
    ensures |v| == |lists| && forall i | 0 <= i < |lists| :: v[i] == lists[i].items
  {
    if lists == [] then [] else View(lists[..|lists| - 1]) + [lists[|lists| - 1].items]
  }

  /** The items of every list in the order in which they will be served. */
  ghost function Turns(lists: seq<XList>): (v: seq<seq<Item>>)
    reads lists
    ensures |v| == |lists| && forall i | 0 <= i < |lists| :: v[i] == lists[i].Upcoming()
  {
    if lists == [] then [] else Turns(lists[..|lists| - 1]) + [lists[|lists| - 1].Upcoming()]
  }

  // ---- what a step does to the contents of the lists

  /** From v to w only x may have changed its place. */
  ghost predicate SameElse(v: seq<seq<Item>>, w: seq<seq<Item>>, x: Item) {
    && |w| == |v|
    && (forall h, y | 0 <= h < |v| && y in v[h] && y != x :: y in w[h])
    && (forall h, y | 0 <= h < |v| && y in w[h] && y != x :: y in v[h])
  }

  /** x is in list j of w and in no other. */
  ghost predicate OnlyIn(w: seq<seq<Item>>, x: Item, j: nat) {
    j < |w| && x in w[j] && forall h | 0 <= h < |w| && h != j :: x !in w[h]
  }

  ghost predicate Nowhere(w: seq<seq<Item>>, x: Item) {
    forall h | 0 <= h < |w| :: x !in w[h]
  }

  /** x is in no list any more, and no other item has lost its turn. */
  ghost predicate Left(v: seq<seq<Item>>, w: seq<seq<Item>>, x: Item) {
    SameElse(v, w, x) && Nowhere(w, x) && forall h | 0 <= h < |w| :: w[h] == v[h] || Dropped(v[h], w[h], x)
  }

  /** x has been added to list j, and nothing else has changed. */
  ghost predicate Added(v: seq<seq<Item>>, w: seq<seq<Item>>, x: Item, j: nat) {
    && SameElse(v, w, x) && OnlyIn(w, x, j) && Nowhere(v, x)
    && (forall h | 0 <= h < |w| && h != j :: w[h] == v[h])
    && exists k: nat :: k <= |v[j]| && w[j] == Inserted(v[j], k, x)
  }

  /** x has moved to list j, from whatever place, and all other items are where they were. */
  ghost predicate Moved(v: seq<seq<Item>>, w: seq<seq<Item>>, x: Item, j: nat) {
    && SameElse(v, w, x) && OnlyIn(w, x, j)
    && (forall h | 0 <= h < |w| && h != j :: w[h] == v[h] || Dropped(v[h], w[h], x))
  }

  lemma DroppedMembers(s: seq<Item>, m: seq<Item>, x: Item)
    requires Dropped(s, m, x)
    ensures forall y | y != x :: y in s <==> y in m
  {
    var k: nat :| k < |s| && s[k] == x && m == Without(s, k);
    assert s == s[..k] + [x] + s[k + 1..];
  }

  lemma InsertedMembers(s: seq<Item>, k: nat, x: Item)
    requires k <= |s|
    ensures forall y :: y in Inserted(s, k, x) <==> y == x || y in s
  {
    assert s == s[..k] + s[k..];
  }

  lemma LeftBy(v: seq<seq<Item>>, w: seq<seq<Item>>, x: Item, i: nat)
    requires |w| == |v| && OnlyIn(v, x, i) && Dropped(v[i], w[i], x) && x !in w[i] && forall h | 0 <= h < |v| && h != i :: w[h] == v[h]
    ensures Left(v, w, x)
  {
    DroppedMembers(v[i], w[i], x);
  }

  lemma LeftNothing(v: seq<seq<Item>>, x: Item)
    requires Nowhere(v, x)
    ensures Left(v, v, x)
  {
  }

  lemma AddedBy(v: seq<seq<Item>>, w: seq<seq<Item>>, x: Item, j: nat, k: nat)
    requires |w| == |v| && j < |v| && Nowhere(v, x) && (forall h | 0 <= h < |v| && h != j :: w[h] == v[h])
    requires k <= |v[j]| && w[j] == Inserted(v[j], k, x)
    ensures Added(v, w, x, j)
  {
    InsertedMembers(v[j], k, x);
  }

  /** Leaving and being added is moving. */
  lemma LeftThenAdded(v: seq<seq<Item>>, v1: seq<seq<Item>>, w: seq<seq<Item>>, x: Item, j: nat)
    requires Left(v, v1, x) && Added(v1, w, x, j)
    ensures Moved(v, w, x, j)
  {
    hide Dropped, Inserted, View;
  }

  // ---- the lists of a table and their neighbours

  /** Different lists share no items and no sentinels: an item is only in the list that it names. */
  lemma ListsApart(lists: seq<XList>, cells: set<Item>, i: nat, j: nat)
    requires Ground(lists, cells) && Zone(lists, cells) && i < |lists| && j < |lists| && i != j
    ensures lists[i] != lists[j] && lists[i].end != lists[j].end
    ensures forall x | x in lists[i].items :: x !in lists[j].items && x != lists[j].end
    ensures lists[i].end !in lists[j].items
  {
    hide Linked, Distinct, View;
    assert lists[i] in lists && lists[j] in lists;
    if i < j { assert lists[i] != lists[j]; } else { assert lists[j] != lists[i]; }
  }

  /** A list is valid, and its nodes are sentinels and cells. */
  lemma ListIn(lists: seq<XList>, cells: set<Item>, l: XList)
    requires Zone(lists, cells) && l in lists
    ensures l.Valid() && l.end in Ends(lists) && forall y | y in l.items :: y in cells && y.container == l
  {
    hide Linked, Distinct, View;
  }

  /** The list that a cell names, and its place in the table. */
  lemma Whereabouts(lists: seq<XList>, cells: set<Item>, x: Item) returns (i: nat, l: XList)
    requires Ground(lists, cells) && Zone(lists, cells) && x in cells && x.container != null
    ensures i < |lists| && l == lists[i] == x.container && l in lists && OnlyIn(View(lists), x, i)
  {
    hide Linked, Distinct, Apart, View;
    l := x.container;
    i :| i < |lists| && lists[i] == l;
    forall h | 0 <= h < |lists| && h != i ensures x !in lists[h].items {
      ListsApart(lists, cells, i, h);
    }
  }

  lemma ListCount(lists: seq<XList>, cells: set<Item>, i: nat)
    requires Zone(lists, cells) && i < |lists|
    ensures lists[i].count == |lists[i].items| && lists[i] in lists
  {
    hide Linked, Distinct, View;
    assert lists[i] in lists;
  }

  lemma GroundApart(lists: seq<XList>, cells: set<Item>)
    requires Ground(lists, cells)
    ensures Apart(lists) && Ends(lists) !! cells && allocated(Ends(lists))
  {
  }

  /** A cell that names no list is in none. */
  lemma NamelessNowhere(lists: seq<XList>, cells: set<Item>, x: Item)
    requires Zone(lists, cells) && x.container == null
    ensures Nowhere(View(lists), x)
  {
    hide XList.Valid, View;
    forall h | 0 <= h < |lists| ensures x !in lists[h].items {
      ListIn(lists, cells, lists[h]);
    }
  }

  /** A cell is in list i exactly if it names it. */
  lemma InIfNamed(lists: seq<XList>, cells: set<Item>, i: nat, x: Item)
    requires Zone(lists, cells) && i < |lists| && x in cells
    ensures x in lists[i].items <==> x.container == lists[i]
  {
    hide Linked, Distinct, View;
    assert lists[i] in lists;
  }

  /** A list none of whose links changed stays valid. */
  twostate lemma ValidKept(l: XList)
    requires old(l.Valid()) && unchanged(l) && unchanged(l.end)
    requires forall y | y in l.items :: unchanged(y`next) && unchanged(y`prev) && unchanged(y`container)
    ensures l.Valid()
  {
    var ring := [l.end] + l.items + [l.end];
    forall k | 0 <= k < |ring| ensures ring[k] == l.end || ring[k] in l.items {
    }
    forall k | 0 <= k < |ring| - 1 ensures ring[k].next == ring[k + 1] && ring[k + 1].prev == ring[k] {
      assert old(ring[k].next == ring[k + 1] && ring[k + 1].prev == ring[k]);
    }
  }

  /** What list i and a cell x have to do with the other lists: nothing, unless x is in one of them. */
  lemma Surround(lists: seq<XList>, cells: set<Item>, i: nat, l: XList, x: Item)
    requires Ground(lists, cells) && Zone(lists, cells) && i < |lists| && l == lists[i] && x in cells
    ensures l.Valid() && x !in Ends(lists) && (forall y | y in l.items :: y in cells)
    ensures forall j | 0 <= j < |lists| && j != i :: lists[j].Valid() && l != lists[j] && l.end != lists[j].end && l.end !in lists[j].items
    ensures forall j | 0 <= j < |lists| && j != i :: forall y | y in l.items :: y !in lists[j].items && y != lists[j].end
    ensures forall j | 0 <= j < |lists| :: x != lists[j].end && (x in lists[j].items ==> x.container == lists[j])
  {
    hide Linked, Distinct, Apart, View;
    assert l in lists;
    forall j | 0 <= j < |lists|
      ensures x != lists[j].end && (x in lists[j].items ==> x.container == lists[j])
      ensures j != i ==> lists[j].Valid() && l != lists[j] && l.end != lists[j].end && l.end !in lists[j].items
      ensures j != i ==> forall y | y in l.items :: y !in lists[j].items && y != lists[j].end
    {
      assert lists[j] in lists && lists[j].end in Ends(lists);
      if j != i { ListsApart(lists, cells, i, j); }
    }
  }

  /** The lists of v hold only cells. */
  ghost predicate Hold(v: seq<seq<Item>>, cells: set<Item>) {
    forall h, y | 0 <= h < |v| && y in v[h] :: y in cells
  }

  /** Of the cells, those that name a list are in it, as v tells. */
  ghost predicate Named(lists: seq<XList>, v: seq<seq<Item>>, cells: set<Item>)
    reads cells`container
  {
    forall y | y in cells && y.container != null :: exists h :: 0 <= h < |lists| == |v| && lists[h] == y.container && y in v[h]
  }

  lemma ZoneParts(lists: seq<XList>, cells: set<Item>, x: Item)
    requires Zone(lists, cells)
    ensures Hold(View(lists), cells) && Named(lists, View(lists), cells - {x})
  {
    hide XList.Valid, View;
    forall y | y in cells && y.container != null ensures exists h :: 0 <= h < |lists| && lists[h] == y.container && y in View(lists)[h] {
      var h :| 0 <= h < |lists| && lists[h] == y.container;
      assert y in View(lists)[h];
    }
  }

  /** The table is in order again when all lists are valid, other cells are where they were and name what they named, and x
      is in the list that it names. */
  lemma ZoneAgain(lists: seq<XList>, cells: set<Item>, x: Item, v: seq<seq<Item>>)
    requires Hold(v, cells) && Named(lists, v, cells - {x}) && SameElse(v, View(lists), x) && x in cells
    requires forall l | l in lists :: l.Valid()
    requires x.container != null ==> x.container in lists && x in x.container.items
    ensures Zone(lists, cells)
  {
    hide XList.Valid, View;
    forall l, y | l in lists && y in l.items ensures y in cells {
      var h :| 0 <= h < |lists| && lists[h] == l;
      assert y in View(lists)[h];
    }
    forall y | y in cells && y.container != null ensures y.container in lists && y in y.container.items {
      if y != x {
        assert y in cells - {x};
        var h :| 0 <= h < |lists| && lists[h] == y.container && y in v[h];
        assert y in View(lists)[h];
      }
    }
  }

  // ---- the steps

  /** uxListRemove: the item leaves the list that it names. If it names none, nothing happens, in whatever state the lists are. */
  method Remove(ghost lists: seq<XList>, ghost cells: set<Item>, x: Item)
    requires lists != [] && Ground(lists, cells) && x in cells && (x.container != null ==> Zone(lists, cells))
    modifies lists, Ends(lists)`next, Ends(lists)`prev, cells`next, cells`prev, x`container
    ensures x.container == null && (old(Zone(lists, cells)) ==> Zone(lists, cells) && Left(old(View(lists)), View(lists), x))
  {
    hide XList.Valid, Zone, Ground, Apart, Dropped, Left, OnlyIn, Nowhere, Ends, Hold, Named, SameElse, View;
    ghost var v, i, l, loose := View(lists), 0, lists[0], x.container == null;
    if !loose {
      i, l := Whereabouts(lists, cells, x);
      Listed(v, x, i);
      ListIn(lists, cells, l);
      ZoneParts(lists, cells, x);
    } else if Zone(lists, cells) {
      NamelessNowhere(lists, cells, x);
      LeftNothing(v, x);
    }
    RemoveFrom(lists, cells, x, i, l);
    if !loose {
      LeftBy(v, View(lists), x, i);
      LeftParts(v, View(lists), x);
      ZoneAgain(lists, cells, x, v);
    }
  }

  lemma Listed(v: seq<seq<Item>>, x: Item, i: nat)
    requires OnlyIn(v, x, i)
    ensures i < |v| && x in v[i]
  {
  }

  lemma LeftParts(v: seq<seq<Item>>, w: seq<seq<Item>>, x: Item)
    requires Left(v, w, x)
    ensures SameElse(v, w, x) && Nowhere(w, x) && |w| == |v|
  {
  }

  /** With l the list that the item names, if it names one. */
  method RemoveFrom(ghost lists: seq<XList>, ghost cells: set<Item>, x: Item, ghost i: nat, ghost l: XList)
    requires Ground(lists, cells) && x in cells && i < |lists| && l == lists[i]
    requires x.container != null ==> Zone(lists, cells) && x.container == l && x in l.items
    modifies x`container, NamedList(x, l)`count, NamedList(x, l)`index, NamedList(x, l)`items
    modifies NamedNodes(x, l)`next, NamedNodes(x, l)`prev
    ensures x.container == null
    ensures old(x.container) == null ==> Zone(lists, cells) == old(Zone(lists, cells)) && View(lists) == old(View(lists))
    ensures old(x.container) != null ==> (forall m | m in lists :: m.Valid()) && Dropped(old(l.items), l.items, x) && x !in l.items
    ensures forall j | 0 <= j < |lists| && j != i :: lists[j].items == old(lists[j].items)
  {
    hide Linked, Distinct, Dropped, Ground, Zone, Ends, View;
    ghost var loose, v := x.container == null, View(lists);
    GroundApart(lists, cells);
    if !loose { Surround(lists, cells, i, l, x); }
    hide XList.Valid, View;
    var left := ListRemove(x, l);
    if loose {
      assert View(lists) == v;
    } else {
      forall m | m in lists ensures m.Valid() {
        var j :| 0 <= j < |lists| && lists[j] == m;
        if j != i { ValidKept(m); }
      }
    }
  }

  /** vListInsertEnd, for an item of no list. */
  method Append(ghost lists: seq<XList>, ghost cells: set<Item>, x: Item, ghost j: nat, l: XList)
    requires Ground(lists, cells) && Zone(lists, cells) && x in cells && x.container == null && j < |lists| && l == lists[j]
    modifies lists`count, lists`items, Ends(lists)`next, Ends(lists)`prev, cells`next, cells`prev, x`container
    ensures Zone(lists, cells) && x.container == l && Added(old(View(lists)), View(lists), x, j)
    ensures Queued(old(l.Upcoming()), l.Upcoming(), x, l.index == l.end)
  {
    hide XList.Valid, Zone, Ground, Apart, Inserted, Added, OnlyIn, Nowhere, Ends, Hold, Named, SameElse, Queued, XList.Upcoming, View;
    ghost var v := View(lists);
    NamelessNowhere(lists, cells, x);
    ListIn(lists, cells, l);
    ZoneParts(lists, cells, x);
    ghost var k := AppendTo(lists, cells, x, j, l);
    AddedBy(v, View(lists), x, j, k);
    AddedParts(v, View(lists), x, j);
    ZoneAgain(lists, cells, x, v);
  }

  lemma AddedParts(v: seq<seq<Item>>, w: seq<seq<Item>>, x: Item, j: nat)
    requires Added(v, w, x, j)
    ensures SameElse(v, w, x) && OnlyIn(w, x, j) && j < |w| == |v| && x in w[j]
  {
  }

  method AppendTo(ghost lists: seq<XList>, ghost cells: set<Item>, x: Item, ghost j: nat, l: XList) returns (ghost k: nat)
    requires Ground(lists, cells) && Zone(lists, cells) && x in cells && x.container == null && j < |lists| && l == lists[j]
    modifies l`count, l`items, x`next, x`prev, x`container, l.end`next, l.end`prev, l.items`next, l.items`prev
    ensures (forall m | m in lists :: m.Valid()) && x.container == l && k <= |old(l.items)| && l.items == Inserted(old(l.items), k, x)
    ensures forall i | 0 <= i < |lists| && i != j :: lists[i].items == old(lists[i].items)
    ensures Queued(old(l.Upcoming()), l.Upcoming(), x, l.index == l.end)
  {
    hide Linked, Distinct, Queued, Ground, Zone, XList.Upcoming, View;
    Surround(lists, cells, j, l, x);
    hide XList.Valid, View;
    k := ListInsertEnd(l, x);
    forall m | m in lists ensures m.Valid() {
      var i :| 0 <= i < |lists| && lists[i] == m;
      if i != j { ValidKept(m); }
    }
  }

  /** vListInsert. Of an item of no list it makes an item of this one. An item that is in a list already spoils the list that
      it was in: there is no way any more to see that one as a list in order. */
  method Insert(ghost lists: seq<XList>, ghost cells: set<Item>, x: Item, ghost j: nat, l: XList)
    requires Ground(lists, cells) && Zone(lists, cells) && x in cells && x.value <= PORT_MAX_DELAY && j < |lists| && l == lists[j]
    modifies lists`count, lists`items, Ends(lists)`next, Ends(lists)`prev, cells`next, cells`prev, x`container
    ensures x.container == l && l.count == old(l.count) + 1
    ensures old(x.container) == null ==> Zone(lists, cells) && Added(old(View(lists)), View(lists), x, j)
    ensures old(x.container) == null ==> l.items == Inserted(old(l.items), InsertPlace(old(l.items), x.value), x)
    ensures old(x.container) != null ==> !SoundLists(lists, cells)
  {
    hide XList.Valid, Zone, Ground, Apart, Inserted, Added, OnlyIn, Nowhere, Ends, Hold, Named, SameElse, InsertPlace, Sound, View;
    ghost var v, i, loose := View(lists), 0, x.container == null;
    if loose {
      NamelessNowhere(lists, cells, x);
    } else {
      ghost var from;
      i, from := Whereabouts(lists, cells, x);
      Listed(v, x, i);
      ListCount(lists, cells, i);
    }
    ListIn(lists, cells, l);
    ZoneParts(lists, cells, x);
    GroundApart(lists, cells);
    InsertInto(lists, cells, x, j, l);
    if loose {
      AddedBy(v, View(lists), x, j, InsertPlace(v[j], x.value));
      AddedParts(v, View(lists), x, j);
      ZoneAgain(lists, cells, x, v);
    } else {
      Spoiled(lists, cells, x, v, i);
    }
  }

  method InsertInto(ghost lists: seq<XList>, ghost cells: set<Item>, x: Item, ghost j: nat, l: XList)
    requires Ground(lists, cells) && Zone(lists, cells) && x in cells && x.value <= PORT_MAX_DELAY && j < |lists| && l == lists[j]
    modifies l`count, l`items, x`next, x`prev, x`container, l.end`next, l.end`prev, l.items`next, l.items`prev
    ensures x.container == l && l.count == old(l.count) + 1
    ensures old(x.container) == null ==> (forall m | m in lists :: m.Valid()) && l.items == Inserted(old(l.items), InsertPlace(old(l.items), x.value), x)
    ensures forall i | 0 <= i < |lists| && i != j :: lists[i].items == old(lists[i].items)
  {
    hide Linked, Distinct, InsertPlace, Ground, Zone, Inserted, View;
    Surround(lists, cells, j, l, x);
    hide XList.Valid, View;
    ghost var loose := x.container == null;
    ghost var k := ListInsert(l, x);
    if loose {
      forall m | m in lists ensures m.Valid() {
        var i :| 0 <= i < |lists| && lists[i] == m;
        if i != j { ValidKept(m); }
      }
    }
  }

  /** The list that the item was in counts it still, but one item less names it; or, if it is the same list, counts it twice. */
  lemma Spoiled(lists: seq<XList>, cells: set<Item>, x: Item, v: seq<seq<Item>>, i: nat)
    requires Apart(lists) && |v| == |lists| && i < |v| && x in v[i] && Named(lists, v, cells - {x})
    requires lists[i].count == if x.container == lists[i] then |v[i]| + 1 else |v[i]|
    ensures !Sound(lists[i], cells)
  {
    hide Sound, View;
    var k: nat :| k < |v[i]| && v[i][k] == x;
    var t := if x.container == lists[i] then v[i] else Without(v[i], k);
    forall y | y in cells && y.container == lists[i] ensures y in t {
      if y != x {
        assert y in cells - {x};
        var h :| 0 <= h < |lists| && lists[h] == y.container && y in v[h];
        assert h == i;
        var n: nat :| n < |v[i]| && v[i][n] == y;
        assert t[if x.container == lists[i] || n < k then n else n - 1] == y;
      }
    }
    Unsound(lists[i], cells, t);
  }

  /** Every list can be seen as a list in order. */
  ghost predicate SoundLists(lists: seq<XList>, cells: set<Item>)
    reads lists, Ends(lists), cells`next, cells`prev, cells`container
  {
    forall l | l in lists :: Sound(l, cells)
  }

  lemma AllSound(lists: seq<XList>, cells: set<Item>)
    requires Zone(lists, cells)
    ensures SoundLists(lists, cells)
  {
    forall l | l in lists ensures Sound(l, cells) {
      assert Within(l.items, cells) && l.Holds(l.items);
    }
  }

  /** uxListRemove and vListInsertEnd. */
  method Relocate(ghost lists: seq<XList>, ghost cells: set<Item>, x: Item, ghost j: nat, l: XList)
    requires Ground(lists, cells) && Zone(lists, cells) && x in cells && j < |lists| && l == lists[j]
    modifies lists, Ends(lists)`next, Ends(lists)`prev, cells`next, cells`prev, x`container
    ensures Zone(lists, cells) && x.container == l && Moved(old(View(lists)), View(lists), x, j)
  {
    hide XList.Valid, Zone, Ground, Left, Added, Moved, Ends, Queued, XList.Upcoming, View;
    ghost var v := View(lists);
    Remove(lists, cells, x);
    ghost var v1 := View(lists);
    Append(lists, cells, x, j, l);
    LeftThenAdded(v, v1, View(lists), x, j);
  }

  /** uxListRemove and vListInsert; m is the target list in between. */
  method RelocateSorted(ghost lists: seq<XList>, ghost cells: set<Item>, x: Item, ghost j: nat, l: XList) returns (ghost m: seq<Item>)
    requires Ground(lists, cells) && Zone(lists, cells) && x in cells && j < |lists| && l == lists[j] && x.value <= PORT_MAX_DELAY
    modifies lists, Ends(lists)`next, Ends(lists)`prev, cells`next, cells`prev, x`container
    ensures Zone(lists, cells) && x.container == l && Moved(old(View(lists)), View(lists), x, j)
    ensures x !in m && (m == old(l.items) || Dropped(old(l.items), m, x)) && l.items == Inserted(m, InsertPlace(m, x.value), x)
  {
    hide XList.Valid, Zone, Ground, Left, Added, Moved, Ends, Inserted, InsertPlace, Dropped, View;
    ghost var v := View(lists);
    Remove(lists, cells, x);
    ghost var v1 := View(lists);
    m := v1[j];
    LeftAt(v, v1, x, j);
    Insert(lists, cells, x, j, l);
    LeftThenAdded(v, v1, View(lists), x, j);
  }

  lemma LeftAt(v: seq<seq<Item>>, w: seq<seq<Item>>, x: Item, j: nat)
    requires Left(v, w, x) && j < |v|
    ensures |w| == |v| && x !in w[j] && (w[j] == v[j] || Dropped(v[j], w[j], x))
  {
    hide Dropped, View;
  }

  /** A new cell, in no list yet. */
  lemma OneMoreCell(lists: seq<XList>, cells: set<Item>, x: Item)
    requires Zone(lists, cells) && x.container == null
    ensures Zone(lists, cells + {x})
  {
    hide XList.Valid, View;
  }

  ghost predicate AllEmpty(lists: seq<XList>)
    reads lists, Ends(lists)
  {
    forall l | l in lists :: l.items == [] && l.Valid()
  }

  /** Empty lists, and cells in none. */
  lemma EmptyZone(lists: seq<XList>, cells: set<Item>)
    requires AllEmpty(lists) && forall x | x in cells :: x.container == null
    ensures Zone(lists, cells)
  {
    hide XList.Valid, View;
  }

  /** The first node of a list, and whether there is one. */
  lemma HeadOf(lists: seq<XList>, cells: set<Item>, l: XList)
    requires Zone(lists, cells) && l in lists
    ensures l.count == |l.items| && l.end.next == if l.items == [] then l.end else l.items[0]
    ensures l.items != [] ==> l.items[0] in l.items && l.items[0] in cells && l.items[0].container == l
  {
    NextIs(l, 0);
  }

  /** getOwnerOfNextEntry: only the index of the list moves. */
  method NextOf(ghost lists: seq<XList>, ghost cells: set<Item>, l: XList) returns (owner: Tcb?)
    requires Zone(lists, cells) && l in lists && l.items != []
    modifies l`index
    ensures Zone(lists, cells) && View(lists) == old(View(lists))
    ensures |old(l.Upcoming())| == |l.items| && l.index == old(l.Upcoming())[0] && owner == l.index.owner && l.index in l.items
    ensures l.Upcoming() == old(l.Upcoming())[1..] + [old(l.Upcoming())[0]]
  {
    hide Linked, Distinct, XList.Upcoming, View;
    UpcomingIsAll(l);
    owner := GetOwnerOfNextEntry(l);
    assert View(lists) == old(View(lists));
  }

  // ---- two tables side by side

  /** Two tables have neither lists nor nodes in common. */
  ghost predicate Foreign(lists: seq<XList>, cells: set<Item>, others: seq<XList>, cells2: set<Item>) {
    (forall l | l in lists :: l !in others) && Ends(lists) + cells !! Ends(others) + cells2
  }

  lemma ForeignParts(lists: seq<XList>, cells: set<Item>, others: seq<XList>, cells2: set<Item>)
    requires Foreign(lists, cells, others, cells2)
    ensures forall i | 0 <= i < |others| :: others[i] !in lists
    ensures Ends(lists) + cells !! Ends(others) + cells2 && allocated(Ends(others)) && allocated(cells2)
  {
  }

  /** Nothing of a table has changed. */
  twostate predicate Untouched(lists: seq<XList>, cells: set<Item>)
    reads lists, Ends(lists), cells`next, cells`prev, cells`container
  {
    View(lists) == old(View(lists)) && Zone(lists, cells) == old(Zone(lists, cells)) && SoundLists(lists, cells) == old(SoundLists(lists, cells))
  }

  method RemoveHere(ghost lists: seq<XList>, ghost cells: set<Item>, ghost others: seq<XList>, ghost cells2: set<Item>, x: Item)
    requires lists != [] && Ground(lists, cells) && x in cells && (x.container != null ==> Zone(lists, cells))
    requires Foreign(lists, cells, others, cells2)
    modifies lists, Ends(lists)`next, Ends(lists)`prev, cells`next, cells`prev, x`container
    ensures x.container == null && (old(Zone(lists, cells)) ==> Zone(lists, cells) && Left(old(View(lists)), View(lists), x))
    ensures Untouched(others, cells2)
  {
    hide XList.Valid, Zone, Ground, Ends, Left, Foreign, View, SoundLists;
    ForeignParts(lists, cells, others, cells2);
    Remove(lists, cells, x);
  }

  method AppendHere(ghost lists: seq<XList>, ghost cells: set<Item>, ghost others: seq<XList>, ghost cells2: set<Item>, x: Item, ghost j: nat, l: XList)
    requires Ground(lists, cells) && Zone(lists, cells) && x in cells && x.container == null && j < |lists| && l == lists[j]
    requires Foreign(lists, cells, others, cells2)
    modifies lists`count, lists`items, Ends(lists)`next, Ends(lists)`prev, cells`next, cells`prev, x`container
    ensures Zone(lists, cells) && x.container == l && Added(old(View(lists)), View(lists), x, j)
    ensures Untouched(others, cells2)
  {
    hide XList.Valid, Zone, Ground, Ends, Added, Foreign, Queued, XList.Upcoming, View, SoundLists;
    ForeignParts(lists, cells, others, cells2);
    Append(lists, cells, x, j, l);
  }

  method RelocateHere(ghost lists: seq<XList>, ghost cells: set<Item>, ghost others: seq<XList>, ghost cells2: set<Item>, x: Item, ghost j: nat, l: XList)
    requires Ground(lists, cells) && Zone(lists, cells) && x in cells && j < |lists| && l == lists[j]
    requires Foreign(lists, cells, others, cells2)
    modifies lists, Ends(lists)`next, Ends(lists)`prev, cells`next, cells`prev, x`container
    ensures Zone(lists, cells) && x.container == l && Moved(old(View(lists)), View(lists), x, j)
    ensures Untouched(others, cells2)
  {
    hide XList.Valid, Zone, Ground, Ends, Moved, Foreign, View, SoundLists;
    ForeignParts(lists, cells, others, cells2);
    Relocate(lists, cells, x, j, l);
  }

  method RelocateSortedHere(ghost lists: seq<XList>, ghost cells: set<Item>, ghost others: seq<XList>, ghost cells2: set<Item>, x: Item, ghost j: nat,
      l: XList)
    returns (ghost m: seq<Item>)
    requires Ground(lists, cells) && Zone(lists, cells) && x in cells && j < |lists| && l == lists[j] && x.value <= PORT_MAX_DELAY
    requires Foreign(lists, cells, others, cells2)
    modifies lists, Ends(lists)`next, Ends(lists)`prev, cells`next, cells`prev, x`container
    ensures Zone(lists, cells) && x.container == l && Moved(old(View(lists)), View(lists), x, j)
    ensures x !in m && (m == old(l.items) || Dropped(old(l.items), m, x)) && l.items == Inserted(m, InsertPlace(m, x.value), x)
    ensures Untouched(others, cells2)
  {
    hide XList.Valid, Zone, Ground, Ends, Moved, Foreign, Dropped, Inserted, InsertPlace, View, SoundLists;
    ForeignParts(lists, cells, others, cells2);
    m := RelocateSorted(lists, cells, x, j, l);
  }

  method InsertHere(ghost lists: seq<XList>, ghost cells: set<Item>, ghost others: seq<XList>, ghost cells2: set<Item>, x: Item, ghost j: nat, l: XList)
    requires Ground(lists, cells) && Zone(lists, cells) && x in cells && x.value <= PORT_MAX_DELAY && j < |lists| && l == lists[j]
    requires Foreign(lists, cells, others, cells2)
    modifies lists`count, lists`items, Ends(lists)`next, Ends(lists)`prev, cells`next, cells`prev, x`container
    ensures x.container == l && l.count == old(l.count) + 1
    ensures old(x.container) == null ==> Zone(lists, cells) && Added(old(View(lists)), View(lists), x, j)
    ensures old(x.container) == null ==> l.items == Inserted(old(l.items), InsertPlace(old(l.items), x.value), x)
    ensures old(x.container) != null ==> !SoundLists(lists, cells)
    ensures Untouched(others, cells2)
  {
    hide XList.Valid, Zone, Ground, Ends, Added, Foreign, Inserted, InsertPlace, Sound, View, SoundLists;
    ForeignParts(lists, cells, others, cells2);
    Insert(lists, cells, x, j, l);
  }

  /** uxListRemove for x in one table and for e in the other, then vListInsertEnd for x. */
  method Resettle(ghost lists: seq<XList>, ghost cells: set<Item>, ghost others: seq<XList>, ghost cells2: set<Item>, x: Item, e: Item, ghost j: nat,
      l: XList)
    requires Ground(lists, cells) && Zone(lists, cells) && x in cells && j < |lists| && l == lists[j]
    requires others != [] && Ground(others, cells2) && e in cells2 && x !in cells2 && (e.container != null ==> Zone(others, cells2))
    requires Foreign(lists, cells, others, cells2) && Foreign(others, cells2, lists, cells)
    modifies lists, Ends(lists)`next, Ends(lists)`prev, cells`next, cells`prev, x`container
    modifies others, Ends(others)`next, Ends(others)`prev, cells2`next, cells2`prev, e`container
    ensures Zone(lists, cells) && x.container == l && e.container == null && Moved(old(View(lists)), View(lists), x, j)
    ensures old(Zone(others, cells2)) ==> Zone(others, cells2) && Left(old(View(others)), View(others), e)
  {
    hide XList.Valid, Zone, Ground, Ends, Left, Added, Moved, Foreign, View;
    ghost var v := View(lists);
    RemoveHere(lists, cells, others, cells2, x);
    ghost var v1 := View(lists);
    RemoveHere(others, cells2, lists, cells, e);
    AppendHere(lists, cells, others, cells2, x, j, l);
    LeftThenAdded(v, v1, View(lists), x, j);
  }
}
