/** The kernel's intrusive circular list (list.rs): items linked both ways around a sentinel, a moving index. */
module KernelList {

  const PORT_MAX_DELAY: nat := 0xFFFF_FFFF_FFFF_FFFF

  /** A task control block, as far as lists see it. */
  class Tcb {
    const stateItem: Item
    const eventItem: Item
    var priority: nat

    constructor (stateItem: Item, eventItem: Item, priority: nat)
      ensures this.stateItem == stateItem && this.eventItem == eventItem && this.priority == priority
    {
      this.stateItem, this.eventItem, this.priority := stateItem, eventItem, priority;
    }
  }

  class Item {
    var value: nat
    var next: Item?
    var prev: Item?
    var owner: Tcb?
    var container: XList?

    constructor (value: nat)
      ensures this.value == value && next == null && prev == null && owner == null && container == null
    {
      this.value := value;
      next, prev, owner, container := null, null, null, null;
    }
  }

  ghost predicate Distinct(s: seq<Item>) {
    forall i, j | 0 <= i < j < |s| :: s[i] != s[j]
  }

  /** Following nodes are linked both ways. */
  ghost predicate Linked(nodes: seq<Item>)
    reads nodes`next, nodes`prev
  {
    forall k | 0 <= k < |nodes| - 1 :: nodes[k].next == nodes[k + 1] && nodes[k + 1].prev == nodes[k]
  }

  ghost predicate Sorted(s: seq<Item>)
    reads s`value
  {
    forall i, j | 0 <= i < j < |s| :: s[i].value <= s[j].value
  }

  ghost function Inserted(s: seq<Item>, k: nat, x: Item): seq<Item>
    requires k <= |s|
  {
    s[..k] + [x] + s[k..]
  }

  ghost function Without(s: seq<Item>, k: nat): seq<Item>
    requires k < |s|
  {
    s[..k] + s[k + 1..]
  }

  class XList {
    var count: nat
    var index: Item
    const end: Item
    ghost var items: seq<Item>

    constructor ()
      ensures Valid() && items == [] && index == end && fresh(end)
    {
      var e := new Item(PORT_MAX_DELAY);
      e.next, e.prev := e, e;
      count, index, end, items := 0, e, e, [];
    }

    /** The ring from sentinel to sentinel. */
    ghost function Ring(): seq<Item>
      reads this
    {
      [end] + items + [end]
    }

    /** The list holds exactly the items s: the links are mutually inverse around the sentinel, the count is the true
        length, and every item names the list as its container. */
    ghost predicate Holds(s: seq<Item>)
      reads this, end, s`next, s`prev, s`container
    {
      && end !in s && Distinct(s) && count == |s|
      && end.value == PORT_MAX_DELAY && end.container == null
      && (index == end || index in s)
      && (forall x | x in s :: x.container == this)
      && Linked([end] + s + [end])
    }

    ghost predicate Valid()
      reads this, end, items`next, items`prev, items`container
    {
      Holds(items)
    }

    /** The items in the order in which the index will meet them. */
    ghost function Upcoming(): (u: seq<Item>)
      reads this
    {
      if k :| 0 <= k < |items| && items[k] == index then items[k + 1..] + items[..k + 1] else items
    }
  }

  /** Where the index stands. */
  lemma IndexAt(l: XList) returns (k: nat)
    requires l.Valid()
    ensures l.index == l.end ==> k == |l.items| && l.Upcoming() == l.items
    ensures l.index != l.end ==> k < |l.items| && l.items[k] == l.index && l.Upcoming() == l.items[k + 1..] + l.items[..k + 1]
    ensures k <= |l.items| && l.Ring()[k + 1] == l.index
  {
    if l.index == l.end {
      k := |l.items|;
    } else {
      k :| 0 <= k < |l.items| && l.items[k] == l.index;
    }
  }

  /** A ring from a sentinel to the same sentinel, without other repetitions. */
  ghost predicate IsRing(ring: seq<Item>) {
    |ring| >= 2 && ring[|ring| - 1] == ring[0] && Distinct(ring[..|ring| - 1])
  }

  lemma RingApart(ring: seq<Item>, i: nat, j: nat)
    requires IsRing(ring) && i < |ring| && j < |ring| && i != j && !(i == 0 && j == |ring| - 1) && !(j == 0 && i == |ring| - 1)
    ensures ring[i] != ring[j]
  {
    var s := ring[..|ring| - 1];
    var a, b := if i == |ring| - 1 then 0 else i, if j == |ring| - 1 then 0 else j;
    assert s[a] == ring[i] && s[b] == ring[j];
  }

  lemma RingOf(l: XList)
    requires l.Valid()
    ensures IsRing(l.Ring()) && Linked(l.Ring())
  {
    assert l.Ring()[..|l.items| + 1] == [l.end] + l.items;
  }

  /** All links of the ring but the one behind node k. */
  ghost predicate LinkedBut(ring: seq<Item>, k: nat)
    reads ring`next, ring`prev
  {
    forall j | 0 <= j < |ring| - 1 && j != k :: ring[j].next == ring[j + 1] && ring[j + 1].prev == ring[j]
  }

  /** The ring after x has been linked between nodes k and k + 1. */
  lemma Relinked(ring: seq<Item>, k: nat, x: Item)
    requires k + 1 < |ring| && LinkedBut(ring, k)
    requires ring[k].next == x && ring[k + 1].prev == x && x.next == ring[k + 1] && x.prev == ring[k]
    ensures Linked(ring[..k + 1] + [x] + ring[k + 1..])
  {
    var ring2 := ring[..k + 1] + [x] + ring[k + 1..];
    forall j | 0 <= j < |ring2| - 1 ensures ring2[j].next == ring2[j + 1] && ring2[j + 1].prev == ring2[j] {
      if j < k {
        assert ring[j].next == ring[j + 1];
      } else if j > k + 1 {
        assert ring[j - 1].next == ring[j];
      }
    }
  }

  lemma AllButOne(ring: seq<Item>, k: nat)
    requires Linked(ring)
    ensures LinkedBut(ring, k)
  {
  }

  /** Opens the link behind node k of a ring and puts x into it. What the code does to an item that is in the ring already
      has no name here. */
  method PutBetween(ghost ring: seq<Item>, ghost k: nat, at: Item, x: Item)
    requires IsRing(ring) && Linked(ring) && k + 1 < |ring| && at == ring[k + 1]
    modifies x`next, x`prev, ring`next, ring`prev
    ensures x !in ring ==> Linked(ring[..k + 1] + [x] + ring[k + 1..])
  {
    LinkAt(ring, k);
    AllButOne(ring, k);
    hide Linked;
    x.next := at;
    x.prev := at.prev;
    at.prev.next := x;
    at.prev := x;
    if x !in ring {
      forall j | 0 <= j < |ring| - 1 && j != k ensures ring[j].next == ring[j + 1] && ring[j + 1].prev == ring[j] {
        RingApart(ring, j, k);
        RingApart(ring, j + 1, k + 1);
      }
      Relinked(ring, k, x);
    }
  }

  /** Links x in front of node number k of the items (the sentinel if k is their number). */
  method LinkBefore(l: XList, at: Item, x: Item, ghost k: nat)
    requires l.Valid() && k <= |l.items| && at == l.Ring()[k + 1] && x != l.end
    modifies l`count, l`items, x`next, x`prev, l.end`next, l.end`prev, l.items`next, l.items`prev
    ensures l.items == Inserted(old(l.items), k, x) && l.count == old(l.count) + 1
    ensures x !in old(l.items) ==> Linked(l.Ring())
  {
    hide Linked, Distinct, LinkedBut, Inserted;
    ghost var ring, was := l.Ring(), l.items;
    RingOf(l);
    RingWith(l.end, was, k, x);
    PutBetween(ring, k, at, x);
    l.count := l.count + 1;
    l.items := Inserted(was, k, x);
  }

  lemma RingWith(end: Item, s: seq<Item>, k: nat, x: Item)
    requires k <= |s|
    ensures var ring := [end] + s + [end]; [end] + Inserted(s, k, x) + [end] == ring[..k + 1] + [x] + ring[k + 1..]
    ensures forall y | y in [end] + s + [end] :: y == end || y in s
  {
  }

  lemma RingLess(end: Item, s: seq<Item>, k: nat)
    requires k < |s|
    ensures var ring := [end] + s + [end]; [end] + Without(s, k) + [end] == ring[..k + 1] + ring[k + 2..]
  {
  }

  lemma LinkAt(ring: seq<Item>, k: nat)
    requires Linked(ring) && k + 1 < |ring|
    ensures ring[k].next == ring[k + 1] && ring[k + 1].prev == ring[k]
  {
  }

  // ---- inserting

  /** A list gets valid again when the item linked into it names it. */
  lemma ValidAfterInsert(l: XList, was: seq<Item>, k: nat, x: Item)
    requires k <= |was| && Distinct(was) && x !in was && x != l.end && l.end !in was
    requires l.items == Inserted(was, k, x) && l.count == |was| + 1 && Linked(l.Ring())
    requires l.end.value == PORT_MAX_DELAY && l.end.container == null && (l.index == l.end || l.index in was)
    requires x.container == l && forall y | y in was :: y.container == l
    ensures l.Valid()
  {
    hide Linked;
    forall y ensures y in l.items <==> y == x || y in was {
      if y in was {
        var i: nat :| i < |was| && was[i] == y;
        assert l.items[if i < k then i else i + 1] == y;
      }
      assert l.items[k] == x;
    }
  }

  /** Where a new item goes in the order of service: last, if the index is at the sentinel, else just before the item
      that was served last. */
  ghost predicate Queued(u: seq<Item>, u2: seq<Item>, x: Item, atEnd: bool) {
    if atEnd then u2 == u + [x] else u != [] && u2 == u[..|u| - 1] + [x] + [u[|u| - 1]]
  }

  /** vListInsertEnd: links the item in front of the index. Everything already waiting is served before it, but for the
      item under the index, which was served last. */
  method ListInsertEnd(l: XList, x: Item) returns (ghost k: nat)
    requires l.Valid() && x != l.end && x !in l.items
    modifies l`count, l`items, x`next, x`prev, x`container, l.end`next, l.end`prev, l.items`next, l.items`prev
    ensures l.Valid() && k <= |old(l.items)| && l.items == Inserted(old(l.items), k, x) && x.container == l
    ensures Queued(old(l.Upcoming()), l.Upcoming(), x, l.index == l.end)
  {
    hide Linked, Distinct, XList.Upcoming;
    ghost var was, u := l.items, l.Upcoming();
    k := IndexAt(l);
    LinkBefore(l, l.index, x, k);
    x.container := l;
    ValidAfterInsert(l, was, k, x);
    InsertedBeforeIndex(l, was, k, x, u);
  }

  lemma InsertedBeforeIndex(l: XList, was: seq<Item>, k: nat, x: Item, u: seq<Item>)
    requires l.Valid() && k <= |was| && l.items == Inserted(was, k, x) && x != l.index
    requires l.index == l.end ==> k == |was| && u == was
    requires l.index != l.end ==> k < |was| && was[k] == l.index && u == was[k + 1..] + was[..k + 1]
    ensures Queued(u, l.Upcoming(), x, l.index == l.end)
  {
    hide XList.Upcoming;
    var j := IndexAt(l);
    if l.index != l.end {
      assert l.items[k + 1] == l.index;
      assert j == k + 1;
      assert l.items[j + 1..] == was[k + 1..];
      assert l.items[..j + 1] == was[..k] + [x] + [was[k]];
      assert u[..|u| - 1] == was[k + 1..] + was[..k];
    }
  }

  /** The first place of a list whose value is at least v. */
  ghost function PlaceFor(s: seq<Item>, v: nat): (k: nat)
    reads s`value
    ensures k <= |s| && (forall i | 0 <= i < k :: s[i].value < v) && (k < |s| ==> s[k].value >= v)
  {
    if s == [] || s[0].value >= v then 0 else 1 + PlaceFor(s[1..], v)
  }

  lemma PlaceIs(s: seq<Item>, v: nat, k: nat)
    requires k <= |s| && (forall i | 0 <= i < k :: s[i].value < v) && (k < |s| ==> s[k].value >= v)
    ensures k == PlaceFor(s, v)
  {
  }

  /** Node j + 1 of the ring follows node j. */
  lemma NextIs(l: XList, j: nat)
    requires l.Valid() && j <= |l.items|
    ensures l.Ring()[j].next == l.Ring()[j + 1] && l.Ring()[j + 1].prev == l.Ring()[j]
    ensures l.Ring()[j + 1] == if j < |l.items| then l.items[j] else l.end
    ensures l.Ring()[j] == if j > 0 then l.items[j - 1] else l.end
  {
    LinkAt(l.Ring(), j);
  }

  /** Where vListInsert puts an item of value v. */
  ghost function InsertPlace(s: seq<Item>, v: nat): (k: nat)
    reads s`value
    ensures k <= |s|
  {
    if v == PORT_MAX_DELAY then (if s == [] then 0 else |s| - 1) else PlaceFor(s, v)
  }

  /** The search of insert: the node to link in front of. */
  method FindPlace(l: XList, v: nat) returns (it: Item, ghost k: nat)
    requires l.Valid() && v <= PORT_MAX_DELAY
    ensures k == InsertPlace(l.items, v) && it == l.Ring()[InsertPlace(l.items, v) + 1]
  {
    hide Linked, Distinct, PlaceFor;
    ghost var was := l.items;
    NextIs(l, 0);
    if v == PORT_MAX_DELAY {
      NextIs(l, |was|);
      it := l.end.prev;
      k := if was == [] then 0 else |was| - 1;
      if was != [] { NextIs(l, |was| - 1); }
    } else {
      it := l.end.next;
      k := 0;
      while it.value < v
        invariant k <= |was| && it == l.Ring()[k + 1] && (if k < |was| then it == was[k] else it == l.end)
        invariant forall i | 0 <= i < k :: was[i].value < v
        decreases |was| - k
      {
        NextIs(l, k + 1);
        it := it.next;
        k := k + 1;
      }
      PlaceIs(was, v, k);
    }
  }

  /** vListInsert: in front of the first item whose value is not smaller; the greatest value goes in front of the last item.
      Nothing keeps the code from inserting an item that is in the list already: it is counted once more. */
  method ListInsert(l: XList, x: Item) returns (ghost k: nat)
    requires l.Valid() && x != l.end && x.value <= PORT_MAX_DELAY
    modifies l`count, l`items, x`next, x`prev, x`container, l.end`next, l.end`prev, l.items`next, l.items`prev
    ensures k == InsertPlace(old(l.items), x.value) && x.container == l && l.count == old(l.count) + 1
    ensures l.Valid() <==> x !in old(l.items)
    ensures l.items == Inserted(old(l.items), k, x)
  {
    hide Linked, Distinct, InsertPlace;
    ghost var was := l.items;
    var it;
    it, k := FindPlace(l, x.value);
    LinkBefore(l, it, x, k);
    x.container := l;
    if x !in was {
      ValidAfterInsert(l, was, k, x);
    } else {
      Doubled(l, was, k, x);
    }
  }

  /** An item that was in the list already is in it twice. */
  lemma Doubled(l: XList, was: seq<Item>, k: nat, x: Item)
    requires k <= |was| && x in was && l.items == Inserted(was, k, x)
    ensures !l.Valid()
  {
    var i: nat :| i < |was| && was[i] == x;
    var j := if i < k then i else i + 1;
    assert l.items[j] == x && l.items[k] == x;
  }

  // ---- whether a list can be in order at all

  predicate Within(older s: seq<Item>, cells: set<Item>) {
    forall i | 0 <= i < |s| :: s[i] in cells
  }

  /** Some of the cells, in some order, are what the list holds. */
  ghost predicate Sound(l: XList, cells: set<Item>)
    reads l, l.end, cells`next, cells`prev, cells`container
  {
    exists s: seq<Item> :: Within(s, cells) && l.Holds(s)
  }

  /** Different items, all among those of t, are no more than those. */
  lemma {:induction false} NoMoreThan(s: seq<Item>, t: seq<Item>)
    requires Distinct(s) && forall x | x in s :: x in t
    ensures |s| <= |t|
  {
    if s != [] {
      var n := |s| - 1;
      assert s[n] in s;
      var k: nat :| k < |t| && t[k] == s[n];
      forall x | x in s[..n] ensures x in Without(t, k) {
        var i :| 0 <= i < n && s[..n][i] == x;
        assert s[i] in s;
        var j: nat :| j < |t| && t[j] == x;
        assert s[i] != s[n];
        assert Without(t, k)[if j < k then j else j - 1] == x;
      }
      NoMoreThan(s[..n], Without(t, k));
    }
  }

  /** A list that counts more items than name it holds nothing orderly. */
  lemma Unsound(l: XList, cells: set<Item>, t: seq<Item>)
    requires |t| < l.count && forall x | x in cells && x.container == l :: x in t
    ensures !Sound(l, cells)
  {
    if Sound(l, cells) {
      var s: seq<Item> :| Within(s, cells) && l.Holds(s);
      NoMoreThan(s, t);
      assert false;
    }
  }

  /** Sorted insertion keeps a list sorted, except that an item of the greatest value lands in front of the last one: then
      the list stays sorted only if it was empty or its last item had the greatest value too. */
  lemma InsertKeepsSorted(s: seq<Item>, x: Item, k: nat)
    requires Sorted(s) && (forall y | y in s :: y.value <= PORT_MAX_DELAY) && x.value <= PORT_MAX_DELAY
    requires k == InsertPlace(s, x.value)
    ensures Sorted(Inserted(s, k, x)) <==> x.value != PORT_MAX_DELAY || s == [] || s[|s| - 1].value == PORT_MAX_DELAY
  {
    var t := Inserted(s, k, x);
    if x.value != PORT_MAX_DELAY || s == [] || s[|s| - 1].value == PORT_MAX_DELAY {
      SortedWith(s, x, k);
    } else {
      assert t[|s| - 1] == x && t[|s|] == s[|s| - 1];
      assert s[|s| - 1] in s;
    }
  }

  /** An item of the greatest value that joins an item of value 5 is served before it. */
  method GreatestInFront() returns (l: XList)
    ensures fresh(l) && l.Valid() && |l.items| == 2 && l.items[0].value == PORT_MAX_DELAY && l.items[1].value == 5
    ensures !Sorted(l.items)
  {
    l := new XList();
    var five := new Item(5);
    var greatest := new Item(PORT_MAX_DELAY);
    hide Linked;
    var k := ListInsert(l, five);
    assert l.items == [five];
    k := ListInsert(l, greatest);
    assert l.items == [greatest, five];
  }

  lemma SortedWith(s: seq<Item>, x: Item, k: nat)
    requires Sorted(s) && k <= |s| && (k > 0 ==> s[k - 1].value <= x.value) && (k < |s| ==> x.value <= s[k].value)
    ensures Sorted(Inserted(s, k, x))
  {
    var t := Inserted(s, k, x);
    forall i, j | 0 <= i < j < |t| ensures t[i].value <= t[j].value {
      var a, b := if i < k then i else if i == k then k else i - 1, if j < k then j else j - 1;
      assert t[i] == if i == k then x else s[a];
      assert t[j] == if j == k then x else s[b];
    }
  }

  // ---- removing

  /** The ring after node k + 1 has been taken out. */
  lemma Unlinked(ring: seq<Item>, k: nat)
    requires k + 2 < |ring| && forall j | 0 <= j < |ring| - 1 && j != k && j != k + 1 :: ring[j].next == ring[j + 1] && ring[j + 1].prev == ring[j]
    requires ring[k].next == ring[k + 2] && ring[k + 2].prev == ring[k]
    ensures Linked(ring[..k + 1] + ring[k + 2..])
  {
    var ring2 := ring[..k + 1] + ring[k + 2..];
    forall j | 0 <= j < |ring2| - 1 ensures ring2[j].next == ring2[j + 1] && ring2[j + 1].prev == ring2[j] {
      if j < k {
        assert ring[j].next == ring[j + 1];
      } else if j > k {
        assert ring[j + 1].next == ring[j + 2];
      }
    }
  }

  /** Takes node k + 1 of a ring out of it. */
  method TakeOut(ghost ring: seq<Item>, ghost k: nat, x: Item)
    requires IsRing(ring) && Linked(ring) && k + 2 < |ring| && x == ring[k + 1]
    modifies ring`next, ring`prev
    ensures Linked(ring[..k + 1] + ring[k + 2..]) && x.prev == ring[k]
  {
    LinkAt(ring, k);
    LinkAt(ring, k + 1);
    RingApart(ring, k + 1, k + 2);
    RingApart(ring, k + 1, k);
    AllButOne(ring, k);
    hide Linked;
    x.next.prev := x.prev;
    x.prev.next := x.next;
    forall j | 0 <= j < |ring| - 1 && j != k && j != k + 1 ensures ring[j].next == ring[j + 1] && ring[j + 1].prev == ring[j] {
      RingApart(ring, j, k);
      RingApart(ring, j + 1, k + 2);
    }
    Unlinked(ring, k);
  }

  /** A list without its item number k, the index moved back if it stood there. */
  lemma ValidAfterRemove(l: XList, was: seq<Item>, k: nat, x: Item, index: Item)
    requires k < |was| && Distinct(was) && was[k] == x && l.end !in was
    requires l.items == Without(was, k) && l.count == |was| - 1 && Linked(l.Ring())
    requires l.end.value == PORT_MAX_DELAY && l.end.container == null && (index == l.end || index in was)
    requires l.index == if index != x then index else if k > 0 then was[k - 1] else l.end
    requires forall y | y in was && y != x :: y.container == l
    ensures l.Valid() && x !in l.items && forall y :: y in l.items <==> y in was && y != x
  {
    hide Linked;
    forall y ensures y in l.items <==> y in was && y != x {
      if y in was && y != x {
        var i: nat :| i < |was| && was[i] == y;
        assert l.items[if i < k then i else i - 1] == y;
      }
    }
    if index == x && k > 0 {
      assert was[k - 1] in was;
    }
  }

  /** s2 is s without one place where x was. */
  ghost predicate Dropped(s: seq<Item>, s2: seq<Item>, x: Item) {
    exists k: nat :: k < |s| && s[k] == x && s2 == Without(s, k)
  }

  /** The relinking part of uxListRemove, for item number k. */
  method Unlink(l: XList, x: Item, ghost k: nat)
    requires l.Valid() && k < |l.items| && l.items[k] == x
    modifies l`count, l`index, l`items, x`container, l.end`next, l.end`prev, l.items`next, l.items`prev
    ensures l.Valid() && l.items == Without(old(l.items), k) && x.container == null && x !in l.items
    ensures l.index == if old(l.index) != x then old(l.index) else if k > 0 then old(l.items)[k - 1] else l.end
  {
    hide Linked, Distinct, Without;
    ghost var was, index := l.items, l.index;
    ghost var ring := l.Ring();
    RingOf(l);
    RingLess(l.end, was, k);
    TakeOut(ring, k, x);
    if l.index == x {
      l.index := x.prev;
    }
    l.count := l.count - 1;
    l.items := Without(was, k);
    x.container := null;
    ValidAfterRemove(l, was, k, x, index);
  }

  /** What removing x touches: if it names no list, nothing. */
  ghost function NamedList(x: Item, l: XList): set<XList>
    reads x`container
  {
    if x.container == null then {} else {l}
  }

  ghost function NamedNodes(x: Item, l: XList): set<Item>
    reads x`container, l`items
  {
    if x.container == null then {} else {l.end} + set y | y in l.items
  }

  /** uxListRemove: takes the item out of the list that it names, and no other item loses its turn; an item in no list is
      left alone. The answer is the number of items left. */
  method ListRemove(x: Item, ghost l: XList) returns (left: nat)
    requires x.container != null ==> x.container == l && l.Valid() && x in l.items
    modifies x`container, NamedList(x, l)`count, NamedList(x, l)`index, NamedList(x, l)`items
    modifies NamedNodes(x, l)`next, NamedNodes(x, l)`prev
    ensures old(x.container) == null ==> left == 0
    ensures old(x.container) != null ==> l.Valid() && left == l.count && x !in l.items
    ensures old(x.container) != null ==> Dropped(old(l.items), l.items, x) && Dropped(old(l.Upcoming()), l.Upcoming(), x)
    ensures x.container == null
  {
    hide Linked, XList.Upcoming, Dropped, Without, XList.Valid;
    if x.container == null {
      return 0;
    }
    ghost var was, index, u := l.items, l.index, l.Upcoming();
    ghost var j := IndexAt(l);
    ghost var k := ItemAt(l, x);
    var list := x.container;
    Unlink(list, x, k);
    DroppedAt(was, k, x);
    RemovedFromOrder(l, was, k, x, index, j, u);
    left := list.count;
  }

  lemma ItemAt(l: XList, x: Item) returns (k: nat)
    requires l.Valid() && x in l.items
    ensures k < |l.items| && l.items[k] == x && Distinct(l.items) && l.end !in l.items
  {
    k :| k < |l.items| && l.items[k] == x;
  }

  lemma DroppedAt(s: seq<Item>, k: nat, x: Item)
    requires k < |s| && s[k] == x
    ensures Dropped(s, Without(s, k), x)
  {
  }

  /** Leaving item k out of a list that is read from behind item j on. */
  lemma RotateWithout(was: seq<Item>, j: nat, k: nat)
    requires j < |was| && k < |was| && j != k
    ensures var w, p := Without(was, k), if k > j then j else j - 1;
            p < |w| && w[p] == was[j] && Dropped(was[j + 1..] + was[..j + 1], w[p + 1..] + w[..p + 1], was[k])
  {
    var w, u := Without(was, k), was[j + 1..] + was[..j + 1];
    if k > j {
      var i := k - j - 1;
      assert w[j + 1..] == was[j + 1..k] + was[k + 1..] && w[..j + 1] == was[..j + 1];
      assert u[..i] == was[j + 1..k] && u[i + 1..] == was[k + 1..] + was[..j + 1];
      assert u[i] == was[k] && w[j + 1..] + w[..j + 1] == Without(u, i);
    } else {
      var i := |was| - j - 1 + k;
      assert w[j..] == was[j + 1..] && w[..j] == was[..k] + was[k + 1..j + 1];
      assert u[..i] == was[j + 1..] + was[..k] && u[i + 1..] == was[k + 1..j + 1];
      assert u[i] == was[k] && w[j..] + w[..j] == Without(u, i);
    }
  }

  /** Leaving out the item it was read from behind of: the reading starts one item earlier. */
  lemma RotateWithoutLast(was: seq<Item>, k: nat)
    requires k < |was|
    ensures var w, u := Without(was, k), was[k + 1..] + was[..k + 1];
      && (k > 0 ==> k - 1 < |w| && w[k - 1] == was[k - 1] && Dropped(u, w[k..] + w[..k], was[k]))
      && (k == 0 ==> Dropped(u, w, was[k]))
  {
    var w, u := Without(was, k), was[k + 1..] + was[..k + 1];
    assert u[|was| - 1] == was[k];
    assert w[k..] + w[..k] == Without(u, |was| - 1);
    if k == 0 { assert w == w[k..] + w[..k]; }
  }

  /** Removing an item takes it out of the order of service and leaves the others in theirs. */
  lemma RemovedFromOrder(l: XList, was: seq<Item>, k: nat, x: Item, index: Item, j: nat, u: seq<Item>)
    requires l.Valid() && k < |was| && was[k] == x && l.items == Without(was, k) && Distinct(was)
    requires index == l.end ==> j == |was| && u == was
    requires index != l.end ==> j < |was| && was[j] == index && u == was[j + 1..] + was[..j + 1]
    requires l.index == if index != x then index else if k > 0 then was[k - 1] else l.end
    requires l.end !in was
    ensures Dropped(u, l.Upcoming(), x)
  {
    hide XList.Upcoming, XList.Valid, Without, Dropped;
    var p := IndexAt(l);
    if index == l.end {
      DroppedAt(was, k, x);
    } else if k != j {
      RotateWithout(was, j, k);
      EndApart(was, j, l.end);
      SamePlace(l, p, if k > j then j else j - 1);
    } else {
      RotateWithoutLast(was, k);
      if k > 0 {
        EndApart(was, k - 1, l.end);
        SamePlace(l, p, k - 1);
      }
    }
  }

  lemma EndApart(was: seq<Item>, j: nat, end: Item)
    requires j < |was| && end !in was
    ensures was[j] != end
  {
  }

  lemma SamePlace(l: XList, p: nat, q: nat)
    requires l.Valid() && p < |l.items| && q < |l.items| && l.items[p] == l.items[q]
    ensures p == q
  {
  }

  // ---- serving

  /** getOwnerOfNextEntry: the index goes on by one item, over the sentinel; the item is the one whose turn it was, and it goes
      to the end of the order. In an empty list nothing is served. */
  method GetOwnerOfNextEntry(l: XList) returns (owner: Tcb?)
    requires l.Valid()
    modifies l`index
    ensures l.Valid()
    ensures l.items == [] ==> l.index == l.end && owner == l.end.owner
    ensures l.items != [] ==> |old(l.Upcoming())| == |l.items| && l.index == old(l.Upcoming())[0] && owner == l.index.owner
    ensures l.items != [] ==> l.Upcoming() == old(l.Upcoming())[1..] + [old(l.Upcoming())[0]]
  {
    hide Linked, Distinct, XList.Upcoming;
    ghost var u := l.Upcoming();
    ghost var k := IndexAt(l);
    if l.index == l.end {
      NextIs(l, 0);
      l.index := l.index.next;
      if l.index == l.end { l.index := l.index.next; }
      if l.items != [] { Turned(l, 0, u); }
    } else {
      NextIs(l, k + 1);
      NextIs(l, 0);
      l.index := l.index.next;
      if l.index == l.end { l.index := l.index.next; }
      Turned(l, if k + 1 < |l.items| then k + 1 else 0, u);
    }
    owner := l.index.owner;
  }

  lemma Turned(l: XList, k: nat, u: seq<Item>)
    requires l.Valid() && k < |l.items| && l.items[k] == l.index
    requires u == if k > 0 then l.items[k..] + l.items[..k] else l.items
    ensures |u| == |l.items| && l.index == u[0] && l.Upcoming() == u[1..] + [u[0]]
  {
    hide XList.Upcoming;
    var j := IndexAt(l);
    assert j == k;
  }

  /** The order of service is an order of exactly the items of the list. */
  lemma UpcomingIsAll(l: XList)
    requires l.Valid()
    ensures |l.Upcoming()| == |l.items| == l.count && Distinct(l.Upcoming()) && forall x :: x in l.Upcoming() <==> x in l.items
    ensures forall i | 0 <= i < |l.Upcoming()| :: l.Upcoming()[i] in l.items
  {
    hide XList.Upcoming;
    var k := IndexAt(l);
    if l.index != l.end {
      var a, b := l.items[k + 1..], l.items[..k + 1];
      assert l.items == b + a;
      assert forall x :: x in a + b <==> x in b + a;
    }
  }

  /** The order after j services. */
  ghost function Turn(u: seq<Item>, j: nat): (t: seq<Item>)
    requires j <= |u|
    ensures |t| == |u|
  {
    u[j..] + u[..j]
  }

  lemma TurnOnce(u: seq<Item>, j: nat)
    requires j < |u|
    ensures Turn(u, j)[0] == u[j] && Turn(u, j)[1..] + [Turn(u, j)[0]] == Turn(u, j + 1) && u[..j] + [u[j]] == u[..j + 1]
  {
  }

  lemma FullTurn(u: seq<Item>)
    ensures Turn(u, 0) == u == Turn(u, |u|) && u[..|u|] == u && u[..0] == []
  {
  }

  /** Round robin: from any position of the index, as many calls as there are items serve every item once, in order, and leave
      the order of service as it was. */
  method ServeAll(l: XList) returns (ghost served: seq<Item>)
    requires l.Valid()
    modifies l`index
    ensures l.Valid() && served == old(l.Upcoming()) && l.Upcoming() == old(l.Upcoming())
    ensures |served| == |l.items| && Distinct(served) && forall x :: x in served <==> x in l.items
  {
    hide XList.Valid, Distinct, XList.Upcoming, Turn;
    UpcomingIsAll(l);
    ghost var u := l.Upcoming();
    FullTurn(u);
    served := [];
    for j := 0 to l.count
      invariant l.Valid() && |u| == |l.items| == l.count && served == u[..j] && l.Upcoming() == Turn(u, j)
    {
      TurnOnce(u, j);
      var owner := GetOwnerOfNextEntry(l);
      served := served + [l.index];
    }
    UpcomingIsAll(l);
  }
}
