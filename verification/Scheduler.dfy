/** The scheduler: tasks in the lists of the kernel, and what moves them (scheduler.rs, control.rs, creation.rs). */
module Scheduler {
  import opened KernelList
  import opened ListTable

  // Places in the table of state lists: 16 ready lists first, then these.
  const READY: nat := 16 // number of ready lists
  const DELAYED: nat := 16
  const OVERFLOW: nat := 17
  const SUSPENDED: nat := 18
  const STATE_LISTS: nat := 19
  // The table of event lists begins with the list of pending tasks; the lists of the queues follow.
  const PENDING: nat := 0
  const MAX_PRIORITIES: nat := 7

  ghost function StateCells(tasks: set<Tcb>): set<Item> {
    set t | t in tasks :: t.stateItem
  }

  ghost function EventCells(tasks: set<Tcb>): set<Item> {
    set t | t in tasks :: t.eventItem
  }

  /** What never changes: the lists are all different, and every task has two items of its own, which are no sentinels. */
  ghost predicate Layout(states: seq<XList>, events: seq<XList>, tasks: set<Tcb>) {
    && |states| == STATE_LISTS && |events| > PENDING && Ground(states, StateCells(tasks)) && Ground(events, EventCells(tasks))
    && (forall l | l in states :: l !in events)
    && Ends(states) + StateCells(tasks) !! Ends(events) + EventCells(tasks)
    && (forall t, u | t in tasks && u in tasks && t != u :: t.stateItem != u.stateItem && t.eventItem != u.eventItem)
  }

  /** A task's items name it as their owner, it has a ready list, and its event item is valued by its urgency. */
  ghost predicate Owned(tasks: set<Tcb>)
    reads tasks`priority, StateCells(tasks)`owner, EventCells(tasks)`owner, EventCells(tasks)`value
  {
    forall t | t in tasks :: t.stateItem.owner == t && t.eventItem.owner == t && t.priority <= MAX_PRIORITIES && t.eventItem.value == MAX_PRIORITIES - t.priority
  }

  /** The delayed tasks: sorted by wake time, all of them in the future, none before the next time to look. */
  ghost predicate Waiting(s: seq<Item>, tick: nat, next: nat)
    reads s`value
  {
    Sorted(s) && forall x | x in s :: tick < x.value < PORT_MAX_DELAY && next <= x.value
  }

  /** The state items of these tasks are in lists. */
  ghost predicate Placed(tasks: set<Tcb>)
    reads StateCells(tasks)`container
  {
    forall t | t in tasks :: t.stateItem.container != null
  }

  /** No items of these tasks are in lists. */
  ghost predicate Idle(tasks: set<Tcb>)
    reads StateCells(tasks)`container, EventCells(tasks)`container
  {
    forall t | t in tasks :: t.stateItem.container == null && t.eventItem.container == null
  }

  /** All lists are empty but the first ready list. */
  ghost predicate OnlyReady(states: seq<XList>, x: Item)
    reads states
  {
    |states| == STATE_LISTS && forall h | 0 <= h < STATE_LISTS :: states[h].items == if h == 0 then [x] else []
  }

  /** The globals of the scheduler. */
  class Kernel {
    const states: seq<XList>
    const events: seq<XList>
    var tickCount: nat
    var nextUnblock: nat
    var suspended: nat        // nesting of vTaskSuspendAll
    var pendedTicks: nat
    var running: bool
    var current: Tcb
    ghost var known: set<Tcb> // every task ever created
    ghost var tasks: set<Tcb> // those that are not deleted

    /** The start of the scheduler: empty lists, then the idle task, which is made current. */
    constructor (states: seq<XList>, events: seq<XList>, idle: Tcb, ready: XList)
      requires Layout(states, events, {idle}) && ready == states[0] && AllEmpty(states) && AllEmpty(events)
      requires idle.stateItem.container == null && idle.eventItem.container == null && Owned({idle}) && idle.priority == 0
      modifies states`count, states`items, idle.stateItem`container
      modifies (Ends(states) + {idle.stateItem})`next, (Ends(states) + {idle.stateItem})`prev
      ensures this.states == states && this.events == events && known == tasks == {idle} && current == idle
      ensures tickCount == 0 && suspended == 0 && Valid() && LiveOnly()
      ensures OnlyReady(states, idle.stateItem) && AllEmpty(events)
    {
      hide XList.Valid, AllEmpty, Zone, Layout, Ends, Owned, StateCells, EventCells, Kernel.Valid, Kernel.LiveOnly, OnlyReady, View;
      Allocations(states, events, {idle}, {idle});
      this.states, this.events := states, events;
      tickCount, nextUnblock, suspended, pendedTicks, running := 0, PORT_MAX_DELAY, 0, 0, false;
      current := idle;
      known, tasks := {idle}, {idle};
      new;
      PutFirst(states, events, idle, ready);
      FirstValid(this, idle);
    }

    ghost function StateNodes(): set<Item>
      reads this`known
    {
      Ends(states) + StateCells(known)
    }

    ghost function EventNodes(): set<Item>
      reads this`known
    {
      Ends(events) + EventCells(known)
    }

    /** Every task that is not deleted is in exactly one state list, the one that its item names; state lists hold nothing but
        state items. */
    ghost predicate Tidy()
      reads this`known, this`tasks, this`current, states, Ends(states), StateCells(known)`next, StateCells(known)`prev, StateCells(known)`container
      reads StateCells(known)`owner, known`priority, EventCells(known)`owner, EventCells(known)`value
    {
      && Layout(states, events, known) && Zone(states, StateCells(known)) && Owned(known)
      && current in known && tasks <= known && Placed(tasks)
    }

    ghost predicate StateValid()
      reads this, states, Ends(states), StateCells(known), known`priority, EventCells(known)`owner, EventCells(known)`value
    {
      Tidy() && Waiting(states[DELAYED].items, tickCount, nextUnblock) && nextUnblock <= PORT_MAX_DELAY
    }

    /** The event items: those that name an event list are in it. */
    ghost predicate EventValid()
      reads this`known, events, Ends(events), EventCells(known)`next, EventCells(known)`prev, EventCells(known)`container
    {
      Zone(events, EventCells(known))
    }

    ghost predicate Valid()
      reads this, states, events, StateNodes(), EventNodes(), known`priority
    {
      StateValid() && EventValid()
    }

    /** No item of a deleted task is in a list. */
    ghost predicate LiveOnly()
      reads this`known, this`tasks, StateCells(known)`container, EventCells(known)`container
    {
      Idle(known - tasks)
    }

    /** The waiters of every event are in the order of their urgency. */
    ghost predicate Urgent()
      reads this`known, events, EventCells(known)`value
    {
      Ordered(View(events), EventCells(known))
    }
  }

  /** All lists behind the first are sorted lists of cells. */
  ghost predicate Ordered(v: seq<seq<Item>>, cells: set<Item>)
    reads cells`value
  {
    forall h | PENDING < h < |v| :: (forall x | x in v[h] :: x in cells) && Sorted(v[h])
  }

  /** The same, but for e. */
  ghost predicate OrderedBut(v: seq<seq<Item>>, cells: set<Item>, e: Item)
    reads (cells - {e})`value
  {
    forall h | PENDING < h < |v| :: (forall x | x in v[h] :: x in cells) && SortedBut(v[h], e)
  }

  /** The value of e, if it is among these cells, fits wherever it is. */
  ghost predicate FitsIn(v: seq<seq<Item>>, cells: set<Item>, e: Item, value: nat)
    reads (cells - {e})`value
  {
    forall h | PENDING < h < |v| :: (forall x | x in v[h] :: x in cells) && Fits(v[h], e, value)
  }

  /** The waiters are in order if the others are and e fits between them. */
  lemma OrderedIff(v: seq<seq<Item>>, cells: set<Item>, e: Item)
    ensures Ordered(v, cells) <==> OrderedBut(v, cells, e) && FitsIn(v, cells, e, e.value)
  {
    hide Sorted, SortedBut, Fits;
    forall h | PENDING < h < |v| ensures Sorted(v[h]) <==> SortedBut(v[h], e) && Fits(v[h], e, e.value) {
      SortedIffFits(v[h], e);
    }
  }

  lemma SortedWithout(s: seq<Item>, m: seq<Item>, x: Item)
    requires Sorted(s) && (m == s || Dropped(s, m, x))
    ensures Sorted(m) && forall y | y in m :: y in s
  {
    if m != s {
      var k := DroppedWhere(s, m, x);
      forall i, j | 0 <= i < j < |m| ensures m[i].value <= m[j].value {
        var a := WithoutAt(s, k, i);
        var b := WithoutAt(s, k, j);
      }
      forall y | y in m ensures y in s {
        var i: nat :| i < |m| && m[i] == y;
        var a := WithoutAt(s, k, i);
      }
    }
  }

  /** Leaving, or going to the pending list, keeps the waiters in order. */
  lemma OrderedWithout(v: seq<seq<Item>>, w: seq<seq<Item>>, cells: set<Item>, x: Item)
    requires Ordered(v, cells) && (Left(v, w, x) || Moved(v, w, x, PENDING))
    ensures Ordered(w, cells)
  {
    hide Dropped, Sorted;
    forall h | PENDING < h < |w| ensures (forall y | y in w[h] :: y in cells) && Sorted(w[h]) {
      SortedWithout(v[h], w[h], x);
    }
  }

  /** A new waiter is sorted in. */
  lemma OrderedWith(v: seq<seq<Item>>, w: seq<seq<Item>>, cells: set<Item>, x: Item, h: nat)
    requires Ordered(v, cells) && |w| == |v| && PENDING < h < |v| && x in cells && (forall y | y in cells :: y.value < PORT_MAX_DELAY)
    requires w[h] == Inserted(v[h], InsertPlace(v[h], x.value), x) && forall i | 0 <= i < |v| && i != h :: w[i] == v[i]
    ensures Ordered(w, cells)
  {
    hide InsertPlace, Sorted;
    InsertKeepsSorted(v[h], x, InsertPlace(v[h], x.value));
    InsertedMembers(v[h], InsertPlace(v[h], x.value), x);
  }

  /** Nothing about the event lists has changed. */
  twostate predicate EventsSame(k: Kernel)
    reads k`known, k.events, k.EventNodes()
  {
    && k.known == old(k.known) && View(k.events) == old(View(k.events)) && k.EventValid() == old(k.EventValid())
    && SoundLists(k.events, EventCells(k.known)) == old(SoundLists(k.events, EventCells(k.known)))
    && k.Urgent() == old(k.Urgent())
  }

  // Wake times and priorities by task.
  ghost function Wakes(tasks: set<Tcb>): (m: map<Tcb, nat>)
    reads StateCells(tasks)`value
  {
    map t | t in tasks :: t.stateItem.value
  }

  ghost function Priorities(tasks: set<Tcb>): (m: map<Tcb, nat>)
    reads tasks`priority
  {
    map t | t in tasks :: t.priority
  }

  /** No wake time and no priority has changed. */
  twostate predicate ValuesSame(k: Kernel)
    reads k`known, StateCells(k.known)`value, k.known`priority
  {
    k.known == old(k.known) && Wakes(k.known) == old(Wakes(k.known)) && Priorities(k.known) == old(Priorities(k.known))
  }

  lemma LayoutParts(k: Kernel)
    requires Layout(k.states, k.events, k.known)
    ensures |k.states| == STATE_LISTS && |k.events| > PENDING
    ensures Ground(k.states, StateCells(k.known)) && Ground(k.events, EventCells(k.known))
    ensures (forall i | 0 <= i < |k.events| :: k.events[i] !in k.states) && k.StateNodes() !! k.EventNodes()
    ensures allocated(k.StateNodes()) && allocated(k.EventNodes())
    ensures forall t, u | t in k.known && u in k.known && t != u :: t.stateItem != u.stateItem && t.eventItem != u.eventItem
  {
  }

  lemma Tables(k: Kernel)
    requires Layout(k.states, k.events, k.known)
    ensures |k.states| == STATE_LISTS && |k.events| > PENDING
    ensures Ground(k.states, StateCells(k.known)) && Ground(k.events, EventCells(k.known))
    ensures Foreign(k.states, StateCells(k.known), k.events, EventCells(k.known))
    ensures Foreign(k.events, EventCells(k.known), k.states, StateCells(k.known))
    ensures allocated(StateCells(k.known)) && allocated(EventCells(k.known))
  {
  }

  lemma TaskParts(k: Kernel, t: Tcb)
    requires k.Tidy() && t in k.known
    ensures t.stateItem in StateCells(k.known) && t.eventItem in EventCells(k.known) && t.stateItem !in EventCells(k.known)
    ensures t.priority <= MAX_PRIORITIES && t.eventItem.value == MAX_PRIORITIES - t.priority
    ensures t.stateItem.owner == t && t.eventItem.owner == t
  {
    hide Zone, Ground, View;
  }

  /** The state item of a task that is not deleted is in exactly one list, the one that it names. */
  lemma ExactlyOne(k: Kernel, t: Tcb) returns (i: nat)
    requires k.Valid() && t in k.tasks
    ensures |k.states| == STATE_LISTS && i < STATE_LISTS && t.stateItem.container == k.states[i]
    ensures OnlyIn(View(k.states), t.stateItem, i) && Nowhere(View(k.events), t.stateItem)
  {
    hide XList.Valid, Ground, Owned, OnlyIn, View;
    TaskParts(k, t);
    LayoutParts(k);
    var l;
    i, l := Whereabouts(k.states, StateCells(k.known), t.stateItem);
    forall h | 0 <= h < |k.events| ensures t.stateItem !in View(k.events)[h] {
      assert k.events[h] in k.events;
    }
  }

  /** The other tasks are where they are. */
  lemma OthersPlaced(k: Kernel, t: Tcb)
    requires k.Tidy() && t in k.known
    ensures Placed(k.tasks - {t}) && allocated(StateCells(k.tasks - {t}))
    ensures t.stateItem !in StateCells(k.tasks - {t}) && t.eventItem !in StateCells(k.tasks - {t})
  {
    hide Zone, Ground, Owned, View;
    forall u | u in k.known ensures u.stateItem != t.eventItem && u.eventItem != t.stateItem {
      assert u.stateItem in StateCells(k.known) && t.eventItem in EventCells(k.known);
      assert t.stateItem in StateCells(k.known) && u.eventItem in EventCells(k.known);
    }
  }

  lemma AllPlaced(tasks: set<Tcb>, t: Tcb)
    requires Placed(tasks - {t}) && t.stateItem.container != null
    ensures Placed(tasks)
  {
  }

  /** The first task goes into the first ready list of a table of empty lists. */
  method PutFirst(ghost states: seq<XList>, ghost events: seq<XList>, idle: Tcb, ready: XList)
    requires Layout(states, events, {idle}) && ready == states[0] && AllEmpty(states) && AllEmpty(events)
    requires idle.stateItem.container == null && idle.eventItem.container == null
    modifies states`count, states`items, idle.stateItem`container
    modifies (Ends(states) + {idle.stateItem})`next, (Ends(states) + {idle.stateItem})`prev
    ensures Zone(states, StateCells({idle})) && Zone(events, EventCells({idle})) && idle.stateItem.container == ready
    ensures OnlyReady(states, idle.stateItem) && AllEmpty(events)
  {
    hide XList.Valid, Zone, Ground, Queued, XList.Upcoming, Ends, Layout, StateCells, EventCells, Added, View;
    FirstParts(states, events, idle);
    EmptyZone(states, {idle.stateItem});
    EmptyZone(events, {idle.eventItem});
    EmptyViews(states);
    hide AllEmpty, View;
    ghost var v := View(states);
    Append(states, {idle.stateItem}, idle.stateItem, 0, ready);
    AddedFirst(v, View(states), idle.stateItem);
  }

  /** The kernel with its first task only. */
  lemma FirstValid(k: Kernel, idle: Tcb)
    requires k.known == k.tasks == {idle} && k.current == idle && k.nextUnblock == PORT_MAX_DELAY && Layout(k.states, k.events, {idle})
    requires Zone(k.states, StateCells({idle})) && Zone(k.events, EventCells({idle})) && Owned({idle}) && idle.stateItem.container != null
    requires OnlyReady(k.states, idle.stateItem)
    ensures k.Valid() && k.LiveOnly()
  {
    hide Zone, Ground, Owned, View;
  }

  lemma AddedFirst(v: seq<seq<Item>>, w: seq<seq<Item>>, x: Item)
    requires Added(v, w, x, 0) && forall h | 0 <= h < |v| :: v[h] == []
    ensures |w| == |v| && forall h | 0 <= h < |w| :: w[h] == if h == 0 then [x] else []
  {
  }

  lemma EmptyViews(lists: seq<XList>)
    requires AllEmpty(lists)
    ensures forall h | 0 <= h < |lists| :: View(lists)[h] == []
  {
    hide XList.Valid, View;
    forall h | 0 <= h < |lists| ensures lists[h].items == [] {
      assert lists[h] in lists;
    }
  }

  lemma FirstParts(states: seq<XList>, events: seq<XList>, idle: Tcb)
    requires Layout(states, events, {idle})
    ensures StateCells({idle}) == {idle.stateItem} && EventCells({idle}) == {idle.eventItem}
    ensures |states| == STATE_LISTS && Ground(states, {idle.stateItem}) && forall i | 0 <= i < |events| :: events[i] !in states
    ensures Ends(states) + {idle.stateItem} !! Ends(events) + {idle.eventItem} && allocated(Ends(events))
  {
    assert StateCells({idle}) == {idle.stateItem} && EventCells({idle}) == {idle.eventItem};
  }

  // ---- what moving an item does to the delayed list

  lemma DroppedWhere(s: seq<Item>, m: seq<Item>, x: Item) returns (k: nat)
    requires Dropped(s, m, x)
    ensures k < |s| && s[k] == x && m == Without(s, k)
  {
    k :| k < |s| && s[k] == x && m == Without(s, k);
  }

  lemma WithoutAt(s: seq<Item>, k: nat, i: nat) returns (a: nat)
    requires k < |s| && i < |Without(s, k)|
    ensures a == (if i < k then i else i + 1) < |s| && Without(s, k)[i] == s[a] && s[a] in Without(s, k)
  {
    a := if i < k then i else i + 1;
    assert Without(s, k)[i] in Without(s, k);
  }

  /** The delayed tasks, but for x. */
  ghost predicate WaitingBut(s: seq<Item>, x: Item, tick: nat, next: nat)
    reads (set y | y in s && y != x)`value
  {
    && (forall i, j | 0 <= i < j < |s| && s[i] != x && s[j] != x :: s[i].value <= s[j].value)
    && (forall y | y in s && y != x :: tick < y.value < PORT_MAX_DELAY && next <= y.value)
  }

  lemma ButX(s: seq<Item>, x: Item, tick: nat, next: nat)
    requires Waiting(s, tick, next)
    ensures WaitingBut(s, x, tick, next)
  {
  }

  lemma WaitingWithout(s: seq<Item>, m: seq<Item>, x: Item, tick: nat, next: nat)
    requires WaitingBut(s, x, tick, next) && x !in m && (m == s || Dropped(s, m, x))
    ensures Waiting(m, tick, next)
  {
    hide Without, Dropped, View;
    if m != s {
      var k := DroppedWhere(s, m, x);
      forall i, j | 0 <= i < j < |m| ensures m[i].value <= m[j].value {
        var a := WithoutAt(s, k, i);
        var b := WithoutAt(s, k, j);
      }
      DroppedMembers(s, m, x);
    }
  }

  /** A task falls asleep: it is sorted in among the delayed ones. */
  lemma WaitingWith(m: seq<Item>, x: Item, tick: nat, next: nat)
    requires Waiting(m, tick, next) && tick < x.value < PORT_MAX_DELAY
    ensures Waiting(Inserted(m, InsertPlace(m, x.value), x), tick, if x.value < next then x.value else next)
  {
    hide InsertPlace, Sorted, View;
    InsertKeepsSorted(m, x, InsertPlace(m, x.value));
    InsertedMembers(m, InsertPlace(m, x.value), x);
  }

  /** An item that leaves the delayed list, or moves to another one, leaves it in order. */
  lemma MoveKeepsWaiting(v: seq<seq<Item>>, w: seq<seq<Item>>, x: Item, j: nat, tick: nat, next: nat)
    requires |v| == STATE_LISTS && (Left(v, w, x) || (Moved(v, w, x, j) && j != DELAYED)) && Waiting(v[DELAYED], tick, next)
    ensures |w| == |v| && Waiting(w[DELAYED], tick, next)
  {
    hide Dropped, WaitingBut, Waiting, View;
    ButX(v[DELAYED], x, tick, next);
    WaitingWithout(v[DELAYED], w[DELAYED], x, tick, next);
  }

  // ---- tasks change their state

  /** uxListRemove for the state item, then vListInsertEnd for ready list p. */
  method MoveToReady(k: Kernel, t: Tcb, p: nat)
    requires k.StateValid() && t in k.known && p <= MAX_PRIORITIES
    modifies k.states, k.StateNodes()`next, k.StateNodes()`prev, t.stateItem`container
    ensures ValuesSame(k)
    ensures k.StateValid() && Moved(old(View(k.states)), View(k.states), t.stateItem, p) && t.stateItem.container == k.states[p]
    ensures EventsSame(k)
  {
    hide XList.Valid, Zone, Ground, Moved, Waiting, WaitingBut, Ends, StateCells, EventCells, Layout, Owned, Foreign, View, SoundLists, Ordered, Wakes, Priorities;
    ghost var v := View(k.states);
    Tables(k);
    TaskParts(k, t);
    RelocateHere(k.states, StateCells(k.known), k.events, EventCells(k.known), t.stateItem, p, k.states[p]);
    MoveKeepsWaiting(v, View(k.states), t.stateItem, p, k.tickCount, k.nextUnblock);
  }

  /** The value v of e fits between the values of its neighbours. */
  ghost predicate Fits(s: seq<Item>, e: Item, v: nat)
    reads (set y | y in s && y != e)`value
  {
    && (forall i, j | 0 <= i < j < |s| && s[i] == e && s[j] != e :: v <= s[j].value)
    && (forall i, j | 0 <= i < j < |s| && s[i] != e && s[j] == e :: s[i].value <= v)
  }

  /** Sorted, but for e. */
  ghost predicate SortedBut(s: seq<Item>, e: Item)
    reads (set y | y in s && y != e)`value
  {
    forall i, j | 0 <= i < j < |s| && s[i] != e && s[j] != e :: s[i].value <= s[j].value
  }

  lemma SortedIffFits(s: seq<Item>, e: Item)
    ensures Sorted(s) <==> SortedBut(s, e) && Fits(s, e, e.value)
  {
    if SortedBut(s, e) && Fits(s, e, e.value) {
      forall i, j | 0 <= i < j < |s| ensures s[i].value <= s[j].value {
      }
    }
  }

  /** The priority of a task, and the value of its event item that goes with it. */
  method SetPriority(k: Kernel, t: Tcb, p: nat)
    requires k.StateValid() && t in k.known && p <= MAX_PRIORITIES
    modifies t`priority, t.eventItem`value
    ensures k.StateValid() && t.priority == p && t.eventItem.value == MAX_PRIORITIES - p
    ensures k.EventValid() == old(k.EventValid())
  {
    hide Zone, Ground, Ends, StateCells, EventCells, Layout, Kernel.EventValid, Owned, Waiting, View, SoundLists;
    LayoutParts(k);
    TaskParts(k, t);
    Unowned(k, t);
    DelayedApart(k, t.eventItem);
    t.priority := p;
    t.eventItem.value := MAX_PRIORITIES - p;
    OwnedAgain(k.known, t);
  }

  lemma Unowned(k: Kernel, t: Tcb)
    requires k.Tidy() && t in k.known
    ensures t !in k.known - {t} && t.eventItem !in EventCells(k.known - {t}) && Owned(k.known - {t})
    ensures allocated(EventCells(k.known - {t})) && allocated(StateCells(k.known - {t}))
    ensures t.eventItem !in Ends(k.states) && t.eventItem !in Ends(k.events)
  {
    hide Zone, View;
  }

  lemma OwnedAgain(tasks: set<Tcb>, t: Tcb)
    requires Owned(tasks - {t}) && t.stateItem.owner == t && t.eventItem.owner == t
    requires t.priority <= MAX_PRIORITIES && t.eventItem.value == MAX_PRIORITIES - t.priority
    ensures Owned(tasks)
  {
  }

  lemma DelayedApart(k: Kernel, e: Item)
    requires k.Tidy() && e in EventCells(k.known)
    ensures e !in k.states[DELAYED].items
  {
    hide XList.Valid, Ground, View;
    assert k.states[DELAYED] in k.states;
  }

  /** vTaskPrioritySet: the task goes to the ready list of its new priority, from wherever it was. Its event item takes the new
      value where it is: the waiters of its event stay in order if and only if the new value fits between the neighbours. */
  method TaskPrioritySet(k: Kernel, t: Tcb, p: nat)
    requires k.StateValid() && t in k.known && p <= MAX_PRIORITIES
    modifies k.states, k.StateNodes()`next, k.StateNodes()`prev, t.stateItem`container
    modifies t`priority, t.eventItem`value
    ensures k.StateValid() && Moved(old(View(k.states)), View(k.states), t.stateItem, p) && t.stateItem.container == k.states[p]
    ensures k.EventValid() == old(k.EventValid()) && t.priority == p && t.eventItem.value == MAX_PRIORITIES - p
    ensures View(k.events) == old(View(k.events))
    ensures old(k.Urgent()) ==> (k.Urgent() <==> old(FitsIn(View(k.events), EventCells(k.known), t.eventItem, MAX_PRIORITIES - p)))
  {
    hide Kernel.StateValid, Kernel.EventValid, Moved, Ordered, OrderedBut, FitsIn, View, SoundLists;
    ghost var v, cells, e := View(k.events), EventCells(k.known), t.eventItem;
    OrderedIff(v, cells, e);
    Allocations(k.states, k.events, k.known, k.tasks);
    ghost var others, fits := OrderedBut(v, cells, e), FitsIn(v, cells, e, MAX_PRIORITIES - p);
    MoveToReady(k, t, p);
    assert others == OrderedBut(v, cells, e) && fits == FitsIn(v, cells, e, MAX_PRIORITIES - p);
    SetPriority(k, t, p);
    assert others == OrderedBut(v, cells, e) && fits == FitsIn(v, cells, e, MAX_PRIORITIES - p);
    OrderedIff(v, cells, e);
  }

  /** prvResetNextTaskUnblockTime: the wake time of the head of the delayed list. */
  method ResetNextUnblock(k: Kernel)
    requires k.StateValid()
    modifies k`nextUnblock
    ensures ValuesSame(k)
    ensures k.StateValid() && k.nextUnblock == HeadTime(k.states[DELAYED].items)
    ensures EventsSame(k)
  {
    hide Zone, Layout, Owned, View, SoundLists, Ordered, Wakes, Priorities;
    LayoutParts(k);
    var l := k.states[DELAYED];
    HeadOf(k.states, StateCells(k.known), l);
    if l.count == 0 {
      k.nextUnblock := PORT_MAX_DELAY;
    } else {
      k.nextUnblock := l.end.next.value;
    }
  }

  /** The wake time at the head of a list of sleepers. */
  ghost function HeadTime(s: seq<Item>): nat
    reads s`value
  {
    if s == [] then PORT_MAX_DELAY else s[0].value
  }

  /** vTaskResume: only a suspended task moves, to the ready list of its priority. */
  method TaskResume(k: Kernel, t: Tcb) returns (moved: bool)
    requires k.StateValid() && t in k.known
    modifies k.states, k.StateNodes()`next, k.StateNodes()`prev, t.stateItem`container
    ensures k.StateValid() && EventsSame(k)
    ensures moved <==> t != k.current && old(t.stateItem.container == k.states[SUSPENDED] && t.eventItem.container != k.events[PENDING])
    ensures moved ==> Moved(old(View(k.states)), View(k.states), t.stateItem, t.priority)
    ensures !moved ==> View(k.states) == old(View(k.states)) && Turns(k.states) == old(Turns(k.states)) && t.stateItem.container == old(t.stateItem.container)
  {
    hide Kernel.StateValid, Kernel.EventValid, Moved, View, SoundLists, Kernel.Urgent;
    Sizes(k);
    moved := false;
    if t != k.current {
      if t.stateItem.container == k.states[SUSPENDED] && t.eventItem.container != k.events[PENDING] {
        MoveToReady(k, t, t.priority);
        moved := true;
      }
    }
  }

  lemma Sizes(k: Kernel)
    requires k.Tidy() || k.StateValid()
    ensures |k.states| == STATE_LISTS && |k.events| > PENDING && (forall t | t in k.known :: t.priority <= MAX_PRIORITIES)
    ensures k.current in k.known
  {
    hide Zone, View;
  }

  // ---- tasks come and go

  lemma CellsWith(tasks: set<Tcb>, t: Tcb)
    ensures StateCells(tasks + {t}) == StateCells(tasks) + {t.stateItem} && EventCells(tasks + {t}) == EventCells(tasks) + {t.eventItem}
  {
    var more := tasks + {t};
    assert t in more && forall u | u in tasks :: u in more;
  }

  lemma OwnedWith(tasks: set<Tcb>, t: Tcb)
    requires Owned(tasks) && Owned({t})
    ensures Owned(tasks + {t})
  {
    assert t in {t};
  }

  /** prvAddNewTaskToReadyList: a new task starts in the ready list of its priority. */
  method AddNewTask(k: Kernel, t: Tcb)
    requires k.StateValid() && t !in k.known && Layout(k.states, k.events, k.known + {t}) && Owned({t})
    requires t.stateItem.container == null && t.eventItem.container == null
    modifies k`known, k`tasks, k.states`count, k.states`items, (k.StateNodes() + {t.stateItem})`next, (k.StateNodes() + {t.stateItem})`prev
    modifies t.stateItem`container
    ensures k.StateValid() && k.known == old(k.known) + {t} && k.tasks == old(k.tasks) + {t}
    ensures Added(old(View(k.states)), View(k.states), t.stateItem, t.priority)
    ensures View(k.events) == old(View(k.events)) && (old(k.EventValid()) ==> k.EventValid()) && (old(k.LiveOnly()) ==> k.LiveOnly())
    ensures old(k.Urgent()) ==> k.Urgent()
  {
    hide Ordered, XList.Valid, Zone, Ground, Waiting, Ends, StateCells, EventCells, Layout, Added, Owned, Foreign, Kernel.LiveOnly, Kernel.EventValid, Placed, View;
    ghost var v, more := View(k.states), k.known + {t};
    NewCells(k, t);
    LayoutForeign(k.states, k.events, more);
    AppendHere(k.states, StateCells(more), k.events, EventCells(more), t.stateItem, t.priority, k.states[t.priority]);
    AddedElsewhere(v, View(k.states), t.stateItem, t.priority, DELAYED);
    Enlist(k, t);
  }

  /** The tables with the items of a new task among the cells. */
  lemma NewCells(k: Kernel, t: Tcb)
    requires k.StateValid() && Layout(k.states, k.events, k.known + {t}) && t !in k.known && Owned({t})
    requires t.stateItem.container == null && t.eventItem.container == null
    ensures Zone(k.states, StateCells(k.known + {t})) && Owned(k.known + {t}) && t.priority <= MAX_PRIORITIES
    ensures k.EventValid() ==> Zone(k.events, EventCells(k.known + {t}))
    ensures k.Urgent() ==> Ordered(View(k.events), EventCells(k.known + {t}))
    ensures StateCells(k.known + {t}) == StateCells(k.known) + {t.stateItem}
    ensures allocated(StateCells(k.known + {t})) && allocated(EventCells(k.known + {t})) && Placed(k.tasks) && allocated(StateCells(k.tasks))
    ensures t.stateItem !in StateCells(k.tasks) && t.stateItem !in StateCells(k.known) && t.stateItem !in EventCells(k.known)
    ensures allocated(StateCells(k.known)) && allocated(EventCells(k.known))
  {
    assert t in k.known + {t} && t.stateItem in StateCells(k.known + {t});
    assert forall u | u in k.known :: u in k.known + {t} && u.eventItem in EventCells(k.known + {t});
    hide Zone, Layout, Waiting, StateCells, EventCells, View;
    assert t in {t};
    CellsWith(k.known, t);
    OwnedWith(k.known, t);
    OneMoreCell(k.states, StateCells(k.known), t.stateItem);
    if k.EventValid() { OneMoreCell(k.events, EventCells(k.known), t.eventItem); }
    hide Sorted;
  }

  /** The new task is among the known and the live ones. */
  ghost method Enlist(k: Kernel, t: Tcb)
    requires Layout(k.states, k.events, k.known + {t}) && Zone(k.states, StateCells(k.known + {t})) && Owned(k.known + {t})
    requires Waiting(k.states[DELAYED].items, k.tickCount, k.nextUnblock) && k.nextUnblock <= PORT_MAX_DELAY
    requires k.current in k.known && k.tasks <= k.known && Placed(k.tasks) && t.stateItem.container != null && t !in k.known
    modifies k`known, k`tasks
    ensures k.known == old(k.known) + {t} && k.tasks == old(k.tasks) + {t}
    ensures k.StateValid() && (old(k.LiveOnly()) ==> k.LiveOnly())
    ensures k.EventValid() == old(Zone(k.events, EventCells(k.known + {t})))
    ensures k.Urgent() == old(Ordered(View(k.events), EventCells(k.known + {t}))) && View(k.events) == old(View(k.events))
  {
    hide Ordered, Zone, Ground, Waiting, Layout, Owned, StateCells, EventCells, Ends, Placed, View;
    PlacedWith(k.tasks, t);
    Allocations(k.states, k.events, k.known + {t}, k.tasks + {t});
    k.known := k.known + {t};
    k.tasks := k.tasks + {t};
  }

  lemma PlacedWith(tasks: set<Tcb>, t: Tcb)
    requires Placed(tasks) && t.stateItem.container != null
    ensures Placed(tasks + {t})
  {
  }

  /** All this is there. */
  lemma Allocations(states: seq<XList>, events: seq<XList>, known: set<Tcb>, tasks: set<Tcb>)
    ensures allocated(Ends(states)) && allocated(Ends(events)) && allocated(StateCells(known)) && allocated(EventCells(known))
    ensures allocated(StateCells(tasks))
  {
  }

  lemma LayoutForeign(states: seq<XList>, events: seq<XList>, tasks: set<Tcb>)
    requires Layout(states, events, tasks)
    ensures |states| == STATE_LISTS && Ground(states, StateCells(tasks)) && Foreign(states, StateCells(tasks), events, EventCells(tasks))
  {
  }

  lemma AddedElsewhere(v: seq<seq<Item>>, w: seq<seq<Item>>, x: Item, j: nat, h: nat)
    requires Added(v, w, x, j) && h < |v| && h != j
    ensures w[h] == v[h]
  {
  }

  /** vTaskDelete: the state item leaves the lists, nothing else moves. The event item stays where it is. So no item of a deleted
      task is in a list, if none was before, exactly when the event item of this one is in none. */
  method TaskDelete(k: Kernel, t: Tcb)
    requires k.StateValid() && t in k.known
    modifies k`tasks, k.states, k.StateNodes()`next, k.StateNodes()`prev, t.stateItem`container
    ensures k.StateValid() && EventsSame(k)
    ensures k.tasks == old(k.tasks) - {t} && Left(old(View(k.states)), View(k.states), t.stateItem) && t.stateItem.container == null
    ensures old(k.LiveOnly()) ==> (k.LiveOnly() <==> t.eventItem.container == null)
  {
    hide XList.Valid, Zone, Ground, Waiting, Ends, StateCells, EventCells, Layout, Left, Owned, Foreign, Placed, Idle, View, SoundLists, Ordered;
    ghost var v := View(k.states);
    Tables(k);
    TaskParts(k, t);
    OthersPlaced(k, t);
    OthersIdle(k, t);
    RemoveHere(k.states, StateCells(k.known), k.events, EventCells(k.known), t.stateItem);
    MoveKeepsWaiting(v, View(k.states), t.stateItem, DELAYED, k.tickCount, k.nextUnblock);
    if old(k.LiveOnly()) { IdleWith(k.known, k.tasks, t); }
    k.tasks := k.tasks - {t};
  }

  /** The deleted tasks but for t. */
  lemma OthersIdle(k: Kernel, t: Tcb)
    requires k.Tidy() && t in k.known
    ensures allocated(Ends(k.states)) && allocated(Ends(k.events))
    ensures var others := k.known - k.tasks - {t};
            && (k.LiveOnly() ==> Idle(others)) && t.stateItem !in StateCells(others) && t.stateItem !in EventCells(others)
            && allocated(StateCells(others)) && allocated(EventCells(others))
  {
    hide Zone, Ground, Owned, View;
    forall u | u in k.known ensures u.stateItem != t.eventItem && u.eventItem != t.stateItem {
      assert u.stateItem in StateCells(k.known) && t.eventItem in EventCells(k.known);
      assert t.stateItem in StateCells(k.known) && u.eventItem in EventCells(k.known);
    }
  }

  lemma IdleWith(known: set<Tcb>, tasks: set<Tcb>, t: Tcb)
    requires Idle(known - tasks - {t}) && t in known && t.stateItem.container == null
    ensures Idle(known - (tasks - {t})) <==> t.eventItem.container == null
    ensures allocated(StateCells(known - (tasks - {t}))) && allocated(EventCells(known - (tasks - {t})))
  {
    assert t in known - (tasks - {t});
  }

  /** vTaskSuspend: the state item goes to the suspended list, the event item leaves the list it was in. */
  method TaskSuspend(k: Kernel, t: Tcb)
    requires k.StateValid() && t in k.known && (t.eventItem.container != null ==> k.EventValid())
    modifies k`nextUnblock, k.states, k.StateNodes()`next, k.StateNodes()`prev
    modifies k.events, k.EventNodes()`next, k.EventNodes()`prev
    modifies t.stateItem`container, t.eventItem`container
    ensures ValuesSame(k)
    ensures k.StateValid() && t.eventItem.container == null && t.stateItem.container == k.states[SUSPENDED]
    ensures Moved(old(View(k.states)), View(k.states), t.stateItem, SUSPENDED)
    ensures old(k.EventValid()) ==> k.EventValid() && Left(old(View(k.events)), View(k.events), t.eventItem)
    ensures old(k.EventValid() && k.Urgent()) ==> k.Urgent()
    ensures k.nextUnblock == if k.running then HeadTime(k.states[DELAYED].items) else old(k.nextUnblock)
  {
    hide Kernel.StateValid, Kernel.EventValid, Moved, Left, HeadTime, View, Kernel.Urgent, SoundLists, Wakes, Priorities;
    SuspendItems(k, t);
    if k.running {
      ResetNextUnblock(k);
    }
  }

  /** The part of vTaskSuspend that moves items. */
  method SuspendItems(k: Kernel, t: Tcb)
    requires k.StateValid() && t in k.known && (t.eventItem.container != null ==> k.EventValid())
    modifies k.states, k.StateNodes()`next, k.StateNodes()`prev
    modifies k.events, k.EventNodes()`next, k.EventNodes()`prev
    modifies t.stateItem`container, t.eventItem`container
    ensures ValuesSame(k)
    ensures k.StateValid() && t.eventItem.container == null && t.stateItem.container == k.states[SUSPENDED]
    ensures Moved(old(View(k.states)), View(k.states), t.stateItem, SUSPENDED)
    ensures old(k.EventValid()) ==> k.EventValid() && Left(old(View(k.events)), View(k.events), t.eventItem)
    ensures old(k.EventValid() && k.Urgent()) ==> k.Urgent()
  {
    hide XList.Valid, Zone, Ground, Waiting, WaitingBut, Ends, StateCells, EventCells, Layout, Left, Moved, Added, Owned, Foreign, Placed, View, Ordered, Wakes, Priorities;
    ghost var v, w, cells, ecells := View(k.states), View(k.events), StateCells(k.known), EventCells(k.known);
    Tables(k);
    TaskParts(k, t);
    OthersPlaced(k, t);
    Resettle(k.states, cells, k.events, ecells, t.stateItem, t.eventItem, SUSPENDED, k.states[SUSPENDED]);
    MoveKeepsWaiting(v, View(k.states), t.stateItem, SUSPENDED, k.tickCount, k.nextUnblock);
    AllPlaced(k.tasks, t);
    if old(k.EventValid() && k.Urgent()) { OrderedWithout(w, View(k.events), ecells, t.eventItem); }
  }

  // ---- delaying

  /** The wake time of the current task; it may be in the delayed list, where it is out of order from now on. */
  method SetWake(k: Kernel, wake: nat)
    requires k.StateValid()
    modifies k.current.stateItem`value
    ensures k.Tidy() && EventsSame(k) && k.current.stateItem.value == wake
    ensures WaitingBut(k.states[DELAYED].items, k.current.stateItem, k.tickCount, k.nextUnblock)
  {
    hide XList.Valid, Zone, Ground, Waiting, WaitingBut, Layout, Owned, Foreign, Placed, View, SoundLists, Ordered;
    LayoutParts(k);
    TaskParts(k, k.current);
    ButX(k.states[DELAYED].items, k.current.stateItem, k.tickCount, k.nextUnblock);
    ItemApart(k, k.current);
    k.current.stateItem.value := wake;
  }

  lemma ItemApart(k: Kernel, t: Tcb)
    requires k.Tidy() && t in k.known
    ensures t.stateItem !in Ends(k.states) && t.stateItem !in Ends(k.events) && t.stateItem !in EventCells(k.known)
  {
    hide Zone, View;
    assert t.stateItem in StateCells(k.known);
  }

  /** The current task is sorted into the delayed list or the overflow list. */
  method SortCurrent(k: Kernel, ghost j: nat, l: XList)
    requires k.Tidy() && (j == DELAYED || j == OVERFLOW) && l == k.states[j] && k.current.stateItem.value < PORT_MAX_DELAY
    requires WaitingBut(k.states[DELAYED].items, k.current.stateItem, k.tickCount, k.nextUnblock)
    requires j == DELAYED ==> k.tickCount < k.current.stateItem.value
    modifies k.states, k.StateNodes()`next, k.StateNodes()`prev, k.current.stateItem`container
    ensures k.Tidy() && EventsSame(k)
    ensures Moved(old(View(k.states)), View(k.states), k.current.stateItem, j)
    ensures var wake, next := k.current.stateItem.value, k.nextUnblock;
            Waiting(k.states[DELAYED].items, k.tickCount, if j == DELAYED && wake < next then wake else next)
  {
    hide XList.Valid, Zone, Ground, Moved, Waiting, WaitingBut, Ends, StateCells, EventCells, Layout, Owned, Foreign, Placed, View, Dropped, Inserted, InsertPlace, SoundLists, Ordered;
    Tables(k);
    ghost var v, d, x := View(k.states), k.states[DELAYED].items, k.current.stateItem;
    TaskParts(k, k.current);
    OthersPlaced(k, k.current);
    ghost var m := RelocateSortedHere(k.states, StateCells(k.known), k.events, EventCells(k.known), k.current.stateItem, j, l);
    AllPlaced(k.tasks, k.current);
    if j == DELAYED {
      WaitingWithout(d, m, x, k.tickCount, k.nextUnblock);
      WaitingWith(m, x, k.tickCount, k.nextUnblock);
    } else {
      LeftDelayed(v, View(k.states), x, j);
      WaitingWithout(d, View(k.states)[DELAYED], x, k.tickCount, k.nextUnblock);
    }
  }

  lemma LeftDelayed(v: seq<seq<Item>>, w: seq<seq<Item>>, x: Item, j: nat)
    requires |v| == STATE_LISTS && Moved(v, w, x, j) && j != DELAYED
    ensures |w| == |v| && x !in w[DELAYED] && (w[DELAYED] == v[DELAYED] || Dropped(v[DELAYED], w[DELAYED], x))
  {
    hide Dropped;
  }

  /** The time to look for tasks to wake. */
  method SetNextUnblock(k: Kernel, next: nat)
    requires k.Tidy()
    modifies k`nextUnblock
    ensures k.Tidy() && k.nextUnblock == next && EventsSame(k)
  {
    hide Zone, Ground, Layout, Owned, Placed, SoundLists, Ordered, View;
    LayoutParts(k);
    k.nextUnblock := next;
  }

  /** prvAddCurrentTaskToDelayedList: the current task falls asleep until the tick comes that is so many ticks away. A delay of
      no ticks puts it into the overflow list. */
  method AddCurrentToDelayed(k: Kernel, ticks: nat)
    requires k.StateValid() && k.tickCount + ticks < PORT_MAX_DELAY
    modifies k`nextUnblock, k.states, k.StateNodes()`next, k.StateNodes()`prev, k.current.stateItem`value, k.current.stateItem`container
    ensures k.StateValid() && k.current.stateItem.value == k.tickCount + ticks
    ensures EventsSame(k)
    ensures Moved(old(View(k.states)), View(k.states), k.current.stateItem, if ticks > 0 then DELAYED else OVERFLOW)
    ensures k.nextUnblock == if ticks > 0 && k.tickCount + ticks < old(k.nextUnblock) then k.tickCount + ticks else old(k.nextUnblock)
  {
    hide Kernel.Tidy, Moved, Waiting, WaitingBut, View, Kernel.EventValid, SoundLists, Kernel.Urgent;
    Sizes(k);
    var wake := k.tickCount + ticks;
    SetWake(k, wake);
    if wake > k.tickCount {
      SortCurrent(k, DELAYED, k.states[DELAYED]);
      if wake < k.nextUnblock {
        SetNextUnblock(k, wake);
      }
    } else {
      SortCurrent(k, OVERFLOW, k.states[OVERFLOW]);
    }
  }

  // ---- the tick

  /** The first n of the delayed items have moved to the ready lists of their tasks, and nothing else has changed its place. */
  ghost predicate Woken(v: seq<seq<Item>>, w: seq<seq<Item>>, tasks: set<Tcb>, n: nat)
    reads tasks`priority
  {
    && |w| == |v| == STATE_LISTS && n <= |v[DELAYED]| && w[DELAYED] == v[DELAYED][n..]
    && (forall t | t in tasks && t.stateItem in v[DELAYED][..n] :: OnlyIn(w, t.stateItem, t.priority))
    && (forall h, y | 0 <= h < |v| && y in v[h] && y !in v[DELAYED][..n] :: y in w[h])
    && (forall h, y | 0 <= h < |v| && y in w[h] && y !in v[DELAYED][..n] :: y in v[h])
  }

  lemma WokenNone(v: seq<seq<Item>>, tasks: set<Tcb>)
    requires |v| == STATE_LISTS
    ensures Woken(v, v, tasks, 0)
  {
  }

  lemma WokenOne(v: seq<seq<Item>>, w: seq<seq<Item>>, w2: seq<seq<Item>>, tasks: set<Tcb>, n: nat, t: Tcb)
    requires Woken(v, w, tasks, n) && n < |v[DELAYED]| && t in tasks && t.stateItem == v[DELAYED][n]
    requires Moved(w, w2, t.stateItem, t.priority) && w2[DELAYED] == v[DELAYED][n + 1..]
    requires forall u | u in tasks && u != t :: u.stateItem != t.stateItem
    ensures Woken(v, w2, tasks, n + 1)
  {
    hide Dropped;
    var d := v[DELAYED];
    assert d[..n + 1] == d[..n] + [t.stateItem];
    forall u | u in tasks && u.stateItem in d[..n + 1] ensures OnlyIn(w2, u.stateItem, u.priority) {
      if u != t { assert OnlyIn(w, u.stateItem, u.priority); }
    }
  }

  /** The task of an item in a state list. */
  lemma TaskOf(k: Kernel, h: nat, x: Item) returns (t: Tcb)
    requires k.Tidy() && h < STATE_LISTS && x in k.states[h].items
    ensures t in k.known && t.stateItem == x && x.owner == t && t.priority <= MAX_PRIORITIES
    ensures forall u | u in k.known && u != t :: u.stateItem != x
  {
    hide XList.Valid, Ground;
    assert k.states[h] in k.states;
    assert x in StateCells(k.known);
    t :| t in k.known && t.stateItem == x;
  }

  lemma HeadGone(v: seq<seq<Item>>, w: seq<seq<Item>>, x: Item, j: nat)
    requires |v| == STATE_LISTS && Moved(v, w, x, j) && j != DELAYED && Distinct(v[DELAYED]) && v[DELAYED] != [] && v[DELAYED][0] == x
    ensures w[DELAYED] == v[DELAYED][1..]
  {
    assert x in v[DELAYED];
    var k := DroppedWhere(v[DELAYED], w[DELAYED], x);
    assert k == 0;
  }

  lemma DelayedDistinct(k: Kernel)
    requires k.Tidy()
    ensures |k.states| == STATE_LISTS && Distinct(k.states[DELAYED].items)
  {
    hide Linked, Ground;
    assert k.states[DELAYED] in k.states;
  }

  /** The head of the delayed list goes to the ready list of its task. */
  method WakeHead(k: Kernel, head: Item) returns (ghost t: Tcb)
    requires k.Tidy() && k.states[DELAYED].items != [] && head == k.states[DELAYED].items[0]
    modifies k.states, k.StateNodes()`next, k.StateNodes()`prev, head`container
    ensures k.Tidy() && EventsSame(k)
    ensures t in k.known && t.stateItem == head && t.priority <= MAX_PRIORITIES && forall u | u in k.known && u != t :: u.stateItem != head
    ensures Moved(old(View(k.states)), View(k.states), head, t.priority) && k.states[DELAYED].items == old(k.states[DELAYED].items[1..])
  {
    hide XList.Valid, Zone, Ground, Moved, Ends, StateCells, EventCells, Layout, Owned, Foreign, Placed, View, SoundLists, Ordered;
    Tables(k);
    DelayedDistinct(k);
    t := TaskOf(k, DELAYED, head);
    TaskParts(k, t);
    OthersPlaced(k, t);
    ghost var v := View(k.states);
    var owner: Tcb := head.owner;
    RelocateHere(k.states, StateCells(k.known), k.events, EventCells(k.known), head, owner.priority, k.states[owner.priority]);
    AllPlaced(k.tasks, t);
    HeadGone(v, View(k.states), head, owner.priority);
  }

  method AdvanceTick(k: Kernel)
    requires k.Tidy()
    modifies k`tickCount
    ensures k.Tidy() && k.tickCount == old(k.tickCount) + 1 && EventsSame(k)
  {
    hide Zone, Ground, Layout, Owned, Placed, SoundLists, Ordered, View;
    LayoutParts(k);
    k.tickCount := k.tickCount + 1;
  }

  method HoldTick(k: Kernel)
    requires k.Tidy()
    modifies k`pendedTicks
    ensures k.Tidy() && k.pendedTicks == old(k.pendedTicks) + 1 && EventsSame(k)
  {
    hide Zone, Ground, Layout, Owned, Placed, SoundLists, Ordered, View;
    LayoutParts(k);
    k.pendedTicks := k.pendedTicks + 1;
  }

  /** Of a list of sleepers the first n are due by tick, the others are not. */
  ghost predicate Due(d: seq<Item>, n: nat, tick: nat)
    reads d`value
  {
    Past(d, n, tick) && forall i | n <= i < |d| :: d[i].value > tick
  }

  /** The first n of the sleepers d are due. */
  ghost predicate Past(d: seq<Item>, n: nat, tick: nat)
    reads d`value
  {
    n <= |d| && forall i | 0 <= i < n :: d[i].value <= tick
  }

  /** A list of sleepers in the order of their wake times. */
  ghost predicate Sleeping(d: seq<Item>, cells: set<Item>)
    reads d`value
  {
    Sorted(d) && forall x | x in d :: x.value < PORT_MAX_DELAY && x in cells
  }

  lemma SleepersOf(k: Kernel)
    requires k.StateValid()
    ensures |k.states| == STATE_LISTS && Sleeping(k.states[DELAYED].items, StateCells(k.known))
  {
    hide XList.Valid, Ground, Owned;
    assert k.states[DELAYED] in k.states;
  }

  lemma RestIsDue(d: seq<Item>, n: nat, tick: nat, cells: set<Item>)
    requires Sleeping(d, cells) && Past(d, n, tick) && (n < |d| ==> d[n].value > tick)
    ensures Due(d, n, tick) && Waiting(d[n..], tick, HeadTime(d[n..])) && HeadTime(d[n..]) <= PORT_MAX_DELAY
  {
    forall x | x in d[n..] ensures tick < x.value < PORT_MAX_DELAY && HeadTime(d[n..]) <= x.value {
      var i :| 0 <= i < |d| - n && d[n..][i] == x;
      assert d[n + i] == x && d[n + i] in d;
    }
  }

  lemma NextSleeper(d: seq<Item>, n: nat, tick: nat, cells: set<Item>)
    requires Sleeping(d, cells) && Past(d, n, tick) && n < |d|
    ensures d[n..][0] == d[n] && d[n..][1..] == d[n + 1..] && d[n] in cells
    ensures d[n].value <= tick ==> Past(d, n + 1, tick)
  {
    assert d[n] in d;
  }

  lemma WokenRest(v: seq<seq<Item>>, w: seq<seq<Item>>, tasks: set<Tcb>, n: nat)
    requires Woken(v, w, tasks, n) && n < |v[DELAYED]|
    ensures |w| == STATE_LISTS && w[DELAYED] == v[DELAYED][n..] != [] && w[DELAYED][0] == v[DELAYED][n] && w[DELAYED][1..] == v[DELAYED][n + 1..]
  {
  }

  /** The head wakes, after n others. */
  method WakeThis(k: Kernel, head: Item, ghost v: seq<seq<Item>>, ghost n: nat)
    requires k.Tidy() && |v| == STATE_LISTS && n < |v[DELAYED]| && head == v[DELAYED][n] && Woken(v, View(k.states), k.known, n)
    modifies k.states, k.StateNodes()`next, k.StateNodes()`prev, head`container
    ensures k.Tidy() && EventsSame(k)
    ensures k.states[DELAYED].items == v[DELAYED][n + 1..] && Woken(v, View(k.states), k.known, n + 1)
  {
    hide Kernel.Tidy, Kernel.EventValid, Moved, Woken, OnlyIn, SameElse, View, SoundLists, Kernel.Urgent;
    Sizes(k);
    ghost var w := View(k.states);
    WokenRest(v, w, k.known, n);
    ghost var t := WakeHead(k, head);
    WokenOne(v, w, View(k.states), k.known, n, t);
  }

  lemma DelayedHead(k: Kernel, l: XList)
    requires k.Tidy() && l == k.states[DELAYED]
    ensures |k.states| == STATE_LISTS && l.count == |l.items| && l.end.next == if l.items == [] then l.end else l.items[0]
    ensures HeadTime(l.items) == if l.items == [] then PORT_MAX_DELAY else l.items[0].value
  {
    hide Zone, Owned;
    HeadOf(k.states, StateCells(k.known), l);
  }

  /** One turn of the loop of xTaskIncrementTick: the head of the delayed list wakes, if there is one and it is due; else the
      next time to look is known. */
  method WakeNext(k: Kernel, l: XList, ghost v: seq<seq<Item>>, ghost d: seq<Item>, ghost n: nat) returns (more: bool)
    requires k.Tidy() && l == k.states[DELAYED] && |v| == STATE_LISTS && v[DELAYED] == d && n <= |d| && l.items == d[n..]
    requires Woken(v, View(k.states), k.known, n) && Sleeping(d, StateCells(k.known)) && Past(d, n, k.tickCount)
    modifies k`nextUnblock, k.states, k.StateNodes()`next, k.StateNodes()`prev, StateCells(k.known)`container
    ensures k.Tidy() && EventsSame(k)
    ensures more ==> n < |d| && l.items == d[n + 1..] && Woken(v, View(k.states), k.known, n + 1) && Past(d, n + 1, k.tickCount)
    ensures !more ==> l.items == d[n..] && Woken(v, View(k.states), k.known, n) && Due(d, n, k.tickCount)
    ensures !more ==> Waiting(l.items, k.tickCount, k.nextUnblock) && k.nextUnblock == HeadTime(l.items) <= PORT_MAX_DELAY
  {
    hide Kernel.Tidy, Kernel.EventValid, Woken, Due, Waiting, Past, Sleeping, HeadTime, View, SoundLists, Kernel.Urgent;
    more := false;
    DelayedHead(k, l);
    if l.count == 0 {
      RestIsDue(d, n, k.tickCount, StateCells(k.known));
      SetNextUnblock(k, PORT_MAX_DELAY);
    } else {
      var head: Item := l.end.next;
      NextSleeper(d, n, k.tickCount, StateCells(k.known));
      if head.value <= k.tickCount {
        WakeThis(k, head, v, n);
        more := true;
      } else {
        RestIsDue(d, n, k.tickCount, StateCells(k.known));
        SetNextUnblock(k, head.value);
      }
    }
  }

  /** The loop of xTaskIncrementTick: wakes the tasks that are due, from the head of the delayed list on. */
  method WakeDue(k: Kernel) returns (ghost n: nat)
    requires k.Tidy() && Sleeping(k.states[DELAYED].items, StateCells(k.known))
    modifies k`nextUnblock, k.states, k.StateNodes()`next, k.StateNodes()`prev, StateCells(k.known)`container
    ensures k.Tidy() && EventsSame(k)
    ensures Woken(old(View(k.states)), View(k.states), k.known, n) && Due(old(k.states[DELAYED].items), n, k.tickCount)
    ensures |k.states| == STATE_LISTS && Waiting(k.states[DELAYED].items, k.tickCount, k.nextUnblock)
    ensures k.nextUnblock == HeadTime(k.states[DELAYED].items) <= PORT_MAX_DELAY
  {
    hide Kernel.Tidy, Kernel.EventValid, Woken, Waiting, Sleeping, Due, HeadTime, View, SoundLists, Kernel.Urgent;
    Sizes(k);
    ghost var v, d := View(k.states), k.states[DELAYED].items;
    n := 0;
    WokenNone(v, k.known);
    var l := k.states[DELAYED];
    assert Past(d, 0, k.tickCount);
    hide Past;
    while true
      invariant n <= |d| && l.items == d[n..] && k.Tidy() && Sleeping(d, StateCells(k.known))
      invariant EventsSame(k)
      invariant Woken(v, View(k.states), k.known, n) && Past(d, n, k.tickCount)
      decreases |d| - n
    {
      var more := WakeNext(k, l, v, d, n);
      if !more {
        break;
      }
      n := n + 1;
    }
  }

  /** Before the next time to look nothing is due. */
  lemma NoneDue(d: seq<Item>, tick: nat, next: nat)
    requires Waiting(d, tick, next) && tick + 1 < next
    ensures Waiting(d, tick + 1, next) && Due(d, 0, tick + 1)
  {
    forall i | 0 <= i < |d| ensures d[i].value > tick + 1 {
      assert d[i] in d;
    }
  }

  /** xTaskIncrementTick: unless the scheduler is suspended, time goes on by one tick, and exactly the delayed tasks whose wake
      time is not after the new tick move to their ready lists. */
  method IncrementTick(k: Kernel) returns (ghost n: nat)
    requires k.StateValid() && k.tickCount < PORT_MAX_DELAY
    modifies k`tickCount, k`nextUnblock, k`pendedTicks, k.states, k.StateNodes()`next, k.StateNodes()`prev, StateCells(k.known)`container
    ensures k.StateValid() && EventsSame(k)
    ensures Woken(old(View(k.states)), View(k.states), k.known, n)
    ensures k.suspended == 0 ==> k.tickCount == old(k.tickCount) + 1 && k.pendedTicks == old(k.pendedTicks)
    ensures k.suspended == 0 ==> Due(old(View(k.states)[DELAYED]), n, k.tickCount)
    ensures k.suspended != 0 ==> n == 0 && k.tickCount == old(k.tickCount) && k.pendedTicks == old(k.pendedTicks) + 1
    ensures k.suspended != 0 ==> View(k.states) == old(View(k.states)) && Turns(k.states) == old(Turns(k.states))
    ensures k.suspended != 0 || k.tickCount < old(k.nextUnblock) ==> k.nextUnblock == old(k.nextUnblock)
    ensures k.suspended == 0 && k.tickCount >= old(k.nextUnblock) ==> k.nextUnblock == HeadTime(k.states[DELAYED].items)
  {
    hide Kernel.Tidy, Kernel.EventValid, Woken, Due, HeadTime, Sleeping, Waiting, View, SoundLists, Kernel.Urgent;
    Sizes(k);
    WokenNone(View(k.states), k.known);
    SleepersOf(k);
    ghost var tick, next, d := k.tickCount, k.nextUnblock, k.states[DELAYED].items;
    n := 0;
    if k.suspended == 0 {
      AdvanceTick(k);
      if k.tickCount >= k.nextUnblock {
        n := WakeDue(k);
      } else {
        NoneDue(d, tick, next);
      }
    } else {
      HoldTick(k);
    }
  }

  /** No early and no late wake-up, task by task: after a tick a task that was delayed is in its ready list if its wake time has
      come, and in the delayed list if not. */
  lemma ExactlyDue(v: seq<seq<Item>>, w: seq<seq<Item>>, tasks: set<Tcb>, n: nat, tick: nat, t: Tcb)
    requires |v| == STATE_LISTS && Woken(v, w, tasks, n) && Due(v[DELAYED], n, tick) && t in tasks && t.stateItem in v[DELAYED]
    requires t.priority <= MAX_PRIORITIES
    ensures t.stateItem in w[t.priority] && t.stateItem !in w[DELAYED] <==> t.stateItem.value <= tick
    ensures t.stateItem in w[DELAYED] <==> t.stateItem.value > tick
  {
    var d := v[DELAYED];
    var i :| 0 <= i < |d| && d[i] == t.stateItem;
    if i < n {
      assert d[..n][i] == t.stateItem;
    } else {
      assert w[DELAYED][i - n] == t.stateItem;
    }
  }

  // ---- waiting for events

  /** The task of an item in an event list. */
  lemma WaiterOf(k: Kernel, h: nat, x: Item) returns (t: Tcb)
    requires k.Valid() && h < |k.events| && x in k.events[h].items
    ensures t in k.known && t.eventItem == x && x.owner == t
  {
    hide XList.Valid, Ground;
    assert k.events[h] in k.events;
    assert x in EventCells(k.known);
    t :| t in k.known && t.eventItem == x;
  }

  /** The head of an event list leaves it. */
  method TakeWaiter(k: Kernel, ghost h: nat, ev: XList) returns (t: Tcb)
    requires k.Valid() && h < |k.events| && ev == k.events[h] && ev.items != []
    modifies k.events, k.EventNodes()`next, k.EventNodes()`prev, EventCells(k.known)`container
    ensures ValuesSame(k)
    ensures k.Valid() && View(k.states) == old(View(k.states)) && Left(old(View(k.events)), View(k.events), t.eventItem)
    ensures old(k.Urgent()) ==> k.Urgent()
    ensures t in k.known && t.eventItem == old(ev.items[0]) && t.eventItem.container == null
  {
    hide XList.Valid, Zone, Ground, Left, Waiting, Ends, StateCells, EventCells, Layout, Owned, Foreign, Placed, View, SoundLists, Ordered, Wakes, Priorities;
    Tables(k);
    HeadOf(k.events, EventCells(k.known), ev);
    ghost var w := WaiterOf(k, h, ev.items[0]);
    TaskParts(k, w);
    EventItemsApart(k);
    var head: Item := ev.end.next;
    t := head.owner;
    ghost var v := View(k.events);
    RemoveHere(k.events, EventCells(k.known), k.states, StateCells(k.known), t.eventItem);
    if old(k.Urgent()) { OrderedWithout(v, View(k.events), EventCells(k.known), t.eventItem); }
  }

  lemma EventItemsApart(k: Kernel)
    requires k.Tidy()
    ensures allocated(StateCells(k.tasks)) && StateCells(k.tasks) !! EventCells(k.known)
  {
    hide Zone, Ground, Owned;
    forall x | x in StateCells(k.tasks) ensures x !in EventCells(k.known) {
      assert x in StateCells(k.known);
    }
  }

  /** vListInsertEnd for an event item of no list, into the pending list. */
  method PutPending(k: Kernel, t: Tcb)
    requires k.Valid() && t in k.known && t.eventItem.container == null
    modifies k.events, k.EventNodes()`next, k.EventNodes()`prev, t.eventItem`container
    ensures ValuesSame(k)
    ensures k.Valid() && View(k.states) == old(View(k.states)) && Added(old(View(k.events)), View(k.events), t.eventItem, PENDING)
    ensures old(k.Urgent()) ==> k.Urgent()
  {
    hide XList.Valid, Zone, Ground, Added, Waiting, Ends, StateCells, EventCells, Layout, Owned, Foreign, Placed, View, SoundLists, Ordered, Wakes, Priorities;
    Tables(k);
    TaskParts(k, t);
    EventItemsApart(k);
    ghost var v := View(k.events);
    AppendHere(k.events, EventCells(k.known), k.states, StateCells(k.known), t.eventItem, PENDING, k.events[PENDING]);
    AddedElse(v, View(k.events), t.eventItem, PENDING);
    if old(k.Urgent()) { OrderedElse(v, View(k.events), EventCells(k.known)); }
  }

  /** xTaskRemoveFromEventList: the head of the event list leaves it; its task becomes ready, or is put on hold in the pending
      list while the scheduler is suspended. The answer is whether the task is more urgent than the current one. */
  method RemoveFromEventList(k: Kernel, ghost h: nat, ev: XList) returns (higher: bool, t: Tcb)
    requires k.Valid() && h < |k.events| && ev == k.events[h] && ev.items != []
    modifies k.events, k.EventNodes()`next, k.EventNodes()`prev, EventCells(k.known)`container
    modifies k.states, k.StateNodes()`next, k.StateNodes()`prev, StateCells(k.known)`container
    ensures ValuesSame(k)
    ensures k.Valid() && t in k.known && t.eventItem == old(ev.items[0]) && (higher <==> t.priority > k.current.priority)
    ensures k.suspended == 0 ==> Left(old(View(k.events)), View(k.events), t.eventItem)
    ensures k.suspended == 0 ==> Moved(old(View(k.states)), View(k.states), t.stateItem, t.priority)
    ensures k.suspended != 0 ==> Moved(old(View(k.events)), View(k.events), t.eventItem, PENDING) && View(k.states) == old(View(k.states))
    ensures old(k.Urgent()) ==> k.Urgent()
  {
    hide Kernel.StateValid, Kernel.EventValid, Left, Moved, Added, View, SoundLists, Kernel.Urgent, Wakes, Priorities;
    ghost var v := View(k.events);
    Allocations(k.states, k.events, k.known, k.tasks);
    t := TakeWaiter(k, h, ev);
    ghost var v1 := View(k.events);
    Sizes(k);
    if k.suspended == 0 {
      MoveToReady(k, t, t.priority);
    } else {
      PutPending(k, t);
      LeftThenAdded(v, v1, View(k.events), t.eventItem, PENDING);
    }
    higher := t.priority > k.current.priority;
  }

  /** vTaskPlaceOnEventList: the current task waits for an event, at most so many ticks. Its event item is sorted in by urgency.
      The code does not ask whether that item is in a list already, as it is after a wait that has timed out: then the list that
      it is in cannot be seen as a list in order any more. The state lists are as they should be in both cases. */
  method PlaceOnEventList(k: Kernel, ghost h: nat, ev: XList, ticks: nat)
    requires k.Valid() && k.tickCount + ticks < PORT_MAX_DELAY && PENDING < h < |k.events| && ev == k.events[h]
    modifies k.events, k.EventNodes()`next, k.EventNodes()`prev, k.current.eventItem`container
    modifies k`nextUnblock, k.states, k.StateNodes()`next, k.StateNodes()`prev, k.current.stateItem`value, k.current.stateItem`container
    ensures k.StateValid() && k.current.stateItem.value == k.tickCount + ticks
    ensures Moved(old(View(k.states)), View(k.states), k.current.stateItem, if ticks > 0 then DELAYED else OVERFLOW)
    ensures k.nextUnblock == if ticks > 0 && k.tickCount + ticks < old(k.nextUnblock) then k.tickCount + ticks else old(k.nextUnblock)
    ensures k.current.eventItem.container == ev && ev.count == old(ev.count) + 1
    ensures k.Valid() <==> old(k.current.eventItem.container) == null
    ensures SoundLists(k.events, EventCells(k.known)) <==> old(k.current.eventItem.container) == null
    ensures k.Valid() ==> Added(old(View(k.events)), View(k.events), k.current.eventItem, h)
    ensures k.Valid() ==> ev.items == old(Inserted(ev.items, InsertPlace(ev.items, k.current.eventItem.value), k.current.eventItem))
    ensures old(k.Urgent()) && k.Valid() ==> k.Urgent()
  {
    hide Kernel.Tidy, Moved, Added, View, Inserted, InsertPlace, Zone, Sound, SoundLists, Kernel.Urgent, Kernel.EventValid, Waiting;
    CurrentApart(k, h);
    InsertEvent(k, h, ev);
    AddCurrentToDelayed(k, ticks);
  }

  lemma CurrentApart(k: Kernel, h: nat)
    requires k.Tidy() && h < |k.events|
    ensures k.current in k.known && k.current.stateItem != k.current.eventItem && k.events[h] !in k.states
  {
    hide Zone, Owned;
    LayoutParts(k);
    TaskParts(k, k.current);
  }

  /** vListInsert for the event item of the current task. */
  method InsertEvent(k: Kernel, ghost h: nat, ev: XList)
    requires k.Valid() && PENDING < h < |k.events| && ev == k.events[h]
    modifies k.events, k.EventNodes()`next, k.EventNodes()`prev, k.current.eventItem`container
    ensures k.StateValid() && View(k.states) == old(View(k.states)) && k.current.eventItem.container == ev && ev.count == old(ev.count) + 1
    ensures k.EventValid() <==> old(k.current.eventItem.container) == null
    ensures SoundLists(k.events, EventCells(k.known)) <==> old(k.current.eventItem.container) == null
    ensures k.EventValid() ==> Added(old(View(k.events)), View(k.events), k.current.eventItem, h)
    ensures k.EventValid() ==> ev.items == old(Inserted(ev.items, InsertPlace(ev.items, k.current.eventItem.value), k.current.eventItem))
    ensures old(k.Urgent()) && k.EventValid() ==> k.Urgent()
  {
    hide XList.Valid, Zone, Ground, Added, Waiting, Ends, StateCells, EventCells, Layout, Owned, Foreign, Placed, View, Inserted, InsertPlace, Ordered, SoundLists;
    ghost var v, cells, e := View(k.events), EventCells(k.known), k.current.eventItem;
    Tables(k);
    TaskParts(k, k.current);
    EventItemsApart(k);
    InsertHere(k.events, cells, k.states, StateCells(k.known), k.current.eventItem, h, ev);
    if old(e.container) == null {
      AllSound(k.events, cells);
      AddedElse(v, View(k.events), e, h);
      if old(k.Urgent()) {
        EventValues(k);
        OrderedWith(v, View(k.events), cells, e, h);
      }
    } else if Zone(k.events, cells) {
      AllSound(k.events, cells);
    }
  }

  /** Only the pending list has changed. */
  lemma OrderedElse(v: seq<seq<Item>>, w: seq<seq<Item>>, cells: set<Item>)
    requires Ordered(v, cells) && |w| == |v| && forall h | PENDING < h < |w| :: w[h] == v[h]
    ensures Ordered(w, cells)
  {
    hide Sorted;
  }

  lemma AddedElse(v: seq<seq<Item>>, w: seq<seq<Item>>, x: Item, j: nat)
    requires Added(v, w, x, j)
    ensures |w| == |v| && forall h | 0 <= h < |w| && h != j :: w[h] == v[h]
  {
  }

  lemma EventValues(k: Kernel)
    requires k.Tidy()
    ensures forall y | y in EventCells(k.known) :: y.value < PORT_MAX_DELAY
  {
    hide Zone, Ground;
  }

  // ---- choosing the task to run

  /** Ready list p holds somebody, and no ready list above it does. */
  ghost predicate Highest(v: seq<seq<Item>>, p: nat) {
    p < READY <= |v| && v[p] != [] && forall q | p < q < READY :: v[q] == []
  }

  /** The counts of the lists are true. */
  lemma Counts(k: Kernel)
    requires k.Tidy()
    ensures |k.states| == STATE_LISTS && forall h | 0 <= h < STATE_LISTS :: k.states[h].count == |k.states[h].items|
  {
    hide Zone, Owned, View;
    forall h | 0 <= h < STATE_LISTS ensures k.states[h].count == |k.states[h].items| {
      HeadOf(k.states, StateCells(k.known), k.states[h]);
    }
  }

  /** taskSELECT_HIGHEST_PRIORITY: looks from list 15 down to list 1, and settles for list 0. */
  method SelectHighest(k: Kernel) returns (p: nat)
    requires k.StateValid() && exists i :: 0 <= i < READY <= |k.states| && k.states[i].items != []
    ensures Highest(View(k.states), p) && k.StateValid() && EventsSame(k) && View(k.states) == old(View(k.states))
  {
    hide Kernel.Tidy, View, Kernel.EventValid, Kernel.Urgent, SoundLists, Waiting;
    Counts(k);
    for i := 1 to 16
      invariant forall q | 16 - i < q < READY :: k.states[q].items == []
    {
      if k.states[16 - i].count != 0 {
        return 16 - i;
      }
    }
    return 0;
  }

  /** taskSELECT_HIGHEST_PRIORITY_TASK: the task whose turn it is in the highest ready list that is not
      empty becomes the current one, and goes to the end of the order of that list. */
  method SelectTask(k: Kernel) returns (p: nat)
    requires k.StateValid() && exists i :: 0 <= i < READY <= |k.states| && k.states[i].items != []
    modifies k`current, k.states
    ensures k.StateValid() && EventsSame(k) && View(k.states) == old(View(k.states)) && Highest(View(k.states), p) && p < |k.states|
    ensures k.current in k.known && |old(k.states[p].Upcoming())| > 0 && k.current.stateItem == old(k.states[p].Upcoming())[0]
    ensures k.current.stateItem in k.states[p].items
    ensures Turns(k.states) == old(Turns(k.states))[p := old(k.states[p].Upcoming())[1..] + [k.current.stateItem]]
  {
    hide Zone, Ground, Layout, Owned, Placed, Waiting, XList.Upcoming, View, Turns, Kernel.EventValid, Kernel.Urgent, SoundLists;
    p := SelectHighest(k);
    var owner := ServeNext(k, p, k.states[p]);
    SetCurrent(k, owner);
  }

  method ServeNext(k: Kernel, ghost p: nat, l: XList) returns (owner: Tcb)
    requires k.StateValid() && p < READY && l == k.states[p] && l.items != []
    modifies l`index
    ensures k.StateValid() && EventsSame(k) && View(k.states) == old(View(k.states)) && owner in k.known
    ensures |old(l.Upcoming())| > 0 && owner.stateItem == old(l.Upcoming())[0] && owner.stateItem in l.items
    ensures Turns(k.states) == old(Turns(k.states))[p := old(l.Upcoming())[1..] + [owner.stateItem]]
  {
    hide Zone, Ground, Layout, Owned, Placed, Waiting, XList.Upcoming, View, Turns, Ordered, SoundLists, Ends, StateCells, EventCells;
    Tables(k);
    ApartFrom(k, p);
    Allocations(k.states, k.events, k.known, k.tasks);
    ghost var u := Turns(k.states);
    var next := NextOf(k.states, StateCells(k.known), l);
    ghost var t := TaskOf(k, p, l.index);
    owner := next;
    forall i | 0 <= i < |k.states| ensures Turns(k.states)[i] == u[p := l.Upcoming()][i] {
      if i != p { assert k.states[i] != l; }
    }
  }

  lemma ApartFrom(k: Kernel, p: nat)
    requires k.Tidy() && p < STATE_LISTS
    ensures k.states[p] in k.states && k.states[p] !in k.events && forall i | 0 <= i < |k.states| && i != p :: k.states[i] != k.states[p]
  {
    hide Zone, Owned;
  }

  method SetCurrent(k: Kernel, t: Tcb)
    requires k.StateValid() && t in k.known
    modifies k`current
    ensures k.StateValid() && k.current == t && EventsSame(k) && View(k.states) == old(View(k.states))
  {
    hide Zone, Ground, Layout, Owned, Placed, Waiting, View, Ordered, SoundLists;
    LayoutParts(k);
    k.current := t;
  }

  /** vTaskSuspendAll and vTaskResumeAll, which count the nesting. */
  method SuspendAll(k: Kernel)
    requires k.StateValid()
    modifies k`suspended
    ensures k.StateValid() && EventsSame(k) && k.suspended == old(k.suspended) + 1
  {
    hide Zone, Ground, Layout, Owned, Placed, Waiting, View, Ordered, SoundLists;
    LayoutParts(k);
    k.suspended := k.suspended + 1;
  }

  /** What was held back is not made up for: vTaskResumeAll would do so for a positive number of tasks, and the number that it
      looks at never grows. */
  method ResumeAll(k: Kernel)
    requires k.StateValid() && k.suspended > 0
    modifies k`suspended
    ensures k.StateValid() && EventsSame(k) && k.suspended == old(k.suspended) - 1
  {
    hide Zone, Ground, Layout, Owned, Placed, Waiting, View, Ordered, SoundLists;
    LayoutParts(k);
    k.suspended := k.suspended - 1;
  }

  /** prvInitialiseNewTask, as far as lists see it. */
  method NewTcb(p: nat) returns (t: Tcb)
    requires p <= MAX_PRIORITIES
    ensures fresh(t) && fresh(t.stateItem) && fresh(t.eventItem) && t.stateItem != t.eventItem && t.priority == p && Owned({t})
    ensures t.stateItem.container == null && t.eventItem.container == null
  {
    var s := new Item(0);
    var e := new Item(MAX_PRIORITIES - p);
    t := new Tcb(s, e, p);
    s.owner := t;
    e.owner := t;
  }

  /** A task whose items are not among the nodes of the tables. */
  lemma NewLayout(k: Kernel, t: Tcb)
    requires Layout(k.states, k.events, k.known) && t.stateItem != t.eventItem
    requires t.stateItem !in k.StateNodes() + k.EventNodes() && t.eventItem !in k.StateNodes() + k.EventNodes()
    ensures Layout(k.states, k.events, k.known + {t})
  {
    hide Apart;
    CellsWith(k.known, t);
    forall u | u in k.known ensures u.stateItem != t.stateItem && u.eventItem != t.eventItem {
      assert u.stateItem in StateCells(k.known) && u.eventItem in EventCells(k.known);
    }
  }

  /** xTaskCreate, as far as lists see it: a control block with two items of its own, then prvAddNewTaskToReadyList. */
  method CreateTask(k: Kernel, p: nat) returns (t: Tcb)
    requires k.StateValid() && p <= MAX_PRIORITIES
    modifies k`known, k`tasks, k.states, k.StateNodes()`next, k.StateNodes()`prev
    ensures fresh(t) && fresh(t.stateItem) && fresh(t.eventItem) && t.priority == p && t.eventItem.container == null
    ensures k.StateValid() && k.known == old(k.known) + {t} && k.tasks == old(k.tasks) + {t}
    ensures Added(old(View(k.states)), View(k.states), t.stateItem, p)
    ensures View(k.events) == old(View(k.events)) && (old(k.EventValid()) ==> k.EventValid()) && (old(k.LiveOnly()) ==> k.LiveOnly())
    ensures old(k.Urgent()) ==> k.Urgent()
  {
    hide Zone, Ground, Layout, Owned, Placed, Waiting, View, Ordered, Added, Kernel.LiveOnly;
    LayoutParts(k);
    t := NewTcb(p);
    NewLayout(k, t);
    AddNewTask(k, t);
  }
}
