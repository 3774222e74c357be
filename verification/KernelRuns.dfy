/** Runs of the scheduler: what happens one act after the other, seen from outside the lists' links. */
module KernelRuns {
  import opened KernelList
  import opened ListTable
  import opened Scheduler

  /** What a caller can do. Tasks are named by their number in the order of creation, event lists by their place. */
  datatype Act =
    | Create(priority: nat)
    | Tick
    | Delay(ticks: nat)
    | Await(event: nat, ticks: nat)
    | Signal(event: nat)
    | Suspend(task: nat)
    | Resume(task: nat)
    | Prioritize(task: nat, priority: nat)
    | Delete(task: nat)
    | Hold
    | Release
    | Select

  /** What the kernel asks of its callers, told by the acts alone: tasks that have been created, priorities and events that
      exist, wake times before the counter wraps, and no release without a hold. */
  predicate Proper(acts: seq<Act>, tasks: nat, events: nat, tick: nat, held: nat) {
    acts == [] ||
    match acts[0]
    case Create(p) => p <= MAX_PRIORITIES && Proper(acts[1..], tasks + 1, events, tick, held)
    case Tick => tick < PORT_MAX_DELAY && Proper(acts[1..], tasks, events, tick + 1, held)
    case Delay(n) => tick + n < PORT_MAX_DELAY && Proper(acts[1..], tasks, events, tick, held)
    case Await(h, n) => tick + n < PORT_MAX_DELAY && PENDING < h < events && Proper(acts[1..], tasks, events, tick, held)
    case Signal(h) => PENDING < h < events && Proper(acts[1..], tasks, events, tick, held)
    case Suspend(i) => i < tasks && Proper(acts[1..], tasks, events, tick, held)
    case Resume(i) => i < tasks && Proper(acts[1..], tasks, events, tick, held)
    case Prioritize(i, p) => i < tasks && p <= MAX_PRIORITIES && Proper(acts[1..], tasks, events, tick, held)
    case Delete(i) => i < tasks && Proper(acts[1..], tasks, events, tick, held)
    case Hold => Proper(acts[1..], tasks, events, tick, held + 1)
    case Release => held > 0 && Proper(acts[1..], tasks, events, tick, held - 1)
    case Select => Proper(acts[1..], tasks, events, tick, held)
  }

  /** The kernel from outside: where the items are, whose turn it will be in each state list, the clock, who runs, the tasks by
      number, those that are not deleted, those whose event item names the pending list, and each task's wake time and priority. */
  datatype Snap = Snap(states: seq<seq<Item>>, turns: seq<seq<Item>>, events: seq<seq<Item>>, tick: nat, held: nat, current: Tcb,
    tasks: seq<Tcb>, live: set<Tcb>, pending: set<Tcb>, wake: map<Tcb, nat>, prio: map<Tcb, nat>)

  ghost function PendingOf(tasks: set<Tcb>, events: seq<XList>): set<Tcb>
    reads EventCells(tasks)`container
  {
    set t | t in tasks && |events| > PENDING && t.eventItem.container == events[PENDING]
  }

  ghost function Look(k: Kernel, tasks: seq<Tcb>): Snap
    reads k, k.states, k.events, StateCells(k.known)`value, EventCells(k.known)`container, k.known`priority
  {
    Snap(View(k.states), Turns(k.states), View(k.events), k.tickCount, k.suspended, k.current, tasks, k.tasks,
      PendingOf(k.known, k.events), Wakes(k.known), Priorities(k.known))
  }

  /** Exactly the sleepers whose time has come are ready, everything else is where it was. */
  ghost predicate OnTick(s: Snap, s2: Snap) {
    && |s2.states| == |s.states| == STATE_LISTS && s.wake.Keys == s.prio.Keys
    && forall t | t in s.wake ::
      if t.stateItem in s.states[DELAYED] && s.wake[t] <= s2.tick then OnlyIn(s2.states, t.stateItem, s.prio[t])
      else forall h | 0 <= h < STATE_LISTS :: t.stateItem in s2.states[h] <==> t.stateItem in s.states[h]
  }

  /** The head of event list h leaves it; its task becomes ready, or is pending while the scheduler is suspended. */
  ghost predicate Signalled(s: Snap, s2: Snap, h: nat, t: Tcb) {
    && h < |s.events| && s.events[h] != [] && t in s.prio && t.eventItem == s.events[h][0]
    && if s.held == 0 then Left(s.events, s2.events, t.eventItem) && Moved(s.states, s2.states, t.stateItem, s.prio[t])
      else Moved(s.events, s2.events, t.eventItem, PENDING) && s2.states == s.states
  }

  /** The task whose turn it is in the highest ready list that is not empty; it goes to the end of the order. */
  ghost predicate Selected(s: Snap, s2: Snap, p: nat) {
    && Highest(s.states, p) && p < |s.turns| && s2.current in s.wake && s2.current.stateItem in s.states[p]
    && s.turns[p] != [] && s2.current.stateItem == s.turns[p][0]
    && s2 == s.(current := s2.current, turns := s.turns[p := s.turns[p][1..] + [s.turns[p][0]]])
  }

  /** The order of service has every item once. */
  ghost predicate ServesAll(items: seq<Item>, turn: seq<Item>) {
    |turn| == |items| && Distinct(turn) && (forall x | x in turn :: x in items) && forall x | x in items :: x in turn
  }

  ghost predicate Fair(states: seq<seq<Item>>, turns: seq<seq<Item>>) {
    |turns| == |states| && forall h | 0 <= h < |states| :: ServesAll(states[h], turns[h])
  }

  /** What vTaskResume does to task t. */
  ghost predicate Resumed(s: Snap, s2: Snap, t: Tcb) {
    && |s.states| == STATE_LISTS && t in s.prio
    && if t != s.current && t.stateItem in s.states[SUSPENDED] && t !in s.pending
      then Moved(s.states, s2.states, t.stateItem, s.prio[t])
      else s2.states == s.states && s2.turns == s.turns
  }

  /** The new task t. */
  ghost predicate Created(s: Snap, s2: Snap, t: Tcb, p: nat) {
    && t !in s.wake && t in s2.wake && Added(s.states, s2.states, t.stateItem, p)
    && s2 == s.(states := s2.states, turns := s2.turns, tasks := s.tasks + [t], live := s.live + {t}, wake := s.wake[t := s2.wake[t]], prio := s.prio[t := p])
  }

  /** All in order: every task has items of its own, its state item is in at most one state list, and in exactly one if it is
      not deleted; and who sleeps is to wake in the future. */
  ghost predicate Sane(s: Snap) {
    && |s.states| == STATE_LISTS && Fair(s.states, s.turns) && s.wake.Keys == s.prio.Keys == (set t | t in s.tasks) && s.current in s.wake && s.live <= s.wake.Keys
    && (forall t, u | t in s.wake && u in s.wake && t != u :: t.stateItem != u.stateItem && t.eventItem != u.eventItem)
    && (forall t, u | t in s.wake && u in s.wake :: t.stateItem != u.eventItem)
    && (forall t | t in s.wake :: Nowhere(s.states, t.stateItem) || exists h: nat :: OnlyIn(s.states, t.stateItem, h))
    && (forall t | t in s.live :: exists h: nat :: OnlyIn(s.states, t.stateItem, h))
    && (forall t | t in s.wake && t.stateItem in s.states[DELAYED] :: s.tick < s.wake[t])
    && (forall t | t in s.wake :: s.prio[t] <= MAX_PRIORITIES)
  }

  /** What an act does. */
  ghost predicate Step(act: Act, s: Snap, s2: Snap) {
    match act
    case Create(p) => s2.tasks != [] && Created(s, s2, s2.tasks[|s2.tasks| - 1], p)
    case Tick => if s.held > 0 then s2 == s else s2 == s.(tick := s.tick + 1, states := s2.states, turns := s2.turns) && OnTick(s, s2)
    case Delay(n) =>
      && Moved(s.states, s2.states, s.current.stateItem, if n > 0 then DELAYED else OVERFLOW)
      && s2 == s.(states := s2.states, turns := s2.turns, wake := s.wake[s.current := s.tick + n])
    case Await(h, n) =>
      && Moved(s.states, s2.states, s.current.stateItem, if n > 0 then DELAYED else OVERFLOW)
      && Added(s.events, s2.events, s.current.eventItem, h)
      && s2 == s.(states := s2.states, turns := s2.turns, events := s2.events, pending := s2.pending, wake := s.wake[s.current := s.tick + n])
    case Signal(h) =>
      && h < |s.events| && s2 == s.(states := s2.states, turns := s2.turns, events := s2.events, pending := s2.pending)
      && if s.events[h] == [] then s2 == s else exists t :: t in s.prio && Signalled(s, s2, h, t)
    case Suspend(i) =>
      && i < |s.tasks| && Moved(s.states, s2.states, s.tasks[i].stateItem, SUSPENDED) && Left(s.events, s2.events, s.tasks[i].eventItem)
      && s2 == s.(states := s2.states, turns := s2.turns, events := s2.events, pending := s2.pending)
    case Resume(i) => i < |s.tasks| && Resumed(s, s2, s.tasks[i]) && s2 == s.(states := s2.states, turns := s2.turns)
    case Prioritize(i, p) =>
      && i < |s.tasks| && Moved(s.states, s2.states, s.tasks[i].stateItem, p)
      && s2 == s.(states := s2.states, turns := s2.turns, prio := s.prio[s.tasks[i] := p])
    case Delete(i) =>
      && i < |s.tasks| && Left(s.states, s2.states, s.tasks[i].stateItem)
      && s2 == s.(states := s2.states, turns := s2.turns, live := s.live - {s.tasks[i]})
    case Hold => s2 == s.(held := s.held + 1)
    case Release => s.held > 0 && s2 == s.(held := s.held - 1)
    case Select => exists p: nat :: Selected(s, s2, p)
  }

  // ---- one act

  lemma TasksApart(k: Kernel)
    requires k.StateValid()
    ensures k.current in k.known && |k.states| == STATE_LISTS && |k.events| > PENDING
    ensures forall t, u | t in k.known && u in k.known && t != u :: t.stateItem != u.stateItem && t.eventItem != u.eventItem
    ensures allocated(StateCells(k.known)) && allocated(EventCells(k.known)) && k.StateNodes() !! k.EventNodes()
    ensures (forall l | l in k.states :: l !in k.events) && StateCells(k.known) <= k.StateNodes() && EventCells(k.known) <= k.EventNodes()
    ensures forall t | t in k.known :: t.priority <= MAX_PRIORITIES
  {
    hide Zone;
  }

  lemma ValueOf(k: Kernel, t: Tcb)
    requires t in k.known
    ensures t in Wakes(k.known) && Wakes(k.known)[t] == t.stateItem.value && t in Priorities(k.known) && Priorities(k.known)[t] == t.priority
  {
  }

  lemma AllValues(k: Kernel)
    ensures Wakes(k.known).Keys == Priorities(k.known).Keys == k.known
    ensures forall t | t in k.known :: Wakes(k.known)[t] == t.stateItem.value && Priorities(k.known)[t] == t.priority
  {
  }

  /** One wake time has changed. */
  lemma OneWake(tasks: set<Tcb>, m: map<Tcb, nat>, t: Tcb)
    requires m.Keys == tasks && t in tasks && forall u | u in tasks && u != t :: u.stateItem.value == m[u]
    ensures Wakes(tasks) == m[t := t.stateItem.value]
  {
  }

  /** One priority has changed. */
  lemma OnePriority(tasks: set<Tcb>, m: map<Tcb, nat>, t: Tcb)
    requires m.Keys == tasks && t in tasks && forall u | u in tasks && u != t :: u.priority == m[u]
    ensures Priorities(tasks) == m[t := t.priority]
  {
  }

  /** Falling asleep changes one wake time. */
  method DelayCurrent(k: Kernel, n: nat)
    requires k.StateValid() && k.tickCount + n < PORT_MAX_DELAY
    modifies k`nextUnblock, k.states, k.StateNodes()`next, k.StateNodes()`prev, k.current.stateItem`value, k.current.stateItem`container
    ensures k.StateValid() && EventsSame(k)
    ensures Moved(old(View(k.states)), View(k.states), k.current.stateItem, if n > 0 then DELAYED else OVERFLOW)
    ensures Priorities(k.known) == old(Priorities(k.known)) && PendingOf(k.known, k.events) == old(PendingOf(k.known, k.events))
    ensures Wakes(k.known) == old(Wakes(k.known))[k.current := k.tickCount + n]
  {
    hide Kernel.StateValid, Moved, View, Kernel.EventValid, Kernel.Urgent, SoundLists, Wakes, Priorities, StateCells, EventCells, Ends, Kernel.StateNodes, Kernel.EventNodes;
    TasksApart(k);
    NoStateItem(k, k.current);
    ghost var wake := Wakes(k.known);
    AllValues(k);
    AddCurrentToDelayed(k, n);
    OneWake(k.known, wake, k.current);
  }

  /** The state items are no event items. */
  lemma NoStateItem(k: Kernel, t: Tcb)
    requires k.StateValid() && t in k.known
    ensures t.stateItem !in EventCells(k.known)
  {
    hide Zone, View;
    assert t.stateItem in StateCells(k.known);
  }

  lemma CellsHere(k: Kernel)
    requires k.StateValid()
    ensures k.current.stateItem in k.StateNodes() && k.current.eventItem in k.EventNodes()
  {
    hide Zone;
    TaskParts(k, k.current);
  }

  method DoDelay(k: Kernel, n: nat, ghost tasks: seq<Tcb>)
    requires k.StateValid() && k.tickCount + n < PORT_MAX_DELAY
    modifies k`nextUnblock, k.states, k.StateNodes()
    ensures k.StateValid() && EventsSame(k) && Step(Delay(n), old(Look(k, tasks)), Look(k, tasks))
  {
    hide Kernel.StateValid, Moved, View, Kernel.EventValid, Kernel.Urgent, SoundLists, Wakes, Priorities, Step, StateCells, EventCells, Ends, Kernel.StateNodes, Kernel.EventNodes;
    ghost var s := Look(k, tasks);
    CellsHere(k);
    DelayCurrent(k, n);
    StepDelay(s, Look(k, tasks), n);
  }

  lemma StepDelay(s: Snap, s2: Snap, n: nat)
    requires Moved(s.states, s2.states, s.current.stateItem, if n > 0 then DELAYED else OVERFLOW)
    requires s2 == s.(states := s2.states, turns := s2.turns, wake := s.wake[s.current := s.tick + n])
    ensures Step(Delay(n), s, s2)
  {
    hide Moved;
  }

  /** The waking of a tick, seen from the tasks. */
  lemma StepTick(s: Snap, s2: Snap, tasks: set<Tcb>, n: nat)
    requires s.held == 0 && s2 == s.(tick := s.tick + 1, states := s2.states, turns := s2.turns) && s.wake.Keys == s.prio.Keys == tasks
    requires Woken(s.states, s2.states, tasks, n) && Due(s.states[DELAYED], n, s2.tick)
    requires forall t | t in tasks :: s.wake[t] == t.stateItem.value && s.prio[t] == t.priority <= MAX_PRIORITIES
    ensures Step(Tick, s, s2)
  {
    var d := s.states[DELAYED];
    forall t | t in tasks
      ensures if t.stateItem in d && s.wake[t] <= s2.tick then OnlyIn(s2.states, t.stateItem, s.prio[t])
              else forall h | 0 <= h < STATE_LISTS :: t.stateItem in s2.states[h] <==> t.stateItem in s.states[h]
    {
      if t.stateItem in d {
        var i :| 0 <= i < |d| && d[i] == t.stateItem;
        if s.wake[t] <= s2.tick {
          assert d[..n][i] == t.stateItem;
        }
      }
      if !(t.stateItem in d && s.wake[t] <= s2.tick) {
        assert t.stateItem !in d[..n];
      }
    }
  }

  lemma TickHeld(s: Snap)
    requires s.held > 0
    ensures Step(Tick, s, s)
  {
  }

  method DoTick(k: Kernel, ghost tasks: seq<Tcb>)
    requires k.StateValid() && k.tickCount < PORT_MAX_DELAY
    modifies k`tickCount, k`nextUnblock, k`pendedTicks, k.states, k.StateNodes()`next, k.StateNodes()`prev, StateCells(k.known)`container
    ensures k.StateValid() && EventsSame(k) && Step(Tick, old(Look(k, tasks)), Look(k, tasks))
  {
    hide Kernel.StateValid, View, Turns, PendingOf, Kernel.EventValid, Kernel.Urgent, SoundLists, Wakes, Priorities, Step, Woken, Due, HeadTime, StateCells, EventCells, Ends, Kernel.StateNodes, Kernel.EventNodes;
    ghost var s := Look(k, tasks);
    TasksApart(k);
    ghost var n := IncrementTick(k);
    assert Wakes(k.known) == s.wake && Priorities(k.known) == s.prio;
    if k.suspended == 0 {
      AllValues(k);
      StepTick(s, Look(k, tasks), k.known, n);
    } else {
      TickHeld(s);
    }
  }

  /** Naming the suspended list is being in it; and what naming the pending list means. */
  lemma ResumeIf(k: Kernel, t: Tcb)
    requires k.StateValid() && t in k.known
    ensures |k.states| == STATE_LISTS && |k.events| > PENDING
    ensures t.stateItem.container == k.states[SUSPENDED] <==> t.stateItem in View(k.states)[SUSPENDED]
    ensures t.eventItem.container == k.events[PENDING] <==> t in PendingOf(k.known, k.events)
  {
    hide XList.Valid, Zone, Ground, Owned, View;
    TaskParts(k, t);
    InIfNamed(k.states, StateCells(k.known), SUSPENDED, t.stateItem);
  }

  lemma StepResume(s: Snap, s2: Snap, i: nat)
    requires i < |s.tasks| && Resumed(s, s2, s.tasks[i]) && s2 == s.(states := s2.states, turns := s2.turns)
    ensures Step(Resume(i), s, s2)
  {
    hide Resumed;
  }

  method DoResume(k: Kernel, i: nat, tasks: seq<Tcb>)
    requires k.StateValid() && i < |tasks| && tasks[i] in k.known
    modifies k.states, k.StateNodes()`next, k.StateNodes()`prev, tasks[i].stateItem`container
    ensures k.StateValid() && EventsSame(k) && Step(Resume(i), old(Look(k, tasks)), Look(k, tasks))
  {
    hide Moved, Kernel.StateValid, View, Turns, PendingOf, Kernel.EventValid, Kernel.Urgent, SoundLists, Wakes, Priorities, Step, StateCells, EventCells, Ends, Kernel.StateNodes, Kernel.EventNodes;
    ghost var s := Look(k, tasks);
    TasksApart(k);
    ResumeIf(k, tasks[i]);
    ValueOf(k, tasks[i]);
    NoStateItem(k, tasks[i]);
    var moved := TaskResume(k, tasks[i]);
    assert PendingOf(k.known, k.events) == s.pending;
    assert Wakes(k.known) == s.wake && Priorities(k.known) == s.prio;
    StepResume(s, Look(k, tasks), i);
  }

  lemma StepDelete(s: Snap, s2: Snap, i: nat)
    requires i < |s.tasks| && Left(s.states, s2.states, s.tasks[i].stateItem) && s2 == s.(states := s2.states, turns := s2.turns, live := s.live - {s.tasks[i]})
    ensures Step(Delete(i), s, s2)
  {
    hide Left;
  }

  method DoDelete(k: Kernel, i: nat, tasks: seq<Tcb>)
    requires k.StateValid() && i < |tasks| && tasks[i] in k.known
    modifies k`tasks, k.states, k.StateNodes()`next, k.StateNodes()`prev, tasks[i].stateItem`container
    ensures k.StateValid() && EventsSame(k) && Step(Delete(i), old(Look(k, tasks)), Look(k, tasks))
  {
    hide Left, Kernel.LiveOnly, Kernel.StateValid, View, Turns, PendingOf, Kernel.EventValid, Kernel.Urgent, SoundLists, Wakes, Priorities, Step, StateCells, EventCells, Ends, Kernel.StateNodes, Kernel.EventNodes;
    ghost var s := Look(k, tasks);
    TasksApart(k);
    NoStateItem(k, tasks[i]);
    TaskDelete(k, tasks[i]);
    assert PendingOf(k.known, k.events) == s.pending;
    assert Wakes(k.known) == s.wake && Priorities(k.known) == s.prio;
    StepDelete(s, Look(k, tasks), i);
  }

  lemma StepPrioritize(s: Snap, s2: Snap, i: nat, p: nat)
    requires i < |s.tasks| && Moved(s.states, s2.states, s.tasks[i].stateItem, p) && s2 == s.(states := s2.states, turns := s2.turns, prio := s.prio[s.tasks[i] := p])
    ensures Step(Prioritize(i, p), s, s2)
  {
    hide Moved;
  }

  /** A new priority changes no wake time. */
  method Reprioritize(k: Kernel, t: Tcb, p: nat)
    requires k.StateValid() && t in k.known && p <= MAX_PRIORITIES
    modifies k.states, k.StateNodes()`next, k.StateNodes()`prev, t.stateItem`container, t`priority, t.eventItem`value
    ensures k.StateValid() && k.EventValid() == old(k.EventValid()) && View(k.events) == old(View(k.events))
    ensures Moved(old(View(k.states)), View(k.states), t.stateItem, p)
    ensures old(k.Urgent()) ==> (k.Urgent() <==> old(FitsIn(View(k.events), EventCells(k.known), t.eventItem, MAX_PRIORITIES - p)))
    ensures Priorities(k.known) == old(Priorities(k.known))[t := p] && Wakes(k.known) == old(Wakes(k.known))
    ensures PendingOf(k.known, k.events) == old(PendingOf(k.known, k.events))
  {
    hide Moved, FitsIn, Kernel.StateValid, View, Turns, PendingOf, Kernel.EventValid, Kernel.Urgent, SoundLists, Wakes, Priorities, Step, StateCells, EventCells, Ends, Kernel.StateNodes, Kernel.EventNodes;
    ghost var prio := Priorities(k.known);
    TasksApart(k);
    NoEventItem(k, t);
    NoStateItem(k, t);
    AllValues(k);
    TaskPrioritySet(k, t, p);
    OnePriority(k.known, prio, t);
  }

  lemma NoEventItem(k: Kernel, t: Tcb)
    requires k.StateValid() && t in k.known
    ensures t.eventItem !in StateCells(k.known)
  {
    hide Zone, View;
    assert t.eventItem in EventCells(k.known);
  }

  method DoPrioritize(k: Kernel, i: nat, t: Tcb, p: nat, ghost tasks: seq<Tcb>)
    requires k.StateValid() && i < |tasks| && tasks[i] == t && t in k.known && p <= MAX_PRIORITIES
    modifies k.states, k.StateNodes()`next, k.StateNodes()`prev, t.stateItem`container, t`priority, t.eventItem`value
    ensures k.StateValid() && k.EventValid() == old(k.EventValid()) && Step(Prioritize(i, p), old(Look(k, tasks)), Look(k, tasks))
    ensures var fits := old(FitsIn(View(k.events), EventCells(k.known), t.eventItem, MAX_PRIORITIES - p));
            old(k.Urgent()) ==> (k.Urgent() <==> fits)
  {
    hide Moved, FitsIn, Kernel.StateValid, View, Turns, PendingOf, Kernel.EventValid, Kernel.Urgent, SoundLists, Wakes, Priorities, Step, StateCells, EventCells, Ends, Kernel.StateNodes, Kernel.EventNodes;
    ghost var s := Look(k, tasks);
    Reprioritize(k, t, p);
    StepPrioritize(s, Look(k, tasks), i, p);
  }

  lemma StepHeld(s: Snap)
    ensures Step(Hold, s, s.(held := s.held + 1)) && (s.held > 0 ==> Step(Release, s, s.(held := s.held - 1)))
  {
  }

  method DoHold(k: Kernel, ghost tasks: seq<Tcb>)
    requires k.StateValid()
    modifies k`suspended
    ensures k.StateValid() && EventsSame(k) && Step(Hold, old(Look(k, tasks)), Look(k, tasks))
  {
    hide Kernel.StateValid, View, Turns, PendingOf, Kernel.EventValid, Kernel.Urgent, SoundLists, Wakes, Priorities, Step, StateCells, EventCells, Ends, Kernel.StateNodes, Kernel.EventNodes;
    ghost var s := Look(k, tasks);
    TasksApart(k);
    SuspendAll(k);
    assert Wakes(k.known) == s.wake && Priorities(k.known) == s.prio;
    StepHeld(s);
  }

  method DoRelease(k: Kernel, ghost tasks: seq<Tcb>)
    requires k.StateValid() && k.suspended > 0
    modifies k`suspended
    ensures k.StateValid() && EventsSame(k) && Step(Release, old(Look(k, tasks)), Look(k, tasks))
  {
    hide Kernel.StateValid, View, Turns, PendingOf, Kernel.EventValid, Kernel.Urgent, SoundLists, Wakes, Priorities, Step, StateCells, EventCells, Ends, Kernel.StateNodes, Kernel.EventNodes;
    ghost var s := Look(k, tasks);
    TasksApart(k);
    ResumeAll(k);
    assert Wakes(k.known) == s.wake && Priorities(k.known) == s.prio;
    StepHeld(s);
  }

  lemma StepSelect(s: Snap, s2: Snap, p: nat)
    requires Selected(s, s2, p)
    ensures Step(Select, s, s2)
  {
    hide Selected;
  }

  method DoSelect(k: Kernel, ghost tasks: seq<Tcb>)
    requires k.StateValid() && exists i :: 0 <= i < READY <= |k.states| && k.states[i].count != 0
    modifies k`current, k.states
    ensures k.StateValid() && EventsSame(k) && Step(Select, old(Look(k, tasks)), Look(k, tasks))
  {
    hide Highest, XList.Upcoming, Kernel.StateValid, View, Turns, PendingOf, Kernel.EventValid, Kernel.Urgent, SoundLists, Wakes, Priorities, Step, StateCells, EventCells, Ends, Kernel.StateNodes, Kernel.EventNodes;
    ghost var s := Look(k, tasks);
    TasksApart(k);
    CountsOf(k);
    ghost var i: nat :| i < READY && k.states[i].count != 0;
    assert k.states[i].items != [];
    var p := SelectTask(k);
    assert Wakes(k.known) == s.wake && Priorities(k.known) == s.prio;
    ValueOf(k, k.current);
    StepSelect(s, Look(k, tasks), p);
  }

  lemma CountsOf(k: Kernel)
    requires k.StateValid()
    ensures |k.states| == STATE_LISTS && forall h | 0 <= h < STATE_LISTS :: k.states[h].count == |k.states[h].items|
  {
    hide Kernel.Tidy;
    Counts(k);
  }

  lemma StepCreate(s: Snap, s2: Snap, t: Tcb, p: nat)
    requires Created(s, s2, t, p)
    ensures Step(Create(p), s, s2)
  {
    assert s2.tasks[|s2.tasks| - 1] == t;
  }

  /** A new task changes no wake time and no priority, and nobody comes to be pending. */
  method CreateNext(k: Kernel, p: nat) returns (t: Tcb)
    requires k.StateValid() && p <= MAX_PRIORITIES
    modifies k`known, k`tasks, k.states, k.StateNodes()`next, k.StateNodes()`prev
    ensures fresh(t) && fresh(t.stateItem) && fresh(t.eventItem) && k.known == old(k.known) + {t} && k.tasks == old(k.tasks) + {t}
    ensures k.StateValid() && (old(k.EventValid()) ==> k.EventValid()) && (old(k.Urgent()) ==> k.Urgent())
    ensures View(k.events) == old(View(k.events)) && Added(old(View(k.states)), View(k.states), t.stateItem, p)
    ensures PendingOf(k.known, k.events) == old(PendingOf(k.known, k.events)) && t !in old(Wakes(k.known)) && t in Wakes(k.known)
    ensures Wakes(k.known) == old(Wakes(k.known))[t := Wakes(k.known)[t]] && Priorities(k.known) == old(Priorities(k.known))[t := p]
  {
    hide Added, Kernel.LiveOnly, Kernel.StateValid, View, Turns, PendingOf, Kernel.EventValid, Kernel.Urgent, SoundLists, Wakes, Priorities, StateCells, EventCells, Ends, Kernel.StateNodes, Kernel.EventNodes;
    ghost var known, wake, prio, pending := k.known, Wakes(k.known), Priorities(k.known), PendingOf(k.known, k.events);
    TasksApart(k);
    t := CreateTask(k, p);
    assert Wakes(known) == wake && Priorities(known) == prio && PendingOf(known, k.events) == pending;
    MoreTasks(known, t);
    NotPending(known, k.events, t);
    NotYet(known, t);
    ValueOf(k, t);
  }

  method DoCreate(k: Kernel, p: nat, tasks: seq<Tcb>) returns (t: Tcb)
    requires k.StateValid() && p <= MAX_PRIORITIES
    modifies k`known, k`tasks, k.states, k.StateNodes()`next, k.StateNodes()`prev
    ensures fresh(t) && fresh(t.stateItem) && fresh(t.eventItem) && k.known == old(k.known) + {t}
    ensures k.StateValid() && (old(k.EventValid()) ==> k.EventValid()) && (old(k.Urgent()) ==> k.Urgent())
    ensures Step(Create(p), old(Look(k, tasks)), Look(k, tasks + [t]))
  {
    hide Added, Kernel.LiveOnly, Kernel.StateValid, View, Turns, PendingOf, Kernel.EventValid, Kernel.Urgent, SoundLists, Wakes, Priorities, Step, StateCells, EventCells, Ends, Kernel.StateNodes, Kernel.EventNodes;
    ghost var s := Look(k, tasks);
    t := CreateNext(k, p);
    StepCreate(s, Look(k, tasks + [t]), t, p);
  }

  lemma NotPending(known: set<Tcb>, events: seq<XList>, t: Tcb)
    requires t.eventItem.container == null
    ensures PendingOf(known + {t}, events) == PendingOf(known, events)
  {
  }

  lemma NotYet(known: set<Tcb>, t: Tcb)
    requires t !in known
    ensures t !in Wakes(known)
  {
  }

  lemma MoreTasks(known: set<Tcb>, t: Tcb)
    requires t !in known
    ensures Wakes(known + {t}) == Wakes(known)[t := t.stateItem.value] && Priorities(known + {t}) == Priorities(known)[t := t.priority]
  {
  }

  lemma StepSuspend(s: Snap, s2: Snap, i: nat)
    requires i < |s.tasks| && Moved(s.states, s2.states, s.tasks[i].stateItem, SUSPENDED) && Left(s.events, s2.events, s.tasks[i].eventItem)
    requires s2 == s.(states := s2.states, turns := s2.turns, events := s2.events, pending := s2.pending)
    ensures Step(Suspend(i), s, s2)
  {
    hide Moved, Left;
  }

  method DoSuspend(k: Kernel, i: nat, tasks: seq<Tcb>)
    requires k.Valid() && i < |tasks| && tasks[i] in k.known
    modifies k`nextUnblock, k.states, k.StateNodes()`next, k.StateNodes()`prev, k.events, k.EventNodes()`next, k.EventNodes()`prev
    modifies tasks[i].stateItem`container, tasks[i].eventItem`container
    ensures k.Valid() && (old(k.Urgent()) ==> k.Urgent()) && Step(Suspend(i), old(Look(k, tasks)), Look(k, tasks))
  {
    hide Moved, Left, HeadTime, Kernel.StateValid, View, Turns, PendingOf, Kernel.EventValid, Kernel.Urgent, SoundLists, Wakes, Priorities, Step, StateCells, EventCells, Ends, Kernel.StateNodes, Kernel.EventNodes;
    ghost var s := Look(k, tasks);
    TasksApart(k);
    TaskSuspend(k, tasks[i]);
    StepSuspend(s, Look(k, tasks), i);
  }

  lemma StepSignal(s: Snap, s2: Snap, h: nat, t: Tcb)
    requires Signalled(s, s2, h, t) && s2 == s.(states := s2.states, turns := s2.turns, events := s2.events, pending := s2.pending)
    ensures Step(Signal(h), s, s2)
  {
    hide Moved, Left;
  }

  lemma StepNoSignal(s: Snap, h: nat)
    requires h < |s.events| && s.events[h] == []
    ensures Step(Signal(h), s, s)
  {
  }

  lemma EventCounts(k: Kernel, h: nat)
    requires k.Valid() && h < |k.events|
    ensures k.events[h].count == |k.events[h].items|
  {
    hide Zone, View, Kernel.Tidy;
    HeadOf(k.events, EventCells(k.known), k.events[h]);
  }

  /** A queue wakes a waiter, if there is one. */
  method DoSignal(k: Kernel, h: nat, tasks: seq<Tcb>)
    requires k.Valid() && h < |k.events|
    modifies k.events, k.EventNodes()`next, k.EventNodes()`prev, EventCells(k.known)`container
    modifies k.states, k.StateNodes()`next, k.StateNodes()`prev, StateCells(k.known)`container
    ensures k.Valid() && (old(k.Urgent()) ==> k.Urgent()) && Step(Signal(h), old(Look(k, tasks)), Look(k, tasks))
  {
    hide Moved, Left, Kernel.StateValid, View, Turns, PendingOf, Kernel.EventValid, Kernel.Urgent, SoundLists, Wakes, Priorities, Step, StateCells, EventCells, Ends, Kernel.StateNodes, Kernel.EventNodes;
    ghost var s := Look(k, tasks);
    TasksApart(k);
    EventCounts(k, h);
    if k.events[h].count != 0 {
      var higher, t := RemoveFromEventList(k, h, k.events[h]);
      ValueOf(k, t);
      StepSignal(s, Look(k, tasks), h, t);
    } else {
      StepNoSignal(s, h);
    }
  }

  lemma StepAwait(s: Snap, s2: Snap, h: nat, n: nat)
    requires Moved(s.states, s2.states, s.current.stateItem, if n > 0 then DELAYED else OVERFLOW)
    requires Added(s.events, s2.events, s.current.eventItem, h)
    requires s2 == s.(states := s2.states, turns := s2.turns, events := s2.events, pending := s2.pending, wake := s.wake[s.current := s.tick + n])
    ensures Step(Await(h, n), s, s2)
  {
    hide Moved, Added;
  }

  /** Waiting changes one wake time. */
  method AwaitCurrent(k: Kernel, h: nat, n: nat)
    requires k.Valid() && k.tickCount + n < PORT_MAX_DELAY && PENDING < h < |k.events|
    modifies k.events, k.EventNodes()`next, k.EventNodes()`prev, k.current.eventItem`container
    modifies k`nextUnblock, k.states, k.StateNodes()`next, k.StateNodes()`prev, k.current.stateItem`value, k.current.stateItem`container
    ensures k.StateValid() && (k.Valid() <==> old(k.current.eventItem.container) == null)
    ensures SoundLists(k.events, EventCells(k.known)) <==> old(k.current.eventItem.container) == null
    ensures Moved(old(View(k.states)), View(k.states), k.current.stateItem, if n > 0 then DELAYED else OVERFLOW)
    ensures k.Valid() ==> Added(old(View(k.events)), View(k.events), k.current.eventItem, h) && (old(k.Urgent()) ==> k.Urgent())
    ensures Priorities(k.known) == old(Priorities(k.known)) && Wakes(k.known) == old(Wakes(k.known))[k.current := k.tickCount + n]
  {
    hide Moved, Added, Inserted, InsertPlace, Kernel.StateValid, View, Kernel.EventValid, Kernel.Urgent, SoundLists, Wakes, Priorities, StateCells, EventCells, Ends, Kernel.StateNodes, Kernel.EventNodes;
    ghost var wake := Wakes(k.known);
    TasksApart(k);
    AllValues(k);
    PlaceOnEventList(k, h, k.events[h], n);
    OneWake(k.known, wake, k.current);
  }

  /** The current task waits; if its event item is in a list already, that is the end of the event lists being lists. */
  method DoAwait(k: Kernel, h: nat, n: nat, ghost tasks: seq<Tcb>)
    requires k.Valid() && k.tickCount + n < PORT_MAX_DELAY && PENDING < h < |k.events|
    modifies k`nextUnblock, k.states, k.events, k.StateNodes(), k.EventNodes()
    ensures k.StateValid() && (k.Valid() <==> old(k.current.eventItem.container) == null)
    ensures SoundLists(k.events, EventCells(k.known)) <==> old(k.current.eventItem.container) == null
    ensures k.Valid() ==> Step(Await(h, n), old(Look(k, tasks)), Look(k, tasks)) && (old(k.Urgent()) ==> k.Urgent())
  {
    hide Moved, Added, Inserted, InsertPlace, Kernel.StateValid, View, Turns, PendingOf, Kernel.EventValid, Kernel.Urgent, SoundLists, Wakes, Priorities, Step, StateCells, EventCells, Ends, Kernel.StateNodes, Kernel.EventNodes;
    ghost var s := Look(k, tasks);
    CellsHere(k);
    AwaitCurrent(k, h, n);
    if k.Valid() { StepAwait(s, Look(k, tasks), h, n); }
  }

  // ---- runs

  /** How a run ends: with its last act, before a choice with nobody ready (whose outcome the code leaves open), or at a task
      that waits while its event item is in a list already. */
  datatype Outcome = Finished | NobodyReady | Relinked

  /** The tasks by number are the tasks that the kernel knows. */
  ghost predicate Covers(k: Kernel, tasks: seq<Tcb>)
    reads k`known
  {
    k.known == set t | t in tasks
  }

  /** Every task that the kernel knows it knew before, or it is new, with new items. */
  twostate predicate Grown(k: Kernel)
    reads k`known
  {
    && old(k.known) <= k.known
    && forall t | t in k.known :: t in old(k.known) || (fresh(t) && fresh(t.stateItem) && fresh(t.eventItem))
  }

  /** What the cells are is a matter of the tasks. */
  lemma CellsOf(k: Kernel, tasks: seq<Tcb>)
    requires k.StateValid() && Covers(k, tasks)
    ensures forall i | 0 <= i < |tasks| :: tasks[i] in k.known
    ensures k.current in k.known && |k.states| == STATE_LISTS && |k.events| > PENDING
    ensures forall t | t in k.known :: t.stateItem in k.StateNodes() && t.eventItem in k.EventNodes()
    ensures StateCells(k.known) <= k.StateNodes() && EventCells(k.known) <= k.EventNodes()
  {
    hide Zone;
  }

  /** Nobody is ready. */
  predicate NoneReady(k: Kernel)
    reads k.states
  {
    |k.states| == STATE_LISTS && forall i | 0 <= i < READY :: k.states[i].count == 0
  }

  /** The acts that use event lists. */
  predicate OnEvents(act: Act) {
    act.Await? || act.Signal? || act.Suspend?
  }

  /** An act that leaves event lists alone, in whatever state they are. */
  method PerformState(k: Kernel, act: Act, tasks: seq<Tcb>, ghost tick: nat) returns (why: Outcome, all: seq<Tcb>)
    requires k.StateValid() && !OnEvents(act) && Covers(k, tasks) && k.tickCount <= tick && Proper([act], |tasks|, |k.events|, tick, k.suspended)
    modifies k, k.states, k.known, k.StateNodes(), k.EventNodes()`value
    ensures k.StateValid() && Covers(k, all) && Grown(k) && (old(k.EventValid()) ==> k.EventValid()) && !why.Relinked?
    ensures why.Finished? ==> Step(act, old(Look(k, tasks)), Look(k, all))
    ensures why.Finished? && !act.Prioritize? && old(k.Urgent()) ==> k.Urgent()
    ensures why.NobodyReady? ==> act.Select? && NoneReady(k) && Look(k, all) == old(Look(k, tasks))
  {
    hide NoneReady, Kernel.StateValid, View, Turns, PendingOf, Kernel.EventValid, Kernel.Urgent, SoundLists, Wakes, Priorities, Step, StateCells, EventCells, Ends, Kernel.StateNodes, Kernel.EventNodes;
    CellsOf(k, tasks);
    why, all := Finished, tasks;
    match act
    case Create(p) =>
      var t := DoCreate(k, p, tasks);
      all := tasks + [t];
    case Tick => DoTick(k, tasks);
    case Delay(n) => DoDelay(k, n, tasks);
    case Resume(i) => DoResume(k, i, tasks);
    case Prioritize(i, p) => DoPrioritize(k, i, tasks[i], p, tasks);
    case Delete(i) => DoDelete(k, i, tasks);
    case Hold => DoHold(k, tasks);
    case Release => DoRelease(k, tasks);
    case Select => why := Choose(k, tasks);
  }

  /** One act, as far as the code gets with it. */
  method Perform(k: Kernel, act: Act, tasks: seq<Tcb>, ghost tick: nat) returns (why: Outcome, all: seq<Tcb>)
    requires k.Valid() && Covers(k, tasks) && k.tickCount <= tick && Proper([act], |tasks|, |k.events|, tick, k.suspended)
    modifies k, k.states, k.events, k.known, k.StateNodes(), k.EventNodes()
    ensures k.StateValid() && Covers(k, all) && Grown(k)
    ensures why.Finished? ==> k.Valid() && Step(act, old(Look(k, tasks)), Look(k, all))
    ensures why.Finished? && !act.Prioritize? && old(k.Urgent()) ==> k.Urgent()
    ensures why.NobodyReady? ==> act.Select? && k.Valid() && NoneReady(k) && Look(k, all) == old(Look(k, tasks))
    ensures why.Relinked? <==> act.Await? && old(k.current.eventItem.container) != null
    ensures why.Relinked? ==> !SoundLists(k.events, EventCells(k.known))
  {
    hide NoneReady, Kernel.StateValid, View, Turns, PendingOf, Kernel.EventValid, Kernel.Urgent, SoundLists, Wakes, Priorities, Step, StateCells, EventCells, Ends, Kernel.StateNodes, Kernel.EventNodes;
    CellsOf(k, tasks);
    why, all := Finished, tasks;
    match act
    case Await(h, n) =>
      var linked := k.current.eventItem.container != null;
      DoAwait(k, h, n, tasks);
      if linked { why := Relinked; }
    case Signal(h) => DoSignal(k, h, tasks);
    case Suspend(i) => DoSuspend(k, i, tasks);
    case _ => why, all := PerformState(k, act, tasks, tick);
  }

  method Choose(k: Kernel, ghost tasks: seq<Tcb>) returns (why: Outcome)
    requires k.StateValid()
    modifies k`current, k.states
    ensures k.StateValid() && EventsSame(k) && !why.Relinked?
    ensures why.Finished? ==> Step(Select, old(Look(k, tasks)), Look(k, tasks))
    ensures why.NobodyReady? ==> NoneReady(k) && Look(k, tasks) == old(Look(k, tasks))
  {
    hide Kernel.StateValid, View, Turns, PendingOf, Kernel.EventValid, Kernel.Urgent, SoundLists, Wakes, Priorities, Step, StateCells, EventCells, Ends, Kernel.StateNodes, Kernel.EventNodes;
    TasksApart(k);
    if forall i | 0 <= i < READY :: k.states[i].count == 0 {
      why := NobodyReady;
    } else {
      DoSelect(k, tasks);
      why := Finished;
    }
  }

  // Numbers after an act: of tasks, the greatest possible tick, and the nesting of holds.

  function TasksAfter(act: Act, tasks: nat): nat {
    if act.Create? then tasks + 1 else tasks
  }

  function TickAfter(act: Act, tick: nat): nat {
    if act.Tick? then tick + 1 else tick
  }

  function HeldAfter(act: Act, held: nat): nat {
    if act.Hold? then held + 1 else if act.Release? && held > 0 then held - 1 else held
  }

  lemma ProperNext(acts: seq<Act>, i: nat, tasks: nat, events: nat, tick: nat, held: nat)
    requires i < |acts| && Proper(acts[i..], tasks, events, tick, held)
    ensures Proper([acts[i]], tasks, events, tick, held)
    ensures Proper(acts[i + 1..], TasksAfter(acts[i], tasks), events, TickAfter(acts[i], tick), HeldAfter(acts[i], held))
  {
    assert acts[i..][1..] == acts[i + 1..];
    assert [acts[i]][1..] == [];
  }

  lemma StepNumbers(act: Act, s: Snap, s2: Snap)
    requires Step(act, s, s2)
    ensures |s2.tasks| == TasksAfter(act, |s.tasks|) && s2.held == HeldAfter(act, s.held)
    ensures s.tick <= s2.tick <= TickAfter(act, s.tick)
  {
    hide Moved, Left, Added, OnTick, Signalled, Resumed;
  }

  /** Consecutive snapshots are related by the acts. */
  ghost predicate Traced(acts: seq<Act>, trace: seq<Snap>) {
    |trace| <= |acts| + 1 && forall i | 0 <= i < |trace| - 1 :: Step(acts[i], trace[i], trace[i + 1])
  }

  lemma TraceMore(acts: seq<Act>, trace: seq<Snap>, s: Snap)
    requires Traced(acts, trace) && 0 < |trace| <= |acts| && Step(acts[|trace| - 1], trace[|trace| - 1], s)
    ensures Traced(acts, trace + [s])
  {
    hide Step;
  }

  /** The nodes of the tables after more tasks have come: those from before and new ones. */
  twostate lemma GrownNodes(k: Kernel)
    requires Grown(k)
    ensures forall y | y in k.StateNodes() :: y in old(k.StateNodes()) || fresh(y)
    ensures forall y | y in k.EventNodes() :: y in old(k.EventNodes()) || fresh(y)
    ensures forall t | t in k.known :: t in old(k.known) || fresh(t)
  {
  }

  lemma SaneLook(k: Kernel, tasks: seq<Tcb>)
    requires k.StateValid() && Covers(k, tasks)
    ensures Sane(Look(k, tasks))
  {
    hide Zone, View, Turns, Fair, PendingOf, Wakes, Priorities, OnlyIn, Nowhere, Ground, Owned;
    LayoutParts(k);
    AllValues(k);
    forall t | t in k.known
      ensures Nowhere(View(k.states), t.stateItem) || exists h: nat :: OnlyIn(View(k.states), t.stateItem, h)
      ensures (t in k.tasks ==> exists h: nat :: OnlyIn(View(k.states), t.stateItem, h)) && t.priority <= MAX_PRIORITIES
    {
      TaskParts(k, t);
      if t.stateItem.container == null {
        NamelessNowhere(k.states, StateCells(k.known), t.stateItem);
      } else {
        var h, l := Whereabouts(k.states, StateCells(k.known), t.stateItem);
      }
    }
    forall t, u | t in k.known && u in k.known ensures t.stateItem != u.eventItem {
      TaskParts(k, t);
      TaskParts(k, u);
    }
    assert View(k.states)[DELAYED] == k.states[DELAYED].items;
    FairLook(k);
  }

  lemma FairLook(k: Kernel)
    requires k.StateValid()
    ensures Fair(View(k.states), Turns(k.states))
  {
    hide XList.Upcoming, XList.Valid, Ground, Layout, Owned, Placed, Waiting, View, Turns;
    forall h | 0 <= h < |k.states|
      ensures ServesAll(View(k.states)[h], Turns(k.states)[h])
    {
      assert k.states[h] in k.states;
      assert Turns(k.states)[h] == k.states[h].Upcoming() && View(k.states)[h] == k.states[h].items;
      UpcomingIsAll(k.states[h]);
    }
  }

  /** The tasks that are said to be pending are those in the pending list. */
  ghost predicate Tracked(s: Snap) {
    |s.events| > PENDING && forall t | t in s.wake :: t in s.pending <==> t.eventItem in s.events[PENDING]
  }

  lemma TrackedLook(k: Kernel, tasks: seq<Tcb>)
    requires k.Valid() && Covers(k, tasks)
    ensures Tracked(Look(k, tasks))
  {
    hide Zone, View, Turns, Ground, Owned;
    LayoutParts(k);
    AllValues(k);
    forall t | t in k.known ensures t.eventItem.container == k.events[PENDING] <==> t.eventItem in View(k.events)[PENDING] {
      TaskParts(k, t);
      InIfNamed(k.events, EventCells(k.known), PENDING, t.eventItem);
    }
  }

  /** Any acts at all, in any order: they are done one after the other, each as it should be, and all lists and tasks are in
      order after each. Only a choice with nobody ready ends the run early, and a task that waits while its event item is in a
      list already: then the state lists are still in order, and the event lists are not. */
  method Run(k: Kernel, acts: seq<Act>, tasks: seq<Tcb>) returns (why: Outcome, all: seq<Tcb>, ghost trace: seq<Snap>)
    requires k.Valid() && Covers(k, tasks) && Proper(acts, |tasks|, |k.events|, k.tickCount, k.suspended)
    modifies k, k.states, k.events, k.known, k.StateNodes(), k.EventNodes()
    ensures k.StateValid() && Covers(k, all) && Traced(acts, trace) && trace != [] && trace[0] == old(Look(k, tasks))
    ensures forall i | 0 <= i < |trace| :: Sane(trace[i]) && Tracked(trace[i])
    ensures !why.Relinked? ==> k.Valid() && trace[|trace| - 1] == Look(k, all)
    ensures why.Finished? ==> |trace| == |acts| + 1
    ensures why.NobodyReady? ==> |trace| <= |acts| && acts[|trace| - 1].Select? && NoneReady(k)
    ensures why.Relinked? ==> |trace| <= |acts| && acts[|trace| - 1].Await? && !SoundLists(k.events, EventCells(k.known))
  {
    hide Sane, Tracked, NoneReady, Proper, Kernel.StateValid, View, Turns, PendingOf, Kernel.EventValid, Kernel.Urgent, SoundLists, Wakes, Priorities, Step, StateCells, EventCells, Ends, Kernel.StateNodes, Kernel.EventNodes;
    why, all := Finished, tasks;
    trace := [Look(k, tasks)];
    SaneLook(k, tasks);
    TrackedLook(k, tasks);
    ghost var tick := k.tickCount;
    assert acts[0..] == acts;
    for i := 0 to |acts|
      invariant why.Finished? && k.Valid() && Covers(k, all) && Grown(k) && k.tickCount <= tick
      invariant Proper(acts[i..], |all|, |k.events|, tick, k.suspended)
      invariant |trace| == i + 1 && forall j | 0 <= j <= i :: Sane(trace[j]) && Tracked(trace[j])
      invariant Traced(acts, trace) && trace[0] == old(Look(k, tasks)) && trace[i] == Look(k, all)
    {
      ProperNext(acts, i, |all|, |k.events|, tick, k.suspended);
      GrownNodes(k);
      why, all := Perform(k, acts[i], all, tick);
      if why != Finished {
        return;
      }
      StepNumbers(acts[i], trace[i], Look(k, all));
      TraceMore(acts, trace, Look(k, all));
      SaneLook(k, all);
      TrackedLook(k, all);
      trace := trace + [Look(k, all)];
      tick := TickAfter(acts[i], tick);
    }
  }

  /** Any acts that leave event lists alone, in whatever state those are: the state lists and the tasks are in order after each. */
  method RunOn(k: Kernel, acts: seq<Act>, tasks: seq<Tcb>) returns (why: Outcome, all: seq<Tcb>, ghost trace: seq<Snap>)
    requires k.StateValid() && Covers(k, tasks) && Proper(acts, |tasks|, |k.events|, k.tickCount, k.suspended)
    requires forall act | act in acts :: !OnEvents(act)
    modifies k, k.states, k.known, k.StateNodes(), k.EventNodes()`value
    ensures k.StateValid() && Covers(k, all) && 0 < |trace| <= |acts| + 1
    ensures trace[0] == old(Look(k, tasks)) && trace[|trace| - 1] == Look(k, all) && Traced(acts, trace) && forall i | 0 <= i < |trace| :: Sane(trace[i])
    ensures why.Finished? ==> |trace| == |acts| + 1
    ensures !why.Finished? ==> why.NobodyReady? && |trace| <= |acts| && acts[|trace| - 1].Select? && NoneReady(k)
  {
    hide Sane, NoneReady, Proper, Kernel.StateValid, View, Turns, PendingOf, Kernel.EventValid, Kernel.Urgent, SoundLists, Wakes, Priorities, Step, StateCells, EventCells, Ends, Kernel.StateNodes, Kernel.EventNodes;
    why, all := Finished, tasks;
    trace := [Look(k, tasks)];
    SaneLook(k, tasks);
    ghost var tick := k.tickCount;
    assert acts[0..] == acts;
    for i := 0 to |acts|
      invariant why.Finished? && k.StateValid() && Covers(k, all) && Grown(k) && k.tickCount <= tick
      invariant Proper(acts[i..], |all|, |k.events|, tick, k.suspended)
      invariant |trace| == i + 1 && forall j | 0 <= j <= i :: Sane(trace[j])
      invariant Traced(acts, trace) && trace[0] == old(Look(k, tasks)) && trace[i] == Look(k, all)
    {
      ProperNext(acts, i, |all|, |k.events|, tick, k.suspended);
      GrownNodes(k);
      why, all := PerformState(k, acts[i], all, tick);
      if why != Finished {
        return;
      }
      StepNumbers(acts[i], trace[i], Look(k, all));
      TraceMore(acts, trace, Look(k, all));
      SaneLook(k, all);
      trace := trace + [Look(k, all)];
      tick := TickAfter(acts[i], tick);
    }
  }

  // ---- waking in time

  /** The act is not about t. */
  ghost predicate Undisturbed(act: Act, s: Snap, t: Tcb) {
    match act
    case Delay(_) => s.current != t
    case Await(_, _) => s.current != t
    case Signal(h) => h < |s.events| && (s.events[h] == [] || s.events[h][0] != t.eventItem)
    case Suspend(i) => i < |s.tasks| && s.tasks[i] != t
    case Resume(i) => i < |s.tasks| && s.tasks[i] != t
    case Prioritize(i, _) => i < |s.tasks| && s.tasks[i] != t
    case Delete(i) => i < |s.tasks| && s.tasks[i] != t
    case _ => true
  }

  /** t sleeps until the given tick, and from then on is ready. */
  ghost predicate Timed(s: Snap, t: Tcb, wake: nat, prio: nat) {
    && t in s.wake && t in s.prio && s.wake[t] == wake && s.prio[t] == prio
    && OnlyIn(s.states, t.stateItem, if s.tick < wake then DELAYED else prio)
  }

  /** Where only another item may have moved, x is where it was. */
  lemma StillThere(v: seq<seq<Item>>, w: seq<seq<Item>>, y: Item, x: Item, h: nat)
    requires SameElse(v, w, y) && x != y && OnlyIn(v, x, h)
    ensures OnlyIn(w, x, h)
  {
  }

  lemma TimedTick(s: Snap, s2: Snap, t: Tcb, wake: nat, prio: nat)
    requires Sane(s) && Step(Tick, s, s2) && Timed(s, t, wake, prio)
    ensures Timed(s2, t, wake, prio)
  {
    if s.held == 0 {
      var x := t.stateItem;
      if !(x in s.states[DELAYED] && wake <= s2.tick) {
        var h := if s.tick < wake then DELAYED else prio;
        assert forall i | 0 <= i < STATE_LISTS :: x in s2.states[i] <==> x in s.states[i];
        assert OnlyIn(s2.states, x, h);
      }
    }
  }

  lemma TimedSignal(s: Snap, s2: Snap, h: nat, t: Tcb, wake: nat, prio: nat)
    requires Sane(s) && Step(Signal(h), s, s2) && Undisturbed(Signal(h), s, t) && Timed(s, t, wake, prio)
    ensures Timed(s2, t, wake, prio)
  {
    hide OnlyIn, Left;
    if s.events[h] != [] {
      var u :| u in s.prio && Signalled(s, s2, h, u);
      if s.held == 0 {
        StillThere(s.states, s2.states, u.stateItem, t.stateItem, if s.tick < wake then DELAYED else prio);
      }
    }
  }

  /** The task whose state item an act moves, if it moves any, other than a tick or a signal. */
  ghost function Mover(act: Act, s: Snap, s2: Snap): Tcb
    requires Sane(s) && Step(act, s, s2)
  {
    match act
    case Create(_) => s2.tasks[|s2.tasks| - 1]
    case Suspend(i) => s.tasks[i]
    case Resume(i) => s.tasks[i]
    case Prioritize(i, _) => s.tasks[i]
    case Delete(i) => s.tasks[i]
    case _ => s.current
  }

  lemma MoverMoves(act: Act, s: Snap, s2: Snap)
    requires !act.Tick? && !act.Signal? && Sane(s) && Step(act, s, s2)
    ensures s2.states == s.states || SameElse(s.states, s2.states, Mover(act, s, s2).stateItem)
  {
    hide OnlyIn, Highest, SameElse, Sane;
  }

  lemma MoverIsOther(act: Act, s: Snap, s2: Snap, t: Tcb)
    requires !act.Tick? && !act.Signal? && Sane(s) && Step(act, s, s2) && Undisturbed(act, s, t) && t in s.wake && s2.states != s.states
    ensures Mover(act, s, s2) != t && Mover(act, s, s2) in s2.wake && t in s2.wake
  {
    hide OnlyIn, Highest, Moved, Left, Added, Nowhere;
    assert forall i | 0 <= i < |s.tasks| :: s.tasks[i] in s.wake;
  }

  lemma ItemsDiffer(s: Snap, t: Tcb, u: Tcb)
    requires Sane(s) && t in s.wake && u in s.wake && t != u
    ensures t.stateItem != u.stateItem
  {
    hide OnlyIn, Nowhere;
  }

  lemma ValuesStay(act: Act, s: Snap, s2: Snap, t: Tcb)
    requires !act.Tick? && !act.Signal? && Sane(s) && Step(act, s, s2) && Undisturbed(act, s, t) && t in s.wake
    ensures s2.tick == s.tick && t in s2.wake && t in s2.prio && s2.wake[t] == s.wake[t] && s2.prio[t] == s.prio[t]
  {
    hide OnlyIn, Highest, Moved, Left, Added, Nowhere;
  }

  lemma TimedOther(act: Act, s: Snap, s2: Snap, t: Tcb, wake: nat, prio: nat)
    requires !act.Tick? && !act.Signal? && Sane(s) && Sane(s2) && Step(act, s, s2) && Undisturbed(act, s, t) && Timed(s, t, wake, prio)
    ensures Timed(s2, t, wake, prio)
  {
    hide OnlyIn, SameElse, Sane, Step, Undisturbed, Mover;
    MoverMoves(act, s, s2);
    ValuesStay(act, s, s2, t);
    if s2.states != s.states {
      MoverIsOther(act, s, s2, t);
      ItemsDiffer(s2, Mover(act, s, s2), t);
      StillThere(s.states, s2.states, Mover(act, s, s2).stateItem, t.stateItem, if s.tick < wake then DELAYED else prio);
    }
  }

  /** No early and no late wake-up, whatever else is going on: as long as no act is about it, a sleeping task sleeps until its
      wake time has come, and is in its ready list from that tick on. */
  lemma {:induction false} OnTime(acts: seq<Act>, trace: seq<Snap>, t: Tcb, j: nat)
    requires Traced(acts, trace) && j < |trace| && (forall i | 0 <= i <= j :: Sane(trace[i]))
    requires t in trace[0].wake && t in trace[0].prio && OnlyIn(trace[0].states, t.stateItem, DELAYED)
    requires forall i | 0 <= i < j :: Undisturbed(acts[i], trace[i], t)
    ensures Timed(trace[j], t, trace[0].wake[t], trace[0].prio[t])
  {
    hide Step, Undisturbed;
    if j > 0 {
      OnTime(acts, trace, t, j - 1);
      var wake, prio := trace[0].wake[t], trace[0].prio[t];
      assert Step(acts[j - 1], trace[j - 1], trace[j]) && Undisturbed(acts[j - 1], trace[j - 1], t);
      if acts[j - 1].Tick? {
        TimedTick(trace[j - 1], trace[j], t, wake, prio);
      } else if acts[j - 1].Signal? {
        TimedSignal(trace[j - 1], trace[j], acts[j - 1].event, t, wake, prio);
      } else {
        TimedOther(acts[j - 1], trace[j - 1], trace[j], t, wake, prio);
      }
    }
  }

  // ---- taking turns

  lemma HighestIsOne(v: seq<seq<Item>>, p: nat, q: nat)
    requires Highest(v, p) && Highest(v, q)
    ensures p == q
  {
  }

  /** One choice, after m others. */
  lemma OneTurn(s0: Snap, s: Snap, s2: Snap, p: nat, m: nat)
    requires Step(Select, s, s2) && p < |s0.turns| && Highest(s0.states, p) && m < |s0.turns[p]|
    requires s.states == s0.states && s.turns == s0.turns[p := Turn(s0.turns[p], m)]
    ensures s2.states == s0.states && s2.turns == s0.turns[p := Turn(s0.turns[p], m + 1)] && s2.current.stateItem == s0.turns[p][m]
  {
    var q: nat :| Selected(s, s2, q);
    HighestIsOne(s.states, p, q);
    hide Highest;
    var u := s0.turns[p];
    var w := Turn(u, m);
    assert w[0] == u[m] && w[1..] + [w[0]] == Turn(u, m + 1);
  }

  lemma FullTurn(turns: seq<seq<Item>>, p: nat)
    requires p < |turns|
    ensures turns[p := Turn(turns[p], 0)] == turns == turns[p := Turn(turns[p], |turns[p]|)]
  {
    assert Turn(turns[p], 0) == turns[p] == Turn(turns[p], |turns[p]|);
  }

  /** Round robin: as long as the kernel only chooses, the tasks of the highest ready list run one after the other in the order of
      service, each once; and after as many choices as there are tasks the order is the one it was. */
  lemma {:induction false} RoundRobin(acts: seq<Act>, trace: seq<Snap>, i: nat, p: nat, m: nat)
    requires Traced(acts, trace) && i + m < |trace| && forall j | i <= j < i + m :: acts[j].Select?
    requires p < |trace[i].turns| && Highest(trace[i].states, p) && m <= |trace[i].turns[p]|
    ensures var u := trace[i].turns[p];
      && trace[i + m].states == trace[i].states && trace[i + m].turns == trace[i].turns[p := Turn(u, m)]
      && forall j | 0 <= j < m :: trace[i + j + 1].current.stateItem == u[j]
    ensures m == |trace[i].turns[p]| ==> trace[i + m].turns == trace[i].turns
    decreases m
  {
    hide Highest, Step, Turn;
    FullTurn(trace[i].turns, p);
    if m > 0 {
      RoundRobin(acts, trace, i, p, m - 1);
      assert Step(acts[i + m - 1], trace[i + m - 1], trace[i + m]);
      OneTurn(trace[i], trace[i + m - 1], trace[i + m], p, m - 1);
    }
  }

  // ---- a kernel from nothing, and what can be done to it

  method NewLists(n: nat) returns (lists: seq<XList>)
    ensures |lists| == n && AllEmpty(lists) && Apart(lists) && (forall l | l in lists :: fresh(l) && fresh(l.end))
    ensures fresh(lists) && fresh(Ends(lists))
  {
    hide XList.Valid;
    lists := [];
    for i := 0 to n
      invariant |lists| == i && AllEmpty(lists) && Apart(lists) && fresh(lists) && forall l | l in lists :: fresh(l) && fresh(l.end)
    {
      var l := new XList();
      lists := lists + [l];
    }
  }

  lemma FirstLayout(states: seq<XList>, events: seq<XList>, idle: Tcb)
    requires |states| == STATE_LISTS && |events| > PENDING && Apart(states) && Apart(events)
    requires (forall l, m | l in states && m in events :: l != m && l.end != m.end) && idle.stateItem != idle.eventItem
    requires forall l | l in states + events :: l.end != idle.stateItem && l.end != idle.eventItem
    ensures Layout(states, events, {idle})
  {
    assert StateCells({idle}) == {idle.stateItem} && EventCells({idle}) == {idle.eventItem};
    forall y | y in Ends(states) ensures y !in Ends(events) && y != idle.stateItem && y != idle.eventItem {
      var l :| l in states && l.end == y;
      assert l in states + events;
    }
    forall y | y in Ends(events) ensures y != idle.stateItem && y != idle.eventItem {
      var l :| l in events && l.end == y;
      assert l in states + events;
    }
  }

  /** The start of the scheduler, with some queues that nobody waits for. */
  method Boot(queues: nat) returns (k: Kernel, idle: Tcb)
    ensures fresh(k) && fresh(k.states) && fresh(k.events) && fresh(k.known) && fresh(k.StateNodes()) && fresh(k.EventNodes())
    ensures k.Valid() && k.LiveOnly() && |k.events| == queues + 1 && k.known == k.tasks == {idle} && k.current == idle
    ensures k.tickCount == 0 && k.suspended == 0 && OnlyReady(k.states, idle.stateItem) && AllEmpty(k.events)
    ensures idle.eventItem.container == null && idle.priority == 0
  {
    hide XList.Valid, AllEmpty, Apart, Ends, Layout, Owned, OnlyReady, Kernel.Valid, Kernel.LiveOnly, StateCells, EventCells;
    var states := NewLists(STATE_LISTS);
    Allocations(states, states, {}, {});
    var events := NewLists(queues + 1);
    Allocations(states, events, {}, {});
    idle := NewTcb(0);
    Allocations(states, events, {idle}, {});
    FirstLayout(states, events, idle);
    OneCell(idle);
    k := new Kernel(states, events, idle, states[0]);
  }

  lemma OneCell(t: Tcb)
    ensures StateCells({t}) == {t.stateItem} && EventCells({t}) == {t.eventItem}
  {
  }

  lemma AwaitSteps(s: Snap, s2: Snap, h: nat, n: nat)
    requires Step(Await(h, n), s, s2) && h < |s2.events| && n > 0
    ensures Nowhere(s.events, s.current.eventItem) && h < |s2.events| && s.current.eventItem in s2.events[h]
    ensures s2 == s.(states := s2.states, turns := s2.turns, events := s2.events, pending := s2.pending, wake := s.wake[s.current := s.tick + n])
    ensures |s2.states| > DELAYED && |s2.events| == |s.events| && s.current.stateItem in s2.states[DELAYED]
  {
  }

  lemma TickSteps(s: Snap, s2: Snap, t: Tcb)
    requires Step(Tick, s, s2) && s.held == 0 && t in s.wake && t in s.prio && |s.states| == STATE_LISTS && t.stateItem in s.states[DELAYED]
    requires s.wake[t] <= s.tick + 1
    ensures s2 == s.(tick := s.tick + 1, states := s2.states, turns := s2.turns) && OnlyIn(s2.states, t.stateItem, s.prio[t])
  {
  }

  lemma SelectSteps(s: Snap, s2: Snap)
    requires Step(Select, s, s2)
    ensures s2 == s.(current := s2.current, turns := s2.turns) && s2.current in s.wake
  {
  }

  /** A task waits with a timeout, the timeout comes, it runs again and waits again: the second wait finds its event item where
      the first one left it. */
  lemma WaitsTwice(trace: seq<Snap>, idle: Tcb)
    requires Traced([Await(1, 1), Tick, Select, Await(1, 1)], trace) && trace != [] && Sane(trace[0]) && |trace[0].events| == 2
    requires trace[0].current == idle && trace[0].wake.Keys == {idle} && trace[0].prio == map[idle := 0] && trace[0].tick == trace[0].held == 0
    ensures |trace| < 5 && (|trace| == 3 ==> OnlyIn(trace[2].states, idle.stateItem, 0))
  {
    hide Step, Nowhere, OnlyIn;
    var e, x := idle.eventItem, idle.stateItem;
    if |trace| > 1 {
      assert Step(Await(1, 1), trace[0], trace[1]);
      AwaitNumbers(trace[0], trace[1]);
      AwaitSteps(trace[0], trace[1], 1, 1);
      if |trace| > 2 {
        TickSteps(trace[1], trace[2], idle);
        if |trace| > 3 {
          SelectSteps(trace[2], trace[3]);
          if |trace| > 4 {
            NotInAndOut(trace[3], trace[4], e);
          }
        }
      }
    }
  }

  lemma AwaitNumbers(s: Snap, s2: Snap)
    requires Step(Await(1, 1), s, s2) && Sane(s)
    ensures |s2.events| == |s.events| && |s2.states| == STATE_LISTS
  {
  }

  lemma NotInAndOut(s: Snap, s2: Snap, e: Item)
    requires Step(Await(1, 1), s, s2)
    ensures |s.events| > 1 && s.current.eventItem !in s.events[1]
  {
  }

  /** So the first wait may end well and the second one spoils the event list. */
  method TimedOutWaiter() returns (k: Kernel, why: Outcome)
    ensures why.Relinked? && k.StateValid() && !SoundLists(k.events, EventCells(k.known))
  {
    hide NoneReady, Sane, Traced, OnlyReady, AllEmpty, Kernel.LiveOnly, Kernel.StateValid, View, Turns, PendingOf, Kernel.EventValid, Kernel.Urgent, SoundLists, Wakes, Priorities, Step, StateCells, EventCells, Ends, Kernel.StateNodes, Kernel.EventNodes;
    var idle, all;
    ghost var trace;
    k, idle := Boot(1);
    AllValues(k);
    var acts := [Await(1, 1), Tick, Select, Await(1, 1)];
    ProperWaits();
    why, all, trace := Run(k, acts, [idle]);
    assert trace[0].prio == map[idle := 0];
    WaitsTwice(trace, idle);
    if why.NobodyReady? { ReadyIsNotNone(k, idle.stateItem); }
  }

  lemma ProperWaits()
    ensures Proper([Await(1, 1), Tick, Select, Await(1, 1)], 1, 2, 0, 0)
  {
    var acts := [Await(1, 1), Tick, Select, Await(1, 1)];
    assert acts[1..] == [Tick, Select, Await(1, 1)] && acts[1..][1..] == [Select, Await(1, 1)];
    assert [Select, Await(1, 1)][1..] == [Await(1, 1)] && [Await(1, 1)][1..] == [];
  }

  lemma ReadyIsNotNone(k: Kernel, x: Item)
    requires k.StateValid() && OnlyIn(View(k.states), x, 0)
    ensures !NoneReady(k)
  {
    hide Kernel.Tidy, View;
    CountsOf(k);
    assert x in k.states[0].items;
  }

  /** A task is deleted while its event item is in a list, which keeps the item. */
  method DeletedWaiter() returns (k: Kernel)
    ensures k.Valid() && !k.LiveOnly()
  {
    hide OnlyReady, AllEmpty, Moved, Left, Added, Inserted, InsertPlace, Kernel.LiveOnly, Kernel.StateValid, View, Turns, PendingOf, Kernel.EventValid, Kernel.Urgent, SoundLists, Wakes, Priorities, Step, StateCells, EventCells, Ends, Kernel.StateNodes, Kernel.EventNodes;
    var idle;
    k, idle := Boot(1);
    CellsOf(k, [idle]);
    OneApart(k);
    PlaceOnEventList(k, 1, k.events[1], 1);
    NoneDeleted(k);
    TaskDelete(k, idle);
  }

  lemma OneApart(k: Kernel)
    requires k.StateValid()
    ensures k.current.stateItem != k.current.eventItem
  {
    hide Zone;
    CurrentApart(k, PENDING);
  }

  lemma NoneDeleted(k: Kernel)
    requires k.known == k.tasks
    ensures k.LiveOnly()
  {
  }
}
