/** The wake-up queue: a heap of tasks cancelled in place, with the current task of each
    database beside it. To its callers it is a map from database to earliest timestamp. */
module CronRunner {
  import opened Wrappers
  import opened Names
  import opened Wakeups

  const MAX_SLEEP := 60.0
  const MIN_SLEEP := 1.0

  // What callers, and the jobs fired by the runner, may do.
  datatype Action = Schedule(timestamp: real, db: Name) | Cancel(db: Name) | CancelAll | TakeSlot | ReleaseSlot

  // What is planned, as callers see it: the earliest pending wake-up of each database, and the free thread slots.
  datatype Plan = Plan(pending: map<Name, real>, slots: int)

  // The plain meaning of an action.
  function After(enabled: bool, plan: Plan, a: Action): Plan
  {
    match a
    case Schedule(timestamp, db) =>
      if !enabled || timestamp == 0.0 || (db in plan.pending && plan.pending[db] < timestamp) then plan
      else plan.(pending := plan.pending[db := timestamp])
    case Cancel(db) => plan.(pending := plan.pending - {db})
    case CancelAll => plan.(pending := map[])
    case TakeSlot => plan.(slots := plan.slots - 1)
    case ReleaseSlot => plan.(slots := plan.slots + 1)
  }

  function AfterAll(enabled: bool, plan: Plan, actions: seq<Action>): Plan
  {
    if actions == [] then plan
    else After(enabled, AfterAll(enabled, plan, actions[..|actions| - 1]), actions[|actions| - 1])
  }

  // The timestamps asked for since a database was last cancelled, with the one planned at first.
  function Requests(plan: Plan, actions: seq<Action>, db: Name): set<real>
  {
    if actions == [] then
      if db in plan.pending then {plan.pending[db]} else {}
    else
      var before := Requests(plan, actions[..|actions| - 1], db);
      match actions[|actions| - 1]
      case Schedule(timestamp, d) => if d == db && timestamp != 0.0 then before + {timestamp} else before
      case Cancel(d) => if d == db then {} else before
      case CancelAll => {}
      case _ => before
  }

  // The plan is the earliest of them.
  lemma {:induction false} PlansTheEarliest(plan: Plan, actions: seq<Action>, db: Name)
    ensures var pending, requests := AfterAll(true, plan, actions).pending, Requests(plan, actions, db);
            && (db in pending <==> requests != {})
            && (db in pending ==> pending[db] in requests && forall t :: t in requests ==> pending[db] <= t)
  {
    if actions != [] {
      PlansTheEarliest(plan, actions[..|actions| - 1], db);
    }
  }

  // Each slot taken is one less, each released one more.
  lemma {:induction false} SlotsCounted(enabled: bool, plan: Plan, actions: seq<Action>)
    ensures AfterAll(enabled, plan, actions).slots == plan.slots + multiset(actions)[ReleaseSlot] - multiset(actions)[TakeSlot]
  {
    if actions != [] {
      SlotsCounted(enabled, plan, actions[..|actions| - 1]);
      assert actions == actions[..|actions| - 1] + [actions[|actions| - 1]];
    }
  }

  // Where scheduling is switched off nothing new is planned.
  lemma {:induction false} DisabledPlansNothing(plan: Plan, actions: seq<Action>, db: Name)
    ensures var pending := AfterAll(false, plan, actions).pending;
            db in pending ==> db in plan.pending && pending[db] == plan.pending[db]
  {
    if actions != [] {
      DisabledPlansNothing(plan, actions[..|actions| - 1], db);
    }
  }

  // A database woken up at `now`, for the wake-up planned at `timestamp`.
  datatype Fire = Fire(timestamp: real, db: Name, now: real)

  // It is the earliest planned, it is due, and there is a slot for it.
  ghost predicate Earliest(plan: Plan, fire: Fire)
  {
    && fire.db in plan.pending && plan.pending[fire.db] == fire.timestamp < fire.now && plan.slots != 0
    && forall db :: db in plan.pending ==>
         fire.timestamp < plan.pending[db] || (fire.timestamp == plan.pending[db] && (fire.db == db || Before(fire.db, db)))
  }

  // What a database does when it wakes up: any actions, not the same each time.
  type Jobs = nat -> seq<Action>

  // The plan after some wake-ups and what their jobs did.
  ghost function AfterFires(enabled: bool, plan: Plan, jobs: Jobs, fires: seq<Fire>): Plan
  {
    if fires == [] then plan
    else
      var k := |fires| - 1;
      var before := AfterFires(enabled, plan, jobs, fires[..k]);
      AfterAll(enabled, before.(pending := before.pending - {fires[k].db}), jobs(k))
  }

  // Each wake-up was the earliest of the plan at its time.
  ghost predicate FiresInOrder(enabled: bool, plan: Plan, jobs: Jobs, fires: seq<Fire>)
  {
    forall k :: 0 <= k < |fires| ==> Earliest(AfterFires(enabled, plan, jobs, fires[..k]), fires[k])
  }

  // Each wake-up happened at the time of one of the first n rounds.
  ghost predicate OnTheClock(fires: seq<Fire>, clock: nat -> real, n: nat)
  {
    forall k :: 0 <= k < |fires| ==> InRound(fires[k], clock, k, n)
  }

  ghost predicate InRound(fire: Fire, clock: nat -> real, first: nat, n: nat)
  {
    exists i: nat :: first <= i < n && fire.now == clock(i)
  }

  lemma LaterRound(fire: Fire, clock: nat -> real, first: nat, n: nat)
    requires InRound(fire, clock, first, n)
    ensures InRound(fire, clock, first, n + 1)
  {
    var i: nat :| first <= i < n && fire.now == clock(i);
    assert first <= i < n + 1 && fire.now == clock(i);
  }

  lemma ClockOneMore(fires: seq<Fire>, clock: nat -> real, n: nat, fire: Fire)
    requires OnTheClock(fires, clock, n) && |fires| <= n
    ensures OnTheClock(fires, clock, n + 1)
    ensures fire.now == clock(n) ==> OnTheClock(fires + [fire], clock, n + 1)
  {
    forall k | 0 <= k < |fires|
      ensures InRound(fires[k], clock, k, n + 1)
    {
      LaterRound(fires[k], clock, k, n);
    }
    if fire.now == clock(n) {
      assert InRound(fire, clock, |fires|, n + 1);
    }
  }

  lemma FiresOneMore(enabled: bool, plan: Plan, jobs: Jobs, fires: seq<Fire>, fire: Fire)
    requires FiresInOrder(enabled, plan, jobs, fires)
    requires Earliest(AfterFires(enabled, plan, jobs, fires), fire)
    ensures FiresInOrder(enabled, plan, jobs, fires + [fire])
    ensures var before := AfterFires(enabled, plan, jobs, fires);
            AfterFires(enabled, plan, jobs, fires + [fire])
            == AfterAll(enabled, before.(pending := before.pending - {fire.db}), jobs(|fires|))
  {
    var all := fires + [fire];
    assert all[..|fires|] == fires;
    forall k | 0 <= k < |all|
      ensures Earliest(AfterFires(enabled, plan, jobs, all[..k]), all[k])
    {
      assert k < |fires| ==> all[..k] == fires[..k];
    }
  }

  // An entry of the heap. Only its flag ever changes.
  class Task {
    const timestamp: real
    const db: Name
    var canceled: bool

    constructor (timestamp: real, db: Name)
      ensures this.timestamp == timestamp && this.db == db && !canceled
    {
      this.timestamp, this.db, canceled := timestamp, db, false;
    }

    function Key(): Key
      reads this
    {
      Wakeups.Key(timestamp, db, canceled)
    }
  }

  ghost function Keys(tasks: seq<Task>): (keys: seq<Key>)
    reads tasks
    ensures |keys| == |tasks| && forall i :: 0 <= i < |keys| ==> keys[i] == tasks[i].Key()
  {
    seq(|tasks|, i requires 0 <= i < |tasks| reads tasks => tasks[i].Key())
  }

  lemma KeysSwapped(tasks: seq<Task>, i: nat, j: nat)
    requires i < |tasks| && j < |tasks|
    ensures Keys(Swapped(tasks, i, j)) == Swapped(Keys(tasks), i, j)
  {
    var l, r := Keys(Swapped(tasks, i, j)), Swapped(Keys(tasks), i, j);
    forall k | 0 <= k < |l|
      ensures l[k] == r[k]
    {
    }
  }

  lemma LastMayBeSmall(tasks: seq<Task>, task: Task)
    requires Heap(Keys(tasks))
    ensures HeapButUp(Keys(tasks + [task]), |tasks|)
  {
    var keys, more := Keys(tasks), Keys(tasks + [task]);
    forall j
      ensures j != |tasks| ==> InPlace(more, j)
    {
      assert InPlace(keys, j);
    }
  }

  lemma SwapUp(r: seq<Task>, i: nat)
    requires Distinct(r) && HeapButUp(Keys(r), i) && 0 < i < |r| && Less(r[i].Key(), r[Up(i)].Key())
    ensures HeapButUp(Keys(Swapped(r, i, Up(i))), Up(i))
    ensures Distinct(Swapped(r, i, Up(i))) && forall t :: t in Swapped(r, i, Up(i)) <==> t in r
  {
    SwappedMembers(r, i, Up(i));
    SwappedUp(Keys(r), i);
    KeysSwapped(r, i, Up(i));
  }

  lemma SwapDown(r: seq<Task>, i: nat, c: nat)
    requires Distinct(r) && HeapButDown(Keys(r), i) && i < c < |r| && (c == 2 * i + 1 || c == 2 * i + 2)
    requires c == 2 * i + 2 ==> Less(r[c].Key(), r[c - 1].Key())
    requires c == 2 * i + 1 && c + 1 < |r| ==> Le(r[c].Key(), r[c + 1].Key())
    ensures Le(r[i].Key(), r[c].Key()) ==> Heap(Keys(r))
    ensures Less(r[c].Key(), r[i].Key()) ==> HeapButDown(Keys(Swapped(r, i, c)), c)
    ensures Distinct(Swapped(r, i, c)) && forall t :: t in Swapped(r, i, c) <==> t in r
  {
    LeastChild(Keys(r), i, c);
    SwappedMembers(r, i, c);
    if Less(r[c].Key(), r[i].Key()) {
      SwappedDown(Keys(r), i, c);
      KeysSwapped(r, i, c);
    }
  }

  // heapq.heappush
  method HeapPush(tasks: seq<Task>, task: Task) returns (r: seq<Task>)
    requires Heap(Keys(tasks)) && Distinct(tasks) && task !in tasks
    ensures Heap(Keys(r)) && Distinct(r) && forall t :: t in r <==> t in tasks || t == task
  {
    r := tasks + [task];
    var i := |tasks|;
    LastMayBeSmall(tasks, task);
    while i > 0 && Less(r[i].Key(), r[Up(i)].Key())
      invariant 0 <= i < |r| && HeapButUp(Keys(r), i)
      invariant Distinct(r) && forall t :: t in r <==> t in tasks || t == task
    {
      SwapUp(r, i);
      r := Swapped(r, i, Up(i));
      i := Up(i);
    }
    assert InPlace(Keys(r), i);
  }

  // The last entry, put in place of the first, is moved down to where it belongs.
  method SiftDown(tasks: seq<Task>) returns (r: seq<Task>)
    requires tasks != [] && HeapButDown(Keys(tasks), 0) && Distinct(tasks)
    ensures Heap(Keys(r)) && Distinct(r) && forall t :: t in r <==> t in tasks
  {
    r := tasks;
    var i := 0;
    while 2 * i + 1 < |r|
      invariant 0 <= i < |r| && HeapButDown(Keys(r), i)
      invariant Distinct(r) && forall t :: t in r <==> t in tasks
      decreases |r| - i
    {
      var c := 2 * i + 1;
      if c + 1 < |r| && Less(r[c + 1].Key(), r[c].Key()) {
        c := c + 1;
      }
      SwapDown(r, i, c);
      if !Less(r[c].Key(), r[i].Key()) {
        return;
      }
      r := Swapped(r, i, c);
      i := c;
    }
  }

  // heapq.heappop
  method HeapPop(tasks: seq<Task>) returns (task: Task, r: seq<Task>)
    requires Heap(Keys(tasks)) && tasks != [] && Distinct(tasks)
    ensures task == tasks[0] && Heap(Keys(r)) && Distinct(r) && forall t :: t in r <==> t in tasks && t != task
  {
    task := tasks[0];
    if |tasks| == 1 {
      assert tasks == [task];
      r := [];
    } else {
      LastToFrontHolds(tasks);
      LastToFrontHeap(tasks);
      r := SiftDown(LastToFront(tasks));
    }
  }

  function LastToFront<T>(s: seq<T>): (r: seq<T>)
    requires |s| > 1
  {
    [s[|s| - 1]] + s[1..|s| - 1]
  }

  lemma LastToFrontHolds<T>(s: seq<T>)
    requires |s| > 1 && Distinct(s)
    ensures Distinct(LastToFront(s)) && forall x :: x in LastToFront(s) <==> x in s && x != s[0]
  {
    var middle := s[1..|s| - 1];
    assert s == [s[0]] + middle + [s[|s| - 1]];
  }

  lemma LastToFrontHeap(tasks: seq<Task>)
    requires Heap(Keys(tasks)) && |tasks| > 1
    ensures HeapButDown(Keys(LastToFront(tasks)), 0)
  {
    var keys, moved := Keys(tasks), Keys(LastToFront(tasks));
    forall j | 0 < j < |moved|
      ensures moved[j] == keys[j]
    {
      assert LastToFront(tasks)[j] == tasks[j];
    }
    forall j
      ensures Up(j) != 0 ==> InPlace(moved, j)
      ensures Bridged(moved, 0, j)
    {
      assert InPlace(keys, j);
    }
  }

  lemma LeastChild(keys: seq<Key>, i: nat, c: nat)
    requires i < c < |keys| && (c == 2 * i + 1 || c == 2 * i + 2)
    requires c == 2 * i + 2 ==> Less(keys[c], keys[c - 1])
    requires c == 2 * i + 1 && c + 1 < |keys| ==> Le(keys[c], keys[c + 1])
    ensures forall j :: 0 < j < |keys| && Up(j) == i ==> Le(keys[c], keys[j])
    ensures HeapButDown(keys, i) && Le(keys[i], keys[c]) ==> Heap(keys)
  {
    LeIsTotal(keys[c], keys[c]);
    LeIsTotal(keys[c], keys[c - 1]);
    forall j | 0 < j < |keys| && Up(j) == i
      ensures Le(keys[c], keys[j])
      ensures Le(keys[i], keys[c]) ==> InPlace(keys, j)
    {
      assert j == 2 * i + 1 || j == 2 * i + 2;
      if Le(keys[i], keys[c]) {
        LeIsTransitive(keys[i], keys[c], keys[j]);
      }
    }
    forall j
      ensures HeapButDown(keys, i) && Le(keys[i], keys[c]) ==> InPlace(keys, j)
    {
    }
  }

  // The wake-ups of the current tasks that are not cancelled.
  ghost function Pending(byDb: map<Name, Task>): map<Name, real>
    reads byDb.Values
  {
    map db | db in byDb && !byDb[db].canceled :: byDb[db].timestamp
  }

  ghost predicate IsPending(byDb: map<Name, Task>, pending: map<Name, real>, db: Name)
    reads byDb.Values
  {
    if db in byDb && !byDb[db].canceled then db in pending && pending[db] == byDb[db].timestamp else db !in pending
  }

  lemma PendingIs(byDb: map<Name, Task>, pending: map<Name, real>)
    requires forall db {:trigger IsPending(byDb, pending, db)} :: IsPending(byDb, pending, db)
    ensures Pending(byDb) == pending
  {
    forall db
      ensures db in pending <==> db in Pending(byDb)
      ensures db in pending ==> pending[db] == Pending(byDb)[db]
    {
      assert IsPending(byDb, pending, db);
    }
  }

  lemma PendingAdded(byDb: map<Name, Task>, task: Task, pending: map<Name, real>)
    requires !task.canceled && (task.db in byDb ==> byDb[task.db].canceled)
    requires Pending(byDb) == pending - {task.db}
    ensures Pending(byDb[task.db := task]) == pending[task.db := task.timestamp]
  {
    var r, plan := Pending(byDb[task.db := task]), pending[task.db := task.timestamp];
    forall db
      ensures db in r <==> db in plan
      ensures db in r ==> r[db] == plan[db]
    {
      assert db != task.db ==> (db in pending <==> db in Pending(byDb));
    }
  }

  lemma PendingRemoved(byDb: map<Name, Task>, db: Name)
    ensures Pending(byDb - {db}) == Pending(byDb) - {db}
  {
  }

  // The heap is ordered and holds the live tasks, each the current one of its database, and
  // maybe some cancelled ones; a current task that has left the heap is cancelled.
  ghost predicate Consistent(tasks: set<Task>, wakeups: seq<Task>, byDb: map<Name, Task>)
    reads tasks
  {
    && Distinct(wakeups) && (forall t :: t in wakeups ==> t in tasks)
    && (forall db :: db in byDb ==> byDb[db] in tasks)
    && Heap(Keys(wakeups))
    && (forall t :: t in wakeups && !t.canceled ==> t.db in byDb && byDb[t.db] == t)
    && (forall db :: db in byDb ==> byDb[db].db == db && (byDb[db] in wakeups || byDb[db].canceled))
  }

  // Popping the first task keeps this, once a live one is forgotten ...
  lemma PoppedIsConsistent(tasks: set<Task>, wakeups: seq<Task>, byDb: map<Name, Task>, rest: seq<Task>)
    requires Consistent(tasks, wakeups, byDb) && wakeups != []
    requires Distinct(rest) && Heap(Keys(rest)) && forall t :: t in rest <==> t in wakeups && t != wakeups[0]
    ensures wakeups[0].canceled ==> Consistent(tasks, rest, byDb)
    ensures !wakeups[0].canceled ==>
              && wakeups[0].db in byDb && byDb[wakeups[0].db] == wakeups[0]
              && Consistent(tasks, rest, byDb - {wakeups[0].db})
  {
  }

  // ... and so does adding a task for a database that has no live one.
  lemma PushedIsConsistent(tasks: set<Task>, wakeups: seq<Task>, byDb: map<Name, Task>, task: Task, more: seq<Task>)
    requires Consistent(tasks, wakeups, byDb) && (task.db in byDb ==> byDb[task.db].canceled) && task !in tasks
    requires Distinct(more) && Heap(Keys(more)) && forall t :: t in more <==> t in wakeups || t == task
    ensures Consistent(tasks + {task}, more, byDb[task.db := task])
  {
  }

  class Cron {
    const enabled: bool                  // enable_schedule_wakeup
    var wakeups: seq<Task>               // the heap
    var byDb: map<Name, Task>
    var slots: int
    ghost var tasks: set<Task>           // every task ever made

    ghost predicate Valid()
      reads this, tasks
    {
      Consistent(tasks, wakeups, byDb)
    }

    ghost function Planned(): Plan
      reads this, byDb.Values
    {
      Plan(Pending(byDb), slots)
    }

    constructor (enabled: bool, slots: int)
      ensures Valid() && fresh(tasks) && this.enabled == enabled && Planned() == Plan(map[], slots)
    {
      this.enabled, this.slots, wakeups, byDb, tasks := enabled, slots, [], map[], {};
    }

    // No task comes back to the heap, and none is cancelled no more.
    twostate predicate NoneBack()
      reads this, tasks
    {
      forall t :: t in old(tasks) && t in tasks ==> (t in wakeups ==> t in old(wakeups)) && (old(t.canceled) ==> t.canceled)
    }

    lemma AtMostOneLive()
      requires Valid()
      ensures OneLive(Keys(wakeups))
    {
    }

    // Cancel a task in place: the heap stays ordered although an entry has changed in place.
    method SetFlag(task: Task)
      requires Valid()
      modifies task
      ensures task.canceled && Heap(Keys(wakeups))
    {
      ghost var before := Keys(wakeups);
      AtMostOneLive();
      task.canceled := true;
      if task in wakeups {
        ghost var at :| 0 <= at < |wakeups| && wakeups[at] == task;
        FlipKeepsHeap(before, at);
        assert Keys(wakeups) == before[at := before[at].(canceled := true)];
      } else {
        assert Keys(wakeups) == before;
      }
    }

    // The current task of a database is cancelled.
    method CancelCurrent(db: Name)
      requires Valid() && db in byDb
      modifies byDb[db]
      ensures Valid() && byDb[db].canceled
      ensures Planned() == old(Planned()).(pending := old(Planned()).pending - {db})
    {
      ghost var before := Pending(byDb);
      SetFlag(byDb[db]);
      forall d
        ensures IsPending(byDb, before - {db}, d)
      {
      }
      PendingIs(byDb, before - {db});
    }

    method Cancel(db: Name)
      requires Valid()
      modifies tasks
      ensures Valid() && Planned() == After(enabled, old(Planned()), Action.Cancel(db)) && NoneBack()
    {
      if db in byDb {
        CancelCurrent(db);
      }
    }

    method CancelAll()
      requires Valid()
      modifies this`wakeups, this`byDb
      ensures Valid() && Planned() == After(enabled, old(Planned()), Action.CancelAll) && NoneBack()
    {
      wakeups, byDb := [], map[];
    }

    method ScheduleWakeup(timestamp: real, db: Name)
      requires Valid()
      modifies this`wakeups, this`byDb, this`tasks, tasks
      ensures Valid() && fresh(tasks - old(tasks)) && old(tasks) <= tasks && NoneBack()
      ensures Planned() == After(enabled, old(Planned()), Schedule(timestamp, db))
    {
      if !enabled {
        return;
      }
      if timestamp == 0.0 {
        return;
      }
      ghost var plan := Planned();
      if db in byDb {
        var task := byDb[db];
        if !task.canceled && timestamp > task.timestamp {
          return;
        }
        CancelCurrent(db);
      }
      AddTask(timestamp, db, plan.pending);
    }

    // A new task becomes the current one of its database, which has no live task left.
    method AddTask(timestamp: real, db: Name, ghost pending: map<Name, real>)
      requires Valid() && (db in byDb ==> byDb[db].canceled) && Planned().pending == pending - {db}
      modifies this`wakeups, this`byDb, this`tasks
      ensures Valid() && fresh(tasks - old(tasks)) && old(tasks) <= tasks && NoneBack()
      ensures Planned() == Plan(pending[db := timestamp], slots)
    {
      var task := new Task(timestamp, db);
      assert Keys(wakeups) == old(Keys(wakeups));
      PendingAdded(byDb, task, pending);
      PushTask(task);
    }

    method PushTask(task: Task)
      requires Valid() && task !in tasks && (task.db in byDb ==> byDb[task.db].canceled)
      modifies this`wakeups, this`byDb, this`tasks
      ensures Valid() && byDb == old(byDb)[task.db := task] && tasks == old(tasks) + {task}
      ensures forall t :: t in wakeups <==> t in old(wakeups) || t == task
    {
      var more := HeapPush(wakeups, task);
      PushedIsConsistent(tasks, wakeups, byDb, task, more);
      wakeups, byDb, tasks := more, byDb[task.db := task], tasks + {task};
    }

    // The first task leaves the heap, and with it, unless it was cancelled, its database.
    method TakeFirst() returns (task: Task)
      requires Valid() && wakeups != []
      modifies this`wakeups, this`byDb
      ensures forall t :: t in wakeups <==> t in old(wakeups) && t != task
      ensures Valid() && task == old(wakeups[0]) && byDb == old(byDb) - if task.canceled then {} else {task.db}
    {
      var rest;
      task, rest := HeapPop(wakeups);
      PoppedIsConsistent(tasks, wakeups, byDb, rest);
      wakeups := rest;
      if !task.canceled {
        byDb := byDb - {task.db};
      }
    }

    // Nothing planned is before the first entry of the heap.
    lemma FirstIsEarliest()
      requires Valid() && wakeups != []
      ensures forall db :: db in Planned().pending ==> wakeups[0].timestamp <= Planned().pending[db]
      ensures forall db :: db in Planned().pending && wakeups[0].timestamp == Planned().pending[db] ==>
                wakeups[0].db == db || Before(wakeups[0].db, db)
    {
      forall db | db in Planned().pending
        ensures wakeups[0].timestamp <= Planned().pending[db]
        ensures wakeups[0].timestamp == Planned().pending[db] ==> wakeups[0].db == db || Before(wakeups[0].db, db)
      {
        var i :| 0 <= i < |wakeups| && wakeups[i] == byDb[db];
        RootIsLeast(Keys(wakeups), i);
        BeforeIsTotal(wakeups[0].db, db);
      }
    }

    lemma FirstToFire(now: real)
      requires Valid() && wakeups != [] && wakeups[0].timestamp < now && slots != 0 && !wakeups[0].canceled
      ensures var first := wakeups[0]; Earliest(Planned(), Fire(first.timestamp, first.db, now)) && byDb[first.db] == first
    {
      FirstIsEarliest();
    }

    method Do(a: Action)
      requires Valid()
      modifies this, tasks
      ensures Valid() && fresh(tasks - old(tasks)) && old(tasks) <= tasks && NoneBack()
      ensures Planned() == After(enabled, old(Planned()), a)
    {
      match a
      case Schedule(timestamp, db) => ScheduleWakeup(timestamp, db);
      case Cancel(db) => Cancel(db);
      case CancelAll => CancelAll();
      case TakeSlot => slots := slots - 1;
      case ReleaseSlot => slots := slots + 1;
    }

    // What a database does when it is woken up.
    method DoAll(actions: seq<Action>)
      requires Valid()
      modifies this, tasks
      ensures Valid() && fresh(tasks - old(tasks)) && old(tasks) <= tasks && NoneBack()
      ensures Planned() == AfterAll(enabled, old(Planned()), actions)
    {
      var i := 0;
      while i < |actions|
        invariant 0 <= i <= |actions|
        invariant Valid() && fresh(tasks - old(tasks)) && old(tasks) <= tasks && NoneBack()
        invariant Planned() == AfterAll(enabled, old(Planned()), actions[..i])
      {
        assert actions[..i + 1][..i] == actions[..i];
        Do(actions[i]);
        i := i + 1;
      }
      assert actions[..i] == actions;
    }

    // Tasks popped from the heap that were cancelled.
    ghost predicate PoppedDead(dead: seq<Task>)
      reads this, tasks
    {
      (forall j, k :: 0 <= j < k < |dead| ==> dead[j] != dead[k]) &&
      forall k :: 0 <= k < |dead| ==> dead[k] in tasks && dead[k].canceled && dead[k] !in wakeups
    }

    // Where the runner stands: `tasks0` are the tasks made before it started, `wakeups0` those in the heap then.
    ghost predicate RunSoFar(plan: Plan, jobs: Jobs, clock: nat -> real, tasks0: set<Task>, wakeups0: seq<Task>,
                             fires: seq<Fire>, dead: seq<Task>)
      reads this, tasks
    {
      && Valid() && tasks0 <= tasks
      && (forall t :: t in wakeups && t in tasks0 ==> t in wakeups0)
      && FiresInOrder(enabled, plan, jobs, fires) && Planned() == AfterFires(enabled, plan, jobs, fires)
      && PoppedDead(dead) && (forall k :: 0 <= k < |dead| && dead[k] in tasks0 ==> dead[k] in wakeups0)
      && OnTheClock(fires, clock, |fires| + |dead|)
    }

    // The first task is popped, and unless it was cancelled its database is to be woken up.
    method PopTask(now: real, ghost dead: seq<Task>) returns (fire: Option<Fire>, ghost more: seq<Task>)
      requires Valid() && wakeups != [] && wakeups[0].timestamp < now && slots != 0 && PoppedDead(dead)
      modifies this`wakeups, this`byDb
      ensures Valid() && forall t :: t in wakeups <==> t in old(wakeups) && t != old(wakeups[0])
      ensures fire == None <==> old(wakeups[0]).canceled
      ensures more == (if fire == None then dead + [old(wakeups[0])] else dead) && PoppedDead(more)
      ensures fire == None ==> Planned() == old(Planned())
      ensures fire.Some? ==> Earliest(old(Planned()), fire.value) && fire.value.now == now
      ensures fire.Some? ==> Planned() == old(Planned()).(pending := old(Planned()).pending - {fire.value.db})
    {
      if !wakeups[0].canceled {
        FirstToFire(now);
        PendingRemoved(byDb, wakeups[0].db);
      }
      var task := TakeFirst();
      more := if task.canceled then dead + [task] else dead;
      fire := if task.canceled then None else Some(Fire(task.timestamp, task.db, now));
      assert forall k :: 0 <= k < |dead| ==> dead[k] !in old(wakeups);
    }

    // A database is woken up and does something.
    method Wake(actions: seq<Action>, ghost dead: seq<Task>)
      requires Valid() && PoppedDead(dead)
      modifies this, tasks
      ensures Valid() && fresh(tasks - old(tasks)) && old(tasks) <= tasks && NoneBack() && PoppedDead(dead)
      ensures Planned() == AfterAll(enabled, old(Planned()), actions)
    {
      DoAll(actions);
    }

    // One round of the runner.
    method Round(jobs: Jobs, clock: nat -> real, fires: seq<Fire>, ghost dead: seq<Task>,
                 ghost plan: Plan, ghost tasks0: set<Task>, ghost wakeups0: seq<Task>, i: nat)
      returns (fires': seq<Fire>, ghost dead': seq<Task>)
      requires wakeups != [] && wakeups[0].timestamp < clock(i) && slots != 0 && i == |fires| + |dead|
      requires RunSoFar(plan, jobs, clock, tasks0, wakeups0, fires, dead)
      modifies this, tasks
      ensures RunSoFar(plan, jobs, clock, tasks0, wakeups0, fires', dead') && |fires'| + |dead'| == i + 1
      ensures fresh(tasks - old(tasks)) && old(tasks) <= tasks
    {
      fires' := fires;
      ClockOneMore(fires, clock, i, Fire(0.0, "", clock(i)));
      var fire;
      fire, dead' := PopTask(clock(i), dead);
      if fire.Some? {
        Wake(jobs(|fires|), dead');
        FiresOneMore(enabled, plan, jobs, fires, fire.value);
        ClockOneMore(fires, clock, i, fire.value);
        fires' := fires + [fire.value];
      }
    }

    // The runner, for any number of rounds: each wake-up is the earliest planned at that time,
    // whatever the jobs of the earlier ones did. Every round wakes a database up or drops a task
    // that was cancelled (`dead`). When the runner stops before its rounds are over no due wake-up
    // is left, unless all slots are taken.
    method Run(jobs: Jobs, clock: nat -> real, rounds: nat) returns (fires: seq<Fire>, stopped: Option<real>, ghost dead: seq<Task>)
      requires Valid()
      modifies this, tasks
      ensures Valid() && fresh(tasks - old(tasks)) && old(tasks) <= tasks
      ensures FiresInOrder(enabled, old(Planned()), jobs, fires)
      ensures Planned() == AfterFires(enabled, old(Planned()), jobs, fires)
      ensures PoppedDead(dead) && forall k :: 0 <= k < |dead| && dead[k] in old(tasks) ==> dead[k] in old(wakeups)
      ensures stopped == None ==> |fires| + |dead| == rounds
      ensures stopped.Some? ==> |fires| + |dead| < rounds && stopped.value == clock(|fires| + |dead|)
      ensures stopped.Some? ==> slots == 0 || forall db :: db in Planned().pending ==> Planned().pending[db] >= stopped.value
      ensures OnTheClock(fires, clock, |fires| + |dead|)
    {
      fires, dead := [], [];
      var i := 0;
      while i < rounds
        invariant RunSoFar(old(Planned()), jobs, clock, old(tasks), old(wakeups), fires, dead)
        invariant i == |fires| + |dead| <= rounds && fresh(tasks - old(tasks))
      {
        if wakeups == [] || wakeups[0].timestamp >= clock(i) || slots == 0 {
          if wakeups != [] {
            FirstIsEarliest();
          }
          return fires, Some(clock(i)), dead;
        }
        fires, dead := Round(jobs, clock, fires, dead, old(Planned()), old(tasks), old(wakeups), i);
        i := i + 1;
      }
      stopped := None;
    }

    // How long the runner sleeps: until the first entry of the heap is due, but at least the minimum
    // and at most the maximum, and that without an entry or a slot. No planned wake-up is missed.
    method SleepAmount(now: real) returns (amount: real)
      requires Valid()
      ensures wakeups == [] || slots == 0 ==> amount == MAX_SLEEP
      ensures wakeups != [] && slots != 0 ==>
                var first := wakeups[0].timestamp;
                || (amount == MIN_SLEEP && first <= now + MIN_SLEEP)
                || (amount == MAX_SLEEP && first >= now + MAX_SLEEP)
                || (MIN_SLEEP <= amount <= MAX_SLEEP && now + amount == first)
      ensures slots != 0 ==> forall db :: db in Planned().pending ==>
                amount <= MIN_SLEEP || now + amount <= Planned().pending[db]
    {
      amount := MAX_SLEEP;
      if wakeups != [] && slots != 0 {
        FirstIsEarliest();
        var next := wakeups[0].timestamp - now;
        next := if next < MIN_SLEEP then MIN_SLEEP else next;
        amount := if next < MAX_SLEEP then next else MAX_SLEEP;
      }
    }
  }
}
