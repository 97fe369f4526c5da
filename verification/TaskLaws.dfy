/** What every call keeps, over whole runs: the ring, one running task, task 0 always runnable, and round-robin
    order. */
module TaskLaws {
  import opened Options
  import opened TaskRing

  // ---- Rings ----

  lemma DistinctTail(ring: seq<nat>)
    requires Distinct(ring) && |ring| > 0
    ensures Distinct(ring[1..]) && ring[0] !in ring[1..]
  {
    var rest := ring[1..];
    forall j, k {:trigger Pair(j, k)} | 0 <= j < k < |rest| ensures rest[j] != rest[k] { assert Pair(j + 1, k + 1); }
    forall k | 0 <= k < |rest| ensures rest[k] != ring[0] { assert Pair(0, k + 1); }
  }

  lemma DistinctCons(x: nat, rest: seq<nat>)
    requires Distinct(rest) && x !in rest
    ensures Distinct([x] + rest)
  {
    var ring := [x] + rest;
    forall j, k {:trigger Pair(j, k)} | 0 <= j < k < |ring| ensures ring[j] != ring[k] {
      assert Pair(j - 1, k - 1) && ring[k] == rest[k - 1];
    }
  }

  lemma {:induction false} KeepingIs(ring: seq<nat>, gone: set<nat>)
    ensures forall y :: y in Keeping(ring, gone) <==> y in ring && y !in gone
  {
    if |ring| > 0 {
      KeepingIs(ring[1..], gone);
      assert ring == [ring[0]] + ring[1..];
    }
  }

  lemma {:induction false} KeepingDistinct(ring: seq<nat>, gone: set<nat>)
    requires Distinct(ring)
    ensures Distinct(Keeping(ring, gone))
  {
    if |ring| > 0 {
      DistinctTail(ring);
      KeepingDistinct(ring[1..], gone);
      KeepingIs(ring[1..], gone);
      var rest := Keeping(ring[1..], gone);
      if ring[0] in gone { assert [] + rest == rest; } else { DistinctCons(ring[0], rest); }
    }
  }

  lemma KeepingOk(ring: seq<nat>, gone: set<nat>)
    requires RingOk(ring) && 0 !in gone
    ensures RingOk(Keeping(ring, gone))
  {
    KeepingDistinct(ring, gone);
    KeepingIs(ring, gone);
    var r := Keeping(ring, gone);
    assert r[0] == 0;
    forall k | 0 <= k < |r| ensures r[k] < TASK_MAX { assert r[k] in ring; }
  }

  lemma {:induction false} KeepingAll(ring: seq<nat>, gone: set<nat>)
    requires forall y :: y in ring ==> y !in gone
    ensures Keeping(ring, gone) == ring
  {
    if |ring| > 0 {
      assert ring[0] in ring;
      KeepingAll(ring[1..], gone);
    }
  }

  /** Taking one slot out of a ring. */
  lemma {:induction false} KeepingBut(ring: seq<nat>, x: nat)
    requires Distinct(ring)
    ensures Keeping(ring, {x}) == if x in ring then ring[..IndexOf(ring, x)] + ring[IndexOf(ring, x) + 1..] else ring
  {
    if |ring| > 0 {
      var tail := ring[1..];
      DistinctTail(ring);
      KeepingBut(tail, x);
      assert ring == [ring[0]] + tail;
      if ring[0] == x {
        assert [] + Keeping(tail, {x}) == Keeping(tail, {x}) && [] + tail == tail;
      } else if x in tail {
        var k := IndexOf(tail, x);
        assert ring[..k + 1] == [ring[0]] + tail[..k] && ring[k + 2..] == tail[k + 1..];
      }
    }
  }

  lemma {:induction false} KeepingTwice(ring: seq<nat>, gone: set<nat>, more: set<nat>)
    ensures Keeping(Keeping(ring, gone), more) == Keeping(ring, gone + more)
  {
    if |ring| > 0 {
      KeepingTwice(ring[1..], gone, more);
      var rest := Keeping(ring[1..], gone);
      if ring[0] in gone {
        assert [] + rest == rest;
      } else {
        assert ([ring[0]] + rest)[1..] == rest;
      }
    }
  }

  lemma {:induction false} KeepingConcat(a: seq<nat>, b: seq<nat>, gone: set<nat>)
    ensures Keeping(a + b, gone) == Keeping(a, gone) + Keeping(b, gone)
  {
    if |a| == 0 {
      assert a + b == b;
    } else {
      KeepingConcat(a[1..], b, gone);
      SplitFirst(a, b);
      Regroup(if a[0] in gone then [] else [a[0]], Keeping(a[1..], gone), Keeping(b, gone));
    }
  }

  lemma SplitFirst(a: seq<nat>, b: seq<nat>)
    requires |a| > 0
    ensures (a + b)[0] == a[0] && (a + b)[1..] == a[1..] + b
  {
  }

  lemma Regroup(a: seq<nat>, b: seq<nat>, c: seq<nat>)
    ensures a + (b + c) == (a + b) + c
  {
  }

  /** Dropping step by step comes to dropping at once. */
  lemma DropTwice(s: Sched, gone: set<nat>, more: set<nat>)
    ensures Drop(Drop(s, gone), more) == Drop(s, gone + more)
  {
    KeepingTwice(s.ring, gone, more);
  }

  lemma OthersAre(ring: seq<nat>, x: nat)
    requires Distinct(ring) && x in ring
    ensures forall y :: y in Others(ring, x) <==> y in ring && y != x
    ensures |Others(ring, x)| == |ring| - 1
  {
    var n := IndexOf(ring, x);
    assert ring == ring[..n] + [ring[n]] + ring[n + 1..];
    forall y {:trigger y in ring[n + 1..]} | y in ring[n + 1..] ensures y != x {
      var k :| n + 1 <= k < |ring| && ring[k] == y;
      assert Pair(n, k);
    }
  }

  lemma {:induction false} FirstReadyIs(tasks: seq<Task>, order: seq<nat>)
    ensures var r := FirstReady(tasks, order);
            if r.Some? then r.value in order && r.value < |tasks| && tasks[r.value].state == Ready
            else forall x :: x in order && x < |tasks| ==> tasks[x].state != Ready
  {
    if |order| > 0 { FirstReadyIs(tasks, order[1..]); }
  }

  // ---- Every call keeps the invariant ----

  /** Going over from the current task to the next. */
  lemma SwitchKeeps(s: Sched, state: TaskState, resume: Resume, held: nat)
    requires Inv(s) && ((state == Ready && resume != FromStart) || (state == Zombie && s.current != 0))
    requires if state == Ready && resume == FromTick then s.held == 0 && held == 1 else held == s.held
    requires state == Ready && resume == FromTick ==> FirstReady(s.tasks, Others(s.ring, s.current)).Some?
    ensures Inv(Switch(SetTask(s, s.current, state, resume).(held := held)))
  {
    var s1 := SetTask(s, s.current, state, resume).(held := held);
    var order := Others(s.ring, s.current);
    UsableAt(s);
    SameFirst(s, state, resume);
    assert SlotOk(s.tasks, s.ring, s.current, 0);
    StillOne(s, Switch(s1));
    if FirstReady(s.tasks, order).Some? {
      SwitchWaits(s.tasks, s.current, FirstReady(s.tasks, order).value,
                  s.tasks[s.current].(state := state, resume := resume));
    } else {
      OnlyLess(s.tasks, Switch(s1).tasks);
    }
  }

  /** Which task comes next, and that there is one unless the current one can go on. */
  lemma SameFirst(s: Sched, state: TaskState, resume: Resume)
    requires Inv(s)
    ensures var order, now := Others(s.ring, s.current), SetTask(s, s.current, state, resume).tasks;
            FirstReady(now, order) == FirstReady(s.tasks, order)
    ensures var r := FirstReady(s.tasks, Others(s.ring, s.current));
            r.Some? ==>
              r.value < TASK_MAX && r.value in s.ring && r.value != s.current && s.tasks[r.value].state == Ready
    ensures s.current != 0 ==> FirstReady(s.tasks, Others(s.ring, s.current)).Some?
  {
    OthersAre(s.ring, s.current);
    var order, now := Others(s.ring, s.current), SetTask(s, s.current, state, resume).tasks;
    FirstReadyIs(s.tasks, order);
    FirstSame(s.tasks, now, order);
    if s.current != 0 {
      assert s.ring[0] == 0 && SlotOk(s.tasks, s.ring, s.current, 0);
      assert 0 in order;
    }
  }

  lemma {:induction false} FirstSame(tasks: seq<Task>, now: seq<Task>, order: seq<nat>)
    requires |tasks| == |now| && forall x :: x in order && x < |tasks| ==> now[x].state == tasks[x].state
    ensures FirstReady(now, order) == FirstReady(tasks, order)
  {
    if |order| > 0 {
      assert order[0] in order;
      FirstSame(tasks, now, order[1..]);
    }
  }

  /** Who waits after slot c has been left and slot t has come to run. */
  lemma SwitchWaits(tasks: seq<Task>, c: nat, t: nat, left: Task)
    requires c < |tasks| && t < |tasks| && t != c && AtMostOneWaits(tasks) && tasks[t].state == Ready
    requires !Waiting(left) || NoneWaits(tasks)
    ensures var now := tasks[c := left][t := tasks[t].(state := Running, resume := FromStart)];
            AtMostOneWaits(now) && (tasks[t].resume == FromTick ==> NoneWaits(now)) &&
              (!Waiting(left) && NoneWaits(tasks) ==> NoneWaits(now))
  {
    var now := tasks[c := left][t := tasks[t].(state := Running, resume := FromStart)];
    forall i, j {:trigger Pair(i, j)} | 0 <= i < j < |tasks| ensures !(Waiting(now[i]) && Waiting(now[j])) {
      assert Pair(i, j);
      assert now[i] == tasks[i] || i == c || i == t;
      assert now[j] == tasks[j] || j == c || j == t;
    }
    if tasks[t].resume == FromTick {
      forall i | 0 <= i < |tasks| ensures !Waiting(now[i]) {
        assert Pair(if i < t then i else t, if i < t then t else i);
      }
    }
  }

  lemma OnlyLess(tasks: seq<Task>, now: seq<Task>)
    requires |now| == |tasks| && AtMostOneWaits(tasks)
    requires forall i {:trigger now[i]} :: 0 <= i < |now| && Waiting(now[i]) ==> Waiting(tasks[i])
    ensures AtMostOneWaits(now) && (NoneWaits(tasks) ==> NoneWaits(now))
  {
    forall i, j {:trigger Pair(i, j)} | 0 <= i < j < |now| ensures !(Waiting(now[i]) && Waiting(now[j])) {
      assert Pair(i, j);
    }
  }

  /** The ring and the slots after a switch. */
  lemma StillOne(s: Sched, s2: Sched)
    requires Inv(s) && |s2.tasks| == TASK_MAX && s2.ring == s.ring && s2.current in s.ring
    requires forall i {:trigger s2.tasks[i]} :: 0 <= i < TASK_MAX ==>
             s2.tasks[i].id == s.tasks[i].id && (i !in s.ring ==> s2.tasks[i] == s.tasks[i])
    requires forall i {:trigger s2.tasks[i]} :: 0 <= i < TASK_MAX ==>
               (s2.tasks[i].state == Running <==> i == s2.current)
    ensures forall i {:trigger SlotOk(s2.tasks, s2.ring, s2.current, i)} :: 0 <= i < TASK_MAX ==>
            SlotOk(s2.tasks, s2.ring, s2.current, i)
  {
    forall i {:trigger SlotOk(s2.tasks, s2.ring, s2.current, i)} | 0 <= i < TASK_MAX
      ensures SlotOk(s2.tasks, s2.ring, s2.current, i)
    {
      assert SlotOk(s.tasks, s.ring, s.current, i);
      assert s2.tasks[i].id == s.tasks[i].id;
    }
  }

  lemma UsableAt(s: Sched)
    requires Inv(s)
    ensures Usable(s) && s.tasks[s.current].state == Running && s.tasks[s.current].id != 0
    ensures forall i {:trigger s.tasks[i]} :: 0 <= i < TASK_MAX && i != s.current ==> s.tasks[i].state != Running
  {
    var k :| 0 <= k < |s.ring| && s.ring[k] == s.current;
    assert SlotOk(s.tasks, s.ring, s.current, s.current);
    forall i | 0 <= i < TASK_MAX && i != s.current ensures s.tasks[i].state != Running {
      assert SlotOk(s.tasks, s.ring, s.current, i);
    }
  }

  /** Tasks other than task 0 and the current one taken away. */
  lemma DropKeeps(s: Sched, gone: set<nat>)
    requires Inv(s) && 0 !in gone && s.current !in gone
    ensures Inv(Drop(s, gone)) && (Lost(s) ==> Lost(Drop(s, gone)))
  {
    var d := Drop(s, gone);
    KeepingOk(s.ring, gone);
    KeepingIs(s.ring, gone);
    OnlyLess(s.tasks, d.tasks);
    assert d.tasks[0] == s.tasks[0];
    forall j {:trigger SlotOk(d.tasks, d.ring, d.current, j)} | 0 <= j < TASK_MAX
      ensures SlotOk(d.tasks, d.ring, d.current, j)
    {
      assert SlotOk(s.tasks, s.ring, s.current, j);
    }
  }

  /** Zombies do not wait for the timer. */
  lemma DropZombies(s: Sched, gone: set<nat>)
    requires Lost(Drop(s, gone)) && forall i :: 0 <= i < |s.tasks| && i in gone ==> s.tasks[i].state == Zombie
    ensures Lost(s)
  {
    var d := Drop(s, gone);
    forall j | 0 <= j < |s.tasks| ensures !Waiting(s.tasks[j]) {
      assert d.tasks[j] == if j in gone then FREE else s.tasks[j];
    }
  }

  /** A task that is changed without being started or stopped from running, or from waiting for the timer. */
  lemma ChangeKeeps(s: Sched, i: nat, task: Task)
    requires Inv(s) && i < TASK_MAX && task.id == s.tasks[i].id != 0
    requires (Waiting(task) <==> Waiting(s.tasks[i])) && (task.state == Running <==> s.tasks[i].state == Running)
    requires i == 0 ==> (task.state == Ready || task.state == Running) && task.mode == ByDefault
    ensures Inv(s.(tasks := s.tasks[i := task])) && (Lost(s) <==> Lost(s.(tasks := s.tasks[i := task])))
  {
    var d := s.(tasks := s.tasks[i := task]);
    OnlyLess(s.tasks, d.tasks);
    OnlyLess(d.tasks, s.tasks);
    forall j {:trigger SlotOk(d.tasks, d.ring, d.current, j)} | 0 <= j < TASK_MAX
      ensures SlotOk(d.tasks, d.ring, d.current, j)
    {
      assert SlotOk(s.tasks, s.ring, s.current, j);
    }
  }

  /** A new task: its slot is free and not in the ring. It needs an id other than zero. */
  lemma InsertKeeps(s: Sched, i: nat, name: string)
    requires Inv(s) && 0 < i < TASK_MAX && s.tasks[i].id == 0
    ensures Inv(Insert(s, i, name)) <==> s.nextId != 0
    ensures Lost(s) <==> Lost(Insert(s, i, name))
  {
    var d := Insert(s, i, name);
    assert SlotOk(s.tasks, s.ring, s.current, i);
    assert d.tasks[i] == Task(s.nextId, Ready, ShortName(name), ByDefault, FromStart);
    OnlyLess(s.tasks, d.tasks);
    OnlyLess(d.tasks, s.tasks);
    if s.nextId == 0 {
      assert i in d.ring by { assert d.ring[1] == i; }
      assert !SlotOk(d.tasks, d.ring, d.current, i);
    } else {
      assert s.ring == [s.ring[0]] + s.ring[1..];
      DistinctTail(s.ring);
      DistinctCons(i, s.ring[1..]);
      DistinctCons(0, [i] + s.ring[1..]);
      assert d.ring == [0] + ([i] + s.ring[1..]);
      forall j {:trigger SlotOk(d.tasks, d.ring, d.current, j)} | 0 <= j < TASK_MAX
        ensures SlotOk(d.tasks, d.ring, d.current, j)
      {
        assert SlotOk(s.tasks, s.ring, s.current, j);
        assert j in d.ring <==> j in s.ring || j == i;
      }
    }
  }

  /** Creating a task, whether there is a slot and memory for it or not. */
  lemma CreateKeeps(s: Sched, name: string, stack: bool)
    requires Inv(s)
    ensures Inv(Create(s, name, stack)) <==> !(stack && s.nextId == 0 && SlotFor(s).Some?)
    ensures Lost(s) <==> Lost(Create(s, name, stack))
  {
    if SlotFor(s).Some? {
      var i, c := SlotFor(s).value, Cleared(s);
      UsableAt(s);
      if FindId(s.tasks, 0, 1).None? {
        DropKeeps(s, {i});
        if Lost(c) { DropZombies(s, {i}); }
      }
      if stack { InsertKeeps(c, i, name); }
    }
  }

  lemma {:induction false} FindIdIs(tasks: seq<Task>, id: nat, i: nat)
    requires i <= |tasks|
    ensures FindId(tasks, id, i).None? ==> forall j {:trigger tasks[j]} :: i <= j < |tasks| ==> tasks[j].id != id
    ensures FindId(tasks, id, i).Some? ==> forall j {:trigger tasks[j]} :: i <= j < FindId(tasks, id, i).value ==>
            tasks[j].id != id
    decreases |tasks| - i
  {
    if i < |tasks| && tasks[i].id != id { FindIdIs(tasks, id, i + 1); }
  }

  // ---- Runs ----

  /** A new task gets id zero: the counter has gone round. */
  ghost predicate HandsOutZero(s: Sched, call: Call) {
    call.DoCreate? && call.stack && s.nextId == 0 && |s.tasks| == TASK_MAX && SlotFor(s).Some?
  }

  /** A call keeps the invariant exactly when it hands out no id zero. */
  lemma CallKeeps(s: Sched, call: Call)
    requires Inv(s)
    ensures Inv(After(s, call)) <==> !HandsOutZero(s, call)
  {
    UsableAt(s);
    match call
    case DoCreate(name, stack) => CreateKeeps(s, name, stack);
    case DoYield => SwitchKeeps(s, Ready, FromYield, s.held);
    case DoTick => if CanPreempt(s) { SwitchKeeps(s, Ready, FromTick, 1); }
    case DoExit =>
      if !s.inUser && s.current != 0 { SwitchKeeps(s, Zombie, FromStart, s.held); }
    case DoEnterUser =>
    case DoPreemption(on) =>
    case DoKill(id) => if CanKill(s, id) { DropKeeps(s, {FindId(s.tasks, id, 0).value} - {0}); }
    case DoKillAll => DropKeeps(s, CondemnedBelow(s, TASK_MAX));
    case DoReap => DropKeeps(s, ReapableBelow(s, TASK_MAX));
    case DoStop(id) =>
      if CanStop(s, id) {
        var i := FindId(s.tasks, id, 0).value;
        assert SlotOk(s.tasks, s.ring, s.current, i);
        ChangeKeeps(s, i, s.tasks[i].(state := Stopped));
      }
    case DoContinue(id) =>
      if CanContinue(s, id) {
        var i := FindId(s.tasks, id, 0).value;
        assert SlotOk(s.tasks, s.ring, s.current, i);
        ChangeKeeps(s, i, s.tasks[i].(state := Ready));
      }
    case DoProtect(id, on) =>
      if CanProtect(s, id) {
        var i := FindId(s.tasks, id, 0).value;
        ChangeKeeps(s, i, s.tasks[i].(mode := if on then Forced else Lifted));
      }
  }

  // ---- Losing the timer ----

  /** Whether the timer is lost does not change in a switch. */
  lemma SwitchLost(s: Sched, state: TaskState, resume: Resume, held: nat)
    requires Inv(s) && ((state == Ready && resume != FromStart) || (state == Zombie && s.current != 0))
    requires if state == Ready && resume == FromTick then s.held == 0 && held == 1 else held == s.held
    requires state == Ready && resume == FromTick ==> FirstReady(s.tasks, Others(s.ring, s.current)).Some?
    ensures Lost(Switch(SetTask(s, s.current, state, resume).(held := held))) <==> Lost(s)
  {
    var c, left := s.current, s.tasks[s.current].(state := state, resume := resume);
    var s2 := Switch(SetTask(s, c, state, resume).(held := held));
    UsableAt(s);
    SameFirst(s, state, resume);
    if FirstReady(s.tasks, Others(s.ring, c)).Some? {
      var t := FirstReady(s.tasks, Others(s.ring, c)).value;
      SwitchWaits(s.tasks, c, t, left);
      if Waiting(left) { assert Waiting(s2.tasks[c]); }
      if i :| 0 <= i < TASK_MAX && Waiting(s.tasks[i]) && i != t { assert Waiting(s2.tasks[i]); }
    } else {
      OnlyLess(s.tasks, s2.tasks);
      if i :| 0 <= i < TASK_MAX && Waiting(s.tasks[i]) { assert Waiting(s2.tasks[i]); }
    }
  }

  /** The call kills a task that waits to come back from the timer. */
  ghost predicate KillsWaiting(s: Sched, call: Call) {
    match call
    case DoKill(id) => CanKill(s, id) && Waiting(s.tasks[FindId(s.tasks, id, 0).value])
    case DoKillAll => exists i {:trigger s.tasks[i]} :: 0 <= i < |s.tasks| && Condemned(s, i) && Waiting(s.tasks[i])
    case _ => false
  }

  /** The timer is lost exactly by killing the task that it has switched away from; nothing brings it back. */
  lemma LostByKill(s: Sched, call: Call)
    requires Inv(s)
    ensures Lost(After(s, call)) <==> Lost(s) || KillsWaiting(s, call)
  {
    UsableAt(s);
    match call
    case DoCreate(name, stack) => CreateKeeps(s, name, stack);
    case DoYield => SwitchLost(s, Ready, FromYield, s.held);
    case DoTick => if CanPreempt(s) { SwitchLost(s, Ready, FromTick, 1); }
    case DoExit => if !s.inUser && s.current != 0 { SwitchLost(s, Zombie, FromStart, s.held); }
    case DoEnterUser =>
    case DoPreemption(on) =>
    case DoKill(id) =>
      if CanKill(s, id) {
        assert FindId(s.tasks, id, 0).value != 0;
        DropLost(s, {FindId(s.tasks, id, 0).value} - {0});
      }
    case DoKillAll => DropLost(s, CondemnedBelow(s, TASK_MAX));
    case DoReap =>
      DropKeeps(s, ReapableBelow(s, TASK_MAX));
      if Lost(Reap(s)) { DropZombies(s, ReapableBelow(s, TASK_MAX)); }
    case DoStop(id) =>
      if CanStop(s, id) {
        var i := FindId(s.tasks, id, 0).value;
        assert SlotOk(s.tasks, s.ring, s.current, i);
        ChangeKeeps(s, i, s.tasks[i].(state := Stopped));
      }
    case DoContinue(id) =>
      if CanContinue(s, id) {
        var i := FindId(s.tasks, id, 0).value;
        assert SlotOk(s.tasks, s.ring, s.current, i);
        ChangeKeeps(s, i, s.tasks[i].(state := Ready));
      }
    case DoProtect(id, on) =>
      if CanProtect(s, id) {
        var i := FindId(s.tasks, id, 0).value;
        ChangeKeeps(s, i, s.tasks[i].(mode := if on then Forced else Lifted));
      }
  }

  /** Taking tasks out loses the timer exactly when the one that waits for it is among them. */
  lemma DropLost(s: Sched, gone: set<nat>)
    requires Inv(s) && 0 !in gone && s.current !in gone
    ensures Lost(Drop(s, gone)) <==> Lost(s) || exists i :: i in gone && i < |s.tasks| && Waiting(s.tasks[i])
  {
    var d := Drop(s, gone);
    DropKeeps(s, gone);
    if i :| i in gone && i < |s.tasks| && Waiting(s.tasks[i]) {
      forall j | 0 <= j < TASK_MAX ensures !Waiting(d.tasks[j]) {
        assert Pair(if i < j then i else j, if i < j then j else i);
      }
    } else if Lost(d) {
      forall j | 0 <= j < TASK_MAX ensures !Waiting(s.tasks[j]) {
        assert d.tasks[j] == if j in gone then FREE else s.tasks[j];
      }
    }
  }
}
