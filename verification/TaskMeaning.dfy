/** What each call of the scheduler does, slot by slot, and what it comes to over runs. */
module TaskMeaning {
  import opened Options
  import opened TaskRing
  import opened TaskLaws
  import opened TaskRuns

  // ---- Which task is meant ----

  /** The first slot with an id. */
  ghost predicate FirstSlot(tasks: seq<Task>, id: nat, i: nat) {
    i < |tasks| && tasks[i].id == id && forall j {:trigger tasks[j]} :: 0 <= j < i ==> tasks[j].id != id
  }

  /** A task that was protected, or task 0, the shell or the serial task unless it was exposed. */
  predicate Shielded(tasks: seq<Task>, i: nat)
    requires i < |tasks|
  {
    match tasks[i].mode
    case Forced => true
    case Lifted => false
    case ByDefault => i == 0 || tasks[i].name == "shell" || tasks[i].name == "serial"
  }

  lemma FindIdFirst(tasks: seq<Task>, id: nat, i: nat)
    ensures FindId(tasks, id, 0) == Some(i) <==> FirstSlot(tasks, id, i)
  {
    FindIdIs(tasks, id, 0);
  }

  /** Stopping is possible on a task that is ready, unprotected and not current, and it stops that task alone. */
  lemma StopMeans(s: Sched, id: nat, i: nat)
    requires Inv(s) && FirstSlot(s.tasks, id, i)
    ensures CanStop(s, id) <==> s.tasks[i].state == Ready && !Shielded(s.tasks, i)
    ensures After(s, DoStop(id)) ==
            if CanStop(s, id) then s.(tasks := s.tasks[i := s.tasks[i].(state := Stopped)]) else s
  {
    UsableAt(s);
    FindIdFirst(s.tasks, id, i);
    assert SlotOk(s.tasks, s.ring, s.current, i);
  }

  /** Continuing is possible on a stopped task, and makes it ready. */
  lemma ContinueMeans(s: Sched, id: nat, i: nat)
    requires Inv(s) && FirstSlot(s.tasks, id, i)
    ensures CanContinue(s, id) <==> s.tasks[i].state == Stopped
    ensures After(s, DoContinue(id)) ==
            if CanContinue(s, id) then s.(tasks := s.tasks[i := s.tasks[i].(state := Ready)]) else s
  {
    UsableAt(s);
    FindIdFirst(s.tasks, id, i);
  }

  /** Protecting and exposing are possible on every task but task 0, and do that. */
  lemma ProtectMeans(s: Sched, id: nat, i: nat, on: bool)
    requires Inv(s) && FirstSlot(s.tasks, id, i)
    ensures CanProtect(s, id) <==> id != 0 && i != 0
    ensures var r := After(s, DoProtect(id, on));
            if CanProtect(s, id)
            then Shielded(r.tasks, i) == on && r == s.(tasks := s.tasks[i := r.tasks[i]]) &&
              r.tasks[i] == s.tasks[i].(mode := r.tasks[i].mode)
            else r == s
  {
    UsableAt(s);
    FindIdFirst(s.tasks, id, i);
  }

  /** Killing is possible on a task that is unprotected and not current, and frees its slot and no other. */
  lemma KillMeans(s: Sched, id: nat, i: nat)
    requires Inv(s) && FirstSlot(s.tasks, id, i)
    ensures CanKill(s, id) <==> i != s.current && !Shielded(s.tasks, i)
    ensures After(s, DoKill(id)) == if CanKill(s, id) then Without(s, {i}) else s
  {
    UsableAt(s);
    FindIdFirst(s.tasks, id, i);
    if CanKill(s, id) {
      assert i != 0 && {i} - {0} == {i};
      DropIsWithout(s, {i});
    }
  }

  /** A call that names no task changes nothing. */
  lemma NobodyMeant(s: Sched, id: nat, on: bool)
    requires Inv(s) && forall i: nat {:trigger FirstSlot(s.tasks, id, i)} :: !FirstSlot(s.tasks, id, i)
    ensures !CanStop(s, id) && !CanContinue(s, id) && !CanProtect(s, id) && !CanKill(s, id)
    ensures After(s, DoStop(id)) == After(s, DoContinue(id)) == After(s, DoProtect(id, on)) == After(s, DoKill(id)) == s
  {
    UsableAt(s);
    if FindId(s.tasks, id, 0).Some? { FindIdFirst(s.tasks, id, FindId(s.tasks, id, 0).value); }
  }

  /** The slots in `gone` are free and out of the ring, whose other members keep their order. */
  ghost function Without(s: Sched, gone: set<nat>): Sched {
    s.(tasks := seq(|s.tasks|, i requires 0 <= i < |s.tasks| =>
                      if i in gone then Task(0, Zombie, "", ByDefault, FromStart) else s.tasks[i]),
       ring := Left(s.ring, gone))
  }

  ghost function Left(ring: seq<nat>, gone: set<nat>): seq<nat> {
    if |ring| == 0 then []
    else Left(ring[..|ring| - 1], gone) + if ring[|ring| - 1] in gone then [] else [ring[|ring| - 1]]
  }

  lemma {:induction false} KeepingIsLeft(ring: seq<nat>, gone: set<nat>)
    ensures Keeping(ring, gone) == Left(ring, gone)
    decreases |ring|
  {
    if |ring| > 0 {
      var front, last := ring[..|ring| - 1], [ring[|ring| - 1]];
      assert ring == front + last;
      KeepingConcat(front, last, gone);
      KeepingIsLeft(front, gone);
      assert last[1..] == [];
    }
  }

  lemma DropIsWithout(s: Sched, gone: set<nat>)
    ensures Drop(s, gone) == Without(s, gone)
  {
    KeepingIsLeft(s.ring, gone);
    assert Drop(s, gone).tasks == Without(s, gone).tasks;
  }

  /** Killing all frees every slot in use but that of task 0, of the current task and of the protected ones. */
  lemma KillAllMeans(s: Sched)
    requires Inv(s)
    ensures After(s, DoKillAll) ==
            Without(s, set i: nat | i < |s.tasks| && i != 0 && i != s.current && s.tasks[i].id != 0 &&
                                    !Shielded(s.tasks, i))
  {
    UsableAt(s);
    var gone := set i: nat | i < |s.tasks| && i != 0 && i != s.current && s.tasks[i].id != 0 && !Shielded(s.tasks, i);
    assert CondemnedBelow(s, |s.tasks|) == gone;
    DropIsWithout(s, gone);
  }

  /** Reaping frees the slots of the tasks that have ended. */
  lemma ReapMeans(s: Sched)
    requires Inv(s)
    ensures After(s, DoReap) ==
            Without(s, set i: nat | i < |s.tasks| && s.tasks[i].id != 0 && s.tasks[i].state == Zombie)
  {
    UsableAt(s);
    var gone := set i: nat | i < |s.tasks| && s.tasks[i].id != 0 && s.tasks[i].state == Zombie;
    assert ReapableBelow(s, |s.tasks|) == gone;
    DropIsWithout(s, gone);
  }

  // ---- Which task comes next ----

  /** Going round the ring from the task at place p, t is the first ready task, k places on. */
  ghost predicate NextReady(s: Sched, p: nat, k: nat, t: nat) {
    && p < |s.ring| && s.ring[p] == s.current && 1 <= k < |s.ring| && t == s.ring[Around(s.ring, p, k)]
    && t < |s.tasks| && s.tasks[t].state == Ready
    && forall j {:trigger Around(s.ring, p, j)} :: 1 <= j < k ==> !IsReady(s, s.ring[Around(s.ring, p, j)])
  }

  /** Nobody else is ready. */
  ghost predicate AloneReady(s: Sched) { forall x :: x in s.ring && x != s.current ==> !IsReady(s, x) }

  predicate IsReady(s: Sched, x: nat) { x < |s.tasks| && s.tasks[x].state == Ready }

  /** The place j places behind place p, going round. */
  function Around(ring: seq<nat>, p: nat, j: nat): (q: nat)
    requires |ring| > 0
    ensures q < |ring|
  {
    (p + j) % |ring|
  }

  lemma OthersAt(ring: seq<nat>, x: nat, j: nat)
    requires x in ring && j < |Others(ring, x)|
    ensures Others(ring, x)[j] == ring[Around(ring, IndexOf(ring, x), j + 1)] && |Others(ring, x)| == |ring| - 1
  {
    var p, n := IndexOf(ring, x), |ring|;
    if p + 1 + j < n { Small(p + 1 + j, n); } else { Wraps(p + 1 + j, n); }
  }

  lemma Small(a: nat, n: nat)
    requires a < n
    ensures a % n == a
  {
  }

  lemma Wraps(a: nat, n: nat)
    requires n <= a < 2 * n
    ensures a % n == a - n
  {
    assert a == n + (a - n);
  }

  lemma {:induction false} FirstReadyAt(s: Sched, order: seq<nat>) returns (j: nat)
    requires FirstReady(s.tasks, order).Some?
    ensures j < |order| && order[j] == FirstReady(s.tasks, order).value && IsReady(s, order[j])
    ensures forall k {:trigger order[k]} :: 0 <= k < j ==> !IsReady(s, order[k])
    decreases |order|
  {
    j := 0;
    if !IsReady(s, order[0]) {
      var i := FirstReadyAt(s, order[1..]);
      j := i + 1;
      forall k {:trigger order[k]} | 0 <= k < j ensures !IsReady(s, order[k]) {
        if k > 0 { assert order[k] == order[1..][k - 1]; }
      }
    }
  }

  /** The task that comes next, and how far on it is, if anybody else is ready. */
  lemma NextIs(s: Sched) returns (p: nat, k: nat)
    requires Inv(s)
    ensures var r := FirstReady(s.tasks, Others(s.ring, s.current));
            if r.Some? then NextReady(s, p, k, r.value) else AloneReady(s)
  {
    p, k := IndexOf(s.ring, s.current), 0;
    var order := Others(s.ring, s.current);
    if FirstReady(s.tasks, order).Some? {
      var j := FirstReadyAt(s, order);
      OthersAt(s.ring, s.current, j);
      k := j + 1;
      forall i {:trigger Around(s.ring, p, i)} | 1 <= i < k ensures !IsReady(s, s.ring[Around(s.ring, p, i)]) {
        OthersAt(s.ring, s.current, i - 1);
        assert !IsReady(s, order[i - 1]);
      }
    } else {
      OthersAre(s.ring, s.current);
      FirstReadyIs(s.tasks, order);
    }
  }

  /** From s to r the current task has been left like that and the next ready one runs: where it was in the middle of
      the timer's handler it has let go of the timer. If there is none, the current one goes on. */
  ghost predicate GoneOver(s: Sched, r: Sched, left: Task, held: nat) {
    && r.ring == s.ring && r.nextId == s.nextId && r.enabled == s.enabled && r.inUser == s.inUser
    && s.current < |s.tasks|
    && if r.current == s.current
       then AloneReady(s) && r.held == held && r.tasks == s.tasks[s.current := left.(state := Running)]
       else
         && (exists p, k :: NextReady(s, p, k, r.current)) && r.current < |s.tasks|
         && r.tasks == s.tasks[s.current := left][r.current := s.tasks[r.current].(state := Running,
                                                                                   resume := FromStart)]
         && r.held == if s.tasks[r.current].resume == FromTick && held > 0 then held - 1 else held
  }

  lemma SwitchMeans(s: Sched, state: TaskState, resume: Resume, held: nat)
    requires Inv(s)
    ensures var left := s.tasks[s.current].(state := state, resume := resume);
            GoneOver(s, Switch(SetTask(s, s.current, state, resume).(held := held)), left, held)
  {
    UsableAt(s);
    SameFirst(s, state, resume);
    var p, k := NextIs(s);
  }

  /** Giving up the processor. */
  lemma YieldMeans(s: Sched)
    requires Inv(s)
    ensures s.current < |s.tasks|
    ensures GoneOver(s, After(s, DoYield), s.tasks[s.current].(state := Ready, resume := FromYield), s.held)
  {
    UsableAt(s);
    SwitchMeans(s, Ready, FromYield, s.held);
    assert SetTask(s, s.current, Ready, FromYield).(held := s.held) == SetTask(s, s.current, Ready, FromYield);
  }

  /** The timer goes over to the next task if preemption is on, no tick is under way, no user program runs and somebody
      else is ready; otherwise nothing happens. */
  lemma TickMeans(s: Sched)
    requires Inv(s)
    ensures s.current < |s.tasks|
    ensures var r := After(s, DoTick);
            if s.enabled && s.held == 0 && !s.inUser && !AloneReady(s)
            then GoneOver(s, r, s.tasks[s.current].(state := Ready, resume := FromTick), 1) && r.current != s.current
            else r == s
  {
    UsableAt(s);
    var p, k := NextIs(s);
    SwitchMeans(s, Ready, FromTick, 1);
    if CanPreempt(s) {
      NextOther(s, p, k, FirstReady(s.tasks, Others(s.ring, s.current)).value);
    }
  }

  lemma NextOther(s: Sched, p: nat, k: nat, t: nat)
    requires Inv(s) && NextReady(s, p, k, t)
    ensures t != s.current && !AloneReady(s)
  {
    UsableAt(s);
    assert t in s.ring && IsReady(s, t);
  }

  /** A user program ends; or a task does and the next one runs, but task 0 goes on. */
  lemma ExitMeans(s: Sched)
    requires Inv(s)
    ensures s.current < |s.tasks|
    ensures s.inUser ==> After(s, DoExit) == s.(inUser := false)
    ensures !s.inUser && s.current == 0 ==> After(s, DoExit) == s
    ensures !s.inUser && s.current != 0 ==>
              GoneOver(s, After(s, DoExit), s.tasks[s.current].(state := Zombie, resume := FromStart), s.held) &&
              After(s, DoExit).current != s.current
  {
    UsableAt(s);
    if !s.inUser && s.current != 0 {
      SwitchMeans(s, Zombie, FromStart, s.held);
      assert SetTask(s, s.current, Zombie, FromStart).(held := s.held) == SetTask(s, s.current, Zombie, FromStart);
      SameFirst(s, Zombie, FromStart);
    }
  }

  // ---- Creating ----

  /** The slot that a new task gets: the first free one but that of task 0, or else the first of a task that has
      ended. */
  ghost predicate GetsSlot(s: Sched, i: nat) {
    && 0 < i < |s.tasks|
    && if s.tasks[i].id == 0 then forall j {:trigger s.tasks[j]} :: 0 < j < i ==> s.tasks[j].id != 0
       else
         && s.tasks[i].state == Zombie && (forall j {:trigger s.tasks[j]} :: 0 < j < |s.tasks| ==> s.tasks[j].id != 0)
         && forall j {:trigger s.tasks[j]} :: 0 < j < i ==> s.tasks[j].state != Zombie
  }

  lemma {:induction false} FindZombieIs(tasks: seq<Task>, i: nat)
    requires i <= |tasks|
    ensures FindZombie(tasks, i).None? ==> forall j {:trigger tasks[j]} :: i <= j < |tasks| ==>
              tasks[j].state != Zombie || tasks[j].id == 0
    ensures FindZombie(tasks, i).Some? ==> forall j {:trigger tasks[j]} :: i <= j < FindZombie(tasks, i).value ==>
              tasks[j].state != Zombie || tasks[j].id == 0
    decreases |tasks| - i
  {
    if i < |tasks| && !(tasks[i].state == Zombie && tasks[i].id != 0) { FindZombieIs(tasks, i + 1); }
  }

  lemma SlotIs(s: Sched, i: nat)
    requires |s.tasks| == TASK_MAX
    ensures SlotFor(s) == Some(i) <==> GetsSlot(s, i)
  {
    FindIdIs(s.tasks, 0, 1);
    FindZombieIs(s.tasks, 1);
  }

  /** A new task, with memory for its stack: ready, with the next id and at most 23 characters of its name, right behind
      task 0 in the ring. The ids go round after 2^32. */
  lemma CreateMeans(s: Sched, name: string, i: nat)
    requires Inv(s) && GetsSlot(s, i)
    ensures |s.ring| > 0 && s.ring[0] == 0
    ensures var r := After(s, DoCreate(name, true));
            && r.tasks == s.tasks[i := Task(s.nextId, Ready, if |name| <= 23 then name else name[..23], ByDefault,
                                            FromStart)]
            && r.nextId == (s.nextId + 1) % 0x1_0000_0000
            && r.ring == [0, i] + Left(s.ring[1..], {i})
            && r.current == s.current && r.enabled == s.enabled && r.held == s.held && r.inUser == s.inUser
  {
    var c := InsertedAt(s, name, i);
    KeepingIsLeft(s.ring[1..], {i});
    KeptRing(s.ring, i);
    SameInsert(s.tasks, c.tasks, i, Task(s.nextId, Ready, ShortName(name), ByDefault, FromStart));
  }

  /** The new task goes into a ring from which that slot has been taken out, if it was in it. */
  lemma InsertedAt(s: Sched, name: string, i: nat) returns (c: Sched)
    requires Inv(s) && GetsSlot(s, i)
    ensures |s.tasks| == TASK_MAX && |s.ring| > 0 && s.ring[0] == 0 && i < TASK_MAX
    ensures |c.tasks| == TASK_MAX && c == s.(tasks := c.tasks, ring := Keeping(s.ring, {i})) && |c.ring| > 0
    ensures forall j :: 0 <= j < TASK_MAX && j != i ==> c.tasks[j] == s.tasks[j]
    ensures After(s, DoCreate(name, true)) == Insert(c, i, name)
  {
    UsableAt(s);
    SlotIs(s, i);
    SlotIsFree(s, i);
    KeptRing(s.ring, i);
    c := Cleared(s);
  }

  lemma KeptRing(ring: seq<nat>, i: nat)
    requires |ring| > 0 && ring[0] == 0 && i != 0
    ensures Keeping(ring, {i}) == [0] + Keeping(ring[1..], {i})
  {
  }

  lemma SameInsert(tasks: seq<Task>, cleared: seq<Task>, i: nat, t: Task)
    requires |cleared| == |tasks| && i < |tasks| && forall j :: 0 <= j < |tasks| && j != i ==> cleared[j] == tasks[j]
    ensures cleared[i := t] == tasks[i := t]
  {
  }

  lemma SlotIsFree(s: Sched, i: nat)
    requires Inv(s) && GetsSlot(s, i) && SlotFor(s) == Some(i)
    ensures Cleared(s) == Drop(s, {i}) || (s.tasks[i].id == 0 && Cleared(s) == s && Keeping(s.ring, {i}) == s.ring)
    ensures i != s.current && Cleared(s).ring == Keeping(s.ring, {i})
  {
    UsableAt(s);
    FindIdIs(s.tasks, 0, 1);
    assert SlotOk(s.tasks, s.ring, s.current, i);
    if s.tasks[i].id == 0 { KeepingAll(s.ring, {i}); }
  }

  /** Without memory for a stack, or a slot, no task is created; a task that has ended may have given up its slot. */
  lemma NotCreated(s: Sched, name: string, i: nat)
    requires Inv(s)
    ensures GetsSlot(s, i) ==>
              After(s, DoCreate(name, false)) == if s.tasks[i].id == 0 then s else Without(s, {i})
    ensures (forall j: nat {:trigger GetsSlot(s, j)} :: !GetsSlot(s, j)) ==>
              forall stack :: After(s, DoCreate(name, stack)) == s
  {
    UsableAt(s);
    SlotIs(s, i);
    DropIsWithout(s, {i});
    if GetsSlot(s, i) { SlotIsFree(s, i); }
    if SlotFor(s).Some? { SlotIs(s, SlotFor(s).value); }
  }

  // ---- Stopped tasks ----

  /** The call does not continue a task with this id, nor create one. */
  predicate LeavesStopped(call: Call, id: nat) { !call.DoCreate? && call != DoContinue(id) }

  /** A stopped task with this id, or a slot that is free since. */
  ghost predicate StoppedOrGone(s: Sched, i: nat, id: nat) {
    i < |s.tasks| && ((s.tasks[i].state == Stopped && s.tasks[i].id == id) || (i != 0 && s.tasks[i].id == 0))
  }

  lemma StaysStopped(s: Sched, call: Call, i: nat, id: nat)
    requires Inv(s) && StoppedOrGone(s, i, id) && LeavesStopped(call, id)
    ensures StoppedOrGone(After(s, call), i, id)
  {
    UsableAt(s);
    assert SlotOk(s.tasks, s.ring, s.current, i);
    NotNext(s, i);
    match call
    case DoYield => YieldMeans(s);
    case DoTick => TickMeans(s);
    case DoExit => ExitMeans(s);
    case _ =>
  }

  /** Such a slot is neither current nor next. */
  lemma NotNext(s: Sched, i: nat)
    requires Inv(s) && i < |s.tasks| && (s.tasks[i].state == Stopped || s.tasks[i].id == 0)
    ensures i != s.current && forall p, k :: !NextReady(s, p, k, i)
  {
    UsableAt(s);
    assert SlotOk(s.tasks, s.ring, s.current, i);
  }

  /** A stopped task does not run until it is continued, in any run in which no task is created. */
  lemma {:induction false} StoppedRests(s: Sched, calls: seq<Call>, i: nat, id: nat)
    requires Inv(s) && i < |s.tasks| && s.tasks[i].state == Stopped && s.tasks[i].id == id
    requires forall k :: 0 <= k < |calls| ==> LeavesStopped(calls[k], id)
    ensures Inv(Run(s, calls)) && StoppedOrGone(Run(s, calls), i, id) && Run(s, calls).current != i
    decreases |calls|
  {
    if |calls| > 0 {
      var before, call := calls[..|calls| - 1], calls[|calls| - 1];
      StoppedRests(s, before, i, id);
      CallKeeps(Run(s, before), call);
      StaysStopped(Run(s, before), call, i, id);
    }
    NotNext(Run(s, calls), i);
  }

  /** A task that has been continued waits for its turn, and has it in time, as every ready task does. */
  lemma ContinuedRuns(s: Sched, id: nat, i: nat, calls: seq<Call>)
    requires Inv(s) && FirstSlot(s.tasks, id, i) && s.tasks[i].state == Stopped
    requires forall k :: 0 <= k < |calls| ==> Quiet(calls[k])
    ensures var r := After(s, DoContinue(id));
            && Inv(r) && Waits(r, i)
            && (Turns(r, calls) > Ahead(r, i) ==> exists n :: 0 <= n <= |calls| && Run(r, calls[..n]).current == i)
  {
    UsableAt(s);
    assert SlotOk(s.tasks, s.ring, s.current, i);
    ContinueMeans(s, id, i);
    CallKeeps(s, DoContinue(id));
    var r := After(s, DoContinue(id));
    OthersAre(r.ring, r.current);
    RunsInTurn(r, calls, i);
  }
}
