/** The scheduler itself: tasks in an array, linked in a circle, changed in place by every call. */
module TaskScheduler {
  import opened Options
  import opened TaskRing
  import opened TaskLaws
  import opened TaskRuns
  import opened TaskMeaning

  class Scheduler {
    const tasks: array<Task>
    const next: array<nat>       // TASK_MAX stands for no link
    var current: nat
    var nextId: nat
    var enabled: bool
    var held: nat
    var inUser: bool
    ghost var ring: seq<nat>

    ghost function View(): Sched
      reads this, tasks
    {
      Sched(tasks[..], ring, current, nextId, enabled, held, inUser)
    }

    ghost predicate Arrays()
      reads this
    {
      tasks.Length == TASK_MAX && next.Length == TASK_MAX
    }

    ghost predicate Valid()
      reads this, tasks, next
    {
      Arrays() && Linked(next[..], ring) && Sound(View())
    }

    constructor ()
      ensures Valid() && View() == Initial() && fresh(tasks) && fresh(next)
    {
      tasks := new Task[TASK_MAX](i => if i == 0 then Task(1, Running, "kernel", ByDefault, FromStart) else FREE);
      next := new nat[TASK_MAX](i => if i == 0 then 0 else TASK_MAX);
      current, nextId, enabled, held, inUser := 0, 2, true, 0, false;
      ring := [0];
      new;
      assert tasks[..] == Initial().tasks;
      InitialOk();
      assert Opened(true);
    }

    // ---- Looking ----

    /** The first slot with an id. */
    method FindTaskById(id: nat) returns (i: nat)
      requires Arrays()
      ensures i <= TASK_MAX && FindId(tasks[..], id, 0) == if i < TASK_MAX then Some(i) else None
    {
      i := FindFrom(0, id);
    }

    method FindFrom(from: nat, id: nat) returns (i: nat)
      requires Arrays() && from <= TASK_MAX
      ensures i <= TASK_MAX && FindId(tasks[..], id, from) == if i < TASK_MAX then Some(i) else None
    {
      i := from;
      while i < TASK_MAX
        invariant from <= i <= TASK_MAX && FindId(tasks[..], id, from) == FindId(tasks[..], id, i)
      {
        if tasks[i].id == id { return; }
        i := i + 1;
      }
    }

    method FindEnded() returns (i: nat)
      requires Arrays()
      ensures 1 <= i <= TASK_MAX && FindZombie(tasks[..], 1) == if i < TASK_MAX then Some(i) else None
    {
      i := 1;
      while i < TASK_MAX
        invariant 1 <= i <= TASK_MAX && FindZombie(tasks[..], 1) == FindZombie(tasks[..], i)
      {
        if tasks[i].state == Zombie && tasks[i].id != 0 { return; }
        i := i + 1;
      }
    }

    method IsProtectedTask(i: nat) returns (r: bool)
      requires Arrays() && i < TASK_MAX
      ensures r == IsProtected(View(), i)
    {
      if tasks[i].mode == Forced { return true; }
      if tasks[i].mode == Lifted { return false; }
      if i == 0 { return true; }
      return tasks[i].name == "shell" || tasks[i].name == "serial";
    }

    /** The first ready task after the current one in the circle, or the current one when there is none. */
    method FindReady() returns (t: nat)
      requires Arrays() && Linked(next[..], ring) && RingSound(ring) && Usable(View())
      ensures t < TASK_MAX
      ensures match FirstReady(tasks[..], Others(ring, current))
              case None => t == current
              case Some(r) => t == r && t != current
    {
      ghost var order, k := Others(ring, current), 0;
      OthersSound(ring, current);
      CircleStep(next[..], ring, current, 0);
      assert order[0..] == order;
      t := next[current];
      while t != current && tasks[t].state != Ready
        invariant k <= |order| && t < TASK_MAX && t == (if k < |order| then order[k] else current)
        invariant FirstReady(tasks[..], order) == FirstReady(tasks[..], order[k..])
        decreases |order| - k
      {
        CircleStep(next[..], ring, current, k + 1);
        assert order[k] in order && order[k..][1..] == order[k + 1..];
        t, k := next[t], k + 1;
      }
      if k < |order| { assert order[k] in order && order[k..][0] == order[k]; }
    }

    // ---- Switching ----

    /** Goes over to the next ready task. The task that comes to run goes on from where it left off: out of the
        timer's handler, it lets go of the timer. */
    method SwitchToNext()
      requires Arrays() && Linked(next[..], ring) && RingSound(ring) && Usable(View())
      requires FirstReady(tasks[..], Others(ring, current)).Some? || tasks[current].state == Ready ||
               tasks[current].state == Running
      modifies this`current, this`held, tasks
      ensures View() == Switch(old(View()))
    {
      var t := FindReady();
      if t == current {
        if tasks[current].state == Ready || tasks[current].state == Running {
          tasks[current] := tasks[current].(state := Running);
          return;
        }
        assert false;      // no task to run: the processor would halt for good
      }
      var resume := tasks[t].resume;
      tasks[t] := tasks[t].(state := Running, resume := FromStart);
      current := t;
      if resume == FromTick && held > 0 { held := held - 1; }
    }

    method Yield()
      requires Valid()
      modifies this`current, this`held, tasks
      ensures Valid() && View() == After(old(View()), DoYield)
    {
      UsableSound(View());
      CallSound(View(), DoYield);
      tasks[current] := tasks[current].(state := Ready, resume := FromYield);
      SwitchToNext();
    }

    /** The timer's tick: switches if it may and there is another ready task. */
    method PreemptTick()
      requires Valid()
      modifies this`current, this`held, tasks
      ensures Valid() && View() == After(old(View()), DoTick)
    {
      UsableSound(View());
      CallSound(View(), DoTick);
      assert After(View(), DoTick) == Tick(View());
      if !enabled || held > 0 { return; }
      if inUser { return; }
      var t := FindReady();
      if t == current { return; }
      held := held + 1;
      tasks[current] := tasks[current].(state := Ready, resume := FromTick);
      SwitchToNext();
    }

    /** A user program ends, or the current task does; task 0 never does. */
    method Exit()
      requires Valid()
      modifies this`current, this`held, this`inUser, tasks
      ensures Valid() && View() == After(old(View()), DoExit)
    {
      UsableSound(View());
      CallSound(View(), DoExit);
      if inUser {
        inUser := false;
        return;
      }
      if current == 0 { return; }
      SomeReady(View());
      tasks[current] := tasks[current].(state := Zombie, resume := FromStart);
      SwitchToNext();
    }

    method EnterUser()
      requires Valid()
      modifies this`inUser
      ensures Valid() && View() == After(old(View()), DoEnterUser)
    {
      UsableSound(View());
      CallSound(View(), DoEnterUser);
      inUser := true;
    }

    method SetPreemption(on: bool)
      requires Valid()
      modifies this`enabled
      ensures Valid() && View() == After(old(View()), DoPreemption(on))
    {
      UsableSound(View());
      CallSound(View(), DoPreemption(on));
      enabled := on;
    }

    // ---- Taking tasks away ----

    /** Takes a slot out of the circle: searches for the link to it, from task 0 on, once round. */
    method UnlinkTask(i: nat)
      requires Arrays() && Linked(next[..], ring) && RingSound(ring) && 0 < i < TASK_MAX
      modifies next
      ensures Linked(next[..][i := TASK_MAX], Keeping(ring, {i}))
    {
      var p := 0;
      ghost var k := 0;
      while true
        invariant next[..] == old(next[..]) && k < |ring| && p == ring[k] && i !in ring[..k + 1]
        decreases |ring| - k
      {
        InTable(ring, p);
        if next[p] == i {
          Unlinked(next[..], ring, k, i);
          next[p] := next[i];
          return;
        }
        assert Spot(k) && ring[Succ(k, |ring|)] == next[p];
        p := next[p];
        if p == 0 {
          if k + 1 < |ring| { Differ(ring, 0, k + 1); }
          assert ring[..k + 1] == ring;
          NotLinked(next[..], ring, i);
          return;
        }
        k := k + 1;
        assert ring[..k + 1] == ring[..k] + [ring[k]];
      }
    }

    /** Unlinks a task and frees its slot. */
    method RemoveTask(i: nat)
      requires Valid() && 0 < i < TASK_MAX && i != current
      modifies this`ring, tasks, next
      ensures Valid() && View() == Drop(old(View()), {i})
    {
      UsableSound(View());
      DropSound(View(), {i});
      UnlinkTask(i);
      ring := Keeping(ring, {i});
      tasks[i] := FREE;
      next[i] := TASK_MAX;
      assert tasks[..] == Drop(old(View()), {i}).tasks;
    }

    method Kill(id: nat) returns (rc: int)
      requires Valid()
      modifies this`ring, tasks, next
      ensures Valid() && View() == After(old(View()), DoKill(id))
      ensures rc == if CanKill(old(View()), id) then 0 else -1
    {
      UsableSound(View());
      var i := FindTaskById(id);
      if i == TASK_MAX { return -1; }
      var protect := IsProtectedTask(i);
      if protect || i == current { return -1; }
      assert {i} - {0} == {i};
      RemoveTask(i);
      rc := 0;
    }

    /** Removes every task but task 0, the current one and the protected ones; tells how many. */
    method KillAll() returns (killed: nat)
      requires Valid()
      modifies this`ring, tasks, next
      ensures Valid() && View() == After(old(View()), DoKillAll)
      ensures killed == |CondemnedBelow(old(View()), TASK_MAX)|
    {
      ghost var s := View();
      UsableSound(s);
      DropNone(s);
      assert CondemnedBelow(s, 1) == {};
      killed := 0;
      for i := 1 to TASK_MAX
        invariant Valid() && View() == Drop(s, CondemnedBelow(s, i)) && killed == |CondemnedBelow(s, i)|
      {
        CondemnedMore(s, i);
        if i == current { continue; }
        if tasks[i].id == 0 { continue; }
        var protect := IsProtectedTask(i);
        if protect { continue; }
        DropTwice(s, CondemnedBelow(s, i), {i});
        RemoveTask(i);
        killed := killed + 1;
      }
    }

    /** Removes every task that has ended. */
    method ReapZombies()
      requires Valid()
      modifies this`ring, tasks, next
      ensures Valid() && View() == After(old(View()), DoReap)
    {
      ghost var s := View();
      UsableSound(s);
      DropNone(s);
      assert ReapableBelow(s, 1) == {};
      for i := 1 to TASK_MAX
        invariant Valid() && View() == Drop(s, ReapableBelow(s, i))
      {
        ReapableMore(s, i);
        if i == current { continue; }
        if tasks[i].id == 0 { continue; }
        if tasks[i].state != Zombie { continue; }
        DropTwice(s, ReapableBelow(s, i), {i});
        RemoveTask(i);
      }
    }

    // ---- Stopping, continuing, protecting ----

    method Stop(id: nat) returns (rc: int)
      requires Valid()
      modifies tasks
      ensures Valid() && View() == After(old(View()), DoStop(id))
      ensures rc == if CanStop(old(View()), id) then 0 else -1
      ensures rc == 0 ==> exists i: nat :: FirstSlot(old(tasks[..]), id, i) &&
                                      tasks[..] == old(tasks[..])[i := old(tasks[..])[i].(state := Stopped)]
      ensures rc != 0 ==> tasks[..] == old(tasks[..])
    {
      UsableSound(View());
      CallSound(View(), DoStop(id));
      var i := FindTaskById(id);
      if i == TASK_MAX { return -1; }
      var protect := IsProtectedTask(i);
      if protect || i == current || (tasks[i].state != Ready && tasks[i].state != Running) { return -1; }
      FindIdFirst(tasks[..], id, i);
      tasks[i] := tasks[i].(state := Stopped);
      assert tasks[..] == old(tasks[..])[i := old(tasks[..])[i].(state := Stopped)];
      rc := 0;
    }

    method Continue(id: nat) returns (rc: int)
      requires Valid()
      modifies tasks
      ensures Valid() && View() == After(old(View()), DoContinue(id))
      ensures rc == if CanContinue(old(View()), id) then 0 else -1
      ensures rc == 0 ==> exists i: nat :: FirstSlot(old(tasks[..]), id, i) && old(tasks[..])[i].state == Stopped &&
                                      tasks[..] == old(tasks[..])[i := old(tasks[..])[i].(state := Ready)]
      ensures rc != 0 ==> tasks[..] == old(tasks[..])
    {
      UsableSound(View());
      CallSound(View(), DoContinue(id));
      var i := FindTaskById(id);
      if i == TASK_MAX || tasks[i].state != Stopped { return -1; }
      FindIdFirst(tasks[..], id, i);
      tasks[i] := tasks[i].(state := Ready);
      assert tasks[..] == old(tasks[..])[i := old(tasks[..])[i].(state := Ready)];
      rc := 0;
    }

    method SetProtection(id: nat, on: bool) returns (rc: int)
      requires Valid()
      modifies tasks
      ensures Valid() && View() == After(old(View()), DoProtect(id, on))
      ensures rc == if CanProtect(old(View()), id) then 0 else -1
    {
      UsableSound(View());
      CallSound(View(), DoProtect(id, on));
      if id == 0 { return -1; }
      var i := FindTaskById(id);
      if i == TASK_MAX || i == 0 { return -1; }
      tasks[i] := tasks[i].(mode := if on then Forced else Lifted);
      rc := 0;
    }

    // ---- Creating ----

    /** Finds a slot for a new task, removing one that has ended when none is free. */
    method TakeSlot() returns (i: nat)
      requires Valid()
      modifies this`ring, tasks, next
      ensures Valid() && i <= TASK_MAX && SlotFor(old(View())) == if i < TASK_MAX then Some(i) else None
      ensures View() == if i < TASK_MAX then Cleared(old(View())) else old(View())
    {
      UsableSound(View());
      i := FindFrom(1, 0);
      if i < TASK_MAX { return; }
      i := FindEnded();
      if i < TASK_MAX { RemoveTask(i); }
    }

    /** Makes a task in a free slot and links it in behind task 0. */
    method FillSlot(i: nat, name: string)
      requires Arrays() && Linked(next[..], ring) && RingSound(ring) && 0 < i < TASK_MAX && i !in ring &&
               nextId < ID_LIMIT
      modifies this`ring, this`nextId, tasks, next
      ensures Linked(next[..], ring) && View() == Insert(old(View()), i, name)
    {
      Inserted(next[..], ring, i);
      tasks[i] := Task(nextId, Ready, ShortName(name), ByDefault, FromStart);
      nextId := (nextId + 1) % ID_LIMIT;
      next[i] := next[0];
      next[0] := i;
      ring := [0, i] + ring[1..];
    }

    /** Creates a task, to run right after task 0; `stack` tells whether there is memory for its stack. The circle stays
        sound exactly when the id handed out is not zero. */
    method Create(name: string, stack: bool) returns (rc: int)
      requires Valid()
      modifies this`ring, this`nextId, tasks, next
      ensures View() == After(old(View()), DoCreate(name, stack))
      ensures Valid() <==> !HandsOutZero(old(View()), DoCreate(name, stack))
      ensures rc == if stack && SlotFor(old(View())).Some? then Signed(old(nextId)) else -1
    {
      UsableSound(View());
      CallSound(View(), DoCreate(name, stack));
      var i := TakeSlot();
      if i == TASK_MAX { return -1; }
      if !stack { return -1; }
      UsableSound(View());
      NotInRing(View(), i);
      rc := Signed(nextId);
      FillSlot(i, name);
    }
  }

  /** The id as the signed number that is returned. */
  function Signed(id: nat): int { if id < 0x8000_0000 then id else id - 0x1_0000_0000 }

  // ---- Behind the invariant ----

  ghost predicate RingSound(ring: seq<nat>) {
    |ring| > 0 && ring[0] == 0 && forall x {:trigger Opened(x)} :: Opened(x) ==> RingOk(ring)
  }

  lemma UsableSound(s: Sched)
    requires Sound(s)
    ensures Usable(s) && RingSound(s.ring) && |s.ring| > 0 && s.ring[0] == 0 && s.tasks[s.current].id != 0 &&
            s.tasks[s.current].state == Running
    ensures s.tasks[0].mode == ByDefault && s.nextId < ID_LIMIT
  {
    assert Opened(true);
    UsableAt(s);
  }

  lemma CallSound(s: Sched, call: Call)
    requires Sound(s)
    ensures Sound(After(s, call)) <==> !HandsOutZero(s, call)
  {
    assert Opened(true);
    CallKeeps(s, call);
  }

  lemma DropSound(s: Sched, gone: set<nat>)
    requires Sound(s) && 0 !in gone && s.current !in gone
    ensures Sound(Drop(s, gone))
  {
    assert Opened(true);
    DropKeeps(s, gone);
  }

  lemma SlotSound(s: Sched, i: nat)
    requires Sound(s) && i < TASK_MAX
    ensures i < |s.tasks| && (s.tasks[i].id != 0 <==> i in s.ring)
  {
    assert Opened(true);
    assert SlotOk(s.tasks, s.ring, s.current, i);
  }

  /** When any task but task 0 stops running, there is another to run. */
  lemma SomeReady(s: Sched)
    requires Sound(s) && s.current != 0
    ensures Usable(s) && FirstReady(SetTask(s, s.current, Zombie, FromStart).tasks, Others(s.ring, s.current)).Some?
  {
    assert Opened(true);
    UsableAt(s);
    SameFirst(s, Zombie, FromStart);
  }

  lemma OthersSound(ring: seq<nat>, x: nat)
    requires RingSound(ring) && x in ring
    ensures forall y :: y in Others(ring, x) <==> y in ring && y != x
  {
    assert Opened(true);
    OthersAre(ring, x);
  }

  lemma InTable(ring: seq<nat>, x: nat)
    requires RingSound(ring) && x in ring
    ensures x < TASK_MAX
  {
    assert Opened(true);
  }

  // ---- Circles ----

  /** Following the links from a slot goes through the others, in order, and back. */
  lemma CircleStep(next: seq<nat>, ring: seq<nat>, x: nat, k: nat)
    requires Linked(next, ring) && RingSound(ring) && x in ring && k <= |Others(ring, x)|
    ensures var at := if k == 0 then x else Others(ring, x)[k - 1];
            at < TASK_MAX && next[at] < TASK_MAX && next[at] == if k < |Others(ring, x)| then Others(ring, x)[k] else x
  {
    var order, n := Others(ring, x), IndexOf(ring, x);
    var m := if n + k < |ring| then n + k else n + k - |ring|;
    assert Spot(m) && ring[m] == if k == 0 then x else order[k - 1];
    InTable(ring, ring[m]);
    InTable(ring, ring[Succ(m, |ring|)]);
    assert ring[Succ(m, |ring|)] == if k < |order| then order[k] else x;
  }

  lemma Differ(ring: seq<nat>, j: nat, k: nat)
    requires RingSound(ring) && j < |ring| && k < |ring| && j != k
    ensures ring[j] != ring[k]
  {
    assert Opened(true) && Pair(j, k) && Pair(k, j);
  }

  /** A ring without the slot behind the k-th. */
  lemma KeepingBehind(ring: seq<nat>, k: nat)
    requires RingSound(ring) && k + 1 < |ring|
    ensures Keeping(ring, {ring[k + 1]}) == ring[..k + 1] + ring[k + 2..]
  {
    assert Opened(true);
    KeepingBut(ring, ring[k + 1]);
    IndexUnique(ring, k + 1);
  }

  /** What taking a slot out of the circle makes of the links. */
  lemma Unlinked(next: seq<nat>, ring: seq<nat>, k: nat, i: nat)
    requires Linked(next, ring) && RingSound(ring) && k < |ring| && 0 < i < TASK_MAX && ring[k] < TASK_MAX
    requires next[ring[k]] == i && i !in ring[..k + 1]
    ensures Linked(next[ring[k] := next[i]][i := TASK_MAX], Keeping(ring, {i}))
  {
    assert Spot(k) && ring[Succ(k, |ring|)] == i;
    KeepingBehind(ring, k);
    var r, now := ring[..k + 1] + ring[k + 2..], next[ring[k] := next[i]][i := TASK_MAX];
    forall j {:trigger Spot(j)} | 0 <= j < |r| && r[j] < TASK_MAX ensures now[r[j]] == r[Succ(j, |r|)] {
      LinkBehind(next, ring, k, i, j);
    }
    forall j | 0 <= j < TASK_MAX && j !in r ensures now[j] == TASK_MAX {
      assert ring[..k + 1][k] == ring[k];
      if j != i { NotAnywhere(ring, k, j); }
    }
  }

  lemma LinkBehind(next: seq<nat>, ring: seq<nat>, k: nat, i: nat, j: nat)
    requires Linked(next, ring) && RingSound(ring) && k + 1 < |ring| && ring[k + 1] == i && i < TASK_MAX &&
             ring[k] < TASK_MAX
    requires j + 1 < |ring| && ring[if j <= k then j else j + 1] < TASK_MAX
    ensures var r := ring[..k + 1] + ring[k + 2..]; next[ring[k] := next[i]][i := TASK_MAX][r[j]] == r[Succ(j, |r|)]
  {
    var m := if j <= k then j else j + 1;
    Differ(ring, m, k + 1);
    if m != k {
      Differ(ring, m, k);
      assert Spot(m) && next[ring[m]] == ring[Succ(m, |ring|)];
    } else {
      assert Spot(k + 1) && next[ring[k + 1]] == ring[Succ(k + 1, |ring|)];
    }
  }

  lemma NotAnywhere(ring: seq<nat>, k: nat, j: nat)
    requires k + 1 < |ring| && j != ring[k + 1] && j !in ring[..k + 1] + ring[k + 2..]
    ensures j !in ring
  {
    assert ring == ring[..k + 1] + [ring[k + 1]] + ring[k + 2..];
  }

  /** A slot that is not in the circle has no link to it. */
  lemma NotLinked(next: seq<nat>, ring: seq<nat>, i: nat)
    requires Linked(next, ring) && i !in ring && i < TASK_MAX
    ensures Linked(next[i := TASK_MAX], Keeping(ring, {i}))
  {
    KeepingAll(ring, {i});
    assert next[i := TASK_MAX] == next;
  }

  lemma NotInRing(s: Sched, i: nat)
    requires Sound(s) && i < |s.tasks| && s.tasks[i].id == 0
    ensures i !in s.ring
  {
    assert Opened(true);
    assert SlotOk(s.tasks, s.ring, s.current, i);
  }

  /** What putting a slot in behind task 0 makes of the links. */
  lemma Inserted(next: seq<nat>, ring: seq<nat>, i: nat)
    requires Linked(next, ring) && RingSound(ring) && 0 < i < TASK_MAX && i !in ring
    ensures Linked(next[i := next[0]][0 := i], [0, i] + ring[1..])
  {
    var r, now := [0, i] + ring[1..], next[i := next[0]][0 := i];
    assert Spot(0) && next[ring[0]] == ring[Succ(0, |ring|)];
    forall j | 0 <= j < |r| && r[j] < TASK_MAX ensures now[r[j]] == r[Succ(j, |r|)] {
      if j >= 2 {
        assert Spot(j - 1) && r[j] == ring[j - 1] && next[ring[j - 1]] == ring[Succ(j - 1, |ring|)];
        Differ(ring, 0, j - 1);
      }
    }
    assert ring == [0] + ring[1..];
    assert r[0] == 0 && r[1] == i;
  }

  /** Where k links lead. */
  ghost function Follow(next: seq<nat>, at: nat, k: nat): nat {
    if k == 0 then at else var p := Follow(next, at, k - 1); if p < |next| then next[p] else at
  }

  lemma {:induction false} FollowRing(next: seq<nat>, ring: seq<nat>, k: nat)
    requires Linked(next, ring) && RingSound(ring) && k <= |ring|
    ensures Follow(next, 0, k) == if k < |ring| then ring[k] else 0
  {
    if k > 0 {
      FollowRing(next, ring, k - 1);
      InTable(ring, ring[k - 1]);
      assert Spot(k - 1);
    }
  }

  /** Following the links from task 0 comes back after as many steps as there are slots in use, and never twice to a
      slot before. */
  lemma CircleIsSimple(next: seq<nat>, s: Sched, j: nat, k: nat)
    requires Linked(next, s.ring) && Sound(s) && j < k < |s.ring|
    ensures Follow(next, 0, |s.ring|) == 0 && Follow(next, 0, j) != Follow(next, 0, k)
  {
    UsableSound(s);
    FollowRing(next, s.ring, |s.ring|);
    FollowRing(next, s.ring, j);
    FollowRing(next, s.ring, k);
    Differ(s.ring, j, k);
  }

  /** On the way it visits exactly the slots in use. */
  lemma CircleVisits(next: seq<nat>, s: Sched, i: nat)
    requires Linked(next, s.ring) && Sound(s) && i < TASK_MAX
    ensures i < |s.tasks| && (s.tasks[i].id != 0 <==> exists k: nat :: k < |s.ring| && Follow(next, 0, k) == i)
  {
    UsableSound(s);
    SlotSound(s, i);
    if i in s.ring {
      var k :| 0 <= k < |s.ring| && s.ring[k] == i;
      FollowRing(next, s.ring, k);
    }
    if k: nat :| k < |s.ring| && Follow(next, 0, k) == i { FollowRing(next, s.ring, k); }
  }

  // ---- Sets of tasks to drop ----

  lemma DropNone(s: Sched)
    ensures Drop(s, {}) == s
  {
    KeepingAll(s.ring, {});
  }

  lemma CondemnedMore(s: Sched, i: nat)
    requires i < |s.tasks|
    ensures CondemnedBelow(s, i + 1) == if Condemned(s, i) then CondemnedBelow(s, i) + {i} else CondemnedBelow(s, i)
    ensures i !in CondemnedBelow(s, i)
  {
  }

  lemma ReapableMore(s: Sched, i: nat)
    requires i < |s.tasks|
    ensures ReapableBelow(s, i + 1) == if Reapable(s, i) then ReapableBelow(s, i) + {i} else ReapableBelow(s, i)
    ensures i !in ReapableBelow(s, i)
  {
  }
}
