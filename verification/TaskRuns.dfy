/** Whole runs of the scheduler: the invariant from the start, ids, and how long a ready task waits. */
module TaskRuns {
  import opened Options
  import opened TaskRing
  import opened TaskLaws

  // ---- From the start ----

  lemma InitialOk()
    ensures Inv(Initial()) && UniqueIds(Initial())
  {
    var s := Initial();
    assert forall i {:trigger SlotOk(s.tasks, s.ring, s.current, i)} :: 0 <= i < TASK_MAX ==>
           SlotOk(s.tasks, s.ring, s.current, i);
  }

  function Creates(calls: seq<Call>): nat {
    if |calls| == 0 then 0 else Creates(calls[..|calls| - 1]) + if calls[|calls| - 1].DoCreate? then 1 else 0
  }

  /** Apart from a new task, no id changes but to nothing. */
  ghost predicate IdsOnlyGo(s: Sched, r: Sched) {
    |r.tasks| == |s.tasks| && r.nextId == s.nextId && forall i {:trigger r.tasks[i]} :: 0 <= i < |r.tasks| ==>
        r.tasks[i].id == s.tasks[i].id || r.tasks[i].id == 0
  }

  lemma SwitchIds(s: Sched, state: TaskState, resume: Resume, held: nat)
    requires Usable(s)
    ensures IdsOnlyGo(s, Switch(SetTask(s, s.current, state, resume).(held := held)))
  {
  }

  lemma IdsGo(s: Sched, call: Call)
    requires Inv(s) && !call.DoCreate?
    ensures IdsOnlyGo(s, After(s, call))
  {
    UsableAt(s);
    SwitchIds(s, Ready, FromYield, s.held);
    SwitchIds(s, Ready, FromTick, s.held + 1);
    SwitchIds(s, Zombie, FromStart, s.held);
  }

  lemma UniqueStays(s: Sched, r: Sched)
    requires UniqueIds(s) && IdsOnlyGo(s, r) && s.nextId > 0
    ensures UniqueIds(r)
  {
    forall i, j {:trigger Pair(i, j)} | 0 <= i < j < |r.tasks| && r.tasks[i].id != 0
      ensures r.tasks[i].id != r.tasks[j].id
    {
      assert Pair(i, j);
    }
  }

  /** As long as the id counter does not go round, ids stay unique. */
  lemma CallUnique(s: Sched, call: Call)
    requires Inv(s) && UniqueIds(s) && 0 < s.nextId && (call.DoCreate? ==> s.nextId + 1 < ID_LIMIT)
    ensures UniqueIds(After(s, call)) && s.nextId <= After(s, call).nextId <= s.nextId + if call.DoCreate? then 1 else 0
  {
    UsableAt(s);
    if !call.DoCreate? {
      IdsGo(s, call);
      UniqueStays(s, After(s, call));
    } else if SlotFor(s).Some? {
      var i, c := SlotFor(s).value, Cleared(s);
      UniqueStays(s, c);
      if call.stack && |c.ring| > 0 {
        var d := Insert(c, i, call.name);
        forall j, k {:trigger Pair(j, k)} | 0 <= j < k < |d.tasks| && d.tasks[j].id != 0
          ensures d.tasks[j].id != d.tasks[k].id
        {
          assert Pair(j, k);
          assert c.tasks[j].id < c.nextId && c.tasks[k].id < c.nextId;
        }
      }
    }
  }

  /** In every run that creates at most 2^32 - 2 tasks, the ring holds exactly the slots in use, exactly one task
      runs, and task 0 can always run; as long as it creates fewer, no two tasks share an id. */
  lemma {:induction false} RunKeeps(calls: seq<Call>)
    requires Creates(calls) <= ID_LIMIT - 2
    ensures var s := Run(Initial(), calls);
            Inv(s) && (Creates(calls) < ID_LIMIT - 2 ==> UniqueIds(s) && 2 <= s.nextId <= 2 + Creates(calls))
    decreases |calls|
  {
    if |calls| == 0 {
      InitialOk();
    } else {
      var before, call := calls[..|calls| - 1], calls[|calls| - 1];
      RunKeeps(before);
      var s := Run(Initial(), before);
      if Creates(calls) < ID_LIMIT - 2 { CallUnique(s, call); }
      CallKeeps(s, call);
    }
  }

  /** A run that creates a task and kills it again, k times. */
  function Rounds(k: nat): seq<Call> {
    if k == 0 then [] else Rounds(k - 1) + [DoCreate("a", true), DoKill(k + 1)]
  }

  /** Only task 0 is there, and it runs; the next id is given. */
  ghost predicate Alone(s: Sched, id: nat) {
    && |s.tasks| == TASK_MAX && s.tasks[0] == Task(1, Running, "kernel", ByDefault, FromStart)
    && (forall i {:trigger s.tasks[i]} :: 0 < i < TASK_MAX ==> s.tasks[i] == FREE)
    && s.ring == [0] && s.current == 0 && s.nextId == id && s.enabled && s.held == 0 && !s.inUser
  }

  lemma {:induction false} AfterRounds(k: nat)
    requires k <= ID_LIMIT - 2
    ensures Creates(Rounds(k)) == k
    ensures Alone(Run(Initial(), Rounds(k)), (k + 2) % ID_LIMIT)
    decreases k
  {
    if k > 0 {
      AfterRounds(k - 1);
      LastRound(k);
      OneRound(Run(Initial(), Rounds(k - 1)), Run(Initial(), Rounds(k)), k + 1);
    }
  }

  /** From s to r these calls were made; seen through only where `Opened` is mentioned. */
  ghost predicate Took(s: Sched, r: Sched, c: Call) {
    forall x {:trigger Opened(x)} :: Opened(x) ==> r == After(s, c)
  }

  ghost predicate TookTwo(s: Sched, r: Sched, c: Call, d: Call) {
    forall x {:trigger Opened(x)} :: Opened(x) ==> r == After(After(s, c), d)
  }

  lemma RunOfTwo(s: Sched, calls: seq<Call>, c: Call, d: Call)
    ensures TookTwo(Run(s, calls), Run(s, calls + [c, d]), c, d)
    ensures Creates(calls + [c, d]) == Creates(calls) + (if c.DoCreate? then 1 else 0) + if d.DoCreate? then 1 else 0
  {
    var all := calls + [c, d];
    assert all[..|calls| + 1] == calls + [c] && (calls + [c])[..|calls|] == calls;
  }

  /** Creating a task next to task 0. */
  lemma FirstTask(s: Sched, id: nat, name: string)
    requires Alone(s, id) && |name| <= NAME_MAX
    ensures var r := After(s, DoCreate(name, true));
            && r.ring == [0, 1] && r.tasks == s.tasks[1 := Task(id, Ready, name, ByDefault, FromStart)]
            && r.nextId == (id + 1) % ID_LIMIT && r == s.(tasks := r.tasks, ring := r.ring, nextId := r.nextId)
  {
    SameFind(s.tasks, s.tasks, 1, 1);
  }

  /** The slot of the one task with an id. */
  lemma OnlyOne(tasks: seq<Task>, id: nat, i: nat)
    requires i < |tasks| && forall j {:trigger tasks[j]} :: 0 <= j < |tasks| ==> (tasks[j].id == id <==> j == i)
    ensures FindId(tasks, id, 0) == Some(i)
  {
    FindIdIs(tasks, id, 0);
    assert tasks[i].id == id;
  }

  lemma KeepingFirst()
    ensures Keeping([0, 1], {1}) == [0]
  {
    assert [0, 1][1..] == [1] && [1][1..] == [];
    assert Keeping([1], {1}) == [];
  }

  lemma LastRound(k: nat)
    requires k > 0
    ensures TookTwo(Run(Initial(), Rounds(k - 1)), Run(Initial(), Rounds(k)), DoCreate("a", true), DoKill(k + 1))
    ensures Creates(Rounds(k)) == Creates(Rounds(k - 1)) + 1
  {
    RunOfTwo(Initial(), Rounds(k - 1), DoCreate("a", true), DoKill(k + 1));
  }

  lemma OneRound(s: Sched, r: Sched, id: nat)
    requires Alone(s, id) && 2 <= id < ID_LIMIT && TookTwo(s, r, DoCreate("a", true), DoKill(id))
    ensures Alone(r, (id + 1) % ID_LIMIT)
  {
    assert Opened(true);
    var s1 := After(s, DoCreate("a", true));
    FirstTask(s, id, "a");
    OnlyOne(s1.tasks, id, 1);
    assert |"a"| == 1 && CanKill(s1, id) && {1} - {0} == {1};
    KeepingFirst();
  }

  /** When the counter has gone round, the next task but one is linked in twice. */
  lemma WrapBreaksRing(s: Sched, name: string, name': string)
    requires Inv(s) && s.nextId == 0 && FindId(s.tasks, 0, 1).Some?
    ensures var s1 := After(s, DoCreate(name, true)); var s2 := After(s1, DoCreate(name', true));
            Usable(s1) && !Inv(s1) && |s2.ring| > 2 && s2.ring[1] == s2.ring[2] && !RingOk(s2.ring)
  {
    UsableAt(s);
    CallKeeps(s, DoCreate(name, true));
    var i := FindId(s.tasks, 0, 1).value;
    var s1 := After(s, DoCreate(name, true));
    FindIdIs(s.tasks, 0, 1);
    assert s.ring == [s.ring[0]] + s.ring[1..];
    assert s1.current in s1.ring;
    SameFind(s.tasks, s1.tasks, 1, i);
    var s2 := After(s1, DoCreate(name', true));
    assert s2.ring[1] == i && s2.ring[2] == i;
    assert Pair(1, 2);
  }

  lemma RunOfOne(s: Sched, calls: seq<Call>, c: Call)
    ensures Took(Run(s, calls), Run(s, calls + [c]), c)
    ensures Creates(calls + [c]) == Creates(calls) + if c.DoCreate? then 1 else 0
  {
    assert (calls + [c])[..|calls|] == calls;
  }

  lemma TwoMore(s: Sched, r1: Sched, r2: Sched)
    requires Alone(s, 0) && Took(s, r1, DoCreate("a", true)) && TookTwo(s, r2, DoCreate("a", true), DoCreate("b", true))
    ensures !Inv(r1) && !RingOk(r2.ring)
  {
    assert Opened(true);
    AloneOk(s, 0);
    SameFind(s.tasks, s.tasks, 1, 1);
    WrapBreaksRing(s, "a", "b");
  }

  /** So the bound is exact: in a run that kills 2^32 - 2 tasks again, one more creation breaks the invariant, and the
      next one the ring. */
  lemma RingBreaks(k: nat)
    requires k == ID_LIMIT - 2
    ensures var calls := Rounds(k) + [DoCreate("a", true)];
            Creates(calls) == ID_LIMIT - 1 && !Inv(Run(Initial(), calls))
    ensures var calls := Rounds(k) + [DoCreate("a", true), DoCreate("b", true)];
            Creates(calls) == ID_LIMIT && !RingOk(Run(Initial(), calls).ring)
  {
    AfterRounds(k);
    RunOfOne(Initial(), Rounds(k), DoCreate("a", true));
    RunOfTwo(Initial(), Rounds(k), DoCreate("a", true), DoCreate("b", true));
    var calls := Rounds(k);
    TwoMore(Run(Initial(), calls), Run(Initial(), calls + [DoCreate("a", true)]),
            Run(Initial(), calls + [DoCreate("a", true), DoCreate("b", true)]));
  }

  lemma {:induction false} SameFind(tasks: seq<Task>, now: seq<Task>, i: nat, at: nat)
    requires i <= at < |tasks| == |now| && now[at].id == 0 && (forall j :: i <= j < at ==> now[j].id != 0)
    ensures FindId(now, 0, i) == Some(at)
    decreases at - i
  {
    if i < at { SameFind(tasks, now, i + 1, at); }
  }

  // ---- The timer ----

  /** Once the timer is lost, it never switches again. */
  lemma {:induction false} LostForever(calls: seq<Call>, n: nat)
    requires Creates(calls) <= ID_LIMIT - 2 && n <= |calls| && Lost(Run(Initial(), calls[..n]))
    ensures Lost(Run(Initial(), calls)) && Usable(Run(Initial(), calls)) && !CanPreempt(Run(Initial(), calls))
    decreases |calls|
  {
    RunKeeps(calls);
    UsableAt(Run(Initial(), calls));
    if n < |calls| {
      var before := calls[..|calls| - 1];
      assert before[..n] == calls[..n];
      LostForever(before, n);
      RunKeeps(before);
      LostByKill(Run(Initial(), before), calls[|calls| - 1]);
    } else {
      assert calls[..n] == calls;
    }
  }

  /** A new task that the timer has switched away from. */
  lemma SwitchedAway(s: Sched, id: nat)
    requires Alone(s, id) && 2 <= id < ID_LIMIT
    ensures var r := After(After(After(s, DoCreate("a", true)), DoYield), DoTick);
            && Inv(r) && r.held == 1 && r.current == 0 && |r.tasks| == TASK_MAX
            && r.tasks == s.tasks[1 := Task(id, Ready, "a", ByDefault, FromTick)]
  {
    var s1 := After(s, DoCreate("a", true));
    FirstTask(s, id, "a");
    assert Others(s1.ring, 0) == [1];
    var s2 := After(s1, DoYield);
    assert s2.current == 1 && s2.tasks[0] == Task(1, Ready, "kernel", ByDefault, FromYield);
    assert IndexOf(s2.ring, 1) == 1 by { assert s2.ring[1..] == [1]; }
    assert Others(s2.ring, 1) == [0];
    AloneOk(s, id);
    CallKeeps(s, DoCreate("a", true));
    CallKeeps(s1, DoYield);
    CallKeeps(s2, DoTick);
  }

  lemma AloneOk(s: Sched, id: nat)
    requires Alone(s, id) && id < ID_LIMIT
    ensures Inv(s)
  {
    assert forall i {:trigger SlotOk(s.tasks, s.ring, s.current, i)} :: 0 <= i < TASK_MAX ==>
           SlotOk(s.tasks, s.ring, s.current, i);
  }

  /** A run that loses the timer: it switches away from a new task, which is then killed. */
  lemma TimerIsLost(calls: seq<Call>)
    requires calls == [] + [DoCreate("a", true), DoYield] + [DoTick, DoKill(2)]
    ensures Lost(Run(Initial(), calls))
  {
    var first := [] + [DoCreate("a", true), DoYield];
    RunOfTwo(Initial(), [], DoCreate("a", true), DoYield);
    RunOfTwo(Initial(), first, DoTick, DoKill(2));
    KilledAway(Initial(), Run(Initial(), first), Run(Initial(), calls), 2);
  }

  lemma KilledAway(s: Sched, mid: Sched, r: Sched, id: nat)
    requires Alone(s, id) && 2 <= id < ID_LIMIT
    requires TookTwo(s, mid, DoCreate("a", true), DoYield) && TookTwo(mid, r, DoTick, DoKill(id))
    ensures Lost(r)
  {
    assert Opened(true);
    SwitchedAway(s, id);
    var t := After(mid, DoTick);
    OnlyOne(t.tasks, id, 1);
    LostByKill(t, DoKill(id));
  }

  // ---- Round robin ----

  /** How many tasks come before one in the order of the round. */
  ghost function Ahead(s: Sched, i: nat): nat
    requires s.current in s.ring && i in Others(s.ring, s.current)
  {
    IndexOf(Others(s.ring, s.current), i)
  }

  /** A task that can run waits. */
  ghost predicate Waits(s: Sched, i: nat) {
    i < |s.tasks| && s.current in s.ring && i in s.ring && i != s.current && s.tasks[i].state == Ready
  }

  /** Calls other than creating, killing and stopping tasks. */
  predicate Quiet(call: Call) { !call.DoCreate? && !call.DoKill? && !call.DoKillAll? && !call.DoStop? }

  ghost predicate Switches(s: Sched, call: Call) { After(s, call).current != s.current }

  lemma IndexUnique(ring: seq<nat>, k: nat)
    requires Distinct(ring) && k < |ring|
    ensures IndexOf(ring, ring[k]) == k
  {
    var n := IndexOf(ring, ring[k]);
    if n < k { assert Pair(n, k); }
  }

  lemma OthersDistinct(ring: seq<nat>, x: nat)
    requires Distinct(ring) && x in ring
    ensures Distinct(Others(ring, x))
  {
    var n, o := IndexOf(ring, x), Others(ring, x);
    forall j, k {:trigger Pair(j, k)} | 0 <= j < k < |o| ensures o[j] != o[k] {
      var j', k' := if j < |ring| - n - 1 then j + n + 1 else j - (|ring| - n - 1),
                    if k < |ring| - n - 1 then k + n + 1 else k - (|ring| - n - 1);
      assert Pair(if j' < k' then j' else k', if j' < k' then k' else j');
    }
  }

  /** The slots other than one that stands between two parts of a ring. */
  lemma OthersAround(a: seq<nat>, x: nat, b: seq<nat>)
    requires Distinct(a + ([x] + b))
    ensures x in a + ([x] + b) && Others(a + ([x] + b), x) == b + a
  {
    var r := a + ([x] + b);
    assert r[|a|] == x;
    IndexUnique(r, |a|);
    assert r[|a| + 1..] == b && r[..|a|] == a;
  }

  lemma Regrouped(a: seq<nat>, b: seq<nat>, c: seq<nat>)
    ensures (a + b) + c == a + (b + c)
  {
  }

  /** Seen from y, which comes after x in the ring. */
  lemma TurnOn(l: seq<nat>, x: nat, r1: seq<nat>, y: nat, r2: seq<nat>)
    requires Distinct(l + ([x] + (r1 + ([y] + r2))))
    ensures var ring := l + ([x] + (r1 + ([y] + r2)));
            && x in ring && Others(ring, x) == r1 + ([y] + (r2 + l))
            && y in ring && Others(ring, y) == (r2 + l) + [x] + r1
  {
    Regrouped([x], r1, [y] + r2);
    Regrouped(l, [x] + r1, [y] + r2);
    OthersAround(l, x, r1 + ([y] + r2));
    OthersAround(l + ([x] + r1), y, r2);
    Regrouped(r1, [y] + r2, l);
    Regrouped([y], r2, l);
    Regrouped(r2, l, [x] + r1);
    Regrouped(r2 + l, [x], r1);
  }

  /** Seen from y, which comes before x. */
  lemma TurnRound(l1: seq<nat>, y: nat, l2: seq<nat>, x: nat, r: seq<nat>)
    requires Distinct((l1 + ([y] + l2)) + ([x] + r))
    ensures var ring := (l1 + ([y] + l2)) + ([x] + r);
            && x in ring && Others(ring, x) == (r + l1) + ([y] + l2)
            && y in ring && Others(ring, y) == l2 + [x] + (r + l1)
  {
    Regrouped(l1, [y] + l2, [x] + r);
    Regrouped([y], l2, [x] + r);
    OthersAround(l1, y, l2 + ([x] + r));
    OthersAround(l1 + ([y] + l2), x, r);
    Regrouped(r, l1, [y] + l2);
    Regrouped(l2, [x] + r, l1);
    Regrouped([x], r, l1);
    Regrouped(l2, [x], r + l1);
  }

  lemma CutAt(s: seq<nat>, k: nat)
    requires k < |s|
    ensures s == s[..k] + ([s[k]] + s[k + 1..])
  {
  }

  /** The order seen from the j-th of the others: those after it, then where we were, then those before it. */
  lemma OthersTurn(ring: seq<nat>, x: nat, j: nat)
    requires Distinct(ring) && x in ring && j < |Others(ring, x)|
    ensures var o := Others(ring, x); o[j] in ring && Others(ring, o[j]) == o[j + 1..] + [x] + o[..j]
  {
    var n := IndexOf(ring, x);
    CutAt(ring, n);
    if j < |ring[n + 1..]| {
      TurnedOn(ring[..n], x, ring[n + 1..], j);
    } else {
      TurnedRound(ring[..n], x, ring[n + 1..], j);
    }
  }

  /** The order seen from the j-th of the others is that seen from x, turned. */
  ghost predicate Turned(ring: seq<nat>, x: nat, j: nat) {
    && x in ring && j < |Others(ring, x)| && Others(ring, x)[j] in ring
    && var o := Others(ring, x); Others(ring, o[j]) == o[j + 1..] + [x] + o[..j]
  }

  lemma TurnedOn(l: seq<nat>, x: nat, r: seq<nat>, j: nat)
    requires Distinct(l + ([x] + r)) && j < |r|
    ensures Turned(l + ([x] + r), x, j)
  {
    var r1, y, r2 := r[..j], r[j], r[j + 1..];
    CutAt(r, j);
    TurnOn(l, x, r1, y, r2);
    SplitAt(Others(l + ([x] + r), x), r1, y, r2 + l);
  }

  lemma TurnedRound(l: seq<nat>, x: nat, r: seq<nat>, j: nat)
    requires Distinct(l + ([x] + r)) && |r| <= j < |r| + |l|
    ensures Turned(l + ([x] + r), x, j)
  {
    var m := j - |r|;
    var l1, y, l2 := l[..m], l[m], l[m + 1..];
    CutAt(l, m);
    TurnRound(l1, y, l2, x, r);
    SplitAt(Others(l + ([x] + r), x), r + l1, y, l2);
  }

  lemma SplitAt(o: seq<nat>, a: seq<nat>, y: nat, b: seq<nat>)
    requires o == a + ([y] + b)
    ensures o[|a|] == y && o[|a| + 1..] == b && o[..|a|] == a
  {
  }

  /** Nobody is passed over: the first ready task is not behind a ready one. */
  lemma {:induction false} FirstIsFirst(tasks: seq<Task>, order: seq<nat>, i: nat)
    requires Distinct(order) && i in order && i < |tasks| && tasks[i].state == Ready
    ensures FirstReady(tasks, order).Some? && FirstReady(tasks, order).value in order
    ensures IndexOf(order, FirstReady(tasks, order).value) <= IndexOf(order, i)
  {
    FirstReadyIs(tasks, order);
    var k := IndexOf(order, i);
    if !(order[0] < |tasks| && tasks[order[0]].state == Ready) {
      DistinctTail(order);
      assert order == [order[0]] + order[1..];
      FirstIsFirst(tasks, order[1..], i);
      FirstReadyIs(tasks, order[1..]);
    }
  }

  /** Turning to a task that comes no later than another brings that one nearer. */
  lemma TurnGains(ring: seq<nat>, x: nat, t: nat, i: nat)
    requires Distinct(ring) && x in ring && t in Others(ring, x) && i in Others(ring, x) && t != i
    requires IndexOf(Others(ring, x), t) <= IndexOf(Others(ring, x), i)
    ensures t in ring && i in Others(ring, t) && IndexOf(Others(ring, t), i) < IndexOf(Others(ring, x), i)
  {
    var order := Others(ring, x);
    var j, k := IndexOf(order, t), IndexOf(order, i);
    OthersTurn(ring, x, j);
    var o := Others(ring, t);
    assert o[k - j - 1] == i;
    OthersDistinct(ring, t);
    IndexUnique(o, k - j - 1);
  }

  /** After a switch a ready task runs, or fewer are ahead of it. */
  lemma SwitchGains(s: Sched, i: nat, state: TaskState, resume: Resume, held: nat)
    requires Inv(s) && Waits(s, i)
    ensures i in Others(s.ring, s.current)
    ensures var r := Switch(SetTask(s, s.current, state, resume).(held := held));
            r.current != s.current && r.ring == s.ring && r.current in s.ring &&
              (r.current != i ==> Waits(r, i) && i in Others(s.ring, r.current) && Ahead(r, i) < Ahead(s, i))
  {
    var order := Others(s.ring, s.current);
    UsableAt(s);
    OthersAre(s.ring, s.current);
    OthersDistinct(s.ring, s.current);
    FirstIsFirst(s.tasks, order, i);
    SameFirst(s, state, resume);
    var t := FirstReady(s.tasks, order).value;
    if t != i { TurnGains(s.ring, s.current, t, i); }
  }

  /** Reaping brings nobody further away. */
  lemma {:induction false} IndexShrinks(order: seq<nat>, gone: set<nat>, i: nat)
    requires i in order && i !in gone
    ensures i in Keeping(order, gone) && IndexOf(Keeping(order, gone), i) <= IndexOf(order, i)
  {
    KeepingIs(order, gone);
    if order[0] != i {
      assert order == [order[0]] + order[1..];
      IndexShrinks(order[1..], gone, i);
      var rest := Keeping(order[1..], gone);
      if order[0] in gone { assert [] + rest == rest; } else { assert ([order[0]] + rest)[1..] == rest; }
    }
  }

  lemma KeepingAround(a: seq<nat>, x: nat, b: seq<nat>, gone: set<nat>)
    requires x !in gone
    ensures Keeping(a + ([x] + b), gone) == Keeping(a, gone) + ([x] + Keeping(b, gone))
    ensures Keeping(b + a, gone) == Keeping(b, gone) + Keeping(a, gone)
  {
    assert ([x] + b)[1..] == b;
    KeepingConcat(a, [x] + b, gone);
    KeepingConcat(b, a, gone);
  }

  lemma OthersKeeping(ring: seq<nat>, x: nat, gone: set<nat>)
    requires Distinct(ring) && x in ring && x !in gone
    ensures x in Keeping(ring, gone) && Others(Keeping(ring, gone), x) == Keeping(Others(ring, x), gone)
  {
    var n := IndexOf(ring, x);
    var a, b := ring[..n], ring[n + 1..];
    assert ring == a + ([x] + b);
    KeepingAround(a, x, b, gone);
    KeepingDistinct(ring, gone);
    OthersAround(Keeping(a, gone), x, Keeping(b, gone));
  }

  lemma ReapGains(s: Sched, i: nat)
    requires Inv(s) && Waits(s, i)
    ensures i in Others(s.ring, s.current)
    ensures var r := Reap(s);
            Waits(r, i) && r.current == s.current && i in Others(r.ring, r.current) && Ahead(r, i) <= Ahead(s, i)
  {
    var gone := ReapableBelow(s, TASK_MAX);
    UsableAt(s);
    OthersAre(s.ring, s.current);
    KeepingIs(s.ring, gone);
    OthersKeeping(s.ring, s.current, gone);
    IndexShrinks(Others(s.ring, s.current), gone, i);
  }

  /** A ready task has come to run, or waits with no more ahead of it, and fewer if there was a switch. */
  ghost predicate Nearer(s: Sched, r: Sched, i: nat) {
    s.current in s.ring && i in Others(s.ring, s.current) &&
    (r.current != i ==>
      Waits(r, i) && i in Others(r.ring, r.current) &&
      Ahead(r, i) + (if r.current != s.current then 1 else 0) <= Ahead(s, i))
  }

  lemma SwitchIsNearer(s: Sched, i: nat, state: TaskState, resume: Resume, held: nat)
    requires Inv(s) && Waits(s, i)
    ensures Nearer(s, Switch(SetTask(s, s.current, state, resume).(held := held)), i)
  {
    SwitchGains(s, i, state, resume, held);
  }

  lemma StaysNear(s: Sched, r: Sched, i: nat)
    requires Inv(s) && Waits(s, i) && r.ring == s.ring && r.current == s.current && i < |r.tasks| &&
             r.tasks[i].state == Ready
    ensures Nearer(s, r, i)
  {
    UsableAt(s);
    OthersAre(s.ring, s.current);
  }

  /** A quiet call brings a ready task nearer. */
  lemma QuietGains(s: Sched, call: Call, i: nat)
    requires Inv(s) && Waits(s, i) && Quiet(call)
    ensures Nearer(s, After(s, call), i)
  {
    UsableAt(s);
    match call
    case DoYield => SwitchIsNearer(s, i, Ready, FromYield, s.held);
    case DoTick => if CanPreempt(s) { SwitchIsNearer(s, i, Ready, FromTick, s.held + 1); } else { StaysNear(s, s, i); }
    case DoExit =>
      if !s.inUser && s.current != 0 {
        SwitchIsNearer(s, i, Zombie, FromStart, s.held);
      } else {
        StaysNear(s, After(s, call), i);
      }
    case DoReap => ReapGains(s, i);
    case DoEnterUser => StaysNear(s, After(s, call), i);
    case DoPreemption(on) => StaysNear(s, After(s, call), i);
    case DoContinue(id) => StaysNear(s, After(s, call), i);
    case DoProtect(id, on) => StaysNear(s, After(s, call), i);
  }

  ghost function Turns(s: Sched, calls: seq<Call>): nat {
    if |calls| == 0 then 0
    else Turns(s, calls[..|calls| - 1]) + if Switches(Run(s, calls[..|calls| - 1]), calls[|calls| - 1]) then 1 else 0
  }

  /** A call that does not create tasks keeps the invariant over any run. */
  lemma {:induction false} QuietRunKeeps(s: Sched, calls: seq<Call>)
    requires Inv(s) && forall k :: 0 <= k < |calls| ==> Quiet(calls[k])
    ensures Inv(Run(s, calls))
    decreases |calls|
  {
    if |calls| > 0 {
      QuietRunKeeps(s, calls[..|calls| - 1]);
      CallKeeps(Run(s, calls[..|calls| - 1]), calls[|calls| - 1]);
    }
  }

  /** A ready task with n tasks ahead of it runs at the latest at the (n + 1)-th switch, if nothing is created, killed
      or stopped meanwhile. */
  lemma {:induction false} RunsInTurn(s: Sched, calls: seq<Call>, i: nat)
    requires Inv(s) && Waits(s, i) && forall k :: 0 <= k < |calls| ==> Quiet(calls[k])
    ensures i in Others(s.ring, s.current)
    ensures (exists n :: 0 <= n <= |calls| && Run(s, calls[..n]).current == i) ||
            (var r := Run(s, calls);
             Waits(r, i) && i in Others(r.ring, r.current) && Ahead(r, i) + Turns(s, calls) <= Ahead(s, i))
    ensures Turns(s, calls) > Ahead(s, i) ==> exists n :: 0 <= n <= |calls| && Run(s, calls[..n]).current == i
    decreases |calls|
  {
    if |calls| == 0 {
      OthersAre(s.ring, s.current);
    } else {
      var before, call := calls[..|calls| - 1], calls[|calls| - 1];
      RunsInTurn(s, before, i);
      QuietRunKeeps(s, before);
      if n :| 0 <= n <= |before| && Run(s, before[..n]).current == i {
        assert before[..n] == calls[..n];
      } else {
        QuietGains(Run(s, before), call, i);
        assert calls[..|calls|] == calls;
      }
    }
  }
}
