/** The scheduler's state and what each call makes of it: tasks in slots, and the round-robin order as a ring. */
module TaskRing {
  import opened Options

  const TASK_MAX: nat := 8
  const NAME_MAX: nat := 23
  const ID_LIMIT: nat := 0x1_0000_0000

  datatype TaskState = Ready | Running | Zombie | Stopped
  datatype Resume = FromStart | FromYield | FromTick      // where a task that does not run will go on
  datatype Protection = ByDefault | Forced | Lifted

  datatype Task = Task(id: nat, state: TaskState, name: string, mode: Protection, resume: Resume)

  const FREE: Task := Task(0, Zombie, "", ByDefault, FromStart)

  /** `held` counts the switches made by the timer whose task has not come back yet; `inUser` tells that a user
      program runs on behalf of the current task. */
  datatype Sched = Sched(tasks: seq<Task>, ring: seq<nat>, current: nat, nextId: nat, enabled: bool, held: nat,
                         inUser: bool)

  // ---- Rings ----

  ghost predicate Pair(i: int, j: int) { true }

  ghost predicate Spot(k: int) { true }

  /** A ring starts with slot 0 and has no slot twice. */
  ghost predicate RingOk(ring: seq<nat>) {
    && |ring| > 0 && ring[0] == 0
    && (forall k {:trigger ring[k]} :: 0 <= k < |ring| ==> ring[k] < TASK_MAX)
    && Distinct(ring)
  }

  ghost predicate Distinct(ring: seq<nat>) {
    forall j, k {:trigger Pair(j, k)} :: 0 <= j < k < |ring| && Pair(j, k) ==> ring[j] != ring[k]
  }

  function Succ(k: nat, n: nat): nat { if k + 1 == n then 0 else k + 1 }

  /** The links of the slots go round the ring; a slot outside it has none. */
  ghost predicate Linked(next: seq<nat>, ring: seq<nat>) {
    && |next| == TASK_MAX
    && (forall k {:trigger Spot(k)} :: Spot(k) && 0 <= k < |ring| && ring[k] < TASK_MAX ==>
       next[ring[k]] == ring[Succ(k, |ring|)])
    && forall i {:trigger next[i]} :: 0 <= i < TASK_MAX && i !in ring ==> next[i] == TASK_MAX
  }

  function IndexOf(ring: seq<nat>, x: nat): (k: nat)
    requires x in ring
    ensures k < |ring| && ring[k] == x && x !in ring[..k]
  {
    if ring[0] == x then 0 else 1 + IndexOf(ring[1..], x)
  }

  /** The slots other than one, in the order in which they follow it. */
  function Others(ring: seq<nat>, x: nat): seq<nat>
    requires x in ring
  {
    ring[IndexOf(ring, x) + 1..] + ring[..IndexOf(ring, x)]
  }

  /** A ring after some slots have been taken out. */
  ghost function Keeping(ring: seq<nat>, gone: set<nat>): seq<nat> {
    if |ring| == 0 then [] else (if ring[0] in gone then [] else [ring[0]]) + Keeping(ring[1..], gone)
  }

  /** The first of a list of slots whose task is ready. */
  function FirstReady(tasks: seq<Task>, order: seq<nat>): Option<nat> {
    if |order| == 0 then None
    else if order[0] < |tasks| && tasks[order[0]].state == Ready then Some(order[0])
    else FirstReady(tasks, order[1..])
  }

  // ---- What a state is like ----

  ghost predicate Waiting(t: Task) { (t.state == Ready || t.state == Stopped) && t.resume == FromTick }

  /** The ring holds exactly the slots in use; one task runs, the current one; task 0 can always run; and at most one
      task waits to come back from the timer, which is then held off. */
  ghost predicate Inv(s: Sched) {
    && |s.tasks| == TASK_MAX && RingOk(s.ring) && s.current in s.ring && s.nextId < ID_LIMIT
    && (forall i {:trigger SlotOk(s.tasks, s.ring, s.current, i)} :: 0 <= i < TASK_MAX ==>
       SlotOk(s.tasks, s.ring, s.current, i))
    && (s.tasks[0].state == Ready || s.tasks[0].state == Running) && s.tasks[0].mode == ByDefault
    && s.held <= 1 && (s.held == 0 ==> NoneWaits(s.tasks)) && AtMostOneWaits(s.tasks)
  }

  ghost predicate Opened(x: bool) { true }

  /** The invariant, behind a quantifier so that only proofs that mention `Opened` see through it. */
  ghost predicate Sound(s: Sched) { forall x {:trigger Opened(x)} :: Opened(x) ==> Inv(s) }

  ghost predicate NoneWaits(tasks: seq<Task>) {
    forall i {:trigger tasks[i]} :: 0 <= i < |tasks| ==> !Waiting(tasks[i])
  }

  ghost predicate AtMostOneWaits(tasks: seq<Task>) {
    forall i, j {:trigger Pair(i, j)} :: 0 <= i < j < |tasks| && Pair(i, j) ==>
        !(Waiting(tasks[i]) && Waiting(tasks[j]))
  }

  /** Slot i is in use exactly when it is in the ring, and its task runs exactly when it is the current one. */
  ghost predicate SlotOk(tasks: seq<Task>, ring: seq<nat>, current: nat, i: nat)
    requires i < |tasks|
  {
    && (tasks[i].id != 0 <==> i in ring) && (i !in ring ==> tasks[i] == FREE) &&
       (tasks[i].state == Running <==> i == current)
  }

  /** The timer is held off and no task is left that could let go of it. */
  ghost predicate Lost(s: Sched) {
    s.held > 0 && NoneWaits(s.tasks)
  }

  /** Ids are those handed out, each once. */
  ghost predicate UniqueIds(s: Sched) {
    && (forall i {:trigger s.tasks[i]} :: 0 <= i < |s.tasks| ==> s.tasks[i].id < s.nextId)
    && forall i, j {:trigger Pair(i, j)} :: 0 <= i < j < |s.tasks| && Pair(i, j) && s.tasks[i].id != 0 ==>
       s.tasks[i].id != s.tasks[j].id
  }

  // ---- What each call does ----

  function SetTask(s: Sched, i: nat, state: TaskState, resume: Resume): Sched
    requires i < |s.tasks|
  {
    s.(tasks := s.tasks[i := s.tasks[i].(state := state, resume := resume)])
  }

  /** Going over to the next ready task after the current one; with none, the current one goes on. A task that comes
      back from the timer lets go of it. */
  function Switch(s: Sched): Sched
    requires |s.tasks| == TASK_MAX && s.current in s.ring && s.current < TASK_MAX
  {
    match FirstReady(s.tasks, Others(s.ring, s.current))
    case None => SetTask(s, s.current, Running, s.tasks[s.current].resume)
    case Some(t) =>
      if t >= TASK_MAX then s
      else SetTask(s, t, Running, FromStart).(current := t, held := if s.tasks[t].resume == FromTick &&
        s.held > 0 then s.held - 1 else s.held)
  }

  predicate Usable(s: Sched) { |s.tasks| == TASK_MAX && s.current in s.ring && s.current < TASK_MAX }

  function Yield(s: Sched): Sched
    requires Usable(s)
  {
    Switch(SetTask(s, s.current, Ready, FromYield))
  }

  predicate CanPreempt(s: Sched)
    requires Usable(s)
  {
    s.enabled && s.held == 0 && !s.inUser && FirstReady(s.tasks, Others(s.ring, s.current)).Some?
  }

  function Tick(s: Sched): Sched
    requires Usable(s)
  {
    if CanPreempt(s) then Switch(SetTask(s, s.current, Ready, FromTick).(held := s.held + 1)) else s
  }

  function Exit(s: Sched): Sched
    requires Usable(s)
  {
    if s.inUser then s.(inUser := false)
    else if s.current == 0 then s
    else Switch(SetTask(s, s.current, Zombie, FromStart))
  }

  /** Tasks taken out of the ring, and their slots freed. */
  ghost function Drop(s: Sched, gone: set<nat>): (r: Sched)
    ensures |r.tasks| == |s.tasks|
    ensures forall i {:trigger r.tasks[i]} :: 0 <= i < |s.tasks| ==>
              r.tasks[i] == if i in gone then FREE else s.tasks[i]
  {
    s.(tasks := seq(|s.tasks|, i requires 0 <= i < |s.tasks| => if i in gone then FREE else s.tasks[i]),
       ring := Keeping(s.ring, gone))
  }

  predicate IsProtected(s: Sched, i: nat)
    requires i < |s.tasks|
  {
    s.tasks[i].mode == Forced ||
      (s.tasks[i].mode == ByDefault && (i == 0 || s.tasks[i].name == "shell" || s.tasks[i].name == "serial"))
  }

  /** The first slot, from slot i on, with an id. */
  function FindId(tasks: seq<Task>, id: nat, i: nat): (r: Option<nat>)
    requires i <= |tasks|
    ensures r.Some? ==> i <= r.value < |tasks| && tasks[r.value].id == id
    decreases |tasks| - i
  {
    if i == |tasks| then None else if tasks[i].id == id then Some(i) else FindId(tasks, id, i + 1)
  }

  /** The first slot, from slot i on, that holds a task which has ended. */
  function FindZombie(tasks: seq<Task>, i: nat): (r: Option<nat>)
    requires i <= |tasks|
    ensures r.Some? ==> i <= r.value < |tasks| && tasks[r.value].state == Zombie && tasks[r.value].id != 0
    decreases |tasks| - i
  {
    if i == |tasks| then None else if tasks[i].state == Zombie && tasks[i].id != 0 then Some(i)
    else FindZombie(tasks, i + 1)
  }

  predicate CanKill(s: Sched, id: nat) {
    var i := FindId(s.tasks, id, 0);
    i.Some? && !IsProtected(s, i.value) && i.value != s.current
  }

  ghost function Kill(s: Sched, id: nat): Sched {
    if CanKill(s, id) then Drop(s, {FindId(s.tasks, id, 0).value} - {0}) else s
  }

  predicate Condemned(s: Sched, i: nat)
    requires i < |s.tasks|
  {
    i != 0 && i != s.current && s.tasks[i].id != 0 && !IsProtected(s, i)
  }

  predicate Reapable(s: Sched, i: nat)
    requires i < |s.tasks|
  {
    i != 0 && i != s.current && s.tasks[i].id != 0 && s.tasks[i].state == Zombie
  }

  ghost function CondemnedBelow(s: Sched, n: nat): set<nat>
    requires n <= |s.tasks|
  {
    set i: nat | i < n && Condemned(s, i)
  }

  ghost function ReapableBelow(s: Sched, n: nat): set<nat>
    requires n <= |s.tasks|
  {
    set i: nat | i < n && Reapable(s, i)
  }

  ghost function KillAll(s: Sched): Sched { Drop(s, CondemnedBelow(s, |s.tasks|)) }

  ghost function Reap(s: Sched): Sched { Drop(s, ReapableBelow(s, |s.tasks|)) }

  predicate CanStop(s: Sched, id: nat) {
    var i := FindId(s.tasks, id, 0);
    i.Some? && !IsProtected(s, i.value) && i.value != s.current &&
      (s.tasks[i.value].state == Ready || s.tasks[i.value].state == Running)
  }

  function Stop(s: Sched, id: nat): Sched {
    if CanStop(s, id) then var i := FindId(s.tasks, id, 0).value; SetTask(s, i, Stopped, s.tasks[i].resume) else s
  }

  predicate CanContinue(s: Sched, id: nat) {
    var i := FindId(s.tasks, id, 0);
    i.Some? && s.tasks[i.value].state == Stopped
  }

  function Continue(s: Sched, id: nat): Sched {
    if CanContinue(s, id) then var i := FindId(s.tasks, id, 0).value; SetTask(s, i, Ready, s.tasks[i].resume) else s
  }

  predicate CanProtect(s: Sched, id: nat) {
    id != 0 && FindId(s.tasks, id, 0).Some? && FindId(s.tasks, id, 0).value != 0
  }

  function Protect(s: Sched, id: nat, on: bool): Sched {
    if CanProtect(s, id) then
      var i := FindId(s.tasks, id, 0).value;
      s.(tasks := s.tasks[i := s.tasks[i].(mode := if on then Forced else Lifted)])
    else s
  }

  /** The slot a new task gets: a free one or else that of a task that has ended. */
  function SlotFor(s: Sched): (r: Option<nat>)
    requires |s.tasks| == TASK_MAX
    ensures r.Some? ==> 0 < r.value < TASK_MAX
  {
    if FindId(s.tasks, 0, 1).Some? then FindId(s.tasks, 0, 1) else FindZombie(s.tasks, 1)
  }

  function ShortName(name: string): string { if |name| <= NAME_MAX then name else name[..NAME_MAX] }

  /** The slot made free, if it was not. */
  ghost function Cleared(s: Sched): Sched
    requires |s.tasks| == TASK_MAX && SlotFor(s).Some?
  {
    if FindId(s.tasks, 0, 1).Some? then s else Drop(s, {SlotFor(s).value})
  }

  function Insert(s: Sched, i: nat, name: string): Sched
    requires |s.tasks| == TASK_MAX && i < TASK_MAX && |s.ring| > 0
  {
    s.(tasks := s.tasks[i := Task(s.nextId, Ready, ShortName(name), ByDefault, FromStart)],
       ring := [s.ring[0], i] + s.ring[1..],
       nextId := (s.nextId + 1) % ID_LIMIT)
  }

  /** A new task, ready, right behind task 0; `stack` tells whether there was memory for its stack. */
  ghost function Create(s: Sched, name: string, stack: bool): Sched
    requires |s.tasks| == TASK_MAX && |s.ring| > 0
  {
    if SlotFor(s).None? then s
    else if !stack || |Cleared(s).ring| == 0 then Cleared(s)
    else Insert(Cleared(s), SlotFor(s).value, name)
  }

  function Initial(): Sched {
    Sched(seq(TASK_MAX, i => if i == 0 then Task(1, Running, "kernel", ByDefault, FromStart) else FREE), [0], 0, 2,
          true, 0, false)
  }

  // ---- Runs ----

  datatype Call = DoCreate(name: string, stack: bool) | DoYield | DoTick | DoExit | DoEnterUser | DoPreemption(on: bool)
                | DoKill(id: nat) | DoKillAll | DoReap | DoStop(id: nat) | DoContinue(id: nat)
                | DoProtect(id: nat, on: bool)

  ghost function After(s: Sched, call: Call): Sched {
    if !Usable(s) then s
    else match call
      case DoCreate(name, stack) => Create(s, name, stack)
      case DoYield => Yield(s)
      case DoTick => Tick(s)
      case DoExit => Exit(s)
      case DoEnterUser => s.(inUser := true)
      case DoPreemption(on) => s.(enabled := on)
      case DoKill(id) => Kill(s, id)
      case DoKillAll => KillAll(s)
      case DoReap => Reap(s)
      case DoStop(id) => Stop(s, id)
      case DoContinue(id) => Continue(s, id)
      case DoProtect(id, on) => Protect(s, id, on)
  }

  ghost function Run(s: Sched, calls: seq<Call>): Sched {
    if |calls| == 0 then s else After(Run(s, calls[..|calls| - 1]), calls[|calls| - 1])
  }
}
