// The scheduler: a table of tasks with holes, a lock per thread, and any number of CPUs that
// pick the next eligible thread in cyclic order.

module Sched {
  import opened Options

  const MAX_TASKS: nat := 65536 * 16

  // What the scheduler reads and writes of a thread.  `event` is the counter it waits for.
  datatype Thread = Thread(
    locked: bool,
    activeOnCpu: int,
    paused: bool,
    yieldTarget: nat,
    event: Option<nat>,
    eventAbrt: bool)

  // A slot of the task table: never used, given up, reserved by a creation in progress, or a thread.
  datatype Slot = Null | Empty | Reserved | Live(thread: Thread)

  datatype State = State(table: seq<Slot>, taskCount: int, cpus: seq<int>, events: seq<int>, uptime: nat)

  function Count(table: seq<Slot>, lo: nat, hi: nat): nat
    requires lo <= hi <= |table|
    decreases hi - lo
  {
    if lo == hi then 0 else Count(table, lo, hi - 1) + if table[hi - 1].Live? then 1 else 0
  }

  // The slots ever used are the first `n`.
  ghost predicate UsedPrefix(table: seq<Slot>, n: nat) {
    forall i :: 0 <= i < |table| ==> (table[i].Null? <==> n <= i)
  }

  ghost predicate TableOk(table: seq<Slot>, taskCount: int) {
    && |table| == MAX_TASKS
    && (exists n: nat :: UsedPrefix(table, n))
    && taskCount == Count(table, 0, |table|)
  }

  // A thread's lock is held exactly when a CPU, and then exactly one, has it current.
  ghost predicate LocksOk(table: seq<Slot>, cpus: seq<int>) {
    && (forall c :: 0 <= c < |cpus| && cpus[c] != -1 ==>
          0 <= cpus[c] < |table| && table[cpus[c]].Live? && table[cpus[c]].thread.activeOnCpu == c)
    && (forall i :: 0 <= i < |table| && table[i].Live? ==>
          -1 <= table[i].thread.activeOnCpu < |cpus|
          && (table[i].thread.locked <==> table[i].thread.activeOnCpu != -1)
          && (table[i].thread.activeOnCpu != -1 ==> cpus[table[i].thread.activeOnCpu] == i))
  }

  ghost predicate EventsOk(table: seq<Slot>, events: seq<int>) {
    forall i :: 0 <= i < |table| && table[i].Live? && table[i].thread.event.Some? ==>
      table[i].thread.event.value < |events|
  }

  ghost predicate Ok(s: State) {
    TableOk(s.table, s.taskCount) && LocksOk(s.table, s.cpus) && EventsOk(s.table, s.events)
  }

  // In the words of the locks alone.
  lemma LockHeldByExactlyOne(s: State, i: nat)
    requires Ok(s) && i < |s.table| && s.table[i].Live?
    ensures s.table[i].thread.locked <==> exists c :: 0 <= c < |s.cpus| && s.cpus[c] == i
    ensures forall c, d :: 0 <= c < |s.cpus| && 0 <= d < |s.cpus| && s.cpus[c] == i && s.cpus[d] == i ==> c == d
  {
    if s.table[i].thread.locked {
      assert s.cpus[s.table[i].thread.activeOnCpu] == i;
    }
  }

  // ---------- counting live slots ----------

  lemma {:induction false} CountSplit(table: seq<Slot>, lo: nat, mid: nat, hi: nat)
    requires lo <= mid <= hi <= |table|
    ensures Count(table, lo, hi) == Count(table, lo, mid) + Count(table, mid, hi)
    decreases hi - mid
  {
    if mid < hi {
      CountSplit(table, lo, mid, hi - 1);
    }
  }

  lemma CountOne(table: seq<Slot>, lo: nat, i: nat, hi: nat)
    requires lo <= i < hi <= |table|
    ensures Count(table, lo, hi) == Count(table, lo, i) + (if table[i].Live? then 1 else 0) + Count(table, i + 1, hi)
  {
    CountSplit(table, lo, i, hi);
    CountSplit(table, i, i + 1, hi);
    assert Count(table, i, i) == 0;
  }

  lemma {:induction false} CountSame(s: seq<Slot>, t: seq<Slot>, lo: nat, hi: nat)
    requires lo <= hi <= |s| && hi <= |t|
    requires forall i :: lo <= i < hi ==> (s[i].Live? <==> t[i].Live?)
    ensures Count(s, lo, hi) == Count(t, lo, hi)
    decreases hi - lo
  {
    if lo < hi {
      CountSame(s, t, lo, hi - 1);
    }
  }

  lemma CountUpdate(table: seq<Slot>, i: nat, slot: Slot)
    requires i < |table|
    ensures Count(table[i := slot], 0, |table|)
            == Count(table, 0, |table|) - (if table[i].Live? then 1 else 0) + if slot.Live? then 1 else 0
  {
    CountOne(table, 0, i, |table|);
    CountOne(table[i := slot], 0, i, |table|);
    CountSame(table, table[i := slot], 0, i);
    CountSame(table, table[i := slot], i + 1, |table|);
  }

  // ---------- choosing the next task ----------

  predicate Eligible(slot: Slot, events: seq<int>, uptime: nat) {
    && slot.Live?
    && slot.thread.yieldTarget <= uptime
    && !slot.thread.locked
    && !slot.thread.paused
    && match slot.thread.event
       case None => true
       case Some(e) => slot.thread.eventAbrt || (e < |events| && events[e] != 0)
  }

  // The slot a search after `current` looks at first.
  function ScanStart(current: int): int {
    if current != -1 then current + 1 else 0
  }

  // How far a cyclic search from `start` goes to reach slot `x`.
  function Distance(start: int, x: int): int {
    if x >= start then x - start else x - start + MAX_TASKS
  }

  // `r` is the right choice after `current`: the nearest eligible slot in cyclic order, or -1 if
  // there is none.
  ghost predicate IsNext(table: seq<Slot>, events: seq<int>, uptime: nat, current: int, r: int) {
    if r == -1 then
      forall x :: 0 <= x < |table| ==> !Eligible(table[x], events, uptime)
    else
      && 0 <= r < |table| && Eligible(table[r], events, uptime)
      && forall x :: 0 <= x < |table| && Eligible(table[x], events, uptime) ==>
           Distance(ScanStart(current), r) <= Distance(ScanStart(current), x)
  }

  // The choice is unique.
  lemma NextUnique(table: seq<Slot>, events: seq<int>, uptime: nat, current: int, r: int, q: int)
    requires |table| == MAX_TASKS && -1 <= current < MAX_TASKS
    requires IsNext(table, events, uptime, current, r) && IsNext(table, events, uptime, current, q)
    ensures r == q
  {
  }

  // Taking a thread takes its lock and, unless its wait was aborted, one count of its event.
  function Taken(s: State, r: nat): State
    requires r < |s.table| && Eligible(s.table[r], s.events, s.uptime)
  {
    var th := s.table[r].thread;
    if th.event.Some? && !th.eventAbrt then
      s.(table := s.table[r := Live(th.(locked := true, event := None))],
         events := s.events[th.event.value := s.events[th.event.value] - 1])
    else
      s.(table := s.table[r := Live(th.(locked := true))])
  }

  // ---------- the steps ----------

  // CPU `c` lets go of its current thread.
  function Released(s: State, c: nat): State
    requires c < |s.cpus|
  {
    var cur := s.cpus[c];
    if 0 <= cur < |s.table| && s.table[cur].Live? then
      s.(table := s.table[cur := Live(s.table[cur].thread.(locked := false, activeOnCpu := -1))],
         cpus := s.cpus[c := -1])
    else
      s.(cpus := s.cpus[c := -1])
  }

  // CPU `c` starts running task `r`, whose lock it has taken.
  function Running(s: State, c: nat, r: nat): State
    requires c < |s.cpus| && r < |s.table| && s.table[r].Live?
  {
    s.(table := s.table[r := Live(s.table[r].thread.(activeOnCpu := c))], cpus := s.cpus[c := r])
  }

  // A reschedule of CPU `c`.
  ghost predicate ReschedStep(s: State, c: nat, t: State) {
    && c < |s.cpus|
    && exists r: int ::
         && IsNext(Released(s, c).table, s.events, s.uptime, s.cpus[c], r)
         && t == if r == -1 then Released(s, c) else Running(Taken(Released(s, c), r), c, r)
  }

  ghost predicate FirstFree(table: seq<Slot>, i: nat) {
    && i < |table| && (table[i].Null? || table[i].Empty?)
    && forall j :: 0 <= j < i ==> !table[j].Null? && !table[j].Empty?
  }

  const FRESH := Thread(false, -1, false, 0, None, false)

  // `task_tkill` of the thread in slot `i`: the CPU noted in `recorded` is told to drop whatever it
  // runs, and the thread is freed.
  function Killed(s: State, i: nat, recorded: int): State
    requires i < |s.table| && -1 <= recorded < |s.cpus|
  {
    s.(table := s.table[i := Empty],
       taskCount := s.taskCount - 1,
       cpus := if recorded == -1 then s.cpus else s.cpus[recorded := -1])
  }

  // Time passes, events are triggered, threads start to wait, are paused or resumed: nothing of
  // the table's shape, the locks or the CPUs changes.
  ghost predicate EnvStep(s: State, t: State) {
    && t.cpus == s.cpus && t.taskCount == s.taskCount && |t.table| == |s.table|
    && (forall i :: 0 <= i < |s.table| ==>
          if s.table[i].Live? then
            t.table[i].Live? && t.table[i].thread.locked == s.table[i].thread.locked
            && t.table[i].thread.activeOnCpu == s.table[i].thread.activeOnCpu
          else t.table[i] == s.table[i])
    && EventsOk(t.table, t.events)
  }

  ghost predicate Step(s: State, t: State) {
    || EnvStep(s, t)
    || (exists c: nat :: ReschedStep(s, c, t))
    || (exists i: nat :: FirstFree(s.table, i) && t == s.(table := s.table[i := Reserved]))
    || (exists i: nat, slot: Slot ::
          i < |s.table| && s.table[i].Reserved? && slot in {Empty, Live(FRESH)}
          && t == s.(table := s.table[i := slot], taskCount := s.taskCount + if slot.Live? then 1 else 0))
    || (exists i: nat ::
          FirstFree(s.table, i) && t == s.(table := s.table[i := Live(FRESH)], taskCount := s.taskCount + 1))
    || (exists i: nat ::
          i < |s.table| && s.table[i].Live? && -1 <= s.table[i].thread.activeOnCpu < |s.cpus|
          && t == Killed(s, i, s.table[i].thread.activeOnCpu))
  }

  lemma EnvKeeps(s: State, t: State)
    requires Ok(s) && EnvStep(s, t)
    ensures Ok(t)
  {
    CountSame(s.table, t.table, 0, |s.table|);
    var n: nat :| UsedPrefix(s.table, n);
    assert UsedPrefix(t.table, n);
  }

  lemma ReleaseKeeps(s: State, c: nat)
    requires Ok(s) && c < |s.cpus|
    ensures Ok(Released(s, c)) && Released(s, c).cpus[c] == -1
    ensures Released(s, c).events == s.events && Released(s, c).uptime == s.uptime
    ensures |Released(s, c).table| == |s.table| && |Released(s, c).cpus| == |s.cpus|
  {
    hide TableOk;
    var t := Released(s, c);
    if s.cpus[c] != -1 {
      TableKeeps(s.table, s.taskCount, s.cpus[c], t.table[s.cpus[c]]);
    }
  }

  lemma RunKeeps(s: State, c: nat, r: nat)
    requires Ok(s) && c < |s.cpus| && s.cpus[c] == -1
    requires r < |s.table| && Eligible(s.table[r], s.events, s.uptime)
    ensures Ok(Running(Taken(s, r), c, r))
  {
    hide TableOk;
    var t := Running(Taken(s, r), c, r);
    assert t.table == s.table[r := t.table[r]];
    TableKeeps(s.table, s.taskCount, r, t.table[r]);
  }

  lemma ReschedKeeps(s: State, c: nat, t: State)
    requires Ok(s) && ReschedStep(s, c, t)
    ensures Ok(t)
  {
    hide Ok;
    ReleaseKeeps(s, c);
    var r: int :|
      && IsNext(Released(s, c).table, s.events, s.uptime, s.cpus[c], r)
      && t == if r == -1 then Released(s, c) else Running(Taken(Released(s, c), r), c, r);
    if r != -1 {
      RunKeeps(Released(s, c), c, r);
    }
  }

  // A slot changed between live and not, or was used for the first time as the first free one.
  lemma TableKeeps(table: seq<Slot>, taskCount: int, i: nat, slot: Slot)
    requires TableOk(table, taskCount) && i < |table| && !slot.Null?
    requires table[i].Null? ==> FirstFree(table, i)
    ensures TableOk(table[i := slot], taskCount - (if table[i].Live? then 1 else 0) + if slot.Live? then 1 else 0)
  {
    CountUpdate(table, i, slot);
    var n: nat :| UsedPrefix(table, n);
    if table[i].Null? {
      assert UsedPrefix(table[i := slot], i + 1);
    } else {
      assert UsedPrefix(table[i := slot], n);
    }
  }

  // Replacing a slot that holds no thread.
  lemma FillKeeps(s: State, i: nat, slot: Slot)
    requires Ok(s) && i < |s.table| && !s.table[i].Live? && slot in {Empty, Reserved, Live(FRESH)}
    requires s.table[i].Null? ==> FirstFree(s.table, i)
    ensures Ok(s.(table := s.table[i := slot], taskCount := s.taskCount + if slot.Live? then 1 else 0))
  {
    hide TableOk;
    assert |s.table| == MAX_TASKS by {
      TableLength(s.table, s.taskCount);
    }
    TableKeeps(s.table, s.taskCount, i, slot);
  }

  lemma TableLength(table: seq<Slot>, taskCount: int)
    requires TableOk(table, taskCount)
    ensures |table| == MAX_TASKS && taskCount == Count(table, 0, |table|)
  {
  }

  // The slot still holds a thread, and the CPU noted for it is still right: it is the CPU that runs the
  // thread now, or the thread runs nowhere and that CPU is idle.
  ghost predicate KillSafe(s: State, i: nat, recorded: int) {
    && i < |s.table| && s.table[i].Live? && -1 <= recorded < |s.cpus|
    && var active := s.table[i].thread.activeOnCpu;
       recorded == active || (active == -1 && recorded != -1 && s.cpus[recorded] == -1)
  }

  // A kill keeps the invariant exactly then.
  lemma KillExact(s: State, i: nat, recorded: int)
    requires Ok(s) && i < |s.table| && -1 <= recorded < |s.cpus|
    ensures Ok(Killed(s, i, recorded)) <==> KillSafe(s, i, recorded)
  {
    hide TableOk;
    var t := Killed(s, i, recorded);
    if !s.table[i].Live? {
      EmptyCounts(s, i);
    } else {
      var active := s.table[i].thread.activeOnCpu;
      TableKeeps(s.table, s.taskCount, i, Empty);
      if active != -1 && recorded != active {
        assert t.cpus[active] == i;
      } else if recorded != -1 && recorded != active && s.cpus[recorded] != -1 {
        assert t.table[s.cpus[recorded]].Live? && t.table[s.cpus[recorded]].thread.activeOnCpu == recorded;
      }
    }
  }

  // A thread that is not there must not be counted off.
  lemma EmptyCounts(s: State, i: nat)
    requires Ok(s) && i < |s.table| && !s.table[i].Live?
    ensures !TableOk(s.table[i := Empty], s.taskCount - 1)
  {
    CountUpdate(s.table, i, Empty);
  }

  // The code notes the CPU before it waits for the thread to leave a system call.  If CPU `c` picks
  // the thread up during that wait, the kill frees a thread that CPU `c` is still running.
  lemma KillAfterWaitCanBreak(s: State, c: nat, t: State, i: nat)
    requires Ok(s) && ReschedStep(s, c, t) && i < |s.table| && s.table[i].Live?
    requires s.table[i].thread.activeOnCpu == -1 && t.cpus[c] == i
    ensures |t.table| == |s.table| && |t.cpus| == |s.cpus| && !Ok(Killed(t, i, -1))
    ensures t.cpus[c] == i && Killed(t, i, -1).table[i].Empty? && Killed(t, i, -1).cpus[c] == i
  {
    ReschedKeeps(s, c, t);
    ReleaseKeeps(s, c);
    assert t.table[i].Live? && t.table[i].thread.activeOnCpu == c;
    KillExact(t, i, -1);
  }

  lemma StepKeeps(s: State, t: State)
    requires Ok(s) && Step(s, t)
    ensures Ok(t)
  {
    hide Ok, ReschedStep, EnvStep;
    if EnvStep(s, t) {
      EnvKeeps(s, t);
    } else if c: nat :| ReschedStep(s, c, t) {
      ReschedKeeps(s, c, t);
    } else if i: nat :| FirstFree(s.table, i) && t == s.(table := s.table[i := Reserved]) {
      FreeIsFree(s.table, i);
      FillKeeps(s, i, Reserved);
    } else if i: nat, slot: Slot :|
      i < |s.table| && s.table[i].Reserved? && slot in {Empty, Live(FRESH)}
      && t == s.(table := s.table[i := slot], taskCount := s.taskCount + if slot.Live? then 1 else 0)
    {
      FillKeeps(s, i, slot);
    } else if i: nat :|
      FirstFree(s.table, i) && t == s.(table := s.table[i := Live(FRESH)], taskCount := s.taskCount + 1)
    {
      FreeIsFree(s.table, i);
      FillKeeps(s, i, Live(FRESH));
    } else {
      var i: nat :|
        i < |s.table| && s.table[i].Live? && -1 <= s.table[i].thread.activeOnCpu < |s.cpus|
        && t == Killed(s, i, s.table[i].thread.activeOnCpu);
      KillExact(s, i, s.table[i].thread.activeOnCpu);
    }
  }

  lemma FreeIsFree(table: seq<Slot>, i: nat)
    requires FirstFree(table, i)
    ensures i < |table| && !table[i].Live?
  {
  }

  // Every state of every run is good: used slots form a prefix, `taskCount` counts the threads,
  // and each lock is held exactly by the one CPU that runs the thread.
  lemma {:induction false} RunKeepsOk(run: seq<State>, n: nat)
    requires n < |run| && Ok(run[0])
    requires forall k :: 0 <= k < |run| - 1 ==> Step(run[k], run[k + 1])
    ensures Ok(run[n])
  {
    hide Ok, Step;
    if n > 0 {
      RunKeepsOk(run, n - 1);
      StepKeeps(run[n - 1], run[n]);
    }
  }

  // ---------- kills that wait ----------

  // The scheduler, and for each slot whose kill is waiting the CPU that was noted.
  datatype Waiting = Waiting(s: State, noted: map<nat, int>)

  // A kill that waits notes the CPU, and later frees the thread; everything else goes on in between.
  datatype KillOp = Other | Note(i: nat) | Finish(i: nat)

  ghost predicate WaitStep(x: Waiting, op: KillOp, y: Waiting) {
    match op
    case Other => Step(x.s, y.s) && y.noted == x.noted
    case Note(i) =>
      && i < |x.s.table| && x.s.table[i].Live? && EnvStep(x.s, y.s)
      && y.noted == x.noted[i := x.s.table[i].thread.activeOnCpu]
    case Finish(i) =>
      && i in x.noted && i < |x.s.table| && -1 <= x.noted[i] < |x.s.cpus|
      && y.s == Killed(x.s, i, x.noted[i]) && y.noted == x.noted - {i}
  }

  // What was noted for the thread is still right when it is freed.
  ghost predicate StillSafe(x: Waiting, op: KillOp) {
    op.Finish? ==> op.i in x.noted && KillSafe(x.s, op.i, x.noted[op.i])
  }

  lemma WaitStepExact(x: Waiting, op: KillOp, y: Waiting)
    requires Ok(x.s) && WaitStep(x, op, y)
    ensures Ok(y.s) <==> StillSafe(x, op)
  {
    hide Ok, Step, EnvStep, Killed;
    if op.Other? {
      StepKeeps(x.s, y.s);
    } else if op.Note? {
      EnvKeeps(x.s, y.s);
    } else {
      KillExact(x.s, op.i, x.noted[op.i]);
    }
  }

  // Over every run, however kills and all other steps interleave: the invariant holds throughout
  // exactly if every kill that waited is still safe when it frees the thread.
  lemma {:induction false} WaitingKills(run: seq<Waiting>, ops: seq<KillOp>)
    requires |run| == |ops| + 1 && Ok(run[0].s)
    requires forall k :: 0 <= k < |ops| ==> WaitStep(run[k], ops[k], run[k + 1])
    ensures (forall k :: 0 <= k < |run| ==> Ok(run[k].s))
            <==> (forall k :: 0 <= k < |ops| ==> StillSafe(run[k], ops[k]))
    decreases |ops|
  {
    hide Ok, WaitStep, StillSafe;
    if ops != [] {
      var n := |ops| - 1;
      WaitingKills(run[..n + 1], ops[..n]);
      if Ok(run[n].s) {
        WaitStepExact(run[n], ops[n], run[n + 1]);
      }
    }
  }

  // ---------- fairness ----------

  // The live slots a search from `start` passes before slot `t`.
  function Ahead(table: seq<Slot>, start: nat, t: nat): nat
    requires start <= |table| && t < |table|
  {
    if t >= start then Count(table, start, t) else Count(table, start, |table|) + Count(table, 0, t)
  }

  lemma AheadBound(table: seq<Slot>, start: nat, t: nat)
    requires start <= |table| && t < |table| && table[t].Live?
    ensures Ahead(table, start, t) < Count(table, 0, |table|)
  {
    CountOne(table, 0, t, |table|);
    if t >= start {
      CountSplit(table, 0, start, t);
    } else {
      CountSplit(table, t + 1, start, |table|);
    }
  }

  // Choosing another thread first brings the search strictly closer to `t`.
  lemma AheadDrops(table: seq<Slot>, start: nat, p: nat, t: nat)
    requires |table| == MAX_TASKS && start < |table| && t < |table| && p < |table| && p != t && table[p].Live?
    requires Distance(start, p) <= Distance(start, t)
    ensures Ahead(table, p + 1, t) < Ahead(table, start, t)
  {
    if t >= start {
      CountOne(table, start, p, t);
    } else if p >= start {
      CountOne(table, start, p, |table|);
    } else {
      CountOne(table, 0, p, t);
    }
  }

  // One CPU's reschedules: the r-th sees `seen[r]` and moves the CPU from `cur[r]` to `cur[r + 1]`.
  ghost predicate Reschedules(seen: seq<State>, cur: seq<int>) {
    && |cur| == |seen| + 1 && -1 <= cur[0] < MAX_TASKS - 1
    && (forall r :: 0 <= r < |seen| ==>
          |seen[r].table| == MAX_TASKS && IsNext(seen[r].table, seen[r].events, seen[r].uptime, cur[r], cur[r + 1]))
    && (forall r, i :: 0 <= r < |seen| && 0 <= i < MAX_TASKS ==>
          (seen[r].table[i].Live? <==> seen[0].table[i].Live?))
  }

  // With a fixed set of threads, a thread that is eligible at every reschedule of a CPU is chosen
  // within as many reschedules as there are threads.
  lemma Fair(seen: seq<State>, cur: seq<int>, t: nat) returns (r: nat)
    requires Reschedules(seen, cur) && t < MAX_TASKS && |seen| > 0
    requires forall r :: 0 <= r < |seen| ==> Eligible(seen[r].table[t], seen[r].events, seen[r].uptime)
    requires !seen[0].table[MAX_TASKS - 1].Live?
    requires |seen| >= Count(seen[0].table, 0, MAX_TASKS)
    ensures r < Count(seen[0].table, 0, MAX_TASKS) && cur[r + 1] == t
  {
    AheadBound(seen[0].table, ScanStart(cur[0]), t);
    r := FairFrom(seen, cur, t, 0);
  }

  lemma {:induction false} FairFrom(seen: seq<State>, cur: seq<int>, t: nat, k: nat) returns (r: nat)
    requires Reschedules(seen, cur) && t < MAX_TASKS && k < |seen|
    requires forall r :: 0 <= r < |seen| ==> Eligible(seen[r].table[t], seen[r].events, seen[r].uptime)
    requires !seen[0].table[MAX_TASKS - 1].Live? && -1 <= cur[k] < MAX_TASKS - 1
    requires k + Ahead(seen[0].table, ScanStart(cur[k]), t) < |seen|
    ensures k <= r <= k + Ahead(seen[0].table, ScanStart(cur[k]), t) && r < |seen| && cur[r + 1] == t
    decreases |seen| - k
  {
    var p := cur[k + 1];
    assert IsNext(seen[k].table, seen[k].events, seen[k].uptime, cur[k], p);
    assert Eligible(seen[k].table[t], seen[k].events, seen[k].uptime);
    assert seen[k].table[p].Live? && seen[0].table[p].Live?;
    if p == t {
      r := k;
    } else {
      AheadDrops(seen[0].table, ScanStart(cur[k]), p, t);
      r := FairFrom(seen, cur, t, k + 1);
    }
  }

  // ---------- fairness over runs ----------

  ghost predicate SameThreads(s: State, t: State) {
    |t.table| == |s.table| && forall i :: 0 <= i < |s.table| ==> (t.table[i].Live? <==> s.table[i].Live?)
  }

  // A run in which no thread is made or killed.
  ghost predicate FixedRun(run: seq<State>) {
    && run != [] && Ok(run[0])
    && forall k :: 0 <= k < |run| - 1 ==> Step(run[k], run[k + 1]) && SameThreads(run[k], run[k + 1])
  }

  // The reschedules of CPU `c` in the run, all of them between the first and the last.
  ghost predicate RescheduledAt(run: seq<State>, c: nat, at: seq<nat>) {
    && (forall r :: 0 <= r < |at| ==> at[r] < |run| - 1 && ReschedStep(run[at[r]], c, run[at[r] + 1]))
    && (forall r :: 0 <= r < |at| - 1 ==> at[r] < at[r + 1])
    && (forall r, k :: 0 <= r < |at| - 1 && at[r] < k < at[r + 1] && k < |run| - 1 ==> !ReschedStep(run[k], c, run[k + 1]))
  }

  lemma {:induction false} FixedState(run: seq<State>, k: nat)
    requires FixedRun(run) && k < |run|
    ensures Ok(run[k]) && SameThreads(run[0], run[k]) && |run[k].table| == MAX_TASKS
    decreases k
  {
    hide Ok, Step;
    if k > 0 {
      FixedState(run, k - 1);
      StepKeeps(run[k - 1], run[k]);
    } else {
      OkLength(run[0]);
    }
  }

  lemma OkLength(s: State)
    requires Ok(s)
    ensures |s.table| == MAX_TASKS
  {
  }

  // Only its own reschedules change what a CPU runs, as long as no thread is killed.
  lemma StepOther(s: State, t: State, c: nat)
    requires Step(s, t) && SameThreads(s, t) && !ReschedStep(s, c, t)
    ensures |t.cpus| == |s.cpus| && (c < |s.cpus| ==> t.cpus[c] == s.cpus[c])
  {
    hide ReschedStep, FirstFree, Killed;
    forall i: nat | i < |s.table| && s.table[i].Live? && -1 <= s.table[i].thread.activeOnCpu < |s.cpus|
      ensures t != Killed(s, i, s.table[i].thread.activeOnCpu)
    {
      KillEnds(s, t, i);
    }
    if d: nat :| ReschedStep(s, d, t) {
      ReschedOther(s, d, t);
    }
  }

  lemma KillEnds(s: State, t: State, i: nat)
    requires SameThreads(s, t) && i < |s.table| && s.table[i].Live? && -1 <= s.table[i].thread.activeOnCpu < |s.cpus|
    ensures t != Killed(s, i, s.table[i].thread.activeOnCpu)
  {
    assert Killed(s, i, s.table[i].thread.activeOnCpu).table[i] == Empty;
  }

  lemma ReschedOther(s: State, d: nat, t: State)
    requires ReschedStep(s, d, t)
    ensures |t.cpus| == |s.cpus| && forall c :: 0 <= c < |s.cpus| && c != d ==> t.cpus[c] == s.cpus[c]
  {
    hide IsNext;
  }

  lemma {:induction false} BetweenReschedules(run: seq<State>, c: nat, i: nat, j: nat)
    requires FixedRun(run) && i <= j < |run| && forall k :: i <= k < j ==> !ReschedStep(run[k], c, run[k + 1])
    ensures |run[j].cpus| == |run[i].cpus| && (c < |run[i].cpus| ==> run[j].cpus[c] == run[i].cpus[c])
    decreases j - i
  {
    hide Step, ReschedStep, Ok;
    if i < j {
      BetweenReschedules(run, c, i, j - 1);
      StepOther(run[j - 1], run[j], c);
    }
  }

  // A reschedule of a CPU picks the next task after the one it ran.
  lemma ReschedPicks(s: State, c: nat, t: State)
    requires Ok(s) && ReschedStep(s, c, t)
    ensures c < |s.cpus| == |t.cpus|
    ensures IsNext(Released(s, c).table, s.events, s.uptime, s.cpus[c], t.cpus[c])
    ensures SameThreads(s, Released(s, c)) && Released(s, c).events == s.events && Released(s, c).uptime == s.uptime
  {
    hide IsNext, Eligible;
    ReleaseKeeps(s, c);
  }

  ghost predicate RescheduledIn(run: seq<State>, c: nat, at: seq<nat>) {
    forall r :: 0 <= r < |at| ==> at[r] < |run| - 1 && c < |run[at[r]].cpus| == |run[at[r] + 1].cpus|
  }

  // What the CPU's reschedules see, and what it runs before, between and after them.
  ghost function SeenBy(run: seq<State>, c: nat, at: seq<nat>): seq<State>
    requires RescheduledIn(run, c, at)
  {
    seq(|at|, r requires 0 <= r < |at| => Released(run[at[r]], c))
  }

  ghost function RunBy(run: seq<State>, c: nat, at: seq<nat>): seq<int>
    requires RescheduledIn(run, c, at) && at != []
  {
    [run[at[0]].cpus[c]] + seq(|at|, r requires 0 <= r < |at| => run[at[r] + 1].cpus[c])
  }

  lemma InRun(run: seq<State>, c: nat, at: seq<nat>)
    requires FixedRun(run) && RescheduledAt(run, c, at)
    ensures RescheduledIn(run, c, at)
  {
    hide Ok, Step, ReschedStep;
    forall r | 0 <= r < |at|
      ensures at[r] < |run| - 1 && c < |run[at[r]].cpus| == |run[at[r] + 1].cpus|
    {
      FixedState(run, at[r]);
      ReschedPicks(run[at[r]], c, run[at[r] + 1]);
    }
  }

  // The reschedules of a CPU in a run of the scheduler are what the fairness argument is about.
  lemma RunReschedules(run: seq<State>, c: nat, at: seq<nat>)
    requires FixedRun(run) && RescheduledAt(run, c, at) && at != [] && !run[0].table[MAX_TASKS - 1].Live?
    requires |run[0].table| == MAX_TASKS
    ensures RescheduledIn(run, c, at) && Reschedules(SeenBy(run, c, at), RunBy(run, c, at))
  {
    hide FixedRun, ReschedStep, IsNext, RescheduledAt, Ok, SameThreads, Released;
    InRun(run, c, at);
    var seen, cur := SeenBy(run, c, at), RunBy(run, c, at);
    FirstCurrent(run, c, at);
    forall r | 0 <= r < |seen|
      ensures |seen[r].table| == MAX_TASKS && IsNext(seen[r].table, seen[r].events, seen[r].uptime, cur[r], cur[r + 1])
      ensures SameThreads(run[0], seen[r])
    {
      OneReschedule(run, c, at, r);
    }
    SameAll(run[0], seen);
  }

  lemma FirstCurrent(run: seq<State>, c: nat, at: seq<nat>)
    requires FixedRun(run) && RescheduledIn(run, c, at) && at != [] && |run[0].table| == MAX_TASKS
    requires !run[0].table[MAX_TASKS - 1].Live?
    ensures -1 <= run[at[0]].cpus[c] < MAX_TASKS - 1
  {
    hide Step, TableOk, EventsOk;
    FixedState(run, at[0]);
  }

  lemma OneReschedule(run: seq<State>, c: nat, at: seq<nat>, r: nat)
    requires FixedRun(run) && RescheduledAt(run, c, at) && RescheduledIn(run, c, at) && r < |at|
    ensures var s, cur := Released(run[at[r]], c), RunBy(run, c, at);
            && |s.table| == MAX_TASKS && IsNext(s.table, s.events, s.uptime, cur[r], cur[r + 1])
            && SameThreads(run[0], s)
  {
    hide FixedRun, ReschedStep, IsNext, Ok, Released, SameThreads;
    FixedState(run, at[r]);
    ReschedPicks(run[at[r]], c, run[at[r] + 1]);
    SameThreadsTwice(run[0], run[at[r]], Released(run[at[r]], c));
    if r > 0 {
      var i: nat, j: nat := at[r - 1] + 1, at[r];
      forall k | i <= k < j
        ensures !ReschedStep(run[k], c, run[k + 1])
      {
        assert at[r - 1] < k < at[(r - 1) + 1];
      }
      BetweenReschedules(run, c, i, j);
    }
  }

  lemma SameThreadsTwice(s: State, t: State, u: State)
    requires SameThreads(s, t) && SameThreads(t, u)
    ensures SameThreads(s, u) && |u.table| == |t.table|
  {
  }

  lemma SameAll(s: State, seen: seq<State>)
    requires |s.table| == MAX_TASKS && forall r :: 0 <= r < |seen| ==> SameThreads(s, seen[r])
    ensures forall r :: 0 <= r < |seen| ==> |seen[r].table| == MAX_TASKS
    ensures forall r, i :: 0 <= r < |seen| && 0 <= i < MAX_TASKS ==> (seen[r].table[i].Live? <==> seen[0].table[i].Live?)
  {
  }

  // In every run of the scheduler with a fixed set of threads, a thread that is eligible whenever the
  // CPU reschedules is run by it after as many reschedules as there are threads, at the latest.
  lemma FairRun(run: seq<State>, c: nat, at: seq<nat>, t: nat) returns (r: nat)
    requires FixedRun(run) && RescheduledAt(run, c, at) && t < MAX_TASKS == |run[0].table|
    requires !run[0].table[MAX_TASKS - 1].Live? && 0 < Count(run[0].table, 0, MAX_TASKS) <= |at|
    requires forall r :: 0 <= r < |at| && c < |run[at[r]].cpus| && t < |Released(run[at[r]], c).table| ==>
               Eligible(Released(run[at[r]], c).table[t], run[at[r]].events, run[at[r]].uptime)
    ensures r < Count(run[0].table, 0, MAX_TASKS)
    ensures at[r] + 1 < |run| && c < |run[at[r] + 1].cpus| && run[at[r] + 1].cpus[c] == t
  {
    hide FixedRun, RescheduledAt, Eligible, IsNext, Released;
    RunReschedules(run, c, at);
    var seen, cur := SeenBy(run, c, at), RunBy(run, c, at);
    CountOfSeen(run, c, at);
    assert forall r :: 0 <= r < |seen| ==> Eligible(seen[r].table[t], seen[r].events, seen[r].uptime) by {
      SeenEvents(run, c, at);
    }
    r := Fair(seen, cur, t);
  }

  lemma SeenEvents(run: seq<State>, c: nat, at: seq<nat>)
    requires RescheduledIn(run, c, at)
    ensures forall r :: 0 <= r < |at| ==>
              && Released(run[at[r]], c).events == run[at[r]].events
              && Released(run[at[r]], c).uptime == run[at[r]].uptime
  {
  }

  lemma CountOfSeen(run: seq<State>, c: nat, at: seq<nat>)
    requires FixedRun(run) && RescheduledAt(run, c, at) && RescheduledIn(run, c, at) && at != [] && |run[0].table| == MAX_TASKS
    ensures |Released(run[at[0]], c).table| == MAX_TASKS
    ensures Count(Released(run[at[0]], c).table, 0, MAX_TASKS) == Count(run[0].table, 0, MAX_TASKS)
    ensures Released(run[at[0]], c).table[MAX_TASKS - 1].Live? <==> run[0].table[MAX_TASKS - 1].Live?
  {
    hide FixedRun, RescheduledAt, Released;
    OneReschedule(run, c, at, 0);
    CountSame(run[0].table, Released(run[at[0]], c).table, 0, MAX_TASKS);
  }

  // ---------- the code ----------

  class Scheduler {
    var table: seq<Slot>
    var taskCount: int
    var cpus: seq<int>
    var events: seq<int>
    var uptime: nat

    ghost function St(): State
      reads this
    {
      State(table, taskCount, cpus, events, uptime)
    }

    // No task yet and every CPU idle; `n` events exist.
    constructor (processors: nat, n: nat)
      ensures Ok(St()) && |cpus| == processors
    {
      table := seq(MAX_TASKS, _ => Null);
      taskCount, uptime := 0, 0;
      cpus := seq(processors, _ => -1);
      events := seq(n, _ => 0);
      new;
      NoneLive(table, 0, |table|);
      assert UsedPrefix(table, 0);
    }

    // The scan for the next task.  The index after `current` must be in the table.
    method TaskGetNext(current: int) returns (r: int)
      requires TableOk(table, taskCount) && EventsOk(table, events) && -1 <= current < MAX_TASKS - 1
      modifies this`table, this`events
      ensures IsNext(old(table), old(events), uptime, current, r)
      ensures St() == if r == -1 then old(St()) else Taken(old(St()), r)
    {
      hide TableOk, SearchOk, EventsOk, Distance, IsNext;
      TableLength(table, taskCount);
      var cur: nat := if current != -1 then current + 1 else 0;
      ghost var start, wrapped := cur, false;
      var i := 0;
      SearchStarts(St(), start);
      while i < taskCount
        invariant cur < |table| && St() == old(St())
        invariant SearchOk(St(), start, cur, wrapped, i)
        decreases !wrapped, |table| - cur
      {
        if table[cur].Null? {
          SearchRewinds(St(), start, cur, wrapped, i);
          cur, wrapped := 0, true;
        }
        var slot := table[cur];
        if slot.Live? {
          if Eligible(slot, events, uptime) {
            SearchFinds(St(), current, cur, wrapped, i);
            r := cur;
            TakeCurrent(cur);
            return;
          }
          i := i + 1;
        }
        SearchPasses(St(), start, cur, wrapped, if slot.Live? then i - 1 else i);
        cur := cur + 1;
        if cur == MAX_TASKS {
          cur, wrapped := 0, true;
        }
      }
      SearchEnds(St(), current, cur, wrapped, i);
      return -1;
    }

    method TakeCurrent(cur: nat)
      requires cur < |table| && Eligible(table[cur], events, uptime)
      modifies this`table, this`events
      ensures St() == Taken(old(St()), cur)
    {
      var th := table[cur].thread.(locked := true);
      if th.event.Some? && !th.eventAbrt {
        events := events[th.event.value := events[th.event.value] - 1];
        th := th.(event := None);
      }
      table := table[cur := Live(th)];
    }

    // A reschedule of CPU `c`: give up the current thread, choose the next, run it or idle.
    method TaskResched(c: nat)
      requires Ok(St()) && c < |cpus| && cpus[c] != MAX_TASKS - 1
      modifies this
      ensures ReschedStep(old(St()), c, St()) && Ok(St())
    {
      ghost var s := St();
      var current := cpus[c];
      ReleaseKeeps(s, c);
      if current != -1 {
        table := table[current := Live(table[current].thread.(activeOnCpu := -1, locked := false))];
      }
      cpus := cpus[c := -1];
      assert St() == Released(s, c);
      var next := TaskGetNext(current);
      if next != -1 {
        RunKeeps(Released(s, c), c, next);
        cpus := cpus[c := next];
        table := table[next := Live(table[next].thread.(activeOnCpu := c))];
      }
    }

    method FindFree() returns (i: int)
      ensures i == -1 ==> forall j :: 0 <= j < |table| ==> !table[j].Null? && !table[j].Empty?
      ensures i != -1 ==> 0 <= i && FirstFree(table, i)
    {
      i := 0;
      while i < |table|
        invariant 0 <= i <= |table|
        invariant forall j :: 0 <= j < i ==> !table[j].Null? && !table[j].Empty?
      {
        if table[i].Null? || table[i].Empty? {
          return;
        }
        i := i + 1;
      }
      i := -1;
    }

    // The first part of `task_tcreate`: reserve a slot; -1 if the table is full.
    method Reserve() returns (i: int)
      requires Ok(St())
      modifies this`table
      ensures Ok(St()) && (i == -1 ==> St() == old(St()))
      ensures i != -1 ==> 0 <= i && FirstFree(old(table), i) && table == old(table)[i := Reserved] && Step(old(St()), St())
    {
      i := FindFree();
      if i != -1 {
        FillKeeps(St(), i, Reserved);
        table := table[i := Reserved];
      }
    }

    // Its second part: enable the new thread, or give the slot up if an allocation failed.
    method Enable(i: nat, gotMemory: bool)
      requires Ok(St()) && i < |table| && table[i].Reserved?
      modifies this`table, this`taskCount
      ensures Ok(St()) && Step(old(St()), St())
      ensures table == old(table)[i := if gotMemory then Live(FRESH) else Empty]
    {
      ghost var s, slot := St(), if gotMemory then Live(FRESH) else Empty;
      FillKeeps(s, i, slot);
      if gotMemory {
        table := table[i := Live(FRESH)];
        taskCount := taskCount + 1;
      } else {
        table := table[i := Empty];
      }
      assert St() == s.(table := s.table[i := slot], taskCount := s.taskCount + if slot.Live? then 1 else 0);
    }

    // What `syscall_fork` does to the table.  The code takes a free slot for granted.
    method Fork() returns (i: int)
      requires Ok(St()) && exists j :: 0 <= j < |table| && (table[j].Null? || table[j].Empty?)
      modifies this`table, this`taskCount
      ensures Ok(St()) && Step(old(St()), St())
      ensures 0 <= i && FirstFree(old(table), i) && table == old(table)[i := Live(FRESH)]
    {
      hide Ok, EnvStep, ReschedStep, FirstFree;
      i := FindFree();
      FreeIsFree(table, i);
      ghost var t := St();
      FillKeeps(t, i, Live(FRESH));
      table := table[i := Live(FRESH)];
      taskCount := taskCount + 1;
      assert St() == t.(table := t.table[i := Live(FRESH)], taskCount := t.taskCount + 1);
    }

    // `task_tkill` with the CPU noted before the wait.
    method TaskTkill(i: nat, recorded: int)
      requires Ok(St()) && i < |table| && -1 <= recorded < |cpus|
      modifies this`table, this`taskCount, this`cpus
      ensures St() == Killed(old(St()), i, recorded)
      ensures Ok(St()) <==> KillSafe(old(St()), i, recorded)
    {
      KillExact(St(), i, recorded);
      if recorded != -1 {
        cpus := cpus[recorded := -1];
      }
      table := table[i := Empty];
      taskCount := taskCount - 1;
    }
  }

  lemma {:induction false} NoneLive(table: seq<Slot>, lo: nat, hi: nat)
    requires lo <= hi <= |table| && forall i :: lo <= i < hi ==> !table[i].Live?
    ensures Count(table, lo, hi) == 0
    decreases hi - lo
  {
    if lo < hi {
      NoneLive(table, lo, hi - 1);
    }
  }

  lemma {:induction false} CountZero(table: seq<Slot>, lo: nat, hi: nat)
    requires lo <= hi <= |table| && Count(table, lo, hi) == 0
    ensures forall i :: lo <= i < hi ==> !table[i].Live?
    decreases hi - lo
  {
    if lo < hi {
      CountZero(table, lo, hi - 1);
    }
  }

  // How many slots a search has gone past.
  function Passed(start: int, cur: int, wrapped: bool): int {
    if wrapped then cur - start + MAX_TASKS else cur - start
  }

  // A search that began at `start` stands at `cur`, has met `i` threads, each once, and none of
  // them was eligible.
  ghost predicate SearchOk(s: State, start: nat, cur: nat, wrapped: bool, i: int) {
    && |s.table| == MAX_TASKS && start < |s.table| && cur < |s.table|
    && (if wrapped then cur <= start else start <= cur)
    && i == (if wrapped then Count(s.table, start, |s.table|) + Count(s.table, 0, cur) else Count(s.table, start, cur))
    && forall x :: 0 <= x < |s.table| && Distance(start, x) < Passed(start, cur, wrapped) ==>
         !Eligible(s.table[x], s.events, s.uptime)
  }

  lemma SearchStarts(s: State, start: nat)
    requires |s.table| == MAX_TASKS && start < MAX_TASKS
    ensures SearchOk(s, start, start, false, 0)
  {
  }

  // Past the used slots there is nothing more to meet.
  lemma SearchRewinds(s: State, start: nat, cur: nat, wrapped: bool, i: int)
    requires SearchOk(s, start, cur, wrapped, i) && TableOk(s.table, s.taskCount) && s.table[cur].Null?
    requires i < s.taskCount
    ensures !wrapped && SearchOk(s, start, 0, true, i)
  {
    NothingAfterNull(s.table, s.taskCount, cur);
    CountSplit(s.table, 0, cur, |s.table|);
    if !wrapped {
      CountSplit(s.table, start, cur, |s.table|);
    }
  }

  lemma SearchPasses(s: State, start: nat, cur: nat, wrapped: bool, i: int)
    requires SearchOk(s, start, cur, wrapped, i) && TableOk(s.table, s.taskCount) && i < s.taskCount
    requires !Eligible(s.table[cur], s.events, s.uptime)
    ensures var j := if s.table[cur].Live? then i + 1 else i;
            if cur + 1 == MAX_TASKS then !wrapped && SearchOk(s, start, 0, true, j)
            else SearchOk(s, start, cur + 1, wrapped, j)
  {
    hide Eligible, TableOk, Count;
    TableLength(s.table, s.taskCount);
    CountSplit(s.table, 0, start, |s.table|);
    CountNext(s.table, start, cur);
    CountNext(s.table, 0, cur);
    assert wrapped ==> cur < start;
    forall x | 0 <= x < |s.table| && Distance(start, x) < Passed(start, cur, wrapped) + 1
      ensures !Eligible(s.table[x], s.events, s.uptime)
    {
      assert Distance(start, x) < Passed(start, cur, wrapped) || x == cur;
    }
  }

  lemma CountNext(table: seq<Slot>, lo: nat, cur: nat)
    requires lo <= |table| && cur < |table|
    ensures lo <= cur ==> Count(table, lo, cur + 1) == Count(table, lo, cur) + if table[cur].Live? then 1 else 0
    ensures Count(table, 0, 0) == 0 && Count(table, lo, lo) == 0
  {
  }

  lemma SearchFinds(s: State, current: int, cur: nat, wrapped: bool, i: int)
    requires -1 <= current < MAX_TASKS - 1 && SearchOk(s, ScanStart(current), cur, wrapped, i)
    requires TableOk(s.table, s.taskCount) && i < s.taskCount
    requires Eligible(s.table[cur], s.events, s.uptime)
    ensures IsNext(s.table, s.events, s.uptime, current, cur)
  {
    CountSplit(s.table, 0, ScanStart(current), |s.table|);
  }

  // A search that has met as many threads as there are has passed them all.
  lemma SearchEnds(s: State, current: int, cur: nat, wrapped: bool, i: int)
    requires -1 <= current < MAX_TASKS - 1 && SearchOk(s, ScanStart(current), cur, wrapped, i)
    requires TableOk(s.table, s.taskCount) && i >= s.taskCount
    ensures IsNext(s.table, s.events, s.uptime, current, -1)
  {
    var start := ScanStart(current);
    CountSplit(s.table, 0, start, |s.table|);
    if wrapped {
      CountSplit(s.table, 0, cur, start);
      CountZero(s.table, cur, start);
    } else {
      CountSplit(s.table, start, cur, |s.table|);
      CountZero(s.table, 0, start);
      CountZero(s.table, cur, |s.table|);
    }
  }

  lemma NothingAfterNull(table: seq<Slot>, taskCount: int, cur: nat)
    requires TableOk(table, taskCount) && cur < |table| && table[cur].Null?
    ensures Count(table, cur, |table|) == 0
    ensures forall i :: cur <= i < |table| ==> !table[i].Live?
  {
    var n: nat :| UsedPrefix(table, n);
    NoneLive(table, cur, |table|);
  }
}
