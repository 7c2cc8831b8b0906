// What a reschedule does, in the fields of the threads: which threads may be chosen, which are passed
// over, and what changes in the table.

module SchedLaws {
  import opened Options
  import opened Sched

  // A thread that sleeps, is paused, is held by a CPU, or waits for an event that nobody triggered and
  // was not told to stop waiting, is never chosen.
  lemma NeverChosen(table: seq<Slot>, events: seq<int>, uptime: nat, current: int, r: int)
    requires IsNext(table, events, uptime, current, r) && 0 <= r < |table|
    ensures table[r].Live?
    ensures var th := table[r].thread;
            && th.yieldTarget <= uptime && !th.paused && !th.locked
            && (th.event.Some? && !th.eventAbrt ==> th.event.value < |events| && events[th.event.value] != 0)
  {
  }

  // With no choice, every thread is in one of those states.
  lemma IdleOnlyIfAllBlocked(table: seq<Slot>, events: seq<int>, uptime: nat, current: int, x: nat)
    requires EventsOk(table, events) && IsNext(table, events, uptime, current, -1) && x < |table| && table[x].Live?
    ensures var th := table[x].thread;
            || uptime < th.yieldTarget || th.paused || th.locked
            || (th.event.Some? && !th.eventAbrt && events[th.event.value] == 0)
  {
  }

  // A thread just created is chosen at every time if it is the only one.
  lemma FreshIsChosen(table: seq<Slot>, events: seq<int>, uptime: nat, current: int, x: nat, r: int)
    requires x < |table| && table[x] == Live(FRESH) && forall y :: 0 <= y < |table| && y != x ==> !table[y].Live?
    requires IsNext(table, events, uptime, current, r)
    ensures r == x
    ensures FRESH.yieldTarget == 0 && !FRESH.locked && !FRESH.paused && FRESH.event == None && FRESH.activeOnCpu == -1
  {
    assert Eligible(table[x], events, uptime);
  }

  // A thread that wakes up is chosen at every later time if it is the only one; before, none is.
  lemma SleeperWakes(table: seq<Slot>, events: seq<int>, uptime: nat, current: int, x: nat, until: nat, r: int)
    requires x < |table| && table[x] == Live(FRESH.(yieldTarget := until))
    requires forall y :: 0 <= y < |table| && y != x ==> !table[y].Live?
    requires IsNext(table, events, uptime, current, r)
    ensures r == if until <= uptime then x else -1
  {
    assert Eligible(table[x], events, uptime) <==> until <= uptime;
  }

  // A thread that waits is chosen, if it is the only one, exactly after a trigger or an abort.
  lemma WaiterWakes(table: seq<Slot>, events: seq<int>, uptime: nat, current: int, x: nat, e: nat, abrt: bool, r: int)
    requires x < |table| && table[x] == Live(FRESH.(event := Some(e), eventAbrt := abrt)) && e < |events|
    requires forall y :: 0 <= y < |table| && y != x ==> !table[y].Live?
    requires IsNext(table, events, uptime, current, r)
    ensures r == if abrt || events[e] != 0 then x else -1
  {
    assert Eligible(table[x], events, uptime) <==> abrt || events[e] != 0;
  }

  // Time alone never makes the scheduler idle.
  lemma TimePasses(table: seq<Slot>, events: seq<int>, uptime: nat, later: nat, current: int, r: int, q: int)
    requires uptime <= later && IsNext(table, events, uptime, current, r) && r != -1
    requires IsNext(table, events, later, current, q)
    ensures q != -1
  {
    assert Eligible(table[r], events, later);
  }

  // No thread between the current one and the choice, going up and around, could have been chosen.
  lemma NobodyIsSkipped(table: seq<Slot>, events: seq<int>, uptime: nat, current: int, r: nat, x: nat)
    requires |table| == MAX_TASKS && -1 <= current < MAX_TASKS && EventsOk(table, events)
    requires IsNext(table, events, uptime, current, r) && x < |table| && table[x].Live?
    requires if current < r then current < x < r else current < x || x < r
    ensures var th := table[x].thread;
            || uptime < th.yieldTarget || th.paused || th.locked
            || (th.event.Some? && !th.eventAbrt && events[th.event.value] == 0)
  {
    assert Distance(ScanStart(current), x) < Distance(ScanStart(current), r);
  }

  // Letting go writes the slot of the current thread only.
  lemma ReleaseChanges(s: State, c: nat)
    requires Ok(s) && c < |s.cpus|
    ensures var t := Released(s, c);
            && t.events == s.events && t.uptime == s.uptime && t.taskCount == s.taskCount && t.cpus == s.cpus[c := -1]
            && (s.cpus[c] == -1 ==> t.table == s.table)
            && (s.cpus[c] != -1 ==>
                  && 0 <= s.cpus[c] < |s.table| && s.table[s.cpus[c]].Live? && s.table[s.cpus[c]].thread.locked
                  && t.table == s.table[s.cpus[c] :=
                       Live(s.table[s.cpus[c]].thread.(locked := false, activeOnCpu := -1))])
  {
    hide TableOk, EventsOk;
  }

  // Taking and running a thread writes its slot and one event: its lock is taken, and if it waited and
  // was not told to stop, it waits no more and has used up one trigger.
  lemma TakeChanges(s: State, c: nat, r: nat)
    requires c < |s.cpus| && r < |s.table| && Eligible(s.table[r], s.events, s.uptime)
    ensures var t := Running(Taken(s, r), c, r);
            var th := s.table[r].thread;
            var waits := th.event.Some? && !th.eventAbrt;
            && t.uptime == s.uptime && t.taskCount == s.taskCount && t.cpus == s.cpus[c := r]
            && th.yieldTarget <= s.uptime && !th.locked && !th.paused
            && t.table == s.table[r := Live(Thread(true, c, false, th.yieldTarget, if waits then None else th.event, th.eventAbrt))]
            && (!waits ==> t.events == s.events)
            && (waits ==> th.event.value < |s.events| && s.events[th.event.value] != 0
                          && t.events == s.events[th.event.value := s.events[th.event.value] - 1])
  {
  }

  // A reschedule of CPU `c` writes at most two slots: it lets the current thread go, and takes the
  // next one with one trigger of the event that it waited for.
  lemma ReschedChanges(s: State, c: nat, t: State)
    requires Ok(s) && ReschedStep(s, c, t)
    ensures t.uptime == s.uptime && t.taskCount == s.taskCount && |t.table| == |s.table| && |t.cpus| == |s.cpus|
    ensures forall d :: 0 <= d < |s.cpus| && d != c ==> t.cpus[d] == s.cpus[d]
    ensures forall i :: 0 <= i < |s.table| && i != s.cpus[c] && i != t.cpus[c] ==> t.table[i] == s.table[i]
    ensures s.cpus[c] != -1 && s.cpus[c] != t.cpus[c] ==>
              && 0 <= s.cpus[c] < |s.table| && s.table[s.cpus[c]].Live?
              && t.table[s.cpus[c]] == Live(s.table[s.cpus[c]].thread.(locked := false, activeOnCpu := -1))
    ensures t.cpus[c] == -1 ==> t.events == s.events
    ensures t.cpus[c] != -1 ==>
              && 0 <= t.cpus[c] < |s.table| && s.table[t.cpus[c]].Live?
              && (s.table[t.cpus[c]].thread.locked ==> t.cpus[c] == s.cpus[c])
              && var th := s.table[t.cpus[c]].thread;
                 var waits := th.event.Some? && !th.eventAbrt;
                 && t.table[t.cpus[c]] == Live(Thread(true, c, false, th.yieldTarget, if waits then None else th.event, th.eventAbrt))
                 && th.yieldTarget <= s.uptime
                 && (!waits ==> t.events == s.events)
                 && (waits ==> th.event.value < |s.events| && s.events[th.event.value] != 0
                               && t.events == s.events[th.event.value := s.events[th.event.value] - 1])
  {
    hide Ok, Eligible, Released, Running, Taken, IsNext, ReschedStep;
    var r := Choice(s, c, t);
    ReleaseChanges(s, c);
    if r != -1 {
      TakeChanges(Released(s, c), c, r);
    }
  }

  lemma Choice(s: State, c: nat, t: State) returns (r: int)
    requires ReschedStep(s, c, t)
    ensures c < |s.cpus| && |Released(s, c).cpus| == |s.cpus| && Released(s, c).events == s.events && Released(s, c).uptime == s.uptime
    ensures IsNext(Released(s, c).table, s.events, s.uptime, s.cpus[c], r)
    ensures r == -1 ==> t == Released(s, c)
    ensures r != -1 ==>
              && 0 <= r < |Released(s, c).table| && Eligible(Released(s, c).table[r], s.events, s.uptime)
              && t == Running(Taken(Released(s, c), r), c, r)
  {
    r :|
      && IsNext(Released(s, c).table, s.events, s.uptime, s.cpus[c], r)
      && t == if r == -1 then Released(s, c) else Running(Taken(Released(s, c), r), c, r);
  }

  // A thread that gives up its CPU may be the one that runs on: it does if no other can.
  lemma RunsOn(s: State, c: nat, t: State)
    requires Ok(s) && ReschedStep(s, c, t) && s.cpus[c] != -1
    requires s.table[s.cpus[c]].thread == FRESH.(locked := true, activeOnCpu := c)
    requires forall y :: 0 <= y < |s.table| && y != s.cpus[c] ==> !s.table[y].Live?
    ensures t == s
  {
    var x := s.cpus[c];
    var u := Released(s, c);
    var r: int :|
      && IsNext(u.table, s.events, s.uptime, x, r)
      && t == if r == -1 then u else Running(Taken(u, r), c, r);
    FreshIsChosen(u.table, s.events, s.uptime, x, x, r);
    assert t.table == s.table && t.cpus == s.cpus;
  }

  // A new thread goes into the first slot that is free, and no other slot changes.
  lemma NewThread(s: State, i: nat, j: nat)
    requires FirstFree(s.table, i) && i < |s.table| && j < |s.table|
    ensures s.table[i] == Null || s.table[i] == Empty
    ensures j < i ==> s.table[j] == Reserved || s.table[j].Live?
    ensures s.table[i := Live(FRESH)][j] == if j == i then Live(Thread(false, -1, false, 0, None, false)) else s.table[j]
  {
  }

  // A kill empties the slot, drops the CPU that was noted and touches nothing else.
  lemma KillChanges(s: State, i: nat, recorded: int)
    requires i < |s.table| && -1 <= recorded < |s.cpus|
    ensures var t := Killed(s, i, recorded);
            && |t.table| == |s.table| && t.table[i] == Empty && (forall j :: 0 <= j < |s.table| && j != i ==> t.table[j] == s.table[j])
            && t.taskCount == s.taskCount - 1 && t.events == s.events && t.uptime == s.uptime && |t.cpus| == |s.cpus|
            && (forall d :: 0 <= d < |s.cpus| ==> t.cpus[d] == if d == recorded then -1 else s.cpus[d])
  {
  }
}
