/**
  * The userspace request monitor of root/src/kernel/sys/urm.c and the counting
  * event of root/src/kernel/lib/event.h that it sleeps on.
  *
  * Senders append to a queue and raise the event under a lock; a single monitor
  * takes the front of the queue under the same lock and then awaits the event.
  * Awaiting is not one step: the count is read, and only later is it decremented
  * or is the thread parked, so senders may come in between.
  */
module Urm {

  datatype Request = Request(kind: int, data: int)

  const EXECVE := 1
  const EXIT := 2

  /** Where the monitor is in its loop. */
  datatype Phase =
    | Top        // about to take the lock and look at the queue
    | Await      // about to read the event count
    | Dec        // read a count that was not zero, about to decrement it
    | Parking    // read zero, about to store event_ptr and yield
    | Blocked    // event_ptr stored: runs again once the scheduler takes a count for it

  /** `sent` and `handled` are histories: nothing below decides by them. */
  datatype State = State(queue: seq<Request>, event: int, phase: Phase, sent: seq<Request>, handled: seq<Request>)

  datatype Label = Send(r: Request) | Monitor

  function Initial(): (s: State) { State([], 0, Top, [], []) }

  function SendStep(s: State, r: Request): (t: State)
  {
    s.(queue := s.queue + [r], event := s.event + 1, sent := s.sent + [r])
  }

  /** The monitor's next step; it stays where it is while the scheduler finds no count to take. */
  function MonitorStep(s: State): (t: State)
  {
    match s.phase
    case Top =>
      if s.queue == [] then s.(phase := Await)
      else s.(phase := Await, queue := s.queue[1..], handled := s.handled + [s.queue[0]])
    case Await => s.(phase := if s.event != 0 then Dec else Parking)
    case Dec => s.(phase := Top, event := s.event - 1)
    case Parking => s.(phase := Blocked)
    case Blocked => if s.event != 0 then s.(phase := Top, event := s.event - 1) else s
  }

  function Step(s: State, l: Label): (t: State)
  {
    match l
    case Send(r) => SendStep(s, r)
    case Monitor => MonitorStep(s)
  }

  function Run(s: State, ls: seq<Label>): (t: State)
    decreases |ls|
  {
    if ls == [] then s else Run(Step(s, ls[0]), ls[1..])
  }

  // ------------------------------------------------------------- the invariant

  /** The queue is what was sent and not handled, in order; the count runs ahead of it by 0 or 1 while waiting. */
  ghost predicate Inv(s: State)
  {
    && s.sent == s.handled + s.queue
    && match s.phase
       case Top => -1 <= s.event - |s.queue| <= 0 && s.event >= 0
       case Dec => 0 <= s.event - |s.queue| <= 1 && s.event > 0
       case _ => 0 <= s.event - |s.queue| <= 1
  }

  lemma StepKeepsInv(s: State, l: Label)
    requires Inv(s)
    ensures Inv(Step(s, l))
    ensures |s.handled| <= |Step(s, l).handled| && s.sent <= Step(s, l).sent
  {
    if l.Monitor? && s.phase.Top? && s.queue != [] {
      assert s.queue == [s.queue[0]] + s.queue[1..];
    }
  }

  lemma {:induction false} RunKeepsInv(s: State, ls: seq<Label>)
    requires Inv(s)
    ensures Inv(Run(s, ls))
    ensures |s.handled| <= |Run(s, ls).handled| && s.sent <= Run(s, ls).sent
    decreases |ls|
  {
    if ls != [] {
      StepKeepsInv(s, ls[0]);
      RunKeepsInv(Step(s, ls[0]), ls[1..]);
    }
  }

  function Sends(ls: seq<Label>): (r: seq<Request>)
  {
    if ls == [] then [] else (if ls[0].Send? then [ls[0].r] else []) + Sends(ls[1..])
  }

  lemma {:induction false} SentIsSends(s: State, ls: seq<Label>)
    ensures Run(s, ls).sent == s.sent + Sends(ls)
    decreases |ls|
  {
    if ls != [] { SentIsSends(Step(s, ls[0]), ls[1..]); }
  }

  /**
    * In every run from the start: the requests handled are the first requests
    * sent, in order and each once; the rest are in the queue; and the monitor is
    * never left blocked while there is one.
    */
  lemma HandledInOrder(ls: seq<Label>)
    ensures var s := Run(Initial(), ls);
      && s.handled + s.queue == Sends(ls)
      && s.handled <= Sends(ls)
      && (s.phase.Blocked? && s.queue != [] ==> s.event > 0 && MonitorStep(s).phase.Top?)
      && s.event >= 0
  {
    RunKeepsInv(Initial(), ls);
    SentIsSends(Initial(), ls);
    assert [] + Sends(ls) == Sends(ls);
  }

  // ---------------------------------------------------------- every request is served

  function Turns(ls: seq<Label>): (n: nat)
  {
    if ls == [] then 0 else (if ls[0].Monitor? then 1 else 0) + Turns(ls[1..])
  }

  /** How many steps of its own the monitor needs at most to have handled `k` requests. */
  function Wait(s: State, k: nat): (n: nat)
  {
    if |s.handled| >= k then 0
    else
      5 * (k - |s.handled|) - 4 +
      match s.phase
      case Top => 0
      case Await => 4
      case Dec => 3
      case Parking => 3
      case Blocked => 2
  }

  lemma StepServes(s: State, l: Label, k: nat)
    requires Inv(s) && k <= |s.sent|
    ensures l.Send? ==> Wait(Step(s, l), k) == Wait(s, k)
    ensures l.Monitor? && |s.handled| < k ==> Wait(Step(s, l), k) < Wait(s, k)
  { }

  /**
    * However many requests come in between, request number `k` (counted from 1)
    * is handled once the monitor has had `Wait` turns.
    */
  lemma {:induction false} EveryRequestIsServed(s: State, ls: seq<Label>, k: nat)
    requires Inv(s) && k <= |s.sent| && Turns(ls) >= Wait(s, k)
    ensures k <= |Run(s, ls).handled| && Run(s, ls).handled[..k] == s.sent[..k]
    decreases |ls|
  {
    RunKeepsInv(s, ls);
    if |s.handled| >= k {
      var t := Run(s, ls);
      assert t.sent[..k] == t.handled[..k];
    } else {
      var s' := Step(s, ls[0]);
      StepKeepsInv(s, ls[0]);
      StepServes(s, ls[0], k);
      EveryRequestIsServed(s', ls[1..], k);
      assert s'.sent[..k] == s.sent[..k];
    }
  }

  /** Left alone, the monitor empties the queue and goes to sleep on a count of zero. */
  function Rest(s: State): (n: int)
  {
    5 * s.event + match s.phase
      case Top => 4
      case Await => 3
      case Dec => 2
      case Parking => 2
      case Blocked => 1
  }

  lemma {:induction false} Drains(s: State, ls: seq<Label>)
    requires Inv(s) && (forall l :: l in ls ==> l.Monitor?) && |ls| + 1 >= Rest(s)
    ensures var t := Run(s, ls);
      t.phase.Blocked? && t.queue == [] && t.event == 0 && t.handled == s.sent
    decreases |ls|
  {
    if ls != [] {
      assert ls[0] in ls;
      StepKeepsInv(s, ls[0]);
      var t := Step(s, ls[0]);
      if t == s {
        Asleep(s, ls);
      } else {
        Drains(t, ls[1..]);
      }
    }
  }

  lemma {:induction false} Asleep(s: State, ls: seq<Label>)
    requires s.phase.Blocked? && s.event == 0 && forall l :: l in ls ==> l.Monitor?
    ensures Run(s, ls) == s
  {
    if ls != [] {
      assert ls[0] in ls;
      Asleep(s, ls[1..]);
    }
  }

  // ------------------------------------------------------------------ the code

  class RequestMonitor {
    var requests: seq<Request>     // userspace_requests, userspace_request_i entries long
    var event: int                 // userspace_event
    var phase: Phase
    var dispatched: seq<Dispatch>  // what the switch has called so far
    ghost var sent: seq<Request>
    ghost var handled: seq<Request>

    ghost function Abs(): (s: State)
      reads this
    {
      State(requests, event, phase, sent, handled)
    }

    ghost predicate Valid()
      reads this
    {
      Inv(Abs()) && dispatched == DispatchAll(handled)
    }

    constructor ()
      ensures Valid() && Abs() == Initial()
    {
      requests, event, phase, dispatched := [], 0, Top, [];
      sent, handled := [], [];
    }

    method SendRequest(kind: int, data: int)
      requires Valid()
      modifies this
      ensures Valid() && Abs() == SendStep(old(Abs()), Request(kind, data))
    {
      StepKeepsInv(Abs(), Send(Request(kind, data)));
      requests := requests + [Request(0, 0)];
      requests := requests[|requests| - 1 := Request(kind, data)];
      EventTrigger();
      sent := sent + [Request(kind, data)];
    }

    method EventTrigger()
      modifies this`event
      ensures event == old(event) + 1
    {
      event := event + 1;
    }

    /** The locked part of the loop: dispatch the first request and move the others up. */
    method TakeFirst()
      requires Valid() && phase.Top?
      modifies this
      ensures Valid() && Abs() == MonitorStep(old(Abs()))
      ensures old(requests) == [] ==> dispatched == old(dispatched)
      ensures old(requests) != [] ==>
        var r := old(requests)[0];
        dispatched == old(dispatched) + [if r.kind == 1 then Execve(r.data) else if r.kind == 2 then Exit(r.data) else Invalid]
    {
      StepKeepsInv(Abs(), Monitor);
      if |requests| != 0 {
        var first := requests[0];
        DispatchSnoc(handled, first);
        dispatched := dispatched + [DispatchOf(first)];
        var n := |requests| - 1;
        for i := 0 to n
          invariant |requests| == n + 1 && n == |old(requests)| - 1
          invariant forall k :: 0 <= k < i ==> requests[k] == old(requests)[k + 1]
          invariant forall k :: i <= k <= n ==> requests[k] == old(requests)[k]
          invariant event == old(event) && phase == old(phase) && sent == old(sent) && handled == old(handled)
          invariant dispatched == old(dispatched) + [DispatchOf(first)]
        {
          requests := requests[i := requests[i + 1]];
        }
        requests := requests[..n];
        handled := handled + [first];
      }
      phase := Await;
    }

    /** One step of `event_await`, or the scheduler's step that ends it. */
    method AwaitStep()
      requires Valid() && !phase.Top?
      modifies this`event, this`phase
      ensures Valid() && Abs() == MonitorStep(old(Abs()))
    {
      StepKeepsInv(Abs(), Monitor);
      match phase
      case Await => phase := if event != 0 then Dec else Parking;
      case Dec => event, phase := event - 1, Top;
      case Parking => phase := Blocked;
      case Blocked => if event != 0 { event, phase := event - 1, Top; }
    }

    method Do(ls: seq<Label>)
      requires Valid()
      modifies this
      ensures Valid() && Abs() == Run(old(Abs()), ls)
    {
      for i := 0 to |ls|
        invariant Valid() && Run(Abs(), ls[i..]) == Run(old(Abs()), ls)
      {
        assert ls[i..][1..] == ls[i + 1..];
        match ls[i]
        case Send(r) => SendRequest(r.kind, r.data);
        case Monitor => if phase.Top? { TakeFirst(); } else { AwaitStep(); }
      }
      assert ls[|ls|..] == [];
    }
  }

  /** The branch of the switch taken for a request. */
  datatype Dispatch = Execve(data: int) | Exit(data: int) | Invalid

  function DispatchOf(r: Request): (d: Dispatch)
  {
    if r.kind == EXECVE then Execve(r.data) else if r.kind == EXIT then Exit(r.data) else Invalid
  }

  function DispatchAll(rs: seq<Request>): (ds: seq<Dispatch>)
    ensures |ds| == |rs|
    ensures forall k :: 0 <= k < |rs| ==> ds[k] == DispatchOf(rs[k])
  {
    if rs == [] then [] else [DispatchOf(rs[0])] + DispatchAll(rs[1..])
  }

  /**
    * In every run from the start, call number `k` runs the new program if request
    * number `k` sent was an execve, ends the process if it was an exit, and nothing else.
    */
  lemma DispatchedAsSent(ls: seq<Label>, k: nat)
    requires k < |Run(Initial(), ls).handled|
    ensures k < |Sends(ls)|
    ensures var d := DispatchAll(Run(Initial(), ls).handled)[k];
      && (Sends(ls)[k].kind == 1 ==> d == Execve(Sends(ls)[k].data))
      && (Sends(ls)[k].kind == 2 ==> d == Exit(Sends(ls)[k].data))
      && (Sends(ls)[k].kind != 1 && Sends(ls)[k].kind != 2 ==> d == Invalid)
  {
    hide Run;
    HandledInOrder(ls);
  }

  lemma DispatchSnoc(rs: seq<Request>, r: Request)
    ensures DispatchAll(rs + [r]) == DispatchAll(rs) + [DispatchOf(r)]
  { }
}
