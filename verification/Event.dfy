/**
  * The counting event of root/src/kernel/lib/event.h with any number of threads
  * that await it over and over.  Reading the count and taking one from it are two
  * steps of `event_await`; the scheduler, which serves parked threads, reads and
  * takes in one step because it holds its lock.
  */
module Event {

  datatype Where = Await | Dec | Parking | Blocked

  /** `triggers` and `passes` count the calls of `event_trigger` and the returns of `event_await`. */
  datatype State = State(count: int, threads: seq<Where>, triggers: nat, passes: nat)

  datatype Label = Trigger | Turn(thread: nat)

  function Start(n: nat): (s: State)
    ensures |s.threads| == n
  {
    State(0, seq(n, _ => Await), 0, 0)
  }

  function Step(s: State, l: Label): (t: State)
    ensures |t.threads| == |s.threads|
  {
    match l
    case Trigger => s.(count := s.count + 1, triggers := s.triggers + 1)
    case Turn(i) =>
      if i >= |s.threads| then s
      else
        match s.threads[i]
        case Await => s.(threads := s.threads[i := if s.count != 0 then Dec else Parking])
        case Dec => Pass(s, i)
        case Parking => s.(threads := s.threads[i := Blocked])
        case Blocked => if s.count != 0 then Pass(s, i) else s
  }

  function Pass(s: State, i: nat): (t: State)
    requires i < |s.threads|
    ensures |t.threads| == |s.threads|
  {
    s.(count := s.count - 1, threads := s.threads[i := Await], passes := s.passes + 1)
  }

  function Run(s: State, ls: seq<Label>): (t: State)
    ensures |t.threads| == |s.threads|
    decreases |ls|
  {
    if ls == [] then s else Run(Step(s, ls[0]), ls[1..])
  }

  /** Triggers are neither lost nor made up, whatever the threads do. */
  lemma {:induction false} CountsConserved(s: State, ls: seq<Label>)
    ensures var t := Run(s, ls); t.count + t.passes - t.triggers == s.count + s.passes - s.triggers
    decreases |ls|
  {
    if ls != [] { CountsConserved(Step(s, ls[0]), ls[1..]); }
  }

  ghost predicate Sound(s: State)
  {
    s.count >= 0 && forall i :: 0 <= i < |s.threads| && s.threads[i].Dec? ==> s.count > 0
  }

  lemma {:induction false} OneAwaiterIsSound(s: State, ls: seq<Label>)
    requires |s.threads| <= 1 && Sound(s)
    ensures Sound(Run(s, ls))
    decreases |ls|
  {
    if ls != [] { OneAwaiterIsSound(Step(s, ls[0]), ls[1..]); }
  }

  /** Two threads that both read the same count both take it. */
  lemma TwoAwaitersOverdraw(n: nat)
    requires n >= 2
    ensures Run(Start(n), [Trigger, Turn(0), Turn(1), Turn(0), Turn(1)]).count == -1
  {
    var s1 := Step(Start(n), Trigger);
    var s2 := Step(s1, Turn(0));
    var s3 := Step(s2, Turn(1));
    var s4 := Step(s3, Turn(0));
    var s5 := Step(s4, Turn(1));
    assert s5.count == -1;
    var ls := [Trigger, Turn(0), Turn(1), Turn(0), Turn(1)];
    assert ls[1..] == [Turn(0), Turn(1), Turn(0), Turn(1)];
    assert ls[1..][1..] == [Turn(1), Turn(0), Turn(1)];
    assert ls[1..][1..][1..] == [Turn(0), Turn(1)];
    assert ls[1..][1..][1..][1..] == [Turn(1)];
    assert Run(s4, [Turn(1)]) == s5 by { assert [Turn(1)][1..] == []; }
    assert Run(s3, [Turn(0), Turn(1)]) == s5;
    assert Run(s2, [Turn(1), Turn(0), Turn(1)]) == s5;
  }

  /** No more awaits return than triggers were made, in every run, exactly with at most one awaiting thread. */
  lemma NeverOverdrawnExactly(n: nat)
    ensures (forall ls :: Run(Start(n), ls).passes <= Run(Start(n), ls).triggers) <==> n <= 1
  {
    if n <= 1 {
      forall ls ensures Run(Start(n), ls).passes <= Run(Start(n), ls).triggers {
        OneAwaiterIsSound(Start(n), ls);
        CountsConserved(Start(n), ls);
      }
    } else {
      var ls := [Trigger, Turn(0), Turn(1), Turn(0), Turn(1)];
      TwoAwaitersOverdraw(n);
      CountsConserved(Start(n), ls);
    }
  }
}
