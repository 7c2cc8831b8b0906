/**
  * The reference-counted slot table of root/src/kernel/lib/dynarray.h.
  *
  * What the table is for knows no counter: a slot is free, or it holds an element
  * that is still present or still referenced by somebody.  The code keeps one
  * counter per element instead, and its agreement with that view is the invariant.
  */
module Dynarray {
  import opened Options

  /** What the code stores: a null pointer or a cell. */
  datatype Slot<T> = Null | Cell(refcount: int, present: bool, data: T)

  /** What callers rely on: `holders` references have been handed out and not given back. */
  datatype View<T> = Gone | Alive(data: T, present: bool, holders: nat)

  const GROWTH: nat := 256

  // ------------------------------------------------------------- the plain view

  function Settled<T>(v: View<T>): (r: View<T>)
  {
    if v.Alive? && !v.present && v.holders == 0 then Gone else v
  }

  function Taken<T>(v: View<T>): (r: View<T>)
  {
    if v.Alive? && v.present then v.(holders := v.holders + 1) else v
  }

  function Dropped<T>(v: View<T>): (r: View<T>)
    requires v.Alive? && v.holders > 0
  {
    Settled(v.(holders := v.holders - 1))
  }

  function Removed<T>(v: View<T>): (r: View<T>)
  {
    if v.Gone? then v else Settled(v.(present := false))
  }

  /** The lowest free slot at or above `i`, or the end of the table. */
  function FirstGone<T>(vs: seq<View<T>>, i: nat): (r: nat)
    requires i <= |vs|
    ensures i <= r <= |vs| && (r < |vs| ==> vs[r].Gone?)
    ensures forall k :: i <= k < r ==> vs[k].Alive?
    decreases |vs| - i
  {
    if i == |vs| || vs[i].Gone? then i else FirstGone(vs, i + 1)
  }

  function Grown<T>(vs: seq<View<T>>): (r: seq<View<T>>)
    ensures |vs| < |r|
  {
    vs + seq(GROWTH, _ => Gone)
  }

  function Added<T>(vs: seq<View<T>>, x: T): (r: seq<View<T>>)
  {
    var i := FirstGone(vs, 0);
    (if i == |vs| then Grown(vs) else vs)[i := Alive(x, true, 0)]
  }

  // -------------------------------------------------------- runs of the plain view

  datatype Label<T> = Add(x: T) | Get(slot: nat) | Unref(slot: nat) | Remove(slot: nat)

  /** Only holders give references back; nothing is asked of removal. */
  predicate Legal<T>(vs: seq<View<T>>, l: Label<T>)
  {
    match l
    case Add(_) => true
    case Get(i) => i < |vs|
    case Unref(i) => i < |vs| && vs[i].Alive? && vs[i].holders > 0
    case Remove(i) => i < |vs|
  }

  function Step<T>(vs: seq<View<T>>, l: Label<T>): (r: seq<View<T>>)
    requires Legal(vs, l)
    ensures |r| >= |vs|
  {
    match l
    case Add(x) => Added(vs, x)
    case Get(i) => vs[i := Taken(vs[i])]
    case Unref(i) => vs[i := Dropped(vs[i])]
    case Remove(i) => vs[i := Removed(vs[i])]
  }

  ghost predicate IsRun<T>(run: seq<seq<View<T>>>, ls: seq<Label<T>>)
  {
    |run| == |ls| + 1 && forall k :: 0 <= k < |ls| ==> Legal(run[k], ls[k]) && run[k + 1] == Step(run[k], ls[k])
  }

  ghost predicate Held<T>(vs: seq<View<T>>, i: nat) { i < |vs| && vs[i].Alive? && vs[i].holders > 0 }

  ghost predicate GivesBackLast<T>(vs: seq<View<T>>, l: Label<T>, i: nat)
  {
    l.Unref? && l.slot == i && Held(vs, i) && vs[i].holders == 1
  }

  /**
    * While a reference to an element is out, the element stays where it is and is
    * what it was, whoever adds, removes or drops in the meantime.
    */
  lemma {:induction false} HeldIsNeverReused<T>(run: seq<seq<View<T>>>, ls: seq<Label<T>>, i: nat)
    requires IsRun(run, ls) && Held(run[0], i)
    requires forall k :: 0 <= k < |ls| ==> !GivesBackLast(run[k], ls[k], i)
    ensures Held(run[|ls|], i) && run[|ls|][i].data == run[0][i].data
    decreases |ls|
  {
    if ls != [] {
      var n := |ls| - 1;
      HeldIsNeverReused(run[..n + 1], ls[..n], i);
      assert Held(run[n], i);
      assert run[n + 1] == Step(run[n], ls[n]);
    }
  }

  /** How often slot `i` is removed, and how many references to its element are out after `ls`. */
  function Removals<T>(ls: seq<Label<T>>, i: nat): (n: nat)
  {
    if ls == [] then 0 else Removals(ls[..|ls| - 1], i) + if ls[|ls| - 1] == Remove(i) then 1 else 0
  }

  function Outstanding<T>(ls: seq<Label<T>>, i: nat): (n: int)
  {
    if ls == [] then 0
    else
      var n := |ls| - 1;
      Outstanding(ls[..n], i)
      + if ls[n] == Get(i) && Removals(ls[..n], i) == 0 then 1 else if ls[n] == Unref(i) then -1 else 0
  }

  /**
    * The life of an element from its addition on: it is present until its first
    * removal, references are handed out as long as it is present, and it is gone as
    * soon as it was removed and no reference is out, not earlier.
    */
  lemma {:induction false} ElementLives<T>(run: seq<seq<View<T>>>, ls: seq<Label<T>>, i: nat, x: T)
    requires IsRun(run, ls) && i < |run[0]| && run[0][i] == Alive(x, true, 0)
    requires forall k: nat :: k < |ls| ==> Removals(ls[..k], i) == 0 || Outstanding(ls[..k], i) != 0
    ensures i < |run[|ls|]| && Outstanding(ls, i) >= 0
    ensures run[|ls|][i]
      == if Removals(ls, i) > 0 && Outstanding(ls, i) == 0 then Gone else Alive(x, Removals(ls, i) == 0, Outstanding(ls, i))
    decreases |ls|
  {
    hide Step, Legal;
    if ls != [] {
      var n := |ls| - 1;
      forall k: nat | k < n ensures ls[..n][..k] == ls[..k] { }
      ElementLives(run[..n + 1], ls[..n], i, x);
      assert Removals(ls[..n], i) == 0 || Outstanding(ls[..n], i) != 0;
      SlotStep(run[n], ls[n], i);
      assert run[n + 1] == Step(run[n], ls[n]);
    }
  }

  lemma SlotStep<T>(vs: seq<View<T>>, l: Label<T>, i: nat)
    requires Legal(vs, l) && i < |vs| && vs[i].Alive?
    ensures l == Unref(i) ==> vs[i].holders > 0
    ensures Step(vs, l)[i]
      == if l == Get(i) then Taken(vs[i])
         else if l == Unref(i) then Dropped(vs[i])
         else if l == Remove(i) then Removed(vs[i])
         else vs[i]
  { }

  /** An addition takes the lowest free slot, with a new block of 256 if there was none, and no other. */
  lemma AddTakesLowest<T>(vs: seq<View<T>>, x: T) returns (i: nat)
    ensures var r := Step(vs, Add(x));
      && i < |r| && r[i] == Alive(x, true, 0) && i <= |vs|
      && |r| == (if i < |vs| then |vs| else |vs| + 256)
      && (i < |vs| ==> vs[i].Gone?)
      && (forall k :: 0 <= k < i ==> vs[k].Alive?)
      && (forall k :: 0 <= k < |vs| && k != i ==> r[k] == vs[k])
      && (forall k :: |vs| < k < |r| ==> r[k].Gone?)
  {
    i := FirstGone(vs, 0);
  }

  /** What the code asks of a caller: only holders give back, and nothing is removed twice. */
  ghost predicate MayDo<T>(vs: seq<View<T>>, l: Label<T>)
  {
    Legal(vs, l) && (l.Remove? && vs[l.slot].Alive? ==> vs[l.slot].present)
  }

  /** How many elements a sequence of operations adds. */
  function Adds<T>(ls: seq<Label<T>>): (n: nat)
  {
    if ls == [] then 0 else Adds(ls[..|ls| - 1]) + if ls[|ls| - 1].Add? then 1 else 0
  }

  lemma RunNone<T>(ls: seq<Label<T>>, vs: seq<View<T>>)
    ensures IsRun([vs], ls[..0]) && Adds(ls[..0]) == 0
  { }

  lemma RunMore<T>(run: seq<seq<View<T>>>, ls: seq<Label<T>>, l: Label<T>, vs: seq<View<T>>)
    requires IsRun(run, ls) && MayDo(run[|ls|], l) && Legal(run[|ls|], l) && vs == Step(run[|ls|], l)
    ensures IsRun(run + [vs], ls + [l]) && Adds(ls + [l]) == Adds(ls) + if l.Add? then 1 else 0
  {
    hide Step, Legal;
    assert (ls + [l])[..|ls|] == ls;
  }

  // ------------------------------------------------------------------ the counter

  ghost predicate Matches<T>(c: Slot<T>, v: View<T>)
  {
    match c
    case Null => v.Gone?
    case Cell(n, p, d) => v.Alive? && v.data == d && v.present == p && n == v.holders + (if p then 1 else 0) && n > 0
  }

  /** Decrement, and free the cell when the counter has come to zero. */
  function Decremented<T>(c: Slot<T>): (r: Slot<T>)
    requires c.Cell?
  {
    if c.refcount - 1 == 0 then Null else c.(refcount := c.refcount - 1)
  }

  function RemovedCell<T>(c: Slot<T>): (r: Slot<T>)
  {
    if c.Null? then c else Decremented(c.(present := false))
  }

  /** Removal keeps the counter right exactly when the element was not removed before. */
  lemma RemoveExactly<T>(c: Slot<T>, v: View<T>)
    requires Matches(c, v)
    ensures Matches(RemovedCell(c), Removed(v)) <==> v.Gone? || v.present
  { }

  /** The second removal of an element takes a holder's count, and may free it under the holder. */
  lemma SecondRemoveFreesHeld<T>(x: T)
    ensures var c, v := Cell(2, true, x), Alive(x, true, 1);
      && Matches(c, v)
      && Matches(RemovedCell(c), Removed(v))
      && RemovedCell(RemovedCell(c)) == Null && Removed(Removed(v)) == Alive(x, false, 1)
  { }

  ghost predicate AllMatch<T>(slots: seq<Slot<T>>, vs: seq<View<T>>)
  {
    |slots| == |vs| && forall k :: 0 <= k < |slots| ==> Matches(slots[k], vs[k])
  }

  class Table<T> {
    var slots: seq<Slot<T>>
    var count: nat                 // dynarray_i: how far the loops look
    ghost var view: seq<View<T>>

    ghost predicate Valid()
      reads this
    {
      count == |slots| && AllMatch(slots, view)
    }

    constructor ()
      ensures Valid() && view == []
    {
      slots, count, view := [], 0, [];
    }

    /** `canGrow` and `canAlloc` say whether krealloc and kalloc succeed. */
    method DoAdd(x: T, canGrow: bool, canAlloc: bool) returns (ret: int)
      requires Valid()
      modifies this
      ensures Valid() <==> canGrow || FirstGone(old(view), 0) < |old(view)|
      ensures ret >= 0 <==> Valid() && canAlloc
      ensures ret >= 0 ==> ret == FirstGone(old(view), 0) && view == Added(old(view), x)
      ensures ret < 0 ==> ret == -1 && forall k :: 0 <= k < |old(view)| ==> k < |view| && view[k] == old(view)[k]
    {
      var i := 0;
      while i < count && slots[i].Cell?
        invariant i <= count && Valid()
        invariant slots == old(slots) && view == old(view)
        invariant FirstGone(view, 0) == FirstGone(view, i)
      {
        i := i + 1;
      }
      if i == count {
        count := count + GROWTH;
        if !canGrow { return -1; }
        slots := slots + seq(GROWTH, _ => Null);
        view := Grown(view);
      }
      if !canAlloc { return -1; }
      slots := slots[i := Cell(1, true, x)];
      view := view[i := Alive(x, true, 0)];
      ret := i;
    }

    method GetElem(i: nat) returns (ptr: Option<T>)
      requires Valid() && i < count
      modifies this
      ensures Valid() && view == Step(old(view), Get(i))
      ensures ptr.Some? <==> old(view)[i].Alive? && old(view)[i].present
      ensures ptr.Some? ==> ptr.value == old(view)[i].data && Held(view, i)
    {
      assert Matches(slots[i], view[i]);
      ptr := None;
      if slots[i].Cell? && slots[i].present {
        ptr := Some(slots[i].data);
        slots := slots[i := slots[i].(refcount := slots[i].refcount + 1)];
      }
      view := view[i := Taken(view[i])];
    }

    /**
      * Giving a reference back; the cell is freed exactly when nothing is left of it.  The counter stays
      * right exactly when there was a reference to give.
      */
    method DoUnref(i: nat)
      requires Valid() && i < count
      modifies this
      ensures Valid() <==> old(view)[i].Gone? || old(view)[i].holders > 0
      ensures slots == old(slots)[i := if old(slots)[i].Cell? then Decremented(old(slots)[i]) else Null]
      ensures Held(old(view), i) ==> view == Step(old(view), Unref(i))
      ensures Held(old(view), i) ==> (slots[i].Null? <==> !old(view)[i].present && old(view)[i].holders == 1)
      ensures !Held(old(view), i) ==> view == old(view)
    {
      assert Matches(slots[i], view[i]);
      if slots[i].Cell? {
        slots := slots[i := Decremented(slots[i])];
      }
      if Held(view, i) {
        view := view[i := Dropped(view[i])];
      }
      assert Matches(slots[i], view[i]) <==> old(view)[i].Gone? || old(view)[i].holders > 0;
    }

    /**
      * Removal; the element lives on while it is held.  The counter stays right exactly when the element
      * was not removed before.
      */
    method DoRemove(i: nat) returns (ret: int)
      requires Valid() && i < count
      modifies this
      ensures Valid() <==> old(view)[i].Gone? || old(view)[i].present
      ensures slots == old(slots)[i := RemovedCell(old(slots)[i])] && view == Step(old(view), Remove(i))
      ensures ret == if old(view)[i].Gone? then -1 else 0
      ensures Valid() ==> (slots[i].Null? <==> old(view)[i].Gone? || old(view)[i].holders == 0)
    {
      assert Matches(slots[i], view[i]);
      ret := if slots[i].Null? then -1 else 0;
      RemoveExactly(slots[i], view[i]);
      slots := slots[i := RemovedCell(slots[i])];
      view := view[i := Removed(view[i])];
      assert Matches(slots[i], view[i]) <==> old(view)[i].Gone? || old(view)[i].present;
    }

    /** The first element that is present and satisfies `cond`, with a reference to it. */
    method Search(cond: T -> bool) returns (found: Option<nat>)
      requires Valid()
      modifies this
      ensures Valid()
      ensures found.None? ==> view == old(view) && forall k :: 0 <= k < |view| ==> !Wanted(view[k], cond)
      ensures found.Some? ==>
        && found.value < |old(view)| && Wanted(old(view)[found.value], cond)
        && (forall k :: 0 <= k < found.value ==> !Wanted(old(view)[k], cond))
        && view == Step(old(view), Get(found.value)) && Held(view, found.value)
    {
      for i := 0 to count
        invariant Valid() && view == old(view)
        invariant forall k :: 0 <= k < i ==> !Wanted(view[k], cond)
      {
        assert Matches(slots[i], view[i]);
        if slots[i].Cell? && slots[i].present && cond(slots[i].data) {
          slots := slots[i := slots[i].(refcount := slots[i].refcount + 1)];
          view := view[i := Taken(view[i])];
          return Some(i);
        }
      }
      found := None;
    }

    /** A caller may make this call. */
    method May(l: Label<T>) returns (b: bool)
      requires Valid()
      ensures b <==> MayDo(view, l)
    {
      if l.Add? { return true; }
      if l.slot >= count { return false; }
      assert Matches(slots[l.slot], view[l.slot]);
      var c := slots[l.slot];
      b := match l
        case Add(_) => true
        case Get(_) => true
        case Unref(_) => c.Cell? && c.refcount > (if c.present then 1 else 0)
        case Remove(_) => c.Cell? ==> c.present;
    }

    /** One call that finds memory. */
    method DoOne(l: Label<T>)
      requires Valid() && MayDo(view, l)
      modifies this
      ensures Valid() && view == Step(old(view), l)
    {
      match l {
        case Add(x) =>
          var ret := DoAdd(x, true, true);
        case Get(i) =>
          var ptr := GetElem(i);
        case Unref(i) =>
          DoUnref(i);
        case Remove(i) =>
          var ret := DoRemove(i);
      }
    }

    /**
      * Any sequence of operations, up to the first that a caller may not make or that finds no memory:
      * `memory` is for how many new elements there is some.
      */
    method DoAll(ls: seq<Label<T>>, memory: nat) returns (n: nat, ghost run: seq<seq<View<T>>>)
      requires Valid()
      modifies this
      ensures n <= |ls| && |run| == n + 1 && IsRun(run, ls[..n]) && run[0] == old(view)
      ensures forall k :: 0 <= k < n ==> MayDo(run[k], ls[k])
      ensures n == |ls| ==> Valid() && view == run[n]
      ensures n < |ls| ==> !MayDo(run[n], ls[n]) || (ls[n].Add? && Adds(ls[..n]) == memory)
    {
      hide AllMatch, Step, Adds, IsRun;
      n, run := 0, [view];
      RunNone(ls, view);
      while n < |ls|
        invariant n <= |ls| && |run| == n + 1 && Valid() && IsRun(run, ls[..n]) && run[0] == old(view) && run[n] == view
        invariant forall k :: 0 <= k < n ==> MayDo(run[k], ls[k])
        invariant Adds(ls[..n]) <= memory
      {
        var l := ls[n];
        var may := May(l);
        if !may || (l.Add? && Adds(ls[..n]) == memory) { return; }
        DoOne(l);
        RunMore(run, ls[..n], l, view);
        assert ls[..n] + [l] == ls[..n + 1];
        n, run := n + 1, run + [view];
      }
    }

    /** So over any calls a held cell is still there, with what it held, until its last holder lets go. */
    method HoldThrough(ls: seq<Label<T>>, memory: nat, i: nat) returns (n: nat, ghost run: seq<seq<View<T>>>)
      requires Valid() && Held(view, i)
      modifies this
      ensures n <= |ls| && |run| == n + 1 && IsRun(run, ls[..n]) && run[0] == old(view)
      ensures n == |ls| && (forall k :: 0 <= k < n ==> !GivesBackLast(run[k], ls[k], i)) ==>
        Valid() && i < |slots| && slots[i].Cell? && slots[i].data == old(view)[i].data
    {
      n, run := DoAll(ls, memory);
      if n == |ls| && forall k :: 0 <= k < n ==> !GivesBackLast(run[k], ls[k], i) {
        HeldIsNeverReused(run, ls[..n], i);
        assert Matches(slots[i], view[i]);
      }
    }
  }

  predicate Wanted<T>(v: View<T>, cond: T -> bool) { v.Alive? && v.present && cond(v.data) }
}
