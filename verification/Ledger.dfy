/**
  * Who holds which pages.  Every page is free, reserved from the start, or held by exactly one owner;
  * acquiring, extending and releasing keep that balance.
  */
module Ledger {

  datatype Owner = BlockAt(p: nat) | SpaceAt(p: nat)

  type Held = map<Owner, set<nat>>

  ghost predicate Apart(held: Held) {
    forall a, b :: a in held && b in held && a != b ==> held[a] !! held[b]
  }

  ghost predicate HeldBy(held: Held, x: nat) {
    exists o :: o in held && x in held[o]
  }

  ghost predicate Balanced(n: nat, reserved: set<nat>, free: set<nat>, held: Held) {
    && free !! reserved && Apart(held)
    && (forall x: nat :: x in free || x in reserved ==> x < n)
    && (forall o, x :: o in held && x in held[o] ==> x < n)
    && (forall o :: o in held ==> held[o] !! free && held[o] !! reserved)
    && (forall x: nat :: x < n && x !in free && x !in reserved ==> HeldBy(held, x))
  }

  lemma OthersHold(held: Held, held': Held, o: Owner, x: nat)
    requires o in held && x in held[o] && o in held' && held[o] <= held'[o]
    ensures HeldBy(held', x)
  {
  }

  lemma Acquire(n: nat, reserved: set<nat>, free: set<nat>, held: Held, o: Owner, taken: set<nat>)
    requires Balanced(n, reserved, free, held) && o !in held && taken <= free
    ensures Balanced(n, reserved, free - taken, held[o := taken])
  {
    var held' := held[o := taken];
    forall x: nat | x < n && x !in free - taken && x !in reserved
      ensures HeldBy(held', x)
    {
      if x in taken {
        assert o in held' && x in held'[o];
      } else {
        assert HeldBy(held, x);
        var a :| a in held && x in held[a];
        OthersHold(held, held', a, x);
      }
    }
  }

  lemma Extend(n: nat, reserved: set<nat>, free: set<nat>, held: Held, o: Owner, taken: set<nat>)
    requires Balanced(n, reserved, free, held) && o in held && taken <= free
    ensures Balanced(n, reserved, free - taken, held[o := held[o] + taken])
  {
    var held' := held[o := held[o] + taken];
    ExtendApart(n, reserved, free, held, o, taken);
    forall x: nat | x < n && x !in free - taken && x !in reserved
      ensures HeldBy(held', x)
    {
      if x in taken {
        assert o in held' && x in held'[o];
      } else {
        assert HeldBy(held, x);
        var a :| a in held && x in held[a];
        OthersHold(held, held', a, x);
      }
    }
  }

  lemma ExtendApart(n: nat, reserved: set<nat>, free: set<nat>, held: Held, o: Owner, taken: set<nat>)
    requires Balanced(n, reserved, free, held) && o in held && taken <= free
    ensures Apart(held[o := held[o] + taken])
  {
    var held' := held[o := held[o] + taken];
    forall a, b | a in held' && b in held' && a != b
      ensures held'[a] !! held'[b]
    {
      assert held[a] !! held[b] && held[a] !! free && held[b] !! free;
    }
  }

  lemma Release(n: nat, reserved: set<nat>, free: set<nat>, held: Held, o: Owner)
    requires Balanced(n, reserved, free, held) && o in held
    ensures Balanced(n, reserved, free + held[o], held - {o})
    ensures held[o] !! free
  {
    var held' := held - {o};
    forall x: nat | x < n && x !in free + held[o] && x !in reserved
      ensures HeldBy(held', x)
    {
      assert HeldBy(held, x);
      var a :| a in held && x in held[a];
      OthersHold(held, held', a, x);
    }
  }

  // Nobody else holds what an owner holds, and it is not free.
  lemma HeldAlone(n: nat, reserved: set<nat>, free: set<nat>, held: Held, o: Owner, x: nat)
    requires Balanced(n, reserved, free, held) && o in held && x in held[o]
    ensures x < n && x !in free && x !in reserved
    ensures forall a :: a in held && a != o ==> x !in held[a]
  {
  }
}
