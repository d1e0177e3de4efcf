/**
 Marks that are only ever set, the measure of every fixpoint and search over them, and the stacks searches pop.
 */
module Flags {

  ghost function Unset(flags: seq<bool>): set<nat> {
    set a: nat | a < |flags| && !flags[a]
  }

  lemma UnsetLess(flags: seq<bool>, a: nat)
    requires a < |flags| && !flags[a]
    ensures Unset(flags[a := true]) < Unset(flags)
  {
    assert a in Unset(flags) && a !in Unset(flags[a := true]);
  }

  lemma InPopped(stack: seq<nat>, a: nat)
    requires stack != []
    ensures a in stack <==> a in stack[..|stack| - 1] || a == stack[|stack| - 1]
  {
    assert stack == stack[..|stack| - 1] + [stack[|stack| - 1]];
  }
}
