/**
 `BranchNode`: a node with a second successor, `branch`, chosen whenever its
 condition holds at the moment `getNext` is asked. The class is declared but
 never constructed, and the wrapper callback reads the field `next` rather
 than calling `getNext`, so nothing here takes part in firing a chain.

 The condition is a `BranchCondition`, a no-argument predicate over whatever
 state it captured; it is modelled as a function of that state `S`, applied
 to the state current at the call.
 */
module Branching {
  import opened Wrappers
  import opened EventFlow

  datatype BranchNode<!S> = BranchNode(base: Node, branch: Option<nat>, condition: S -> bool)

  /** The `BranchNode` constructor: a plain node for `sub` plus the condition;
      `branch` is left null. */
  function NewBranchNode<S>(sub: Subscriber, cond: S -> bool): (b: BranchNode<S>)
    ensures b.base.source == sub && b.base.name == sub.name && b.base.next == None
    ensures b.branch == None
    ensures b.condition == cond
  {
    BranchNode(NewNode(sub), None, cond)
  }

  /** `BranchNode.getNext` in state `now`: one of the two successors, and the
      branch exactly when the condition holds now (when they differ). */
  function BranchGetNext<S>(b: BranchNode<S>, now: S): (r: Option<nat>)
    ensures r == b.branch || r == GetNext(b.base)
    ensures b.branch != GetNext(b.base) ==> (r == b.branch <==> b.condition(now))
  {
    if b.condition(now) then b.branch else b.base.next
  }

  /** The condition is evaluated afresh on every call: two calls in states
      where it disagrees pick different successors whenever these differ. */
  lemma FreshEvaluation<S>(b: BranchNode<S>, s1: S, s2: S)
    requires b.condition(s1) && !b.condition(s2)
    requires b.branch != b.base.next
    ensures BranchGetNext(b, s1) == b.branch
    ensures BranchGetNext(b, s2) == b.base.next
    ensures BranchGetNext(b, s1) != BranchGetNext(b, s2)
  {
  }

  /** A condition that never holds makes the branch node behave as a plain
      node, whatever `branch` holds. */
  lemma NeverBranchingIsPlain<S>(b: BranchNode<S>, now: S)
    requires forall s :: !b.condition(s)
    ensures BranchGetNext(b, now) == GetNext(b.base)
  {
  }

  /** Freshly constructed, neither successor has been set, so `getNext`
      answers null in every state. */
  lemma NewBranchNodeHasNoSuccessor<S>(sub: Subscriber, cond: S -> bool, now: S)
    ensures BranchGetNext(NewBranchNode(sub, cond), now) == None
  {
  }
}
