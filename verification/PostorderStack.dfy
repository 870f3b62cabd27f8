/** Explicit stacks of walks that finish a node after its children: an expanded frame waits for the nodes above it. */
module PostorderStack {
  datatype Frame<N> = Frame(node: N, expanded: bool)

  /** The child is done, or still to come above position i. */
  ghost predicate Awaited<N>(stack: seq<Frame<N>>, done: set<N>, i: nat, child: N) {
    child in done || exists j :: i < j < |stack| && stack[j].node == child
  }

  /** What was awaited is still awaited on a longer stack with the same nodes below. */
  lemma StillAwaited<N>(stack: seq<Frame<N>>, longer: seq<Frame<N>>, done: set<N>, i: nat, child: N)
    requires Awaited(stack, done, i, child) && |stack| <= |longer|
    requires forall j :: 0 <= j < |stack| ==> longer[j].node == stack[j].node
    ensures Awaited(longer, done, i, child)
  {
    if child !in done {
      var j :| i < j < |stack| && stack[j].node == child;
      assert longer[j].node == child;
    }
  }

  /** Once the top node is done, nothing below waits for it. */
  lemma AwaitedBelow<N>(stack: seq<Frame<N>>, done: set<N>, more: set<N>, i: nat, child: N)
    requires stack != [] && Awaited(stack, done, i, child) && stack[|stack| - 1].node in more && done <= more
    ensures Awaited(stack[..|stack| - 1], more, i, child)
  {
    if child !in more {
      var j :| i < j < |stack| && stack[j].node == child;
      assert stack[..|stack| - 1][j].node == child;
    }
  }
}
