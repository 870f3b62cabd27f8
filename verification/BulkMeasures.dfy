/** The last pass of a bulk build: one stack loop over the linked nodes fills in their counts and heights. */
module BulkMeasures {
  import opened Machine
  import opened CanonicalTree
  import opened CanonicalSet
  import opened PostorderStack

  /** trees[j] is the subtree under node j; -1 links to no node. */
  ghost predicate Denotes<V>(trees: seq<Tree<V>>, left: seq<int>, right: seq<int>) {
    && |left| == |right| == |trees|
    && forall j :: 0 <= j < |trees| ==> NodeDenotes(trees, left, right, j)
  }

  ghost predicate NodeDenotes<V>(trees: seq<Tree<V>>, left: seq<int>, right: seq<int>, j: nat)
    requires |left| == |right| == |trees| && j < |trees|
  {
    trees[j].Node? && LinksTo(trees, left[j], trees[j].left) && LinksTo(trees, right[j], trees[j].right)
  }

  ghost predicate LinksTo<V>(trees: seq<Tree<V>>, child: int, t: Tree<V>) {
    if child == -1 then t.Leaf? else 0 <= child < |trees| && trees[child] == t
  }

  /** The nodes that are done have the count and height of their subtree, and so have all nodes below them. */
  ghost predicate Measured<V>(
    trees: seq<Tree<V>>, left: seq<int>, right: seq<int>, counts: seq<nat>, heights: seq<nat>, done: set<int>)
  {
    && |left| == |right| == |counts| == |heights| == |trees| && -1 in done
    && forall j :: j in done && j != -1 ==> NodeMeasured(trees, left, right, counts, heights, done, j)
  }

  ghost predicate NodeMeasured<V>(
    trees: seq<Tree<V>>, left: seq<int>, right: seq<int>, counts: seq<nat>, heights: seq<nat>, done: set<int>, j: int)
    requires |left| == |right| == |counts| == |heights| == |trees|
  {
    && 0 <= j < |trees| && left[j] in done && right[j] in done
    && counts[j] == Size(trees[j]) && heights[j] == Height(trees[j])
  }

  /** Expanded frames await their children, and a frame at position i that is still to be expanded has room for all
      that its subtree pushes. */
  ghost predicate Waiting<V>(
    trees: seq<Tree<V>>, left: seq<int>, right: seq<int>, stack: seq<Frame<int>>, done: set<int>, limit: nat)
    requires |left| == |right| == |trees|
  {
    forall i :: 0 <= i < |stack| ==> FrameWaits(trees, left, right, stack, done, limit, i)
  }

  ghost predicate FrameWaits<V>(
    trees: seq<Tree<V>>, left: seq<int>, right: seq<int>, stack: seq<Frame<int>>, done: set<int>, limit: nat, i: nat)
    requires |left| == |right| == |trees| && i < |stack|
  {
    var j := stack[i].node;
    && 0 <= j < |trees| && 2 * Size(trees[j]) <= limit
    && (stack[i].expanded ==> Awaited(stack, done, i, left[j]) && Awaited(stack, done, i, right[j]))
    && (!stack[i].expanded ==> i + 2 * Size(trees[j]) <= limit)
  }

  ghost function Work<V>(trees: seq<Tree<V>>, stack: seq<Frame<int>>): nat {
    if stack == [] then 0
    else
      var f := stack[|stack| - 1];
      Work(trees, stack[..|stack| - 1]) + if f.expanded || !(0 <= f.node < |trees|) then 1 else 3 * Size(trees[f.node])
  }

  lemma WorkPush<V>(trees: seq<Tree<V>>, stack: seq<Frame<int>>, f: Frame<int>)
    ensures Work(trees, stack + [f]) ==
      Work(trees, stack) + if f.expanded || !(0 <= f.node < |trees|) then 1 else 3 * Size(trees[f.node])
  {
    assert (stack + [f])[..|stack|] == stack;
  }

  lemma PopFrame<V>(trees: seq<Tree<V>>, stack: seq<Frame<int>>) returns (rest: seq<Frame<int>>)
    requires stack != []
    ensures rest == stack[..|stack| - 1] && stack == rest + [stack[|stack| - 1]]
    ensures stack[|stack| - 1].expanded ==> Work(trees, rest) < Work(trees, stack)
  {
    rest := stack[..|stack| - 1];
  }

  /** The frames that expanding a node leaves: the node itself, then each child. */
  function Expanded(rest: seq<Frame<int>>, node: int, left: int, right: int): seq<Frame<int>> {
    var self := rest + [Frame(node, true)];
    var lower := if right != -1 then self + [Frame(right, false)] else self;
    if left != -1 then lower + [Frame(left, false)] else lower
  }

  lemma ExpandedWork<V>(trees: seq<Tree<V>>, left: seq<int>, right: seq<int>, rest: seq<Frame<int>>, node: int)
    requires Denotes(trees, left, right) && 0 <= node < |trees|
    ensures Work(trees, Expanded(rest, node, left[node], right[node])) < Work(trees, rest + [Frame(node, false)])
  {
    var self := rest + [Frame(node, true)];
    var r, l := Frame(right[node], false), Frame(left[node], false);
    assert NodeDenotes(trees, left, right, node);
    WorkPush(trees, rest, Frame(node, true));
    WorkPush(trees, rest, Frame(node, false));
    WorkPush(trees, self, r);
    WorkPush(trees, self, l);
    WorkPush(trees, self + [r], l);
  }

  lemma ExpandedWaits<V>(
    trees: seq<Tree<V>>, left: seq<int>, right: seq<int>, rest: seq<Frame<int>>, node: int, done: set<int>, limit: nat)
    requires Denotes(trees, left, right) && 0 <= node < |trees| && -1 in done
    requires Waiting(trees, left, right, rest + [Frame(node, false)], done, limit)
    ensures var next := Expanded(rest, node, left[node], right[node]);
      && Waiting(trees, left, right, next, done, limit) && |rest| < |next| <= |rest| + 3 <= limit + 1
      && next[0].node == (rest + [Frame(node, false)])[0].node
  {
    var before, next, n := rest + [Frame(node, false)], Expanded(rest, node, left[node], right[node]), |rest|;
    assert FrameWaits(trees, left, right, before, done, limit, n) && NodeDenotes(trees, left, right, node);
    assert next[n] == Frame(node, true) && forall j :: 0 <= j < n ==> next[j] == rest[j];
    forall i | 0 <= i < |next| ensures FrameWaits(trees, left, right, next, done, limit, i) {
      if i < n {
        hide Denotes, NodeDenotes, Size;
        assert FrameWaits(trees, left, right, before, done, limit, i) && next[i] == before[i];
        if next[i].expanded {
          StillAwaited(before, next, done, i, left[next[i].node]);
          StillAwaited(before, next, done, i, right[next[i].node]);
        }
      } else if i == n {
        if right[node] != -1 { assert next[n + 1].node == right[node]; }
        if left[node] != -1 { assert next[|next| - 1].node == left[node]; }
      }
    }
  }

  lemma DroppedWaits<V>(
    trees: seq<Tree<V>>, left: seq<int>, right: seq<int>, stack: seq<Frame<int>>, done: set<int>, limit: nat)
    requires |left| == |right| == |trees| && stack != [] && Waiting(trees, left, right, stack, done, limit)
    ensures Waiting(trees, left, right, stack[..|stack| - 1], done + {stack[|stack| - 1].node}, limit)
  {
    hide Size;
    var n := |stack| - 1;
    var rest, more := stack[..n], done + {stack[n].node};
    forall i | 0 <= i < n ensures FrameWaits(trees, left, right, rest, more, limit, i) {
      assert FrameWaits(trees, left, right, stack, done, limit, i) && rest[i] == stack[i];
      if rest[i].expanded {
        AwaitedBelow(stack, done, more, i, left[rest[i].node]);
        AwaitedBelow(stack, done, more, i, right[rest[i].node]);
      }
    }
  }

  /** Nothing is above the top frame, so once expanded its children are done. */
  lemma TopFacts<V>(
    trees: seq<Tree<V>>, left: seq<int>, right: seq<int>, stack: seq<Frame<int>>, done: set<int>, limit: nat)
    requires |left| == |right| == |trees| && stack != [] && Waiting(trees, left, right, stack, done, limit)
    ensures var f := stack[|stack| - 1];
      0 <= f.node < |trees| && 2 * Size(trees[f.node]) <= limit && (f.expanded ==> left[f.node] in done && right[f.node] in done)
  {
    hide Size;
    assert FrameWaits(trees, left, right, stack, done, limit, |stack| - 1);
  }

  /** The count and height of a node whose children are done. */
  lemma ChildFacts<V>(
    trees: seq<Tree<V>>, left: seq<int>, right: seq<int>, counts: seq<nat>, heights: seq<nat>, done: set<int>, node: int)
    requires Denotes(trees, left, right) && Measured(trees, left, right, counts, heights, done)
    requires 0 <= node < |trees| && left[node] in done && right[node] in done
    ensures -1 <= left[node] < |trees| && -1 <= right[node] < |trees|
    ensures
      var leftCount := if left[node] == -1 then 0 else counts[left[node]];
      var rightCount := if right[node] == -1 then 0 else counts[right[node]];
      var leftHeight := if left[node] == -1 then 0 else heights[left[node]];
      var rightHeight := if right[node] == -1 then 0 else heights[right[node]];
      && leftCount + rightCount + 1 == Size(trees[node])
      && (if leftHeight > rightHeight then leftHeight else rightHeight) + 1 == Height(trees[node])
  {
    assert NodeDenotes(trees, left, right, node);
  }

  lemma NodeDone<V>(
    trees: seq<Tree<V>>, left: seq<int>, right: seq<int>, counts: seq<nat>, heights: seq<nat>, done: set<int>, node: int)
    requires Measured(trees, left, right, counts, heights, done)
    requires 0 <= node < |trees| && left[node] in done && right[node] in done
    ensures Measured(trees, left, right, counts[node := Size(trees[node])], heights[node := Height(trees[node])], done + {node})
  {
    hide Size, Height;
    var counts', heights' := counts[node := Size(trees[node])], heights[node := Height(trees[node])];
    forall j | j in done + {node} && j != -1 ensures NodeMeasured(trees, left, right, counts', heights', done + {node}, j) {
      assert j in done ==> NodeMeasured(trees, left, right, counts, heights, done, j);
    }
  }

  /** Pushes the node again, expanded, and then its children. */
  method ExpandFrame(frames: array<Frame<int>>, pending: nat, node: int, left: int, right: int) returns (next: nat)
    requires pending + 3 <= frames.Length
    modifies frames
    ensures next <= frames.Length && frames[..next] == Expanded(old(frames[..pending]), node, left, right)
  {
    frames[pending] := Frame(node, true);
    next := pending + 1;
    if right != -1 {
      frames[next] := Frame(right, false);
      next := next + 1;
    }
    if left != -1 {
      frames[next] := Frame(left, false);
      next := next + 1;
    }
  }

  /** Fills in a node whose children are done; no count overflows. */
  method MeasureNode<V>(
    ghost trees: seq<Tree<V>>, left: seq<int>, right: seq<int>, node: int, counts: array<nat>, heights: array<nat>,
    ghost done: set<int>)
    returns (status: Status)
    requires Denotes(trees, left, right) && Measured(trees, left, right, counts[..], heights[..], done)
    requires 0 <= node < |trees| && left[node] in done && right[node] in done
    requires counts != heights && Size(trees[node]) <= SIZE_MAX
    modifies counts, heights
    ensures status.Ok? && Measured(trees, left, right, counts[..], heights[..], done + {node})
  {
    ChildFacts(trees, left, right, counts[..], heights[..], done, node);
    NodeDone(trees, left, right, counts[..], heights[..], done, node);
    assert |counts[..]| == |heights[..]| == |trees|;
    hide Denotes, Measured, Size, Height;
    ghost var counts0, heights0 := counts[..], heights[..];
    var l, r := left[node], right[node];
    var leftCount := if l == -1 then 0 else counts[l];
    var rightCount := if r == -1 then 0 else counts[r];
    var leftHeight := if l == -1 then 0 else heights[l];
    var rightHeight := if r == -1 then 0 else heights[r];
    var children := leftCount + rightCount;
    if children > SIZE_MAX || children == SIZE_MAX {
      assert false;
    }
    counts[node] := children + 1;
    heights[node] := (if leftHeight > rightHeight then leftHeight else rightHeight) + 1;
    assert counts[..] == counts0[node := Size(trees[node])];
    assert heights[..] == heights0[node := Height(trees[node])];
    status := Ok;
  }

  /** Fills in the root and every node below it. The stack stays within its 2 * count + 1 frames. */
  method FillMeasures<V>(
    ghost trees: seq<Tree<V>>, left: seq<int>, right: seq<int>, root: int, counts: array<nat>, heights: array<nat>,
    frames: array<Frame<int>>)
    returns (status: Status, ghost done: set<int>)
    requires Denotes(trees, left, right) && 0 <= root < |trees| == counts.Length == heights.Length
    requires counts != heights && Size(trees[root]) <= SIZE_MAX && 2 * Size(trees[root]) + 1 <= frames.Length
    modifies counts, heights, frames
    ensures status.Ok? && root in done && Measured(trees, left, right, counts[..], heights[..], done)
  {
    ghost var limit := 2 * Size(trees[root]);
    frames[0] := Frame(root, false);
    var pending := 1;
    done := {-1};
    status := Ok;
    while pending != 0
      invariant 0 <= pending <= frames.Length && status.Ok? && -1 in done
      invariant Waiting(trees, left, right, frames[..pending], done, limit)
      invariant Measured(trees, left, right, counts[..], heights[..], done)
      invariant root in done || (pending > 0 && frames[0].node == root)
      decreases Work(trees, frames[..pending])
    {
      hide *;
      ghost var stack := frames[..pending];
      TopFacts(trees, left, right, stack, done, limit);
      pending := pending - 1;
      var frame := frames[pending];
      ghost var rest := PopFrame(trees, stack);
      assert frames[..pending] == rest;
      if frame.expanded {
        DroppedWaits(trees, left, right, stack, done, limit);
        status := MeasureNode(trees, left, right, frame.node, counts, heights, done);
        if !status.Ok? {
          return;
        }
        done := done + {frame.node};
      } else {
        ExpandedWaits(trees, left, right, rest, frame.node, done, limit);
        ExpandedWork(trees, left, right, rest, frame.node);
        assert stack == rest + [Frame(frame.node, false)];
        pending := ExpandFrame(frames, pending, frame.node, left[frame.node], right[frame.node]);
      }
    }
  }
}
