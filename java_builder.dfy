/**
 * BehaviorTree.Builder (BehaviorTree.java:79-290): the fluent builder with a
 * stack of open composites and a stack of nodes waiting for a parent.
 *
 * `Frames` is the builder's state as a value and the `...Spec` functions say
 * what each builder call does to it; the class `Builder` holds the two stacks
 * as fields and each of its methods is proved to perform its `...Spec`
 * transition.  A composite opened inside another is added to its parent when
 * it is opened; the parent holds a reference to it, so the children it gets
 * later show through the parent as well.  On values this sharing is kept by
 * storing the finished composite back in its parent's last slot when `end()`
 * closes it (while a composite is open nothing else is added to its parent,
 * so that slot is the one it was given).
 */
module JavaBuilder {
  import opened JavaBt
  import JavaTree

  /** The builder's two stacks; the top of each is its last element. */
  datatype Frames = Frames(nodes: seq<Node>, open: seq<Node>)

  /** The two exceptions of build() (BehaviorTree.java:269-274). */
  datatype BuildError = Unclosed | NotOneRoot

  datatype Result = Built(root: Node) | Failed(error: BuildError)

  /** Every open composite is a composite and every enclosing one already holds its inner one. */
  predicate Valid(s: Frames) {
    (forall k :: 0 <= k < |s.open| ==> s.open[k].IsComposite()) &&
    (forall k :: 0 <= k < |s.open| - 1 ==> |s.open[k].children| > 0)
  }

  /** The empty builder of BehaviorTree.builder(). */
  const Empty := Frames([], [])

  /**
   * sequence(), selector(), randomSelector(), parallel(...)
   * (BehaviorTree.java:86-124): the new composite joins the top composite, if
   * any, and becomes the new top.  The node stack is not consulted.
   */
  function OpenSpec(s: Frames, c: Node): (r: Frames)
    requires Valid(s) && c.IsComposite()
    ensures Valid(r) && r.nodes == s.nodes && |r.open| == |s.open| + 1 && r.open[|s.open|] == c
    ensures |s.open| > 0 ==>
      r.open[|s.open| - 1] == JavaTree.AddChild(s.open[|s.open| - 1], c) && r.open[..|s.open| - 1] == s.open[..|s.open| - 1]
  {
    if |s.open| == 0 then Frames(s.nodes, [c])
    else
      var top := s.open[|s.open| - 1];
      Frames(s.nodes, s.open[..|s.open| - 1] + [JavaTree.AddChild(top, c), c])
  }

  /** A decorator staged by invert(), repeat(..), retry(..), cooldown(..), successRate(..), sleepUntil(long). */
  function StageSpec(s: Frames, d: Node): (r: Frames)
    requires Valid(s) && d.IsDecorator()
    ensures Valid(r) && r.open == s.open && r.nodes == s.nodes + [d]
  {
    Frames(s.nodes + [d], s.open)
  }

  /**
   * The loop of addNode (BehaviorTree.java:279-283): pops the decorators at
   * the top of the node stack, each one taking the node built so far as its
   * child; returns what is left of the stack and the wrapped node.
   */
  function Absorb(nodes: seq<Node>, node: Node): (r: (seq<Node>, Node))
    ensures |r.0| <= |nodes| && r.0 == nodes[..|r.0|]
    ensures |r.0| == 0 || !r.0[|r.0| - 1].IsDecorator()
    ensures forall j :: |r.0| <= j < |nodes| ==> nodes[j].IsDecorator()
    decreases |nodes|
  {
    if |nodes| > 0 && nodes[|nodes| - 1].IsDecorator() then
      Absorb(nodes[..|nodes| - 1], JavaTree.SetChild(nodes[|nodes| - 1], node))
    else (nodes, node)
  }

  /** addNode (BehaviorTree.java:278-290): wrap, then add to the top composite or push. */
  function AddNodeSpec(s: Frames, node: Node): (r: Frames)
    requires Valid(s)
    ensures Valid(r) && |r.open| == |s.open|
  {
    var (rest, w) := Absorb(s.nodes, node);
    if |s.open| > 0 then
      Frames(rest, s.open[..|s.open| - 1] + [JavaTree.AddChild(s.open[|s.open| - 1], w)])
    else Frames(rest + [w], s.open)
  }

  /**
   * end() (BehaviorTree.java:246-257): closes the top composite.  A nested
   * one is already its parent's last child (stored back here, see the module
   * comment); the outermost one is pushed on the node stack.  With nothing
   * open it does nothing.
   */
  function EndSpec(s: Frames): (r: Frames)
    requires Valid(s)
    ensures Valid(r)
    ensures |s.open| == 0 ==> r == s
    ensures |s.open| == 1 ==> r == Frames(s.nodes + [s.open[0]], [])
    ensures |s.open| > 1 ==> r.nodes == s.nodes && |r.open| == |s.open| - 1
  {
    if |s.open| == 0 then s
    else
      var c := s.open[|s.open| - 1];
      var below := s.open[..|s.open| - 1];
      if |below| == 0 then Frames(s.nodes + [c], [])
      else
        var parent := below[|below| - 1];
        var ch := parent.children;
        Frames(s.nodes, below[..|below| - 1] + [JavaTree.WithChildren(parent, ch[|ch| - 1 := c])])
  }

  /** build() (BehaviorTree.java:268-276). */
  function BuildSpec(s: Frames): (r: (Result, Frames))
    requires Valid(s)
    ensures r.0.Built? <==> |s.open| == 0 && |s.nodes| == 1
    ensures r.0.Built? ==> r.0.root == s.nodes[0] && r.1 == Empty
    ensures r.0 == Failed(Unclosed) <==> |s.open| > 0
    ensures r.0.Failed? ==> r.1 == s
  {
    if |s.open| > 0 then (Failed(Unclosed), s)
    else if |s.nodes| != 1 then (Failed(NotOneRoot), s)
    else (Built(s.nodes[0]), Frames([], []))
  }

  /** The node `j` decorator links below `w`, if the chain is that long. */
  function ChildAt(w: Node, j: nat): Option<Node>
    decreases j
  {
    if j == 0 then Some(w)
    else if w.IsDecorator() && w.child.Some? then ChildAt(w.child.value, j - 1)
    else None
  }

  lemma ChildAtAdd(w: Node, a: nat, b: nat)
    requires ChildAt(w, a).Some?
    ensures ChildAt(w, a + b) == ChildAt(ChildAt(w, a).value, b)
    decreases a
  {
    if a > 0 { ChildAtAdd(w.child.value, a - 1, b); }
  }

  /**
   * What addNode's loop builds: the decorators it pops (see Absorb's
   * contract) are nested so that the one staged first is outermost and the
   * one staged last holds the node directly.
   */
  lemma AbsorbNests(nodes: seq<Node>, node: Node)
    ensures var rest, w := Absorb(nodes, node).0, Absorb(nodes, node).1;
      var m := |nodes| - |rest|;
      (forall j :: 0 <= j < m ==> ChildAt(w, j).Some? && ChildAt(w, j).value.IsDecorator() &&
                                  JavaTree.Detached(ChildAt(w, j).value) == JavaTree.Detached(nodes[|rest| + j])) &&
      ChildAt(w, m) == Some(node)
  {
    var rest, w := Absorb(nodes, node).0, Absorb(nodes, node).1;
    forall j | 0 <= j < |nodes| - |rest|
      ensures ChildAt(w, j).Some? && ChildAt(w, j).value.IsDecorator() &&
              JavaTree.Detached(ChildAt(w, j).value) == JavaTree.Detached(nodes[|rest| + j])
    {
      AbsorbChainAt(nodes, node, j);
    }
    AbsorbBottom(nodes, node);
  }

  /** One link of AbsorbNests: the `j`-th decorator down is the `j`-th one popped, counted from the first staged. */
  lemma {:induction false} AbsorbChainAt(nodes: seq<Node>, node: Node, j: nat)
    requires j < |nodes| - |Absorb(nodes, node).0|
    ensures var rest, w := Absorb(nodes, node).0, Absorb(nodes, node).1;
      ChildAt(w, j).Some? && ChildAt(w, j).value.IsDecorator() &&
      JavaTree.Detached(ChildAt(w, j).value) == JavaTree.Detached(nodes[|rest| + j])
    decreases |nodes|
  {
    var d := nodes[|nodes| - 1];
    assert d.IsDecorator();
    var front := nodes[..|nodes| - 1];
    var inner := JavaTree.SetChild(d, node);
    var rest, w := Absorb(front, inner).0, Absorb(front, inner).1;
    assert Absorb(nodes, node) == (rest, w);
    var m := |front| - |rest|;
    if j < m {
      AbsorbChainAt(front, inner, j);
      assert nodes[|rest| + j] == front[|rest| + j];
    } else {
      AbsorbBottom(front, inner);
    }
  }

  /** The node handed to addNode sits below all the decorators popped. */
  lemma {:induction false} AbsorbBottom(nodes: seq<Node>, node: Node)
    ensures ChildAt(Absorb(nodes, node).1, |nodes| - |Absorb(nodes, node).0|) == Some(node)
    decreases |nodes|
  {
    if |nodes| > 0 && nodes[|nodes| - 1].IsDecorator() {
      var front := nodes[..|nodes| - 1];
      var inner := JavaTree.SetChild(nodes[|nodes| - 1], node);
      var rest, w := Absorb(front, inner).0, Absorb(front, inner).1;
      assert Absorb(nodes, node) == (rest, w);
      AbsorbBottom(front, inner);
      ChildAtAdd(w, |front| - |rest|, 1);
      assert ChildAt(inner, 1) == Some(node);
    }
  }

  /**
   * A decorated root takes a second top-level node as its new child: once the
   * root decorator sits wrapped on the node stack, adding another node with
   * nothing open replaces the decorator's child and drops the first one.
   */
  lemma DecoratedRootReplaced(d: Node, first: Node, second: Node)
    requires d.IsDecorator()
    ensures var s := AddNodeSpec(StageSpec(Empty, d), first);
      s == Frames([JavaTree.SetChild(d, first)], []) &&
      AddNodeSpec(s, second) == Frames([JavaTree.SetChild(d, second)], [])
  {
    var w := JavaTree.SetChild(d, first);
    assert StageSpec(Empty, d) == Frames([d], []);
    AddToLoneDecorator(d, first);
    AddToLoneDecorator(w, second);
    JavaTree.SetChildTwice(d, first, second);
  }

  /** addNode with nothing open and one decorator staged: the decorator takes the node and is the only node left. */
  lemma AddToLoneDecorator(d: Node, x: Node)
    requires d.IsDecorator()
    ensures AddNodeSpec(Frames([d], []), x) == Frames([JavaTree.SetChild(d, x)], [])
  {
    AbsorbOne(d, x);
  }

  /** A lone staged decorator takes the node as its child and leaves the stack empty. */
  lemma AbsorbOne(d: Node, x: Node)
    requires d.IsDecorator()
    ensures Absorb([d], x) == ([], JavaTree.SetChild(d, x))
  {
    assert [d][..0] == [];
  }

  /**
   * Opening a composite does not consume staged decorators: a decorator
   * staged before `sequence()` wraps the first leaf added inside it, and the
   * sequence itself is left undecorated.
   */
  lemma StagedBeforeComposite(d: Node, leaf: Node)
    requires d.IsDecorator() && !leaf.IsDecorator()
    ensures var s := AddNodeSpec(OpenSpec(StageSpec(Empty, d), Sequence([], 0)), leaf);
      var b := BuildSpec(EndSpec(s)).0;
      b == Built(Sequence([JavaTree.SetChild(d, leaf)], 0))
  {
    var s0 := OpenSpec(StageSpec(Empty, d), Sequence([], 0));
    assert s0 == Frames([d], [Sequence([], 0)]);
    assert Absorb([d], leaf) == Absorb([], JavaTree.SetChild(d, leaf));
  }

  /**
   * A decorator staged with nothing open and no node after it stays on the
   * node stack, so build() sees two nodes and fails.
   */
  lemma StagedLeftOver(d: Node, leaf: Node)
    requires d.IsDecorator()
    ensures var s := EndSpec(AddNodeSpec(OpenSpec(Empty, Sequence([], 0)), leaf));
      BuildSpec(StageSpec(s, d)).0 == Failed(NotOneRoot)
  {
  }

  /**
   * A nested composite closed by end() is its parent's child with all the
   * children it received while open.
   */
  lemma NestedComposite(a: Node, b: Node)
    requires !a.IsDecorator() && !b.IsDecorator()
    ensures var s1 := OpenSpec(OpenSpec(Empty, Selector([], 0)), Sequence([], 0));
      var s2 := EndSpec(AddNodeSpec(AddNodeSpec(s1, a), b));
      var s3 := EndSpec(s2);
      BuildSpec(s3).0 == Built(Selector([Sequence([a, b], 0)], 0))
  {
    var s1 := OpenSpec(OpenSpec(Empty, Selector([], 0)), Sequence([], 0));
    assert s1 == Frames([], [Selector([Sequence([], 0)], 0), Sequence([], 0)]);
    var s15 := AddNodeSpec(s1, a);
    assert s15 == Frames([], [Selector([Sequence([], 0)], 0), Sequence([a], 0)]);
    var s2 := AddNodeSpec(s15, b);
    assert [a] + [b] == [a, b];
    assert s2 == Frames([], [Selector([Sequence([], 0)], 0), Sequence([a, b], 0)]);
  }

  /** The builder object: the two stacks of BehaviorTree.java:80-81. */
  class Builder {
    var nodeStack: seq<Node>
    var compositeStack: seq<Node>

    function State(): Frames
      reads this
    {
      Frames(nodeStack, compositeStack)
    }

    /** BehaviorTree.builder(): both stacks empty. */
    constructor ()
      ensures State() == Empty
    {
      nodeStack := [];
      compositeStack := [];
    }

    method Open(c: Node)
      requires Valid(State()) && c.IsComposite()
      modifies this
      ensures State() == OpenSpec(old(State()), c)
    {
      if |compositeStack| > 0 {
        var top := compositeStack[|compositeStack| - 1];
        compositeStack := compositeStack[..|compositeStack| - 1] + [JavaTree.AddChild(top, c)];
      }
      compositeStack := compositeStack + [c];
    }

    /** sequence() (lines 86-93). */
    method OpenSequence()
      requires Valid(State())
      modifies this
      ensures State() == OpenSpec(old(State()), Sequence([], 0))
    {
      Open(Sequence([], 0));
    }

    /** selector() (lines 95-102). */
    method OpenSelector()
      requires Valid(State())
      modifies this
      ensures State() == OpenSpec(old(State()), Selector([], 0))
    {
      Open(Selector([], 0));
    }

    /** randomSelector() (lines 104-111); `id` keys its random draws. */
    method OpenRandomSelector(id: nat)
      requires Valid(State())
      modifies this
      ensures State() == OpenSpec(old(State()), RandomSelector(id, [], 0, None))
    {
      Open(RandomSelector(id, [], 0, None));
    }

    /** parallel(successPolicy, failurePolicy) (lines 113-120). */
    method OpenParallel(success: Policy, failure: Policy)
      requires Valid(State())
      modifies this
      ensures State() == OpenSpec(old(State()), Parallel([], 0, success, failure))
    {
      Open(Parallel([], 0, success, failure));
    }

    /** parallel() (lines 122-124): success needs all, failure needs one. */
    method OpenParallelDefault()
      requires Valid(State())
      modifies this
      ensures State() == OpenSpec(old(State()), Parallel([], 0, RequireAll, RequireOne))
    {
      OpenParallel(RequireAll, RequireOne);
    }

    /** addNode (lines 278-290). */
    method AddNode(node: Node)
      requires Valid(State())
      modifies this
      ensures State() == AddNodeSpec(old(State()), node)
    {
      var x := node;
      while |nodeStack| > 0 && nodeStack[|nodeStack| - 1].IsDecorator()
        invariant Absorb(nodeStack, x) == Absorb(old(nodeStack), node)
        invariant compositeStack == old(compositeStack)
        decreases |nodeStack|
      {
        var d := nodeStack[|nodeStack| - 1];
        nodeStack := nodeStack[..|nodeStack| - 1];
        x := JavaTree.SetChild(d, x);
      }
      if |compositeStack| > 0 {
        var top := compositeStack[|compositeStack| - 1];
        compositeStack := compositeStack[..|compositeStack| - 1] + [JavaTree.AddChild(top, x)];
      } else {
        nodeStack := nodeStack + [x];
      }
    }

    /** action(name, supplier) (lines 126-134); the name is not modelled, `id` keys the supplier. */
    method AddAction(id: nat)
      requires Valid(State())
      modifies this
      ensures State() == AddNodeSpec(old(State()), Action(id, Call))
    {
      AddNode(Action(id, Call));
    }

    /** succeed() (lines 136-140). */
    method Succeed(id: nat)
      requires Valid(State())
      modifies this
      ensures State() == AddNodeSpec(old(State()), Action(id, Constant(Success)))
    {
      AddNode(Action(id, Constant(Success)));
    }

    /** succeed(Runnable) (lines 142-147). */
    method SucceedAfter(id: nat)
      requires Valid(State())
      modifies this
      ensures State() == AddNodeSpec(old(State()), Action(id, RunThen(Success)))
    {
      AddNode(Action(id, RunThen(Success)));
    }

    /** fail(Runnable) (lines 149-154). */
    method FailAfter(id: nat)
      requires Valid(State())
      modifies this
      ensures State() == AddNodeSpec(old(State()), Action(id, RunThen(Failure)))
    {
      AddNode(Action(id, RunThen(Failure)));
    }

    /** condition(name, predicate) (lines 156-164). */
    method AddCondition(id: nat)
      requires Valid(State())
      modifies this
      ensures State() == AddNodeSpec(old(State()), Condition(id))
    {
      AddNode(Condition(id));
    }

    /** sleep(duration) (lines 166-170); `armed` is the jittered duration drawn by the constructor. */
    method AddSleep(id: nat, armed: int)
      requires Valid(State())
      modifies this
      ensures State() == AddNodeSpec(old(State()), Sleep(id, Unset, armed))
    {
      AddNode(Sleep(id, Unset, armed));
    }

    /** sleepUntil(predicate, duration) (lines 177-181). */
    method AddSleepUntil(id: nat, armed: int)
      requires Valid(State())
      modifies this
      ensures State() == AddNodeSpec(old(State()), SleepUntil(id, Unset, armed))
    {
      AddNode(SleepUntil(id, Unset, armed));
    }

    /** subtree(tree) (lines 206-213): the supplier hands out `tree`'s root, the same node on every call. */
    method AddSubtree(id: nat, root: Node)
      requires Valid(State())
      modifies this
      ensures State() == AddNodeSpec(old(State()), SubTree(id, root, true, None))
    {
      AddNode(SubTree(id, root, true, None));
    }

    /** subtree(supplier) (lines 215-224): every call builds a tree afresh, whose root is `built`. */
    method AddSubtreeFrom(id: nat, built: Node)
      requires Valid(State())
      modifies this
      ensures State() == AddNodeSpec(old(State()), SubTree(id, built, false, None))
    {
      AddNode(SubTree(id, built, false, None));
    }

    /** node(n) (lines 263-266). */
    method AddCustom(n: Node)
      requires Valid(State())
      modifies this
      ensures State() == AddNodeSpec(old(State()), n)
    {
      AddNode(n);
    }

    method Stage(d: Node)
      requires Valid(State()) && d.IsDecorator()
      modifies this
      ensures State() == StageSpec(old(State()), d)
    {
      nodeStack := nodeStack + [d];
    }

    /** sleepUntil(long) (lines 172-175): stages a SleepUntil.Decorator with no child yet. */
    method StageSleepUntil(id: nat, armed: int)
      requires Valid(State())
      modifies this
      ensures State() == StageSpec(old(State()), WaitFor(id, None, Unset, armed))
    {
      Stage(WaitFor(id, None, Unset, armed));
    }

    /** invert() (lines 183-186). */
    method Invert()
      requires Valid(State())
      modifies this
      ensures State() == StageSpec(old(State()), Inverter(None))
    {
      Stage(Inverter(None));
    }

    /** repeat(max) (lines 188-191); repeatForever() (lines 193-195) is repeat(-1). */
    method Repeat(max: int)
      requires Valid(State())
      modifies this
      ensures State() == StageSpec(old(State()), Repeater(None, max, 0))
    {
      Stage(Repeater(None, max, 0));
    }

    /** retry(max) (lines 197-200); retryForever() (lines 202-204) is retry(-1). */
    method Retry(max: int)
      requires Valid(State())
      modifies this
      ensures State() == StageSpec(old(State()), JavaBt.Retry(None, max, 0))
    {
      Stage(JavaBt.Retry(None, max, 0));
    }

    /** cooldown(ticks) (lines 226-229). */
    method StageCooldown(id: nat, ticks: int)
      requires Valid(State())
      modifies this
      ensures State() == StageSpec(old(State()), Cooldown(id, None, Fixed(ticks), -1))
    {
      Stage(Cooldown(id, None, Fixed(ticks), -1));
    }

    /** cooldown(Supplier) (lines 231-234): the supplier is read once, here, and its value fixed. */
    method StageCooldownFrom(id: nat, get: () -> int)
      requires Valid(State())
      modifies this
      ensures State() == StageSpec(old(State()), Cooldown(id, None, Fixed(get()), -1))
    {
      var ticks := get();
      StageCooldown(id, ticks);
    }

    /** successRate(chance) (lines 236-239). */
    method StageSuccessRate(id: nat, chance: real)
      requires Valid(State())
      modifies this
      ensures State() == StageSpec(old(State()), SuccessRate(id, None, Fixed(chance)))
    {
      Stage(SuccessRate(id, None, Fixed(chance)));
    }

    /** successRate(Supplier) (lines 241-244): read once, here. */
    method StageSuccessRateFrom(id: nat, get: () -> real)
      requires Valid(State())
      modifies this
      ensures State() == StageSpec(old(State()), SuccessRate(id, None, Fixed(get())))
    {
      var chance := get();
      StageSuccessRate(id, chance);
    }

    /** end() (lines 246-257). */
    method End()
      requires Valid(State())
      modifies this
      ensures State() == EndSpec(old(State()))
    {
      if |compositeStack| > 0 {
        var c := compositeStack[|compositeStack| - 1];
        compositeStack := compositeStack[..|compositeStack| - 1];
        if |compositeStack| > 0 {
          var parent := compositeStack[|compositeStack| - 1];
          var ch := parent.children;
          compositeStack := compositeStack[..|compositeStack| - 1] + [JavaTree.WithChildren(parent, ch[|ch| - 1 := c])];
        } else {
          nodeStack := nodeStack + [c];
        }
      }
    }

    /** build() (lines 268-276): the root, or which of the two checks failed. */
    method Build() returns (r: Result)
      requires Valid(State())
      modifies this
      ensures (r, State()) == BuildSpec(old(State()))
    {
      if |compositeStack| > 0 {
        return Failed(Unclosed);
      }
      if |nodeStack| != 1 {
        return Failed(NotOneRoot);
      }
      r := Built(nodeStack[0]);
      nodeStack := [];
    }
  }
}
