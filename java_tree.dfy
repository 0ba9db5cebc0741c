/**
 * The loops of the Java composites (Sequence, Selector, Parallel,
 * Composite.reset, Composite.addChildren) written as the source writes them,
 * each proved to compute exactly what the engine's functions say, and the
 * BehaviorTree object with its tick, run and reset.
 */
module JavaTree {
  import opened JavaBt

  /** Composite.addChild (Composite.java:10-13): appends at the end. */
  function AddChild(n: Node, c: Node): (r: Node)
    requires n.IsComposite()
    ensures r.IsComposite() && WithChildren(r, n.children) == n
    ensures |r.children| == |n.children| + 1
    ensures r.children[..|n.children|] == n.children && r.children[|n.children|] == c
  {
    WithChildren(n, n.children + [c])
  }

  /** The composite `n` with its child list replaced and every other field kept. */
  function WithChildren(n: Node, ch: seq<Node>): (r: Node)
    requires n.IsComposite()
    ensures r.IsComposite() && r.children == ch && r.cursor == n.cursor
    ensures |ch| == |n.children| ==> SameConfig(n, r)
    ensures n.Sequence? == r.Sequence? && n.Selector? == r.Selector?
    ensures n.RandomSelector? == r.RandomSelector? && n.Parallel? == r.Parallel?
    ensures n.RandomSelector? ==> r.id == n.id && r.selected == n.selected
    ensures n.Parallel? ==> r.success == n.success && r.failure == n.failure
  {
    match n
    case Sequence(_, c) => Sequence(ch, c)
    case Selector(_, c) => Selector(ch, c)
    case RandomSelector(id, _, c, sel) => RandomSelector(id, ch, c, sel)
    case Parallel(_, c, sp, fp) => Parallel(ch, c, sp, fp)
  }

  /** Composite.addChildren (Composite.java:15-20): appends its arguments in argument order. */
  method AddChildren(n: Node, nodes: seq<Node>) returns (r: Node)
    requires n.IsComposite()
    ensures r.IsComposite() && r.cursor == n.cursor
    ensures r.children == n.children + nodes
    ensures r == WithChildren(n, n.children + nodes)
  {
    r := n;
    for i := 0 to |nodes|
      invariant r == WithChildren(n, n.children + nodes[..i])
    {
      assert n.children + nodes[..i + 1] == r.children + [nodes[i]];
      r := AddChild(r, nodes[i]);
    }
    assert nodes[..|nodes|] == nodes;
  }

  /**
   * Composite.reset (Composite.java:22-28) and RandomSelector.reset: cursor 0
   * and every child reset in order; `calls` are the resets' calls into the host.
   */
  method CompositeReset(n: Node, env: Env) returns (r: Node, calls: seq<Effect>)
    requires n.IsComposite()
    ensures r == Reset(n, env)
    ensures calls == ResetCalls(n)
  {
    var kids;
    kids, calls := ResetChildren(n, env);
    assert kids == seq(|n.children|, i requires 0 <= i < |n.children| => Reset(n.children[i], env));
    match n
    case Sequence(_, _) => r := Sequence(kids, 0);
    case Selector(_, _) => r := Selector(kids, 0);
    case RandomSelector(id, _, _, _) => r := RandomSelector(id, kids, 0, None);
    case Parallel(_, _, sp, fp) => r := Parallel(kids, 0, sp, fp);
  }

  /** The loop of Composite.reset: every child reset in order, and the calls those resets make. */
  method ResetChildren(n: Node, env: Env) returns (kids: seq<Node>, calls: seq<Effect>)
    requires n.IsComposite()
    ensures |kids| == |n.children|
    ensures forall j :: 0 <= j < |kids| ==> kids[j] == Reset(n.children[j], env)
    ensures calls == ResetCallsFrom(n, 0)
  {
    var ch := n.children;
    kids, calls := [], [];
    for i := 0 to |ch|
      invariant |kids| == i
      invariant forall j :: 0 <= j < i ==> kids[j] == Reset(ch[j], env)
      invariant calls + ResetCallsFrom(n, i) == ResetCallsFrom(n, 0)
    {
      calls := calls + ResetCalls(ch[i]);
      kids := kids + [Reset(ch[i], env)];
    }
  }

  /** Sequence.tick (Sequence.java:6-32) as a loop over the cursor. */
  method SequenceTick(n: Node, env: Env) returns (r: Step)
    requires n.Sequence?
    ensures r == Tick(n, env)
  {
    if |n.children| == 0 {
      return Step(Returned(Success), n, []);
    }
    var kids := n.children;
    var i := n.cursor;
    var acc: seq<Effect> := [];
    while i < |kids|
      invariant |kids| == |n.children|
      invariant forall j :: i <= j < |kids| ==> kids[j] == n.children[j]
      invariant SequenceFrom(n, i, kids, acc, env) == Tick(n, env)
      decreases |kids| - i
    {
      var t := JavaBt.Tick(kids[i], env);
      kids := kids[i := t.node];
      acc := acc + t.trace;
      if t.out.Raised? {
        return Step(Raised, Sequence(kids, i), acc);
      }
      if t.out.status == Sleeping {
        return Step(Returned(Sleeping), Sequence(kids, i), acc);
      }
      if t.out.status != Success {
        if t.out.status == Failure {
          var reset, calls := CompositeReset(Sequence(kids, i), env);
          return Step(Returned(Failure), reset, acc + calls);
        }
        return Step(t.out, Sequence(kids, i), acc);
      }
      i := i + 1;
    }
    var reset, calls := CompositeReset(Sequence(kids, i), env);
    return Step(Returned(Success), reset, acc + calls);
  }

  /** Selector.tick (Selector.java:5-28) as a loop over the cursor. */
  method SelectorTick(n: Node, env: Env) returns (r: Step)
    requires n.Selector?
    ensures r == Tick(n, env)
  {
    if |n.children| == 0 {
      return Step(Returned(Failure), n, []);
    }
    var kids := n.children;
    var i := n.cursor;
    var acc: seq<Effect> := [];
    while i < |kids|
      invariant |kids| == |n.children|
      invariant forall j :: i <= j < |kids| ==> kids[j] == n.children[j]
      invariant SelectorFrom(n, i, kids, acc, env) == Tick(n, env)
      decreases |kids| - i
    {
      var t := JavaBt.Tick(kids[i], env);
      kids := kids[i := t.node];
      acc := acc + t.trace;
      if t.out.Raised? {
        return Step(Raised, Selector(kids, i), acc);
      }
      if t.out.status == Success {
        var reset, calls := CompositeReset(Selector(kids, i), env);
        return Step(Returned(Success), reset, acc + calls);
      }
      if t.out.status == Running {
        return Step(Returned(Running), Selector(kids, i), acc);
      }
      i := i + 1;
    }
    var reset, calls := CompositeReset(Selector(kids, i), env);
    return Step(Returned(Failure), reset, acc + calls);
  }

  /** Parallel.tick (Parallel.java:22-72): one pass over every child with tallies, then the verdict. */
  method ParallelTick(n: Node, env: Env) returns (r: Step)
    requires n.Parallel?
    ensures r == Tick(n, env)
  {
    if |n.children| == 0 {
      return Step(Returned(Success), n, []);
    }
    var kids := n.children;
    var successes, failures, running := 0, 0, 0;
    var acc: seq<Effect> := [];
    for i := 0 to |kids|
      invariant |kids| == |n.children|
      invariant forall j :: i <= j < |kids| ==> kids[j] == n.children[j]
      invariant successes <= i && failures <= i
      invariant ParallelFrom(n, i, kids, successes, failures, acc, env) == Tick(n, env)
    {
      var t := JavaBt.Tick(kids[i], env);
      kids := kids[i := t.node];
      acc := acc + t.trace;
      if t.out.Raised? {
        return Step(Raised, Parallel(kids, n.cursor, n.success, n.failure), acc);
      }
      match t.out.status
      case Success => successes := successes + 1;
      case Failure => failures := failures + 1;
      case Running => running := running + 1;
      case Sleeping =>
    }
    var here := Parallel(kids, n.cursor, n.success, n.failure);
    if n.failure == RequireOne && failures > 0 {
      var reset, calls := CompositeReset(here, env);
      return Step(Returned(Failure), reset, acc + calls);
    }
    if n.failure == RequireAll && failures == |kids| {
      var reset, calls := CompositeReset(here, env);
      return Step(Returned(Failure), reset, acc + calls);
    }
    if n.success == RequireOne && successes > 0 {
      var reset, calls := CompositeReset(here, env);
      return Step(Returned(Success), reset, acc + calls);
    }
    if n.success == RequireAll && successes == |kids| {
      var reset, calls := CompositeReset(here, env);
      return Step(Returned(Success), reset, acc + calls);
    }
    return Step(Returned(Running), here, acc);
  }

  /** Decorator.setChild (Decorator.java:14-17): replaces the child and keeps everything else. */
  function SetChild(d: Node, c: Node): (r: Node)
    requires d.IsDecorator()
    ensures r.IsDecorator() && r.child == Some(c)
    ensures Detached(r) == Detached(d)
  {
    match d
    case Inverter(_) => Inverter(Some(c))
    case Repeater(_, m, k) => Repeater(Some(c), m, k)
    case Retry(_, m, k) => Retry(Some(c), m, k)
    case Cooldown(id, _, du, last) => Cooldown(id, Some(c), du, last)
    case SuccessRate(id, _, rate) => SuccessRate(id, Some(c), rate)
    case WaitFor(id, _, s, a) => WaitFor(id, Some(c), s, a)
  }

  /** The decorator with its child slot emptied: all a decorator holds besides its child. */
  function Detached(d: Node): Node
    requires d.IsDecorator()
  {
    match d
    case Inverter(_) => Inverter(None)
    case Repeater(_, m, k) => Repeater(None, m, k)
    case Retry(_, m, k) => Retry(None, m, k)
    case Cooldown(id, _, du, last) => Cooldown(id, None, du, last)
    case SuccessRate(id, _, rate) => SuccessRate(id, None, rate)
    case WaitFor(id, _, s, a) => WaitFor(id, None, s, a)
  }

  /** A second setChild overrides the first: a decorator keeps one child only. */
  lemma SetChildTwice(d: Node, a: Node, b: Node)
    requires d.IsDecorator()
    ensures SetChild(SetChild(d, a), b) == SetChild(d, b)
    ensures SetChild(d, a) == SetChild(d, b) <==> a == b
  {
  }

  /** What `run` reports: the first non-RUNNING result and how many ticks it took, or that every tick ran. */
  datatype RunResult = Finished(out: Out, ticks: nat) | StillRunning

  /**
   * BehaviorTree.run (BehaviorTree.java:66-73): tick until the result is not
   * RUNNING.  `envs[j]` is the world seen by the j-th tick; when the ticks
   * run out while every result was RUNNING the run has not finished yet.
   */
  function RunSpec(tick: Ticker, root: Node, envs: seq<Env>): (Node, RunResult)
    decreases |envs|
  {
    if |envs| == 0 then (root, StillRunning)
    else
      var t := tick(root, envs[0]);
      if t.out == Returned(Running) then
        var (last, res) := RunSpec(tick, t.node, envs[1..]);
        (last, if res.Finished? then Finished(res.out, res.ticks + 1) else StillRunning)
      else (t.node, Finished(t.out, 1))
  }

  /** RunSpec on the ticks from the k-th on, one tick unfolded. */
  lemma RunSpecFrom(tick: Ticker, root: Node, envs: seq<Env>, k: nat)
    requires k < |envs|
    ensures var t := tick(root, envs[k]);
      RunSpec(tick, root, envs[k..]) ==
        if t.out == Returned(Running) then
          var (last, res) := RunSpec(tick, t.node, envs[k + 1..]);
          (last, if res.Finished? then Finished(res.out, res.ticks + 1) else StillRunning)
        else (t.node, Finished(t.out, 1))
  {
    assert envs[k..][1..] == envs[k + 1..];
  }

  /** The root's state after the first `k` ticks. */
  function After(tick: Ticker, root: Node, envs: seq<Env>, k: nat): Node
    requires k <= |envs|
    decreases k
  {
    if k == 0 then root else tick(After(tick, root, envs, k - 1), envs[k - 1]).node
  }

  lemma AfterShift(tick: Ticker, root: Node, envs: seq<Env>, k: nat)
    requires 0 < |envs| && k < |envs|
    ensures After(tick, tick(root, envs[0]).node, envs[1..], k) == After(tick, root, envs, k + 1)
    decreases k
  {
    if k > 0 { AfterShift(tick, root, envs, k - 1); }
  }

  /**
   * When `run` finishes it returns the first result that is not RUNNING
   * (SLEEPING included), after exactly the ticks before it returned RUNNING.
   */
  lemma {:induction false} RunStopsAtFirstNonRunning(tick: Ticker, root: Node, envs: seq<Env>)
    requires RunSpec(tick, root, envs).1.Finished?
    ensures var k := RunSpec(tick, root, envs).1.ticks;
      1 <= k <= |envs| && RunSpec(tick, root, envs).1.out != Returned(Running) &&
      tick(After(tick, root, envs, k - 1), envs[k - 1]).out == RunSpec(tick, root, envs).1.out &&
      RunSpec(tick, root, envs).0 == After(tick, root, envs, k)
    decreases |envs|
  {
    var t := tick(root, envs[0]);
    if t.out == Returned(Running) {
      var rest := RunSpec(tick, t.node, envs[1..]);
      assert RunSpec(tick, root, envs) == (rest.0, Finished(rest.1.out, rest.1.ticks + 1));
      RunStopsAtFirstNonRunning(tick, t.node, envs[1..]);
      var k := rest.1.ticks;
      AfterShift(tick, root, envs, k - 1);
      AfterShift(tick, root, envs, k);
      assert envs[1..][k - 1] == envs[k];
      assert After(tick, t.node, envs[1..], k - 1) == After(tick, root, envs, k);
      assert tick(After(tick, root, envs, k), envs[k]).out == rest.1.out;
    } else {
      assert After(tick, root, envs, 0) == root;
    }
  }

  /** Every tick of a finished run before its last one returned RUNNING. */
  lemma {:induction false} RunRunningBefore(tick: Ticker, root: Node, envs: seq<Env>)
    requires RunSpec(tick, root, envs).1.Finished?
    ensures RunSpec(tick, root, envs).1.ticks <= |envs|
    ensures forall j :: 0 <= j < RunSpec(tick, root, envs).1.ticks - 1 ==>
      tick(After(tick, root, envs, j), envs[j]).out == Returned(Running)
    decreases |envs|
  {
    var t := tick(root, envs[0]);
    if t.out == Returned(Running) {
      var rest := RunSpec(tick, t.node, envs[1..]);
      assert RunSpec(tick, root, envs).1.ticks == rest.1.ticks + 1;
      RunRunningBefore(tick, t.node, envs[1..]);
      forall j | 0 <= j < rest.1.ticks
        ensures tick(After(tick, root, envs, j), envs[j]).out == Returned(Running)
      {
        if j > 0 {
          AfterShift(tick, root, envs, j - 1);
          assert envs[1..][j - 1] == envs[j];
        }
      }
    }
  }

  /** A run that has not finished saw RUNNING from every tick it was given. */
  lemma {:induction false} RunStillRunning(tick: Ticker, root: Node, envs: seq<Env>)
    requires RunSpec(tick, root, envs).1.StillRunning?
    ensures forall j :: 0 <= j < |envs| ==> tick(After(tick, root, envs, j), envs[j]).out == Returned(Running)
    ensures RunSpec(tick, root, envs).0 == After(tick, root, envs, |envs|)
    decreases |envs|
  {
    if |envs| > 0 {
      var t := tick(root, envs[0]);
      RunStillRunning(tick, t.node, envs[1..]);
      AfterShift(tick, root, envs, |envs| - 1);
      forall j | 0 <= j < |envs|
        ensures tick(After(tick, root, envs, j), envs[j]).out == Returned(Running)
      {
        if j > 0 {
          AfterShift(tick, root, envs, j - 1);
          assert envs[1..][j - 1] == envs[j];
        }
      }
    }
  }

  /** The tree object of BehaviorTree.java:47-78. */
  class BehaviorTree {
    var root: Node

    constructor (root: Node)
      ensures this.root == root
    {
      this.root := root;
    }

    /** BehaviorTree.tick (lines 62-64): the root's tick. */
    method Tick(env: Env) returns (out: Out)
      modifies this
      ensures out == JavaBt.Tick(old(root), env).out
      ensures root == JavaBt.Tick(old(root), env).node
    {
      var t := JavaBt.Tick(root, env);
      root := t.node;
      out := t.out;
    }

    /** BehaviorTree.reset (lines 75-77): the root's reset. */
    method Reset(env: Env) returns (calls: seq<Effect>)
      modifies this
      ensures root == JavaBt.Reset(old(root), env)
      ensures calls == JavaBt.ResetCalls(old(root))
    {
      calls := JavaBt.ResetCalls(root);
      root := JavaBt.Reset(root, env);
    }

    /** BehaviorTree.run (lines 66-73): the do-while over tick. */
    method Run(envs: seq<Env>) returns (res: RunResult)
      modifies this
      ensures (root, res) == RunSpec(JavaBt.Tick, old(root), envs)
    {
      var k := 0;
      var status := Returned(Running);
      ghost var start := root;
      ghost var tick: Ticker := JavaBt.Tick;
      while k < |envs| && status == Returned(Running)
        invariant 0 <= k <= |envs|
        invariant k == 0 ==> status == Returned(Running)
        invariant RunSpec(tick, start, envs) ==
          (if status == Returned(Running) then
             var (last, r) := RunSpec(tick, root, envs[k..]);
             (last, if r.Finished? then Finished(r.out, r.ticks + k) else StillRunning)
           else (root, Finished(status, k)))
        decreases |envs| - k
      {
        RunSpecFrom(tick, root, envs, k);
        ghost var t := tick(root, envs[k]);
        status := Tick(envs[k]);
        assert status == t.out && root == t.node;
        k := k + 1;
      }
      if status == Returned(Running) {
        assert envs[k..] == [];
        res := StillRunning;
      } else {
        res := Finished(status, k);
      }
    }
  }
}
