/**
 * The loops of the Kotlin composites (Selector, RandomSelector, Parallel,
 * Composite.reset) written as the source writes them and proved to compute
 * what the engine's functions say, the child-list and child-slot updates, and
 * the BehaviorTree object with its tick, run and reset.
 */
module KotlinTree {
  import opened KotlinBt
  import KotlinBtProps

  /** The composite `n` with its child list replaced and every other field kept. */
  function WithChildren(n: Node, ch: seq<Node>): (r: Node)
    requires n.IsComposite()
    ensures r.IsComposite() && r.children == ch
    ensures n.Sequence? == r.Sequence? && n.Selector? == r.Selector?
    ensures n.RandomSelector? == r.RandomSelector? && n.Parallel? == r.Parallel?
    ensures |ch| == |n.children| ==> SameConfig(n, r)
  {
    match n
    case Sequence(_, i) => Sequence(ch, i)
    case Selector(_, i) => Selector(ch, i)
    case RandomSelector(id, _, o, i) => RandomSelector(id, ch, o, i)
    case Parallel(_, sp, fp) => Parallel(ch, sp, fp)
  }

  /** Composite.addChild (Composite.kt:6-8): appends at the end, nothing else changes. */
  function AddChild(n: Node, c: Node): (r: Node)
    requires n.IsComposite()
    ensures r.IsComposite() && WithChildren(r, n.children) == n
    ensures |r.children| == |n.children| + 1
    ensures r.children[..|n.children|] == n.children && r.children[|n.children|] == c
  {
    WithChildren(n, n.children + [c])
  }

  /** The decorator with its child slot emptied: all a decorator holds besides its child. */
  function Detached(d: Node): Node
    requires d.IsDecorator()
  {
    match d
    case Inverter(_) => Inverter(None)
    case Repeater(_, m, k) => Repeater(None, m, k)
    case Retry(_, m, k) => Retry(None, m, k)
    case Cooldown(_, t, r, b) => Cooldown(None, t, r, b)
    case SuccessRate(id, _, p) => SuccessRate(id, None, p)
  }

  /** Decorator.assignChild (Decorator.kt:5-7): replaces the child, keeps everything else. */
  function AssignChild(d: Node, c: Node): (r: Node)
    requires d.IsDecorator()
    ensures r.IsDecorator() && r.child == Some(c) && Detached(r) == Detached(d)
  {
    match d
    case Inverter(_) => Inverter(Some(c))
    case Repeater(_, m, k) => Repeater(Some(c), m, k)
    case Retry(_, m, k) => Retry(Some(c), m, k)
    case Cooldown(_, t, r, b) => Cooldown(Some(c), t, r, b)
    case SuccessRate(id, _, p) => SuccessRate(id, Some(c), p)
  }

  /** A second assignChild overrides the first. */
  lemma AssignChildTwice(d: Node, a: Node, b: Node)
    requires d.IsDecorator()
    ensures AssignChild(AssignChild(d, a), b) == AssignChild(d, b)
    ensures AssignChild(d, a) == AssignChild(d, b) <==> a == b
  {
  }

  /** Composite.reset (Composite.kt:10-13): forEach child reset, then onReset. */
  method CompositeReset(n: Node) returns (r: Node, calls: seq<Effect>)
    requires n.IsComposite()
    ensures r == Reset(n)
    ensures calls == ResetCalls(n)
  {
    var kids;
    kids, calls := ResetChildren(n);
    assert kids == seq(|n.children|, i requires 0 <= i < |n.children| => Reset(n.children[i]));
    match n
    case Sequence(_, _) => r := Sequence(kids, 0);
    case Selector(_, _) => r := Selector(kids, 0);
    case RandomSelector(id, _, _, _) => r := RandomSelector(id, kids, [], 0);
    case Parallel(_, sp, fp) => r := Parallel(kids, sp, fp);
  }

  /** The forEach of Composite.reset: every child reset in order, and the calls those resets make. */
  method ResetChildren(n: Node) returns (kids: seq<Node>, calls: seq<Effect>)
    requires n.IsComposite()
    ensures |kids| == |n.children|
    ensures forall j :: 0 <= j < |kids| ==> kids[j] == Reset(n.children[j])
    ensures calls == ResetCallsFrom(n, 0)
  {
    var ch := n.children;
    kids, calls := [], [];
    for i := 0 to |ch|
      invariant |kids| == i
      invariant forall j :: 0 <= j < i ==> kids[j] == Reset(ch[j])
      invariant calls + ResetCallsFrom(n, i) == ResetCallsFrom(n, 0)
    {
      calls := calls + ResetCalls(ch[i]);
      kids := kids + [Reset(ch[i])];
    }
  }

  /** Selector.tick (Selector.kt:6-20). */
  method SelectorTick(n: Node, env: Env) returns (r: Step)
    requires n.Selector?
    ensures r == Tick(n, env)
  {
    var kids := n.children;
    var i := n.index;
    var acc: seq<Effect> := [];
    while i < |kids|
      invariant |kids| == |n.children|
      invariant forall j :: i <= j < |kids| ==> kids[j] == n.children[j]
      invariant SelectorFrom(n, i, kids, acc, env) == Tick(n, env)
      decreases |kids| - i
    {
      var t := KotlinBt.Tick(kids[i], env);
      kids := kids[i := t.node];
      acc := acc + t.trace;
      match t.status
      case Success => return Step(Success, Selector(kids, i), acc);
      case Failure => i := i + 1;
      case Running => return Step(Running, Selector(kids, i), acc);
    }
    return Step(Failure, Selector(kids, i), acc);
  }

  /**
   * RandomSelector.tick (RandomSelector.kt:7-25).  The indices the loop
   * reads come from a shuffle and stay valid between ticks
   * (`KotlinBtProps.RandomSelectorKeepsOrder`), which the precondition states.
   */
  method RandomSelectorTick(n: Node, env: Env) returns (r: Step)
    requires n.RandomSelector? && KotlinBtProps.OrderValid(n)
    ensures r == KotlinBt.RandomSelectorTick(n, env)
  {
    var order := n.order;
    var idx := n.index;
    if |order| == 0 {
      order := Deal(Range(|n.children|), env.shuffle(n.id));
      idx := 0;
      KotlinBtProps.OrderIsPermutation(|n.children|, env.shuffle(n.id));
    }
    var kids := n.children;
    var acc: seq<Effect> := [];
    ghost var goal := RandomFrom(n, order, idx, kids, acc, env);
    assert goal == KotlinBt.RandomSelectorTick(n, env);
    while idx < |order|
      invariant KotlinBtProps.IndexPermutation(order, |n.children|)
      invariant |kids| == |n.children|
      invariant forall j :: idx <= j < |order| ==> kids[order[j]] == n.children[order[j]]
      invariant RandomFrom(n, order, idx, kids, acc, env) == goal
      decreases |order| - idx
    {
      var c := order[idx];
      var t := KotlinBt.Tick(kids[c], env);
      RandomStep(n, order, idx, kids, acc, env);
      Untouched(order, |n.children|, idx, kids, t.node, n.children);
      kids := kids[c := t.node];
      acc := acc + t.trace;
      if t.status != Failure {
        return Step(t.status, RandomSelector(n.id, kids, order, idx), acc);
      }
      idx := idx + 1;
    }
    return Step(Failure, RandomSelector(n.id, kids, order, idx), acc);
  }

  /** One turn of the random selector's loop. */
  lemma RandomStep(n: Node, order: seq<nat>, k: nat, kids: seq<Node>, acc: seq<Effect>, env: Env)
    requires n.RandomSelector? && |kids| == |n.children| && k < |order| && order[k] < |n.children|
    requires kids[order[k]] == n.children[order[k]]
    ensures var t := Tick(kids[order[k]], env);
      var kids' := kids[order[k] := t.node];
      RandomFrom(n, order, k, kids, acc, env) ==
        if t.status == Failure then RandomFrom(n, order, k + 1, kids', acc + t.trace, env)
        else Step(t.status, RandomSelector(n.id, kids', order, k), acc + t.trace)
  {
  }

  /** Writing the child at `order[k]` leaves the children named later in the order untouched. */
  lemma Untouched(order: seq<nat>, size: nat, k: nat, kids: seq<Node>, x: Node, ch: seq<Node>)
    requires KotlinBtProps.IndexPermutation(order, size) && k < |order| && |kids| == size == |ch|
    requires forall j :: k <= j < |order| ==> kids[order[j]] == ch[order[j]]
    ensures forall j :: k + 1 <= j < |order| ==> kids[order[k] := x][order[j]] == ch[order[j]]
  {
    forall j | k + 1 <= j < |order|
      ensures kids[order[k] := x][order[j]] == ch[order[j]]
    {
      assert order[k] != order[j];
    }
  }

  /** Parallel.tick (Parallel.kt:13-46): every child once, then success before failure. */
  method ParallelTick(n: Node, env: Env) returns (r: Step)
    requires n.Parallel?
    ensures r == Tick(n, env)
  {
    if |n.children| == 0 {
      return Step(Success, n, []);
    }
    var kids := n.children;
    var successes, failures := 0, 0;
    var runningFound := false;
    var acc: seq<Effect> := [];
    for i := 0 to |kids|
      invariant |kids| == |n.children|
      invariant forall j :: i <= j < |kids| ==> kids[j] == n.children[j]
      invariant ParallelFrom(n, i, kids, successes, failures, acc, env) == Tick(n, env)
    {
      var t := KotlinBt.Tick(kids[i], env);
      kids := kids[i := t.node];
      acc := acc + t.trace;
      match t.status
      case Success => successes := successes + 1;
      case Failure => failures := failures + 1;
      case Running => runningFound := true;
    }
    var all := |kids|;
    var success := if n.success == RequireAll then successes == all else successes > 0;
    var failure := if n.failure == RequireAll then failures == all else failures > 0;
    var status := if success then Success else if failure then Failure else Running;
    return Step(status, Parallel(kids, n.success, n.failure), acc);
  }

  datatype RunResult = Finished(status: Status, ticks: nat) | StillRunning

  /** A tick function: a node's state and the world in, the step out. */
  type Ticker = (Node, Env) -> Step

  /**
   * BehaviorTree.run (BehaviorTree.kt:8-14): tick until the result is not
   * RUNNING; `envs[j]` is the world seen by tick `j`.
   */
  function RunSpec(tick: Ticker, root: Node, envs: seq<Env>): (Node, RunResult)
    decreases |envs|
  {
    if |envs| == 0 then (root, StillRunning)
    else
      var t := tick(root, envs[0]);
      if t.status == Running then
        var (last, res) := RunSpec(tick, t.node, envs[1..]);
        (last, if res.Finished? then Finished(res.status, res.ticks + 1) else StillRunning)
      else (t.node, Finished(t.status, 1))
  }

  /** RunSpec on the ticks from the k-th on, one tick unfolded. */
  lemma RunSpecFrom(tick: Ticker, root: Node, envs: seq<Env>, k: nat)
    requires k < |envs|
    ensures var t := tick(root, envs[k]);
      RunSpec(tick, root, envs[k..]) ==
        if t.status == Running then
          var (last, res) := RunSpec(tick, t.node, envs[k + 1..]);
          (last, if res.Finished? then Finished(res.status, res.ticks + 1) else StillRunning)
        else (t.node, Finished(t.status, 1))
  {
    assert envs[k..][1..] == envs[k + 1..];
  }

  /** The root's state after the first `k` ticks. */
  function After(tick: Ticker, root: Node, envs: seq<Env>, k: nat): Node
    requires k <= |envs|
    decreases k
  {
    if k == 0 then root else tick(After(tick, root, envs, k - 1), envs[k - 1]).node
  }

  lemma AfterShift(tick: Ticker, root: Node, envs: seq<Env>, k: nat)
    requires 0 < |envs| && k < |envs|
    ensures After(tick, tick(root, envs[0]).node, envs[1..], k) == After(tick, root, envs, k + 1)
    decreases k
  {
    if k > 0 { AfterShift(tick, root, envs, k - 1); }
  }

  /** A finished run returns SUCCESS or FAILURE from the first tick that did not return RUNNING. */
  lemma {:induction false} RunStopsAtFirstNonRunning(tick: Ticker, root: Node, envs: seq<Env>)
    requires RunSpec(tick, root, envs).1.Finished?
    ensures var k := RunSpec(tick, root, envs).1.ticks;
      1 <= k <= |envs| && RunSpec(tick, root, envs).1.status != Running &&
      tick(After(tick, root, envs, k - 1), envs[k - 1]).status == RunSpec(tick, root, envs).1.status &&
      RunSpec(tick, root, envs).0 == After(tick, root, envs, k)
    decreases |envs|
  {
    var t := tick(root, envs[0]);
    if t.status == Running {
      var rest := RunSpec(tick, t.node, envs[1..]);
      assert RunSpec(tick, root, envs) == (rest.0, Finished(rest.1.status, rest.1.ticks + 1));
      RunStopsAtFirstNonRunning(tick, t.node, envs[1..]);
      var k := rest.1.ticks;
      AfterShift(tick, root, envs, k - 1);
      AfterShift(tick, root, envs, k);
      assert envs[1..][k - 1] == envs[k];
      assert After(tick, t.node, envs[1..], k - 1) == After(tick, root, envs, k);
      assert tick(After(tick, root, envs, k), envs[k]).status == rest.1.status;
    } else {
      assert After(tick, root, envs, 0) == root;
    }
  }

  /** Every tick of a finished run before its last one returned RUNNING. */
  lemma {:induction false} RunRunningBefore(tick: Ticker, root: Node, envs: seq<Env>)
    requires RunSpec(tick, root, envs).1.Finished?
    ensures RunSpec(tick, root, envs).1.ticks <= |envs|
    ensures forall j :: 0 <= j < RunSpec(tick, root, envs).1.ticks - 1 ==>
      tick(After(tick, root, envs, j), envs[j]).status == Running
    decreases |envs|
  {
    var t := tick(root, envs[0]);
    if t.status == Running {
      var rest := RunSpec(tick, t.node, envs[1..]);
      assert RunSpec(tick, root, envs).1.ticks == rest.1.ticks + 1;
      RunRunningBefore(tick, t.node, envs[1..]);
      forall j | 0 <= j < rest.1.ticks
        ensures tick(After(tick, root, envs, j), envs[j]).status == Running
      {
        if j > 0 {
          AfterShift(tick, root, envs, j - 1);
          assert envs[1..][j - 1] == envs[j];
        }
      }
    }
  }

  /** The tree object of BehaviorTree.kt:5-16. */
  class BehaviorTree {
    var root: Node

    constructor (root: Node)
      ensures this.root == root
    {
      this.root := root;
    }

    /** tick() (line 6): the root's tick. */
    method Tick(env: Env) returns (s: Status)
      modifies this
      ensures s == KotlinBt.Tick(old(root), env).status
      ensures root == KotlinBt.Tick(old(root), env).node
    {
      var t := KotlinBt.Tick(root, env);
      root := t.node;
      s := t.status;
    }

    /** reset() (line 16): the root's reset. */
    method Reset() returns (calls: seq<Effect>)
      modifies this
      ensures root == KotlinBt.Reset(old(root))
      ensures calls == KotlinBt.ResetCalls(old(root))
    {
      calls := KotlinBt.ResetCalls(root);
      root := KotlinBt.Reset(root);
    }

    /** run() (lines 8-14): the do-while over tick. */
    method Run(envs: seq<Env>) returns (res: RunResult)
      modifies this
      ensures (root, res) == RunSpec(KotlinBt.Tick, old(root), envs)
    {
      var k := 0;
      var status := Running;
      ghost var start := root;
      while k < |envs| && status == Running
        invariant 0 <= k <= |envs|
        invariant k == 0 ==> status == Running
        invariant RunSpec(KotlinBt.Tick, start, envs) ==
          (if status == Running then
             var (last, r) := RunSpec(KotlinBt.Tick, root, envs[k..]);
             (last, if r.Finished? then Finished(r.status, r.ticks + k) else StillRunning)
           else (root, Finished(status, k)))
        decreases |envs| - k
      {
        RunSpecFrom(KotlinBt.Tick, root, envs, k);
        status := Tick(envs[k]);
        k := k + 1;
      }
      if status == Running {
        assert envs[k..] == [];
        res := StillRunning;
      } else {
        res := Finished(status, k);
      }
    }
  }
}
