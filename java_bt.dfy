/**
 * The Java behaviour-tree engine (package com.warren.bt), modelled on values.
 *
 * Every node of the engine is a small state machine.  A node's mutable fields
 * (cursor, counters, time stamps, cached subtree, selected child, the child
 * nodes themselves) are the arguments of one constructor of `Node`; `Tick`
 * returns the status, the node's new state and the callbacks it ran, and
 * `Reset` returns the re-armed node.  Everything the engine reads from outside
 * (the clock, callback outcomes, random draws, suppliers) comes from an `Env`.
 */
module JavaBt {

  datatype Option<T> = None | Some(value: T)

  /** Status.java: four values; SLEEPING is produced by Sleep. */
  datatype Status = Success | Failure | Running | Sleeping

  /** The result of a tick: a status, or an exception that escapes the tree. */
  datatype Out = Returned(status: Status) | Raised

  /** What a callback did when it was invoked: returned a value or threw. */
  datatype Outcome<T> = Returns(value: T) | Throws

  datatype Policy = RequireOne | RequireAll

  /** A value given at construction, or read from a supplier on every tick. */
  datatype Source<T> = Fixed(value: T) | Supplied(key: nat)

  /** How an Action produces its status. */
  datatype Body =
    | Call                    // Action(name, Supplier<Status>)
    | Constant(status: Status) // Action(name, Status)
    | RunThen(status: Status)  // succeed(Runnable) / fail(Runnable)

  /** Observable calls into the host program, in the order they happen. */
  datatype Effect =
    | Act(id: nat)        // an action supplier or runnable was invoked
    | Test(id: nat)       // a condition or SleepUntil predicate was evaluated
    | Supply(id: nat)     // a subtree supplier was invoked
    | Start(ext: nat)     // onStart() of an external node
    | End(ext: nat)       // onEnd() of an external node
    | ResetExt(ext: nat)  // reset() of an external node
    | TickExt(ext: nat)   // tick() of an external node

  /**
   * The outside world as seen by one tick.  Functions are keyed by the id of
   * the node (or callback) that reads them.
   */
  datatype Env = Env(
    now: int,                          // System.nanoTime()
    action: nat -> Outcome<Status>,    // Supplier<Status>.get()
    runs: nat -> bool,                 // false when a Runnable throws
    condition: nat -> Outcome<bool>,   // BooleanSupplier.getAsBoolean()
    until: nat -> Outcome<bool>,       // SleepUntil's predicate
    pick: nat -> int,                  // Random.nextInt(bound) before reduction
    roll: nat -> real,                 // Random.nextFloat()
    count: nat -> Outcome<int>,        // Supplier<Integer>.get()
    rate: nat -> Outcome<real>,        // Supplier<Float>.get()
    arm: nat -> int,                   // the duration armed by a reset
    supply: nat -> Outcome<bool>,      // a subtree supplier: a node (true), null (false) or a throw
    resolve: nat -> Outcome<Option<nat>>, // DynamicSubTree's supplier, by identity
    external: nat -> Outcome<Status>   // tick() of an external node
  )

  /** Sleep.UNSET and SleepUntil.UNSET. */
  const Unset: int := -1

  datatype Node =
    | Action(id: nat, body: Body)
    | Condition(id: nat)
    | Sleep(id: nat, start: int, armed: int)
    | SleepUntil(id: nat, start: int, armed: int)
    | Sequence(children: seq<Node>, cursor: nat)
    | Selector(children: seq<Node>, cursor: nat)
    | RandomSelector(id: nat, children: seq<Node>, cursor: nat, selected: Option<nat>)
    | Parallel(children: seq<Node>, cursor: nat, success: Policy, failure: Policy)
    | Inverter(child: Option<Node>)
    | Repeater(child: Option<Node>, max: int, repeats: int)
    | Retry(child: Option<Node>, max: int, attempts: int)
    | Cooldown(id: nat, child: Option<Node>, duration: Source<int>, last: int)
    | SuccessRate(id: nat, child: Option<Node>, rate: Source<real>)
    | WaitFor(id: nat, child: Option<Node>, start: int, armed: int)
    | SubTree(id: nat, source: Node, shared: bool, tree: Option<Node>)
    | DynamicSubTree(id: nat, current: Option<nat>)
  {
    predicate IsComposite() {
      Sequence? || Selector? || RandomSelector? || Parallel?
    }
    predicate IsDecorator() {
      Inverter? || Repeater? || Retry? || Cooldown? || SuccessRate? || WaitFor?
    }
  }

  datatype Step = Step(out: Out, node: Node, trace: seq<Effect>)

  function Max(a: int, b: int): int { if a >= b then a else b }
  function Min(a: real, b: real): real { if a <= b then a else b }

  /** A fixed value is a supplier that returns it and never throws. */
  function DurationOf(s: Source<int>, env: Env): Outcome<int> {
    match s
    case Fixed(v) => Returns(v)
    case Supplied(k) => env.count(k)
  }

  function RateOf(s: Source<real>, env: Env): Outcome<real> {
    match s
    case Fixed(v) => Returns(v)
    case Supplied(k) => env.rate(k)
  }

  /** Inverter's switch (Inverter.java:20-27). */
  function Invert(s: Status): Status {
    match s
    case Success => Failure
    case Failure => Success
    case _ => Running
  }

  /**
   * Same node kind and same configuration (ids, policies, limits, sources,
   * number of children): everything a reset must not touch.
   */
  predicate SameConfig(a: Node, b: Node) {
    match a
    case Action(id, body) => b == a
    case Condition(id) => b == a
    case Sleep(id, _, _) => b.Sleep? && b.id == id
    case SleepUntil(id, _, _) => b.SleepUntil? && b.id == id
    case Sequence(ch, _) => b.Sequence? && |b.children| == |ch|
    case Selector(ch, _) => b.Selector? && |b.children| == |ch|
    case RandomSelector(id, ch, _, _) => b.RandomSelector? && b.id == id && |b.children| == |ch|
    case Parallel(ch, _, sp, fp) =>
      b.Parallel? && |b.children| == |ch| && b.success == sp && b.failure == fp
    case Inverter(c) => b.Inverter? && b.child.Some? == c.Some?
    case Repeater(c, m, _) => b.Repeater? && b.child.Some? == c.Some? && b.max == m
    case Retry(c, m, _) => b.Retry? && b.child.Some? == c.Some? && b.max == m
    case Cooldown(id, c, d, _) => b.Cooldown? && b.id == id && b.child.Some? == c.Some? && b.duration == d
    case SuccessRate(id, c, r) => b.SuccessRate? && b.id == id && b.child.Some? == c.Some? && b.rate == r
    case WaitFor(id, c, _, _) => b.WaitFor? && b.id == id && b.child.Some? == c.Some?
    case SubTree(id, src, shared, _) =>
      b.SubTree? && b.id == id && b.shared == shared && (!shared ==> b.source == src)
    case DynamicSubTree(id, _) => b.DynamicSubTree? && b.id == id
  }

  /** The `reset()` of every node kind. */
  function Reset(n: Node, env: Env): (r: Node)
    ensures SameConfig(n, r)
    ensures n.DynamicSubTree? ==> r == n
    decreases n
  {
    match n
    case Action(_, _) => n
    case Condition(_) => n
    case Sleep(id, _, _) => Sleep(id, Unset, env.arm(id))
    case SleepUntil(id, _, _) => SleepUntil(id, Unset, env.arm(id))
    case Sequence(ch, _) =>
      Sequence(seq(|ch|, i requires 0 <= i < |ch| => Reset(ch[i], env)), 0)
    case Selector(ch, _) =>
      Selector(seq(|ch|, i requires 0 <= i < |ch| => Reset(ch[i], env)), 0)
    case RandomSelector(id, ch, _, _) =>
      RandomSelector(id, seq(|ch|, i requires 0 <= i < |ch| => Reset(ch[i], env)), 0, None)
    case Parallel(ch, _, sp, fp) =>
      Parallel(seq(|ch|, i requires 0 <= i < |ch| => Reset(ch[i], env)), 0, sp, fp)
    case Inverter(c) =>
      Inverter(if c.Some? then Some(Reset(c.value, env)) else None)
    case Repeater(c, m, _) =>
      Repeater(if c.Some? then Some(Reset(c.value, env)) else None, m, 0)
    case Retry(c, m, _) =>
      Retry(if c.Some? then Some(Reset(c.value, env)) else None, m, 0)
    case Cooldown(id, c, d, _) =>
      Cooldown(id, if c.Some? then Some(Reset(c.value, env)) else None, d, -1)
    case SuccessRate(id, c, r) =>
      SuccessRate(id, if c.Some? then Some(Reset(c.value, env)) else None, r)
    case WaitFor(id, c, _, _) =>
      WaitFor(id, if c.Some? then Some(Reset(c.value, env)) else None, Unset, env.arm(id))
    case SubTree(id, src, shared, tree) =>
      if tree.Some? then SubTree(id, if shared then Reset(tree.value, env) else src, shared, None) else n
    case DynamicSubTree(_, _) => n
  }

  /**
   * The calls into the host that `Reset(n, env)` makes, in the order it makes
   * them: the `reset()` of every external node a DynamicSubTree holds
   * (DynamicSubTree.java:36-39), reached through the children in order
   * (Composite.java:22-28), the decorated child (Decorator.java:20-24) and the
   * cached tree of a SubTree (SubTree.java:31-37).
   */
  function ResetCalls(n: Node): (r: seq<Effect>)
    ensures forall k :: 0 <= k < |r| ==> r[k].ResetExt?
    decreases n, 1
  {
    match n
    case Sequence(_, _) => ResetCallsFrom(n, 0)
    case Selector(_, _) => ResetCallsFrom(n, 0)
    case RandomSelector(_, _, _, _) => ResetCallsFrom(n, 0)
    case Parallel(_, _, _, _) => ResetCallsFrom(n, 0)
    case Inverter(c) => if c.Some? then ResetCalls(c.value) else []
    case Repeater(c, _, _) => if c.Some? then ResetCalls(c.value) else []
    case Retry(c, _, _) => if c.Some? then ResetCalls(c.value) else []
    case Cooldown(_, c, _, _) => if c.Some? then ResetCalls(c.value) else []
    case SuccessRate(_, c, _) => if c.Some? then ResetCalls(c.value) else []
    case WaitFor(_, c, _, _) => if c.Some? then ResetCalls(c.value) else []
    case SubTree(_, _, _, tree) => if tree.Some? then ResetCalls(tree.value) else []
    case DynamicSubTree(_, current) => if current.Some? then [ResetExt(current.value)] else []
    case _ => []
  }

  /** The reset calls of a composite's children from the `i`-th on. */
  function ResetCallsFrom(n: Node, i: nat): (r: seq<Effect>)
    requires n.IsComposite()
    ensures forall k :: 0 <= k < |r| ==> r[k].ResetExt?
    decreases n, 0, if i < |n.children| then |n.children| - i else 0
  {
    if i >= |n.children| then [] else ResetCalls(n.children[i]) + ResetCallsFrom(n, i + 1)
  }

  /** A tick function: a node's state and the world in, the step out. */
  type Ticker = (Node, Env) -> Step

  /** The `tick()` of every node kind. */
  function Tick(n: Node, env: Env): (r: Step)
    ensures SameConfig(n, r.node)
    decreases n, 1
  {
    match n
    case Action(_, _) => ActionTick(n, env)
    case Condition(_) => ConditionTick(n, env)
    case Sleep(_, _, _) => SleepTick(n, env)
    case SleepUntil(_, _, _) => SleepUntilTick(n, env)
    case Sequence(ch, cursor) =>
      if |ch| == 0 then Step(Returned(Success), n, [])
      else SequenceFrom(n, cursor, ch, [], env)
    case Selector(ch, cursor) =>
      if |ch| == 0 then Step(Returned(Failure), n, [])
      else SelectorFrom(n, cursor, ch, [], env)
    case RandomSelector(_, ch, _, _) =>
      if |ch| == 0 then Step(Returned(Failure), n, [])
      else RandomSelectorTick(n, env)
    case Parallel(ch, _, _, _) =>
      if |ch| == 0 then Step(Returned(Success), n, [])
      else ParallelFrom(n, 0, ch, 0, 0, [], env)
    case Inverter(c) =>
      if c.None? then Step(Returned(Failure), n, []) else InverterTick(n, env)
    case Repeater(c, _, _) =>
      if c.None? then Step(Returned(Failure), n, []) else RepeaterTick(n, env)
    case Retry(c, _, _) =>
      if c.None? then Step(Returned(Failure), n, []) else RetryTick(n, env)
    case Cooldown(_, c, _, _) =>
      if c.None? then Step(Returned(Failure), n, []) else CooldownTick(n, env)
    case SuccessRate(_, c, _) =>
      if c.None? then Step(Returned(Failure), n, []) else SuccessRateTick(n, env)
    case WaitFor(_, c, _, _) =>
      if c.None? then Step(Raised, n, []) else WaitForTick(n, env)
    case SubTree(_, _, _, _) => SubTreeTick(n, env)
    case DynamicSubTree(_, _) => DynamicSubTreeTick(n, env)
  }

  /** Action.java:18-25: the supplier's status, FAILURE when it throws. */
  function ActionTick(n: Node, env: Env): (r: Step)
    requires n.Action?
    ensures SameConfig(n, r.node)
  {
    match n.body
    case Constant(s) => Step(Returned(s), n, [])
    case Call =>
      (match env.action(n.id)
       case Returns(s) => Step(Returned(s), n, [Act(n.id)])
       case Throws => Step(Returned(Failure), n, [Act(n.id)]))
    case RunThen(s) =>
      Step(Returned(if env.runs(n.id) then s else Failure), n, [Act(n.id)])
  }

  /** Condition.java:14-22. */
  function ConditionTick(n: Node, env: Env): (r: Step)
    requires n.Condition?
    ensures SameConfig(n, r.node)
  {
    match env.condition(n.id)
    case Returns(b) => Step(Returned(if b then Success else Failure), n, [Test(n.id)])
    case Throws => Step(Returned(Failure), n, [Test(n.id)])
  }

  /** Sleep.java:31-44. */
  function SleepTick(n: Node, env: Env): (r: Step)
    requires n.Sleep?
    ensures SameConfig(n, r.node)
  {
    var s := if n.start == Unset then env.now else n.start;
    if env.now - s >= n.armed then Step(Returned(Success), Reset(n, env), [])
    else Step(Returned(Sleeping), Sleep(n.id, s, n.armed), [])
  }

  /** SleepUntil.java:44-62 (the leaf). */
  function SleepUntilTick(n: Node, env: Env): (r: Step)
    requires n.SleepUntil?
    ensures SameConfig(n, r.node)
  {
    var s := if n.start == Unset then env.now else n.start;
    match env.until(n.id)
    case Throws => Step(Raised, SleepUntil(n.id, s, n.armed), [Test(n.id)])
    case Returns(b) =>
      if b then Step(Returned(Success), Reset(n, env), [Test(n.id)])
      else if env.now - s >= n.armed then Step(Returned(Failure), Reset(n, env), [Test(n.id)])
      else Step(Returned(Running), SleepUntil(n.id, s, n.armed), [Test(n.id)])
  }

  /** Inverter.java:13-28 with a child. */
  function InverterTick(n: Node, env: Env): (r: Step)
    requires n.Inverter? && n.child.Some?
    ensures SameConfig(n, r.node)
    decreases n, 0
  {
    var r := Tick(n.child.value, env);
    var here := Inverter(Some(r.node));
    if r.out.Raised? then Step(Raised, here, r.trace)
    else Step(Returned(Invert(r.out.status)), here, r.trace)
  }

  /** Repeater.java:18-52 with a child. */
  function RepeaterTick(n: Node, env: Env): (r: Step)
    requires n.Repeater? && n.child.Some?
    ensures SameConfig(n, r.node)
    decreases n, 0
  {
    var r := Tick(n.child.value, env);
    var here := Repeater(Some(r.node), n.max, n.repeats);
    if r.out.Raised? then Step(Raised, here, r.trace)
    else if n.max < 0 then Step(Returned(Running), here, r.trace)
    else if r.out.status == Running then Step(Returned(Running), here, r.trace)
    else if r.out.status == Failure then Step(Returned(Failure), Reset(here, env), r.trace + ResetCalls(r.node))
    else if n.repeats + 1 >= n.max then
      Step(Returned(Success), Reset(Repeater(Some(r.node), n.max, n.repeats + 1), env), r.trace + ResetCalls(r.node))
    else Step(Returned(Running), Repeater(Some(Reset(r.node, env)), n.max, n.repeats + 1), r.trace + ResetCalls(r.node))
  }

  /** RetryUntilSuccess.java:17-45 with a child. */
  function RetryTick(n: Node, env: Env): (r: Step)
    requires n.Retry? && n.child.Some?
    ensures SameConfig(n, r.node)
    decreases n, 0
  {
    var r := Tick(n.child.value, env);
    var here := Retry(Some(r.node), n.max, n.attempts);
    if r.out.Raised? then Step(Raised, here, r.trace)
    else if r.out.status == Success then Step(Returned(Success), Reset(here, env), r.trace + ResetCalls(r.node))
    else if r.out.status == Running then Step(Returned(Running), here, r.trace)
    else if n.max > 0 && n.attempts + 1 >= n.max then
      Step(Returned(Failure), Reset(Retry(Some(r.node), n.max, n.attempts + 1), env), r.trace + ResetCalls(r.node))
    else Step(Returned(Running), Retry(Some(Reset(r.node, env)), n.max, n.attempts + 1), r.trace + ResetCalls(r.node))
  }

  /** The duration a Cooldown uses on this tick, once its supplier has returned `d` (Cooldown.java:27). */
  function CooldownDuration(d: int): int {
    Max(0, d)
  }

  /**
   * Cooldown.java:21-46 with a child; the current tick is hard-coded to 0
   * (line 26).  A supplier that throws ends the tick before the gate.
   */
  function CooldownTick(n: Node, env: Env): (r: Step)
    requires n.Cooldown? && n.child.Some?
    ensures SameConfig(n, r.node)
    decreases n, 0
  {
    match DurationOf(n.duration, env)
    case Throws => Step(Raised, n, [])
    case Returns(d) =>
    if n.last >= 0 && 0 - n.last < CooldownDuration(d) then Step(Returned(Failure), n, [])
    else
      var r := Tick(n.child.value, env);
      if r.out.Raised? then Step(Raised, Cooldown(n.id, Some(r.node), n.duration, n.last), r.trace)
      else
        var stamp := if n.last < 0 || r.out.status != Running then 0 else n.last;
        Step(r.out, Cooldown(n.id, Some(r.node), n.duration, stamp), r.trace)
  }

  /** The normalised rate a SuccessRate compares the draw with, from the supplier's `raw` (SuccessRate.java:29-32). */
  function Threshold(raw: real): real {
    (if raw < 0.0 then 0.0 else Min(100.0, raw)) / 100.0
  }

  /** SuccessRate.java:23-41 with a child; a supplier that throws ends the tick before the draw. */
  function SuccessRateTick(n: Node, env: Env): (r: Step)
    requires n.SuccessRate? && n.child.Some?
    ensures SameConfig(n, r.node)
    decreases n, 0
  {
    match RateOf(n.rate, env)
    case Throws => Step(Raised, n, [])
    case Returns(raw) =>
    if env.roll(n.id) > Threshold(raw) then Step(Returned(Failure), n, [])
    else
      var r := Tick(n.child.value, env);
      Step(r.out, SuccessRate(n.id, Some(r.node), n.rate), r.trace)
  }

  /** SleepUntil.Decorator.tick (SleepUntil.java:124-152) with a child. */
  function WaitForTick(n: Node, env: Env): (r: Step)
    requires n.WaitFor? && n.child.Some?
    ensures SameConfig(n, r.node)
    decreases n, 0
  {
    var s := if n.start == Unset then env.now else n.start;
    var r := Tick(n.child.value, env);
    if r.out.Raised? then Step(Raised, WaitFor(n.id, Some(r.node), s, n.armed), r.trace)
    else if r.out.status == Success then
      Step(Returned(Success), Reset(WaitFor(n.id, Some(r.node), s, n.armed), env), r.trace + ResetCalls(r.node))
    else
      var kid := if r.out.status == Failure then Reset(r.node, env) else r.node;
      var here := WaitFor(n.id, Some(kid), s, n.armed);
      var t := r.trace + (if r.out.status == Failure then ResetCalls(r.node) else []);
      if env.now - s >= n.armed then Step(Returned(Failure), Reset(here, env), t + ResetCalls(kid))
      else Step(Returned(Running), here, t)
  }

  /**
   * SubTree.java:18-29.  While no tree is held the supplier is called; the
   * node it hands out is `source`.  A supplier that builds a tree on every
   * call (`subtree(Supplier<BehaviorTree>)`) hands out `source` afresh; one
   * that returns the same tree (`subtree(BehaviorTree)`, `shared`) hands out
   * that tree in whatever state the last reset left it, which `Reset` keeps
   * in `source`.
   */
  function SubTreeTick(n: Node, env: Env): (r: Step)
    requires n.SubTree?
    ensures SameConfig(n, r.node)
    decreases n, 0
  {
    match n.tree
    case Some(t) =>
      var r := Tick(t, env);
      Step(r.out, SubTree(n.id, n.source, n.shared, Some(r.node)), r.trace)
    case None =>
      match env.supply(n.id)
      case Throws => Step(Raised, n, [Supply(n.id)])
      case Returns(b) =>
        if !b then Step(Returned(Failure), n, [Supply(n.id)])
        else
          var r := Tick(n.source, env);
          Step(r.out, SubTree(n.id, n.source, n.shared, Some(r.node)), [Supply(n.id)] + r.trace)
  }

  /** DynamicSubTree.java:20-34. */
  function DynamicSubTreeTick(n: Node, env: Env): (r: Step)
    requires n.DynamicSubTree?
    ensures SameConfig(n, r.node)
  {
    match env.resolve(n.id)
    case Throws => Step(Raised, n, [Supply(n.id)])
    case Returns(None) => Step(Returned(Failure), n, [Supply(n.id)])
    case Returns(Some(next)) =>
      var calls := [Supply(n.id)] + Switch(n.current, next) + [TickExt(next)];
      match env.external(next)
      case Returns(s) => Step(Returned(s), DynamicSubTree(n.id, Some(next)), calls)
      case Throws => Step(Raised, DynamicSubTree(n.id, Some(next)), calls)
  }

  /** The lifecycle calls DynamicSubTree makes before ticking `next` (DynamicSubTree.java:25-32). */
  function Switch(current: Option<nat>, next: nat): seq<Effect> {
    if current == Some(next) then []
    else (if current.Some? then [End(current.value), ResetExt(current.value)] else []) + [Start(next)]
  }

  /**
   * Sequence.java:11-31 from cursor `i`: `kids` holds the children's states
   * so far (children before `i` already ticked in this call), `acc` their calls.
   */
  function SequenceFrom(n: Node, i: nat, kids: seq<Node>, acc: seq<Effect>, env: Env): (r: Step)
    requires n.Sequence? && |kids| == |n.children|
    ensures SameConfig(n, r.node)
    decreases n, 0, if i < |n.children| then |n.children| - i else 0
  {
    if i >= |n.children| then Step(Returned(Success), Reset(Sequence(kids, i), env), acc + ResetCalls(Sequence(kids, i)))
    else
      var r := Tick(n.children[i], env);
      var kids' := kids[i := r.node];
      var here := Sequence(kids', i);
      var acc' := acc + r.trace;
      if r.out.Raised? then Step(Raised, here, acc')
      else if r.out.status == Sleeping then Step(Returned(Sleeping), here, acc')
      else if r.out.status == Failure then Step(Returned(Failure), Reset(here, env), acc' + ResetCalls(here))
      else if r.out.status == Running then Step(Returned(Running), here, acc')
      else SequenceFrom(n, i + 1, kids', acc', env)
  }

  /** Selector.java:10-27 from cursor `i`. */
  function SelectorFrom(n: Node, i: nat, kids: seq<Node>, acc: seq<Effect>, env: Env): (r: Step)
    requires n.Selector? && |kids| == |n.children|
    ensures SameConfig(n, r.node)
    decreases n, 0, if i < |n.children| then |n.children| - i else 0
  {
    if i >= |n.children| then Step(Returned(Failure), Reset(Selector(kids, i), env), acc + ResetCalls(Selector(kids, i)))
    else
      var r := Tick(n.children[i], env);
      var kids' := kids[i := r.node];
      var here := Selector(kids', i);
      var acc' := acc + r.trace;
      if r.out.Raised? then Step(Raised, here, acc')
      else if r.out.status == Success then Step(Returned(Success), Reset(here, env), acc' + ResetCalls(here))
      else if r.out.status == Running then Step(Returned(Running), here, acc')
      else SelectorFrom(n, i + 1, kids', acc', env)
  }

  /** The child RandomSelector.java:15-18 ticks: the held one, or a fresh draw in [0, size). */
  function Chosen(n: Node, env: Env): (k: nat)
    requires n.RandomSelector? && |n.children| > 0
    ensures k < |n.children|
    ensures n.selected.Some? && n.selected.value < |n.children| ==> k == n.selected.value
  {
    if n.selected.Some? && n.selected.value < |n.children| then n.selected.value
    else env.pick(n.id) % |n.children|
  }

  /** RandomSelector.java:15-26 for a non-empty selector. */
  function RandomSelectorTick(n: Node, env: Env): (r: Step)
    requires n.RandomSelector? && |n.children| > 0
    ensures SameConfig(n, r.node)
    decreases n, 0
  {
    var k := Chosen(n, env);
    var r := Tick(n.children[k], env);
    var here := RandomSelector(n.id, n.children[k := r.node], n.cursor, Some(k));
    if r.out.Raised? then Step(Raised, here, r.trace)
    else if r.out.status == Success || r.out.status == Failure then
      Step(r.out, Reset(here, env), r.trace + ResetCalls(here))
    else Step(r.out, here, r.trace)
  }

  /** Parallel.java:49-71: the verdict on the tallies. */
  function Verdict(success: Policy, failure: Policy, size: nat, successes: nat, failures: nat): Status {
    if failure == RequireOne && failures > 0 then Failure
    else if failure == RequireAll && failures == size then Failure
    else if success == RequireOne && successes > 0 then Success
    else if success == RequireAll && successes == size then Success
    else Running
  }

  /** Parallel.java:28-71: ticks children `i..` and tallies their statuses. */
  function ParallelFrom(n: Node, i: nat, kids: seq<Node>, successes: nat, failures: nat,
                        acc: seq<Effect>, env: Env): (r: Step)
    requires n.Parallel? && |kids| == |n.children|
    ensures SameConfig(n, r.node)
    decreases n, 0, if i < |n.children| then |n.children| - i else 0
  {
    if i >= |n.children| then
      var v := Verdict(n.success, n.failure, |n.children|, successes, failures);
      var here := Parallel(kids, n.cursor, n.success, n.failure);
      if v == Running then Step(Returned(v), here, acc)
      else Step(Returned(v), Reset(here, env), acc + ResetCalls(here))
    else
      var r := Tick(n.children[i], env);
      var kids' := kids[i := r.node];
      if r.out.Raised? then Step(Raised, Parallel(kids', n.cursor, n.success, n.failure), acc + r.trace)
      else
        ParallelFrom(n, i + 1, kids',
                     successes + (if r.out.status == Success then 1 else 0),
                     failures + (if r.out.status == Failure then 1 else 0),
                     acc + r.trace, env)
  }
}
