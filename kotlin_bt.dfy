/**
 * The Kotlin behaviour-tree engine (src/main/kotlin/com/warren/bt), modelled
 * on values.  It has the same node kinds as the Java engine but different
 * rules, so it is a module of its own.
 *
 * Its `when` expressions over a status list three values only, so `Status`
 * here has three.  A node's mutable fields are the arguments of its
 * constructor; `Tick` returns the status, the node's next state and the
 * callbacks it ran, `Reset` the re-armed node.  The clock, callback results,
 * the shuffle and random draws come from an `Env`.
 */
module KotlinBt {

  datatype Option<T> = None | Some(value: T)

  datatype Status = Success | Failure | Running

  datatype Policy = RequireAll | RequireOne

  datatype Effect =
    | Act(id: nat)     // an action callback ran
    | Test(id: nat)    // a predicate, or a bypass function, was evaluated
    | Supply(id: nat)  // a subtree supplier ran

  /** One tick's view of the world, keyed by the id of the node that reads it. */
  datatype Env = Env(
    now: int,                    // System.nanoTime()
    action: nat -> Status,       // an action callback's result
    condition: nat -> bool,      // a Condition predicate
    until: nat -> bool,          // a SleepUntil predicate
    bypass: nat -> bool,         // SleepUntilIdle's bypass function
    idle: nat -> bool,           // the local player shows no animation and is not moving
    shuffle: nat -> seq<nat>,    // the draws behind `indices.shuffled()`
    roll: nat -> real            // Random.nextFloat()
  )

  /**
   * An Action with `fixed == None` returns its callback's status; the
   * builder's succeed/fail actions run their optional callback and return a
   * fixed status.
   */
  datatype Node =
    | Action(id: nat, fixed: Option<Status>)
    | Condition(id: nat)
    | Sleep(millis: int, start: Option<int>)
    | SleepUntil(id: nat, millis: int, start: Option<int>)
    | SleepUntilIdle(id: nat, idleMillis: int, timeoutMillis: int, hasBypass: bool,
                     idleStart: Option<int>, totalStart: Option<int>)
    | Sequence(children: seq<Node>, index: nat)
    | Selector(children: seq<Node>, index: nat)
    | RandomSelector(id: nat, children: seq<Node>, order: seq<nat>, index: nat)
    | Parallel(children: seq<Node>, success: Policy, failure: Policy)
    | Inverter(child: Option<Node>)
    | Repeater(child: Option<Node>, max: int, count: int)
    | Retry(child: Option<Node>, max: int, attempts: int)
    | Cooldown(child: Option<Node>, ticks: int, remaining: int, runningChild: bool)
    | SuccessRate(id: nat, child: Option<Node>, chance: real)
    | SubTree(id: nat, source: Node, resolved: Option<Node>)
  {
    predicate IsComposite() {
      Sequence? || Selector? || RandomSelector? || Parallel?
    }
    predicate IsDecorator() {
      Inverter? || Repeater? || Retry? || Cooldown? || SuccessRate?
    }
  }

  datatype Step = Step(status: Status, node: Node, trace: seq<Effect>)

  /** Milliseconds to nanoseconds, as `millis * 1_000_000`. */
  function Nanos(millis: int): int { millis * 1_000_000 }

  /** The values 0 .. k-1 in order, as `children.indices`. */
  function Range(k: nat): (r: seq<nat>)
    ensures |r| == k && forall j :: 0 <= j < k ==> r[j] == j
  {
    if k == 0 then [] else Range(k - 1) + [k - 1]
  }

  /**
   * `shuffled()` driven by draws: each draw picks (modulo the pool size) one
   * of the values not dealt yet.  A missing draw picks the first.
   */
  function Deal(pool: seq<nat>, draws: seq<nat>): (r: seq<nat>)
    ensures multiset(r) == multiset(pool)
    decreases |pool|
  {
    if |pool| == 0 then []
    else
      var k := (if |draws| > 0 then draws[0] else 0) % |pool|;
      assert pool == pool[..k] + [pool[k]] + pool[k + 1..];
      [pool[k]] + Deal(pool[..k] + pool[k + 1..], if |draws| > 0 then draws[1..] else [])
  }

  /** Same node kind and configuration, same number of children, same child presence. */
  predicate SameConfig(a: Node, b: Node) {
    match a
    case Action(_, _) => b == a
    case Condition(_) => b == a
    case Sleep(ms, _) => b.Sleep? && b.millis == ms
    case SleepUntil(id, ms, _) => b.SleepUntil? && b.id == id && b.millis == ms
    case SleepUntilIdle(id, im, tm, bp, _, _) =>
      b.SleepUntilIdle? && b.id == id && b.idleMillis == im && b.timeoutMillis == tm && b.hasBypass == bp
    case Sequence(ch, _) => b.Sequence? && |b.children| == |ch|
    case Selector(ch, _) => b.Selector? && |b.children| == |ch|
    case RandomSelector(id, ch, _, _) => b.RandomSelector? && b.id == id && |b.children| == |ch|
    case Parallel(ch, sp, fp) => b.Parallel? && |b.children| == |ch| && b.success == sp && b.failure == fp
    case Inverter(c) => b.Inverter? && b.child.Some? == c.Some?
    case Repeater(c, m, _) => b.Repeater? && b.child.Some? == c.Some? && b.max == m
    case Retry(c, m, _) => b.Retry? && b.child.Some? == c.Some? && b.max == m
    case Cooldown(c, t, _, _) => b.Cooldown? && b.child.Some? == c.Some? && b.ticks == t
    case SuccessRate(id, c, p) => b.SuccessRate? && b.id == id && b.child.Some? == c.Some? && b.chance == p
    case SubTree(id, src, _) => b.SubTree? && b.id == id && b.source == src
  }

  /** The resolved child reset, or nothing. */
  function ResetChild(c: Option<Node>): (r: Option<Node>)
    ensures r.Some? == c.Some?
    decreases c
  {
    match c
    case None => None
    case Some(x) => Some(Reset(x))
  }

  /**
   * reset(): Composite.kt:10-13 and Decorator.kt:9-12 reset the children
   * first and then run `onReset`; leaves clear their timers; SubTree.kt:7-9
   * resolves its root (if it had not yet) and resets it.
   */
  function Reset(n: Node): (r: Node)
    ensures SameConfig(n, r)
    decreases n
  {
    match n
    case Action(_, _) => n
    case Condition(_) => n
    case Sleep(ms, _) => Sleep(ms, None)
    case SleepUntil(id, ms, _) => SleepUntil(id, ms, None)
    case SleepUntilIdle(id, im, tm, bp, _, _) => SleepUntilIdle(id, im, tm, bp, None, None)
    case Sequence(ch, _) =>
      Sequence(seq(|ch|, i requires 0 <= i < |ch| => Reset(ch[i])), 0)
    case Selector(ch, _) =>
      Selector(seq(|ch|, i requires 0 <= i < |ch| => Reset(ch[i])), 0)
    case RandomSelector(id, ch, _, _) =>
      RandomSelector(id, seq(|ch|, i requires 0 <= i < |ch| => Reset(ch[i])), [], 0)
    case Parallel(ch, sp, fp) =>
      Parallel(seq(|ch|, i requires 0 <= i < |ch| => Reset(ch[i])), sp, fp)
    case Inverter(c) => Inverter(ResetChild(c))
    case Repeater(c, m, _) => Repeater(ResetChild(c), m, 0)
    case Retry(c, m, _) => Retry(ResetChild(c), m, 0)
    case Cooldown(c, t, _, _) => Cooldown(ResetChild(c), t, t, false)
    case SuccessRate(id, c, p) => SuccessRate(id, ResetChild(c), p)
    case SubTree(id, src, res) =>
      match res
      case None => SubTree(id, src, Some(Reset(src)))
      case Some(x) => SubTree(id, src, Some(Reset(x)))
  }

  /**
   * The suppliers a reset runs, in the order it runs them: children first,
   * and an unresolved SubTree's lazy root is built (SubTree.kt:5,8) before
   * it is reset.  No other reset calls back into user code.
   */
  function ResetCalls(n: Node): (r: seq<Effect>)
    ensures forall k :: 0 <= k < |r| ==> r[k].Supply?
    decreases n, 1
  {
    match n
    case Sequence(_, _) => ResetCallsFrom(n, 0)
    case Selector(_, _) => ResetCallsFrom(n, 0)
    case RandomSelector(_, _, _, _) => ResetCallsFrom(n, 0)
    case Parallel(_, _, _) => ResetCallsFrom(n, 0)
    case Inverter(c) => if c.Some? then ResetCalls(c.value) else []
    case Repeater(c, _, _) => if c.Some? then ResetCalls(c.value) else []
    case Retry(c, _, _) => if c.Some? then ResetCalls(c.value) else []
    case Cooldown(c, _, _, _) => if c.Some? then ResetCalls(c.value) else []
    case SuccessRate(_, c, _) => if c.Some? then ResetCalls(c.value) else []
    case SubTree(id, src, res) => if res.Some? then ResetCalls(res.value) else [Supply(id)] + ResetCalls(src)
    case _ => []
  }

  /** The reset calls of a composite's children from the `i`-th on. */
  function ResetCallsFrom(n: Node, i: nat): (r: seq<Effect>)
    requires n.IsComposite()
    ensures forall k :: 0 <= k < |r| ==> r[k].Supply?
    decreases n, 0, if i < |n.children| then |n.children| - i else 0
  {
    if i >= |n.children| then [] else ResetCalls(n.children[i]) + ResetCallsFrom(n, i + 1)
  }

  function Tick(n: Node, env: Env): (r: Step)
    ensures SameConfig(n, r.node)
    decreases n, 1
  {
    match n
    case Action(id, fixed) => Step(if fixed.Some? then fixed.value else env.action(id), n, [Act(id)])
    case Condition(id) => Step(if env.condition(id) then Success else Failure, n, [Test(id)])
    case Sleep(_, _) => SleepTick(n, env)
    case SleepUntil(_, _, _) => SleepUntilTick(n, env)
    case SleepUntilIdle(_, _, _, _, _, _) => SleepUntilIdleTick(n, env)
    case Sequence(_, _) => SequenceTick(n, env)
    case Selector(ch, i) => SelectorFrom(n, i, ch, [], env)
    case RandomSelector(_, _, _, _) => RandomSelectorTick(n, env)
    case Parallel(ch, _, _) => ParallelFrom(n, 0, ch, 0, 0, [], env)
    case Inverter(_) => InverterTick(n, env)
    case Repeater(_, _, _) => RepeaterTick(n, env)
    case Retry(_, _, _) => RetryTick(n, env)
    case Cooldown(_, _, _, _) => CooldownTick(n, env)
    case SuccessRate(_, _, _) => SuccessRateTick(n, env)
    case SubTree(_, _, _) => SubTreeTick(n, env)
  }

  /** Sleep.kt:7-12: start on the first tick; RUNNING until the duration has elapsed. */
  function SleepTick(n: Node, env: Env): (r: Step)
    requires n.Sleep?
    ensures SameConfig(n, r.node)
    decreases n, 0
  {
    var started := if n.start.Some? then n.start.value else env.now;
    Step(if env.now - started < Nanos(n.millis) then Running else Success, Sleep(n.millis, Some(started)), [])
  }

  /** SleepUntil.kt:11-21: the predicate first, then the timer. */
  function SleepUntilTick(n: Node, env: Env): (r: Step)
    requires n.SleepUntil?
    ensures SameConfig(n, r.node)
    decreases n, 0
  {
    if env.until(n.id) then Step(Success, n, [Test(n.id)])
    else
      var started := if n.start.Some? then n.start.value else env.now;
      Step(if env.now - started < Nanos(n.millis) then Running else Failure,
           SleepUntil(n.id, n.millis, Some(started)), [Test(n.id)])
  }

  /** SleepUntilIdle.kt:17-45: bypass, then the total timeout, then the idle timer. */
  function SleepUntilIdleTick(n: Node, env: Env): (r: Step)
    requires n.SleepUntilIdle?
    ensures SameConfig(n, r.node)
    decreases n, 0
  {
    var asked := if n.hasBypass then [Test(n.id)] else [];
    if n.hasBypass && env.bypass(n.id) then Step(Success, n, asked)
    else
      var total := if n.totalStart.Some? then n.totalStart.value else env.now;
      if env.now - total > Nanos(n.timeoutMillis) then
        Step(Failure, SleepUntilIdle(n.id, n.idleMillis, n.timeoutMillis, n.hasBypass, n.idleStart, Some(total)), asked)
      else if env.idle(n.id) then
        var idleFrom := if n.idleStart.Some? then n.idleStart.value else env.now;
        Step(if env.now - idleFrom >= Nanos(n.idleMillis) then Success else Running,
             SleepUntilIdle(n.id, n.idleMillis, n.timeoutMillis, n.hasBypass, Some(idleFrom), Some(total)), asked)
      else
        Step(Running, SleepUntilIdle(n.id, n.idleMillis, n.timeoutMillis, n.hasBypass, None, Some(total)), asked)
  }

  /** Sequence.kt:6-18: one child per tick. */
  function SequenceTick(n: Node, env: Env): (r: Step)
    requires n.Sequence?
    ensures SameConfig(n, r.node)
    decreases n, 0
  {
    if n.index >= |n.children| then Step(Success, n, [])
    else
      var r := Tick(n.children[n.index], env);
      var kids := n.children[n.index := r.node];
      match r.status
      case Success =>
        Step(if n.index + 1 >= |n.children| then Success else Running, Sequence(kids, n.index + 1), r.trace)
      case Running => Step(Running, Sequence(kids, n.index), r.trace)
      case Failure => Step(Failure, Sequence(kids, n.index), r.trace)
  }

  /** Selector.kt:6-20: children `i..` in order until one does not fail. */
  function SelectorFrom(n: Node, i: nat, kids: seq<Node>, acc: seq<Effect>, env: Env): (r: Step)
    requires n.Selector? && |kids| == |n.children|
    ensures SameConfig(n, r.node)
    decreases n, 0, if i < |n.children| then |n.children| - i else 0
  {
    if i >= |n.children| then Step(Failure, Selector(kids, i), acc)
    else
      var r := Tick(n.children[i], env);
      var kids' := kids[i := r.node];
      if r.status == Failure then SelectorFrom(n, i + 1, kids', acc + r.trace, env)
      else Step(r.status, Selector(kids', i), acc + r.trace)
  }

  /** RandomSelector.kt:8-11: an empty order is refilled with a shuffle of the child indices. */
  function Order(n: Node, env: Env): seq<nat>
    requires n.RandomSelector?
  {
    if |n.order| == 0 then Deal(Range(|n.children|), env.shuffle(n.id)) else n.order
  }

  /** RandomSelector.kt:7-25. */
  function RandomSelectorTick(n: Node, env: Env): (r: Step)
    requires n.RandomSelector?
    ensures SameConfig(n, r.node)
    decreases n, 0
  {
    var order := Order(n, env);
    RandomFrom(n, order, if |n.order| == 0 then 0 else n.index, n.children, [], env)
  }

  /**
   * RandomSelector.kt:12-24: the children named by `order[k..]` in turn until
   * one does not fail.  An index outside the children is not produced by the
   * shuffle (see `OrderIsPermutation`); it ends the call with FAILURE.
   */
  function RandomFrom(n: Node, order: seq<nat>, k: nat, kids: seq<Node>, acc: seq<Effect>, env: Env): (r: Step)
    requires n.RandomSelector? && |kids| == |n.children|
    ensures SameConfig(n, r.node)
    decreases n, 0, if k < |order| then |order| - k else 0
  {
    if k >= |order| then Step(Failure, RandomSelector(n.id, kids, order, k), acc)
    else if order[k] >= |n.children| then Step(Failure, RandomSelector(n.id, kids, order, k), acc)
    else
      var r := Tick(n.children[order[k]], env);
      var kids' := kids[order[k] := r.node];
      if r.status == Failure then RandomFrom(n, order, k + 1, kids', acc + r.trace, env)
      else Step(r.status, RandomSelector(n.id, kids', order, k), acc + r.trace)
  }

  /** Parallel.kt:30-45: success is decided before failure. */
  function Verdict(success: Policy, failure: Policy, size: nat, successes: nat, failures: nat): Status {
    var ok := if success == RequireAll then successes == size else successes > 0;
    var bad := if failure == RequireAll then failures == size else failures > 0;
    if ok then Success else if bad then Failure else Running
  }

  /** Parallel.kt:13-46: every child once, then the verdict; nothing is reset. */
  function ParallelFrom(n: Node, i: nat, kids: seq<Node>, successes: nat, failures: nat,
                        acc: seq<Effect>, env: Env): (r: Step)
    requires n.Parallel? && |kids| == |n.children|
    ensures SameConfig(n, r.node)
    decreases n, 0, if i < |n.children| then |n.children| - i else 0
  {
    if |n.children| == 0 then Step(Success, n, [])
    else if i >= |n.children| then
      Step(Verdict(n.success, n.failure, |n.children|, successes, failures),
           Parallel(kids, n.success, n.failure), acc)
    else
      var r := Tick(n.children[i], env);
      ParallelFrom(n, i + 1, kids[i := r.node],
                   successes + (if r.status == Success then 1 else 0),
                   failures + (if r.status == Failure then 1 else 0),
                   acc + r.trace, env)
  }

  function Invert(s: Status): Status {
    match s
    case Success => Failure
    case Failure => Success
    case Running => Running
  }

  /** Inverter.kt:4-11. */
  function InverterTick(n: Node, env: Env): (r: Step)
    requires n.Inverter?
    ensures SameConfig(n, r.node)
    decreases n, 0
  {
    match n.child
    case None => Step(Failure, n, [])
    case Some(c) =>
      var r := Tick(c, env);
      Step(Invert(r.status), Inverter(Some(r.node)), r.trace)
  }

  /** Repeater.kt:6-17: every completion counts and resets the child. */
  function RepeaterTick(n: Node, env: Env): (r: Step)
    requires n.Repeater?
    ensures SameConfig(n, r.node)
    decreases n, 0
  {
    match n.child
    case None => Step(Failure, n, [])
    case Some(c) =>
      var r := Tick(c, env);
      if r.status == Running then Step(Running, Repeater(Some(r.node), n.max, n.count), r.trace)
      else
        var count := n.count + 1;
        Step(if n.max >= 0 && count >= n.max then Success else Running,
             Repeater(Some(Reset(r.node)), n.max, count), r.trace + ResetCalls(r.node))
  }

  /** RetryUntilSuccess.kt:6-22: failures count; the last one leaves the child as it is. */
  function RetryTick(n: Node, env: Env): (r: Step)
    requires n.Retry?
    ensures SameConfig(n, r.node)
    decreases n, 0
  {
    match n.child
    case None => Step(Failure, n, [])
    case Some(c) =>
      var r := Tick(c, env);
      if r.status != Failure then Step(r.status, Retry(Some(r.node), n.max, n.attempts), r.trace)
      else
        var attempts := n.attempts + 1;
        if n.max >= 0 && attempts >= n.max then Step(Failure, Retry(Some(r.node), n.max, attempts), r.trace)
        else Step(Running, Retry(Some(Reset(r.node)), n.max, attempts), r.trace + ResetCalls(r.node))
  }

  /** Cooldown.kt:11-30: count down while idle, then run the child to completion. */
  function CooldownTick(n: Node, env: Env): (r: Step)
    requires n.Cooldown?
    ensures SameConfig(n, r.node)
    decreases n, 0
  {
    match n.child
    case None => Step(Failure, n, [])
    case Some(c) =>
      if !n.runningChild && n.remaining > 0 then
        Step(Running, Cooldown(n.child, n.ticks, n.remaining - 1, false), [])
      else
        var r := Tick(c, env);
        if r.status != Running then
          Step(r.status, Cooldown(Some(Reset(r.node)), n.ticks, n.ticks, false), r.trace + ResetCalls(r.node))
        else Step(Running, Cooldown(Some(r.node), n.ticks, n.remaining, true), r.trace)
  }

  /** SuccessRate.kt:10-15: the child is ticked only past the chance gate. */
  function SuccessRateTick(n: Node, env: Env): (r: Step)
    requires n.SuccessRate?
    ensures SameConfig(n, r.node)
    decreases n, 0
  {
    if n.chance <= 0.0 then Step(Failure, n, [])
    else if n.chance < 1.0 && env.roll(n.id) > n.chance then Step(Failure, n, [])
    else
      match n.child
      case None => Step(Failure, n, [])
      case Some(c) =>
        var r := Tick(c, env);
        Step(r.status, SuccessRate(n.id, Some(r.node), n.chance), r.trace)
  }

  /** SubTree.kt:5-6: the root is resolved at first use and kept. */
  function SubTreeTick(n: Node, env: Env): (r: Step)
    requires n.SubTree?
    ensures SameConfig(n, r.node)
    decreases n, 0
  {
    match n.resolved
    case None =>
      var r := Tick(n.source, env);
      Step(r.status, SubTree(n.id, n.source, Some(r.node)), [Supply(n.id)] + r.trace)
    case Some(x) =>
      var r := Tick(x, env);
      Step(r.status, SubTree(n.id, n.source, Some(r.node)), r.trace)
  }
}
