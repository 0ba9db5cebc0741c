/**
 * Properties of the Kotlin behaviour-tree engine: the shuffle is a
 * permutation, what each composite does in one tick, the per-kind rules of
 * leaves and decorators, and the invariants their counters keep.
 */
module KotlinBtProps {
  import opened KotlinBt

  // ---------------------------------------------------------------------
  // The shuffle

  /** Distinct entries, each naming one of `k` children. */
  predicate IndexPermutation(r: seq<nat>, k: nat) {
    |r| == k &&
    (forall j :: 0 <= j < |r| ==> r[j] < k) &&
    (forall a, b :: 0 <= a < b < |r| ==> r[a] != r[b]) &&
    (forall v :: 0 <= v < k ==> v in r)
  }

  lemma RangeCounts(k: nat, v: nat)
    ensures multiset(Range(k))[v] == if v < k then 1 else 0
  {
    if k > 0 {
      RangeCounts(k - 1, v);
      assert Range(k) == Range(k - 1) + [k - 1];
    }
  }

  /** A value at two positions of a sequence is counted at least twice by its multiset. */
  lemma TwiceCounted(r: seq<nat>, a: nat, b: nat)
    requires a < b < |r| && r[a] == r[b]
    ensures multiset(r)[r[a]] >= 2
  {
    var x := r[a];
    assert r == r[..b] + [r[b]] + r[b + 1..];
    assert multiset(r) == multiset(r[..b]) + multiset{x} + multiset(r[b + 1..]);
    assert r[..b][a] == x;
    assert x in multiset(r[..b]);
  }

  /** A sequence with the multiset of 0 .. k-1 lists each of those values once. */
  lemma {:induction false} SameAsRange(r: seq<nat>, k: nat)
    requires multiset(r) == multiset(Range(k))
    ensures IndexPermutation(r, k)
  {
    assert |r| == k by {
      assert |multiset(r)| == |multiset(Range(k))|;
    }
    forall j | 0 <= j < |r|
      ensures r[j] < k
    {
      assert r[j] in multiset(r);
      RangeCounts(k, r[j]);
    }
    forall a, b | 0 <= a < b < |r|
      ensures r[a] != r[b]
    {
      if r[a] == r[b] {
        TwiceCounted(r, a, b);
        RangeCounts(k, r[a]);
        assert false;
      }
    }
    forall v | 0 <= v < k
      ensures v in r
    {
      RangeCounts(k, v);
      assert v in multiset(r);
    }
  }

  /** `indices.shuffled()`: whatever the draws, every child index exactly once. */
  lemma OrderIsPermutation(k: nat, draws: seq<nat>)
    ensures IndexPermutation(Deal(Range(k), draws), k)
  {
    SameAsRange(Deal(Range(k), draws), k);
  }

  /** The random selector's order is a permutation of its children, or empty (not shuffled yet). */
  predicate OrderValid(n: Node)
    requires n.RandomSelector?
  {
    |n.order| == 0 || IndexPermutation(n.order, |n.children|)
  }

  /** Ticking and resetting keep the order valid, and a tick always leaves a valid shuffled order in place. */
  lemma RandomSelectorKeepsOrder(n: Node, env: Env)
    requires n.RandomSelector? && OrderValid(n)
    ensures Tick(n, env).node.RandomSelector? && OrderValid(Tick(n, env).node)
    ensures Tick(n, env).node.order == Order(n, env)
    ensures Reset(n).RandomSelector? && Reset(n).order == []
  {
    OrderIsPermutation(|n.children|, env.shuffle(n.id));
    RandomFromShape(n, Order(n, env), if |n.order| == 0 then 0 else n.index, n.children, [], env);
  }

  lemma {:induction false} RandomFromShape(n: Node, order: seq<nat>, k: nat, kids: seq<Node>, acc: seq<Effect>, env: Env)
    requires n.RandomSelector? && |kids| == |n.children|
    ensures var r := RandomFrom(n, order, k, kids, acc, env);
      r.node.RandomSelector? && r.node.id == n.id && r.node.order == order && |r.node.children| == |n.children|
    decreases if k < |order| then |order| - k else 0
  {
    if k < |order| && order[k] < |n.children| {
      var r := Tick(n.children[order[k]], env);
      if r.status == Failure {
        RandomFromShape(n, order, k + 1, kids[order[k] := r.node], acc + r.trace, env);
      }
    }
  }

  // ---------------------------------------------------------------------
  // Reset

  lemma {:induction false} ResetIdempotent(n: Node)
    ensures Reset(Reset(n)) == Reset(n)
    decreases n
  {
    match n
    case Sequence(ch, _) =>
      forall i | 0 <= i < |ch| { ResetIdempotent(ch[i]); }
      assert Reset(Reset(n)).children == Reset(n).children;
    case Selector(ch, _) =>
      forall i | 0 <= i < |ch| { ResetIdempotent(ch[i]); }
      assert Reset(Reset(n)).children == Reset(n).children;
    case RandomSelector(_, ch, _, _) =>
      forall i | 0 <= i < |ch| { ResetIdempotent(ch[i]); }
      assert Reset(Reset(n)).children == Reset(n).children;
    case Parallel(ch, _, _) =>
      forall i | 0 <= i < |ch| { ResetIdempotent(ch[i]); }
      assert Reset(Reset(n)).children == Reset(n).children;
    case Inverter(c) => if c.Some? { ResetIdempotent(c.value); }
    case Repeater(c, _, _) => if c.Some? { ResetIdempotent(c.value); }
    case Retry(c, _, _) => if c.Some? { ResetIdempotent(c.value); }
    case Cooldown(c, _, _, _) => if c.Some? { ResetIdempotent(c.value); }
    case SuccessRate(_, c, _) => if c.Some? { ResetIdempotent(c.value); }
    case SubTree(_, src, res) =>
      if res.Some? { ResetIdempotent(res.value); } else { ResetIdempotent(src); }
    case _ =>
  }

  /** Composite.reset: every child reset, then the kind's own onReset (Parallel has none). */
  lemma CompositeResetShape(n: Node)
    requires n.IsComposite()
    ensures Reset(n).IsComposite() && |Reset(n).children| == |n.children|
    ensures forall i :: 0 <= i < |n.children| ==> Reset(n).children[i] == Reset(n.children[i])
    ensures n.Sequence? || n.Selector? ==> Reset(n).index == 0
    ensures n.RandomSelector? ==> Reset(n).order == [] && Reset(n).index == 0
    ensures n.Parallel? ==> Reset(n).success == n.success && Reset(n).failure == n.failure
  {
  }

  /** Decorator.reset: the child when present, then onReset. */
  lemma DecoratorResetShape(n: Node)
    requires n.IsDecorator()
    ensures Reset(n).IsDecorator()
    ensures Reset(n).child == (if n.child.Some? then Some(Reset(n.child.value)) else None)
    ensures n.Repeater? ==> Reset(n).count == 0
    ensures n.Retry? ==> Reset(n).attempts == 0
    ensures n.Cooldown? ==> Reset(n).remaining == n.ticks && !Reset(n).runningChild
    ensures n.child.None? && (n.Inverter? || n.SuccessRate?) ==> Reset(n) == n
  {
  }

  /** SubTree.kt:5-9: a reset resolves the root if that had not happened and resets it; it never clears it. */
  lemma SubTreeReset(n: Node)
    requires n.SubTree?
    ensures Reset(n).SubTree? && Reset(n).resolved.Some?
    ensures Reset(n).resolved.value == Reset(if n.resolved.Some? then n.resolved.value else n.source)
    ensures ResetCalls(n) ==
      if n.resolved.Some? then ResetCalls(n.resolved.value) else [Supply(n.id)] + ResetCalls(n.source)
  {
  }

  // ---------------------------------------------------------------------
  // Leaves

  lemma ActionRules(n: Node, env: Env)
    requires n.Action?
    ensures Tick(n, env).status == (if n.fixed.Some? then n.fixed.value else env.action(n.id))
    ensures Tick(n, env).node == n && Tick(n, env).trace == [Act(n.id)]
    ensures Reset(n) == n
  {
  }

  lemma ConditionRules(n: Node, env: Env)
    requires n.Condition?
    ensures Tick(n, env).status == (if env.condition(n.id) then Success else Failure)
    ensures Tick(n, env).status != Running && Tick(n, env).node == n && Reset(n) == n
  {
  }

  /** Sleep.kt:7-16: start on the first tick, RUNNING until elapsed, never FAILURE. */
  lemma SleepRules(n: Node, env: Env)
    requires n.Sleep?
    ensures var t := Tick(n, env);
      t.node.Sleep? && t.node.millis == n.millis && t.node.start.Some? &&
      t.node.start == (if n.start.Some? then n.start else Some(env.now)) &&
      (t.status == Running <==> env.now - t.node.start.value < Nanos(n.millis)) &&
      t.status != Failure
    ensures Reset(n).start.None?
    ensures n.start.None? && n.millis <= 0 ==> Tick(n, env).status == Success
  {
  }

  /** There is no automatic reset: once a Sleep has succeeded it succeeds again on every later tick. */
  lemma SleepStaysDone(n: Node, env: Env, later: Env)
    requires n.Sleep? && Tick(n, env).status == Success && later.now >= env.now
    ensures Tick(Tick(n, env).node, later).status == Success
    ensures Tick(Tick(n, env).node, later).node == Tick(n, env).node
  {
  }

  /** SleepUntil.kt:11-25. */
  lemma SleepUntilRules(n: Node, env: Env)
    requires n.SleepUntil?
    ensures var t := Tick(n, env);
      (env.until(n.id) ==> t.status == Success && t.node == n) &&
      (!env.until(n.id) ==>
         t.node == SleepUntil(n.id, n.millis, Some(if n.start.Some? then n.start.value else env.now)) &&
         (t.status == Running <==> env.now - t.node.start.value < Nanos(n.millis)) &&
         t.status != Success)
    ensures Reset(n).start.None?
  {
  }

  /** SleepUntilIdle.kt:17-50. */
  lemma SleepUntilIdleRules(n: Node, env: Env)
    requires n.SleepUntilIdle?
    ensures var t := Tick(n, env);
      t.node.SleepUntilIdle? && SameConfig(n, t.node) &&
      (n.hasBypass && env.bypass(n.id) ==> t.status == Success && t.node == n) &&
      (!(n.hasBypass && env.bypass(n.id)) ==>
         t.node.totalStart == Some(if n.totalStart.Some? then n.totalStart.value else env.now) &&
         (env.now - t.node.totalStart.value > Nanos(n.timeoutMillis) ==>
            t.status == Failure && t.node.idleStart == n.idleStart) &&
         (env.now - t.node.totalStart.value <= Nanos(n.timeoutMillis) ==>
            t.status != Failure &&
            (env.idle(n.id) ==>
               t.node.idleStart == Some(if n.idleStart.Some? then n.idleStart.value else env.now) &&
               (t.status == Success <==> env.now - t.node.idleStart.value >= Nanos(n.idleMillis))) &&
            (!env.idle(n.id) ==> t.node.idleStart.None? && t.status == Running)))
    ensures Reset(n).idleStart.None? && Reset(n).totalStart.None?
  {
  }

  // ---------------------------------------------------------------------
  // Sequence

  /** Sequence.kt:6-18: at most one child ticked, FAILURE keeps the cursor and resets nothing. */
  lemma SequenceRules(n: Node, env: Env)
    requires n.Sequence?
    ensures var t := Tick(n, env);
      t.node.Sequence? && |t.node.children| == |n.children| &&
      (n.index >= |n.children| ==> t == Step(Success, n, [])) &&
      (n.index < |n.children| ==>
         var c := Tick(n.children[n.index], env);
         t.trace == c.trace &&
         t.node.children == n.children[n.index := c.node] &&
         (c.status == Success ==>
            t.node.index == n.index + 1 &&
            t.status == (if n.index + 1 >= |n.children| then Success else Running)) &&
         (c.status != Success ==> t.node.index == n.index && t.status == c.status))
  {
  }

  /** After completion, later ticks return SUCCESS and tick nothing until reset. */
  lemma SequenceStaysDone(n: Node, env: Env, later: Env)
    requires n.Sequence? && n.index <= |n.children| && Tick(n, env).status == Success
    ensures Tick(Tick(n, env).node, later) == Step(Success, Tick(n, env).node, [])
  {
  }

  // ---------------------------------------------------------------------
  // Selector

  /**
   * Selector.kt:6-20 from cursor `i`: the children fail in order up to the
   * first that does not; its status is returned and the cursor stays on it.
   * When all fail the cursor is left at the end.  No child is reset.
   */
  lemma {:induction false} SelectorFromRules(n: Node, i: nat, kids: seq<Node>, acc: seq<Effect>, env: Env)
    requires n.Selector? && |kids| == |n.children|
    requires forall j :: i <= j < |kids| ==> kids[j] == n.children[j]
    ensures var r := SelectorFrom(n, i, kids, acc, env);
      var ch := n.children;
      r.node.Selector? && |r.node.children| == |ch| &&
      (forall j :: 0 <= j < i && j < |ch| ==> r.node.children[j] == kids[j]) &&
      (r.status == Failure <==> forall j :: i <= j < |ch| ==> Tick(ch[j], env).status == Failure) &&
      (r.status == Failure ==> r.node.index == if i < |ch| then |ch| else i) &&
      (r.status != Failure ==>
         i <= r.node.index < |ch| && Tick(ch[r.node.index], env).status == r.status &&
         (forall j :: i <= j < r.node.index ==> Tick(ch[j], env).status == Failure)) &&
      (forall j :: i <= j < |ch| ==>
         r.node.children[j] == (if j <= r.node.index then Tick(ch[j], env).node else ch[j]))
    decreases if i < |n.children| then |n.children| - i else 0
  {
    var ch := n.children;
    if i < |ch| {
      var c := Tick(ch[i], env);
      if c.status == Failure {
        SelectorFromRules(n, i + 1, kids[i := c.node], acc + c.trace, env);
        assert SelectorFrom(n, i, kids, acc, env) == SelectorFrom(n, i + 1, kids[i := c.node], acc + c.trace, env);
      } else {
        assert SelectorFrom(n, i, kids, acc, env) == Step(c.status, Selector(kids[i := c.node], i), acc + c.trace);
      }
    } else {
      assert SelectorFrom(n, i, kids, acc, env) == Step(Failure, Selector(kids, i), acc);
    }
  }

  /** Once exhausted, a selector fails without ticking anything until reset. */
  lemma SelectorExhausted(n: Node, env: Env)
    requires n.Selector? && n.index >= |n.children|
    ensures Tick(n, env) == Step(Failure, n, [])
  {
  }

  // ---------------------------------------------------------------------
  // RandomSelector

  /**
   * RandomSelector.kt:12-24 from position `k` of the order: the children it
   * names fail in turn up to the first that does not, whose status is
   * returned with the position kept on it.
   */
  lemma {:induction false} RandomFromRules(n: Node, order: seq<nat>, k: nat, kids: seq<Node>, acc: seq<Effect>, env: Env)
    requires n.RandomSelector? && |kids| == |n.children|
    requires forall j :: 0 <= j < |order| ==> order[j] < |n.children|
    ensures var r := RandomFrom(n, order, k, kids, acc, env);
      var ch := n.children;
      r.node.RandomSelector? && r.node.order == order &&
      (r.status == Failure <==> forall j :: k <= j < |order| ==> Tick(ch[order[j]], env).status == Failure) &&
      (r.status == Failure ==> r.node.index == if k < |order| then |order| else k) &&
      (r.status != Failure ==>
         k <= r.node.index < |order| && Tick(ch[order[r.node.index]], env).status == r.status &&
         (forall j :: k <= j < r.node.index ==> Tick(ch[order[j]], env).status == Failure))
    decreases if k < |order| then |order| - k else 0
  {
    if k < |order| {
      var c := Tick(n.children[order[k]], env);
      if c.status == Failure {
        RandomFromRules(n, order, k + 1, kids[order[k] := c.node], acc + c.trace, env);
      }
    }
  }

  /** The whole tick: a fresh shuffle when the order is empty, then the walk along it. */
  lemma RandomSelectorRules(n: Node, env: Env)
    requires n.RandomSelector? && OrderValid(n)
    ensures var t := Tick(n, env);
      var order := Order(n, env);
      var start := if |n.order| == 0 then 0 else n.index;
      IndexPermutation(order, |n.children|) &&
      (|n.order| == 0 ==> order == Deal(Range(|n.children|), env.shuffle(n.id))) &&
      (|n.order| > 0 ==> order == n.order) &&
      t.node.RandomSelector? && t.node.order == order &&
      (t.status == Failure <==> forall j :: start <= j < |order| ==> Tick(n.children[order[j]], env).status == Failure) &&
      (t.status != Failure ==>
         start <= t.node.index < |order| && Tick(n.children[order[t.node.index]], env).status == t.status)
  {
    OrderIsPermutation(|n.children|, env.shuffle(n.id));
    RandomSelectorKeepsOrder(n, env);
    RandomFromRules(n, Order(n, env), if |n.order| == 0 then 0 else n.index, n.children, [], env);
  }

  /** An exhausted order fails without ticking anything and without a reshuffle. */
  lemma RandomSelectorExhausted(n: Node, env: Env)
    requires n.RandomSelector? && |n.order| > 0 && n.index >= |n.order|
    ensures Tick(n, env) == Step(Failure, n, [])
  {
    assert Tick(n, env) == RandomSelectorTick(n, env) == RandomFrom(n, n.order, n.index, n.children, [], env);
  }

  /** With no children the order stays empty and every tick fails. */
  lemma RandomSelectorEmpty(n: Node, env: Env)
    requires n.RandomSelector? && |n.children| == 0 && OrderValid(n)
    ensures Tick(n, env).status == Failure && Tick(n, env).node.RandomSelector? && Tick(n, env).node.order == []
  {
    assert Range(0) == [];
    assert Deal([], env.shuffle(n.id)) == [];
    assert Order(n, env) == [];
    assert Tick(n, env) == RandomSelectorTick(n, env);
  }

  // ---------------------------------------------------------------------
  // Parallel

  /** Statuses `s` among the children `i..`, each ticked in the given world. */
  function CountFrom(ch: seq<Node>, i: nat, s: Status, env: Env): (c: nat)
    ensures i <= |ch| ==> c <= |ch| - i
    decreases if i < |ch| then |ch| - i else 0
  {
    if i >= |ch| then 0
    else (if Tick(ch[i], env).status == s then 1 else 0) + CountFrom(ch, i + 1, s, env)
  }

  /** Parallel.kt:13-46: every child ticked once, the verdict on the tallies, nothing reset. */
  lemma {:induction false} ParallelFromRules(n: Node, i: nat, kids: seq<Node>, sc: nat, fc: nat, acc: seq<Effect>, env: Env)
    requires n.Parallel? && |kids| == |n.children| && i <= |n.children| && |n.children| > 0
    requires forall j :: i <= j < |kids| ==> kids[j] == n.children[j]
    ensures var r := ParallelFrom(n, i, kids, sc, fc, acc, env);
      var ch := n.children;
      r.status == Verdict(n.success, n.failure, |ch|, sc + CountFrom(ch, i, Success, env), fc + CountFrom(ch, i, Failure, env)) &&
      r.node.Parallel? && r.node.success == n.success && r.node.failure == n.failure &&
      |r.node.children| == |ch| &&
      (forall j :: 0 <= j < i ==> r.node.children[j] == kids[j]) &&
      (forall j :: i <= j < |ch| ==> r.node.children[j] == Tick(ch[j], env).node)
    decreases |n.children| - i
  {
    var ch := n.children;
    if i < |ch| {
      var c := Tick(ch[i], env);
      var kids' := kids[i := c.node];
      var sc', fc' := sc + (if c.status == Success then 1 else 0), fc + (if c.status == Failure then 1 else 0);
      ParallelFromRules(n, i + 1, kids', sc', fc', acc + c.trace, env);
      assert ParallelFrom(n, i, kids, sc, fc, acc, env) == ParallelFrom(n, i + 1, kids', sc', fc', acc + c.trace, env);
      assert sc + CountFrom(ch, i, Success, env) == sc' + CountFrom(ch, i + 1, Success, env);
      assert fc + CountFrom(ch, i, Failure, env) == fc' + CountFrom(ch, i + 1, Failure, env);
    } else {
      assert ParallelFrom(n, i, kids, sc, fc, acc, env) ==
        Step(Verdict(n.success, n.failure, |ch|, sc, fc), Parallel(kids, n.success, n.failure), acc);
    }
  }

  lemma ParallelRules(n: Node, env: Env)
    requires n.Parallel?
    ensures |n.children| == 0 ==> Tick(n, env) == Step(Success, n, [])
    ensures |n.children| > 0 ==>
      var t := Tick(n, env);
      t.status == Verdict(n.success, n.failure, |n.children|,
                          CountFrom(n.children, 0, Success, env), CountFrom(n.children, 0, Failure, env)) &&
      t.node.Parallel? && |t.node.children| == |n.children| &&
      forall j :: 0 <= j < |n.children| ==> t.node.children[j] == Tick(n.children[j], env).node
  {
    if |n.children| > 0 {
      ParallelFromRules(n, 0, n.children, 0, 0, [], env);
    }
  }

  /** Success is decided first; REQUIRE_ALL means all, REQUIRE_ONE at least one. */
  lemma VerdictRules(success: Policy, failure: Policy, size: nat, sc: nat, fc: nat)
    ensures var ok := (success == RequireAll && sc == size) || (success == RequireOne && sc > 0);
      var bad := (failure == RequireAll && fc == size) || (failure == RequireOne && fc > 0);
      (Verdict(success, failure, size, sc, fc) == Success <==> ok) &&
      (Verdict(success, failure, size, sc, fc) == Failure <==> !ok && bad) &&
      (Verdict(success, failure, size, sc, fc) == Running <==> !ok && !bad)
  {
  }

  // ---------------------------------------------------------------------
  // Decorators

  lemma InverterRules(n: Node, env: Env)
    requires n.Inverter?
    ensures n.child.None? ==> Tick(n, env) == Step(Failure, n, [])
    ensures n.child.Some? ==>
      var c := Tick(n.child.value, env);
      Tick(n, env).node == Inverter(Some(c.node)) &&
      (c.status == Success ==> Tick(n, env).status == Failure) &&
      (c.status == Failure ==> Tick(n, env).status == Success) &&
      (c.status == Running ==> Tick(n, env).status == Running)
  {
  }

  /** Two inverters around a child report exactly the child's status. */
  lemma DoubleInversion(x: Node, env: Env)
    ensures Tick(Inverter(Some(Inverter(Some(x)))), env).status == Tick(x, env).status
  {
    var inner := Inverter(Some(x));
    assert Tick(inner, env) == InverterTick(inner, env);
    assert Tick(Inverter(Some(inner)), env) == InverterTick(Inverter(Some(inner)), env);
  }

  /** Repeater.kt:6-21. */
  lemma RepeaterRules(n: Node, env: Env)
    requires n.Repeater?
    ensures n.child.None? ==> Tick(n, env) == Step(Failure, n, [])
    ensures n.child.Some? ==>
      var c := Tick(n.child.value, env);
      var t := Tick(n, env);
      t.status != Failure &&
      (c.status == Running ==>
         t.status == Running && t.node == Repeater(Some(c.node), n.max, n.count) && t.trace == c.trace) &&
      (c.status != Running ==>
         t.node == Repeater(Some(Reset(c.node)), n.max, n.count + 1) &&
         t.trace == c.trace + ResetCalls(c.node) &&
         (t.status == Success <==> n.max >= 0 && n.count + 1 >= n.max))
  {
  }

  /** The count is not cleared on SUCCESS: every later completion succeeds again until reset. */
  lemma RepeaterKeepsSucceeding(n: Node, env: Env, later: Env)
    requires n.Repeater? && n.child.Some? && Tick(n, env).status == Success
    requires Tick(n, env).node.Repeater? && Tick(n, env).node.child.Some?
    requires Tick(Tick(n, env).node.child.value, later).status != Running
    ensures Tick(Tick(n, env).node, later).status == Success
  {
  }

  /** With a negative limit a repeater never completes. */
  lemma RepeaterUnbounded(n: Node, env: Env)
    requires n.Repeater? && n.child.Some? && n.max < 0
    ensures Tick(n, env).status == Running
  {
  }

  /** RetryUntilSuccess.kt:6-26. */
  lemma RetryRules(n: Node, env: Env)
    requires n.Retry?
    ensures n.child.None? ==> Tick(n, env) == Step(Failure, n, [])
    ensures n.child.Some? ==>
      var c := Tick(n.child.value, env);
      var t := Tick(n, env);
      (c.status != Failure ==>
         t == Step(c.status, Retry(Some(c.node), n.max, n.attempts), c.trace)) &&
      (c.status == Failure && n.max >= 0 && n.attempts + 1 >= n.max ==>
         t == Step(Failure, Retry(Some(c.node), n.max, n.attempts + 1), c.trace)) &&
      (c.status == Failure && !(n.max >= 0 && n.attempts + 1 >= n.max) ==>
         t == Step(Running, Retry(Some(Reset(c.node)), n.max, n.attempts + 1), c.trace + ResetCalls(c.node)))
  {
  }

  /** A limit of 0 fails on the first failure; a negative limit never fails. */
  lemma RetryLimits(n: Node, env: Env)
    requires n.Retry? && n.child.Some? && Tick(n.child.value, env).status == Failure
    ensures n.max == 0 && n.attempts >= 0 ==> Tick(n, env).status == Failure
    ensures n.max < 0 ==> Tick(n, env).status == Running
  {
  }

  /** Cooldown.kt:11-35. */
  lemma CooldownRules(n: Node, env: Env)
    requires n.Cooldown?
    ensures n.child.None? ==> Tick(n, env) == Step(Failure, n, [])
    ensures n.child.Some? && !n.runningChild && n.remaining > 0 ==>
      Tick(n, env) == Step(Running, Cooldown(n.child, n.ticks, n.remaining - 1, false), [])
    ensures n.child.Some? && (n.runningChild || n.remaining <= 0) ==>
      var c := Tick(n.child.value, env);
      var t := Tick(n, env);
      t.status == c.status &&
      (c.status != Running ==>
         t.node == Cooldown(Some(Reset(c.node)), n.ticks, n.ticks, false) && t.trace == c.trace + ResetCalls(c.node)) &&
      (c.status == Running ==>
         t.node == Cooldown(Some(c.node), n.ticks, n.remaining, true) && t.trace == c.trace)
  {
  }

  /** 0 <= remaining <= ticks holds from construction and is kept by tick and reset. */
  predicate CooldownBounded(n: Node)
    requires n.Cooldown?
  {
    0 <= n.remaining <= n.ticks
  }

  lemma CooldownKeepsBound(n: Node, env: Env)
    requires n.Cooldown? && CooldownBounded(n)
    ensures Tick(n, env).node.Cooldown? && CooldownBounded(Tick(n, env).node)
    ensures Reset(n).Cooldown? && CooldownBounded(Reset(n))
  {
  }

  /** The states a cooldown passes through on the given worlds, and what each tick reported. */
  function Run(n: Node, envs: seq<Env>): (r: seq<Step>)
    ensures |r| == |envs|
    decreases |envs|
  {
    if |envs| == 0 then []
    else
      var t := Tick(n, envs[0]);
      [t] + Run(t.node, envs[1..])
  }

  /** While counting down, `k` ticks report RUNNING, call nothing and take `k` off the count. */
  lemma {:induction false} CooldownCountsDown(c: Node, t: int, k: nat, envs: seq<Env>)
    requires |envs| <= k
    ensures forall j :: 0 <= j < |envs| ==>
      Run(Cooldown(Some(c), t, k, false), envs)[j] == Step(Running, Cooldown(Some(c), t, k - j - 1, false), [])
    decreases |envs|
  {
    if |envs| > 0 {
      CooldownCountsDown(c, t, k - 1, envs[1..]);
      var r := Run(Cooldown(Some(c), t, k, false), envs);
      assert Tick(Cooldown(Some(c), t, k, false), envs[0]) == CooldownTick(Cooldown(Some(c), t, k, false), envs[0]);
      assert r[0] == Step(Running, Cooldown(Some(c), t, k - 1, false), []);
      var rest := Run(Cooldown(Some(c), t, k - 1, false), envs[1..]);
      assert r == [r[0]] + rest;
      forall j | 1 <= j < |envs|
        ensures r[j] == Step(Running, Cooldown(Some(c), t, k - j - 1, false), [])
      {
        assert r[j] == rest[j - 1];
        assert rest[j - 1] == Step(Running, Cooldown(Some(c), t, (k - 1) - (j - 1) - 1, false), []);
      }
    }
  }

  /** From a fresh cooldown of `t >= 0` ticks the first `t` calls do not tick the child and call `t + 1` does. */
  lemma FreshCooldown(c: Node, t: nat, envs: seq<Env>)
    requires |envs| == t + 1
    ensures var r := Run(Cooldown(Some(c), t, t, false), envs);
      (forall j :: 0 <= j < t ==> r[j].status == Running && r[j].trace == []) &&
      r[t].status == Tick(c, envs[t]).status &&
      r[t].trace == Tick(c, envs[t]).trace + (if r[t].status != Running then ResetCalls(Tick(c, envs[t]).node) else [])
  {
    var n := Cooldown(Some(c), t, t, false);
    var r := Run(n, envs);
    CooldownCountsDown(c, t, t, envs[..t]);
    RunPrefix(n, envs, t);
    assert forall j :: 0 <= j < t ==> r[j] == Run(n, envs[..t])[j];
    RunAt(n, envs, t);
    var before := if t == 0 then n else r[t - 1].node;
    assert before == Cooldown(Some(c), t, 0, false) || t == 0;
    CooldownRules(before, envs[t]);
  }

  lemma {:induction false} RunPrefix(n: Node, envs: seq<Env>, k: nat)
    requires k <= |envs|
    ensures Run(n, envs[..k]) == Run(n, envs)[..k]
    decreases k
  {
    if k > 0 {
      var t := Tick(n, envs[0]);
      assert envs[..k][1..] == envs[1..][..k - 1];
      RunPrefix(t.node, envs[1..], k - 1);
    }
  }

  /** Tick `k` of a run starts from the state left by tick `k - 1`. */
  lemma {:induction false} RunAt(n: Node, envs: seq<Env>, k: nat)
    requires k < |envs|
    ensures Run(n, envs)[k] == Tick(if k == 0 then n else Run(n, envs)[k - 1].node, envs[k])
    decreases k
  {
    if k > 0 {
      var t := Tick(n, envs[0]);
      RunAt(t.node, envs[1..], k - 1);
      if k > 1 {
        assert Run(n, envs)[k - 1] == Run(t.node, envs[1..])[k - 2];
      }
    }
  }

  /** SuccessRate.kt:10-15. */
  lemma SuccessRateRules(n: Node, env: Env)
    requires n.SuccessRate?
    ensures n.chance <= 0.0 ==> Tick(n, env) == Step(Failure, n, [])
    ensures 0.0 < n.chance < 1.0 && env.roll(n.id) > n.chance ==> Tick(n, env) == Step(Failure, n, [])
    ensures n.child.None? ==> Tick(n, env).status == Failure
    ensures n.child.Some? && 0.0 < n.chance && (n.chance >= 1.0 || env.roll(n.id) <= n.chance) ==>
      Tick(n, env).status == Tick(n.child.value, env).status &&
      Tick(n, env).node == SuccessRate(n.id, Some(Tick(n.child.value, env).node), n.chance)
  {
  }

  /**
   * SubTree.kt:5-6: the supplier runs on the first tick only; afterwards the
   * tick is the resolved root's tick and calls the supplier no more.
   */
  lemma SubTreeRules(n: Node, env: Env)
    requires n.SubTree?
    ensures var t := Tick(n, env);
      t.node.SubTree? && t.node.source == n.source && t.node.resolved.Some? &&
      (n.resolved.None? ==>
         t.status == Tick(n.source, env).status && t.trace == [Supply(n.id)] + Tick(n.source, env).trace &&
         t.node.resolved.value == Tick(n.source, env).node) &&
      (n.resolved.Some? ==>
         t.status == Tick(n.resolved.value, env).status && t.trace == Tick(n.resolved.value, env).trace &&
         t.node.resolved.value == Tick(n.resolved.value, env).node)
  {
  }
}
