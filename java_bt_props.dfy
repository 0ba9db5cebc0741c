/**
 * Properties of the Java behaviour-tree engine: closed-form descriptions of
 * what each composite does in one tick, and the per-kind rules of the leaves
 * and decorators.
 */
module JavaBtProps {
  import opened JavaBt

  // ---------------------------------------------------------------------
  // Reset

  /** Resetting twice is resetting once, for every node kind. */
  lemma {:induction false} ResetIdempotent(n: Node, env: Env)
    ensures Reset(Reset(n, env), env) == Reset(n, env)
    decreases n
  {
    match n
    case Sequence(ch, _) =>
      forall i | 0 <= i < |ch| { ResetIdempotent(ch[i], env); }
      assert Reset(Reset(n, env), env).children == Reset(n, env).children;
    case Selector(ch, _) =>
      forall i | 0 <= i < |ch| { ResetIdempotent(ch[i], env); }
      assert Reset(Reset(n, env), env).children == Reset(n, env).children;
    case RandomSelector(_, ch, _, _) =>
      forall i | 0 <= i < |ch| { ResetIdempotent(ch[i], env); }
      assert Reset(Reset(n, env), env).children == Reset(n, env).children;
    case Parallel(ch, _, _, _) =>
      forall i | 0 <= i < |ch| { ResetIdempotent(ch[i], env); }
      assert Reset(Reset(n, env), env).children == Reset(n, env).children;
    case Inverter(c) => if c.Some? { ResetIdempotent(c.value, env); }
    case Repeater(c, _, _) => if c.Some? { ResetIdempotent(c.value, env); }
    case Retry(c, _, _) => if c.Some? { ResetIdempotent(c.value, env); }
    case Cooldown(_, c, _, _) => if c.Some? { ResetIdempotent(c.value, env); }
    case SuccessRate(_, c, _) => if c.Some? { ResetIdempotent(c.value, env); }
    case WaitFor(_, c, _, _) => if c.Some? { ResetIdempotent(c.value, env); }
    case _ =>
  }

  /** Composite.reset: cursor 0 and every child reset, in place and in order. */
  lemma CompositeResetShape(n: Node, env: Env)
    requires n.IsComposite()
    ensures Reset(n, env).IsComposite() && Reset(n, env).cursor == 0
    ensures |Reset(n, env).children| == |n.children|
    ensures forall i :: 0 <= i < |n.children| ==> Reset(n, env).children[i] == Reset(n.children[i], env)
  {
  }

  /** Decorator.reset: the child is reset when present; with no child nothing but the decorator's own fields change. */
  lemma DecoratorResetShape(n: Node, env: Env)
    requires n.IsDecorator()
    ensures Reset(n, env).IsDecorator()
    ensures Reset(n, env).child == (if n.child.Some? then Some(Reset(n.child.value, env)) else None)
    ensures n.child.None? && (n.Inverter? || n.SuccessRate?) ==> Reset(n, env) == n
  {
  }

  /** Stateless leaves are unchanged by reset; timed leaves lose their start stamp. */
  lemma LeafReset(n: Node, env: Env)
    ensures n.Action? || n.Condition? || n.DynamicSubTree? ==> Reset(n, env) == n
    ensures n.Sleep? || n.SleepUntil? || n.WaitFor? ==> Reset(n, env).start == Unset && Reset(n, env).armed == env.arm(n.id)
  {
  }

  // ---------------------------------------------------------------------
  // Leaves

  /** Action.java: the supplier's status, FAILURE on an exception, and no state. */
  lemma ActionRules(n: Node, env: Env)
    requires n.Action?
    ensures Tick(n, env).node == n
    ensures n.body.Constant? ==> Tick(n, env) == Step(Returned(n.body.status), n, [])
    ensures n.body.Call? && env.action(n.id).Returns? ==> Tick(n, env).out == Returned(env.action(n.id).value)
    ensures n.body.Call? && env.action(n.id).Throws? ==> Tick(n, env).out == Returned(Failure)
    ensures n.body.RunThen? ==> Tick(n, env).out == Returned(if env.runs(n.id) then n.body.status else Failure)
    ensures !n.body.Constant? ==> Tick(n, env).trace == [Act(n.id)]
  {
  }

  /** Condition.java: SUCCESS exactly when the predicate returns true; never RUNNING or SLEEPING. */
  lemma ConditionRules(n: Node, env: Env)
    requires n.Condition?
    ensures Tick(n, env).node == n
    ensures Tick(n, env).out == Returned(Success) <==> env.condition(n.id) == Returns(true)
    ensures Tick(n, env).out == Returned(Success) || Tick(n, env).out == Returned(Failure)
  {
  }

  /** Sleep.java: starts the clock on the first tick, then SLEEPING until the armed duration elapses. */
  lemma SleepRules(n: Node, env: Env)
    requires n.Sleep?
    ensures var s := if n.start == Unset then env.now else n.start;
      var r := Tick(n, env);
      (r.out == Returned(Success) <==> env.now - s >= n.armed) &&
      (r.out == Returned(Success) || r.out == Returned(Sleeping)) &&
      (r.out == Returned(Success) ==> r.node == Reset(n, env) && r.node.start == Unset) &&
      (r.out == Returned(Sleeping) ==> r.node == Sleep(n.id, s, n.armed))
  {
  }

  /** After a reset the next tick stamps the current time: a fresh interval. */
  lemma SleepFreshInterval(n: Node, env: Env, later: Env)
    requires n.Sleep?
    ensures var m := Reset(n, env);
      Tick(m, later).out == Returned(Success) <==> 0 >= env.arm(n.id)
  {
  }

  /** SleepUntil.java leaf: predicate first, then the timeout, else RUNNING. */
  lemma SleepUntilRules(n: Node, env: Env)
    requires n.SleepUntil?
    ensures var s := if n.start == Unset then env.now else n.start;
      var r := Tick(n, env);
      r.trace == [Test(n.id)] &&
      (env.until(n.id) == Throws ==> r.out.Raised? && r.node == SleepUntil(n.id, s, n.armed)) &&
      (env.until(n.id) == Returns(true) ==> r == Step(Returned(Success), Reset(n, env), [Test(n.id)])) &&
      (env.until(n.id) == Returns(false) && env.now - s >= n.armed ==> r.out == Returned(Failure) && r.node == Reset(n, env)) &&
      (env.until(n.id) == Returns(false) && env.now - s < n.armed ==> r.out == Returned(Running) && r.node == SleepUntil(n.id, s, n.armed)) &&
      r.out != Returned(Sleeping)
  {
  }

  // ---------------------------------------------------------------------
  // Composites: closed forms

  /** The state of the children after ticking `ch[i..k)` in order, starting from `kids`. */
  function Ticked(tick: Ticker, ch: seq<Node>, kids: seq<Node>, i: nat, k: nat, env: Env): (r: seq<Node>)
    ensures |r| == |kids|
    ensures forall j :: 0 <= j < |kids| && !(i <= j < k && j < |ch|) ==> r[j] == kids[j]
    ensures forall j :: 0 <= j < |kids| && i <= j < k && j < |ch| ==> r[j] == tick(ch[j], env).node
  {
    seq(|kids|, j requires 0 <= j < |kids| => if i <= j < k && j < |ch| then tick(ch[j], env).node else kids[j])
  }

  /** Ticking child `i` first and the rest `i+1..k` after is ticking `i..k`. */
  lemma TickedStep(tick: Ticker, ch: seq<Node>, kids: seq<Node>, i: nat, k: nat, env: Env)
    requires i < k && i < |ch| && |kids| == |ch|
    ensures Ticked(tick, ch, kids[i := tick(ch[i], env).node], i + 1, k, env) == Ticked(tick, ch, kids, i, k, env)
  {
    var a := Ticked(tick, ch, kids[i := tick(ch[i], env).node], i + 1, k, env);
    var b := Ticked(tick, ch, kids, i, k, env);
    assert forall j :: 0 <= j < |kids| ==> a[j] == b[j];
  }

  /** The calls made by ticking `ch[i..k)` in order. */
  function Traces(tick: Ticker, ch: seq<Node>, i: nat, k: nat, env: Env): seq<Effect>
    requires k <= |ch|
    decreases k - i
  {
    if i >= k then [] else tick(ch[i], env).trace + Traces(tick, ch, i + 1, k, env)
  }

  /** The first child from `i` on whose tick does not return SUCCESS (or the end). */
  function FirstNonSuccess(tick: Ticker, ch: seq<Node>, i: nat, env: Env): (k: nat)
    ensures i <= k && (i <= |ch| ==> k <= |ch|) && (i >= |ch| ==> k == i)
    ensures forall j :: i <= j < k ==> tick(ch[j], env).out == Returned(Success)
    ensures k < |ch| ==> tick(ch[k], env).out != Returned(Success)
    decreases |ch| - i
  {
    if i >= |ch| then i
    else if tick(ch[i], env).out == Returned(Success) then FirstNonSuccess(tick, ch, i + 1, env)
    else i
  }

  /** A Selector advances past FAILURE and SLEEPING; it stops at SUCCESS, RUNNING or an exception. */
  predicate Advances(o: Out) {
    o == Returned(Failure) || o == Returned(Sleeping)
  }

  /** The first child from `i` on whose tick does not make a Selector advance (or the end). */
  function FirstNonFailing(tick: Ticker, ch: seq<Node>, i: nat, env: Env): (k: nat)
    ensures i <= k && (i <= |ch| ==> k <= |ch|) && (i >= |ch| ==> k == i)
    ensures forall j :: i <= j < k ==> Advances(tick(ch[j], env).out)
    ensures k < |ch| ==> !Advances(tick(ch[k], env).out)
    decreases |ch| - i
  {
    if i >= |ch| then i
    else if Advances(tick(ch[i], env).out) then FirstNonFailing(tick, ch, i + 1, env)
    else i
  }

  /**
   * A composite's step once its children are ticked: SUCCESS and FAILURE
   * leave it reset, and the reset's calls follow the children's.
   */
  function Settle(p: Node, o: Out, trace: seq<Effect>, env: Env): (r: Step)
    ensures r.out == o
    ensures r.node == (if o == Returned(Success) || o == Returned(Failure) then Reset(p, env) else p)
    ensures r.trace == trace + (if o == Returned(Success) || o == Returned(Failure) then ResetCalls(p) else [])
  {
    if o == Returned(Success) || o == Returned(Failure) then Step(o, Reset(p, env), trace + ResetCalls(p))
    else Step(o, p, trace)
  }

  /**
   * Sequence.java:11-31 in closed form: the children from the cursor up to
   * the first one that does not succeed are ticked in order, and no other;
   * the Sequence answers SUCCESS past the last child, otherwise what that
   * child answered.
   */
  function SequenceSpec(tick: Ticker, n: Node, i: nat, kids: seq<Node>, acc: seq<Effect>, env: Env): Step
    requires n.Sequence? && |kids| == |n.children|
  {
    var pending := SequencePending(tick, n, i, kids, acc, env);
    Settle(pending.0, pending.1, pending.2, env)
  }

  /** The Sequence before its last step settles: its ticked state, the outcome and the calls so far. */
  function SequencePending(tick: Ticker, n: Node, i: nat, kids: seq<Node>, acc: seq<Effect>, env: Env): (Node, Out, seq<Effect>)
    requires n.Sequence? && |kids| == |n.children|
  {
    var ch := n.children;
    var k := FirstNonSuccess(tick, ch, i, env);
    var e := if k < |ch| then k + 1 else k;
    var o := if k < |ch| then tick(ch[k], env).out else Returned(Success);
    (Sequence(Ticked(tick, ch, kids, i, e, env), k), o, acc + (if i <= |ch| then Traces(tick, ch, i, e, env) else []))
  }

  /** Passing a succeeding child does not change the closed form. */
  lemma SequenceSpecStep(tick: Ticker, n: Node, i: nat, kids: seq<Node>, acc: seq<Effect>, env: Env)
    requires n.Sequence? && |kids| == |n.children|
    requires i < |n.children| && tick(n.children[i], env).out == Returned(Success)
    ensures var r := tick(n.children[i], env);
      SequenceSpec(tick, n, i, kids, acc, env) == SequenceSpec(tick, n, i + 1, kids[i := r.node], acc + r.trace, env)
  {
    var ch := n.children;
    var r := tick(ch[i], env);
    var kids' := kids[i := r.node];
    var k := FirstNonSuccess(tick, ch, i, env);
    assert k == FirstNonSuccess(tick, ch, i + 1, env);
    var e := if k < |ch| then k + 1 else k;
    var t := acc + Traces(tick, ch, i, e, env);
    TickedStep(tick, ch, kids, i, e, env);
    assert t == (acc + r.trace) + (if i + 1 <= |ch| then Traces(tick, ch, i + 1, e, env) else []);
    assert SequencePending(tick, n, i, kids, acc, env) == SequencePending(tick, n, i + 1, kids', acc + r.trace, env);
  }

  /** Where the loop stops, the closed form is what the loop returns. */
  lemma SequenceSpecStop(n: Node, i: nat, kids: seq<Node>, acc: seq<Effect>, env: Env)
    requires n.Sequence? && |kids| == |n.children|
    requires !(i < |n.children| && Tick(n.children[i], env).out == Returned(Success))
    ensures SequenceFrom(n, i, kids, acc, env) == SequenceSpec(Tick, n, i, kids, acc, env)
  {
    var ch := n.children;
    if i < |ch| {
      var r := Tick(ch[i], env);
      assert Traces(Tick, ch, i, i + 1, env) == r.trace;
      assert Ticked(Tick, ch, kids, i, i + 1, env) == kids[i := r.node];
    } else {
      assert Ticked(Tick, ch, kids, i, i, env) == kids;
    }
  }

  lemma {:induction false} SequenceFromIsSpec(n: Node, i: nat, kids: seq<Node>, acc: seq<Effect>, env: Env)
    requires n.Sequence? && |kids| == |n.children|
    ensures SequenceFrom(n, i, kids, acc, env) == SequenceSpec(Tick, n, i, kids, acc, env)
    decreases |n.children| - i, 1
  {
    if i < |n.children| && Tick(n.children[i], env).out == Returned(Success) {
      SequenceFromIsSpecStep(n, i, kids, acc, env);
    } else {
      SequenceSpecStop(n, i, kids, acc, env);
    }
  }

  /** The inductive step of SequenceFromIsSpec: a child that succeeds. */
  lemma {:induction false} SequenceFromIsSpecStep(n: Node, i: nat, kids: seq<Node>, acc: seq<Effect>, env: Env)
    requires n.Sequence? && |kids| == |n.children|
    requires i < |n.children| && Tick(n.children[i], env).out == Returned(Success)
    ensures SequenceFrom(n, i, kids, acc, env) == SequenceSpec(Tick, n, i, kids, acc, env)
    decreases |n.children| - i, 0
  {
    var r := Tick(n.children[i], env);
    SequenceFromIsSpec(n, i + 1, kids[i := r.node], acc + r.trace, env);
    SequenceSpecStep(Tick, n, i, kids, acc, env);
    SequenceFromStep(n, i, kids, acc, env);
  }


  /** Sequence.java:11-31 moves on past a succeeding child. */
  lemma SequenceFromStep(n: Node, i: nat, kids: seq<Node>, acc: seq<Effect>, env: Env)
    requires n.Sequence? && |kids| == |n.children|
    requires i < |n.children| && Tick(n.children[i], env).out == Returned(Success)
    ensures var r := Tick(n.children[i], env);
      SequenceFrom(n, i, kids, acc, env) == SequenceFrom(n, i + 1, kids[i := r.node], acc + r.trace, env)
  {
  }

  /** Java Sequence tick: SUCCESS with no children, otherwise the closed form from the cursor. */
  lemma SequenceRules(n: Node, env: Env)
    requires n.Sequence?
    ensures |n.children| == 0 ==> Tick(n, env) == Step(Returned(Success), n, [])
    ensures |n.children| > 0 ==> Tick(n, env) == SequenceSpec(Tick, n, n.cursor, n.children, [], env)
  {
    if |n.children| > 0 {
      SequenceFromIsSpec(n, n.cursor, n.children, [], env);
    }
  }

  /** A SLEEPING or RUNNING Sequence keeps its place: the cursor is on the child that answered, nothing is reset. */
  lemma SequencePauses(n: Node, env: Env)
    requires n.Sequence? && 0 < |n.children| && n.cursor <= |n.children|
    requires Tick(n, env).out == Returned(Running) || Tick(n, env).out == Returned(Sleeping)
    ensures var k := FirstNonSuccess(Tick, n.children, n.cursor, env);
      k < |n.children| && Tick(n, env).node.Sequence? && Tick(n, env).node.cursor == k && n.cursor <= k &&
      |Tick(n, env).node.children| == |n.children| &&
      Tick(n.children[k], env).out == Tick(n, env).out &&
      (forall j :: 0 <= j < |n.children| && (j < n.cursor || j > k) ==> Tick(n, env).node.children[j] == n.children[j])
  {
    SequenceRules(n, env);
  }

  /** A FAILURE or SUCCESS Sequence is left fully reset. */
  lemma SequenceTerminalResets(n: Node, env: Env)
    requires n.Sequence? && 0 < |n.children|
    requires Tick(n, env).out == Returned(Failure) || Tick(n, env).out == Returned(Success)
    ensures Tick(n, env).node.Sequence? && Tick(n, env).node.cursor == 0
    ensures Reset(Tick(n, env).node, env) == Tick(n, env).node
  {
    SequenceRules(n, env);
    var ch := n.children;
    var k := FirstNonSuccess(Tick, ch, n.cursor, env);
    var e := if k < |ch| then k + 1 else k;
    var p := Sequence(Ticked(Tick, ch, ch, n.cursor, e, env), k);
    assert Tick(n, env).node == Reset(p, env);
    ResetIdempotent(p, env);
  }

  /**
   * Selector.java:10-27 in closed form: the children from the cursor up to
   * the first one that neither fails nor sleeps are ticked in order; the
   * Selector answers FAILURE past the last child, otherwise what that child
   * answered.
   */
  function SelectorSpec(tick: Ticker, n: Node, i: nat, kids: seq<Node>, acc: seq<Effect>, env: Env): Step
    requires n.Selector? && |kids| == |n.children|
  {
    var pending := SelectorPending(tick, n, i, kids, acc, env);
    Settle(pending.0, pending.1, pending.2, env)
  }

  /** The Selector before its last step settles: its ticked state, the outcome and the calls so far. */
  function SelectorPending(tick: Ticker, n: Node, i: nat, kids: seq<Node>, acc: seq<Effect>, env: Env): (Node, Out, seq<Effect>)
    requires n.Selector? && |kids| == |n.children|
  {
    var ch := n.children;
    var k := FirstNonFailing(tick, ch, i, env);
    var e := if k < |ch| then k + 1 else k;
    var o := if k < |ch| then tick(ch[k], env).out else Returned(Failure);
    (Selector(Ticked(tick, ch, kids, i, e, env), k), o, acc + (if i <= |ch| then Traces(tick, ch, i, e, env) else []))
  }

  /** Passing a child that fails (or sleeps) does not change the closed form. */
  lemma SelectorSpecStep(tick: Ticker, n: Node, i: nat, kids: seq<Node>, acc: seq<Effect>, env: Env)
    requires n.Selector? && |kids| == |n.children|
    requires i < |n.children| && Advances(tick(n.children[i], env).out)
    ensures var r := tick(n.children[i], env);
      SelectorSpec(tick, n, i, kids, acc, env) == SelectorSpec(tick, n, i + 1, kids[i := r.node], acc + r.trace, env)
  {
    var ch := n.children;
    var r := tick(ch[i], env);
    var kids' := kids[i := r.node];
    var k := FirstNonFailing(tick, ch, i, env);
    assert k == FirstNonFailing(tick, ch, i + 1, env);
    var e := if k < |ch| then k + 1 else k;
    var t := acc + Traces(tick, ch, i, e, env);
    TickedStep(tick, ch, kids, i, e, env);
    assert t == (acc + r.trace) + (if i + 1 <= |ch| then Traces(tick, ch, i + 1, e, env) else []);
    assert SelectorPending(tick, n, i, kids, acc, env) == SelectorPending(tick, n, i + 1, kids', acc + r.trace, env);
  }

  lemma SelectorSpecStop(n: Node, i: nat, kids: seq<Node>, acc: seq<Effect>, env: Env)
    requires n.Selector? && |kids| == |n.children|
    requires !(i < |n.children| && Advances(Tick(n.children[i], env).out))
    ensures SelectorFrom(n, i, kids, acc, env) == SelectorSpec(Tick, n, i, kids, acc, env)
  {
    var ch := n.children;
    if i < |ch| {
      var r := Tick(ch[i], env);
      assert Traces(Tick, ch, i, i + 1, env) == r.trace;
      assert Ticked(Tick, ch, kids, i, i + 1, env) == kids[i := r.node];
    } else {
      assert Ticked(Tick, ch, kids, i, i, env) == kids;
    }
  }

  lemma {:induction false} SelectorFromIsSpec(n: Node, i: nat, kids: seq<Node>, acc: seq<Effect>, env: Env)
    requires n.Selector? && |kids| == |n.children|
    ensures SelectorFrom(n, i, kids, acc, env) == SelectorSpec(Tick, n, i, kids, acc, env)
    decreases |n.children| - i, 1
  {
    if i < |n.children| && Advances(Tick(n.children[i], env).out) {
      SelectorFromIsSpecStep(n, i, kids, acc, env);
    } else {
      SelectorSpecStop(n, i, kids, acc, env);
    }
  }

  /** The inductive step of SelectorFromIsSpec: a child that fails or sleeps. */
  lemma {:induction false} SelectorFromIsSpecStep(n: Node, i: nat, kids: seq<Node>, acc: seq<Effect>, env: Env)
    requires n.Selector? && |kids| == |n.children|
    requires i < |n.children| && Advances(Tick(n.children[i], env).out)
    ensures SelectorFrom(n, i, kids, acc, env) == SelectorSpec(Tick, n, i, kids, acc, env)
    decreases |n.children| - i, 0
  {
    var r := Tick(n.children[i], env);
    SelectorFromIsSpec(n, i + 1, kids[i := r.node], acc + r.trace, env);
    SelectorSpecStep(Tick, n, i, kids, acc, env);
    SelectorFromStep(n, i, kids, acc, env);
  }


  /** Selector.java:10-27 moves on past a child that fails or sleeps. */
  lemma SelectorFromStep(n: Node, i: nat, kids: seq<Node>, acc: seq<Effect>, env: Env)
    requires n.Selector? && |kids| == |n.children|
    requires i < |n.children| && Advances(Tick(n.children[i], env).out)
    ensures var r := Tick(n.children[i], env);
      SelectorFrom(n, i, kids, acc, env) == SelectorFrom(n, i + 1, kids[i := r.node], acc + r.trace, env)
  {
  }

  /** Java Selector tick: FAILURE with no children, otherwise the closed form; never SLEEPING. */
  lemma SelectorRules(n: Node, env: Env)
    requires n.Selector?
    ensures |n.children| == 0 ==> Tick(n, env) == Step(Returned(Failure), n, [])
    ensures |n.children| > 0 ==> Tick(n, env) == SelectorSpec(Tick, n, n.cursor, n.children, [], env)
    ensures Tick(n, env).out != Returned(Sleeping)
  {
    if |n.children| > 0 {
      SelectorFromIsSpec(n, n.cursor, n.children, [], env);
    }
  }

  /** RandomSelector.java: only the held (or freshly drawn) child is ticked and its status is returned. */
  lemma RandomSelectorTickShape(n: Node, env: Env)
    requires n.RandomSelector? && |n.children| > 0
    ensures var k := Chosen(n, env);
      var r := Tick(n.children[k], env);
      var t := Tick(n, env);
      t.out == r.out && t.node.RandomSelector? &&
      t.trace == r.trace + (if r.out == Returned(Success) || r.out == Returned(Failure)
                            then ResetCalls(RandomSelector(n.id, n.children[k := r.node], n.cursor, Some(k))) else []) &&
      (r.out == Returned(Success) || r.out == Returned(Failure) ==>
         t.node.selected == None && t.node.cursor == 0 && Reset(t.node, env) == t.node) &&
      (r.out == Returned(Running) || r.out == Returned(Sleeping) || r.out.Raised? ==>
         t.node.selected == Some(k) &&
         t.node.children == n.children[k := r.node])
  {
    var k := Chosen(n, env);
    var r := Tick(n.children[k], env);
    if r.out == Returned(Success) || r.out == Returned(Failure) {
      ResetIdempotent(RandomSelector(n.id, n.children[k := r.node], n.cursor, Some(k)), env);
    }
  }

  /** A RUNNING or SLEEPING RandomSelector ticks the same child next time, whatever is drawn then. */
  lemma RandomSelectorHolds(n: Node, env: Env, next: Env)
    requires n.RandomSelector? && |n.children| > 0
    requires Tick(n, env).out == Returned(Running) || Tick(n, env).out == Returned(Sleeping)
    ensures Tick(n, env).node.RandomSelector? && |Tick(n, env).node.children| == |n.children|
    ensures Chosen(Tick(n, env).node, next) == Chosen(n, env)
  {
    RandomSelectorTickShape(n, env);
  }

  /** How many of the children `ch[i..]` return `s` when ticked. */
  function CountFrom(tick: Ticker, ch: seq<Node>, i: nat, s: Status, env: Env): (c: nat)
    requires i <= |ch|
    ensures c <= |ch| - i
    decreases |ch| - i
  {
    if i == |ch| then 0 else (if tick(ch[i], env).out == Returned(s) then 1 else 0) + CountFrom(tick, ch, i + 1, s, env)
  }

  /** The first child from `i` on whose tick raises (or the end). */
  function FirstRaised(tick: Ticker, ch: seq<Node>, i: nat, env: Env): (k: nat)
    requires i <= |ch|
    ensures i <= k <= |ch|
    ensures forall j :: i <= j < k ==> !tick(ch[j], env).out.Raised?
    ensures k < |ch| ==> tick(ch[k], env).out.Raised?
    decreases |ch| - i
  {
    if i == |ch| then i
    else if tick(ch[i], env).out.Raised? then i
    else FirstRaised(tick, ch, i + 1, env)
  }

  /**
   * Parallel.java:28-71 in closed form: the children are ticked in order,
   * up to and including the first that raises, or all of them, and then the
   * verdict on the tallies decides.
   */
  function ParallelSpec(tick: Ticker, n: Node, i: nat, kids: seq<Node>, sc: nat, fc: nat, acc: seq<Effect>, env: Env): Step
    requires n.Parallel? && |kids| == |n.children| && i <= |n.children|
  {
    var pending := ParallelPending(tick, n, i, kids, sc, fc, acc, env);
    Settle(pending.0, pending.1, pending.2, env)
  }

  /** The Parallel before it settles: its ticked state, the outcome and the calls so far. */
  function ParallelPending(tick: Ticker, n: Node, i: nat, kids: seq<Node>, sc: nat, fc: nat, acc: seq<Effect>, env: Env)
    : (Node, Out, seq<Effect>)
    requires n.Parallel? && |kids| == |n.children| && i <= |n.children|
  {
    var ch := n.children;
    var k := FirstRaised(tick, ch, i, env);
    var e := if k < |ch| then k + 1 else |ch|;
    var v := Verdict(n.success, n.failure, |ch|, sc + CountFrom(tick, ch, i, Success, env), fc + CountFrom(tick, ch, i, Failure, env));
    (Parallel(Ticked(tick, ch, kids, i, e, env), n.cursor, n.success, n.failure),
     if k < |ch| then Raised else Returned(v), acc + Traces(tick, ch, i, e, env))
  }

  /** Ticking a child that returns a status adds it to the tallies without changing the closed form. */
  lemma ParallelSpecStep(tick: Ticker, n: Node, i: nat, kids: seq<Node>, sc: nat, fc: nat, acc: seq<Effect>, env: Env)
    requires n.Parallel? && |kids| == |n.children| && i < |n.children|
    requires !tick(n.children[i], env).out.Raised?
    ensures var r := tick(n.children[i], env);
      ParallelSpec(tick, n, i, kids, sc, fc, acc, env) ==
      ParallelSpec(tick, n, i + 1, kids[i := r.node],
                   sc + (if r.out == Returned(Success) then 1 else 0),
                   fc + (if r.out == Returned(Failure) then 1 else 0), acc + r.trace, env)
  {
    var ch := n.children;
    var r := tick(ch[i], env);
    var kids' := kids[i := r.node];
    var k := FirstRaised(tick, ch, i, env);
    assert k == FirstRaised(tick, ch, i + 1, env);
    var e := if k < |ch| then k + 1 else |ch|;
    TickedStep(tick, ch, kids, i, e, env);
    assert acc + Traces(tick, ch, i, e, env) == (acc + r.trace) + Traces(tick, ch, i + 1, e, env);
    assert ParallelPending(tick, n, i, kids, sc, fc, acc, env) ==
      ParallelPending(tick, n, i + 1, kids', sc + (if r.out == Returned(Success) then 1 else 0),
                      fc + (if r.out == Returned(Failure) then 1 else 0), acc + r.trace, env);
  }

  lemma ParallelSpecStop(n: Node, i: nat, kids: seq<Node>, sc: nat, fc: nat, acc: seq<Effect>, env: Env)
    requires n.Parallel? && |kids| == |n.children| && i <= |n.children|
    requires i == |n.children| || Tick(n.children[i], env).out.Raised?
    ensures ParallelFrom(n, i, kids, sc, fc, acc, env) == ParallelSpec(Tick, n, i, kids, sc, fc, acc, env)
  {
    if i < |n.children| {
      ParallelRaisedStop(n, i, kids, sc, fc, acc, env);
    } else {
      ParallelEndStop(n, kids, sc, fc, acc, env);
    }
  }

  /** A child that raises ends the pass with an exception, its tick included. */
  lemma ParallelRaisedStop(n: Node, i: nat, kids: seq<Node>, sc: nat, fc: nat, acc: seq<Effect>, env: Env)
    requires n.Parallel? && |kids| == |n.children| && i < |n.children|
    requires Tick(n.children[i], env).out.Raised?
    ensures ParallelFrom(n, i, kids, sc, fc, acc, env) == ParallelSpec(Tick, n, i, kids, sc, fc, acc, env)
  {
    var ch := n.children;
    var r := Tick(ch[i], env);
    assert FirstRaised(Tick, ch, i, env) == i;
    assert Traces(Tick, ch, i, i + 1, env) == r.trace;
    assert Ticked(Tick, ch, kids, i, i + 1, env) == kids[i := r.node];
  }

  /** Past the last child the verdict on the tallies decides. */
  lemma ParallelEndStop(n: Node, kids: seq<Node>, sc: nat, fc: nat, acc: seq<Effect>, env: Env)
    requires n.Parallel? && |kids| == |n.children|
    ensures var i := |n.children|;
      ParallelFrom(n, i, kids, sc, fc, acc, env) == ParallelSpec(Tick, n, i, kids, sc, fc, acc, env)
  {
    var ch := n.children;
    assert Ticked(Tick, ch, kids, |ch|, |ch|, env) == kids;
    assert acc + Traces(Tick, ch, |ch|, |ch|, env) == acc;
    VerdictRules(n.success, n.failure, |ch|, sc, fc);
  }

  lemma {:induction false} ParallelFromIsSpec(n: Node, i: nat, kids: seq<Node>, sc: nat, fc: nat, acc: seq<Effect>, env: Env)
    requires n.Parallel? && |kids| == |n.children| && i <= |n.children|
    ensures ParallelFrom(n, i, kids, sc, fc, acc, env) == ParallelSpec(Tick, n, i, kids, sc, fc, acc, env)
    decreases |n.children| - i, 1
  {
    if i < |n.children| && !Tick(n.children[i], env).out.Raised? {
      ParallelFromIsSpecStep(n, i, kids, sc, fc, acc, env);
    } else {
      ParallelSpecStop(n, i, kids, sc, fc, acc, env);
    }
  }

  /** The inductive step of ParallelFromIsSpec: a child that returns a status. */
  lemma {:induction false} ParallelFromIsSpecStep(n: Node, i: nat, kids: seq<Node>, sc: nat, fc: nat, acc: seq<Effect>, env: Env)
    requires n.Parallel? && |kids| == |n.children| && i < |n.children|
    requires !Tick(n.children[i], env).out.Raised?
    ensures ParallelFrom(n, i, kids, sc, fc, acc, env) == ParallelSpec(Tick, n, i, kids, sc, fc, acc, env)
    decreases |n.children| - i, 0
  {
    var r := Tick(n.children[i], env);
    ParallelFromIsSpec(n, i + 1, kids[i := r.node],
                       sc + (if r.out == Returned(Success) then 1 else 0),
                       fc + (if r.out == Returned(Failure) then 1 else 0), acc + r.trace, env);
    ParallelSpecStep(Tick, n, i, kids, sc, fc, acc, env);
    ParallelFromStep(n, i, kids, sc, fc, acc, env);
  }

  /** Parallel.java:28-71 tallies a child that returns a status and moves on. */
  lemma ParallelFromStep(n: Node, i: nat, kids: seq<Node>, sc: nat, fc: nat, acc: seq<Effect>, env: Env)
    requires n.Parallel? && |kids| == |n.children| && i < |n.children|
    requires !Tick(n.children[i], env).out.Raised?
    ensures var r := Tick(n.children[i], env);
      ParallelFrom(n, i, kids, sc, fc, acc, env) ==
      ParallelFrom(n, i + 1, kids[i := r.node],
                   sc + (if r.out == Returned(Success) then 1 else 0),
                   fc + (if r.out == Returned(Failure) then 1 else 0), acc + r.trace, env)
  {
  }

  /** Java Parallel tick: SUCCESS with no children, otherwise every child ticked once and the verdict on the tallies. */
  lemma ParallelRules(n: Node, env: Env)
    requires n.Parallel?
    ensures |n.children| == 0 ==> Tick(n, env) == Step(Returned(Success), n, [])
    ensures |n.children| > 0 ==> Tick(n, env) == ParallelSpec(Tick, n, 0, n.children, 0, 0, [], env)
  {
    if |n.children| > 0 {
      ParallelFromIsSpec(n, 0, n.children, 0, 0, [], env);
    }
  }

  /** Parallel.java:49-71: failure rules before success rules; SLEEPING never comes out. */
  lemma VerdictRules(success: Policy, failure: Policy, size: nat, sc: nat, fc: nat)
    ensures failure == RequireOne && fc > 0 ==> Verdict(success, failure, size, sc, fc) == Failure
    ensures failure == RequireAll ==> (Verdict(success, failure, size, sc, fc) == Failure <==> fc == size)
    ensures Verdict(success, failure, size, sc, fc) == Success <==>
      !(failure == RequireOne && fc > 0) && !(failure == RequireAll && fc == size) &&
      ((success == RequireOne && sc > 0) || (success == RequireAll && sc == size))
    ensures Verdict(success, failure, size, sc, fc) != Sleeping
  {
  }

  /** Any terminal Parallel result leaves every child reset, including children still RUNNING. */
  lemma ParallelTerminalResets(n: Node, env: Env)
    requires n.Parallel? && |n.children| > 0
    requires Tick(n, env).out == Returned(Success) || Tick(n, env).out == Returned(Failure)
    ensures Reset(Tick(n, env).node, env) == Tick(n, env).node
  {
    ParallelRules(n, env);
    var here := Parallel(Ticked(Tick, n.children, n.children, 0, |n.children|, env), n.cursor, n.success, n.failure);
    ResetIdempotent(here, env);
  }

  // ---------------------------------------------------------------------
  // Decorators

  /** Inverter.java: SUCCESS and FAILURE swap, RUNNING and SLEEPING give RUNNING, no child gives FAILURE. */
  lemma InverterRules(n: Node, env: Env)
    requires n.Inverter?
    ensures n.child.None? ==> Tick(n, env) == Step(Returned(Failure), n, [])
    ensures n.child.Some? ==>
      var r := Tick(n.child.value, env);
      Tick(n, env).node == Inverter(Some(r.node)) && Tick(n, env).trace == r.trace &&
      (r.out == Returned(Success) ==> Tick(n, env).out == Returned(Failure)) &&
      (r.out == Returned(Failure) ==> Tick(n, env).out == Returned(Success)) &&
      (r.out == Returned(Running) || r.out == Returned(Sleeping) ==> Tick(n, env).out == Returned(Running)) &&
      (r.out.Raised? ==> Tick(n, env).out.Raised?)
  {
  }

  /** Double inversion is the identity on SUCCESS, FAILURE and RUNNING, and not on SLEEPING. */
  lemma DoubleInversion(x: Node, env: Env)
    ensures var r := Tick(x, env);
      r.out != Returned(Sleeping) ==> Tick(Inverter(Some(Inverter(Some(x)))), env).out == r.out
    ensures Tick(x, env).out == Returned(Sleeping) ==> Tick(Inverter(Some(Inverter(Some(x)))), env).out == Returned(Running)
  {
    InverterRules(Inverter(Some(x)), env);
    InverterRules(Inverter(Some(Inverter(Some(x)))), env);
  }

  /** Repeater.java: each child status and what it does to the counter. */
  lemma RepeaterRules(n: Node, env: Env)
    requires n.Repeater? && n.child.Some?
    ensures var r := Tick(n.child.value, env); var t := Tick(n, env);
      t.trace == r.trace + (if !r.out.Raised? && n.max >= 0 && r.out != Returned(Running) then ResetCalls(r.node) else []) &&
      (!r.out.Raised? && n.max < 0 ==> t.out == Returned(Running) && t.node == Repeater(Some(r.node), n.max, n.repeats)) &&
      (n.max >= 0 && r.out == Returned(Running) ==> t.out == Returned(Running) && t.node == Repeater(Some(r.node), n.max, n.repeats)) &&
      (n.max >= 0 && r.out == Returned(Failure) ==> t.out == Returned(Failure) && t.node == Reset(Repeater(Some(r.node), n.max, n.repeats), env)) &&
      (n.max >= 0 && (r.out == Returned(Success) || r.out == Returned(Sleeping)) ==>
         if n.repeats + 1 >= n.max then t.out == Returned(Success) && t.node == Reset(Repeater(Some(r.node), n.max, n.repeats), env)
         else t.out == Returned(Running) && t.node == Repeater(Some(Reset(r.node, env)), n.max, n.repeats + 1))
  {
  }

  /** Between ticks of a bounded Repeater, 0 <= repeats < max. */
  lemma RepeaterBound(n: Node, env: Env)
    requires n.Repeater? && n.child.Some? && n.max > 0 && 0 <= n.repeats < n.max
    ensures Tick(n, env).node.Repeater?
    ensures 0 <= Tick(n, env).node.repeats < n.max
  {
  }

  /** An always-succeeding child under repeat(3): RUNNING, RUNNING, SUCCESS. */
  lemma RepeatThree(id: nat, env: Env)
    ensures var n0 := Repeater(Some(Action(id, Constant(Success))), 3, 0);
      var t1 := Tick(n0, env); var t2 := Tick(t1.node, env); var t3 := Tick(t2.node, env);
      t1.out == Returned(Running) && t2.out == Returned(Running) && t3.out == Returned(Success) &&
      t3.node == n0
  {
    var leaf := Action(id, Constant(Success));
    var n0 := Repeater(Some(leaf), 3, 0);
    assert Tick(leaf, env) == ActionTick(leaf, env) == Step(Returned(Success), leaf, []);
    assert Reset(leaf, env) == leaf;
    assert Tick(n0, env) == RepeaterTick(n0, env);
    assert Tick(Repeater(Some(leaf), 3, 1), env) == RepeaterTick(Repeater(Some(leaf), 3, 1), env);
    assert Tick(Repeater(Some(leaf), 3, 2), env) == RepeaterTick(Repeater(Some(leaf), 3, 2), env);
    assert Reset(Repeater(Some(leaf), 3, 3), env) == n0;
    assert Tick(n0, env) == Step(Returned(Running), Repeater(Some(leaf), 3, 1), []);
    assert Tick(Repeater(Some(leaf), 3, 1), env) == Step(Returned(Running), Repeater(Some(leaf), 3, 2), []);
    assert Tick(Repeater(Some(leaf), 3, 2), env) == Step(Returned(Success), n0, []);
  }

  /** RetryUntilSuccess.java: each child status and what it does to the attempt counter. */
  lemma RetryRules(n: Node, env: Env)
    requires n.Retry? && n.child.Some?
    ensures var r := Tick(n.child.value, env); var t := Tick(n, env);
      t.trace == r.trace + (if !r.out.Raised? && r.out != Returned(Running) then ResetCalls(r.node) else []) &&
      (r.out == Returned(Success) ==> t.out == Returned(Success) && t.node == Reset(Retry(Some(r.node), n.max, n.attempts), env)) &&
      (r.out == Returned(Running) ==> t.out == Returned(Running) && t.node == Retry(Some(r.node), n.max, n.attempts)) &&
      (r.out == Returned(Failure) || r.out == Returned(Sleeping) ==>
         if n.max > 0 && n.attempts + 1 >= n.max then t.out == Returned(Failure) && t.node == Reset(Retry(Some(r.node), n.max, n.attempts), env)
         else t.out == Returned(Running) && t.node == Retry(Some(Reset(r.node, env)), n.max, n.attempts + 1))
  {
  }

  /** With max <= 0 a Retry with a child never reports FAILURE. */
  lemma RetryUnboundedNeverFails(n: Node, env: Env)
    requires n.Retry? && n.child.Some? && n.max <= 0
    ensures Tick(n, env).out != Returned(Failure)
  {
  }

  /** Between ticks of a bounded Retry, 0 <= attempts < max. */
  lemma RetryBound(n: Node, env: Env)
    requires n.Retry? && n.child.Some? && n.max > 0 && 0 <= n.attempts < n.max
    ensures Tick(n, env).node.Retry?
    ensures 0 <= Tick(n, env).node.attempts < n.max
  {
  }

  /** An always-failing child under retry(3): RUNNING, RUNNING, FAILURE. */
  lemma RetryThree(id: nat, env: Env)
    ensures var n0 := Retry(Some(Action(id, Constant(Failure))), 3, 0);
      var t1 := Tick(n0, env); var t2 := Tick(t1.node, env); var t3 := Tick(t2.node, env);
      t1.out == Returned(Running) && t2.out == Returned(Running) && t3.out == Returned(Failure) &&
      t3.node == n0
  {
    var leaf := Action(id, Constant(Failure));
    var n0 := Retry(Some(leaf), 3, 0);
    assert Tick(leaf, env) == ActionTick(leaf, env) == Step(Returned(Failure), leaf, []);
    assert Reset(leaf, env) == leaf;
    assert Tick(n0, env) == RetryTick(n0, env);
    assert Tick(Retry(Some(leaf), 3, 1), env) == RetryTick(Retry(Some(leaf), 3, 1), env);
    assert Tick(Retry(Some(leaf), 3, 2), env) == RetryTick(Retry(Some(leaf), 3, 2), env);
    assert Reset(Retry(Some(leaf), 3, 3), env) == n0;
    assert Tick(n0, env) == Step(Returned(Running), Retry(Some(leaf), 3, 1), []);
    assert Tick(Retry(Some(leaf), 3, 1), env) == Step(Returned(Running), Retry(Some(leaf), 3, 2), []);
    assert Tick(Retry(Some(leaf), 3, 2), env) == Step(Returned(Failure), n0, []);
  }

  /** Cooldown.java: the gate, the pass-through and the stamp. */
  lemma CooldownRules(n: Node, env: Env)
    requires n.Cooldown? && n.child.Some?
    ensures var t := Tick(n, env); var d := DurationOf(n.duration, env);
      t.node.Cooldown? && t.node.id == n.id && t.node.duration == n.duration &&
      (d.Throws? ==> t == Step(Raised, n, [])) &&
      (d.Returns? && n.last >= 0 && 0 - n.last < CooldownDuration(d.value) ==> t == Step(Returned(Failure), n, [])) &&
      (d.Returns? && !(n.last >= 0 && 0 - n.last < CooldownDuration(d.value)) ==>
         var r := Tick(n.child.value, env);
         t.out == r.out && t.trace == r.trace && t.node.child == Some(r.node) &&
         (r.out.Raised? ==> t.node.last == n.last) &&
         (!r.out.Raised? && (n.last < 0 || r.out != Returned(Running)) ==> t.node.last == 0) &&
         (r.out == Returned(Running) && n.last >= 0 ==> t.node.last == n.last))
  {
  }

  /** The stamp is only ever -1 (none) or 0, the hard-coded current tick. */
  lemma CooldownStampRange(n: Node, env: Env)
    requires n.Cooldown? && -1 <= n.last <= 0
    ensures Tick(n, env).node.Cooldown? && -1 <= Tick(n, env).node.last <= 0
    ensures Reset(n, env).Cooldown? && Reset(n, env).last == -1
  {
  }

  /** With the tick hard-coded to 0, once stamped a positive duration gates every tick until reset. */
  lemma CooldownStuck(n: Node, env: Env, later: Env)
    requires n.Cooldown? && n.child.Some? && n.last < 0
    requires DurationOf(n.duration, later).Returns? && DurationOf(n.duration, later).value > 0
    requires !Tick(n, env).out.Raised?
    ensures Tick(n, env).node.Cooldown? && Tick(n, env).node.last == 0
    ensures Tick(Tick(n, env).node, later) == Step(Returned(Failure), Tick(n, env).node, [])
  {
  }

  /** Duration 0 (or a negative one) never gates: the child's status comes back unchanged. */
  lemma CooldownZeroNeverGates(n: Node, env: Env)
    requires n.Cooldown? && n.child.Some? && -1 <= n.last <= 0
    requires DurationOf(n.duration, env).Returns? && DurationOf(n.duration, env).value <= 0
    ensures Tick(n, env).out == Tick(n.child.value, env).out
  {
  }

  /** SuccessRate.java: the clamped, normalised gate. */
  lemma SuccessRateRules(n: Node, env: Env)
    requires n.SuccessRate? && n.child.Some?
    ensures RateOf(n.rate, env).Throws? ==> Tick(n, env) == Step(Raised, n, [])
    ensures RateOf(n.rate, env).Returns? ==>
      var raw := RateOf(n.rate, env).value;
      var norm := (if raw < 0.0 then 0.0 else if raw > 100.0 then 100.0 else raw) / 100.0;
      (env.roll(n.id) > norm ==> Tick(n, env) == Step(Returned(Failure), n, [])) &&
      (env.roll(n.id) <= norm ==> Tick(n, env) == Step(Tick(n.child.value, env).out,
                                    SuccessRate(n.id, Some(Tick(n.child.value, env).node), n.rate), Tick(n.child.value, env).trace))
  {
  }

  /** A rate of at least 100 always ticks the child, because the draw is below 1. */
  lemma SuccessRateFull(n: Node, env: Env)
    requires n.SuccessRate? && n.child.Some? && RateOf(n.rate, env).Returns? && RateOf(n.rate, env).value >= 100.0
    requires 0.0 <= env.roll(n.id) < 1.0
    ensures Tick(n, env).out == Tick(n.child.value, env).out
  {
  }

  /** A rate of at most 0 ticks the child only when the draw is exactly 0. */
  lemma SuccessRateNone(n: Node, env: Env)
    requires n.SuccessRate? && n.child.Some? && RateOf(n.rate, env).Returns? && RateOf(n.rate, env).value <= 0.0
    requires 0.0 <= env.roll(n.id) < 1.0
    ensures env.roll(n.id) > 0.0 ==> Tick(n, env) == Step(Returned(Failure), n, [])
    ensures env.roll(n.id) == 0.0 ==> Tick(n, env).out == Tick(n.child.value, env).out
  {
  }

  /** SleepUntil.Decorator: a missing child throws; SUCCESS resets all; FAILURE resets the child; the timeout wins over RUNNING. */
  lemma WaitForRules(n: Node, env: Env)
    requires n.WaitFor?
    ensures n.child.None? ==> Tick(n, env).out.Raised?
    ensures n.child.Some? ==>
      var s := if n.start == Unset then env.now else n.start;
      var r := Tick(n.child.value, env); var t := Tick(n, env);
      (r.out.Raised? ==> t == Step(Raised, WaitFor(n.id, Some(r.node), s, n.armed), r.trace)) &&
      (r.out == Returned(Success) ==>
         t.out == Returned(Success) && t.node == Reset(WaitFor(n.id, Some(r.node), s, n.armed), env) &&
         t.trace == r.trace + ResetCalls(r.node)) &&
      (r.out == Returned(Failure) ==>
         t.trace == r.trace + ResetCalls(r.node) + (if env.now - s >= n.armed then ResetCalls(Reset(r.node, env)) else [])) &&
      (r.out == Returned(Running) || r.out == Returned(Sleeping) ==>
         t.trace == r.trace + (if env.now - s >= n.armed then ResetCalls(r.node) else [])) &&
      (!r.out.Raised? && r.out != Returned(Success) && env.now - s >= n.armed ==>
         t.out == Returned(Failure) && t.node.WaitFor? && t.node.start == Unset) &&
      (!r.out.Raised? && r.out != Returned(Success) && env.now - s < n.armed ==>
         t.out == Returned(Running) &&
         t.node == WaitFor(n.id, Some(if r.out == Returned(Failure) then Reset(r.node, env) else r.node), s, n.armed))
  {
  }

  /**
   * SubTree.java:18-29: the supplier is called only while no tree is held; a
   * null result is FAILURE and a throw escapes; a held tree is ticked.
   */
  lemma SubTreeRules(n: Node, env: Env)
    requires n.SubTree?
    ensures n.tree.Some? ==>
      var r := Tick(n.tree.value, env);
      Tick(n, env) == Step(r.out, SubTree(n.id, n.source, n.shared, Some(r.node)), r.trace)
    ensures n.tree.None? && env.supply(n.id) == Throws ==> Tick(n, env) == Step(Raised, n, [Supply(n.id)])
    ensures n.tree.None? && env.supply(n.id) == Returns(false) ==> Tick(n, env) == Step(Returned(Failure), n, [Supply(n.id)])
    ensures n.tree.None? && env.supply(n.id) == Returns(true) ==>
      var r := Tick(n.source, env);
      Tick(n, env) == Step(r.out, SubTree(n.id, n.source, n.shared, Some(r.node)), [Supply(n.id)] + r.trace)
  {
    assert Tick(n, env) == SubTreeTick(n, env);
  }

  /**
   * SubTree.java:31-37: a held tree is reset and dropped, so the next tick
   * calls the supplier again; without one nothing happens.
   */
  lemma SubTreeReset(n: Node, env: Env)
    requires n.SubTree?
    ensures Reset(n, env).SubTree? && Reset(n, env).tree.None?
    ensures n.tree.Some? && n.shared ==> Reset(n, env).source == Reset(n.tree.value, env)
    ensures !n.shared ==> Reset(n, env).source == n.source
    ensures n.tree.None? ==> Reset(n, env) == n
    ensures ResetCalls(n) == if n.tree.Some? then ResetCalls(n.tree.value) else []
  {
  }

  /**
   * After a reset the subtree is built again: from a tree it built on its
   * first call, a supplier that builds trees starts over from a fresh one and
   * a supplier of one shared tree hands back that tree, reset.
   */
  lemma {:induction false} SubTreeRebuilds(id: nat, source: Node, shared: bool, env: Env, later: Env)
    requires env.supply(id) == Returns(true) && later.supply(id) == Returns(true)
    ensures var n := SubTree(id, source, shared, None);
      var first := Tick(n, env).node; var again := Reset(first, env);
      again == SubTree(id, if shared then Reset(Tick(source, env).node, env) else source, shared, None) &&
      Tick(again, later).trace == [Supply(id)] + Tick(again.source, later).trace
  {
    var n := SubTree(id, source, shared, None);
    SubTreeRules(n, env);
    var first := Tick(n, env).node;
    assert first == SubTree(id, source, shared, Some(Tick(source, env).node));
    SubTreeRules(Reset(first, env), later);
  }

  /**
   * DynamicSubTree.java:20-39: the supplier on every tick, lifecycle calls
   * only on an identity change; a reset is the current external node's reset.
   */
  lemma DynamicSubTreeRules(n: Node, env: Env)
    requires n.DynamicSubTree?
    ensures env.resolve(n.id).Throws? ==> Tick(n, env) == Step(Raised, n, [Supply(n.id)])
    ensures env.resolve(n.id) == Returns(None) ==> Tick(n, env) == Step(Returned(Failure), n, [Supply(n.id)])
    ensures env.resolve(n.id).Returns? && env.resolve(n.id).value.Some? ==>
      var next := env.resolve(n.id).value.value; var t := Tick(n, env);
      (env.external(next).Returns? ==> t.out == Returned(env.external(next).value)) &&
      (env.external(next).Throws? ==> t.out.Raised?) &&
      t.node == DynamicSubTree(n.id, Some(next)) &&
      (n.current == Some(next) ==> t.trace == [Supply(n.id), TickExt(next)]) &&
      (n.current.Some? && n.current != Some(next) ==>
         t.trace == [Supply(n.id), End(n.current.value), ResetExt(n.current.value), Start(next), TickExt(next)]) &&
      (n.current.None? ==> t.trace == [Supply(n.id), Start(next), TickExt(next)])
    ensures Reset(n, env) == n
    ensures ResetCalls(n) == if n.current.Some? then [ResetExt(n.current.value)] else []
  {
  }

  /**
   * A failing sequence resets every child, so the external node that a
   * DynamicSubTree before the failing child holds has its reset() called.
   */
  lemma FailedSequenceResetsExternal(d: nat, ext: nat, a: nat, env: Env)
    ensures var kids := [DynamicSubTree(d, Some(ext)), Action(a, Constant(Failure))];
      Tick(Sequence(kids, 1), env) == Step(Returned(Failure), Sequence(kids, 0), [ResetExt(ext)])
  {
    var kids := [DynamicSubTree(d, Some(ext)), Action(a, Constant(Failure))];
    assert Reset(kids[0], env) == kids[0] && Reset(kids[1], env) == kids[1];
    var n := Sequence(kids, 1);
    assert ResetCalls(n) == [ResetExt(ext)] by {
      assert ResetCalls(kids[1]) == [];
      assert ResetCallsFrom(n, 1) == ResetCalls(kids[1]) + ResetCallsFrom(n, 2);
      assert ResetCallsFrom(n, 0) == ResetCalls(kids[0]) + ResetCallsFrom(n, 1);
    }
    assert Reset(n, env).children == kids;
    assert Tick(kids[1], env) == Step(Returned(Failure), kids[1], []);
    assert kids[1 := kids[1]] == kids;
    assert Tick(n, env) == SequenceFrom(n, 1, kids, [], env);
  }
}
