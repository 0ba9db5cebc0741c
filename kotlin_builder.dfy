/**
 * BehaviorTree.Builder of the Kotlin engine (BehaviorTree.kt:22-121).
 *
 * The Kotlin builder attaches a composite to its parent (or makes it the
 * root) before the composite's block has run, and the block then adds
 * children to that same object.  On values, the object cannot be shared, so
 * each open composite is kept in a `Scope` together with the number of staged
 * decorators that were wrapped around it when it was attached.  When the
 * block ends, the finished composite is grafted back into its slot, beneath
 * those decorators.  `OpenAttachesWhole` proves that the result is the same as
 * attaching the finished composite in one step, which is what the shared
 * object gives in the source.
 *
 * A builder block is a list of `Cmd`s:
 *   - `Attach` stands for action, succeed, fail, condition, sleep, sleepUntil
 *     and subtree, which attach a leaf;
 *   - `Open` stands for sequence, selector, randomSelector and parallel;
 *   - `Wrap` stands for invert, repeat, retry, cooldown and successRate, each of
 *     which stages its decorator and then runs its block.
 */
module KotlinBuilder {
  import opened KotlinBt
  import opened KotlinTree

  datatype BuildError =
    | RootAlreadySet   // "Root already set; only one root node is allowed"
    | Unclosed         // "Unclosed composite blocks. ..."
    | NoRoot           // "No root node defined. ..."

  datatype Result = Built(root: Node) | Failed(error: BuildError)

  /** An open composite and the number of decorators wrapped around it when it was attached. */
  datatype Scope = Scope(node: Node, depth: nat)

  /**
   * The builder's fields: the staged decorators (`nodeStack`), the open
   * composites (`compositeStack`), the root, and the error its `error(...)`
   * call raised, if any.
   */
  datatype Frames = Frames(decorators: seq<Node>, scopes: seq<Scope>, root: Option<Node>, error: Option<BuildError>)

  const Empty := Frames([], [], None, None)

  /** The shape the builder keeps: only decorators staged, only composites open, and every open composite below the top already attached. */
  predicate Valid(s: Frames) {
    && (forall k :: 0 <= k < |s.decorators| ==> s.decorators[k].IsDecorator())
    && (forall k :: 0 <= k < |s.scopes| ==> s.scopes[k].node.IsComposite())
    && (forall k :: 0 <= k < |s.scopes| - 1 ==> |s.scopes[k].node.children| > 0)
    && (|s.scopes| > 0 ==> s.root.Some?)
  }

  /**
   * The staged decorators wrapped around `x`, as attach's loop does it: it
   * pops the last one staged first, so that one is innermost and `ds[0]` is
   * outermost.
   */
  function WrapAll(ds: seq<Node>, x: Node): (r: Node)
    requires forall k :: 0 <= k < |ds| ==> ds[k].IsDecorator()
    ensures |ds| == 0 ==> r == x
    ensures |ds| > 0 ==> r.IsDecorator() && Detached(r) == Detached(ds[0])
    decreases |ds|
  {
    if |ds| == 0 then x else WrapAll(ds[..|ds| - 1], AssignChild(ds[|ds| - 1], x))
  }

  /** Unfolding WrapAll from the outside: the first decorator staged holds the rest. */
  lemma {:induction false} WrapFront(ds: seq<Node>, x: Node)
    requires |ds| > 0 && forall k :: 0 <= k < |ds| ==> ds[k].IsDecorator()
    ensures WrapAll(ds, x) == AssignChild(ds[0], WrapAll(ds[1..], x))
    decreases |ds|
  {
    var n := |ds|;
    if n > 1 {
      var y := AssignChild(ds[n - 1], x);
      WrapFront(ds[..n - 1], y);
      assert ds[..n - 1][1..] == ds[1..][..n - 2];
      assert ds[1..][n - 2] == ds[n - 1];
    }
  }

  /** The node `depth` decorators down inside `w`, replaced by `c`. */
  function Graft(w: Node, depth: nat, c: Node): Node
    decreases depth
  {
    if depth == 0 then c
    else if w.IsDecorator() && w.child.Some? then AssignChild(w, Graft(w.child.value, depth - 1, c))
    else c
  }

  /** Grafting through the decorators that were wrapped around `x` puts `c` where `x` was. */
  lemma {:induction false} GraftWrap(ds: seq<Node>, x: Node, c: Node)
    requires forall k :: 0 <= k < |ds| ==> ds[k].IsDecorator()
    ensures Graft(WrapAll(ds, x), |ds|, c) == WrapAll(ds, c)
    decreases |ds|
  {
    if |ds| > 0 {
      WrapFront(ds, x);
      WrapFront(ds, c);
      var inner := WrapAll(ds[1..], x);
      GraftWrap(ds[1..], x, c);
      AssignChildTwice(ds[0], inner, WrapAll(ds[1..], c));
    }
  }

  /**
   * attach (BehaviorTree.kt:27-40): wraps `node` in every staged decorator
   * and empties the stack, then adds the result to the innermost open
   * composite, or makes it the root; a second root is an error.
   */
  function AttachSpec(s: Frames, node: Node): (r: Frames)
    requires Valid(s)
    ensures Valid(r)
  {
    if s.error.Some? then s
    else
      var w := WrapAll(s.decorators, node);
      if |s.scopes| > 0 then
        var top := s.scopes[|s.scopes| - 1];
        Frames([], s.scopes[..|s.scopes| - 1] + [Scope(AddChild(top.node, w), top.depth)], s.root, None)
      else if s.root.Some? then Frames([], [], s.root, Some(RootAlreadySet))
      else Frames([], [], Some(w), None)
  }

  /** The first half of composite (BehaviorTree.kt:43-44): attach the composite, then open it. */
  function OpenSpec(s: Frames, c: Node): (r: Frames)
    requires Valid(s) && c.IsComposite()
    ensures Valid(r)
  {
    var a := AttachSpec(s, c);
    if a.error.Some? then a
    else Frames(a.decorators, a.scopes + [Scope(c, |s.decorators|)], a.root, None)
  }

  /**
   * The second half of composite (BehaviorTree.kt:46): close the innermost
   * composite, grafting it into the parent's last child or into the root.
   */
  function CloseSpec(s: Frames): (r: Frames)
    requires Valid(s)
    ensures Valid(r)
  {
    if s.error.Some? || |s.scopes| == 0 then s
    else
      var m := |s.scopes| - 1;
      var top := s.scopes[m];
      if m > 0 then
        var parent := s.scopes[m - 1];
        var ch := parent.node.children;
        var slots := ch[|ch| - 1 := Graft(ch[|ch| - 1], top.depth, top.node)];
        Frames(s.decorators, s.scopes[..m - 1] + [Scope(WithChildren(parent.node, slots), parent.depth)], s.root, None)
      else
        Frames(s.decorators, [], Some(Graft(s.root.value, top.depth, top.node)), None)
  }

  /** The decorator builders stage their decorator (BehaviorTree.kt:86-109). */
  function StageSpec(s: Frames, d: Node): (r: Frames)
    requires Valid(s) && d.IsDecorator()
    ensures Valid(r)
  {
    if s.error.Some? then s else Frames(s.decorators + [d], s.scopes, s.root, None)
  }

  type CompositeNode = n: Node | n.IsComposite() witness Sequence([], 0)

  type DecoratorNode = n: Node | n.IsDecorator() witness Inverter(None)

  /** One call in a builder block. */
  datatype Cmd =
    | Attach(node: Node)
    | Open(composite: CompositeNode, block: seq<Cmd>)
    | Wrap(decorator: DecoratorNode, block: seq<Cmd>)

  function Size(c: Cmd): nat
    decreases c
  {
    match c
    case Attach(_) => 1
    case Open(_, b) => 1 + SizeAll(b)
    case Wrap(_, b) => 1 + SizeAll(b)
  }

  function SizeAll(cs: seq<Cmd>): nat
    decreases cs
  {
    if |cs| == 0 then 0 else Size(cs[0]) + SizeAll(cs[1..])
  }

  /**
   * What one call does to the builder.  Once an error is raised nothing more
   * happens, and a call that raises none leaves as many composites open as it
   * found: every block it opens, it closes.
   */
  function Exec(s: Frames, c: Cmd): (r: Frames)
    requires Valid(s)
    ensures Valid(r)
    ensures s.error.Some? ==> r == s
    ensures r.error.None? ==> |r.scopes| == |s.scopes|
    ensures r.error.Some? && s.error.None? ==> r.error == Some(RootAlreadySet)
    decreases Size(c), 0
  {
    match c
    case Attach(node) => AttachSpec(s, node)
    case Open(k, block) => CloseSpec(ExecAll(OpenSpec(s, k), block))
    case Wrap(d, block) => ExecAll(StageSpec(s, d), block)
  }

  function ExecAll(s: Frames, cs: seq<Cmd>): (r: Frames)
    requires Valid(s)
    ensures Valid(r)
    ensures s.error.Some? ==> r == s
    ensures r.error.None? ==> |r.scopes| == |s.scopes|
    ensures r.error.Some? && s.error.None? ==> r.error == Some(RootAlreadySet)
    decreases SizeAll(cs), 1
  {
    if |cs| == 0 then s else ExecAll(Exec(s, cs[0]), cs[1..])
  }

  /** build (BehaviorTree.kt:117-121), after the error a block may have raised. */
  function BuildSpec(s: Frames): (r: Result)
    ensures r.Built? ==> s.error.None? && |s.scopes| == 0 && s.root == Some(r.root)
    ensures s.error.None? ==> (r == Failed(Unclosed) <==> |s.scopes| > 0)
    ensures s.error.None? ==> (r == Failed(NoRoot) <==> |s.scopes| == 0 && s.root.None?)
    ensures s.error.Some? ==> r == Failed(s.error.value)
  {
    if s.error.Some? then Failed(s.error.value)
    else if |s.scopes| > 0 then Failed(Unclosed)
    else if s.root.None? then Failed(NoRoot)
    else Built(s.root.value)
  }

  /** BehaviorTree.build (BehaviorTree.kt:19): a fresh builder, the block, then build. */
  function BuildTree(block: seq<Cmd>): Result
  {
    BuildSpec(ExecAll(Empty, block))
  }

  // ---------------------------------------------------------------------
  // Properties

  /** A block run from a fresh builder can never leave a composite open. */
  lemma NeverUnclosed(block: seq<Cmd>)
    ensures BuildTree(block) != Failed(Unclosed)
    ensures BuildTree(block).Failed? ==> BuildTree(block).error in {RootAlreadySet, NoRoot}
  {
  }

  /** What a block does to the open composites below the innermost one: nothing. */
  lemma {:induction false} ExecFrame(s: Frames, c: Cmd)
    requires Valid(s) && |s.scopes| > 0
    requires Exec(s, c).error.None?
    ensures var r, m := Exec(s, c), |s.scopes|;
      r.scopes[..m - 1] == s.scopes[..m - 1] && r.root == s.root && r.scopes[m - 1].depth == s.scopes[m - 1].depth
    decreases Size(c), 1
  {
    match c
    case Attach(_) =>
    case Wrap(d, block) =>
      ExecAllFrame(StageSpec(s, d), block);
    case Open(k, block) =>
      OpenFrame(s, k, block);
  }

  /** The Open case of ExecFrame: the block leaves the scopes below alone, and closing only touches the new one. */
  lemma {:induction false} OpenFrame(s: Frames, k: CompositeNode, block: seq<Cmd>)
    requires Valid(s) && |s.scopes| > 0
    requires Exec(s, Open(k, block)).error.None?
    ensures var r, m := Exec(s, Open(k, block)), |s.scopes|;
      r.scopes[..m - 1] == s.scopes[..m - 1] && r.root == s.root && r.scopes[m - 1].depth == s.scopes[m - 1].depth
    decreases Size(Open(k, block)), 0
  {
    var m := |s.scopes|;
    var a := OpenSpec(s, k);
    var b := ExecAll(a, block);
    assert Exec(s, Open(k, block)) == CloseSpec(b);
    assert a.error.None? && |a.scopes| == m + 1;
    assert a.scopes[..m] == s.scopes[..m - 1] + [a.scopes[m - 1]];
    ExecAllFrame(a, block);
    assert b.scopes[..m] == a.scopes[..m];
    assert b.scopes[..m - 1] == a.scopes[..m][..m - 1];
    assert b.scopes[m - 1] == a.scopes[..m][m - 1];
  }

  lemma {:induction false} ExecAllFrame(s: Frames, cs: seq<Cmd>)
    requires Valid(s) && |s.scopes| > 0
    requires ExecAll(s, cs).error.None?
    ensures var r, m := ExecAll(s, cs), |s.scopes|;
      r.scopes[..m - 1] == s.scopes[..m - 1] && r.root == s.root && r.scopes[m - 1].depth == s.scopes[m - 1].depth
    decreases SizeAll(cs), 2
  {
    if |cs| > 0 {
      var t := Exec(s, cs[0]);
      ExecFrame(s, cs[0]);
      ExecAllFrame(t, cs[1..]);
    }
  }

  lemma WithChildrenTwice(n: Node, a: seq<Node>, b: seq<Node>)
    requires n.IsComposite()
    ensures WithChildren(WithChildren(n, a), b) == WithChildren(n, b)
  {
  }

  /**
   * composite(node, block) ends with the same builder state as attaching
   * the finished composite, with the children its block gave it, in one
   * step: the value-level counterpart of the source attaching an object that
   * the block goes on filling.
   */
  lemma OpenAttachesWhole(s: Frames, k: CompositeNode, block: seq<Cmd>)
    requires Valid(s) && k.IsComposite()
    requires ExecAll(OpenSpec(s, k), block).error.None?
    ensures var b := ExecAll(OpenSpec(s, k), block);
      Exec(s, Open(k, block)) == AttachSpec(s, b.scopes[|b.scopes| - 1].node).(decorators := b.decorators)
  {
    var a := OpenSpec(s, k);
    var b := ExecAll(a, block);
    assert a.error.None?;
    ExecAllFrame(a, block);
    CloseGrafts(s, k, b);
    assert Exec(s, Open(k, block)) == CloseSpec(b);
  }

  /** Closing the scope `OpenSpec(s, k)` opened, once its block has left everything below it alone. */
  lemma CloseGrafts(s: Frames, k: Node, b: Frames)
    requires Valid(s) && k.IsComposite() && Valid(b) && b.error.None? && s.error.None?
    requires OpenSpec(s, k).error.None?
    requires |b.scopes| == |s.scopes| + 1
    requires b.scopes[..|s.scopes|] == OpenSpec(s, k).scopes[..|s.scopes|]
    requires b.root == OpenSpec(s, k).root && b.scopes[|s.scopes|].depth == |s.decorators|
    ensures CloseSpec(b) == AttachSpec(s, b.scopes[|s.scopes|].node).(decorators := b.decorators)
  {
    var m := |s.scopes|;
    var final := b.scopes[m].node;
    GraftWrap(s.decorators, k, final);
    if m > 0 {
      var top := s.scopes[m - 1];
      var a := OpenSpec(s, k);
      assert a.scopes[m - 1] == Scope(AddChild(top.node, WrapAll(s.decorators, k)), top.depth);
      assert b.scopes[m - 1] == a.scopes[m - 1] by {
        assert b.scopes[..m][m - 1] == a.scopes[..m][m - 1];
      }
      var ch := b.scopes[m - 1].node.children;
      assert ch[|ch| - 1 := WrapAll(s.decorators, final)] == top.node.children + [WrapAll(s.decorators, final)];
      WithChildrenTwice(top.node, top.node.children + [WrapAll(s.decorators, k)], top.node.children + [WrapAll(s.decorators, final)]);
      assert b.scopes[..m - 1] == s.scopes[..m - 1] by {
        assert b.scopes[..m - 1] == b.scopes[..m][..m - 1];
        assert a.scopes[..m - 1] == a.scopes[..m][..m - 1];
        assert a.scopes[..m - 1] == s.scopes[..m - 1];
      }
    }
  }

  /**
   * A decorator staged before a composite wraps the whole finished
   * composite: `invert { sequence { action(a) } }` builds
   * Inverter(Sequence(a)).
   */
  lemma DecoratedComposite(a: Node)
    ensures BuildTree([Wrap(Inverter(None), [Open(Sequence([], 0), [Attach(a)])])])
         == Built(Inverter(Some(Sequence([a], 0))))
  {
    var inner := [Open(Sequence([], 0), [Attach(a)])];
    var p := [Wrap(Inverter(None), inner)];
    var s1 := StageSpec(Empty, Inverter(None));
    var s4 := Frames([], [], Some(Inverter(Some(Sequence([a], 0)))), None);
    DecoratedCompositeInner(a);
    assert ExecAll(s1, inner) == ExecAll(s4, inner[1..]) == s4;
    assert Exec(Empty, p[0]) == s4;
    assert ExecAll(Empty, p) == ExecAll(s4, p[1..]) == s4;
  }

  /** The inner step of DecoratedComposite: the sequence opened under the staged inverter, filled and closed. */
  lemma DecoratedCompositeInner(a: Node)
    ensures Exec(StageSpec(Empty, Inverter(None)), Open(Sequence([], 0), [Attach(a)]))
         == Frames([], [], Some(Inverter(Some(Sequence([a], 0)))), None)
  {
    var s1 := StageSpec(Empty, Inverter(None));
    var s2 := OpenSpec(s1, Sequence([], 0));
    assert s2 == Frames([], [Scope(Sequence([], 0), 1)], Some(Inverter(Some(Sequence([], 0)))), None);
    var s3 := AttachSpec(s2, a);
    assert s3 == Frames([], [Scope(Sequence([a], 0), 1)], Some(Inverter(Some(Sequence([], 0)))), None);
    assert ExecAll(s2, [Attach(a)]) == s3;
    assert CloseSpec(s3) == Frames([], [], Some(Inverter(Some(Sequence([a], 0)))), None);
  }

  /** Two top-level nodes: the second raises "Root already set". */
  lemma SecondRoot(a: Node, b: Node)
    ensures BuildTree([Attach(a), Attach(b)]) == Failed(RootAlreadySet)
  {
    var p := [Attach(a), Attach(b)];
    var s1 := AttachSpec(Empty, a);
    assert s1 == Frames([], [], Some(a), None);
    assert Exec(Empty, p[0]) == s1;
    assert p[1..] == [Attach(b)];
    assert ExecAll(s1, [Attach(b)]) == ExecAll(AttachSpec(s1, b), []);
    assert ExecAll(Empty, p) == ExecAll(s1, p[1..]);
  }

  /** An empty block defines no root. */
  lemma NoNodes()
    ensures BuildTree([]) == Failed(NoRoot)
  {
  }

  /** A decorator whose block attaches nothing stays staged and wraps the next node attached, even outside its block. */
  lemma DanglingDecorator(a: Node)
    ensures BuildTree([Wrap(Inverter(None), []), Attach(a)]) == Built(Inverter(Some(a)))
  {
    var p := [Wrap(Inverter(None), []), Attach(a)];
    var s1 := StageSpec(Empty, Inverter(None));
    assert Exec(Empty, p[0]) == s1;
    assert p[1..] == [Attach(a)];
    assert ExecAll(s1, [Attach(a)]) == ExecAll(AttachSpec(s1, a), []);
  }

  // ---------------------------------------------------------------------
  // The builder object

  class Builder {
    var nodeStack: seq<Node>
    var compositeStack: seq<Scope>
    var root: Option<Node>
    var error: Option<BuildError>

    function State(): Frames
      reads this
    {
      Frames(nodeStack, compositeStack, root, error)
    }

    constructor()
      ensures State() == Empty
    {
      nodeStack := [];
      compositeStack := [];
      root := None;
      error := None;
    }

    /** attach (BehaviorTree.kt:27-40). */
    method Attach(node: Node)
      requires Valid(State())
      modifies this
      ensures State() == AttachSpec(old(State()), node)
    {
      if error.Some? {
        return;
      }
      var n := node;
      while |nodeStack| > 0
        invariant forall k :: 0 <= k < |nodeStack| ==> nodeStack[k].IsDecorator()
        invariant WrapAll(nodeStack, n) == WrapAll(old(nodeStack), node)
        invariant compositeStack == old(compositeStack) && root == old(root) && error == None
        decreases |nodeStack|
      {
        var d := nodeStack[|nodeStack| - 1];
        nodeStack := nodeStack[..|nodeStack| - 1];
        n := AssignChild(d, n);
      }
      if |compositeStack| > 0 {
        var top := compositeStack[|compositeStack| - 1];
        compositeStack := compositeStack[..|compositeStack| - 1] + [Scope(AddChild(top.node, n), top.depth)];
      } else if root.Some? {
        error := Some(RootAlreadySet);
      } else {
        root := Some(n);
      }
    }

    /** composite (BehaviorTree.kt:42-48): attach, open, run the block, close. */
    method Composite(c: CompositeNode, block: seq<Cmd>)
      requires Valid(State()) && c.IsComposite()
      modifies this
      ensures State() == Exec(old(State()), Open(c, block))
      decreases SizeAll(block), 2
    {
      ghost var s0 := State();
      var depth := |nodeStack|;
      Attach(c);
      if error.Some? {
        return;
      }
      compositeStack := compositeStack + [Scope(c, depth)];
      ghost var a := OpenSpec(s0, c);
      assert State() == a;
      Run(block);
      ghost var b := ExecAll(a, block);
      assert Exec(s0, Open(c, block)) == CloseSpec(b);
      if error.Some? {
        return;
      }
      var m := |compositeStack| - 1;
      var top := compositeStack[m];
      if m > 0 {
        var parent := compositeStack[m - 1];
        var ch := parent.node.children;
        var slots := ch[|ch| - 1 := Graft(ch[|ch| - 1], top.depth, top.node)];
        compositeStack := compositeStack[..m - 1] + [Scope(WithChildren(parent.node, slots), parent.depth)];
      } else {
        compositeStack := [];
        root := Some(Graft(root.value, top.depth, top.node));
      }
    }

    /** invert, repeat, retry, cooldown and successRate (BehaviorTree.kt:86-109): stage, then run the block. */
    method Decorate(d: DecoratorNode, block: seq<Cmd>)
      requires Valid(State()) && d.IsDecorator()
      modifies this
      ensures State() == Exec(old(State()), Wrap(d, block))
      decreases SizeAll(block), 2
    {
      if error.None? {
        nodeStack := nodeStack + [d];
      }
      Run(block);
    }

    /** One call of a block. */
    method Do(c: Cmd)
      requires Valid(State())
      modifies this
      ensures State() == Exec(old(State()), c)
      decreases Size(c), 0
    {
      match c
      case Attach(node) => Attach(node);
      case Open(k, block) => Composite(k, block);
      case Wrap(d, block) => Decorate(d, block);
    }

    /** `this.block()`: the calls of a block, in order. */
    method Run(block: seq<Cmd>)
      requires Valid(State())
      modifies this
      ensures State() == ExecAll(old(State()), block)
      decreases SizeAll(block), 1
    {
      if |block| > 0 {
        Do(block[0]);
        Run(block[1..]);
      }
    }

    /** build (BehaviorTree.kt:117-121). */
    method Build() returns (r: Result)
      ensures r == BuildSpec(State())
    {
      if error.Some? {
        r := Failed(error.value);
      } else if |compositeStack| > 0 {
        r := Failed(Unclosed);
      } else if root.None? {
        r := Failed(NoRoot);
      } else {
        r := Built(root.value);
      }
    }
  }

  /** BehaviorTree.build (BehaviorTree.kt:19). */
  method Build(block: seq<Cmd>) returns (r: Result)
    ensures r == BuildTree(block)
  {
    var b := new Builder();
    b.Run(block);
    r := b.Build();
  }
}
