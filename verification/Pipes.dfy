/** However a pipe tree is associated, it means feeding each value to the next stage. */
module Pipes {
  import opened Wrappers
  import opened Surface
  import opened Desugaring

  // ---------- the tree flattened, in source order ----------

  function Leaves(n: Node): (r: seq<Node>)
    ensures r != []
    decreases n
  {
    match n.expr
    case Pipe(lhs, rhs, _) =>
      assert lhs < n.expr && rhs < n.expr && n.expr < n;
      Leaves(lhs) + Leaves(rhs)
    case _ => [n]
  }

  function Bars(n: Node): seq<Option<Span>>
    decreases n
  {
    match n.expr
    case Pipe(lhs, rhs, bar) =>
      assert lhs < n.expr && rhs < n.expr && n.expr < n;
      Bars(lhs) + [bar] + Bars(rhs)
    case _ => []
  }

  /** Each leaf with the bar in front of it. */
  function Zipped(leaves: seq<Node>, bars: seq<Option<Span>>): (r: seq<Stage>)
    requires |leaves| == |bars| + 1
    ensures |r| == |leaves|
  {
    seq(|leaves|, i requires 0 <= i < |leaves| => (leaves[i], if i == 0 then None else bars[i - 1]))
  }

  lemma ZippedAppend(l: seq<Node>, lb: seq<Option<Span>>, bar: Option<Span>, r: seq<Node>, rb: seq<Option<Span>>)
    requires |l| == |lb| + 1 && |r| == |rb| + 1
    ensures Zipped(l + r, lb + [bar] + rb) == Zipped(l, lb) + Retag(Zipped(r, rb), bar)
  {
    var bars := lb + [bar] + rb;
    var right := Retag(Zipped(r, rb), bar);
    forall i | 0 <= i < |l| + |r| ensures Zipped(l + r, bars)[i] == (Zipped(l, lb) + right)[i] {
      if 0 < i < |l| {
        assert bars[i - 1] == lb[i - 1];
      } else if i > |l| {
        assert bars[i - 1] == rb[i - 1 - |l|];
        assert right[i - |l|] == Zipped(r, rb)[i - |l|];
      }
    }
  }

  /** Retagging the first stage of every right subtree gives each leaf exactly its own bar. */
  lemma {:induction false} CollectInOrder(n: Node)
    ensures |Leaves(n)| == |Bars(n)| + 1
    ensures Collect(n) == Zipped(Leaves(n), Bars(n))
    decreases n
  {
    match n.expr {
      case Pipe(lhs, rhs, bar) =>
        assert lhs < n.expr && rhs < n.expr && n.expr < n;
        CollectInOrder(lhs);
        CollectInOrder(rhs);
        ZippedAppend(Leaves(lhs), Bars(lhs), bar, Leaves(rhs), Bars(rhs));
      case _ =>
        assert Collect(n) == [(n, None)];
    }
  }

  /** A chain is DIRECT exactly when its first leaf is. */
  lemma {:induction false} DirectIsFirstLeaf(n: Node)
    ensures Direct(n.expr) == Direct(Leaves(n)[0].expr)
    decreases n
  {
    match n.expr {
      case Pipe(lhs, rhs, _) =>
        assert lhs < n.expr && n.expr < n;
        DirectIsFirstLeaf(lhs);
        assert Leaves(n)[0] == Leaves(lhs)[0];
      case _ =>
        assert Leaves(n) == [n];
    }
  }

  lemma {:induction false} StagesIgnoreParent(p: Node, q: Node, stages: seq<Stage>, depth: nat)
    requires forall s :: s in stages ==> s.0 < p && s.0 < q
    ensures DesugarStages(p, stages, depth) == DesugarStages(q, stages, depth)
    decreases |stages|
  {
    if stages != [] {
      assert stages[0] in stages;
      StagesIgnoreParent(p, q, stages[1..], depth);
    }
  }

  lemma {:induction false} StageAt(parent: Node, stages: seq<Stage>, depth: nat, i: nat)
    requires forall s :: s in stages ==> s.0 < parent
    requires i < |stages|
    ensures DesugarStages(parent, stages, depth)[i] == (Desugar(stages[i].0, depth), stages[i].1)
    decreases |stages|
  {
    assert stages[0] in stages;
    if i > 0 {
      StageAt(parent, stages[1..], depth, i - 1);
    }
  }

  lemma RecurseIgnoresAssociation(m: Node, n: Node, depth: nat)
    requires m.expr.Pipe? && n.expr.Pipe?
    requires Leaves(m) == Leaves(n) && Bars(m) == Bars(n)
    ensures Recurse(m, depth) == Recurse(n, depth)
  {
    CollectInOrder(m);
    CollectInOrder(n);
    StagesIgnoreParent(m, n, Collect(m), depth);
  }

  /** Two pipe trees over the same leaves and bars desugar to the same node, wrapped alike. */
  lemma AssociationIrrelevant(m: Node, n: Node, depth: nat)
    requires m.expr.Pipe? && n.expr.Pipe? && m.span == n.span
    requires Leaves(m) == Leaves(n) && Bars(m) == Bars(n)
    ensures Desugar(m, depth) == Desugar(n, depth)
  {
    DirectIsFirstLeaf(m);
    DirectIsFirstLeaf(n);
    RecurseIgnoresAssociation(m, n, depth);
    RecurseIgnoresAssociation(m, n, 1);
    assert Desugar(m, 1) == Desugar(n, 1);
    assert Wraps(m.expr) == Wraps(n.expr);
  }

  // ---------- the shape of the result ----------

  /** The accumulator after `k` steps. */
  function After(first: Node, steps: seq<Stage>, k: nat): Node
    requires k <= |steps|
  {
    FoldSteps(first, steps[..k])
  }

  lemma {:induction false} FoldSnoc(acc: Node, steps: seq<Stage>)
    requires steps != []
    ensures FoldSteps(acc, steps) ==
            ApplyStep(FoldSteps(acc, steps[..|steps| - 1]), steps[|steps| - 1].0, StepSpan(steps[|steps| - 1]))
    decreases |steps|
  {
    if |steps| == 1 {
      assert steps[1..] == [] && steps[..0] == [];
    } else {
      var next := ApplyStep(acc, steps[0].0, StepSpan(steps[0]));
      FoldSnoc(next, steps[1..]);
      assert steps[1..][..|steps| - 2] == steps[..|steps| - 1][1..];
    }
  }

  /** One step's call: it carries its own span as the bar, and the value so far is its last argument. */
  predicate CallsWith(call: Node, before: Node, span: Span) {
    && call.expr.Call?
    && call.expr.args != []
    && call.expr.args[|call.expr.args| - 1] == before
    && call.expr.bar == Some(span)
    && call.span == span
  }

  lemma StepCallsWith(acc: Node, stage: Node, span: Span)
    ensures CallsWith(ApplyStep(acc, stage, span), acc, span)
  {
  }

  lemma AfterStep(first: Node, steps: seq<Stage>, k: nat)
    requires 0 < k <= |steps|
    ensures CallsWith(After(first, steps, k), After(first, steps, k - 1), StepSpan(steps[k - 1]))
  {
    FoldSnoc(first, steps[..k]);
    assert steps[..k][..k - 1] == steps[..k - 1];
    StepCallsWith(After(first, steps, k - 1), steps[k - 1].0, StepSpan(steps[k - 1]));
  }

  lemma StageCarriesBar(n: Node, depth: nat, k: nat)
    requires 0 < k < |Leaves(n)|
    requires forall s :: s in Collect(n) ==> s.0 < n
    ensures |Bars(n)| == |Leaves(n)| - 1 == |Collect(n)| - 1
    ensures DesugarStages(n, Collect(n), depth)[k] == (Desugar(Leaves(n)[k], depth), Bars(n)[k - 1])
  {
    CollectInOrder(n);
    StageAt(n, Collect(n), depth, k);
  }

  function StagesOf(n: Node, depth: nat): (r: seq<Stage>)
    requires n.expr.Pipe?
    ensures |r| == |Collect(n)| > 0
  {
    DesugarStages(n, Collect(n), depth)
  }

  /** The calls made so far: the first stage, then one call per later stage. */
  function Accumulated(n: Node, depth: nat, k: nat): Node
    requires n.expr.Pipe? && k < |Collect(n)|
  {
    After(StagesOf(n, depth)[0].0, StagesOf(n, depth)[1..], k)
  }

  lemma RecurseIsAccumulated(n: Node, depth: nat)
    requires n.expr.Pipe?
    ensures Recurse(n, depth) == Accumulated(n, depth, |Collect(n)| - 1).expr
  {
    var steps := StagesOf(n, depth)[1..];
    assert steps[..|steps|] == steps;
  }

  /** The k-th call carries the k-th `|`, and its last argument is the result of the calls before
      it: the fold nests to the left whatever the shape of the tree. */
  lemma KthCallCarriesKthBar(n: Node, depth: nat, k: nat)
    requires n.expr.Pipe? && 0 < k < |Leaves(n)|
    requires k <= |Bars(n)| && Bars(n)[k - 1].Some?
    ensures |Collect(n)| == |Leaves(n)|
    ensures Recurse(n, depth) == Accumulated(n, depth, |Collect(n)| - 1).expr
    ensures CallsWith(Accumulated(n, depth, k), Accumulated(n, depth, k - 1), Bars(n)[k - 1].value)
  {
    StageCarriesBar(n, depth, k);
    RecurseIsAccumulated(n, depth);
    var stages := StagesOf(n, depth);
    assert stages[1..][k - 1] == stages[k];
    AfterStep(stages[0].0, stages[1..], k);
  }

  // ---------- which stages take the value as an extra argument ----------

  /** A string literal that the pass turns into a call. */
  predicate BuildsCall(e: Expr) {
    e.Str? && (e.prefix == "i" || (IsTriple(e.delimiter) && e.prefix == ""))
  }

  /** A call that stays a call: one that is not closed into a lambda first. */
  predicate StaysCall(e: Expr, depth: nat) {
    e.Call? && !(depth == 0 && Wraps(e))
  }

  lemma StageBecomesCall(stage: Node, depth: nat)
    requires !stage.expr.Pipe?
    ensures Desugar(stage, depth).expr.Call? <==> StaysCall(stage.expr, depth) || BuildsCall(stage.expr)
  {
  }

  // ---------- meaning ----------

  /** An evaluator: the value of an expression, and what a call does with values.  Values may be
      functions of an environment. */
  datatype Evaluator<!V> = Evaluator(
    value: Expr -> V,
    call: (V, seq<V>, seq<string>, seq<V>) -> V)

  function Values<V>(ev: Evaluator<V>, ns: seq<Node>): (r: seq<V>)
    ensures |r| == |ns|
  {
    if ns == [] then [] else [ev.value(ns[0].expr)] + Values(ev, ns[1..])
  }

  lemma {:induction false} ValuesAppend<V>(ev: Evaluator<V>, ns: seq<Node>, last: Node)
    ensures Values(ev, ns + [last]) == Values(ev, ns) + [ev.value(last.expr)]
    decreases |ns|
  {
    if ns == [] {
      assert ns + [last] == [last];
      assert [last][1..] == [];
    } else {
      ValuesAppend(ev, ns[1..], last);
      assert (ns + [last])[1..] == ns[1..] + [last];
    }
  }

  /** A call means calling the value of its function with the values of its arguments, and a
      reference means the same with or without its annotation and resolution. */
  ghost predicate Compositional<V(!new)>(ev: Evaluator<V>) {
    && (forall func, args, names, named, implied, bar ::
          ev.value(Call(func, args, names, named, implied, bar)) ==
          ev.call(ev.value(func.expr), Values(ev, args), names, Values(ev, named)))
    && (forall name, escaped, extra ::
          ev.value(VarRef(name, escaped, extra)) == ev.value(VarRef(name, escaped, NoExtra)))
  }

  /** Handing `v` to a stage: last among the arguments of a call, else the only argument. */
  function Feed<V>(ev: Evaluator<V>, v: V, stage: Node, appended: bool): V {
    match stage.expr
    case Call(func, args, names, named, _, _) =>
      if appended then ev.call(ev.value(func.expr), Values(ev, args) + [v], names, Values(ev, named))
      else ev.call(ev.value(stage.expr), [v], [], [])
    case _ => ev.call(ev.value(stage.expr), [v], [], [])
  }

  lemma StepMeansFeed<V(!new)>(ev: Evaluator<V>, acc: Node, stage: Node, span: Span)
    requires Compositional(ev)
    ensures ev.value(ApplyStep(acc, stage, span).expr) == Feed(ev, ev.value(acc.expr), stage, true)
  {
    assert Values(ev, [acc]) == [ev.value(acc.expr)] by { ValuesAppend(ev, [], acc); assert [] + [acc] == [acc]; }
    match stage.expr {
      case Call(func, args, names, named, implied, _) => ValuesAppend(ev, args, acc);
      case VarRef(name, escaped, extra) =>
      case _ =>
    }
  }

  /** Feeding a value through the remaining leaves, as the source text reads: whether it is
      appended is decided by the leaf as written. */
  function FeedLeaves<V>(ev: Evaluator<V>, v: V, leaves: seq<Node>, depth: nat): V
    decreases |leaves|
  {
    if leaves == [] then v
    else
      var stage := Desugar(leaves[0], depth);
      FeedLeaves(ev, Feed(ev, v, stage, StaysCall(leaves[0].expr, depth)), leaves[1..], depth)
  }

  lemma {:induction false} FoldMeansFeeding<V(!new)>(ev: Evaluator<V>, acc: Node, leaves: seq<Node>,
                                                     steps: seq<Stage>, depth: nat)
    requires Compositional(ev)
    requires |steps| == |leaves|
    requires forall i :: 0 <= i < |leaves| ==> steps[i].0 == Desugar(leaves[i], depth)
    requires forall i :: 0 <= i < |leaves| ==> !leaves[i].expr.Pipe? && !BuildsCall(leaves[i].expr)
    ensures ev.value(FoldSteps(acc, steps).expr) == FeedLeaves(ev, ev.value(acc.expr), leaves, depth)
    decreases |steps|
  {
    if steps != [] {
      var stage := steps[0].0;
      StepMeansFeed(ev, acc, stage, StepSpan(steps[0]));
      StageBecomesCall(leaves[0], depth);
      assert Feed(ev, ev.value(acc.expr), stage, true) ==
             Feed(ev, ev.value(acc.expr), stage, StaysCall(leaves[0].expr, depth));
      FoldMeansFeeding(ev, ApplyStep(acc, stage, StepSpan(steps[0])), leaves[1..], steps[1..], depth);
    }
  }

  lemma {:induction false} LeavesAreNotPipes(n: Node)
    ensures forall m :: m in Leaves(n) ==> !m.expr.Pipe?
    decreases n
  {
    match n.expr {
      case Pipe(lhs, rhs, _) =>
        assert lhs < n.expr && rhs < n.expr && n.expr < n;
        LeavesAreNotPipes(lhs);
        LeavesAreNotPipes(rhs);
      case _ =>
    }
  }

  /** A desugared chain evaluates like feeding the first value through the later stages in source
      order, when no later stage is a string literal that the pass makes a call of. */
  lemma PipeMeansFeeding<V(!new)>(ev: Evaluator<V>, n: Node, depth: nat)
    requires Compositional(ev)
    requires n.expr.Pipe?
    requires forall m :: m in Leaves(n)[1..] ==> !BuildsCall(m.expr)
    ensures ev.value(Recurse(n, depth)) ==
            FeedLeaves(ev, ev.value(Desugar(Leaves(n)[0], depth).expr), Leaves(n)[1..], depth)
  {
    CollectInOrder(n);
    LeavesAreNotPipes(n);
    var leaves := Leaves(n);
    var stages := DesugarStages(n, Collect(n), depth);
    forall i | 0 <= i < |leaves| ensures stages[i].0 == Desugar(leaves[i], depth) {
      StageAt(n, Collect(n), depth, i);
    }
    forall i | 0 <= i < |leaves[1..]|
      ensures !leaves[1..][i].expr.Pipe? && !BuildsCall(leaves[1..][i].expr)
      ensures stages[1..][i].0 == Desugar(leaves[1..][i], depth)
    {
      assert leaves[1..][i] == leaves[i + 1];
      assert leaves[i + 1] in leaves && leaves[1..][i] in leaves[1..];
    }
    FoldMeansFeeding(ev, stages[0].0, leaves[1..], stages[1..], depth);
  }

  /** The condition is needed: a value piped into an interpolated string is appended to the
      arguments of `tmpl` instead of being the sole argument of the string's value. */
  lemma StringStageTakesExtraArgument(value: Node, span: Span, content: string, depth: nat)
    requires value.expr.Atom?
    ensures var stage := Node(Str("i", "\"", content), span);
            var piped := Recurse(Node(Pipe(value, stage, Some(span)), span), depth);
            && piped.Call?
            && piped.func.expr == VarRef("tmpl", false, NoExtra)
            && |piped.args| == 2
            && piped.args[0].expr == Str("", "\"", content)
            && piped.args[1] == value
  {
    var stage := Node(Str("i", "\"", content), span);
    var n := Node(Pipe(value, stage, Some(span)), span);
    assert Collect(value) == [(value, None)];
    assert Collect(stage) == [(stage, None)];
    assert Collect(n) == [(value, None), (stage, Some(span))];
    var stages := DesugarStages(n, Collect(n), depth);
    StageAt(n, Collect(n), depth, 0);
    StageAt(n, Collect(n), depth, 1);
    var steps := stages[1..];
    assert steps == [stages[1]] && |steps[1..]| == 0;
    assert FoldSteps(stages[0].0, steps) == ApplyStep(stages[0].0, stages[1].0, span);
  }
}
