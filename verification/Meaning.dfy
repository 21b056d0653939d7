/** The pass preserves meaning: pipes feed values on, an unbound `$_` is the parameter of the smallest
    form that may hold it, and everything else means what it meant. */
module Meaning {
  import opened Wrappers
  import opened Surface
  import opened Desugaring
  import opened Pipes

  /** What the forms do with values.  Values may be functions of an environment for the names other than
      `_`; `unbound` is the value of `_` where nothing binds it. */
  datatype Algebra<!V> = Algebra(
    unbound: V,
    leaf: Expr -> V,
    name: (string, bool) -> V,
    text: (string, string, string) -> V,
    access: (V, string) -> V,
    dict: seq<(Option<V>, V)> -> V,
    call: (V, seq<V>, seq<string>, seq<V>) -> V,
    abstraction: (seq<string>, Opaque, V) -> V,
    hole: (seq<string>, Opaque, V -> V) -> V,
    group: (Opaque, seq<V>) -> V)

  /** A function that binds `_` is given by what it yields. */
  ghost predicate Extensional<V(!new)>(alg: Algebra<V>) {
    forall params, annotations, f: V -> V, g: V -> V ::
      (forall v :: f(v) == g(v)) ==> alg.hole(params, annotations, f) == alg.hole(params, annotations, g)
  }

  /** Calling a function of `_` alone with one argument yields its value there. */
  ghost predicate Applies<V(!new)>(alg: Algebra<V>) {
    forall annotations, f: V -> V, v ::
      alg.call(alg.hole([Underscore], annotations, f), [v], [], []) == f(v)
  }

  // ---------- the meaning of a tree without pipes ----------

  /** `it` is the value of `_`.  Spans, bars and flags mean nothing; a pipe is taken for a call. */
  function Eval<V>(alg: Algebra<V>, n: Node, it: V): V
    decreases n
  {
    assert n.expr < n;
    match n.expr
    case Atom(_) | LeadingDot(_) | Quote(_) => alg.leaf(n.expr)
    case VarRef(name, escaped, _) => if name == Underscore then it else alg.name(name, escaped)
    case Str(prefix, delimiter, content) => alg.text(prefix, delimiter, content)
    case Access(target, field) => alg.access(Eval(alg, target, it), field)
    case Pipe(lhs, rhs, _) => alg.call(Eval(alg, rhs, it), [Eval(alg, lhs, it)], [], [])
    case Dict(entries) => alg.dict(EvalEntries(alg, entries, it))
    case Call(func, args, names, named, _, _) =>
      alg.call(Eval(alg, func, it), EvalAll(alg, args, it), names, EvalAll(alg, named, it))
    case Fn(params, body, _, annotations) =>
      if Underscore in params then alg.hole(params, annotations, v => Eval(alg, body, v))
      else alg.abstraction(params, annotations, Eval(alg, body, it))
    case Group(kind, children) => alg.group(kind, EvalAll(alg, children, it))
  }

  function EvalAll<V>(alg: Algebra<V>, ns: seq<Node>, it: V): (r: seq<V>)
    ensures |r| == |ns|
    decreases ns
  {
    if ns == [] then [] else [Eval(alg, ns[0], it)] + EvalAll(alg, ns[1..], it)
  }

  function EvalEntry<V>(alg: Algebra<V>, e: Entry, it: V): (Option<V>, V)
    decreases e
  {
    match e
    case Keyed(key, value) => (Some(Eval(alg, key, it)), Eval(alg, value, it))
    case Positional(value) => (None, Eval(alg, value, it))
  }

  function EvalEntries<V>(alg: Algebra<V>, es: seq<Entry>, it: V): (r: seq<(Option<V>, V)>)
    ensures |r| == |es|
    decreases es
  {
    if es == [] then [] else [EvalEntry(alg, es[0], it)] + EvalEntries(alg, es[1..], it)
  }

  // ---------- the meaning of the surface ----------

  /** Where a chain of accesses and pipes starts. */
  function Root(n: Node): Node
    decreases n
  {
    assert n.expr < n;
    match n.expr
    case Access(target, _) => Root(target)
    case Pipe(lhs, _, _) => Root(lhs)
    case _ => n
  }

  /** The chain starts at `_`. */
  predicate AtHole(n: Node) { Root(n).expr.VarRef? && Root(n).expr.name == Underscore }

  /** The form holds `_` directly: as the start of an argument, of a dict value, or of the chain that
      the form itself is. */
  predicate Holds(n: Node) {
    match n.expr
    case Call(_, args, _, named, _, _) => exists a :: a in args + named && AtHole(a)
    case Dict(entries) => exists en :: en in entries && AtHole(en.value)
    case Access(_, _) => AtHole(n)
    case Pipe(_, _, _) => AtHole(n)
    case _ => false
  }

  lemma {:induction false} DirectIffAtHole(n: Node)
    ensures Direct(n.expr) <==> AtHole(n)
    decreases n
  {
    assert n.expr < n;
    match n.expr {
      case Access(target, _) => DirectIffAtHole(target);
      case Pipe(lhs, _, _) => DirectIffAtHole(lhs);
      case _ =>
    }
  }

  /** The wrapping rules find exactly these forms. */
  lemma WrapsIffHolds(n: Node)
    ensures Wraps(n.expr) <==> Holds(n)
  {
    match n.expr {
      case Call(_, args, _, named, _, _) =>
        forall a | a in args + named ensures Direct(a.expr) <==> AtHole(a) { DirectIffAtHole(a); }
        assert forall a :: a in args || a in named <==> a in args + named;
      case Dict(entries) =>
        forall en | en in entries ensures Direct(en.value.expr) <==> AtHole(en.value) { DirectIffAtHole(en.value); }
      case Access(target, _) => DirectIffAtHole(n);
      case Pipe(_, _, _) => DirectIffAtHole(n);
      case _ =>
    }
  }

  /** The value of `_`, if something binds it. */
  type Scope<V> = Option<V>

  function It<V>(alg: Algebra<V>, scope: Scope<V>): V {
    match scope case Some(v) => v case None => alg.unbound
  }

  /** Interpolated text, and plain text in triple quotes, is computed. */
  predicate Computed(prefix: string, delimiter: string) {
    prefix == "i" || (prefix == "" && |delimiter| >= 3)
  }

  /** A string literal: interpolation is a call of `tmpl`, triple quotes of `unindent`. */
  function TextMeaning<V>(alg: Algebra<V>, prefix: string, delimiter: string, content: string): V {
    if Computed(prefix, delimiter) then
      var (name, arg) := TextCall(alg, prefix, delimiter, content);
      alg.call(alg.name(name, false), [arg], [], [])
    else alg.text(prefix, delimiter, content)
  }

  function TextCall<V>(alg: Algebra<V>, prefix: string, delimiter: string, content: string): (string, V) {
    var plain := alg.text("", delimiter, content);
    if prefix != "i" then ("unindent", plain)
    else if |delimiter| >= 3 then ("unindent", alg.call(alg.name("tmpl", false), [plain], [], []))
    else ("tmpl", plain)
  }

  /** With `_` unbound, a form that holds it directly is the function of it; otherwise a form means what
      its parts mean, and a chain of pipes feeds its first value through the others in order. */
  function Sem<V>(alg: Algebra<V>, n: Node, scope: Scope<V>): V
    decreases n, 2, if scope.None? then 1 else 0
  {
    if scope.None? && Holds(n) then alg.hole([Underscore], NoExtra, v => Sem(alg, n, Some(v)))
    else Parts(alg, n, scope)
  }

  function Parts<V>(alg: Algebra<V>, n: Node, scope: Scope<V>): V
    decreases n, 1
  {
    assert n.expr < n;
    match n.expr
    case Atom(_) | LeadingDot(_) | Quote(_) => alg.leaf(n.expr)
    case VarRef(name, escaped, _) => if name == Underscore then It(alg, scope) else alg.name(name, escaped)
    case Str(prefix, delimiter, content) => TextMeaning(alg, prefix, delimiter, content)
    case Access(target, field) => alg.access(Sem(alg, target, scope), field)
    case Pipe(_, _, _) =>
      LeavesInside(n);
      var leaves := Leaves(n);
      assert leaves[0] in leaves && forall m :: m in leaves[1..] ==> m in leaves;
      SemFeed(alg, n, Sem(alg, leaves[0], scope), leaves[1..], scope)
    case Dict(entries) => alg.dict(SemEntries(alg, entries, scope))
    case Call(func, args, names, named, _, _) =>
      alg.call(Sem(alg, func, scope), SemAll(alg, args, scope), names, SemAll(alg, named, scope))
    case Fn(params, body, _, annotations) =>
      if Underscore in params then alg.hole(params, annotations, v => Sem(alg, body, Some(v)))
      else alg.abstraction(params, annotations, Sem(alg, body, scope))
    case Group(kind, children) => alg.group(kind, SemAll(alg, children, scope))
  }

  lemma {:induction false} LeavesInside(n: Node)
    ensures forall m :: m in Leaves(n) ==> !m.expr.Pipe? && (m == n || m < n)
    ensures n.expr.Pipe? ==> forall m :: m in Leaves(n) ==> m < n
    decreases n
  {
    match n.expr {
      case Pipe(lhs, rhs, _) =>
        assert lhs < n.expr && rhs < n.expr && n.expr < n;
        LeavesInside(lhs);
        LeavesInside(rhs);
      case _ =>
    }
  }

  /** `v` handed to one form after the other: last among the arguments of one written as a call, after
      the text for a string that is one, and alone to the value of any other. */
  function SemFeed<V>(alg: Algebra<V>, parent: Node, v: V, leaves: seq<Node>, scope: Scope<V>): V
    requires forall m :: m in leaves ==> m < parent
    decreases parent, 0, |leaves|
  {
    if leaves == [] then v
    else
      assert leaves[0] in leaves && forall m :: m in leaves[1..] ==> m in leaves;
      SemFeed(alg, parent, SemStep(alg, parent, v, leaves[0], scope), leaves[1..], scope)
  }

  function SemStep<V>(alg: Algebra<V>, parent: Node, v: V, leaf: Node, scope: Scope<V>): V
    requires leaf < parent
    decreases parent, 0, 0
  {
    assert leaf.expr < leaf;
    match leaf.expr
    case Call(func, args, names, named, _, _) =>
      if scope.None? && Holds(leaf) then alg.call(Sem(alg, leaf, scope), [v], [], [])
      else alg.call(Sem(alg, func, scope), SemAll(alg, args, scope) + [v], names, SemAll(alg, named, scope))
    case Str(prefix, delimiter, content) =>
      if Computed(prefix, delimiter) then
        var (name, arg) := TextCall(alg, prefix, delimiter, content);
        alg.call(alg.name(name, false), [arg, v], [], [])
      else alg.call(Sem(alg, leaf, scope), [v], [], [])
    case _ => alg.call(Sem(alg, leaf, scope), [v], [], [])
  }

  function SemAll<V>(alg: Algebra<V>, ns: seq<Node>, scope: Scope<V>): (r: seq<V>)
    ensures |r| == |ns|
    decreases ns, 0
  {
    if ns == [] then [] else [Sem(alg, ns[0], scope)] + SemAll(alg, ns[1..], scope)
  }

  function SemEntry<V>(alg: Algebra<V>, e: Entry, scope: Scope<V>): (Option<V>, V)
    decreases e, 0
  {
    match e
    case Keyed(key, value) => (Some(Sem(alg, key, scope)), Sem(alg, value, scope))
    case Positional(value) => (None, Sem(alg, value, scope))
  }

  function SemEntries<V>(alg: Algebra<V>, es: seq<Entry>, scope: Scope<V>): (r: seq<(Option<V>, V)>)
    ensures |r| == |es|
    decreases es, 0
  {
    if es == [] then [] else [SemEntry(alg, es[0], scope)] + SemEntries(alg, es[1..], scope)
  }

  // ---------- the pass preserves it ----------

  /** How deep the pass is in a scope. */
  predicate Matches<V>(scope: Scope<V>, depth: nat) { scope.None? <==> depth == 0 }

  /** The tree the pass leaves means what the surface meant. */
  lemma {:induction false} DesugarMeans<V(!new)>(alg: Algebra<V>, n: Node, depth: nat, scope: Scope<V>)
    requires Extensional(alg) && Matches(scope, depth)
    ensures Eval(alg, Desugar(n, depth), It(alg, scope)) == Sem(alg, n, scope)
    decreases n, 2, if depth == 0 then 1 else 0
  {
    WrapsIffHolds(n);
    if depth == 0 && Wraps(n.expr) {
      var body := Desugar(n, 1);
      forall v ensures Eval(alg, body, v) == Sem(alg, n, Some(v)) {
        DesugarMeans(alg, n, 1, Some(v));
      }
      SameHole(alg, [Underscore], NoExtra, v => Eval(alg, body, v), v => Sem(alg, n, Some(v)));
      assert Desugar(n, depth) == Node(Fn([Underscore], body, true, NoExtra), n.span);
    } else {
      PartsMean(alg, n, depth, scope);
    }
  }

  lemma SameHole<V(!new)>(alg: Algebra<V>, params: seq<string>, annotations: Opaque, f: V -> V, g: V -> V)
    requires Extensional(alg) && forall v :: f(v) == g(v)
    ensures alg.hole(params, annotations, f) == alg.hole(params, annotations, g)
  {
  }

  lemma {:induction false} PartsMean<V(!new)>(alg: Algebra<V>, n: Node, depth: nat, scope: Scope<V>)
    requires Extensional(alg) && Matches(scope, depth)
    ensures Eval(alg, Node(Recurse(n, depth), n.span), It(alg, scope)) == Parts(alg, n, scope)
    decreases n, 1
  {
    assert n.expr < n;
    match n.expr {
      case Atom(_) =>
      case LeadingDot(_) =>
      case Quote(_) =>
      case VarRef(_, _, _) =>
      case Str(prefix, delimiter, content) => TextMeans(alg, n, It(alg, scope));
      case Access(target, field) => DesugarMeans(alg, target, depth, scope);
      case Pipe(_, _, _) => PipeMeans(alg, n, depth, scope);
      case Dict(entries) => EntriesMean(alg, entries, depth, scope);
      case Call(func, args, names, named, _, _) =>
        DesugarMeans(alg, func, depth, scope);
        AllMean(alg, args, depth, scope);
        AllMean(alg, named, depth, scope);
      case Fn(_, _, _, _) => FnMeans(alg, n, depth, scope);
      case Group(kind, children) => AllMean(alg, children, depth, scope);
    }
  }

  lemma {:induction false} FnMeans<V(!new)>(alg: Algebra<V>, n: Node, depth: nat, scope: Scope<V>)
    requires Extensional(alg) && Matches(scope, depth) && n.expr.Fn?
    ensures Eval(alg, Node(Recurse(n, depth), n.span), It(alg, scope)) == Parts(alg, n, scope)
    decreases n, 0, 0
  {
    var params, body, annotations := n.expr.params, n.expr.body, n.expr.annotations;
    assert body < n.expr && n.expr < n;
    if Underscore in params {
      var d := Desugar(body, depth + 1);
      forall v ensures Eval(alg, d, v) == Sem(alg, body, Some(v)) {
        DesugarMeans(alg, body, depth + 1, Some(v));
      }
      SameHole(alg, params, annotations, v => Eval(alg, d, v), v => Sem(alg, body, Some(v)));
    } else {
      DesugarMeans(alg, body, depth, scope);
    }
  }

  lemma TextMeans<V(!new)>(alg: Algebra<V>, n: Node, it: V)
    requires n.expr.Str?
    ensures var e := n.expr;
      Eval(alg, Node(DesugarString(e.prefix, e.delimiter, e.content, n.span), n.span), it)
        == TextMeaning(alg, e.prefix, e.delimiter, e.content)
  {
    var e := n.expr;
    var plain := Node(Str("", e.delimiter, e.content), n.span);
    BuiltMeans(alg, "tmpl", plain, n.span, it);
    BuiltMeans(alg, "unindent", plain, n.span, it);
    BuiltMeans(alg, "unindent", Node(BuiltCall("tmpl", plain, n.span), n.span), n.span, it);
  }

  lemma BuiltMeans<V(!new)>(alg: Algebra<V>, name: string, arg: Node, span: Span, it: V)
    requires name != Underscore
    ensures Eval(alg, Node(BuiltCall(name, arg, span), span), it)
         == alg.call(alg.name(name, false), [Eval(alg, arg, it)], [], [])
  {
    OneValue(alg, arg, it);
    var call := BuiltCall(name, arg, span);
    assert Eval(alg, call.func, it) == alg.name(name, false) && EvalAll(alg, call.named, it) == [];
  }

  lemma OneValue<V>(alg: Algebra<V>, n: Node, it: V)
    ensures EvalAll(alg, [n], it) == [Eval(alg, n, it)]
  {
    assert [n][1..] == [];
  }

  lemma {:induction false} AllMean<V(!new)>(alg: Algebra<V>, ns: seq<Node>, depth: nat, scope: Scope<V>)
    requires Extensional(alg) && Matches(scope, depth)
    ensures EvalAll(alg, DesugarAll(ns, depth), It(alg, scope)) == SemAll(alg, ns, scope)
    decreases ns, 0
  {
    if ns != [] {
      DesugarMeans(alg, ns[0], depth, scope);
      AllMean(alg, ns[1..], depth, scope);
      assert DesugarAll(ns, depth)[1..] == DesugarAll(ns[1..], depth);
    }
  }

  lemma {:induction false} EntryMeans<V(!new)>(alg: Algebra<V>, e: Entry, depth: nat, scope: Scope<V>)
    requires Extensional(alg) && Matches(scope, depth)
    ensures EvalEntry(alg, DesugarEntry(e, depth), It(alg, scope)) == SemEntry(alg, e, scope)
    decreases e, 0
  {
    match e {
      case Keyed(key, value) =>
        DesugarMeans(alg, key, depth, scope);
        DesugarMeans(alg, value, depth, scope);
      case Positional(value) => DesugarMeans(alg, value, depth, scope);
    }
  }

  lemma {:induction false} EntriesMean<V(!new)>(alg: Algebra<V>, es: seq<Entry>, depth: nat, scope: Scope<V>)
    requires Extensional(alg) && Matches(scope, depth)
    ensures EvalEntries(alg, DesugarEntries(es, depth), It(alg, scope)) == SemEntries(alg, es, scope)
    decreases es, 0
  {
    if es != [] {
      EntryMeans(alg, es[0], depth, scope);
      EntriesMean(alg, es[1..], depth, scope);
      assert DesugarEntries(es, depth)[1..] == DesugarEntries(es[1..], depth);
    }
  }

  // ---------- pipes ----------

  lemma {:induction false} EvalAppend<V>(alg: Algebra<V>, ns: seq<Node>, last: Node, it: V)
    ensures EvalAll(alg, ns + [last], it) == EvalAll(alg, ns, it) + [Eval(alg, last, it)]
    decreases |ns|
  {
    if ns == [] {
      assert ns + [last] == [last] && [last][1..] == [];
    } else {
      EvalAppend(alg, ns[1..], last, it);
      assert (ns + [last])[1..] == ns[1..] + [last];
    }
  }

  /** `v` handed to a stage of the finished tree. */
  function StageEval<V>(alg: Algebra<V>, stage: Node, v: V, it: V): V {
    match stage.expr
    case Call(func, args, names, named, _, _) =>
      alg.call(Eval(alg, func, it), EvalAll(alg, args, it) + [v], names, EvalAll(alg, named, it))
    case _ => alg.call(Eval(alg, stage, it), [v], [], [])
  }

  /** One call of the fold, in terms of the stage. */
  lemma StepEval<V(!new)>(alg: Algebra<V>, acc: Node, stage: Node, span: Span, it: V)
    ensures Eval(alg, ApplyStep(acc, stage, span), it) == StageEval(alg, stage, Eval(alg, acc, it), it)
  {
    OneValue(alg, acc, it);
    var call := ApplyStep(acc, stage, span);
    match stage.expr {
      case Call(func, args, _, _, _, _) => EvalAppend(alg, args, acc, it);
      case _ =>
        assert Eval(alg, call.expr.func, it) == Eval(alg, stage, it);
        assert call.expr.args == [acc] && EvalAll(alg, call.expr.named, it) == [];
    }
  }

  lemma {:induction false} StepMeans<V(!new)>(alg: Algebra<V>, parent: Node, acc: Node, leaf: Node, span: Span,
                                              depth: nat, scope: Scope<V>)
    requires Extensional(alg) && Matches(scope, depth) && leaf < parent && !leaf.expr.Pipe?
    ensures Eval(alg, ApplyStep(acc, Desugar(leaf, depth), span), It(alg, scope))
         == SemStep(alg, parent, Eval(alg, acc, It(alg, scope)), leaf, scope)
    decreases parent, 0, 0
  {
    var it := It(alg, scope);
    assert leaf.expr < leaf;
    StepEval(alg, acc, Desugar(leaf, depth), span, it);
    DesugarMeans(alg, leaf, depth, scope);
    StageBecomesCall(leaf, depth);
    WrapsIffHolds(leaf);
    if BuildsCall(leaf.expr) {
      BuiltStage(alg, acc, leaf, span, depth, it);
    } else if StaysCall(leaf.expr, depth) {
      DesugarMeans(alg, leaf.expr.func, depth, scope);
      AllMean(alg, leaf.expr.args, depth, scope);
      AllMean(alg, leaf.expr.named, depth, scope);
    }
  }

  lemma BuiltStage<V(!new)>(alg: Algebra<V>, acc: Node, leaf: Node, span: Span, depth: nat, it: V)
    requires BuildsCall(leaf.expr)
    ensures var e := leaf.expr;
      var (name, arg) := TextCall(alg, e.prefix, e.delimiter, e.content);
      Eval(alg, ApplyStep(acc, Desugar(leaf, depth), span), it)
        == alg.call(alg.name(name, false), [arg, Eval(alg, acc, it)], [], [])
  {
    var e := leaf.expr;
    var plain := Node(Str("", e.delimiter, e.content), leaf.span);
    var tmpl := Node(BuiltCall("tmpl", plain, leaf.span), leaf.span);
    BuiltMeans(alg, "tmpl", plain, leaf.span, it);
    BuiltStep(alg, acc, "tmpl", plain, leaf.span, span, it);
    BuiltStep(alg, acc, "unindent", plain, leaf.span, span, it);
    BuiltStep(alg, acc, "unindent", tmpl, leaf.span, span, it);
    assert Desugar(leaf, depth).expr == DesugarString(e.prefix, e.delimiter, e.content, leaf.span);
  }

  lemma BuiltStep<V(!new)>(alg: Algebra<V>, acc: Node, name: string, arg: Node, inner: Span, span: Span, it: V)
    requires name != Underscore
    ensures Eval(alg, ApplyStep(acc, Node(BuiltCall(name, arg, inner), inner), span), it)
         == alg.call(alg.name(name, false), [Eval(alg, arg, it), Eval(alg, acc, it)], [], [])
  {
    var call := BuiltCall(name, arg, inner);
    StepEval(alg, acc, Node(call, inner), span, it);
    OneValue(alg, arg, it);
    assert Eval(alg, call.func, it) == alg.name(name, false) && EvalAll(alg, call.named, it) == [];
    var v := Eval(alg, acc, it);
    assert [Eval(alg, arg, it)] + [v] == [Eval(alg, arg, it), v];
    assert StageEval(alg, Node(call, inner), v, it)
        == alg.call(Eval(alg, call.func, it), EvalAll(alg, call.args, it) + [v], [], EvalAll(alg, call.named, it));
  }

  lemma {:induction false} FoldMeans<V(!new)>(alg: Algebra<V>, parent: Node, acc: Node, leaves: seq<Node>,
                                              steps: seq<Stage>, depth: nat, scope: Scope<V>)
    requires Extensional(alg) && Matches(scope, depth) && |steps| == |leaves|
    requires forall m :: m in leaves ==> m < parent && !m.expr.Pipe?
    requires forall i :: 0 <= i < |leaves| ==> steps[i].0 == Desugar(leaves[i], depth)
    ensures Eval(alg, FoldSteps(acc, steps), It(alg, scope))
         == SemFeed(alg, parent, Eval(alg, acc, It(alg, scope)), leaves, scope)
    decreases parent, 0, |steps|
  {
    if steps != [] {
      assert leaves[0] in leaves && forall m :: m in leaves[1..] ==> m in leaves;
      StepMeans(alg, parent, acc, leaves[0], StepSpan(steps[0]), depth, scope);
      FoldMeans(alg, parent, ApplyStep(acc, steps[0].0, StepSpan(steps[0])), leaves[1..], steps[1..], depth, scope);
    }
  }

  lemma {:induction false} PipeMeans<V(!new)>(alg: Algebra<V>, n: Node, depth: nat, scope: Scope<V>)
    requires Extensional(alg) && Matches(scope, depth) && n.expr.Pipe?
    ensures Eval(alg, Node(Recurse(n, depth), n.span), It(alg, scope)) == Parts(alg, n, scope)
    decreases n, 0, |Leaves(n)|
  {
    var leaves, stages := Leaves(n), DesugarStages(n, Collect(n), depth);
    StagesDesugared(n, depth);
    DesugarMeans(alg, leaves[0], depth, scope);
    FoldMeans(alg, n, stages[0].0, leaves[1..], stages[1..], depth, scope);
    SameExpr(alg, FoldSteps(stages[0].0, stages[1..]), n.span, It(alg, scope));
  }

  /** Each stage of the fold is a leaf of its own, desugared. */
  lemma StagesDesugared(n: Node, depth: nat)
    requires n.expr.Pipe?
    ensures var leaves, stages := Leaves(n), DesugarStages(n, Collect(n), depth);
      && |stages| == |leaves| && leaves[0] < n && stages[0].0 == Desugar(leaves[0], depth)
      && (forall m :: m in leaves[1..] ==> m < n && !m.expr.Pipe?)
      && forall i :: 0 <= i < |leaves[1..]| ==> stages[1..][i].0 == Desugar(leaves[1..][i], depth)
  {
    CollectInOrder(n);
    LeavesInside(n);
    var leaves, stages := Leaves(n), DesugarStages(n, Collect(n), depth);
    forall i | 0 <= i < |leaves| ensures stages[i].0 == Desugar(leaves[i], depth) {
      StageAt(n, Collect(n), depth, i);
    }
    assert leaves[0] in leaves && forall m :: m in leaves[1..] ==> m in leaves;
  }

  lemma SameExpr<V(!new)>(alg: Algebra<V>, n: Node, span: Span, it: V)
    ensures Eval(alg, Node(n.expr, span), it) == Eval(alg, n, it)
  {
  }

  // ---------- the lambda of a placeholder ----------

  /** A form that holds an unbound `$_` becomes a function: called with `v`, it means what the form means
      where `$_` is `v`. */
  lemma HoleIsParameter<V(!new)>(alg: Algebra<V>, n: Node, v: V)
    requires Extensional(alg) && Applies(alg) && Holds(n)
    ensures alg.call(Eval(alg, Desugar(n, 0), alg.unbound), [v], [], []) == Parts(alg, n, Some(v))
  {
    DesugarMeans(alg, n, 0, None);
    var f := (w: V) => Sem(alg, n, Some(w));
    assert Sem(alg, n, None) == alg.hole([Underscore], NoExtra, f);
    assert f(v) == Parts(alg, n, Some(v));
  }
}
