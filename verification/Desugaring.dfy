/** `$_` placeholders become lambdas and pipes become calls. */
module Desugaring {
  import opened Wrappers
  import opened Surface

  // ---------- the wrapping rules ----------

  /** `$_` or an access chain or pipe rooted at it. */
  predicate Direct(e: Expr)
    decreases e
  {
    match e
    case VarRef(name, _, _) => name == Underscore
    case Access(target, _) => Direct(target.expr)
    case Pipe(lhs, _, _) => Direct(lhs.expr)
    case _ => false
  }

  predicate Wraps(e: Expr) {
    match e
    case Call(_, args, _, named, _, _) =>
      (exists a :: a in args && Direct(a.expr)) || (exists a :: a in named && Direct(a.expr))
    case Dict(entries) => exists en :: en in entries && Direct(en.value.expr)
    case Access(target, _) => Direct(target.expr)
    case Pipe(lhs, _, _) => Direct(lhs.expr)
    case _ => false
  }

  function Lambda(body: Node): Expr {
    Fn([Underscore], body, true, NoExtra)
  }

  // ---------- string literals ----------

  predicate IsTriple(delimiter: string) { |delimiter| >= 3 }

  function BuiltCall(name: string, arg: Node, span: Span): Expr {
    Call(Node(VarRef(name, false, NoExtra), span), [arg], [], [], true, None)
  }

  /** Interpolated strings call `tmpl`, triple-quoted ones `unindent`.  The template text of an
      interpolated string is its content: the scan in the source copies every character. */
  function DesugarString(prefix: string, delimiter: string, content: string, span: Span): Expr {
    var plain := Node(Str("", delimiter, content), span);
    if prefix == "i" then
      var tmpl := BuiltCall("tmpl", plain, span);
      if IsTriple(delimiter) then BuiltCall("unindent", Node(tmpl, span), span) else tmpl
    else if IsTriple(delimiter) && prefix == "" then BuiltCall("unindent", plain, span)
    else Str(prefix, delimiter, content)
  }

  // ---------- pipes ----------

  type Stage = (Node, Option<Span>)

  /** The first stage, if any, takes `bar`. */
  function Retag(stages: seq<Stage>, bar: Option<Span>): (r: seq<Stage>)
    ensures |r| == |stages|
  {
    if stages == [] then [] else [(stages[0].0, bar)] + stages[1..]
  }

  /** The stages of a pipe tree in order, each with the `|` in front of it. */
  function Collect(n: Node): (r: seq<Stage>)
    ensures r != [] && forall s :: s in r ==> !s.0.expr.Pipe? && (s.0 == n || s.0 < n)
    ensures n.expr.Pipe? ==> forall s :: s in r ==> s.0 < n
    decreases n
  {
    match n.expr
    case Pipe(lhs, rhs, bar) =>
      assert lhs < n.expr && rhs < n.expr && n.expr < n;
      Collect(lhs) + Retag(Collect(rhs), bar)
    case _ => [(n, None)]
  }

  /** One step of the fold: the accumulated value goes last in a call stage, and is the only
      argument of any other stage. */
  function ApplyStep(acc: Node, stage: Node, span: Span): Node {
    var e := match stage.expr
      case Call(func, args, names, named, implied, _) => Call(func, args + [acc], names, named, implied, Some(span))
      case VarRef(name, escaped, _) =>
        Call(Node(VarRef(name, escaped, NoExtra), stage.span), [acc], [], [], true, Some(span))
      case _ => Call(stage, [acc], [], [], true, Some(span));
    Node(e, span)
  }

  function StepSpan(s: Stage): Span {
    match s.1 case Some(span) => span case None => s.0.span
  }

  function FoldSteps(acc: Node, steps: seq<Stage>): Node
    decreases |steps|
  {
    if steps == [] then acc else FoldSteps(ApplyStep(acc, steps[0].0, StepSpan(steps[0])), steps[1..])
  }

  // ---------- the pass ----------

  /** `depth` counts the enclosing lambdas that bind `_`. */
  function Desugar(n: Node, depth: nat): Node
    decreases n, 2, if depth == 0 then 1 else 0
  {
    if depth == 0 && Wraps(n.expr) then Node(Lambda(Desugar(n, 1)), n.span)
    else Node(Recurse(n, depth), n.span)
  }

  function Recurse(n: Node, depth: nat): Expr
    decreases n, 1
  {
    assert n.expr < n;
    match n.expr
    case Atom(_) => n.expr
    case LeadingDot(_) => n.expr
    case VarRef(_, _, _) => n.expr
    case Quote(_) => n.expr
    case Str(prefix, delimiter, content) => DesugarString(prefix, delimiter, content, n.span)
    case Access(target, field) => Access(Desugar(target, depth), field)
    case Pipe(_, _, _) =>
      var stages := DesugarStages(n, Collect(n), depth);
      FoldSteps(stages[0].0, stages[1..]).expr
    case Dict(entries) => Dict(DesugarEntries(entries, depth))
    case Call(func, args, names, named, implied, bar) =>
      Call(Desugar(func, depth), DesugarAll(args, depth), names, DesugarAll(named, depth), implied, bar)
    case Fn(params, body, desugared, annotations) =>
      Fn(params, Desugar(body, if Underscore in params then depth + 1 else depth), desugared, annotations)
    case Group(kind, children) => Group(kind, DesugarAll(children, depth))
  }

  function DesugarStages(parent: Node, stages: seq<Stage>, depth: nat): (r: seq<Stage>)
    requires forall s :: s in stages ==> s.0 < parent
    ensures |r| == |stages|
    decreases parent, 0, |stages|
  {
    if stages == [] then []
    else
      assert stages[0] in stages;
      [(Desugar(stages[0].0, depth), stages[0].1)] + DesugarStages(parent, stages[1..], depth)
  }

  function DesugarAll(ns: seq<Node>, depth: nat): (r: seq<Node>)
    ensures |r| == |ns|
    decreases ns, 0
  {
    if ns == [] then [] else [Desugar(ns[0], depth)] + DesugarAll(ns[1..], depth)
  }

  function DesugarEntry(e: Entry, depth: nat): Entry
    decreases e, 0
  {
    match e
    case Keyed(key, value) => Keyed(Desugar(key, depth), Desugar(value, depth))
    case Positional(value) => Positional(Desugar(value, depth))
  }

  function DesugarEntries(es: seq<Entry>, depth: nat): (r: seq<Entry>)
    ensures |r| == |es|
    decreases es, 0
  {
    if es == [] then [] else [DesugarEntry(es[0], depth)] + DesugarEntries(es[1..], depth)
  }
}
