/** What the desugared tree looks like everywhere the pass goes, and when a second run is idle. */
module NormalForm {
  import opened Wrappers
  import opened Surface
  import opened Desugaring

  /** Properties of one expression, given whether a `_` binder encloses it. */
  datatype Law =
    | NoPipes
    | HolesBound           // a DIRECT argument, value or target is under a `_` binder
    | LambdasOutermost     // a synthesised lambda is not under a `_` binder
    | NoLambdas            // no synthesised lambda
    | StringsSettled       // no string literal left to rewrite
    | NoTripleQuotes       // no triple-quoted literal that the pass rewrites

  predicate Settled(e: Expr)
    requires e.Str?
  {
    e.prefix != "i" && !(IsTriple(e.delimiter) && e.prefix == "")
  }

  predicate Local(law: Law, e: Expr, bound: bool) {
    match law
    case NoPipes => !e.Pipe?
    case HolesBound => bound || !Wraps(e)
    case LambdasOutermost => !(bound && e.Fn? && e.desugared)
    case NoLambdas => !(e.Fn? && e.desugared)
    case StringsSettled => e.Str? ==> Settled(e)
    case NoTripleQuotes => e.Str? ==> !(IsTriple(e.delimiter) && (e.prefix == "" || e.prefix == "i"))
  }

  /** The law holds of every expression the pass visits, that is, outside quotes. */
  predicate Throughout(law: Law, n: Node, bound: bool)
    decreases n
  {
    assert n.expr < n;
    && Local(law, n.expr, bound)
    && match n.expr
       case Access(target, _) => Throughout(law, target, bound)
       case Pipe(lhs, rhs, _) => Throughout(law, lhs, bound) && Throughout(law, rhs, bound)
       case Dict(entries) => forall en :: en in entries ==> ThroughoutEntry(law, en, bound)
       case Call(func, args, _, named, _, _) =>
         && Throughout(law, func, bound)
         && (forall a :: a in args ==> Throughout(law, a, bound))
         && (forall a :: a in named ==> Throughout(law, a, bound))
       case Fn(params, body, _, _) => Throughout(law, body, bound || Underscore in params)
       case Group(_, children) => forall c :: c in children ==> Throughout(law, c, bound)
       case _ => true
  }

  predicate ThroughoutEntry(law: Law, e: Entry, bound: bool)
    decreases e
  {
    (e.Keyed? ==> Throughout(law, e.key, bound)) && Throughout(law, e.value, bound)
  }

  /** What the law on the output asks of the input. */
  predicate Ready(law: Law, n: Node) {
    match law
    case NoPipes => true
    case HolesBound => true
    case LambdasOutermost => Throughout(NoLambdas, n, true)
    case StringsSettled => Throughout(NoTripleQuotes, n, true)
    case _ => false
  }

  predicate ReadyEntry(law: Law, e: Entry) {
    (e.Keyed? ==> Ready(law, e.key)) && Ready(law, e.value)
  }

  // ---------- the children of a ready node are ready ----------

  lemma {:induction false} StagesInherit(law: Law, n: Node, bound: bool)
    requires Throughout(law, n, bound)
    ensures forall s :: s in Collect(n) ==> Throughout(law, s.0, bound)
    decreases n
  {
    match n.expr {
      case Pipe(lhs, rhs, bar) =>
        assert lhs < n.expr && rhs < n.expr && n.expr < n;
        StagesInherit(law, lhs, bound);
        StagesInherit(law, rhs, bound);
        RetagKeepsNodes(Collect(rhs), bar);
      case _ =>
        assert Collect(n) == [(n, None)];
    }
  }

  lemma RetagKeepsNodes(stages: seq<Stage>, bar: Option<Span>)
    ensures forall s :: s in Retag(stages, bar) ==> exists t :: t in stages && t.0 == s.0
  {
    var r := Retag(stages, bar);
    forall i | 0 <= i < |r| ensures exists t :: t in stages && t.0 == r[i].0 {
      assert r[i].0 == stages[i].0 && stages[i] in stages;
    }
  }

  lemma StagesReady(law: Law, n: Node)
    requires Ready(law, n)
    ensures forall s :: s in Collect(n) ==> Ready(law, s.0)
  {
    match law {
      case LambdasOutermost => StagesInherit(NoLambdas, n, true);
      case StringsSettled => StagesInherit(NoTripleQuotes, n, true);
      case _ =>
    }
  }

  lemma EntriesReady(law: Law, n: Node)
    requires Ready(law, n) && n.expr.Dict?
    ensures forall e :: e in n.expr.entries ==> ReadyEntry(law, e)
  {
    match law {
      case LambdasOutermost => assert forall e :: e in n.expr.entries ==> ThroughoutEntry(NoLambdas, e, true);
      case StringsSettled => assert forall e :: e in n.expr.entries ==> ThroughoutEntry(NoTripleQuotes, e, true);
      case _ =>
    }
  }

  // ---------- DIRECT is not created ----------

  lemma FoldIsCall(acc: Node, steps: seq<Stage>)
    requires steps != []
    ensures FoldSteps(acc, steps).expr.Call?
    decreases |steps|
  {
    var next := ApplyStep(acc, steps[0].0, StepSpan(steps[0]));
    if |steps| > 1 {
      FoldIsCall(next, steps[1..]);
    }
  }

  lemma CollectSeveral(n: Node)
    ensures n.expr.Pipe? ==> |Collect(n)| >= 2
  {
  }

  lemma PipeBecomesCall(n: Node, depth: nat)
    requires n.expr.Pipe?
    ensures Recurse(n, depth).Call?
  {
    CollectSeveral(n);
    var stages := DesugarStages(n, Collect(n), depth);
    FoldIsCall(stages[0].0, stages[1..]);
  }

  lemma {:induction false} DirectNotCreated(n: Node, depth: nat)
    requires !Direct(n.expr)
    ensures !Direct(Desugar(n, depth).expr)
    decreases n
  {
    if depth == 0 && Wraps(n.expr) {
      assert Desugar(n, depth).expr.Fn?;
    } else {
      assert Desugar(n, depth).expr == Recurse(n, depth);
      match n.expr {
        case Access(target, field) =>
          assert target < n.expr && n.expr < n;
          DirectNotCreated(target, depth);
          assert Recurse(n, depth) == Access(Desugar(target, depth), field);
        case Pipe(_, _, _) => PipeBecomesCall(n, depth);
        case _ =>
      }
    }
  }

  // ---------- the pass establishes the laws ----------

  predicate IsOutputLaw(law: Law) { !law.NoLambdas? && !law.NoTripleQuotes? }

  lemma StepKeeps(law: Law, acc: Node, stage: Node, span: Span, bound: bool)
    requires IsOutputLaw(law)
    requires Throughout(law, acc, bound) && Throughout(law, stage, bound)
    requires law.HolesBound? ==> bound || !Direct(acc.expr)
    ensures Throughout(law, ApplyStep(acc, stage, span), bound)
  {
    var call := ApplyStep(acc, stage, span);
    assert call.expr.Call?;
    match stage.expr {
      case Call(func, args, names, named, implied, _) =>
        assert Local(law, call.expr, bound);
      case VarRef(name, escaped, _) =>
        assert Throughout(law, call.expr.func, bound);
      case _ =>
        assert call.expr.func == stage && call.expr.args == [acc];
    }
  }

  lemma {:induction false} FoldKeeps(law: Law, acc: Node, steps: seq<Stage>, bound: bool)
    requires IsOutputLaw(law)
    requires Throughout(law, acc, bound)
    requires forall s :: s in steps ==> Throughout(law, s.0, bound)
    requires law.HolesBound? ==> bound || steps == [] || !Direct(acc.expr)
    ensures Throughout(law, FoldSteps(acc, steps), bound)
    decreases |steps|
  {
    if steps != [] {
      assert steps[0] in steps;
      var next := ApplyStep(acc, steps[0].0, StepSpan(steps[0]));
      StepKeeps(law, acc, steps[0].0, StepSpan(steps[0]), bound);
      assert next.expr.Call?;
      FoldKeeps(law, next, steps[1..], bound);
    }
  }

  lemma OnlyExprMatters(law: Law, n: Node, span: Span, bound: bool)
    ensures Throughout(law, Node(n.expr, span), bound) == Throughout(law, n, bound)
  {
  }

  lemma StringEstablishes(law: Law, n: Node, depth: nat)
    requires Ready(law, n) && n.expr.Str?
    ensures Throughout(law, Desugar(n, depth), depth > 0)
  {
    var e := n.expr;
    var plain := Node(Str("", e.delimiter, e.content), n.span);
    assert Desugar(n, depth).expr == DesugarString(e.prefix, e.delimiter, e.content, n.span);
    if law.StringsSettled? {
      assert Local(NoTripleQuotes, e, true);
    }
    if e.prefix == "i" {
      BuiltCallKeeps(law, "tmpl", plain, n.span, depth > 0);
      BuiltCallKeeps(law, "unindent", Node(BuiltCall("tmpl", plain, n.span), n.span), n.span, depth > 0);
    } else {
      BuiltCallKeeps(law, "unindent", plain, n.span, depth > 0);
    }
  }

  lemma BuiltCallKeeps(law: Law, name: string, arg: Node, span: Span, bound: bool)
    requires IsOutputLaw(law) && name != Underscore
    ensures Throughout(law, arg, bound) && !Direct(arg.expr) ==>
              Throughout(law, Node(BuiltCall(name, arg, span), span), bound)
  {
    var call := BuiltCall(name, arg, span);
    assert call.args == [arg] && call.named == [];
    assert Throughout(law, call.func, bound);
    assert Local(law, call, bound) || Direct(arg.expr);
  }

  lemma {:induction false} NoneDirect(ns: seq<Node>, depth: nat)
    requires forall a :: a in ns ==> !Direct(a.expr)
    ensures forall a :: a in DesugarAll(ns, depth) ==> !Direct(a.expr)
    decreases |ns|
  {
    if ns != [] {
      assert ns[0] in ns;
      DirectNotCreated(ns[0], depth);
      NoneDirect(ns[1..], depth);
    }
  }

  lemma {:induction false} NoEntryDirect(es: seq<Entry>, depth: nat)
    requires forall e :: e in es ==> !Direct(e.value.expr)
    ensures forall e :: e in DesugarEntries(es, depth) ==> !Direct(e.value.expr)
    decreases |es|
  {
    if es != [] {
      assert es[0] in es;
      DirectNotCreated(es[0].value, depth);
      NoEntryDirect(es[1..], depth);
    }
  }

  /** After the pass no pipe is left, every DIRECT argument, dict value and access target is bound,
      and no lambda was synthesised below a `_` binder; without triple-quoted literals every string
      is final. */
  lemma {:induction false} Establishes(law: Law, n: Node, depth: nat)
    requires Ready(law, n)
    ensures Throughout(law, Desugar(n, depth), depth > 0)
    decreases n, 2, if depth == 0 then 1 else 0
  {
    if depth == 0 && Wraps(n.expr) {
      Establishes(law, n, 1);
      assert [Underscore][0] == Underscore;
    } else {
      assert Desugar(n, depth) == Node(Recurse(n, depth), n.span);
      RecurseEstablishes(law, n, depth);
    }
  }

  lemma {:induction false} RecurseEstablishes(law: Law, n: Node, depth: nat)
    requires Ready(law, n)
    requires depth > 0 || !Wraps(n.expr)
    ensures Throughout(law, Node(Recurse(n, depth), n.span), depth > 0)
    decreases n, 1
  {
    assert n.expr < n;
    match n.expr {
      case Str(_, _, _) => StringEstablishes(law, n, depth);
      case Pipe(_, _, _) => PipeEstablishes(law, n, depth);
      case Access(target, field) =>
        Establishes(law, target, depth);
        if depth == 0 { DirectNotCreated(target, depth); }
      case Dict(entries) =>
        EntriesReady(law, n);
        EntriesEstablish(law, entries, depth);
        if depth == 0 { NoEntryDirect(entries, depth); }
        var r := Recurse(n, depth);
        assert r == Dict(DesugarEntries(entries, depth));
        assert Local(law, r, depth > 0);
      case Call(func, args, names, named, implied, bar) =>
        Establishes(law, func, depth);
        AllEstablish(law, args, depth);
        AllEstablish(law, named, depth);
        if depth == 0 {
          NoneDirect(args, depth);
          NoneDirect(named, depth);
        }
        var r := Recurse(n, depth);
        assert r.args == DesugarAll(args, depth) && r.named == DesugarAll(named, depth);
        assert Local(law, r, depth > 0);
      case Fn(params, body, desugared, annotations) =>
        Establishes(law, body, if Underscore in params then depth + 1 else depth);
      case Group(kind, children) =>
        AllEstablish(law, children, depth);
        var r := Recurse(n, depth);
        assert r.children == DesugarAll(children, depth) && Local(law, r, depth > 0);
      case Atom(_) =>
      case LeadingDot(_) =>
      case VarRef(_, _, _) =>
      case Quote(_) =>
    }
  }

  lemma {:induction false} PipeEstablishes(law: Law, n: Node, depth: nat)
    requires Ready(law, n) && n.expr.Pipe?
    requires depth > 0 || !Wraps(n.expr)
    ensures Throughout(law, Node(Recurse(n, depth), n.span), depth > 0)
    decreases n, 0
  {
    StagesReady(law, n);
    var stages := DesugarStages(n, Collect(n), depth);
    StagesEstablish(law, n, Collect(n), depth);
    if depth == 0 {
      FirstStage(n);
      DirectNotCreated(Collect(n)[0].0, depth);
    }
    FoldKeeps(law, stages[0].0, stages[1..], depth > 0);
    OnlyExprMatters(law, FoldSteps(stages[0].0, stages[1..]), n.span, depth > 0);
  }

  lemma {:induction false} FirstStage(n: Node)
    ensures Direct(Collect(n)[0].0.expr) == Direct(n.expr)
    decreases n
  {
    if n.expr.Pipe? {
      assert n.expr.lhs < n.expr && n.expr < n;
      FirstStage(n.expr.lhs);
    }
  }

  lemma {:induction false} StagesEstablish(law: Law, parent: Node, stages: seq<Stage>, depth: nat)
    requires forall s :: s in stages ==> s.0 < parent && Ready(law, s.0)
    ensures forall s :: s in DesugarStages(parent, stages, depth) ==> Throughout(law, s.0, depth > 0)
    ensures stages != [] ==> DesugarStages(parent, stages, depth)[0].0 == Desugar(stages[0].0, depth)
    decreases parent, 0, |stages|
  {
    if stages != [] {
      assert stages[0] in stages;
      Establishes(law, stages[0].0, depth);
      StagesEstablish(law, parent, stages[1..], depth);
    }
  }

  lemma {:induction false} AllEstablish(law: Law, ns: seq<Node>, depth: nat)
    requires forall a :: a in ns ==> Ready(law, a)
    ensures forall a :: a in DesugarAll(ns, depth) ==> Throughout(law, a, depth > 0)
    decreases ns, 0
  {
    if ns != [] {
      assert ns[0] in ns;
      Establishes(law, ns[0], depth);
      assert forall a :: a in ns[1..] ==> a in ns;
      AllEstablish(law, ns[1..], depth);
    }
  }

  lemma {:induction false} EntryEstablishes(law: Law, e: Entry, depth: nat)
    requires ReadyEntry(law, e)
    ensures ThroughoutEntry(law, DesugarEntry(e, depth), depth > 0)
    decreases e, 0
  {
    match e {
      case Keyed(key, value) =>
        Establishes(law, key, depth);
        Establishes(law, value, depth);
      case Positional(value) =>
        Establishes(law, value, depth);
    }
  }

  lemma {:induction false} EntriesEstablish(law: Law, es: seq<Entry>, depth: nat)
    requires forall e :: e in es ==> ReadyEntry(law, e)
    ensures forall e :: e in DesugarEntries(es, depth) ==> ThroughoutEntry(law, e, depth > 0)
    decreases es, 0
  {
    if es != [] {
      assert es[0] in es;
      EntryEstablishes(law, es[0], depth);
      assert forall e :: e in es[1..] ==> e in es;
      EntriesEstablish(law, es[1..], depth);
    }
  }

  // ---------- what is kept besides the law ----------

  /** A node keeps its span, and one that is closed into a lambda becomes one that is marked as such, on
      the same span, around the rest of the pass. */
  lemma SpanKept(n: Node, depth: nat)
    ensures Desugar(n, depth).span == n.span
    ensures depth == 0 && Wraps(n.expr) ==>
      var e := Desugar(n, depth).expr;
      e.Fn? && e.params == [Underscore] && e.desugared && e.body.span == n.span && !(e.body.expr.Fn? && e.body.expr.desugared)
  {
    if depth == 0 && Wraps(n.expr) {
      assert Desugar(n, 1) == Node(Recurse(n, 1), n.span);
      if n.expr.Pipe? { PipeBecomesCall(n, 1); }
    }
  }
}
