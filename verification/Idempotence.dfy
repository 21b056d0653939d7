/** A second desugaring changes nothing exactly when no visited literal is triple-quoted. */
module Idempotence {
  import opened Wrappers
  import opened Surface
  import opened Desugaring
  import opened NormalForm

  /** Pipe-free with every hole bound: what the pass produces. */
  predicate Normal(n: Node, depth: nat) {
    Throughout(NoPipes, n, depth > 0) && Throughout(HolesBound, n, depth > 0)
  }

  predicate NormalEntry(e: Entry, depth: nat) {
    ThroughoutEntry(NoPipes, e, depth > 0) && ThroughoutEntry(HolesBound, e, depth > 0)
  }

  predicate SettledAt(n: Node, depth: nat) { Throughout(StringsSettled, n, depth > 0) }

  // ---------- on normal trees only strings can change ----------

  lemma {:induction false} AllFixed(ns: seq<Node>, depth: nat)
    requires forall a :: a in ns ==> Normal(a, depth)
    ensures DesugarAll(ns, depth) == ns <==> forall a :: a in ns ==> SettledAt(a, depth)
    decreases ns, 0
  {
    if ns != [] {
      assert ns[0] in ns;
      FixedIffSettled(ns[0], depth);
      assert forall a :: a in ns[1..] ==> a in ns;
      AllFixed(ns[1..], depth);
      assert ns == [ns[0]] + ns[1..];
      assert DesugarAll(ns, depth)[1..] == DesugarAll(ns[1..], depth);
      assert forall a :: a in ns ==> a == ns[0] || a in ns[1..];
    }
  }

  lemma {:induction false} EntriesFixed(es: seq<Entry>, depth: nat)
    requires forall e :: e in es ==> NormalEntry(e, depth)
    ensures DesugarEntries(es, depth) == es <==> forall e :: e in es ==> ThroughoutEntry(StringsSettled, e, depth > 0)
    decreases es, 0
  {
    if es != [] {
      assert es[0] in es;
      EntryFixed(es[0], depth);
      assert forall e :: e in es[1..] ==> e in es;
      EntriesFixed(es[1..], depth);
      assert es == [es[0]] + es[1..];
      assert DesugarEntries(es, depth)[1..] == DesugarEntries(es[1..], depth);
      assert forall e :: e in es ==> e == es[0] || e in es[1..];
    }
  }

  lemma {:induction false} EntryFixed(e: Entry, depth: nat)
    requires NormalEntry(e, depth)
    ensures DesugarEntry(e, depth) == e <==> ThroughoutEntry(StringsSettled, e, depth > 0)
    decreases e, 0
  {
    match e {
      case Keyed(key, value) =>
        FixedIffSettled(key, depth);
        FixedIffSettled(value, depth);
      case Positional(value) =>
        FixedIffSettled(value, depth);
    }
  }

  lemma {:induction false} FixedIffSettled(n: Node, depth: nat)
    requires Normal(n, depth)
    ensures Desugar(n, depth) == n <==> SettledAt(n, depth)
    decreases n, 1
  {
    assert n.expr < n;
    assert Local(NoPipes, n.expr, depth > 0) && Local(HolesBound, n.expr, depth > 0);
    assert Desugar(n, depth) == Node(Recurse(n, depth), n.span);
    match n.expr {
      case Access(target, field) =>
        FixedIffSettled(target, depth);
        assert Recurse(n, depth) == Access(Desugar(target, depth), field);
      case Dict(entries) =>
        EntriesFixed(entries, depth);
        assert Recurse(n, depth) == Dict(DesugarEntries(entries, depth));
      case Call(func, args, names, named, implied, bar) =>
        FixedIffSettled(func, depth);
        AllFixed(args, depth);
        AllFixed(named, depth);
        assert Recurse(n, depth) ==
               Call(Desugar(func, depth), DesugarAll(args, depth), names, DesugarAll(named, depth), implied, bar);
      case Fn(params, body, desugared, annotations) =>
        FixedIffSettled(body, if Underscore in params then depth + 1 else depth);
      case Group(kind, children) =>
        AllFixed(children, depth);
        assert Recurse(n, depth) == Group(kind, DesugarAll(children, depth));
      case Str(prefix, delimiter, content) =>
        assert Recurse(n, depth) == DesugarString(prefix, delimiter, content, n.span);
      case Atom(_) =>
      case LeadingDot(_) =>
      case VarRef(_, _, _) =>
      case Quote(_) =>
    }
  }

  // ---------- a triple-quoted literal leaves an unsettled one ----------

  lemma {:induction false} FoldSettled(acc: Node, steps: seq<Stage>, bound: bool)
    requires Throughout(StringsSettled, FoldSteps(acc, steps), bound)
    ensures Throughout(StringsSettled, acc, bound)
    ensures forall s :: s in steps ==> Throughout(StringsSettled, s.0, bound)
    decreases |steps|
  {
    if steps != [] {
      var next := ApplyStep(acc, steps[0].0, StepSpan(steps[0]));
      FoldSettled(next, steps[1..], bound);
      StepSettled(acc, steps[0].0, StepSpan(steps[0]), bound);
    }
  }

  lemma StepSettled(acc: Node, stage: Node, span: Span, bound: bool)
    requires Throughout(StringsSettled, ApplyStep(acc, stage, span), bound)
    ensures Throughout(StringsSettled, acc, bound) && Throughout(StringsSettled, stage, bound)
  {
    var call := ApplyStep(acc, stage, span);
    assert call.expr.args[|call.expr.args| - 1] == acc;
    match stage.expr {
      case Call(func, args, names, named, implied, _) =>
        assert call.expr.args == args + [acc];
        assert forall a :: a in args ==> a in call.expr.args;
      case VarRef(_, _, _) =>
      case _ => assert call.expr.func == stage;
    }
  }

  lemma {:induction false} AllUnsettled(ns: seq<Node>, depth: nat)
    requires forall a :: a in DesugarAll(ns, depth) ==> SettledAt(a, depth)
    ensures forall a :: a in ns ==> Throughout(NoTripleQuotes, a, true)
    decreases ns, 0
  {
    if ns != [] {
      var r := DesugarAll(ns, depth);
      assert r[0] in r && r[1..] == DesugarAll(ns[1..], depth);
      TriplesStayUnsettled(ns[0], depth);
      assert forall a :: a in r[1..] ==> a in r;
      AllUnsettled(ns[1..], depth);
    }
  }

  lemma {:induction false} EntriesUnsettled(es: seq<Entry>, depth: nat)
    requires forall e :: e in DesugarEntries(es, depth) ==> ThroughoutEntry(StringsSettled, e, depth > 0)
    ensures forall e :: e in es ==> ThroughoutEntry(NoTripleQuotes, e, true)
    decreases es, 0
  {
    if es != [] {
      var r := DesugarEntries(es, depth);
      assert r[0] in r && r[1..] == DesugarEntries(es[1..], depth);
      EntryUnsettled(es[0], depth);
      assert forall e :: e in r[1..] ==> e in r;
      EntriesUnsettled(es[1..], depth);
    }
  }

  lemma {:induction false} EntryUnsettled(e: Entry, depth: nat)
    requires ThroughoutEntry(StringsSettled, DesugarEntry(e, depth), depth > 0)
    ensures ThroughoutEntry(NoTripleQuotes, e, true)
    decreases e, 0
  {
    match e {
      case Keyed(key, value) =>
        TriplesStayUnsettled(key, depth);
        TriplesStayUnsettled(value, depth);
      case Positional(value) =>
        TriplesStayUnsettled(value, depth);
    }
  }

  lemma {:induction false} StagesUnsettled(parent: Node, stages: seq<Stage>, depth: nat)
    requires forall s :: s in stages ==> s.0 < parent
    requires forall s :: s in DesugarStages(parent, stages, depth) ==> SettledAt(s.0, depth)
    ensures forall s :: s in stages ==> Throughout(NoTripleQuotes, s.0, true)
    decreases parent, 0, |stages|
  {
    if stages != [] {
      assert stages[0] in stages;
      var r := DesugarStages(parent, stages, depth);
      assert r[0] in r && r[1..] == DesugarStages(parent, stages[1..], depth);
      TriplesStayUnsettled(stages[0].0, depth);
      assert forall s :: s in r[1..] ==> s in r;
      StagesUnsettled(parent, stages[1..], depth);
    }
  }

  lemma {:induction false} LeavesDecide(n: Node)
    requires forall s :: s in Collect(n) ==> Throughout(NoTripleQuotes, s.0, true)
    ensures Throughout(NoTripleQuotes, n, true)
    decreases n
  {
    match n.expr {
      case Pipe(lhs, rhs, bar) =>
        assert lhs < n.expr && rhs < n.expr && n.expr < n;
        var left, right := Collect(lhs), Collect(rhs);
        assert forall s :: s in left ==> s in Collect(n);
        LeavesDecide(lhs);
        forall i | 0 <= i < |right| ensures Throughout(NoTripleQuotes, right[i].0, true) {
          assert Retag(right, bar)[i] in Retag(right, bar);
          assert Retag(right, bar)[i] in Collect(n);
        }
        LeavesDecide(rhs);
      case _ =>
        assert Collect(n) == [(n, None)];
        assert (n, None) in Collect(n);
    }
  }

  lemma {:induction false} TriplesStayUnsettled(n: Node, depth: nat)
    requires SettledAt(Desugar(n, depth), depth)
    ensures Throughout(NoTripleQuotes, n, true)
    decreases n, 2, if depth == 0 then 1 else 0
  {
    if depth == 0 && Wraps(n.expr) {
      TriplesStayUnsettled(n, 1);
    } else {
      RecurseUnsettled(n, depth);
    }
  }

  lemma {:induction false} RecurseUnsettled(n: Node, depth: nat)
    requires SettledAt(Node(Recurse(n, depth), n.span), depth)
    ensures Throughout(NoTripleQuotes, n, true)
    decreases n, 1
  {
    assert n.expr < n;
    var r := Recurse(n, depth);
    match n.expr {
      case Access(target, field) =>
        assert r == Access(Desugar(target, depth), field);
        TriplesStayUnsettled(target, depth);
      case Dict(entries) =>
        assert r == Dict(DesugarEntries(entries, depth));
        EntriesUnsettled(entries, depth);
      case Call(func, args, names, named, implied, bar) =>
        assert r.func == Desugar(func, depth);
        assert r.args == DesugarAll(args, depth) && r.named == DesugarAll(named, depth);
        TriplesStayUnsettled(func, depth);
        AllUnsettled(args, depth);
        AllUnsettled(named, depth);
      case Fn(params, body, desugared, annotations) =>
        TriplesStayUnsettled(body, if Underscore in params then depth + 1 else depth);
      case Group(kind, children) =>
        assert r == Group(kind, DesugarAll(children, depth));
        AllUnsettled(children, depth);
      case Pipe(_, _, _) =>
        PipeUnsettled(n, depth);
      case Str(prefix, delimiter, content) =>
        StringUnsettled(n, depth);
      case Atom(_) =>
      case LeadingDot(_) =>
      case VarRef(_, _, _) =>
      case Quote(_) =>
    }
  }

  lemma {:induction false} PipeUnsettled(n: Node, depth: nat)
    requires n.expr.Pipe?
    requires SettledAt(Node(Recurse(n, depth), n.span), depth)
    ensures Throughout(NoTripleQuotes, n, true)
    decreases n, 0
  {
    var stages := DesugarStages(n, Collect(n), depth);
    var folded := FoldSteps(stages[0].0, stages[1..]);
    OnlyExprMatters(StringsSettled, folded, n.span, depth > 0);
    FoldSettled(stages[0].0, stages[1..], depth > 0);
    assert forall s :: s in stages ==> s == stages[0] || s in stages[1..];
    StagesUnsettled(n, Collect(n), depth);
    LeavesDecide(n);
  }

  lemma BuiltCallUnsettled(name: string, arg: Node, span: Span, bound: bool)
    requires !Throughout(StringsSettled, arg, bound)
    ensures !Throughout(StringsSettled, Node(BuiltCall(name, arg, span), span), bound)
  {
    var call := BuiltCall(name, arg, span);
    assert call.args == [arg] && arg in call.args;
  }

  lemma StringUnsettled(n: Node, depth: nat)
    requires n.expr.Str?
    ensures SettledAt(Node(Recurse(n, depth), n.span), depth) ==> Throughout(NoTripleQuotes, n, true)
  {
    var e := n.expr;
    if IsTriple(e.delimiter) && (e.prefix == "" || e.prefix == "i") {
      var plain := Node(Str("", e.delimiter, e.content), n.span);
      assert !Local(StringsSettled, plain.expr, depth > 0);
      BuiltCallUnsettled("unindent", plain, n.span, depth > 0);
      BuiltCallUnsettled("tmpl", plain, n.span, depth > 0);
      BuiltCallUnsettled("unindent", Node(BuiltCall("tmpl", plain, n.span), n.span), n.span, depth > 0);
      assert Recurse(n, depth) == DesugarString(e.prefix, e.delimiter, e.content, n.span);
    }
  }

  /** Desugaring twice is desugaring once, exactly when no literal the pass visits is
      triple-quoted: `unindent` is wrapped around such a literal again on every run. */
  lemma SecondRunIdle(n: Node, depth: nat)
    ensures Desugar(Desugar(n, depth), depth) == Desugar(n, depth) <==> Throughout(NoTripleQuotes, n, true)
  {
    var once := Desugar(n, depth);
    Establishes(NoPipes, n, depth);
    Establishes(HolesBound, n, depth);
    FixedIffSettled(once, depth);
    if Throughout(NoTripleQuotes, n, true) {
      Establishes(StringsSettled, n, depth);
    }
    if SettledAt(once, depth) {
      TriplesStayUnsettled(n, depth);
    }
  }
}
