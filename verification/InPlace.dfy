/** The pass as it runs: a slot whose node is rewritten in place, and a growing vector of stages
    whose first new entry is retagged after the fact. */
module InPlace {
  import opened Wrappers
  import opened Surface
  import opened Desugaring

  lemma CollectPipe(n: Node)
    requires n.expr.Pipe?
    ensures n.expr.lhs < n && n.expr.rhs < n
    ensures Collect(n.expr.rhs) != []
    ensures Collect(n) == Collect(n.expr.lhs) + Retag(Collect(n.expr.rhs), n.expr.bar)
  {
  }

  lemma RecurseFolds(n: Node, depth: nat)
    requires n.expr.Pipe?
    ensures var stages := DesugarStages(n, Collect(n), depth);
            Recurse(n, depth) == FoldSteps(stages[0].0, stages[1..]).expr
  {
  }

  lemma RetagInPlace(before: seq<Stage>, left: seq<Stage>, added: seq<Stage>, bar: Option<Span>)
    requires added != []
    ensures var v := before + left + added;
            v[|before + left| := (v[|before + left|].0, bar)] == before + (left + Retag(added, bar))
  {
  }

  /** The stages collected so far. */
  class StageVec {
    var items: seq<Stage>

    constructor ()
      ensures items == []
    {
      items := [];
    }

    method Push(node: Node, bar: Option<Span>)
      modifies this
      ensures items == old(items) + [(node, bar)]
    {
      items := items + [(node, bar)];
    }

    method CollectPipeStages(node: Node)
      modifies this
      ensures items == old(items) + Collect(node)
      decreases node
    {
      match node.expr {
        case Pipe(lhs, rhs, bar) =>
          CollectPipe(node);
          RetagInPlace(items, Collect(lhs), Collect(rhs), bar);
          CollectPipeStages(lhs);
          var prevLen := |items|;
          CollectPipeStages(rhs);
          if prevLen < |items| {
            items := items[prevLen := (items[prevLen].0, bar)];
          }
        case _ =>
          Push(node, None);
      }
    }
  }

  class Slot {
    var node: Node

    constructor (n: Node)
      ensures node == n
    {
      node := n;
    }

    method WrapInLambda()
      modifies this
      ensures node == Node(Lambda(old(node)), old(node).span)
    {
      var span := node.span;
      var body := node;
      node := Node(Fn([Underscore], body, true, NoExtra), span);
    }

    method TryWrap() returns (wrapped: bool)
      modifies this
      ensures wrapped == Wraps(old(node).expr)
      ensures node == if wrapped then Node(Lambda(old(node)), old(node).span) else old(node)
    {
      wrapped := false;
      match node.expr {
        case Call(_, args, _, named, _, _) =>
          var positional := AnyDirect(args);
          var byName := AnyDirect(named);
          wrapped := positional || byName;
        case Dict(entries) => wrapped := AnyValueDirect(entries);
        case Access(target, _) => wrapped := Direct(target.expr);
        case Pipe(lhs, _, _) => wrapped := Direct(lhs.expr);
        case _ =>
      }
      if wrapped { WrapInLambda(); }
    }

    method DesugarSurface(depth: nat)
      modifies this
      ensures node == Desugar(old(node), depth)
      decreases node, 2, if depth == 0 then 1 else 0
    {
      if depth == 0 {
        var wrapped := TryWrap();
        if wrapped {
          var body := new Slot(node.expr.body);
          body.DesugarSurface(1);
          node := Node(node.expr.(body := body.node), node.span);
          return;
        }
      }
      RecurseChildren(depth);
    }

    method RecurseChildren(depth: nat)
      modifies this
      ensures node == Node(Recurse(old(node), depth), old(node).span)
      decreases node, 1
    {
      assert node.expr < node;
      match node.expr {
        case Str(prefix, delimiter, content) =>
          node := node.(expr := DesugarString(prefix, delimiter, content, node.span));
        case Access(target, field) =>
          var t := Desugared(target, depth);
          node := node.(expr := Access(t, field));
        case Pipe(_, _, _) =>
          DesugarPipeChain(depth);
        case Dict(entries) =>
          var es := DesugaredEntries(entries, depth);
          node := node.(expr := Dict(es));
        case Call(func, args, names, named, implied, bar) =>
          var f := Desugared(func, depth);
          var positional := DesugaredAll(args, depth);
          var byName := DesugaredAll(named, depth);
          node := node.(expr := Call(f, positional, names, byName, implied, bar));
        case Fn(params, body, desugared, annotations) =>
          var b := Desugared(body, if Underscore in params then depth + 1 else depth);
          node := node.(expr := Fn(params, b, desugared, annotations));
        case Group(kind, children) =>
          var cs := DesugaredAll(children, depth);
          node := node.(expr := Group(kind, cs));
        case Atom(_) =>
        case LeadingDot(_) =>
        case VarRef(_, _, _) =>
        case Quote(_) =>
      }
    }

    method DesugarPipeChain(depth: nat)
      requires node.expr.Pipe?
      modifies this
      ensures node == Node(Recurse(old(node), depth), old(node).span)
      decreases node, 0, |Collect(node)| + 1
    {
      var stages := new StageVec();
      stages.CollectPipeStages(node);
      assert stages.items == Collect(node);
      var desugared := DesugaredStages(node, stages.items, depth);
      var acc := desugared[0].0;
      var i := 1;
      while i < |desugared|
        invariant 1 <= i <= |desugared|
        invariant FoldSteps(acc, desugared[i..]) == FoldSteps(desugared[0].0, desugared[1..])
      {
        assert desugared[i..][1..] == desugared[i + 1..];
        acc := ApplyStep(acc, desugared[i].0, StepSpan(desugared[i]));
        i := i + 1;
      }
      assert desugared[i..] == [];
      RecurseFolds(node, depth);
      node := node.(expr := acc.expr);
    }
  }

  method AnyDirect(ns: seq<Node>) returns (found: bool)
    ensures found <==> exists a :: a in ns && Direct(a.expr)
  {
    found := false;
    for i := 0 to |ns|
      invariant found <==> exists k :: 0 <= k < i && Direct(ns[k].expr)
    {
      if Direct(ns[i].expr) { found := true; }
    }
    assert (exists a :: a in ns && Direct(a.expr)) ==> exists k :: 0 <= k < |ns| && Direct(ns[k].expr);
  }

  method AnyValueDirect(es: seq<Entry>) returns (found: bool)
    ensures found <==> exists e :: e in es && Direct(e.value.expr)
  {
    found := false;
    for i := 0 to |es|
      invariant found <==> exists k :: 0 <= k < i && Direct(es[k].value.expr)
    {
      if Direct(es[i].value.expr) { found := true; }
    }
    assert (exists e :: e in es && Direct(e.value.expr)) ==> exists k :: 0 <= k < |es| && Direct(es[k].value.expr);
  }

  method Desugared(n: Node, depth: nat) returns (r: Node)
    ensures r == Desugar(n, depth)
    decreases n, 2, 2
  {
    var slot := new Slot(n);
    slot.DesugarSurface(depth);
    r := slot.node;
  }

  method DesugaredAll(ns: seq<Node>, depth: nat) returns (r: seq<Node>)
    ensures r == DesugarAll(ns, depth)
    decreases ns, 0
  {
    r := [];
    for i := 0 to |ns|
      invariant r + DesugarAll(ns[i..], depth) == DesugarAll(ns, depth)
    {
      var n := Desugared(ns[i], depth);
      assert ns[i..][1..] == ns[i + 1..];
      r := r + [n];
    }
  }

  method DesugaredEntries(es: seq<Entry>, depth: nat) returns (r: seq<Entry>)
    ensures r == DesugarEntries(es, depth)
    decreases es, 0
  {
    r := [];
    for i := 0 to |es|
      invariant r + DesugarEntries(es[i..], depth) == DesugarEntries(es, depth)
    {
      var e := DesugaredEntry(es[i], depth);
      assert es[i..][1..] == es[i + 1..];
      r := r + [e];
    }
  }

  method DesugaredEntry(e: Entry, depth: nat) returns (r: Entry)
    ensures r == DesugarEntry(e, depth)
    decreases e, 0
  {
    match e {
      case Keyed(key, value) =>
        var k := Desugared(key, depth);
        var v := Desugared(value, depth);
        r := Keyed(k, v);
      case Positional(value) =>
        var v := Desugared(value, depth);
        r := Positional(v);
    }
  }

  method DesugaredStages(parent: Node, stages: seq<Stage>, depth: nat) returns (r: seq<Stage>)
    requires forall s :: s in stages ==> s.0 < parent
    ensures r == DesugarStages(parent, stages, depth)
    decreases parent, 0, 0
  {
    r := [];
    for i := 0 to |stages|
      invariant r + DesugarStages(parent, stages[i..], depth) == DesugarStages(parent, stages, depth)
    {
      assert stages[i] in stages;
      var n := Desugared(stages[i].0, depth);
      assert stages[i..][1..] == stages[i + 1..];
      r := r + [(n, stages[i].1)];
    }
  }
}
