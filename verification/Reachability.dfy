/** The types one run of the checker can meet: components of the types it starts from, and
    unfoldings. */
module Reachability {
  import opened Types
  import opened Unfold
  import opened Rdnf
  import opened Emptiness

  /** `u` is a component of `t`, or its unfolding. */
  predicate StepTo(t: Ty, u: Ty) {
    match t
    case Union(members) => u in members
    case Inter(members) => u in members
    case Neg(of) => u == of
    case Fn(params, _, ret) => u == ret || u in params
    case Record(fields, tail) => (tail.Uniform? && u == tail.valueType) || exists f :: f in fields && f.ty == u
    case App(op, arg) => u == op || u == arg
    case Recursive(_) => u == UnfoldTy(t)
    case _ => false
  }

  /** Every step from `t` leads into `dom`. */
  ghost predicate StepsStayIn(t: Ty, dom: iset<Ty>) {
    match t
    case Union(members) => forall m :: m in members ==> m in dom
    case Inter(members) => forall m :: m in members ==> m in dom
    case Neg(of) => of in dom
    case Fn(params, _, ret) => ret in dom && forall p :: p in params ==> p in dom
    case Record(fields, tail) => (tail.Uniform? ==> tail.valueType in dom) && forall f :: f in fields ==> f.ty in dom
    case App(op, arg) => op in dom && arg in dom
    case Recursive(_) => UnfoldTy(t) in dom
    case _ => true
  }

  lemma StepsStayInIff(t: Ty, dom: iset<Ty>)
    ensures StepsStayIn(t, dom) <==> forall u :: StepTo(t, u) ==> u in dom
  {
    if forall u :: StepTo(t, u) ==> u in dom {
      match t
      case Union(members) => forall m | m in members ensures m in dom { assert StepTo(t, m); }
      case Inter(members) => forall m | m in members ensures m in dom { assert StepTo(t, m); }
      case Neg(of) => assert StepTo(t, of);
      case Fn(params, _, ret) =>
        assert StepTo(t, ret);
        forall p | p in params ensures p in dom { assert StepTo(t, p); }
      case Record(fields, tail) =>
        if tail.Uniform? { assert StepTo(t, tail.valueType); }
        forall f | f in fields ensures f.ty in dom { assert StepTo(t, f.ty); }
      case App(op, arg) => assert StepTo(t, op) && StepTo(t, arg);
      case Recursive(_) => assert StepTo(t, UnfoldTy(t));
      case _ =>
    }
  }

  ghost predicate ClosedUnderSteps(dom: iset<Ty>) {
    forall t {:trigger StepsStayIn(t, dom)} :: t in dom ==> StepsStayIn(t, dom)
  }

  /** Different recursive types of `dom` have different hypothesis keys. */
  ghost predicate KeysApart(dom: iset<Ty>, ctx: Ctx) {
    forall a, b :: a in dom && b in dom && a.Recursive? && b.Recursive? && ctx.key(a) == ctx.key(b) ==> a == b
  }

  // ---------- the least such domain ----------

  /** `u` is met from `a` or `b` within `n` steps. */
  ghost predicate MetWithin(n: nat, u: Ty, a: Ty, b: Ty)
    decreases n
  {
    u == a || u == b || (n > 0 && exists t :: MetWithin(n - 1, t, a, b) && StepTo(t, u))
  }

  ghost predicate Met(u: Ty, a: Ty, b: Ty) {
    exists n: nat :: MetWithin(n, u, a, b)
  }

  ghost function Reachable(a: Ty, b: Ty): iset<Ty> {
    iset u | Met(u, a, b)
  }

  lemma MetStep(t: Ty, u: Ty, a: Ty, b: Ty)
    requires Met(t, a, b) && StepTo(t, u)
    ensures Met(u, a, b)
  {
    var n: nat :| MetWithin(n, t, a, b);
    assert MetWithin(n + 1, u, a, b);
  }

  lemma ReachableClosed(a: Ty, b: Ty)
    ensures Met(a, a, b) && Met(b, a, b)
    ensures ClosedUnderSteps(Reachable(a, b))
  {
    assert MetWithin(0, a, a, b) && MetWithin(0, b, a, b);
    forall t | t in Reachable(a, b) ensures StepsStayIn(t, Reachable(a, b)) {
      forall u | StepTo(t, u) ensures u in Reachable(a, b) {
        MetStep(t, u, a, b);
      }
      StepsStayInIff(t, Reachable(a, b));
    }
  }

  lemma {:induction false} MetInside(n: nat, u: Ty, a: Ty, b: Ty, dom: iset<Ty>)
    requires MetWithin(n, u, a, b) && a in dom && b in dom && ClosedUnderSteps(dom)
    ensures u in dom
    decreases n
  {
    if u != a && u != b {
      var t :| MetWithin(n - 1, t, a, b) && StepTo(t, u);
      MetInside(n - 1, t, a, b, dom);
      StepsStayInIff(t, dom);
    }
  }

  /** What is reachable lies in every domain that holds both types and is closed under steps. */
  lemma ReachableLeast(a: Ty, b: Ty, dom: iset<Ty>)
    requires a in dom && b in dom && ClosedUnderSteps(dom)
    ensures forall u :: u in Reachable(a, b) ==> u in dom
  {
    forall u | u in Reachable(a, b) ensures u in dom {
      assert Met(u, a, b);
      var n: nat :| MetWithin(n, u, a, b);
      MetInside(n, u, a, b, dom);
    }
  }

  lemma KeysApartWithin(small: iset<Ty>, dom: iset<Ty>, ctx: Ctx)
    requires KeysApart(dom, ctx) && forall u :: u in small ==> u in dom
    ensures KeysApart(small, ctx)
  {
  }

  // ---------- record fields and the atoms of a normal form are met ----------

  lemma LookupMet(t: Ty, key: Key, dom: iset<Ty>)
    requires t.Record? && StepsStayIn(t, dom) && Lookup(t.fields, key).Some?
    ensures Lookup(t.fields, key).value in dom
  {
    var j :| 0 <= j < |t.fields| && t.fields[j].key == key && t.fields[j].ty == Lookup(t.fields, key).value;
    assert t.fields[j] in t.fields;
  }

  lemma {:induction false} LeafMet(a: Ty, t: Ty, dom: iset<Ty>)
    requires Leaf(a, t) && t in dom && ClosedUnderSteps(dom)
    ensures a in dom
  {
    assert StepsStayIn(t, dom);
    match t
    case Union(members) =>
      var m :| m in members && Leaf(a, m);
      LeafMet(a, m, dom);
    case Inter(members) =>
      var m :| m in members && Leaf(a, m);
      LeafMet(a, m, dom);
    case Neg(of) => LeafMet(a, of, dom);
    case _ =>
  }

  ghost predicate AtomsIn(rdnf: Rdnf, dom: iset<Ty>) {
    forall c, s :: c in rdnf && s in c ==> s.atom in dom
  }

  lemma DifferenceAtomsMet(sub: Ty, sup: Ty, cap: nat, dom: iset<Ty>)
    requires ClosedUnderSteps(dom) && sub in dom && sup in dom
    ensures AtomsIn(ToRdnf(Inter([sub, Neg(sup)]), cap), dom)
  {
    var diff := Inter([sub, Neg(sup)]);
    forall c, s | c in ToRdnf(diff, cap) && s in c ensures s.atom in dom {
      RdnfLeaves(diff, cap, c, s);
      if Leaf(s.atom, sub) {
        LeafMet(s.atom, sub, dom);
      } else {
        assert Leaf(s.atom, Neg(sup));
        LeafMet(s.atom, sup, dom);
      }
    }
  }
}
