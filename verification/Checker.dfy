/** The checker as it runs: one mutable hypothesis set handed down by reference, loops over
    conjunctions, atoms, parameters and fields.  Each method is proved to compute the function
    of the same role in `Subtype`, and to leave the set that function says it leaves.  A ghost log
    holds every atom question asked, so that what a run can meet is a statement about the run. */
module Checker {
  import opened Wrappers
  import opened Types
  import opened Rdnf
  import opened Unfold
  import opened Subtype
  import opened Emptiness
  import opened Reachability
  import opened Expansion

  class Hypotheses {
    var keys: Sigma
    /** The pairs of atoms compared so far. */
    ghost var asked: iset<(Ty, Ty)>

    constructor (initial: Sigma)
      ensures keys == initial && asked == iset{}
    {
      keys := initial;
      asked := iset{};
    }

    ghost predicate AskedIn(dom: iset<Ty>)
      reads this
    {
      forall p, q :: (p, q) in asked ==> p in dom && q in dom
    }
  }

  /** `dom` is any domain closed under steps that holds both types: the log of the run stays in it. */
  method CheckSubtypeBas(sub: Ty, sup: Ty, ctx: Ctx, shared: bool, ghost dom: iset<Ty>)
    returns (ok: bool, ghost asked: iset<(Ty, Ty)>)
    requires shared ==> sub == sup
    requires ClosedUnderSteps(dom) && sub in dom && sup in dom
    ensures ok == IsSubtypeBas(sub, sup, ctx, shared)
    ensures forall p, q :: (p, q) in asked ==> p in dom && q in dom
  {
    var sigma := new Hypotheses({});
    if shared {
      return true, sigma.asked;
    }
    ok := CheckSubtype(sub, sup, ctx, 0, sigma, dom);
    asked := sigma.asked;
  }

  /** From closed types whose uniform tails are closed, every atom question of the run is between
      closed types, neither of which is a reference. */
  method CheckClosed(sub: Ty, sup: Ty, ctx: Ctx) returns (ok: bool, ghost asked: iset<(Ty, Ty)>)
    requires Tight(sub, 0) && Tight(sup, 0)
    ensures ok == IsSubtypeBas(sub, sup, ctx, false)
    ensures forall p, q :: (p, q) in asked ==>
      && Scoped(p, 0) && Scoped(q, 0) && !p.RecursiveRef? && !q.RecursiveRef?
  {
    TightSteps();
    ok, asked := CheckSubtypeBas(sub, sup, ctx, false, TightTypes());
    forall p, q | (p, q) in asked
      ensures Scoped(p, 0) && Scoped(q, 0) && !p.RecursiveRef? && !q.RecursiveRef?
    {
      TightScoped(p, 0);
      TightScoped(q, 0);
    }
  }

  method CheckSubtype(sub: Ty, sup: Ty, ctx: Ctx, depth: nat, sigma: Hypotheses, ghost dom: iset<Ty>)
    returns (ok: bool)
    requires ClosedUnderSteps(dom) && sub in dom && sup in dom && sigma.AskedIn(dom)
    modifies sigma`asked
    ensures ok == IsSubtype(sub, sup, ctx, depth, sigma.keys)
    ensures sigma.AskedIn(dom) && old(sigma.asked) <= sigma.asked
    decreases Fuel(ctx, depth), 5, 0
  {
    if sub.Error? || sup.Error? {
      return false;
    }
    if sup.Top? {
      return true;
    }
    if sub.Never? {
      return true;
    }
    if sub.Unknown? || sup.Unknown? {
      return false;
    }
    if sub.Var? || sup.Var? {
      return true;
    }
    var diff := Inter([sub, Neg(sup)]);
    var rdnf := ToRdnfLoop(diff, ctx.cap);
    DifferenceAtomsMet(sub, sup, ctx.cap, dom);
    ok := CheckRdnfEmpty(rdnf, ctx, depth, sigma, dom);
  }

  method CheckRdnfEmpty(rdnf: Rdnf, ctx: Ctx, depth: nat, sigma: Hypotheses, ghost dom: iset<Ty>)
    returns (ok: bool)
    requires ClosedUnderSteps(dom) && AtomsIn(rdnf, dom) && sigma.AskedIn(dom)
    modifies sigma`asked
    ensures ok == RdnfEmpty(rdnf, ctx, depth, sigma.keys)
    ensures sigma.AskedIn(dom) && old(sigma.asked) <= sigma.asked
    decreases Fuel(ctx, depth), 4, 0
  {
    for i := 0 to |rdnf|
      invariant RdnfEmpty(rdnf, ctx, depth, sigma.keys) == RdnfEmpty(rdnf[i..], ctx, depth, sigma.keys)
      invariant sigma.AskedIn(dom) && old(sigma.asked) <= sigma.asked
    {
      var conjSigma := new Hypotheses(sigma.keys);
      var empty := CheckConjunctionEmpty(rdnf[i], ctx, depth, conjSigma, dom);
      sigma.asked := sigma.asked + conjSigma.asked;
      assert rdnf[i..][1..] == rdnf[i + 1..];
      if !empty {
        return false;
      }
    }
    return true;
  }

  method CheckConjunctionEmpty(conj: Conjunction, ctx: Ctx, depth: nat, sigma: Hypotheses, ghost dom: iset<Ty>)
    returns (ok: bool)
    requires ClosedUnderSteps(dom) && (forall s :: s in conj ==> s.atom in dom) && sigma.AskedIn(dom)
    modifies sigma
    ensures Verdict(ok, sigma.keys) == ConjunctionEmpty(conj, ctx, depth, old(sigma.keys))
    ensures sigma.AskedIn(dom) && old(sigma.asked) <= sigma.asked
    decreases Fuel(ctx, depth), 3, 0
  {
    if conj == [] {
      return false;
    }
    var pos, neg := CollectSigned(conj);
    SignedMembers(conj);
    var disjoint := CheckSomeDisjoint(pos);
    if disjoint {
      return true;
    }
    for i := 0 to |pos|
      invariant SomeSubsumed(pos, neg, ctx, depth, old(sigma.keys))
             == SomeSubsumed(pos[i..], neg, ctx, depth, sigma.keys)
      invariant sigma.AskedIn(dom) && old(sigma.asked) <= sigma.asked
    {
      assert pos[i] in pos;
      var subsumed := CheckSubsumedBy(pos[i], neg, ctx, depth, sigma, dom);
      assert pos[i..][1..] == pos[i + 1..];
      if subsumed {
        return true;
      }
    }
    return false;
  }

  method CheckSubsumedBy(p: Ty, neg: seq<Ty>, ctx: Ctx, depth: nat, sigma: Hypotheses, ghost dom: iset<Ty>)
    returns (ok: bool)
    requires ClosedUnderSteps(dom) && p in dom && (forall n :: n in neg ==> n in dom) && sigma.AskedIn(dom)
    modifies sigma
    ensures Verdict(ok, sigma.keys) == SubsumedBy(p, neg, ctx, depth, old(sigma.keys))
    ensures sigma.AskedIn(dom) && old(sigma.asked) <= sigma.asked
    decreases Fuel(ctx, depth), 2, 0
  {
    for j := 0 to |neg|
      invariant SubsumedBy(p, neg, ctx, depth, old(sigma.keys)) == SubsumedBy(p, neg[j..], ctx, depth, sigma.keys)
      invariant sigma.AskedIn(dom) && old(sigma.asked) <= sigma.asked
    {
      assert neg[j] in neg;
      var sub := CheckAtomSubtype(p, neg[j], ctx, depth, sigma, dom);
      assert neg[j..][1..] == neg[j + 1..];
      if sub {
        return true;
      }
    }
    return false;
  }

  method CheckSomeDisjoint(atoms: seq<Ty>) returns (ok: bool)
    ensures ok == SomeDisjoint(atoms)
  {
    for i := 0 to |atoms|
      invariant forall m, n :: 0 <= m < i && m < n < |atoms| ==> !AtomsDisjoint(atoms[m], atoms[n])
    {
      for j := i + 1 to |atoms|
        invariant forall n :: i < n < j ==> !AtomsDisjoint(atoms[i], atoms[n])
      {
        if AtomsDisjoint(atoms[i], atoms[j]) {
          return true;
        }
      }
    }
    return false;
  }

  lemma SignedStep(conj: Conjunction, i: nat)
    requires i < |conj|
    ensures Positives(conj[i..]) == (if conj[i].Pos? then [conj[i].atom] else []) + Positives(conj[i + 1..])
    ensures Negatives(conj[i..]) == (if conj[i].Pos? then [] else [conj[i].atom]) + Negatives(conj[i + 1..])
  {
    assert conj[i..][1..] == conj[i + 1..];
  }

  method CollectSigned(conj: Conjunction) returns (pos: seq<Ty>, neg: seq<Ty>)
    ensures pos == Positives(conj) && neg == Negatives(conj)
  {
    pos, neg := [], [];
    for i := 0 to |conj|
      invariant pos + Positives(conj[i..]) == Positives(conj)
      invariant neg + Negatives(conj[i..]) == Negatives(conj)
    {
      SignedStep(conj, i);
      match conj[i]
      case Pos(a) => pos := pos + [a];
      case NegAtom(a) => neg := neg + [a];
    }
  }

  method CheckAtomSubtype(sub: Ty, sup: Ty, ctx: Ctx, depth: nat, sigma: Hypotheses, ghost dom: iset<Ty>)
    returns (ok: bool)
    requires ClosedUnderSteps(dom) && sub in dom && sup in dom && sigma.AskedIn(dom)
    modifies sigma
    ensures Verdict(ok, sigma.keys) == AtomSubtype(sub, sup, ctx, depth, old(sigma.keys))
    ensures sigma.AskedIn(dom) && old(sigma.asked) + iset{(sub, sup)} <= sigma.asked
    decreases Fuel(ctx, depth), 1, 0
  {
    sigma.asked := sigma.asked + iset{(sub, sup)};
    if depth >= ctx.limit {
      return false;
    }
    if SameCtor(sub, sup) && !sub.Fn? && !sub.Record? && !sub.App? && !sub.Recursive? {
      ok := CheckStructurallyEqual(sub, sup, ctx, depth, sigma, dom);
    } else if sub.Var? || sup.Var? {
      ok := true;
    } else if sub.IntLit? && sup.Nominal? {
      ok := sup.id == TYPE_ID_INT;
    } else if sub.StrLit? && sup.Nominal? {
      ok := sup.id == TYPE_ID_STRING;
    } else if sub.FloatLit? && sup.Nominal? {
      ok := sup.id == TYPE_ID_FLOAT;
    } else {
      ok := CheckStructure(sub, sup, ctx, depth, sigma, dom);
    }
  }

  /** The arms that look inside the two atoms. */
  predicate IsStructural(sub: Ty, sup: Ty) {
    && (SameCtor(sub, sup) ==> sub.Fn? || sub.Record? || sub.App? || sub.Recursive?)
    && !sub.Var? && !sup.Var?
    && !(sup.Nominal? && (sub.IntLit? || sub.StrLit? || sub.FloatLit?))
  }

  method CheckStructure(sub: Ty, sup: Ty, ctx: Ctx, depth: nat, sigma: Hypotheses, ghost dom: iset<Ty>)
    returns (ok: bool)
    requires depth < ctx.limit && IsStructural(sub, sup)
    requires ClosedUnderSteps(dom) && sub in dom && sup in dom && sigma.AskedIn(dom)
    modifies sigma
    ensures Verdict(ok, sigma.keys) == AtomSubtype(sub, sup, ctx, depth, old(sigma.keys))
    ensures sigma.AskedIn(dom) && old(sigma.asked) <= sigma.asked
    decreases Fuel(ctx, depth), 0, 3
  {
    if sub.Fn? && sup.Fn? {
      ok := CheckFnSubtype(sub, sup, ctx, depth, sigma, dom);
    } else if sub.Record? && sup.Record? {
      ok := CheckRecordSubtype(sub, sup, ctx, depth, sigma, dom);
    } else if sub.App? && sup.App? {
      ok := CheckAppSubtype(sub, sup, ctx, depth, sigma, dom);
    } else if sub.Recursive? || sup.Recursive? {
      ok := CheckUnfolded(sub, sup, ctx, depth, sigma, dom);
    } else if sub.Nominal? && sup.App? && sup.op.Nominal? {
      assert StepsStayIn(sup, dom);
      ok := CheckAtomSubtype(sub, sup.op, ctx, depth + 1, sigma, dom);
    } else {
      ok := false;
    }
  }

  method CheckUnfolded(sub: Ty, sup: Ty, ctx: Ctx, depth: nat, sigma: Hypotheses, ghost dom: iset<Ty>)
    returns (ok: bool)
    requires depth < ctx.limit && IsStructural(sub, sup) && (sub.Recursive? || sup.Recursive?)
    requires ClosedUnderSteps(dom) && sub in dom && sup in dom && sigma.AskedIn(dom)
    modifies sigma
    ensures Verdict(ok, sigma.keys) == AtomSubtype(sub, sup, ctx, depth, old(sigma.keys))
    ensures sigma.AskedIn(dom) && old(sigma.asked) <= sigma.asked
    decreases Fuel(ctx, depth), 0, 2
  {
    assert StepsStayIn(sub, dom) && StepsStayIn(sup, dom);
    if sub.Recursive? && sup.Recursive? {
      ok := CheckRecursiveSubtype(sub, sup, ctx, depth, sigma, dom);
    } else if sub.Recursive? {
      ok := CheckSubtype(UnfoldTy(sub), sup, ctx, depth + 1, sigma, dom);
    } else {
      ok := CheckSubtype(sub, UnfoldTy(sup), ctx, depth + 1, sigma, dom);
    }
  }

  method CheckStructurallyEqual(sub: Ty, sup: Ty, ctx: Ctx, depth: nat, sigma: Hypotheses, ghost dom: iset<Ty>)
    returns (ok: bool)
    requires depth < ctx.limit && SameCtor(sub, sup)
    requires ClosedUnderSteps(dom) && sub in dom && sup in dom && sigma.AskedIn(dom)
    modifies sigma
    ensures Verdict(ok, sigma.keys) == StructurallyEqual(sub, sup, ctx, depth, old(sigma.keys))
    ensures sigma.AskedIn(dom) && old(sigma.asked) <= sigma.asked
    decreases Fuel(ctx, depth), 0, 0
  {
    match sub
    case Top | Never | Unknown | Error => ok := true;
    case Nominal(id) => ok := id == sup.id;
    case Var(name) => ok := sub == sup;
    case IntLit(n) => ok := n == sup.n;
    case FloatLit(bits) => ok := bits == sup.bits;
    case StrLit(s) => ok := s == sup.s;
    case _ =>
      ok := CheckAtomSubtype(sub, sup, ctx, depth + 1, sigma, dom);
      if ok {
        ok := CheckAtomSubtype(sup, sub, ctx, depth + 1, sigma, dom);
      }
  }

  method CheckFnSubtype(sub: Ty, sup: Ty, ctx: Ctx, depth: nat, sigma: Hypotheses, ghost dom: iset<Ty>)
    returns (ok: bool)
    requires depth < ctx.limit && sub.Fn? && sup.Fn?
    requires ClosedUnderSteps(dom) && sub in dom && sup in dom && sigma.AskedIn(dom)
    modifies sigma`asked
    ensures ok == FnSubtype(sub, sup, ctx, depth, sigma.keys)
    ensures sigma.AskedIn(dom) && old(sigma.asked) <= sigma.asked
    decreases Fuel(ctx, depth), 0, 0
  {
    assert StepsStayIn(sub, dom) && StepsStayIn(sup, dom);
    var retOk := CheckSubtype(sub.ret, sup.ret, ctx, depth + 1, sigma, dom);
    if !retOk {
      return false;
    }
    var subRequired, supRequired := |sub.params|, |sup.params|;
    if subRequired > supRequired {
      return false;
    }
    if !sub.variadic && subRequired < supRequired {
      return false;
    }
    for i := 0 to subRequired
      invariant ParamsSubtype(sub.params, sup.params, ctx, depth, sigma.keys)
             == ParamsSubtype(sub.params[i..], sup.params[i..], ctx, depth, sigma.keys)
      invariant sigma.AskedIn(dom) && old(sigma.asked) <= sigma.asked
    {
      assert sub.params[i] in sub.params && sup.params[i] in sup.params;
      var paramOk := CheckSubtype(sup.params[i], sub.params[i], ctx, depth + 1, sigma, dom);
      assert sub.params[i..][1..] == sub.params[i + 1..];
      assert sup.params[i..][1..] == sup.params[i + 1..];
      if !paramOk {
        return false;
      }
    }
    return true;
  }

  method CheckRecordSubtype(sub: Ty, sup: Ty, ctx: Ctx, depth: nat, sigma: Hypotheses, ghost dom: iset<Ty>)
    returns (ok: bool)
    requires depth < ctx.limit && sub.Record? && sup.Record?
    requires ClosedUnderSteps(dom) && sub in dom && sup in dom && sigma.AskedIn(dom)
    modifies sigma`asked
    ensures ok == RecordSubtype(sub, sup, ctx, depth, sigma.keys)
    ensures sigma.AskedIn(dom) && old(sigma.asked) <= sigma.asked
    decreases Fuel(ctx, depth), 0, 1
  {
    assert StepsStayIn(sub, dom) && StepsStayIn(sup, dom);
    for i := 0 to |sup.fields|
      invariant FieldsSubtype(sub.fields, sup.fields, ctx, depth, sigma.keys)
             == FieldsSubtype(sub.fields, sup.fields[i..], ctx, depth, sigma.keys)
      invariant sigma.AskedIn(dom) && old(sigma.asked) <= sigma.asked
    {
      assert sup.fields[i..][1..] == sup.fields[i + 1..];
      var entry := Lookup(sub.fields, sup.fields[i].key);
      if entry == None {
        return false;
      }
      LookupMet(sub, sup.fields[i].key, dom);
      assert sup.fields[i] in sup.fields;
      var fieldOk := CheckSubtype(entry.value, sup.fields[i].ty, ctx, depth + 1, sigma, dom);
      if !fieldOk {
        return false;
      }
    }
    ok := CheckTail(sub, sup, ctx, depth, sigma, dom);
  }

  method CheckTail(sub: Ty, sup: Ty, ctx: Ctx, depth: nat, sigma: Hypotheses, ghost dom: iset<Ty>)
    returns (ok: bool)
    requires depth < ctx.limit && sub.Record? && sup.Record?
    requires ClosedUnderSteps(dom) && sub in dom && sup in dom && sigma.AskedIn(dom)
    modifies sigma`asked
    ensures ok == TailSubtype(sub, sup, ctx, depth, sigma.keys)
    ensures sigma.AskedIn(dom) && old(sigma.asked) <= sigma.asked
    decreases Fuel(ctx, depth), 0, 0, 1
  {
    assert StepsStayIn(sub, dom) && StepsStayIn(sup, dom);
    match sup.tail
    case Absent => return true;
    case RowVar(_) => return true;
    case Uniform(valueType) =>
      if sub.tail.Uniform? {
        ok := CheckSubtype(sub.tail.valueType, valueType, ctx, depth + 1, sigma, dom);
      } else if IsClosedTail(sub.tail) {
        ok := CheckFieldsUniform(sub.fields, StringKeys(sup.fields), valueType, ctx, depth, sigma, dom);
      } else {
        ok := false;
      }
    case Closed => return IsClosedTail(sub.tail);
  }

  method CheckFieldsUniform(fields: seq<Field>, declared: set<string>, valueType: Ty, ctx: Ctx,
                            depth: nat, sigma: Hypotheses, ghost dom: iset<Ty>) returns (ok: bool)
    requires depth < ctx.limit
    requires ClosedUnderSteps(dom) && (forall f :: f in fields ==> f.ty in dom) && valueType in dom && sigma.AskedIn(dom)
    modifies sigma`asked
    ensures ok == FieldsUniform(fields, declared, valueType, ctx, depth, sigma.keys)
    ensures sigma.AskedIn(dom) && old(sigma.asked) <= sigma.asked
    decreases Fuel(ctx, depth), 0, 0, 0
  {
    for i := 0 to |fields|
      invariant FieldsUniform(fields, declared, valueType, ctx, depth, sigma.keys)
             == FieldsUniform(fields[i..], declared, valueType, ctx, depth, sigma.keys)
      invariant sigma.AskedIn(dom) && old(sigma.asked) <= sigma.asked
    {
      assert fields[i..][1..] == fields[i + 1..];
      if fields[i].key.StrKey? && fields[i].key.name in declared {
        continue;
      }
      assert fields[i] in fields;
      var fieldOk := CheckSubtype(fields[i].ty, valueType, ctx, depth + 1, sigma, dom);
      if !fieldOk {
        return false;
      }
    }
    return true;
  }

  method CheckAppSubtype(sub: Ty, sup: Ty, ctx: Ctx, depth: nat, sigma: Hypotheses, ghost dom: iset<Ty>)
    returns (ok: bool)
    requires depth < ctx.limit && sub.App? && sup.App?
    requires ClosedUnderSteps(dom) && sub in dom && sup in dom && sigma.AskedIn(dom)
    modifies sigma
    ensures Verdict(ok, sigma.keys) == AppSubtype(sub, sup, ctx, depth, old(sigma.keys))
    ensures sigma.AskedIn(dom) && old(sigma.asked) <= sigma.asked
    decreases Fuel(ctx, depth), 0, 0
  {
    assert StepsStayIn(sub, dom) && StepsStayIn(sup, dom);
    ok := CheckAtomSubtype(sub.op, sup.op, ctx, depth + 1, sigma, dom);
    if !ok {
      return;
    }
    match ArgVariance(sub.op, ctx.env)
    case Covariant =>
      ok := CheckSubtype(sub.arg, sup.arg, ctx, depth + 1, sigma, dom);
    case Contravariant =>
      ok := CheckSubtype(sup.arg, sub.arg, ctx, depth + 1, sigma, dom);
    case Invariant =>
      ok := CheckSubtype(sub.arg, sup.arg, ctx, depth + 1, sigma, dom);
      if ok {
        ok := CheckSubtype(sup.arg, sub.arg, ctx, depth + 1, sigma, dom);
      }
    case Phantom =>
      ok := true;
  }

  method CheckRecursiveSubtype(sub: Ty, sup: Ty, ctx: Ctx, depth: nat, sigma: Hypotheses, ghost dom: iset<Ty>)
    returns (ok: bool)
    requires depth < ctx.limit && sub.Recursive? && sup.Recursive?
    requires ClosedUnderSteps(dom) && sub in dom && sup in dom && sigma.AskedIn(dom)
    modifies sigma
    ensures Verdict(ok, sigma.keys) == RecursiveSubtype(sub, sup, ctx, depth, old(sigma.keys))
    ensures sigma.AskedIn(dom) && old(sigma.asked) <= sigma.asked
    decreases Fuel(ctx, depth), 0, 0
  {
    assert StepsStayIn(sub, dom) && StepsStayIn(sup, dom);
    var key := (ctx.key(sub), ctx.key(sup));
    if key in sigma.keys {
      return true;
    }
    sigma.keys := sigma.keys + {key};
    ok := CheckSubtype(UnfoldTy(sub), UnfoldTy(sup), ctx, depth + 1, sigma, dom);
  }
}
