/** Coinductive soundness: on types without Boolean connectives an accepted pair satisfies the
    step-indexed structural subtype relation at every step. */
module Structural {
  import opened Wrappers
  import opened Types
  import opened Rdnf
  import opened Unfold
  import opened Subtype
  import opened Spines
  import opened Emptiness
  import opened AtomQuestions
  import opened Reachability

  /** `sub` and `sup` cannot be told apart as a structural subtype pair within `n` steps.
      Each step looks under one constructor or unfolds once. */
  ghost predicate SubUpTo(n: nat, sub: Ty, sup: Ty, env: TyConEnv)
    decreases n, 1
  {
    if n == 0 || sup.Top? || sub.Never? then true
    else if sub.Recursive? && sup.Recursive? then SubUpTo(n - 1, UnfoldTy(sub), UnfoldTy(sup), env)
    else if sub.Recursive? then SubUpTo(n - 1, UnfoldTy(sub), sup, env)
    else if sup.Recursive? then SubUpTo(n - 1, sub, UnfoldTy(sup), env)
    else if sub.Fn? && sup.Fn? then FnUpTo(n, sub, sup, env)
    else if sub.Record? && sup.Record? then RecordUpTo(n, sub, sup, env)
    else if sub.App? && sup.App? then AppUpTo(n, sub, sup, env)
    else if sup.App? then sub.Nominal? && sup.op == sub
    else if sub.IntLit? then sub == sup || sup == Nominal(TYPE_ID_INT)
    else if sub.StrLit? then sub == sup || sup == Nominal(TYPE_ID_STRING)
    else if sub.FloatLit? then sub == sup || sup == Nominal(TYPE_ID_FLOAT)
    else sub.Nominal? && sub == sup
  }

  ghost predicate FnUpTo(n: nat, sub: Ty, sup: Ty, env: TyConEnv)
    requires n > 0 && sub.Fn? && sup.Fn?
    decreases n, 0
  {
    && SubUpTo(n - 1, sub.ret, sup.ret, env)
    && |sub.params| <= |sup.params| && (sub.variadic || |sub.params| == |sup.params|)
    && (forall i :: 0 <= i < |sub.params| ==> SubUpTo(n - 1, sup.params[i], sub.params[i], env))
  }

  ghost predicate RecordUpTo(n: nat, sub: Ty, sup: Ty, env: TyConEnv)
    requires n > 0 && sub.Record? && sup.Record?
    decreases n, 0
  {
    && (forall i :: 0 <= i < |sup.fields| ==> FieldUpTo(n, sub, sup.fields[i], env))
    && match sup.tail
       case Absent | RowVar(_) => true
       case Closed => IsClosedTail(sub.tail)
       case Uniform(t) =>
         if sub.tail.Uniform? then SubUpTo(n - 1, sub.tail.valueType, t, env)
         else IsClosedTail(sub.tail) && forall i :: 0 <= i < |sub.fields| ==>
           Declared(sub.fields[i].key, sup) || SubUpTo(n - 1, sub.fields[i].ty, t, env)
  }

  predicate Declared(key: Key, sup: Ty)
    requires sup.Record?
  {
    key.StrKey? && key.name in StringKeys(sup.fields)
  }

  ghost predicate FieldUpTo(n: nat, sub: Ty, f: Field, env: TyConEnv)
    requires n > 0 && sub.Record?
    decreases n, 0, 0
  {
    Lookup(sub.fields, f.key).Some? && SubUpTo(n - 1, Lookup(sub.fields, f.key).value, f.ty, env)
  }

  ghost predicate AppUpTo(n: nat, sub: Ty, sup: Ty, env: TyConEnv)
    requires n > 0 && sub.App? && sup.App?
    decreases n, 0
  {
    SubUpTo(n - 1, sub.op, sup.op, env) && ArgUpTo(n, sub, sup, env)
  }

  /** The arguments are related as the variance of the left head asks. */
  ghost predicate ArgUpTo(n: nat, sub: Ty, sup: Ty, env: TyConEnv)
    requires n > 0 && sub.App? && sup.App?
    decreases n, 0, 0
  {
    var variance := NextVariance(sub.op, env);
    && (variance.Covariant? || variance.Invariant? ==> SubUpTo(n - 1, sub.arg, sup.arg, env))
    && (variance.Contravariant? || variance.Invariant? ==> SubUpTo(n - 1, sup.arg, sub.arg, env))
  }

  /** Types without Boolean connectives, inference variables, `Unknown` or `Error`. */
  predicate Plain(t: Ty)
    decreases t
  {
    match t
    case Top | Never | Nominal(_) | IntLit(_) | StrLit(_) | FloatLit(_) | RecursiveRef(_) => true
    case Fn(params, _, ret) => Plain(ret) && forall p :: p in params ==> Plain(p)
    case Record(fields, tail) => PlainTail(tail) && forall f :: f in fields ==> PlainField(f)
    case App(op, arg) => Plain(op) && Plain(arg)
    case Recursive(body) => Plain(body)
    case _ => false
  }

  predicate PlainField(f: Field) decreases f { Plain(f.ty) }

  predicate PlainTail(tail: Tail) decreases tail { tail.Uniform? ==> Plain(tail.valueType) }

  lemma {:induction false} SubstPlain(t: Ty, k: nat, r: Ty)
    requires Plain(t) && Plain(r)
    ensures Plain(Subst(t, k, r))
    decreases t
  {
    match t
    case Fn(params, _, ret) =>
      SubstPlain(ret, k, r);
      forall p | p in SubstAll(params, k, r) ensures Plain(p) {
        var i :| 0 <= i < |params| && SubstAll(params, k, r)[i] == p;
        assert params[i] in params;
        SubstPlain(params[i], k, r);
      }
    case Record(fields, _) =>
      forall f | f in SubstFields(fields, k, r) ensures PlainField(f) {
        var i :| 0 <= i < |fields| && SubstFields(fields, k, r)[i] == f;
        assert PlainField(fields[i]) && fields[i].ty < fields[i];
        SubstPlain(fields[i].ty, k, r);
      }
    case App(op, arg) =>
      SubstPlain(op, k, r);
      SubstPlain(arg, k, r);
    case Recursive(body) => SubstPlain(body, k + 1, r);
    case _ =>
  }

  lemma {:induction false} SubUpToDown(m: nat, n: nat, sub: Ty, sup: Ty, env: TyConEnv)
    requires m <= n && SubUpTo(n, sub, sup, env)
    ensures SubUpTo(m, sub, sup, env)
    decreases n
  {
    if m == 0 || sup.Top? || sub.Never? {
    } else if sub.Recursive? && sup.Recursive? {
      SubUpToDown(m - 1, n - 1, UnfoldTy(sub), UnfoldTy(sup), env);
    } else if sub.Recursive? {
      SubUpToDown(m - 1, n - 1, UnfoldTy(sub), sup, env);
    } else if sup.Recursive? {
      SubUpToDown(m - 1, n - 1, sub, UnfoldTy(sup), env);
    } else {
      var m', n' := m - 1, n - 1;
      forall a, b | SubUpTo(n', a, b, env) ensures SubUpTo(m', a, b, env) {
        SubUpToDown(m', n', a, b, env);
      }
      if sub.Record? && sup.Record? {
        forall i | 0 <= i < |sup.fields| ensures FieldUpTo(m, sub, sup.fields[i], env) {
          assert FieldUpTo(n, sub, sup.fields[i], env);
        }
      } else if sub.App? && sup.App? {
        assert ArgUpTo(n, sub, sup, env) && ArgUpTo(m, sub, sup, env);
      }
    }
  }

  /** A domain of plain types, closed under steps, on which keys tell recursive types apart. */
  ghost predicate PlainDomain(dom: iset<Ty>, ctx: Ctx) {
    && 1 <= ctx.cap && ClosedUnderSteps(dom) && KeysApart(dom, ctx)
    && forall t :: t in dom ==> Plain(t)
  }

  /** Every hypothesis about types of `dom` holds up to `n` steps. */
  ghost predicate SigmaUpTo(sigma: Sigma, dom: iset<Ty>, ctx: Ctx, n: nat) {
    forall a: Ty, b: Ty :: a.Recursive? && b.Recursive? && a in dom && b in dom && (ctx.key(a), ctx.key(b)) in sigma
      ==> SubUpTo(n, a, b, ctx.env)
  }

  lemma SigmaDown(sigma: Sigma, dom: iset<Ty>, ctx: Ctx, m: nat, n: nat)
    requires m <= n && SigmaUpTo(sigma, dom, ctx, n)
    ensures SigmaUpTo(sigma, dom, ctx, m)
  {
    forall a: Ty, b: Ty | a.Recursive? && b.Recursive? && a in dom && b in dom && (ctx.key(a), ctx.key(b)) in sigma
      ensures SubUpTo(m, a, b, ctx.env)
    {
      SubUpToDown(m, n, a, b, ctx.env);
    }
  }

  /** Two dangling references are never accepted: the comparison only ends at the depth limit. */
  lemma {:induction false} DanglingRejected(a: Ty, b: Ty, ctx: Ctx, depth: nat, sigma: Sigma)
    requires a.RecursiveRef? && b.RecursiveRef?
    ensures AtomSubtype(a, b, ctx, depth, sigma) == Verdict(false, sigma)
    decreases Fuel(ctx, depth)
  {
    if depth < ctx.limit {
      DanglingRejected(a, b, ctx, depth + 1, sigma);
    }
  }

  lemma TopAboveNever(ctx: Ctx, depth: nat, sigma: Sigma)
    ensures !IsSubtype(Top, Never, ctx, depth, sigma)
  {
    DiffRdnf(Top, Never, ctx.cap);
    var left := TopRdnf;
    assert left[..0] == [];
    assert Product(left, TopRdnf) == Product(left[..0], TopRdnf) + RowTimes([], TopRdnf);
    assert RowTimes([], TopRdnf) == [[] + []];
    RdnfEmptyIff(TopRdnf, ctx, depth, sigma);
    assert TopRdnf[0] in TopRdnf;
  }

  // ---------- the coinductive argument ----------

  lemma {:induction false} AcceptedUpTo(n: nat, sub: Ty, sup: Ty, dom: iset<Ty>, ctx: Ctx, depth: nat, sigma: Sigma)
    requires PlainDomain(dom, ctx) && sub in dom && sup in dom
    requires SigmaUpTo(sigma, dom, ctx, n) && IsSubtype(sub, sup, ctx, depth, sigma)
    ensures SubUpTo(n, sub, sup, ctx.env)
    decreases n, Fuel(ctx, depth), 3
  {
    if sup.Top? || sub.Never? {
    } else if sub.Top? {
      if sup.Never? { TopAboveNever(ctx, depth, sigma); } else { TopAboveAtom(sup, ctx, depth, sigma); }
    } else if sup.Never? {
      AtomAboveNever(sub, ctx, depth, sigma);
    } else {
      AtomQuestion(sub, sup, ctx, depth, sigma);
      AtomAcceptedUpTo(n, sub, sup, dom, ctx, depth, sigma);
    }
  }

  /** An accepted atom pair is in the relation, and the hypotheses left behind stay true. */
  lemma {:induction false} AtomAcceptedUpTo(n: nat, sub: Ty, sup: Ty, dom: iset<Ty>, ctx: Ctx, depth: nat, sigma: Sigma)
    requires PlainDomain(dom, ctx) && sub in dom && sup in dom
    requires SigmaUpTo(sigma, dom, ctx, n) && AtomSubtype(sub, sup, ctx, depth, sigma).ok
    ensures SubUpTo(n, sub, sup, ctx.env)
    ensures SigmaUpTo(AtomSubtype(sub, sup, ctx, depth, sigma).sigma, dom, ctx, n)
    decreases n, Fuel(ctx, depth), 2
  {
    if sub.Recursive? && sup.Recursive? {
      RecursiveAcceptedUpTo(n, sub, sup, dom, ctx, depth, sigma);
    } else if sub.App? && sup.App? {
      AppAcceptedUpTo(n, sub, sup, dom, ctx, depth, sigma);
    } else {
      SigmaKept(sub, sup, ctx, depth, sigma);
      if n > 0 {
        SigmaDown(sigma, dom, ctx, n - 1, n);
        OtherAcceptedUpTo(n, sub, sup, dom, ctx, depth, sigma);
      }
    }
  }

  /** Only two recursive types, or two applications headed by them, add a hypothesis. */
  lemma SigmaKept(sub: Ty, sup: Ty, ctx: Ctx, depth: nat, sigma: Sigma)
    requires Plain(sub) && Plain(sup)
    requires !(sub.Recursive? && sup.Recursive?) && !(sub.App? && sup.App?)
    ensures AtomSubtype(sub, sup, ctx, depth, sigma).sigma == sigma
  {
    if sub.RecursiveRef? && sup.RecursiveRef? {
      DanglingRejected(sub, sup, ctx, depth, sigma);
    }
  }

  lemma UnfoldRule(sub: Ty, sup: Ty, ctx: Ctx, depth: nat, sigma: Sigma)
    requires sub.Recursive? != sup.Recursive? && Plain(sub) && Plain(sup)
    requires AtomSubtype(sub, sup, ctx, depth, sigma).ok
    ensures depth < ctx.limit
    ensures if sub.Recursive? then IsSubtype(UnfoldTy(sub), sup, ctx, depth + 1, sigma)
            else IsSubtype(sub, UnfoldTy(sup), ctx, depth + 1, sigma)
  {
  }

  lemma {:induction false} UnfoldAcceptedUpTo(n: nat, sub: Ty, sup: Ty, dom: iset<Ty>, ctx: Ctx, depth: nat, sigma: Sigma)
    requires n > 0 && PlainDomain(dom, ctx) && sub in dom && sup in dom
    requires sub.Recursive? != sup.Recursive?
    requires SigmaUpTo(sigma, dom, ctx, n - 1) && AtomSubtype(sub, sup, ctx, depth, sigma).ok
    ensures SubUpTo(n, sub, sup, ctx.env)
    decreases n, Fuel(ctx, depth), 0
  {
    UnfoldRule(sub, sup, ctx, depth, sigma);
    assert StepsStayIn(sub, dom) && StepsStayIn(sup, dom);
    if sub.Recursive? {
      AcceptedUpTo(n - 1, UnfoldTy(sub), sup, dom, ctx, depth + 1, sigma);
    } else {
      AcceptedUpTo(n - 1, sub, UnfoldTy(sup), dom, ctx, depth + 1, sigma);
    }
  }

  lemma {:induction false} OtherAcceptedUpTo(n: nat, sub: Ty, sup: Ty, dom: iset<Ty>, ctx: Ctx, depth: nat, sigma: Sigma)
    requires n > 0 && PlainDomain(dom, ctx) && sub in dom && sup in dom
    requires !(sub.Recursive? && sup.Recursive?) && !(sub.App? && sup.App?)
    requires SigmaUpTo(sigma, dom, ctx, n - 1) && AtomSubtype(sub, sup, ctx, depth, sigma).ok
    ensures SubUpTo(n, sub, sup, ctx.env)
    decreases n, Fuel(ctx, depth), 1
  {
    if sub.Recursive? || sup.Recursive? {
      UnfoldAcceptedUpTo(n, sub, sup, dom, ctx, depth, sigma);
    } else if sub.Fn? && sup.Fn? {
      FnAcceptedUpTo(n, sub, sup, dom, ctx, depth, sigma);
    } else if sub.Record? && sup.Record? {
      RecordAcceptedUpTo(n, sub, sup, dom, ctx, depth, sigma);
    } else {
      LeafAccepted(sub, sup, ctx, depth, sigma);
    }
  }

  lemma LeafAccepted(sub: Ty, sup: Ty, ctx: Ctx, depth: nat, sigma: Sigma)
    requires Plain(sub) && Plain(sup) && AtomSubtype(sub, sup, ctx, depth, sigma).ok
    requires !sub.Recursive? && !sup.Recursive? && !(sub.App? && sup.App?)
    requires !(sub.Fn? && sup.Fn?) && !(sub.Record? && sup.Record?)
    ensures (sub.Never? || sup.Top?) || (sup.App? && sub.Nominal? && sup.op == sub)
      || ((sub.Nominal? || sub.IntLit? || sub.StrLit? || sub.FloatLit?) && sub == sup)
      || (sub.IntLit? && sup == Nominal(TYPE_ID_INT)) || (sub.StrLit? && sup == Nominal(TYPE_ID_STRING))
      || (sub.FloatLit? && sup == Nominal(TYPE_ID_FLOAT))
  {
    if sub.RecursiveRef? && sup.RecursiveRef? {
      DanglingRejected(sub, sup, ctx, depth, sigma);
    }
  }

  lemma SigmaExtended(sigma: Sigma, dom: iset<Ty>, ctx: Ctx, n: nat, sub: Ty, sup: Ty)
    requires sub.Recursive? && sup.Recursive? && sub in dom && sup in dom && KeysApart(dom, ctx)
    requires SigmaUpTo(sigma, dom, ctx, n) && SubUpTo(n, sub, sup, ctx.env)
    ensures SigmaUpTo(sigma + {(ctx.key(sub), ctx.key(sup))}, dom, ctx, n)
  {
  }

  lemma UnfoldBoth(n: nat, sub: Ty, sup: Ty, env: TyConEnv)
    requires n > 0 && sub.Recursive? && sup.Recursive? && SubUpTo(n - 1, UnfoldTy(sub), UnfoldTy(sup), env)
    ensures SubUpTo(n, sub, sup, env)
  {
  }

  /** Two recursive types related up to `n - 1` steps after unfolding are related up to `n`. */
  lemma {:induction false} UnfoldedUpTo(n: nat, sub: Ty, sup: Ty, dom: iset<Ty>, ctx: Ctx, depth: nat, sigma: Sigma)
    requires n > 0 && PlainDomain(dom, ctx) && sub in dom && sup in dom && sub.Recursive? && sup.Recursive?
    requires SigmaUpTo(sigma, dom, ctx, n - 1) && depth < ctx.limit
    requires IsSubtype(UnfoldTy(sub), UnfoldTy(sup), ctx, depth + 1, sigma)
    ensures SubUpTo(n, sub, sup, ctx.env)
    decreases n - 1, Fuel(ctx, depth), 4
  {
    assert StepsStayIn(sub, dom) && StepsStayIn(sup, dom);
    AcceptedUpTo(n - 1, UnfoldTy(sub), UnfoldTy(sup), dom, ctx, depth + 1, sigma);
    UnfoldBoth(n, sub, sup, ctx.env);
  }

  /** The hypothesis may be used below, because it holds one step earlier. */
  lemma {:induction false} HypothesisUpTo(n: nat, sub: Ty, sup: Ty, dom: iset<Ty>, ctx: Ctx, depth: nat, sigma: Sigma)
    requires PlainDomain(dom, ctx) && sub in dom && sup in dom && sub.Recursive? && sup.Recursive?
    requires SigmaUpTo(sigma, dom, ctx, n) && depth < ctx.limit
    requires IsSubtype(UnfoldTy(sub), UnfoldTy(sup), ctx, depth + 1, sigma + {(ctx.key(sub), ctx.key(sup))})
    ensures SubUpTo(n, sub, sup, ctx.env)
    decreases n, Fuel(ctx, depth), 0
  {
    if n > 0 {
      SigmaDown(sigma, dom, ctx, n - 1, n);
      HypothesisUpTo(n - 1, sub, sup, dom, ctx, depth, sigma);
      HypothesisStep(n, sub, sup, dom, ctx, depth, sigma);
    }
  }

  lemma {:induction false} HypothesisStep(n: nat, sub: Ty, sup: Ty, dom: iset<Ty>, ctx: Ctx, depth: nat, sigma: Sigma)
    requires n > 0 && PlainDomain(dom, ctx) && sub in dom && sup in dom && sub.Recursive? && sup.Recursive?
    requires SigmaUpTo(sigma, dom, ctx, n - 1) && SubUpTo(n - 1, sub, sup, ctx.env) && depth < ctx.limit
    requires IsSubtype(UnfoldTy(sub), UnfoldTy(sup), ctx, depth + 1, sigma + {(ctx.key(sub), ctx.key(sup))})
    ensures SubUpTo(n, sub, sup, ctx.env)
    decreases n - 1, Fuel(ctx, depth), 5
  {
    SigmaExtended(sigma, dom, ctx, n - 1, sub, sup);
    UnfoldedUpTo(n, sub, sup, dom, ctx, depth, sigma + {(ctx.key(sub), ctx.key(sup))});
  }

  lemma {:induction false} RecursiveAcceptedUpTo(n: nat, sub: Ty, sup: Ty, dom: iset<Ty>, ctx: Ctx, depth: nat, sigma: Sigma)
    requires PlainDomain(dom, ctx) && sub in dom && sup in dom && sub.Recursive? && sup.Recursive?
    requires SigmaUpTo(sigma, dom, ctx, n) && AtomSubtype(sub, sup, ctx, depth, sigma).ok
    ensures SubUpTo(n, sub, sup, ctx.env)
    ensures SigmaUpTo(AtomSubtype(sub, sup, ctx, depth, sigma).sigma, dom, ctx, n)
    decreases n, Fuel(ctx, depth), 1
  {
    RecursiveVerdict(sub, sup, ctx, depth, sigma);
    if (ctx.key(sub), ctx.key(sup)) !in sigma {
      HypothesisUpTo(n, sub, sup, dom, ctx, depth, sigma);
      SigmaExtended(sigma, dom, ctx, n, sub, sup);
    }
  }

  lemma {:induction false} FnAcceptedUpTo(n: nat, sub: Ty, sup: Ty, dom: iset<Ty>, ctx: Ctx, depth: nat, sigma: Sigma)
    requires n > 0 && PlainDomain(dom, ctx) && sub in dom && sup in dom && sub.Fn? && sup.Fn?
    requires depth < ctx.limit && SigmaUpTo(sigma, dom, ctx, n - 1) && FnSubtype(sub, sup, ctx, depth, sigma)
    ensures SubUpTo(n, sub, sup, ctx.env)
    decreases n, Fuel(ctx, depth), 0
  {
    assert StepsStayIn(sub, dom) && StepsStayIn(sup, dom);
    AcceptedUpTo(n - 1, sub.ret, sup.ret, dom, ctx, depth + 1, sigma);
    forall i | 0 <= i < |sub.params|
      ensures SubUpTo(n - 1, sup.params[i], sub.params[i], ctx.env)
    {
      ParamAccepted(sub.params, sup.params, ctx, depth, sigma, i);
      assert sub.params[i] in sub.params && sup.params[i] in sup.params;
      AcceptedUpTo(n - 1, sup.params[i], sub.params[i], dom, ctx, depth + 1, sigma);
    }
  }

  lemma {:induction false} ParamAccepted(sub: seq<Ty>, sup: seq<Ty>, ctx: Ctx, depth: nat, sigma: Sigma, i: nat)
    requires depth < ctx.limit && |sub| <= |sup| && i < |sub| && ParamsSubtype(sub, sup, ctx, depth, sigma)
    ensures IsSubtype(sup[i], sub[i], ctx, depth + 1, sigma)
  {
    if i > 0 {
      ParamAccepted(sub[1..], sup[1..], ctx, depth, sigma, i - 1);
    }
  }

  lemma FieldMet(sub: Ty, sup: Ty, dom: iset<Ty>, ctx: Ctx, depth: nat, sigma: Sigma, i: nat) returns (entry: Ty)
    requires ClosedUnderSteps(dom) && sub in dom && sup in dom && sub.Record? && sup.Record?
    requires depth < ctx.limit && FieldsSubtype(sub.fields, sup.fields, ctx, depth, sigma) && i < |sup.fields|
    ensures Lookup(sub.fields, sup.fields[i].key) == Some(entry)
    ensures entry in dom && sup.fields[i].ty in dom
    ensures IsSubtype(entry, sup.fields[i].ty, ctx, depth + 1, sigma)
  {
    FieldAccepted(sub.fields, sup.fields, ctx, depth, sigma, i);
    entry := Lookup(sub.fields, sup.fields[i].key).value;
    assert StepsStayIn(sub, dom) && StepsStayIn(sup, dom) && sup.fields[i] in sup.fields;
    LookupMet(sub, sup.fields[i].key, dom);
  }

  lemma FieldFromEntry(n: nat, sub: Ty, f: Field, entry: Ty, env: TyConEnv)
    requires n > 0 && sub.Record? && Lookup(sub.fields, f.key) == Some(entry) && SubUpTo(n - 1, entry, f.ty, env)
    ensures FieldUpTo(n, sub, f, env)
  {
  }

  lemma {:induction false} FieldAcceptedUpTo(n: nat, sub: Ty, f: Field, entry: Ty, dom: iset<Ty>, ctx: Ctx, depth: nat, sigma: Sigma)
    requires n > 0 && PlainDomain(dom, ctx) && entry in dom && f.ty in dom
    requires sub.Record? && Lookup(sub.fields, f.key) == Some(entry)
    requires depth < ctx.limit && SigmaUpTo(sigma, dom, ctx, n - 1) && IsSubtype(entry, f.ty, ctx, depth + 1, sigma)
    ensures FieldUpTo(n, sub, f, ctx.env)
    decreases n, Fuel(ctx, depth), 0, 0
  {
    AcceptedUpTo(n - 1, entry, f.ty, dom, ctx, depth + 1, sigma);
    FieldFromEntry(n, sub, f, entry, ctx.env);
  }

  lemma {:induction false} UniformAcceptedUpTo(n: nat, sub: Ty, sup: Ty, dom: iset<Ty>, ctx: Ctx, depth: nat, sigma: Sigma, i: nat)
    requires n > 0 && PlainDomain(dom, ctx) && sub in dom && sup in dom && sub.Record? && sup.Record?
    requires depth < ctx.limit && SigmaUpTo(sigma, dom, ctx, n - 1) && sup.tail.Uniform? && i < |sub.fields|
    requires FieldsUniform(sub.fields, StringKeys(sup.fields), sup.tail.valueType, ctx, depth, sigma)
    ensures Declared(sub.fields[i].key, sup) || SubUpTo(n - 1, sub.fields[i].ty, sup.tail.valueType, ctx.env)
    decreases n, Fuel(ctx, depth), 0, 0
  {
    var t := sup.tail.valueType;
    UniformEach(sub.fields, StringKeys(sup.fields), t, ctx, depth, sigma);
    assert StepsStayIn(sub, dom) && StepsStayIn(sup, dom) && sub.fields[i] in sub.fields;
    if !Declared(sub.fields[i].key, sup) {
      AcceptedUpTo(n - 1, sub.fields[i].ty, t, dom, ctx, depth + 1, sigma);
    }
  }

  lemma {:induction false} RecordAcceptedUpTo(n: nat, sub: Ty, sup: Ty, dom: iset<Ty>, ctx: Ctx, depth: nat, sigma: Sigma)
    requires n > 0 && PlainDomain(dom, ctx) && sub in dom && sup in dom && sub.Record? && sup.Record?
    requires depth < ctx.limit && SigmaUpTo(sigma, dom, ctx, n - 1) && RecordSubtype(sub, sup, ctx, depth, sigma)
    ensures SubUpTo(n, sub, sup, ctx.env)
    decreases n, Fuel(ctx, depth), 0
  {
    forall i | 0 <= i < |sup.fields| ensures FieldUpTo(n, sub, sup.fields[i], ctx.env) {
      var entry := FieldMet(sub, sup, dom, ctx, depth, sigma, i);
      FieldAcceptedUpTo(n, sub, sup.fields[i], entry, dom, ctx, depth, sigma);
    }
    if sup.tail.Uniform? {
      if sub.tail.Uniform? {
        assert StepsStayIn(sub, dom) && StepsStayIn(sup, dom);
        AcceptedUpTo(n - 1, sub.tail.valueType, sup.tail.valueType, dom, ctx, depth + 1, sigma);
      } else {
        forall i | 0 <= i < |sub.fields| ensures
          Declared(sub.fields[i].key, sup) || SubUpTo(n - 1, sub.fields[i].ty, sup.tail.valueType, ctx.env)
        {
          UniformAcceptedUpTo(n, sub, sup, dom, ctx, depth, sigma, i);
        }
      }
    }
  }

  predicate ArgAccepted(sub: Ty, sup: Ty, ctx: Ctx, depth: nat, sigma: Sigma)
    requires sub.App? && sup.App?
  {
    var variance := NextVariance(sub.op, ctx.env);
    && (variance.Covariant? || variance.Invariant? ==> IsSubtype(sub.arg, sup.arg, ctx, depth + 1, sigma))
    && (variance.Contravariant? || variance.Invariant? ==> IsSubtype(sup.arg, sub.arg, ctx, depth + 1, sigma))
  }

  lemma AppRule(sub: Ty, sup: Ty, ctx: Ctx, depth: nat, sigma: Sigma)
    requires sub.App? && sup.App? && AtomSubtype(sub, sup, ctx, depth, sigma).ok
    ensures depth < ctx.limit
    ensures var v := AtomSubtype(sub.op, sup.op, ctx, depth + 1, sigma);
      && v.ok && AtomSubtype(sub, sup, ctx, depth, sigma).sigma == v.sigma
      && ArgAccepted(sub, sup, ctx, depth, v.sigma)
  {
    LooksUpDeclared(sub.op, ctx.env);
  }

  lemma {:induction false} AppAcceptedUpTo(n: nat, sub: Ty, sup: Ty, dom: iset<Ty>, ctx: Ctx, depth: nat, sigma: Sigma)
    requires PlainDomain(dom, ctx) && sub in dom && sup in dom && sub.App? && sup.App?
    requires SigmaUpTo(sigma, dom, ctx, n) && AtomSubtype(sub, sup, ctx, depth, sigma).ok
    ensures SubUpTo(n, sub, sup, ctx.env)
    ensures SigmaUpTo(AtomSubtype(sub, sup, ctx, depth, sigma).sigma, dom, ctx, n)
    decreases n, Fuel(ctx, depth), 1
  {
    assert StepsStayIn(sub, dom) && StepsStayIn(sup, dom);
    AppRule(sub, sup, ctx, depth, sigma);
    var sigma' := AtomSubtype(sub.op, sup.op, ctx, depth + 1, sigma).sigma;
    AtomAcceptedUpTo(n, sub.op, sup.op, dom, ctx, depth + 1, sigma);
    if n > 0 {
      AppPartsUpTo(n, sub, sup, dom, ctx, depth, sigma');
    }
  }

  lemma {:induction false} AppPartsUpTo(n: nat, sub: Ty, sup: Ty, dom: iset<Ty>, ctx: Ctx, depth: nat, sigma: Sigma)
    requires n > 0 && PlainDomain(dom, ctx) && sub in dom && sup in dom && sub.App? && sup.App?
    requires SigmaUpTo(sigma, dom, ctx, n) && SubUpTo(n, sub.op, sup.op, ctx.env)
    requires depth < ctx.limit && ArgAccepted(sub, sup, ctx, depth, sigma)
    ensures SubUpTo(n, sub, sup, ctx.env)
    decreases n, Fuel(ctx, depth), 0
  {
    assert StepsStayIn(sub, dom) && StepsStayIn(sup, dom);
    SubUpToDown(n - 1, n, sub.op, sup.op, ctx.env);
    SigmaDown(sigma, dom, ctx, n - 1, n);
    ArgAcceptedUpTo(n, sub, sup, dom, ctx, depth, sigma);
  }

  lemma {:induction false} ArgAcceptedUpTo(n: nat, sub: Ty, sup: Ty, dom: iset<Ty>, ctx: Ctx, depth: nat, sigma: Sigma)
    requires n > 0 && PlainDomain(dom, ctx) && sub.App? && sup.App? && sub.arg in dom && sup.arg in dom
    requires SigmaUpTo(sigma, dom, ctx, n - 1)
    requires depth < ctx.limit && ArgAccepted(sub, sup, ctx, depth, sigma)
    ensures ArgUpTo(n, sub, sup, ctx.env)
    decreases n, Fuel(ctx, depth), 0, 0
  {
    match NextVariance(sub.op, ctx.env)
    case Covariant => AcceptedUpTo(n - 1, sub.arg, sup.arg, dom, ctx, depth + 1, sigma);
    case Contravariant => AcceptedUpTo(n - 1, sup.arg, sub.arg, dom, ctx, depth + 1, sigma);
    case Invariant =>
      AcceptedUpTo(n - 1, sub.arg, sup.arg, dom, ctx, depth + 1, sigma);
      AcceptedUpTo(n - 1, sup.arg, sub.arg, dom, ctx, depth + 1, sigma);
    case _ =>
  }

  /** Acceptance from the empty hypothesis set gives the relation at every step, over any domain a
      run from the two types stays in. */
  lemma CoinductivelySoundIn(n: nat, sub: Ty, sup: Ty, dom: iset<Ty>, ctx: Ctx)
    requires PlainDomain(dom, ctx) && sub in dom && sup in dom
    requires IsSubtypeBas(sub, sup, ctx, false)
    ensures SubUpTo(n, sub, sup, ctx.env)
  {
    AcceptedUpTo(n, sub, sup, dom, ctx, 0, {});
  }

  ghost function PlainTypes(): iset<Ty> {
    iset t | Plain(t)
  }

  lemma PlainSteps()
    ensures ClosedUnderSteps(PlainTypes())
  {
    forall t | t in PlainTypes() ensures StepsStayIn(t, PlainTypes()) {
      match t
      case Record(fields, tail) =>
        assert PlainTail(tail);
        forall f | f in fields ensures f.ty in PlainTypes() { assert PlainField(f); }
      case Recursive(body) => SubstPlain(body, 0, t);
      case _ =>
    }
  }

  /** The theorem: it is enough that the keys tell apart the recursive types reachable from the two. */
  lemma CoinductivelySound(n: nat, sub: Ty, sup: Ty, ctx: Ctx)
    requires Plain(sub) && Plain(sup) && 1 <= ctx.cap
    requires KeysApart(Reachable(sub, sup), ctx)
    requires IsSubtypeBas(sub, sup, ctx, false)
    ensures SubUpTo(n, sub, sup, ctx.env)
  {
    PlainSteps();
    ReachableClosed(sub, sup);
    ReachableLeast(sub, sup, PlainTypes());
    CoinductivelySoundIn(n, sub, sup, Reachable(sub, sup), ctx);
  }
}
