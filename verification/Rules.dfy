/** On types without Boolean connectives the checker decides derivability in the structural rules, with
    derivations as high as the depth that is left. */
module Rules {
  import opened Wrappers
  import opened Types
  import opened Unfold
  import opened Subtype
  import opened AtomQuestions
  import opened Reachability
  import opened Spines
  import opened Lattice
  import opened Structural

  /** Pairs of recursive types under comparison. */
  type Pairs = set<(Ty, Ty)>

  /** Derivations of at most `n` steps: width and depth for records, contravariance for parameters,
      declared variance for arguments, unfolding, and the pairs under comparison as axioms. */
  predicate Derivable(n: nat, hyps: Pairs, a: Ty, b: Ty, env: TyConEnv)
    decreases n, 1
  {
    if b.Top? || a.Never? then true
    else if n == 0 || a.Top? || b.Never? then false
    else if a.Recursive? && b.Recursive? then
      (a, b) in hyps || Derivable(n - 1, hyps + {(a, b)}, UnfoldTy(a), UnfoldTy(b), env)
    else if a.Recursive? then Derivable(n - 1, hyps, UnfoldTy(a), b, env)
    else if b.Recursive? then Derivable(n - 1, hyps, a, UnfoldTy(b), env)
    else if a.Fn? && b.Fn? then FnDerivable(n, hyps, a, b, env)
    else if a.Record? && b.Record? then RecordDerivable(n, hyps, a, b, env)
    else if a.App? && b.App? then AppDerivable(n, hyps, a, b, env)
    else if b.App? then a.Nominal? && n >= 2 && b.op == a
    else if IsLiteral(a) then b == a || b == LiteralType(a)
    else a.Nominal? && a == b
  }

  predicate FnDerivable(n: nat, hyps: Pairs, a: Ty, b: Ty, env: TyConEnv)
    requires n > 0 && a.Fn? && b.Fn?
    decreases n, 0
  {
    && Derivable(n - 1, hyps, a.ret, b.ret, env)
    && |a.params| <= |b.params| && (a.variadic || |a.params| == |b.params|)
    && forall i :: 0 <= i < |a.params| ==> Derivable(n - 1, hyps, b.params[i], a.params[i], env)
  }

  predicate RecordDerivable(n: nat, hyps: Pairs, a: Ty, b: Ty, env: TyConEnv)
    requires n > 0 && a.Record? && b.Record?
    decreases n, 0
  {
    && (forall i :: 0 <= i < |b.fields| ==> FieldDerivable(n, hyps, a, b.fields[i], env))
    && TailDerivable(n, hyps, a, b, env)
  }

  predicate TailDerivable(n: nat, hyps: Pairs, a: Ty, b: Ty, env: TyConEnv)
    requires n > 0 && a.Record? && b.Record?
    decreases n, 0, 1
  {
    match b.tail
    case Absent | RowVar(_) => true
    case Closed => IsClosedTail(a.tail)
    case Uniform(t) =>
      if a.tail.Uniform? then Derivable(n - 1, hyps, a.tail.valueType, t, env)
      else IsClosedTail(a.tail) && forall i :: 0 <= i < |a.fields| ==> UniformDerivable(n, hyps, a, b, i, env)
  }

  predicate FieldDerivable(n: nat, hyps: Pairs, a: Ty, f: Field, env: TyConEnv)
    requires n > 0 && a.Record?
    decreases n, 0, 0
  {
    Lookup(a.fields, f.key).Some? && Derivable(n - 1, hyps, Lookup(a.fields, f.key).value, f.ty, env)
  }

  predicate UniformDerivable(n: nat, hyps: Pairs, a: Ty, b: Ty, i: nat, env: TyConEnv)
    requires n > 0 && a.Record? && b.Record? && b.tail.Uniform? && i < |a.fields|
    decreases n, 0, 0
  {
    Declared(a.fields[i].key, b) || Derivable(n - 1, hyps, a.fields[i].ty, b.tail.valueType, env)
  }

  predicate AppDerivable(n: nat, hyps: Pairs, a: Ty, b: Ty, env: TyConEnv)
    requires n > 0 && a.App? && b.App?
    decreases n, 0
  {
    var variance := NextVariance(a.op, env);
    && Derivable(n - 1, hyps, a.op, b.op, env)
    && (variance.Covariant? || variance.Invariant? ==> Derivable(n - 1, hyps, a.arg, b.arg, env))
    && (variance.Contravariant? || variance.Invariant? ==> Derivable(n - 1, hyps, b.arg, a.arg, env))
  }

  // ---------- the checker decides it ----------

  function KeysOf(hyps: Pairs, ctx: Ctx): Sigma {
    set p | p in hyps :: (ctx.key(p.0), ctx.key(p.1))
  }

  /** Plain types closed under steps, told apart by their keys, applications headed by nominal types. */
  ghost predicate RuleDomain(dom: iset<Ty>, ctx: Ctx) {
    PlainDomain(dom, ctx) && forall t :: t in dom && t.App? ==> Head(t).Nominal?
  }

  ghost predicate PairsIn(hyps: Pairs, dom: iset<Ty>) {
    forall p :: p in hyps ==> p.0 in dom && p.1 in dom && p.0.Recursive? && p.1.Recursive?
  }

  lemma KeyedHit(a: Ty, b: Ty, hyps: Pairs, dom: iset<Ty>, ctx: Ctx)
    requires KeysApart(dom, ctx) && PairsIn(hyps, dom) && a in dom && b in dom && a.Recursive? && b.Recursive?
    ensures (ctx.key(a), ctx.key(b)) in KeysOf(hyps, ctx) <==> (a, b) in hyps
    ensures KeysOf(hyps + {(a, b)}, ctx) == KeysOf(hyps, ctx) + {(ctx.key(a), ctx.key(b))}
    ensures PairsIn(hyps + {(a, b)}, dom)
  {
    if (a, b) in hyps {
      assert (ctx.key((a, b).0), ctx.key((a, b).1)) in KeysOf(hyps, ctx);
    }
    var both := hyps + {(a, b)};
    forall k | k in KeysOf(hyps, ctx) + {(ctx.key(a), ctx.key(b))} ensures k in KeysOf(both, ctx) {
      if k == (ctx.key(a), ctx.key(b)) {
        assert (a, b) in both;
      } else {
        var p :| p in hyps && k == (ctx.key(p.0), ctx.key(p.1));
        assert p in both;
      }
    }
  }

  /** What one comparison has to decide. */
  ghost predicate Agrees(a: Ty, b: Ty, hyps: Pairs, ctx: Ctx, depth: nat) {
    IsSubtype(a, b, ctx, depth, KeysOf(hyps, ctx)) <==> Derivable(Fuel(ctx, depth), hyps, a, b, ctx.env)
  }

  /** On plain types, acceptance under the keys of some pairs is derivability from these pairs, within as
      many steps as the depth limit leaves. */
  lemma {:induction false} AcceptedIffDerivable(a: Ty, b: Ty, hyps: Pairs, dom: iset<Ty>, ctx: Ctx, depth: nat)
    requires RuleDomain(dom, ctx) && PairsIn(hyps, dom) && a in dom && b in dom
    ensures Agrees(a, b, hyps, ctx, depth)
    decreases Fuel(ctx, depth), 1
  {
    var sigma := KeysOf(hyps, ctx);
    if b.Top? || a.Never? {
    } else if a.Top? {
      if b.Never? { TopAboveNever(ctx, depth, sigma); } else { TopAboveAtom(b, ctx, depth, sigma); }
    } else if b.Never? {
      AtomAboveNever(a, ctx, depth, sigma);
    } else {
      AtomQuestion(a, b, ctx, depth, sigma);
      if depth < ctx.limit { AtomAgrees(a, b, hyps, dom, ctx, depth); }
    }
  }

  lemma {:induction false} AtomAgrees(a: Ty, b: Ty, hyps: Pairs, dom: iset<Ty>, ctx: Ctx, depth: nat)
    requires RuleDomain(dom, ctx) && PairsIn(hyps, dom) && a in dom && b in dom && depth < ctx.limit
    requires !b.Top? && !a.Never? && !a.Top? && !b.Never?
    ensures AtomSubtype(a, b, ctx, depth, KeysOf(hyps, ctx)).ok <==> Derivable(Fuel(ctx, depth), hyps, a, b, ctx.env)
    decreases Fuel(ctx, depth), 0, 2
  {
    if a.Recursive? || b.Recursive? {
      UnfoldAgrees(a, b, hyps, dom, ctx, depth);
    } else if a.Fn? && b.Fn? {
      FnAgrees(a, b, hyps, dom, ctx, depth);
    } else if a.Record? && b.Record? {
      RecordAgrees(a, b, hyps, dom, ctx, depth);
    } else if a.App? && b.App? {
      AppAgrees(a, b, hyps, dom, ctx, depth);
    } else {
      LeafAgrees(a, b, hyps, ctx, depth);
    }
  }

  lemma LeafAgrees(a: Ty, b: Ty, hyps: Pairs, ctx: Ctx, depth: nat)
    requires Plain(a) && Plain(b) && depth < ctx.limit && !a.Recursive? && !b.Recursive?
    requires !b.Top? && !a.Never? && !a.Top? && !b.Never?
    requires !(a.Fn? && b.Fn?) && !(a.Record? && b.Record?) && !(a.App? && b.App?)
    ensures AtomSubtype(a, b, ctx, depth, KeysOf(hyps, ctx)).ok <==> Derivable(Fuel(ctx, depth), hyps, a, b, ctx.env)
  {
    var sigma := KeysOf(hyps, ctx);
    if a.RecursiveRef? && b.RecursiveRef? {
      DanglingRejected(a, b, ctx, depth, sigma);
    } else if a.Nominal? && b.App? && b.op.Nominal? {
      assert AtomSubtype(a, b, ctx, depth, sigma) == AtomSubtype(a, b.op, ctx, depth + 1, sigma);
    }
  }

  lemma {:induction false} UnfoldAgrees(a: Ty, b: Ty, hyps: Pairs, dom: iset<Ty>, ctx: Ctx, depth: nat)
    requires RuleDomain(dom, ctx) && PairsIn(hyps, dom) && a in dom && b in dom && depth < ctx.limit
    requires !b.Top? && !a.Never? && !a.Top? && !b.Never? && (a.Recursive? || b.Recursive?)
    ensures AtomSubtype(a, b, ctx, depth, KeysOf(hyps, ctx)).ok <==> Derivable(Fuel(ctx, depth), hyps, a, b, ctx.env)
    decreases Fuel(ctx, depth), 0, 1
  {
    var sigma := KeysOf(hyps, ctx);
    assert StepsStayIn(a, dom) && StepsStayIn(b, dom);
    if a.Recursive? && b.Recursive? {
      KeyedHit(a, b, hyps, dom, ctx);
      RecursiveVerdict(a, b, ctx, depth, sigma);
      AcceptedIffDerivable(UnfoldTy(a), UnfoldTy(b), hyps + {(a, b)}, dom, ctx, depth + 1);
    } else {
      UnfoldVerdict(a, b, ctx, depth, sigma);
      if a.Recursive? {
        AcceptedIffDerivable(UnfoldTy(a), b, hyps, dom, ctx, depth + 1);
      } else {
        AcceptedIffDerivable(a, UnfoldTy(b), hyps, dom, ctx, depth + 1);
      }
    }
  }

  lemma UnfoldVerdict(a: Ty, b: Ty, ctx: Ctx, depth: nat, sigma: Sigma)
    requires Plain(a) && Plain(b) && a.Recursive? != b.Recursive? && depth < ctx.limit
    ensures AtomSubtype(a, b, ctx, depth, sigma).ok ==
      if a.Recursive? then IsSubtype(UnfoldTy(a), b, ctx, depth + 1, sigma)
      else IsSubtype(a, UnfoldTy(b), ctx, depth + 1, sigma)
  {
  }

  lemma {:induction false} FnAgrees(a: Ty, b: Ty, hyps: Pairs, dom: iset<Ty>, ctx: Ctx, depth: nat)
    requires RuleDomain(dom, ctx) && PairsIn(hyps, dom) && a in dom && b in dom && depth < ctx.limit && a.Fn? && b.Fn?
    ensures AtomSubtype(a, b, ctx, depth, KeysOf(hyps, ctx)).ok <==> Derivable(Fuel(ctx, depth), hyps, a, b, ctx.env)
    decreases Fuel(ctx, depth), 0, 1
  {
    var sigma := KeysOf(hyps, ctx);
    assert StepsStayIn(a, dom) && StepsStayIn(b, dom);
    AcceptedIffDerivable(a.ret, b.ret, hyps, dom, ctx, depth + 1);
    if |a.params| <= |b.params| {
      ParamsEach(a.params, b.params, ctx, depth, sigma);
      forall i | 0 <= i < |a.params| ensures Agrees(b.params[i], a.params[i], hyps, ctx, depth + 1) {
        assert a.params[i] in a.params && b.params[i] in b.params;
        AcceptedIffDerivable(b.params[i], a.params[i], hyps, dom, ctx, depth + 1);
      }
    }
    assert AtomSubtype(a, b, ctx, depth, sigma).ok == FnSubtype(a, b, ctx, depth, sigma);
  }

  lemma {:induction false} RecordAgrees(a: Ty, b: Ty, hyps: Pairs, dom: iset<Ty>, ctx: Ctx, depth: nat)
    requires RuleDomain(dom, ctx) && PairsIn(hyps, dom) && a in dom && b in dom && depth < ctx.limit && a.Record? && b.Record?
    ensures AtomSubtype(a, b, ctx, depth, KeysOf(hyps, ctx)).ok <==> Derivable(Fuel(ctx, depth), hyps, a, b, ctx.env)
    decreases Fuel(ctx, depth), 0, 1
  {
    var sigma, n := KeysOf(hyps, ctx), Fuel(ctx, depth);
    FieldsEach(a.fields, b.fields, ctx, depth, sigma);
    forall i | 0 <= i < |b.fields|
      ensures FieldAccepts(a.fields, b.fields[i], ctx, depth, sigma) <==> FieldDerivable(n, hyps, a, b.fields[i], ctx.env)
    {
      FieldAgrees(a, b, i, hyps, dom, ctx, depth);
    }
    TailAgrees(a, b, hyps, dom, ctx, depth);
    assert AtomSubtype(a, b, ctx, depth, sigma).ok == RecordSubtype(a, b, ctx, depth, sigma);
    assert Derivable(n, hyps, a, b, ctx.env) == RecordDerivable(n, hyps, a, b, ctx.env);
  }

  lemma {:induction false} FieldAgrees(a: Ty, b: Ty, i: nat, hyps: Pairs, dom: iset<Ty>, ctx: Ctx, depth: nat)
    requires RuleDomain(dom, ctx) && PairsIn(hyps, dom) && a in dom && b in dom && depth < ctx.limit && a.Record? && b.Record?
    requires i < |b.fields|
    ensures FieldAccepts(a.fields, b.fields[i], ctx, depth, KeysOf(hyps, ctx))
       <==> FieldDerivable(Fuel(ctx, depth), hyps, a, b.fields[i], ctx.env)
    decreases Fuel(ctx, depth), 0, 0
  {
    var f := b.fields[i];
    assert StepsStayIn(a, dom) && StepsStayIn(b, dom) && f in b.fields;
    if Lookup(a.fields, f.key).Some? {
      LookupMet(a, f.key, dom);
      AcceptedIffDerivable(Lookup(a.fields, f.key).value, f.ty, hyps, dom, ctx, depth + 1);
    }
  }

  lemma {:induction false} TailAgrees(a: Ty, b: Ty, hyps: Pairs, dom: iset<Ty>, ctx: Ctx, depth: nat)
    requires RuleDomain(dom, ctx) && PairsIn(hyps, dom) && a in dom && b in dom && depth < ctx.limit && a.Record? && b.Record?
    ensures TailSubtype(a, b, ctx, depth, KeysOf(hyps, ctx)) <==> TailDerivable(Fuel(ctx, depth), hyps, a, b, ctx.env)
    decreases Fuel(ctx, depth), 0, 0
  {
    var sigma := KeysOf(hyps, ctx);
    assert StepsStayIn(a, dom) && StepsStayIn(b, dom);
    if b.tail.Uniform? && a.tail.Uniform? {
      AcceptedIffDerivable(a.tail.valueType, b.tail.valueType, hyps, dom, ctx, depth + 1);
    } else if b.tail.Uniform? {
      UniformEach(a.fields, StringKeys(b.fields), b.tail.valueType, ctx, depth, sigma);
      forall i | 0 <= i < |a.fields| ensures Agrees(a.fields[i].ty, b.tail.valueType, hyps, ctx, depth + 1) {
        assert a.fields[i] in a.fields;
        AcceptedIffDerivable(a.fields[i].ty, b.tail.valueType, hyps, dom, ctx, depth + 1);
      }
      UniformAgrees(a, b, hyps, ctx, depth);
    }
  }

  lemma UniformAgrees(a: Ty, b: Ty, hyps: Pairs, ctx: Ctx, depth: nat)
    requires depth < ctx.limit && a.Record? && b.Record? && b.tail.Uniform?
    requires forall i :: 0 <= i < |a.fields| ==> Agrees(a.fields[i].ty, b.tail.valueType, hyps, ctx, depth + 1)
    ensures FieldsUniform(a.fields, StringKeys(b.fields), b.tail.valueType, ctx, depth, KeysOf(hyps, ctx)) <==>
      forall i :: 0 <= i < |a.fields| ==> UniformDerivable(Fuel(ctx, depth), hyps, a, b, i, ctx.env)
  {
    var sigma := KeysOf(hyps, ctx);
    var n, keys, t := Fuel(ctx, depth), StringKeys(b.fields), b.tail.valueType;
    UniformEach(a.fields, keys, t, ctx, depth, sigma);
    if FieldsUniform(a.fields, keys, t, ctx, depth, sigma) {
      forall i | 0 <= i < |a.fields| ensures UniformDerivable(n, hyps, a, b, i, ctx.env) {
        assert Agrees(a.fields[i].ty, t, hyps, ctx, depth + 1);
      }
    } else {
      var i :| 0 <= i < |a.fields|
        && !((a.fields[i].key.StrKey? && a.fields[i].key.name in keys) || IsSubtype(a.fields[i].ty, t, ctx, depth + 1, sigma));
      assert Agrees(a.fields[i].ty, t, hyps, ctx, depth + 1) && !UniformDerivable(n, hyps, a, b, i, ctx.env);
    }
  }

  lemma {:induction false} SpineQuiet(t: Ty)
    requires Head(t).Nominal?
    ensures Quiet(t) && !IsBoolean(t) && !t.Var?
  {
    if t.App? { SpineQuiet(t.op); }
  }

  lemma {:induction false} AppAgrees(a: Ty, b: Ty, hyps: Pairs, dom: iset<Ty>, ctx: Ctx, depth: nat)
    requires RuleDomain(dom, ctx) && PairsIn(hyps, dom) && a in dom && b in dom && depth < ctx.limit && a.App? && b.App?
    ensures AtomSubtype(a, b, ctx, depth, KeysOf(hyps, ctx)).ok <==> Derivable(Fuel(ctx, depth), hyps, a, b, ctx.env)
    decreases Fuel(ctx, depth), 0, 1
  {
    var sigma := KeysOf(hyps, ctx);
    assert StepsStayIn(a, dom) && StepsStayIn(b, dom);
    SpineQuiet(a.op);
    SpineQuiet(b.op);
    QuietSigma(a.op, b.op, ctx, depth + 1, sigma);
    AtomQuestion(a.op, b.op, ctx, depth + 1, sigma);
    LooksUpDeclared(a.op, ctx.env);
    AcceptedIffDerivable(a.op, b.op, hyps, dom, ctx, depth + 1);
    AcceptedIffDerivable(a.arg, b.arg, hyps, dom, ctx, depth + 1);
    AcceptedIffDerivable(b.arg, a.arg, hyps, dom, ctx, depth + 1);
    AppVerdict(a, b, ctx, depth, sigma);
  }

  lemma AppVerdict(a: Ty, b: Ty, ctx: Ctx, depth: nat, sigma: Sigma)
    requires a.App? && b.App? && depth < ctx.limit && AtomSubtype(a.op, b.op, ctx, depth + 1, sigma).sigma == sigma
    ensures AtomSubtype(a, b, ctx, depth, sigma).ok <==>
      AtomSubtype(a.op, b.op, ctx, depth + 1, sigma).ok && ArgAccepted(a, b, ctx, depth, sigma)
  {
    LooksUpDeclared(a.op, ctx.env);
    assert AtomSubtype(a, b, ctx, depth, sigma) == AppSubtype(a, b, ctx, depth, sigma);
  }

  /** The theorem: acceptance by a checker that is asked afresh. */
  lemma DecidesRules(a: Ty, b: Ty, ctx: Ctx)
    requires Plain(a) && Plain(b) && 1 <= ctx.cap && KeysApart(Reachable(a, b), ctx)
    requires forall t :: t in Reachable(a, b) && t.App? ==> Head(t).Nominal?
    ensures IsSubtypeBas(a, b, ctx, false) <==> Derivable(ctx.limit, {}, a, b, ctx.env)
  {
    ReachableClosed(a, b);
    PlainSteps();
    ReachableLeast(a, b, PlainTypes());
    AcceptedIffDerivable(a, b, {}, Reachable(a, b), ctx, 0);
    assert KeysOf({}, ctx) == {};
  }

  // ---------- recursion out of step ----------

  const X := StrKey("x")
  const Y := StrKey("y")

  function Box(k: Key, t: Ty): Ty { Record([Field(k, t)], Closed) }

  /** `mu X. { x: { y: X } }` */
  const Early: Ty := Recursive(Box(X, Box(Y, RecursiveRef(0))))

  /** `mu Y. { y: { x: Y } }`; below a field `x` it has the same expansion as `Early`. */
  const Late: Ty := Recursive(Box(Y, Box(X, RecursiveRef(0))))

  lemma SubstBox(k: Key, t: Ty, n: nat, r: Ty)
    ensures Subst(Box(k, t), n, r) == Box(k, Subst(t, n, r))
  {
    var fs := SubstFields([Field(k, t)], n, r);
    assert fs[0] == SubstField(Field(k, t), n, r) == Field(k, Subst(t, n, r));
    assert fs == [Field(k, Subst(t, n, r))];
  }

  lemma UnfoldBoth()
    ensures UnfoldTy(Early) == Box(X, Box(Y, Early)) && UnfoldTy(Late) == Box(Y, Box(X, Late))
  {
    SubstBox(X, Box(Y, RecursiveRef(0)), 0, Early);
    SubstBox(Y, RecursiveRef(0), 0, Early);
    SubstBox(Y, Box(X, RecursiveRef(0)), 0, Late);
    SubstBox(X, RecursiveRef(0), 0, Late);
  }

  lemma BoxUpTo(n: nat, k: Key, s: Ty, t: Ty, env: TyConEnv)
    requires n > 0 && SubUpTo(n - 1, s, t, env)
    ensures SubUpTo(n, Box(k, s), Box(k, t), env)
  {
    var a, b := Box(k, s), Box(k, t);
    assert Lookup(a.fields, k) == Some(s);
    assert FieldUpTo(n, a, b.fields[0], env);
    assert RecordUpTo(n, a, b, env);
  }

  /** The two are related to every number of steps. */
  lemma {:induction false} OutOfStepRelated(n: nat, env: TyConEnv)
    ensures SubUpTo(n, Early, Box(X, Late), env)
    ensures SubUpTo(n, Box(Y, Early), Late, env)
    decreases n
  {
    if n >= 2 {
      OutOfStepRelated(n - 2, env);
      UnfoldBoth();
      BoxUpTo(n - 1, X, Box(Y, Early), Late, env);
      BoxUpTo(n - 1, Y, Early, Box(X, Late), env);
    }
  }

  lemma BoxDerivable(n: nat, k: Key, s: Ty, t: Ty, env: TyConEnv)
    ensures Derivable(n, {}, Box(k, s), Box(k, t), env) ==> n > 0 && Derivable(n - 1, {}, s, t, env)
  {
    var a, b := Box(k, s), Box(k, t);
    if Derivable(n, {}, a, b, env) {
      assert RecordDerivable(n, {}, a, b, env);
      assert Lookup(a.fields, k) == Some(s) && FieldDerivable(n, {}, a, b.fields[0], env);
    }
  }

  /** But no derivation has any number of steps: only one side is ever recursive, so nothing is ever
      assumed. */
  lemma {:induction false} OutOfStepRejected(n: nat, env: TyConEnv)
    ensures !Derivable(n, {}, Early, Box(X, Late), env)
    ensures !Derivable(n, {}, Box(Y, Early), Late, env)
    decreases n
  {
    UnfoldBoth();
    if n >= 2 {
      OutOfStepRejected(n - 2, env);
      BoxDerivable(n - 1, X, Box(Y, Early), Late, env);
      BoxDerivable(n - 1, Y, Early, Box(X, Late), env);
    } else if n == 1 {
      BoxDerivable(0, X, Box(Y, Early), Late, env);
      BoxDerivable(0, Y, Early, Box(X, Late), env);
    }
  }

  ghost function OutOfStepTypes(): iset<Ty> {
    iset{Early, Box(X, Box(Y, Early)), Box(Y, Early), Late, Box(Y, Box(X, Late)), Box(X, Late)}
  }

  lemma OutOfStepRun()
    ensures forall t :: t in Reachable(Early, Box(X, Late)) ==> t in OutOfStepTypes()
  {
    var dom := OutOfStepTypes();
    UnfoldBoth();
    forall t | t in dom ensures StepsStayIn(t, dom) {
    }
    ReachableLeast(Early, Box(X, Late), dom);
  }

  /** The one below the other is related to every number of steps and rejected at every depth limit: the
      rules, and the checker with them, are weaker than the coinductive relation. */
  lemma OutOfStep(ctx: Ctx, n: nat)
    requires 1 <= ctx.cap && KeysApart(Reachable(Early, Box(X, Late)), ctx)
    ensures SubUpTo(n, Early, Box(X, Late), ctx.env) && !IsSubtypeBas(Early, Box(X, Late), ctx, false)
  {
    OutOfStepRelated(n, ctx.env);
    OutOfStepRejected(ctx.limit, ctx.env);
    OutOfStepRun();
    BoxPlain(X, Late);
    DecidesRules(Early, Box(X, Late), ctx);
  }

  lemma BoxPlain(k: Key, t: Ty)
    ensures Plain(Early) && Plain(Late) && (Plain(t) ==> Plain(Box(k, t)))
  {
    assert PlainTail(Closed);
    assert PlainField(Field(Y, RecursiveRef(0))) && PlainField(Field(X, RecursiveRef(0)));
    assert Plain(Box(Y, RecursiveRef(0))) && Plain(Box(X, RecursiveRef(0)));
    assert PlainField(Field(X, Box(Y, RecursiveRef(0)))) && PlainField(Field(Y, Box(X, RecursiveRef(0))));
    if Plain(t) { assert PlainField(Field(k, t)); }
  }
}
