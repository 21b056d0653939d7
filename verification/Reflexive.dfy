/** Structural reflexivity: a type is accepted against a separately allocated copy of itself,
    because every conjunction of `A & ~A` holds some atom together with its complement. */
module Reflexive {
  import opened Types
  import opened Unfold
  import opened UnfoldRdnf
  import opened Rdnf
  import opened RdnfMeaning
  import opened Subtype
  import opened Emptiness
  import opened Lattice
  import opened AtomQuestions
  import opened DepthLimit
  import opened Expansion
  import opened FiniteRuns
  import opened Spines

  function Max(a: nat, b: nat): nat { if a < b then b else a }

  /** Constructor nesting; Boolean connectives are free, since they use up no depth. */
  function Height(t: Ty): nat
    decreases t
  {
    match t
    case Union(members) => HeightAll(members)
    case Inter(members) => HeightAll(members)
    case Neg(of) => Height(of)
    case Fn(params, _, ret) => 1 + Max(HeightAll(params), Height(ret))
    case Record(fields, tail) => 1 + Max(HeightFields(fields), HeightTail(tail))
    case App(op, arg) => 1 + Max(Height(op), Height(arg))
    case Recursive(body) => 1 + Height(body)
    case _ => 1
  }

  function HeightAll(ts: seq<Ty>): (h: nat)
    ensures forall t :: t in ts ==> Height(t) <= h
    decreases ts
  {
    if ts == [] then 0 else Max(Height(ts[0]), HeightAll(ts[1..]))
  }

  function HeightField(f: Field): nat
    decreases f
  {
    Height(f.ty)
  }

  function HeightFields(fields: seq<Field>): (h: nat)
    ensures forall f :: f in fields ==> HeightField(f) <= h
    decreases fields
  {
    if fields == [] then 0 else Max(HeightField(fields[0]), HeightFields(fields[1..]))
  }

  function HeightTail(tail: Tail): nat
    decreases tail
  {
    if tail.Uniform? then Height(tail.valueType) else 0
  }

  /** Boolean combinations of nominal types, literals, functions, records, nominal-headed
      applications and recursive types, hereditarily.  Record keys are unique, as in the dictionaries
      they model. */
  predicate Regular(t: Ty)
    decreases t
  {
    match t
    case Top | Never | Var(_) | Nominal(_) | IntLit(_) | StrLit(_) | FloatLit(_) | RecursiveRef(_) => true
    case Union(members) => forall m :: m in members ==> Regular(m)
    case Inter(members) => forall m :: m in members ==> Regular(m)
    case Neg(of) => Regular(of)
    case Fn(params, _, ret) => Regular(ret) && forall p :: p in params ==> Regular(p)
    case Record(fields, tail) => UniqueKeys(fields) && RegularTail(tail) && forall f :: f in fields ==> RegularField(f)
    case App(op, arg) => Head(op).Nominal? && Regular(op) && Regular(arg)
    case Recursive(body) => Regular(body)
    case _ => false
  }

  predicate RegularField(f: Field) decreases f { Regular(f.ty) }

  predicate RegularTail(tail: Tail) decreases tail { tail.Uniform? ==> Regular(tail.valueType) }

  /** Comparing `t`, or any type inside it, with itself stays within the cap. */
  predicate SelfFits(t: Ty, cap: nat)
    decreases t, 1
  {
    CapFree(Inter([t, Neg(t)]), cap) && ComponentsFit(t, cap)
  }

  predicate ComponentsFit(t: Ty, cap: nat)
    decreases t, 0
  {
    match t
    case Union(members) => forall m :: m in members ==> ComponentsFit(m, cap)
    case Inter(members) => forall m :: m in members ==> ComponentsFit(m, cap)
    case Neg(of) => ComponentsFit(of, cap)
    case Fn(params, _, ret) => SelfFits(ret, cap) && forall p :: p in params ==> SelfFits(p, cap)
    case Record(fields, tail) => SelfFitsTail(tail, cap) && forall f :: f in fields ==> SelfFitsField(f, cap)
    case App(op, arg) => ComponentsFit(op, cap) && SelfFits(arg, cap)
    case Recursive(body) => SelfFits(body, cap)
    case _ => true
  }

  predicate SelfFitsField(f: Field, cap: nat) decreases f, 1 { SelfFits(f.ty, cap) }

  predicate SelfFitsTail(tail: Tail, cap: nat) decreases tail, 1 { tail.Uniform? ==> SelfFits(tail.valueType, cap) }

  // ---------- closing a subterm keeps its normal form ----------

  lemma {:induction false} CloseCapFree(t: Ty, k: nat, env: seq<Ty>, cap: nat)
    requires ClosedEnv(env) && forall e :: e in env ==> e.Recursive?
    ensures CapFree(Close(t, k, env), cap) <==> CapFree(t, cap)
    decreases |env|
  {
    if env == [] {
      CloseNothing(t, k);
    } else {
      var r, rest := env[0], env[1..];
      assert r in env && env == [r] + rest;
      SubstClose(t, k, rest, r);
      SubstToRdnf(Close(t, k + 1, rest), cap, k, r);
      CloseCapFree(t, k + 1, rest, cap);
    }
  }

  lemma ClosedSelfFits(t: Ty, env: seq<Ty>, cap: nat)
    requires ClosedEnv(env) && (forall e :: e in env ==> e.Recursive?) && CapFree(Inter([t, Neg(t)]), cap)
    ensures var u := Close(t, 0, env);
      CapFree(Inter([u, Neg(u)]), cap)
  {
    var ms := [t, Neg(t)];
    CloseCapFree(Inter(ms), 0, env, cap);
    assert CloseAll(ms, 0, env) == [Close(t, 0, env), Neg(Close(t, 0, env))];
  }

  lemma {:induction false} LeafOfClosed(a: Ty, t: Ty, env: seq<Ty>) returns (b: Ty)
    requires Leaf(a, Close(t, 0, env)) && forall e :: e in env ==> e.Recursive?
    ensures Leaf(b, t) && a == Close(b, 0, env)
    decreases t
  {
    match t
    case Union(members) => b := LeafOfMember(a, members, env);
    case Inter(members) => b := LeafOfMember(a, members, env);
    case Neg(of) => b := LeafOfClosed(a, of, env);
    case RecursiveRef(index) => b := t; assert index < |env| ==> env[index] in env;
    case _ => b := t;
  }

  lemma {:induction false} LeafOfMember(a: Ty, members: seq<Ty>, env: seq<Ty>) returns (b: Ty)
    requires (exists m :: m in CloseAll(members, 0, env) && Leaf(a, m)) && forall e :: e in env ==> e.Recursive?
    ensures (exists m :: m in members && Leaf(b, m)) && a == Close(b, 0, env)
    decreases members
  {
    var m :| m in CloseAll(members, 0, env) && Leaf(a, m);
    var i :| 0 <= i < |members| && CloseAll(members, 0, env)[i] == m;
    assert members[i] in members;
    b := LeafOfClosed(a, members[i], env);
  }

  // ---------- a row that holds an atom with both signs ----------

  /** `p` is below `q` under these hypotheses, and under any that contain them. */
  ghost predicate Firm(p: Ty, q: Ty, ctx: Ctx, depth: nat, sigma: Sigma) {
    forall s :: sigma <= s ==> AtomSubtype(p, q, ctx, depth, s).ok
  }

  lemma {:induction false} FirmSubsumedBy(p: Ty, q: Ty, neg: seq<Ty>, ctx: Ctx, depth: nat, sigma: Sigma, s: Sigma)
    requires Firm(p, q, ctx, depth, sigma) && sigma <= s && q in neg
    ensures SubsumedBy(p, neg, ctx, depth, s).ok
    decreases |neg|
  {
    var v := AtomSubtype(p, neg[0], ctx, depth, s);
    SigmaGrows(p, neg[0], ctx, depth, s);
    if !v.ok {
      assert q in neg[1..];
      FirmSubsumedBy(p, q, neg[1..], ctx, depth, sigma, v.sigma);
    }
  }

  lemma {:induction false} SubsumedByGrows(p: Ty, neg: seq<Ty>, ctx: Ctx, depth: nat, s: Sigma)
    ensures s <= SubsumedBy(p, neg, ctx, depth, s).sigma
    decreases |neg|
  {
    if neg != [] {
      SigmaGrows(p, neg[0], ctx, depth, s);
      var v := AtomSubtype(p, neg[0], ctx, depth, s);
      if !v.ok { SubsumedByGrows(p, neg[1..], ctx, depth, v.sigma); }
    }
  }

  lemma {:induction false} FirmSubsumed(p: Ty, q: Ty, pos: seq<Ty>, neg: seq<Ty>, ctx: Ctx, depth: nat, sigma: Sigma, s: Sigma)
    requires Firm(p, q, ctx, depth, sigma) && sigma <= s && p in pos && q in neg
    ensures SomeSubsumed(pos, neg, ctx, depth, s).ok
    decreases |pos|
  {
    var v := SubsumedBy(pos[0], neg, ctx, depth, s);
    SubsumedByGrows(pos[0], neg, ctx, depth, s);
    if pos[0] == p {
      FirmSubsumedBy(p, q, neg, ctx, depth, sigma, s);
    } else if !v.ok {
      assert p in pos[1..];
      FirmSubsumed(p, q, pos[1..], neg, ctx, depth, sigma, v.sigma);
    }
  }

  /** Whatever the scan tries first, it comes to a pair that holds under all larger hypothesis sets. */
  lemma FirmEmpty(c: Conjunction, p: Ty, q: Ty, ctx: Ctx, depth: nat, sigma: Sigma)
    requires Firm(p, q, ctx, depth, sigma) && Pos(p) in c && NegAtom(q) in c
    ensures ConjunctionEmpty(c, ctx, depth, sigma).ok
  {
    SignedMembers(c);
    FirmSubsumed(p, q, Positives(c), Negatives(c), ctx, depth, sigma, sigma);
  }

  // ---------- reflexivity ----------

  /** Enclosing recursive types, each known to be below itself. */
  predicate KnownEnv(env: seq<Ty>, ctx: Ctx, sigma: Sigma) {
    forall e :: e in env ==> e.Recursive? && Tight(e, 0) && (ctx.key(e), ctx.key(e)) in sigma
  }

  /** A row of `A` and a choice against `A` share an atom with both signs. */
  lemma ComplementaryPair(l: Conjunction, n: Conjunction, rdnf: Rdnf) returns (a: Ty)
    requires l in rdnf && IsChoice(n, rdnf)
    ensures Pos(a) in l + n && NegAtom(a) in l + n && exists s :: s in l && s.atom == a
  {
    var i :| 0 <= i < |rdnf| && rdnf[i] == l;
    a := n[i].atom;
    assert n[i] in n && n[i].Negate() in l && n[i].Negate().atom == a;
  }

  /** A subterm, closed up by the recursive types it stands in, is accepted below itself once these are
      hypotheses. */
  lemma {:induction false} SubtypeReflexive(t: Ty, env: seq<Ty>, ctx: Ctx, depth: nat, sigma: Sigma)
    requires Regular(t) && Tight(t, |env|) && KnownEnv(env, ctx, sigma)
    requires SelfFits(t, ctx.cap) && depth + Height(t) <= ctx.limit
    ensures IsSubtype(Close(t, 0, env), Close(t, 0, env), ctx, depth, sigma)
    decreases t, 1
  {
    var u := Close(t, 0, env);
    var rows := ToRdnf(u, ctx.cap);
    var diff := ToRdnf(Inter([u, Neg(u)]), ctx.cap);
    ClosedSelfFits(t, env, ctx.cap);
    RdnfEmptyIff(diff, ctx, depth, sigma);
    if t.RecursiveRef? { assert env[t.index] in env; }
    assert !u.Error? && !u.Unknown?;
    forall c | c in diff ensures ConjunctionEmpty(c, ctx, depth, sigma).ok {
      DiffMembers(u, u, ctx, c);
      var l, n :| l in rows && IsChoice(n, rows) && c == l + n;
      var a := ComplementaryPair(l, n, rows);
      var s :| s in l && s.atom == a;
      RdnfLeaves(u, ctx.cap, l, s);
      var b := LeafOfClosed(a, t, env);
      LeafFirm(b, t, env, ctx, depth, sigma);
      FirmEmpty(c, a, a, ctx, depth, sigma);
    }
  }

  lemma {:induction false} LeafFirm(b: Ty, t: Ty, env: seq<Ty>, ctx: Ctx, depth: nat, sigma: Sigma)
    requires Leaf(b, t) && Regular(t) && Tight(t, |env|) && KnownEnv(env, ctx, sigma)
    requires ComponentsFit(t, ctx.cap) && depth + Height(t) <= ctx.limit
    ensures Firm(Close(b, 0, env), Close(b, 0, env), ctx, depth, sigma)
    decreases t, 0, 1
  {
    forall s | sigma <= s ensures AtomSubtype(Close(b, 0, env), Close(b, 0, env), ctx, depth, s).ok {
      LeafReflexive(b, t, env, ctx, depth, s);
    }
  }

  lemma {:induction false} LeafReflexive(b: Ty, t: Ty, env: seq<Ty>, ctx: Ctx, depth: nat, sigma: Sigma)
    requires Leaf(b, t) && Regular(t) && Tight(t, |env|) && KnownEnv(env, ctx, sigma)
    requires ComponentsFit(t, ctx.cap) && depth + Height(t) <= ctx.limit
    ensures AtomSubtype(Close(b, 0, env), Close(b, 0, env), ctx, depth, sigma).ok
    decreases t, 0, 0
  {
    match t
    case Union(members) =>
      var m :| m in members && Leaf(b, m);
      LeafReflexive(b, m, env, ctx, depth, sigma);
    case Inter(members) =>
      var m :| m in members && Leaf(b, m);
      LeafReflexive(b, m, env, ctx, depth, sigma);
    case Neg(of) => LeafReflexive(b, of, env, ctx, depth, sigma);
    case Fn(_, _, _) => FnReflexive(t, env, ctx, depth, sigma);
    case Record(_, _) => RecordReflexive(t, env, ctx, depth, sigma);
    case App(_, _) => AppReflexive(t, env, ctx, depth, sigma);
    case Recursive(_) => RecursiveReflexive(t, env, ctx, depth, sigma);
    case RecursiveRef(index) => assert env[index] in env;
    case _ =>
  }

  lemma {:induction false} RecursiveReflexive(t: Ty, env: seq<Ty>, ctx: Ctx, depth: nat, sigma: Sigma)
    requires t.Recursive? && Regular(t) && Tight(t, |env|) && KnownEnv(env, ctx, sigma)
    requires ComponentsFit(t, ctx.cap) && depth + Height(t) <= ctx.limit
    ensures AtomSubtype(Close(t, 0, env), Close(t, 0, env), ctx, depth, sigma).ok
    decreases t, 0, 0, 0
  {
    var r := Close(t, 0, env);
    var known := sigma + {(ctx.key(r), ctx.key(r))};
    KnownUnfolding(t, env, ctx, sigma);
    SubtypeReflexive(t.body, [r] + env, ctx, depth + 1, known);
    assert IsSubtype(UnfoldTy(r), UnfoldTy(r), ctx, depth + 1, known);
    UnfoldedReflexive(r, ctx, depth, sigma);
  }

  lemma KnownUnfolding(t: Ty, env: seq<Ty>, ctx: Ctx, sigma: Sigma)
    requires t.Recursive? && Tight(t, |env|) && KnownEnv(env, ctx, sigma)
    ensures var r := Close(t, 0, env);
      && KnownEnv([r] + env, ctx, sigma + {(ctx.key(r), ctx.key(r))})
      && r.Recursive? && UnfoldTy(r) == Close(t.body, 0, [r] + env)
  {
    CloseTight(t, 0, env);
    UnfoldClose(t.body, env);
  }

  lemma UnfoldedReflexive(r: Ty, ctx: Ctx, depth: nat, sigma: Sigma)
    requires r.Recursive? && depth < ctx.limit
    requires IsSubtype(UnfoldTy(r), UnfoldTy(r), ctx, depth + 1, sigma + {(ctx.key(r), ctx.key(r))})
    ensures AtomSubtype(r, r, ctx, depth, sigma).ok
  {
    RecursiveVerdict(r, r, ctx, depth, sigma);
  }

  lemma {:induction false} FnReflexive(t: Ty, env: seq<Ty>, ctx: Ctx, depth: nat, sigma: Sigma)
    requires t.Fn? && Regular(t) && Tight(t, |env|) && KnownEnv(env, ctx, sigma)
    requires ComponentsFit(t, ctx.cap) && depth + Height(t) <= ctx.limit
    ensures AtomSubtype(Close(t, 0, env), Close(t, 0, env), ctx, depth, sigma).ok
    decreases t, 0, 0, 0
  {
    SubtypeReflexive(t.ret, env, ctx, depth + 1, sigma);
    ParamsReflexive(t.params, env, ctx, depth, sigma);
  }

  lemma {:induction false} CloseHead(op: Ty, env: seq<Ty>)
    requires Head(op).Nominal?
    ensures Head(Close(op, 0, env)).Nominal? && Quiet(Close(op, 0, env))
  {
    if op.App? { CloseHead(op.op, env); }
  }

  lemma {:induction false} AppReflexive(t: Ty, env: seq<Ty>, ctx: Ctx, depth: nat, sigma: Sigma)
    requires t.App? && Regular(t) && Tight(t, |env|) && KnownEnv(env, ctx, sigma)
    requires ComponentsFit(t, ctx.cap) && depth + Height(t) <= ctx.limit
    ensures AtomSubtype(Close(t, 0, env), Close(t, 0, env), ctx, depth, sigma).ok
    decreases t, 0, 0, 0
  {
    var op, arg := Close(t.op, 0, env), Close(t.arg, 0, env);
    LeafReflexive(t.op, t.op, env, ctx, depth + 1, sigma);
    SubtypeReflexive(t.arg, env, ctx, depth + 1, sigma);
    CloseHead(t.op, env);
    QuietSigma(op, op, ctx, depth + 1, sigma);
    assert AtomSubtype(App(op, arg), App(op, arg), ctx, depth, sigma) == AppSubtype(App(op, arg), App(op, arg), ctx, depth, sigma);
  }

  lemma {:induction false} RecordReflexive(t: Ty, env: seq<Ty>, ctx: Ctx, depth: nat, sigma: Sigma)
    requires t.Record? && Regular(t) && Tight(t, |env|) && KnownEnv(env, ctx, sigma)
    requires ComponentsFit(t, ctx.cap) && depth + Height(t) <= ctx.limit
    ensures AtomSubtype(Close(t, 0, env), Close(t, 0, env), ctx, depth, sigma).ok
    decreases t, 0, 0, 0
  {
    FieldsReflexive(t.fields, 0, env, ctx, depth, sigma);
    if t.tail.Uniform? {
      TailReflexive(t.tail, env, ctx, depth, sigma);
    }
    RecordSelf(CloseFields(t.fields, 0, env), t.tail, ctx, depth, sigma);
  }

  lemma {:induction false} TailReflexive(tail: Tail, env: seq<Ty>, ctx: Ctx, depth: nat, sigma: Sigma)
    requires tail.Uniform? && TightTail(tail) && RegularTail(tail) && SelfFitsTail(tail, ctx.cap)
    requires depth + 1 + HeightTail(tail) <= ctx.limit
    ensures IsSubtype(tail.valueType, tail.valueType, ctx, depth + 1, sigma)
    decreases tail, 0
  {
    CloseNothing(tail.valueType, 0);
    SubtypeReflexive(tail.valueType, [], ctx, depth + 1, sigma);
  }

  lemma RecordSelf(fields: seq<Field>, tail: Tail, ctx: Ctx, depth: nat, sigma: Sigma)
    requires depth < ctx.limit && FieldsSubtype(fields, fields[0..], ctx, depth, sigma)
    requires tail.Uniform? ==> IsSubtype(tail.valueType, tail.valueType, ctx, depth + 1, sigma)
    ensures AtomSubtype(Record(fields, tail), Record(fields, tail), ctx, depth, sigma).ok
  {
    var u := Record(fields, tail);
    assert fields[0..] == fields;
    assert TailSubtype(u, u, ctx, depth, sigma);
  }

  lemma {:induction false} ParamsReflexive(params: seq<Ty>, env: seq<Ty>, ctx: Ctx, depth: nat, sigma: Sigma)
    requires depth < ctx.limit && KnownEnv(env, ctx, sigma)
    requires forall p :: p in params ==>
      Regular(p) && Tight(p, |env|) && SelfFits(p, ctx.cap) && depth + 1 + Height(p) <= ctx.limit
    ensures ParamsSubtype(CloseAll(params, 0, env), CloseAll(params, 0, env), ctx, depth, sigma)
    decreases params, 0
  {
    if params != [] {
      assert params[0] in params;
      SubtypeReflexive(params[0], env, ctx, depth + 1, sigma);
      ParamsReflexive(params[1..], env, ctx, depth, sigma);
      assert CloseAll(params, 0, env)[1..] == CloseAll(params[1..], 0, env);
    }
  }

  lemma {:induction false} FieldsReflexive(fields: seq<Field>, i: nat, env: seq<Ty>, ctx: Ctx, depth: nat, sigma: Sigma)
    requires depth < ctx.limit && KnownEnv(env, ctx, sigma) && UniqueKeys(fields) && i <= |fields|
    requires forall f :: f in fields ==>
      RegularField(f) && TightField(f, |env|) && SelfFitsField(f, ctx.cap) && depth + 1 + HeightField(f) <= ctx.limit
    ensures FieldsSubtype(CloseFields(fields, 0, env), CloseFields(fields, 0, env)[i..], ctx, depth, sigma)
    decreases fields, |fields| - i
  {
    if i < |fields| {
      var fs := CloseFields(fields, 0, env);
      assert fields[i] in fields && fields[i].ty < fields[i];
      assert UniqueKeys(fs);
      LookupUnique(fs, i);
      SubtypeReflexive(fields[i].ty, env, ctx, depth + 1, sigma);
      FieldsReflexive(fields, i + 1, env, ctx, depth, sigma);
      assert fs[i..][1..] == fs[i + 1..];
    }
  }

  /** The theorem, for separately allocated copies: closed types, recursive ones included. */
  lemma AcceptsCopyOfItself(t: Ty, ctx: Ctx)
    requires Regular(t) && Tight(t, 0) && SelfFits(t, ctx.cap) && Height(t) <= ctx.limit
    ensures IsSubtypeBas(t, t, ctx, false)
  {
    CloseNothing(t, 0);
    SubtypeReflexive(t, [], ctx, 0, {});
  }
}
