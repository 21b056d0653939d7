/** The recursion theorems in the context the program runs in, where hypotheses are keyed by
    fingerprints: what is needed of the types, and two accepted pairs without it. */
module SourceSoundness {
  import opened Wrappers
  import opened Types
  import opened Unfold
  import opened Subtype
  import opened AtomQuestions
  import opened Values
  import opened Reachability
  import opened Expansion
  import opened FiniteRuns
  import opened Structural
  import opened SoundnessTheorem
  import opened Fingerprint
  import opened Gradual

  // ---------- where fingerprints tell recursive types apart ----------

  /** Every recursive type a run over the two can meet has a text that can be read back. */
  ghost predicate CodedRun(a: Ty, b: Ty) {
    forall t :: t in Reachable(a, b) && t.Recursive? ==> Coded(t)
  }

  /** No two of them differ only in what their texts leave out. */
  ghost predicate ErasuresApart(a: Ty, b: Ty) {
    forall s, t :: s in Reachable(a, b) && t in Reachable(a, b) && s.Recursive? && t.Recursive? && Erase(s, 0) == Erase(t, 0)
      ==> s == t
  }

  /** The program's keys tell the recursive types of a run apart exactly when erasure does. */
  lemma KeysApartIff(a: Ty, b: Ty, env: TyConEnv)
    requires StandardNames(env) && CodedRun(a, b)
    ensures KeysApart(Reachable(a, b), SourceCtx(env)) <==> ErasuresApart(a, b)
  {
    forall s, t | s in Reachable(a, b) && t in Reachable(a, b) && s.Recursive? && t.Recursive?
      ensures SourceCtx(env).key(s) == SourceCtx(env).key(t) <==> Erase(s, 0) == Erase(t, 0)
    {
      SameKeyIff(s, t, env);
    }
  }

  /** As the program runs, an accepted pair of plain types satisfies structural subtyping to every
      number of steps. */
  lemma StructuralAtSource(n: nat, sub: Ty, sup: Ty, env: TyConEnv)
    requires Plain(sub) && Plain(sup) && StandardNames(env) && CodedRun(sub, sup) && ErasuresApart(sub, sup)
    requires IsSubtypeBas(sub, sup, SourceCtx(env), false)
    ensures SubUpTo(n, sub, sup, env)
  {
    KeysApartIff(sub, sup, env);
    CoinductivelySound(n, sub, sup, SourceCtx(env));
  }

  /** As the program runs, an accepted pair of guarded types without `Neg` is an inclusion of values. */
  lemma AcceptanceAtSource(sub: Ty, sup: Ty, env: TyConEnv, shared: bool, v: Value)
    requires Guarded(sub, 0) && Guarded(sup, 0) && HasNoNeg(sub) && HasNoNeg(sup)
    requires DeepUnderNeg(sub, MAX_RDNF_CONJUNCTIONS) && DeepCapFree(sup, MAX_RDNF_CONJUNCTIONS)
    requires RecursionAlone(sub, MAX_RDNF_CONJUNCTIONS) && RecursionLast(sup, MAX_RDNF_CONJUNCTIONS)
    requires StandardNames(env) && CodedRun(sub, sup) && ErasuresApart(sub, sup) && (shared ==> sub == sup)
    requires IsSubtypeBas(sub, sup, SourceCtx(env), shared) && In(v, sub)
    ensures In(v, sup)
  {
    KeysApartIff(sub, sup, env);
    AcceptanceSound(sub, sup, SourceCtx(env), shared, v);
  }

  // ---------- conditions on the written types ----------

  /** The recursive types among finitely many can be read back, and no two differ only in what their
      texts leave out. */
  predicate Lossless(met: set<Ty>) {
    && (forall t :: t in met && t.Recursive? ==> Coded(t))
    && (forall s, t :: s in met && t in met && s.Recursive? && t.Recursive? && Erase(s, 0) == Erase(t, 0) ==> s == t)
  }

  /** For closed types, nested recursion included, the condition of the two theorems is a check over
      the subterms. */
  lemma LosslessIff(a: Ty, b: Ty)
    requires Tight(a, 0) && Tight(b, 0)
    ensures Lossless(MetTypes(a, b)) <==> CodedRun(a, b) && ErasuresApart(a, b)
  {
    RunIsFinite(a, b);
  }

  /** `mu L. (nil | { head: t, tail: L })` with the element type `t`. */
  function ListOf(nil: nat, t: Ty): Ty {
    Recursive(Union([Nominal(nil), Cell(t)]))
  }

  function Cell(t: Ty): Ty {
    Record([Field(StrKey("head"), t), Field(StrKey("tail"), RecursiveRef(0))], Closed)
  }

  /** `mu T. { kids: mu L. (nil | { head: T, tail: L }) }` */
  function RoseTree(nil: nat): Ty {
    Recursive(Record([Field(StrKey("kids"), ListOf(nil, RecursiveRef(1)))], Closed))
  }

  /** Recursive types are not nested, and each has a fingerprint that loses nothing. */
  predicate Keyed(t: Ty)
    decreases t
  {
    match t
    case Recursive(body) => Printable(t) && NoRecursion(body)
    case Union(members) => forall m :: m in members ==> Keyed(m)
    case Inter(members) => forall m :: m in members ==> Keyed(m)
    case Neg(of) => Keyed(of)
    case Fn(params, _, ret) => Keyed(ret) && forall p :: p in params ==> Keyed(p)
    case Record(fields, tail) => KeyedTail(tail) && forall f :: f in fields ==> KeyedField(f)
    case App(op, arg) => Keyed(op) && Keyed(arg)
    case _ => true
  }

  predicate KeyedField(f: Field) decreases f { Keyed(f.ty) }

  predicate KeyedTail(tail: Tail) decreases tail { tail.Uniform? ==> Keyed(tail.valueType) }

  lemma {:induction false} UnrecursiveKeyed(t: Ty)
    requires NoRecursion(t)
    ensures Keyed(t)
    decreases t
  {
    match t
    case Union(members) => forall m | m in members ensures Keyed(m) { UnrecursiveKeyed(m); }
    case Inter(members) => forall m | m in members ensures Keyed(m) { UnrecursiveKeyed(m); }
    case Neg(of) => UnrecursiveKeyed(of);
    case Fn(params, _, ret) =>
      UnrecursiveKeyed(ret);
      forall p | p in params ensures Keyed(p) { UnrecursiveKeyed(p); }
    case Record(fields, tail) =>
      if tail.Uniform? {
        assert NoRecursionTail(tail);
        UnrecursiveKeyed(tail.valueType);
      }
      forall f | f in fields ensures KeyedField(f) {
        assert f.ty < f && NoRecursionField(f);
        UnrecursiveKeyed(f.ty);
      }
    case App(op, arg) =>
      UnrecursiveKeyed(op);
      UnrecursiveKeyed(arg);
    case _ =>
  }

  /** Unfolding a recursive type that holds no other puts it back in the places of its references. */
  lemma {:induction false} SubstKeyed(t: Ty, k: nat, r: Ty)
    requires NoRecursion(t) && Keyed(r)
    ensures Keyed(Subst(t, k, r))
    decreases t
  {
    match t
    case Union(members) => SubstAllKeyed(members, k, r);
    case Inter(members) => SubstAllKeyed(members, k, r);
    case Neg(of) => SubstKeyed(of, k, r);
    case Fn(params, _, ret) =>
      SubstKeyed(ret, k, r);
      SubstAllKeyed(params, k, r);
    case Record(fields, tail) =>
      if tail.Uniform? {
        assert NoRecursionTail(tail);
        UnrecursiveKeyed(tail.valueType);
      }
      assert KeyedTail(tail);
      forall f | f in SubstFields(fields, k, r) ensures KeyedField(f) {
        var i :| 0 <= i < |fields| && SubstFields(fields, k, r)[i] == f;
        assert fields[i] in fields && fields[i].ty < fields[i] && NoRecursionField(fields[i]);
        SubstKeyed(fields[i].ty, k, r);
      }
    case App(op, arg) =>
      SubstKeyed(op, k, r);
      SubstKeyed(arg, k, r);
    case _ =>
  }

  lemma {:induction false} SubstAllKeyed(ts: seq<Ty>, k: nat, r: Ty)
    requires Keyed(r) && forall t :: t in ts ==> NoRecursion(t)
    ensures forall t :: t in SubstAll(ts, k, r) ==> Keyed(t)
    decreases ts
  {
    forall t | t in SubstAll(ts, k, r) ensures Keyed(t) {
      var i :| 0 <= i < |ts| && SubstAll(ts, k, r)[i] == t;
      assert ts[i] in ts;
      SubstKeyed(ts[i], k, r);
    }
  }

  ghost function KeyedTypes(): iset<Ty> {
    iset t | Keyed(t)
  }

  lemma KeyedSteps()
    ensures ClosedUnderSteps(KeyedTypes())
  {
    forall t | t in KeyedTypes() ensures StepsStayIn(t, KeyedTypes()) {
      match t
      case Record(fields, tail) =>
        assert KeyedTail(tail);
        forall f | f in fields ensures f.ty in KeyedTypes() { assert KeyedField(f); }
      case Recursive(body) => SubstKeyed(body, 0, t);
      case _ =>
    }
  }

  /** Types whose recursive parts are written out and not nested stay within the conditions of the
      two theorems. */
  lemma KeyedRuns(a: Ty, b: Ty)
    requires Keyed(a) && Keyed(b)
    ensures CodedRun(a, b) && ErasuresApart(a, b)
  {
    KeyedSteps();
    ReachableLeast(a, b, KeyedTypes());
    assert forall t :: t in Reachable(a, b) && t.Recursive? ==> Keyed(t) && Printable(t);
  }

  lemma CellSubterms(t: Ty, l: Ty)
    ensures Close(Cell(RecursiveRef(1)), 0, [l, t]) == Record([Field(StrKey("head"), t), Field(StrKey("tail"), l)], Closed)
    ensures forall u :: u in Subterms(Cell(RecursiveRef(1)), [l, t]) && u.Recursive? ==> u == t || u == l
  {
    var fs, env := Cell(RecursiveRef(1)).fields, [l, t];
    assert fs[1..] == [fs[1]];
    var cs := CloseFields(fs, 0, env);
    assert cs[0] == CloseField(fs[0], 0, env) == Field(StrKey("head"), t) && cs[1] == CloseField(fs[1], 0, env) == Field(StrKey("tail"), l);
    assert cs == [cs[0], cs[1]];
    assert Subterms(fs[0].ty, env) == {t} && Subterms(fs[1].ty, env) == {l};
    assert SubtermsFields(fs[1..], env) == {l} && SubtermsFields(fs, env) == {t, l};
  }

  lemma CloseList(nil: nat, t: Ty)
    ensures Close(ListOf(nil, RecursiveRef(1)), 0, [t]) == ListOf(nil, t)
  {
    var cell := Cell(RecursiveRef(1));
    var fs := CloseFields(cell.fields, 1, [t]);
    assert fs[0] == CloseField(cell.fields[0], 1, [t]) && fs[1] == CloseField(cell.fields[1], 1, [t]);
    assert fs == Cell(t).fields;
    assert CloseAll([Nominal(nil), cell], 1, [t]) == [Nominal(nil), Cell(t)];
  }

  lemma ListSubterms(nil: nat, t: Ty)
    ensures forall u :: u in Subterms(ListOf(nil, RecursiveRef(1)), [t]) && u.Recursive? ==> u == t || u == ListOf(nil, t)
  {
    var l, cell := ListOf(nil, t), Cell(RecursiveRef(1));
    CloseList(nil, t);
    CellSubterms(t, l);
    assert [l] + [t] == [l, t];
    UnionSubterms(Nominal(nil), cell, [l, t]);
  }

  lemma UnionSubterms(s: Ty, t: Ty, env: seq<Ty>)
    requires s.Nominal?
    ensures Subterms(Union([s, t]), env) == {Close(Union([s, t]), 0, env)} + ({s} + Subterms(t, env))
  {
    var ms := [s, t];
    assert ms[1..] == [t] && ms[1..][1..] == [];
    assert SubtermsAll(ms, env) == Subterms(s, env) + SubtermsAll(ms[1..], env);
    assert SubtermsAll(ms[1..], env) == Subterms(t, env) + SubtermsAll([], env);
    assert Subterms(s, env) == {s};
  }

  lemma TreeSubterms(nil: nat)
    ensures RoseTree(nil) in Subterms(RoseTree(nil), []) && ListOf(nil, RoseTree(nil)) in Subterms(RoseTree(nil), [])
    ensures forall u :: u in Subterms(RoseTree(nil), []) && u.Recursive? ==> u == RoseTree(nil) || u == ListOf(nil, RoseTree(nil))
  {
    var t, l := RoseTree(nil), ListOf(nil, RecursiveRef(1));
    var fs := [Field(StrKey("kids"), l)];
    CloseNothing(t, 0);
    CloseList(nil, t);
    ListSubterms(nil, t);
    assert [t] + [] == [t];
    assert ListOf(nil, t) in SubtermsField(fs[0], [t]);
    assert SubtermsFields(fs, [t]) == SubtermsField(fs[0], [t]) + SubtermsFields(fs[1..], [t]);
    assert Subterms(t.body, [t]) == {Close(t.body, 0, [t])} + (SubtermsFields(fs, [t]) + SubtermsTail(Closed));
  }

  lemma KeysCoded()
    ensures CodedKey(StrKey("kids")) && CodedKey(StrKey("head")) && CodedKey(StrKey("tail"))
  {
  }

  lemma ListCoded(nil: nat, e: Ty)
    requires Coded(e)
    ensures Coded(ListOf(nil, e))
  {
    var fs := Cell(e).fields;
    KeysCoded();
    assert CodedField(fs[0]) && CodedField(fs[1]);
    assert Coded(Cell(e)) && Coded(Nominal(nil));
  }

  lemma ListTight(nil: nat)
    ensures Tight(ListOf(nil, RecursiveRef(1)), 1)
  {
    var fs := Cell(RecursiveRef(1)).fields;
    assert TightField(fs[0], 2) && TightField(fs[1], 2) && TightTail(Closed);
    assert Tight(Cell(RecursiveRef(1)), 2) && Tight(Nominal(nil), 2);
  }

  lemma TreeTight(nil: nat)
    ensures Tight(RoseTree(nil), 0)
  {
    ListTight(nil);
    assert TightField(Field(StrKey("kids"), ListOf(nil, RecursiveRef(1))), 1) && TightTail(Closed);
  }

  lemma TreeCoded(nil: nat)
    ensures Coded(RoseTree(nil)) && Coded(ListOf(nil, RoseTree(nil)))
  {
    KeysCoded();
    ListCoded(nil, RecursiveRef(1));
    assert CodedField(Field(StrKey("kids"), ListOf(nil, RecursiveRef(1))));
    ListCoded(nil, RoseTree(nil));
  }

  /** A tree holds lists of trees: two recursive types, one inside the other. */
  lemma TreesOfLists(nil: nat)
    ensures var t := RoseTree(nil);
      Tight(t, 0) && t in MetTypes(t, t) && ListOf(nil, t) in MetTypes(t, t) && CodedRun(t, t) && ErasuresApart(t, t)
  {
    var t := RoseTree(nil);
    TreeTight(nil);
    TreeCoded(nil);
    TreeSubterms(nil);
    ErasedBody(t.body);
    ErasedBody(ListOf(nil, t).body);
    LosslessIff(t, t);
  }

  lemma ErasedBody(body: Ty)
    ensures Erase(Recursive(body), 0) == Recursive(Erase(body, 1))
    ensures Erase(body, 1).Record? == body.Record? && Erase(body, 1).Union? == body.Union?
  {
  }

  // ---------- a uniform tail is not in the fingerprint ----------

  /** `mu _. { _: t }` */
  function Map(t: Ty): Ty {
    Recursive(Record([], Uniform(t)))
  }

  lemma UnfoldMap(t: Ty)
    ensures UnfoldTy(Map(t)) == Record([], Uniform(t))
  {
  }

  lemma MapStep(s: Ty, t: Ty, ctx: Ctx, depth: nat, sigma: Sigma)
    requires 1 <= ctx.cap && depth + 1 < ctx.limit
    ensures IsSubtype(Map(s), Map(t), ctx, depth, sigma)
       <==> (ctx.key(Map(s)), ctx.key(Map(t))) in sigma
            || IsSubtype(s, t, ctx, depth + 2, sigma + {(ctx.key(Map(s)), ctx.key(Map(t)))})
  {
    var sigma' := sigma + {(ctx.key(Map(s)), ctx.key(Map(t)))};
    AtomQuestion(Map(s), Map(t), ctx, depth, sigma);
    RecursiveVerdict(Map(s), Map(t), ctx, depth, sigma);
    UnfoldMap(s);
    UnfoldMap(t);
    var a, b := Record([], Uniform(s)), Record([], Uniform(t));
    AtomQuestion(a, b, ctx, depth + 1, sigma');
    assert AtomSubtype(a, b, ctx, depth + 1, sigma').ok == RecordSubtype(a, b, ctx, depth + 1, sigma');
    assert RecordSubtype(a, b, ctx, depth + 1, sigma') == TailSubtype(a, b, ctx, depth + 1, sigma');
  }

  lemma MapUpTo(n: nat, s: Ty, t: Ty, env: TyConEnv)
    ensures SubUpTo(n + 2, Map(s), Map(t), env) <==> SubUpTo(n, s, t, env)
  {
    UnfoldMap(s);
    UnfoldMap(t);
    var a, b := Record([], Uniform(s)), Record([], Uniform(t));
    assert SubUpTo(n + 2, Map(s), Map(t), env) == SubUpTo(n + 1, a, b, env);
    assert RecordUpTo(n + 1, a, b, env) == SubUpTo(n, s, t, env);
  }

  /** As the program runs, `Map(Map(i)) <: Map(Map(j))` is accepted for different nominal types: the
      hypothesis made for the outer pair answers for the inner one. */
  lemma UniformTailUnsound(i: nat, j: nat, env: TyConEnv)
    requires i != j
    ensures var sub, sup := Map(Map(Nominal(i))), Map(Map(Nominal(j)));
      && Plain(sub) && Plain(sup)
      && IsSubtypeBas(sub, sup, SourceCtx(env), false)
      && !SubUpTo(5, sub, sup, env)
  {
    MapsAccepted(Nominal(i), Nominal(j), env);
    MapUpTo(3, Map(Nominal(i)), Map(Nominal(j)), env);
    MapUpTo(1, Nominal(i), Nominal(j), env);
    MapPlain(Nominal(i));
    MapPlain(Nominal(j));
    MapPlain(Map(Nominal(i)));
    MapPlain(Map(Nominal(j)));
  }

  lemma MapPlain(t: Ty)
    requires Plain(t)
    ensures Plain(Map(t))
  {
    assert PlainTail(Uniform(t));
  }

  lemma MapsAccepted(s: Ty, t: Ty, env: TyConEnv)
    ensures IsSubtypeBas(Map(Map(s)), Map(Map(t)), SourceCtx(env), false)
  {
    var ctx := SourceCtx(env);
    UniformKeys(Map(s), s, env);
    UniformKeys(Map(t), t, env);
    MapStep(Map(s), Map(t), ctx, 0, {});
    MapStep(s, t, ctx, 2, {} + {(ctx.key(Map(Map(s))), ctx.key(Map(Map(t))))});
  }

  lemma UniformKeys(s: Ty, t: Ty, env: TyConEnv)
    ensures SourceCtx(env).key(Map(s)) == SourceCtx(env).key(Map(t))
  {
    assert Print(Record([], Uniform(s)), 1, env) == Print(Record([], Uniform(t)), 1, env);
  }

  // ---------- neither is anything below the depth bound ----------

  /** `n` nested types `mu _. { x: ... }` around `t`. */
  function Nest(n: nat, t: Ty): Ty {
    if n == 0 then t else Recursive(Record([Field(StrKey("x"), Nest(n - 1, t))], Closed))
  }

  function Box(n: nat, v: Value): Value {
    if n == 0 then v else VRecord([Entry(StrKey("x"), Box(n - 1, v))])
  }

  lemma {:induction false} SubstNest(n: nat, t: Ty, k: nat, r: Ty)
    requires t.Nominal?
    ensures Subst(Nest(n, t), k, r) == Nest(n, t)
  {
    if n > 0 {
      SubstNest(n - 1, t, k + 1, r);
      var fields := [Field(StrKey("x"), Nest(n - 1, t))];
      var fs := SubstFields(fields, k + 1, r);
      assert fs[0] == SubstField(fields[0], k + 1, r) == fields[0];
      assert fs == fields;
    }
  }

  lemma UnfoldNest(n: nat, t: Ty)
    requires n > 0 && t.Nominal?
    ensures UnfoldTy(Nest(n, t)) == Record([Field(StrKey("x"), Nest(n - 1, t))], Closed)
  {
    SubstNest(n - 1, t, 0, Nest(n, t));
    var fields := [Field(StrKey("x"), Nest(n - 1, t))];
    var fs := SubstFields(fields, 0, Nest(n, t));
    assert fs[0] == SubstField(fields[0], 0, Nest(n, t)) == fields[0];
    assert fs == fields;
  }

  /** Texts agree as soon as both types reach the bound. */
  lemma {:induction false} NestText(m: nat, n: nat, s: Ty, t: Ty, depth: nat, env: TyConEnv)
    requires depth + 2 * m >= MAX_FINGERPRINT_DEPTH && depth + 2 * n >= MAX_FINGERPRINT_DEPTH
    ensures Print(Nest(m, s), depth, env) == Print(Nest(n, t), depth, env)
    decreases m
  {
    if depth < MAX_FINGERPRINT_DEPTH {
      NestText(m - 1, n - 1, s, t, depth + 2, env);
      LayerText(Nest(m - 1, s), Nest(n - 1, t), depth, env);
    }
  }

  lemma LayerText(s: Ty, t: Ty, depth: nat, env: TyConEnv)
    requires Print(s, depth + 2, env) == Print(t, depth + 2, env)
    ensures Print(Recursive(Record([Field(StrKey("x"), s)], Closed)), depth, env)
         == Print(Recursive(Record([Field(StrKey("x"), t)], Closed)), depth, env)
  {
    BoxText(s, t, depth + 1, env);
  }

  lemma BoxText(s: Ty, t: Ty, depth: nat, env: TyConEnv)
    requires Print(s, depth + 1, env) == Print(t, depth + 1, env)
    ensures Print(Record([Field(StrKey("x"), s)], Closed), depth, env) == Print(Record([Field(StrKey("x"), t)], Closed), depth, env)
  {
    var fs, gs := [Field(StrKey("x"), s)], [Field(StrKey("x"), t)];
    assert PrintField(fs[0], depth + 1, env) == PrintField(gs[0], depth + 1, env);
    assert PrintFields(fs, depth + 1, env) == PrintFields(gs, depth + 1, env);
  }

  lemma NestStep(m: nat, n: nat, s: Ty, t: Ty, ctx: Ctx, depth: nat, sigma: Sigma)
    requires 1 <= ctx.cap && depth + 1 < ctx.limit && m > 0 && n > 0 && s.Nominal? && t.Nominal?
    ensures IsSubtype(Nest(m, s), Nest(n, t), ctx, depth, sigma)
       <==> (ctx.key(Nest(m, s)), ctx.key(Nest(n, t))) in sigma
            || IsSubtype(Nest(m - 1, s), Nest(n - 1, t), ctx, depth + 2,
                         sigma + {(ctx.key(Nest(m, s)), ctx.key(Nest(n, t)))})
  {
    var sigma' := sigma + {(ctx.key(Nest(m, s)), ctx.key(Nest(n, t)))};
    AtomQuestion(Nest(m, s), Nest(n, t), ctx, depth, sigma);
    RecursiveVerdict(Nest(m, s), Nest(n, t), ctx, depth, sigma);
    UnfoldNest(m, s);
    UnfoldNest(n, t);
    BoxRecords(Nest(m - 1, s), Nest(n - 1, t), ctx, depth + 1, sigma');
  }

  lemma BoxRecords(s: Ty, t: Ty, ctx: Ctx, depth: nat, sigma: Sigma)
    requires 1 <= ctx.cap && depth < ctx.limit
    ensures IsSubtype(Record([Field(StrKey("x"), s)], Closed), Record([Field(StrKey("x"), t)], Closed), ctx, depth, sigma)
       <==> IsSubtype(s, t, ctx, depth + 1, sigma)
  {
    var fs, gs := [Field(StrKey("x"), s)], [Field(StrKey("x"), t)];
    var a, b := Record(fs, Closed), Record(gs, Closed);
    AtomQuestion(a, b, ctx, depth, sigma);
    assert AtomSubtype(a, b, ctx, depth, sigma).ok == RecordSubtype(a, b, ctx, depth, sigma);
    assert gs[1..] == [] && Lookup(fs, StrKey("x")) == Some(s);
    assert FieldsSubtype(fs, gs[1..], ctx, depth, sigma) && TailSubtype(a, b, ctx, depth, sigma);
    assert RecordSubtype(a, b, ctx, depth, sigma) == FieldsSubtype(fs, gs, ctx, depth, sigma);
    assert FieldsSubtype(fs, gs, ctx, depth, sigma) == IsSubtype(s, t, ctx, depth + 1, sigma);
  }

  lemma {:induction false} NestConditions(n: nat, t: Ty, cap: nat)
    requires t.Nominal?
    ensures Guarded(Nest(n, t), 0) && DeepCapFree(Nest(n, t), cap) && HasNoNeg(Nest(n, t))
    decreases n
  {
    if n > 0 {
      NestConditions(n - 1, t, cap);
      var f := Field(StrKey("x"), Nest(n - 1, t));
      GuardedWeaken(Nest(n - 1, t), 0, 1);
      assert GuardedField(f, 1) && DeepCapFreeField(f, cap) && HasNoNegField(f);
      var r := Record([f], Closed);
      assert Guarded(r, 1) && DeepCapFree(r, cap) && HasNoNeg(r);
    }
  }

  lemma {:induction false} InNest(n: nat, t: Ty, v: Value)
    requires t.Nominal?
    ensures Guarded(Nest(n, t), 0) && (In(Box(n, v), Nest(n, t)) <==> In(v, t))
    decreases n
  {
    NestConditions(n, t, 0);
    if n > 0 {
      InNest(n - 1, t, v);
      UnfoldNest(n, t);
      UnfoldGuarded(Nest(n, t));
      BoxIn(Nest(n - 1, t), Box(n - 1, v));
    }
  }

  lemma BoxIn(t: Ty, v: Value)
    requires Guarded(t, 0)
    ensures var r := Record([Field(StrKey("x"), t)], Closed);
      Guarded(r, 0) && (In(VRecord([Entry(StrKey("x"), v)]), r) <==> In(v, t))
  {
    var r, b := Record([Field(StrKey("x"), t)], Closed), VRecord([Entry(StrKey("x"), v)]);
    assert GuardedField(r.fields[0], 0);
    assert FindEntry(b.entries, StrKey("x")) == Some(v);
  }

  /** Beyond the bound any two such types are accepted. */
  lemma NestAccepted(n: nat, s: Ty, t: Ty, env: TyConEnv)
    requires 2 * n > MAX_FINGERPRINT_DEPTH && s.Nominal? && t.Nominal?
    ensures IsSubtypeBas(Nest(n, s), Nest(n, t), SourceCtx(env), false)
  {
    NestKeys(n, s, env);
    NestKeys(n, t, env);
    NestRepeats(n, s, t, SourceCtx(env));
  }

  lemma NestKeys(n: nat, t: Ty, env: TyConEnv)
    requires 2 * n > MAX_FINGERPRINT_DEPTH
    ensures SourceCtx(env).key(Nest(n, t)) == SourceCtx(env).key(Nest(n - 1, t))
  {
    NestText(n, n - 1, t, t, 0, env);
  }

  lemma NestKnown(n: nat, s: Ty, t: Ty, ctx: Ctx, depth: nat, sigma: Sigma)
    requires 1 <= ctx.cap && depth + 1 < ctx.limit && n > 0 && s.Nominal? && t.Nominal?
    requires (ctx.key(Nest(n, s)), ctx.key(Nest(n, t))) in sigma
    ensures IsSubtype(Nest(n, s), Nest(n, t), ctx, depth, sigma)
  {
    NestStep(n, n, s, t, ctx, depth, sigma);
  }

  /** Two levels with the same keys: the second is answered by the first. */
  lemma NestRepeats(n: nat, s: Ty, t: Ty, ctx: Ctx)
    requires 1 <= ctx.cap && 3 < ctx.limit && n > 1 && s.Nominal? && t.Nominal?
    requires ctx.key(Nest(n, s)) == ctx.key(Nest(n - 1, s)) && ctx.key(Nest(n, t)) == ctx.key(Nest(n - 1, t))
    ensures IsSubtypeBas(Nest(n, s), Nest(n, t), ctx, false)
  {
    var sigma := {} + {(ctx.key(Nest(n, s)), ctx.key(Nest(n, t)))};
    NestKnown(n - 1, s, t, ctx, 2, sigma);
    NestStep(n, n, s, t, ctx, 0, {});
  }

  /** As the program runs, 33 or more nested types around Int are accepted below as many around
      String, although the boxed 0 is only in the left: at the second level the texts agree with
      those of the first. */
  lemma DeepTypesUnsound(n: nat, env: TyConEnv)
    requires 2 * n > MAX_FINGERPRINT_DEPTH
    ensures var sub, sup := Nest(n, Nominal(TYPE_ID_INT)), Nest(n, Nominal(TYPE_ID_STRING));
      && Guarded(sub, 0) && Guarded(sup, 0) && HasNoNeg(sub) && HasNoNeg(sup)
      && DeepCapFree(sub, MAX_RDNF_CONJUNCTIONS) && DeepCapFree(sup, MAX_RDNF_CONJUNCTIONS)
      && IsSubtypeBas(sub, sup, SourceCtx(env), false)
      && In(Box(n, VInt(0)), sub) && !In(Box(n, VInt(0)), sup)
  {
    NestConditions(n, Nominal(TYPE_ID_INT), MAX_RDNF_CONJUNCTIONS);
    NestConditions(n, Nominal(TYPE_ID_STRING), MAX_RDNF_CONJUNCTIONS);
    InNest(n, Nominal(TYPE_ID_INT), VInt(0));
    InNest(n, Nominal(TYPE_ID_STRING), VInt(0));
    NestAccepted(n, Nominal(TYPE_ID_INT), Nominal(TYPE_ID_STRING), env);
  }
}
