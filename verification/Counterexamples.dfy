/** Where the checker accepts more than the values justify: each lemma gives a concrete pair,
    and shows why the corresponding condition of `AcceptanceSound` is there. */
module Counterexamples {
  import opened Wrappers
  import opened Types
  import opened Rdnf
  import opened Unfold
  import opened Subtype
  import opened Emptiness
  import opened AtomQuestions
  import opened Values

  const X := StrKey("x")
  const A := StrKey("a")

  predicate UserType(id: nat) { id !in {TYPE_ID_INT, TYPE_ID_STRING, TYPE_ID_FLOAT} }

  // ---------- failed hypotheses stay in the set ----------

  /** `mu X. (N | { x: X, a: T })` */
  function Chain(n: nat, t: nat): Ty {
    Recursive(Union([Nominal(n), Record([Field(X, RecursiveRef(0)), Field(A, Nominal(t))], Closed)]))
  }

  function ChainRecord(n: nat, t: nat): Ty {
    Record([Field(X, Chain(n, t)), Field(A, Nominal(t))], Closed)
  }

  /** `mu _. (N | { x: Chain(n, t) })` */
  function Wrap(n: nat, t: nat): Ty {
    Recursive(Union([Nominal(n), WrapRecord(n, t)]))
  }

  function WrapRecord(n: nat, t: nat): Ty {
    Record([Field(X, Chain(n, t))], Closed)
  }

  lemma UnfoldChain(n: nat, t: nat)
    ensures UnfoldTy(Chain(n, t)) == Union([Nominal(n), ChainRecord(n, t)])
  {
    var r, c := Record([Field(X, RecursiveRef(0)), Field(A, Nominal(t))], Closed), Chain(n, t);
    var fs := SubstFields(r.fields, 0, c);
    assert fs[0] == SubstField(r.fields[0], 0, c) == Field(X, c) && fs[1] == SubstField(r.fields[1], 0, c) == r.fields[1];
    assert fs == [Field(X, c), Field(A, Nominal(t))];
    assert SubstAll([Nominal(n), r], 0, c) == [Nominal(n), ChainRecord(n, t)];
  }

  lemma SubstChainRecord(t: nat, k: nat, r: Ty)
    requires k > 0
    ensures var body := Record([Field(X, RecursiveRef(0)), Field(A, Nominal(t))], Closed);
      Subst(body, k, r) == body
  {
    var fields := [Field(X, RecursiveRef(0)), Field(A, Nominal(t))];
    var fs := SubstFields(fields, k, r);
    assert fs[0] == SubstField(fields[0], k, r) == fields[0] && fs[1] == SubstField(fields[1], k, r) == fields[1];
    assert fs == fields;
  }

  lemma SubstChain(n: nat, t: nat, k: nat, r: Ty)
    ensures Subst(Chain(n, t), k, r) == Chain(n, t)
  {
    var body := Record([Field(X, RecursiveRef(0)), Field(A, Nominal(t))], Closed);
    SubstChainRecord(t, k + 1, r);
    assert SubstAll([Nominal(n), body], k + 1, r) == [Nominal(n), body];
  }

  lemma UnfoldWrap(n: nat, t: nat)
    ensures UnfoldTy(Wrap(n, t)) == Union([Nominal(n), WrapRecord(n, t)])
  {
    SubstChain(n, t, 0, Wrap(n, t));
    assert SubstFields([Field(X, Chain(n, t))], 0, Wrap(n, t)) == [Field(X, Chain(n, t))];
    assert SubstAll([Nominal(n), WrapRecord(n, t)], 0, Wrap(n, t)) == [Nominal(n), WrapRecord(n, t)];
  }

  lemma NominalAtom(n: nat, m: nat, ctx: Ctx, depth: nat, sigma: Sigma)
    requires depth < ctx.limit
    ensures AtomSubtype(Nominal(n), Nominal(m), ctx, depth, sigma) == Verdict(n == m, sigma)
  {
  }

  lemma RecordNominal(r: Ty, n: nat, s: Ty, ctx: Ctx, depth: nat, sigma: Sigma)
    requires r.Record? && s.Record? && depth < ctx.limit
    ensures SubsumedBy(r, [Nominal(n), s], ctx, depth, sigma).ok <==> RecordSubtype(r, s, ctx, depth, sigma)
  {
    var right := [Nominal(n), s];
    assert AtomSubtype(r, Nominal(n), ctx, depth, sigma) == Verdict(false, sigma);
    assert right[1..] == [s];
    SubsumedByOne(r, s, ctx, depth, sigma);
    assert SubsumedBy(r, right, ctx, depth, sigma) == SubsumedBy(r, right[1..], ctx, depth, sigma);
  }

  /** Two atoms on each side: the first left atom meets the first right one, so the question is
      about the second left atom. */
  lemma SecondAtomDecides(n: nat, r: Ty, s: Ty, ctx: Ctx, depth: nat, sigma: Sigma)
    requires r.Record? && s.Record? && depth < ctx.limit && 2 <= ctx.cap
    ensures IsSubtype(Union([Nominal(n), r]), Union([Nominal(n), s]), ctx, depth, sigma)
       <==> RecordSubtype(r, s, ctx, depth, sigma)
  {
    var left, right := [Nominal(n), r], [Nominal(n), s];
    UnionOfAtoms(left, ctx.cap);
    UnionOfAtoms(right, ctx.cap);
    RowsQuestion(Union(left), Union(right), left, right, ctx, depth, sigma);
    RecordNominal(r, n, s, ctx, depth, sigma);
    NominalAtom(n, n, ctx, depth, sigma);
    assert SubsumedBy(left[0], right, ctx, depth, sigma) == AtomSubtype(left[0], right[0], ctx, depth, sigma);
    assert left[1] == r;
  }

  lemma ChainFieldsDiffer(n: nat, t: nat, u: nat, ctx: Ctx, depth: nat, sigma: Sigma)
    requires t != u && depth + 1 < ctx.limit && 1 <= ctx.cap
    ensures !RecordSubtype(ChainRecord(n, t), ChainRecord(n, u), ctx, depth, sigma)
  {
    var r, s := ChainRecord(n, t), ChainRecord(n, u);
    AtomQuestion(Nominal(t), Nominal(u), ctx, depth + 1, sigma);
    assert r.fields[1..] == [Field(A, Nominal(t))];
    assert Lookup(r.fields, A) == Lookup(r.fields[1..], A) == Some(Nominal(t));
    assert s.fields[1..] == [Field(A, Nominal(u))];
    assert !FieldsSubtype(r.fields, s.fields[1..], ctx, depth, sigma);
  }

  /** Comparing the two chains fails, and leaves its hypothesis behind. */
  lemma ChainsRejected(n: nat, t: nat, u: nat, ctx: Ctx)
    requires t != u && 3 <= ctx.limit && 2 <= ctx.cap
    ensures AtomSubtype(Chain(n, t), Chain(n, u), ctx, 0, {})
         == Verdict(false, {(ctx.key(Chain(n, t)), ctx.key(Chain(n, u)))})
  {
    var sigma := {(ctx.key(Chain(n, t)), ctx.key(Chain(n, u)))};
    UnfoldChain(n, t);
    UnfoldChain(n, u);
    SecondAtomDecides(n, ChainRecord(n, t), ChainRecord(n, u), ctx, 1, sigma);
    ChainFieldsDiffer(n, t, u, ctx, 1, sigma);
    RecursiveVerdict(Chain(n, t), Chain(n, u), ctx, 0, {});
    assert {} + sigma == sigma;
  }

  /** The same comparison one level down is then taken for granted. */
  lemma WrapAccepted(n: nat, t: nat, u: nat, ctx: Ctx, sigma: Sigma)
    requires 3 <= ctx.limit && 2 <= ctx.cap
    requires (ctx.key(Chain(n, t)), ctx.key(Chain(n, u))) in sigma
    ensures AtomSubtype(Chain(n, t), Wrap(n, u), ctx, 0, sigma).ok
  {
    var sigma' := sigma + {(ctx.key(Chain(n, t)), ctx.key(Wrap(n, u)))};
    UnfoldChain(n, t);
    UnfoldWrap(n, u);
    SecondAtomDecides(n, ChainRecord(n, t), WrapRecord(n, u), ctx, 1, sigma');
    AtomQuestion(Chain(n, t), Chain(n, u), ctx, 2, sigma');
    var r, s := ChainRecord(n, t), WrapRecord(n, u);
    assert Lookup(r.fields, X) == Some(Chain(n, t));
    assert s.fields[1..] == [];
    assert FieldsSubtype(r.fields, s.fields, ctx, 1, sigma');
    RecursiveVerdict(Chain(n, t), Wrap(n, u), ctx, 0, sigma);
  }

  function Inner(n: nat): Value {
    VRecord([Entry(X, VNominal(n)), Entry(A, VInt(0))])
  }

  function Outer(n: nat): Value {
    VRecord([Entry(X, Inner(n)), Entry(A, VInt(0))])
  }

  lemma ChainGuarded(n: nat, t: nat)
    ensures Guarded(Chain(n, t), 0) && Guarded(ChainRecord(n, t), 0)
    ensures Guarded(Wrap(n, t), 0) && Guarded(WrapRecord(n, t), 0)
  {
    var r := Record([Field(X, RecursiveRef(0)), Field(A, Nominal(t))], Closed);
    assert GuardedField(Field(X, RecursiveRef(0)), 1) && GuardedField(Field(A, Nominal(t)), 1);
    assert Guarded(r, 1) && Guarded(Nominal(n), 1);
    assert Guarded(Union([Nominal(n), r]), 1);
    assert Guarded(Chain(n, t), 0);
    GuardedWeaken(Chain(n, t), 0, 1);
    forall k: nat | k <= 1 ensures Guarded(WrapRecord(n, t), k) && Guarded(Union([Nominal(n), WrapRecord(n, t)]), k) {
      assert GuardedField(Field(X, Chain(n, t)), k);
    }
    assert GuardedField(Field(A, Nominal(t)), 0) && GuardedField(Field(X, Chain(n, t)), 0);
  }

  lemma InUnionOfTwo(v: Value, s: Ty, t: Ty)
    requires Guarded(s, 0) && Guarded(t, 0)
    ensures Guarded(Union([s, t]), 0) && (In(v, Union([s, t])) <==> In(v, s) || In(v, t))
  {
    var u := Union([s, t]);
    assert forall m :: m in u.members <==> m == s || m == t;
    assert forall m :: m in u.members ==> !m.RecursiveRef?;
  }

  lemma FindBoth(x: Value, a: Value)
    ensures FindEntry([Entry(X, x), Entry(A, a)], X) == Some(x)
    ensures FindEntry([Entry(X, x), Entry(A, a)], A) == Some(a)
  {
    var es := [Entry(X, x), Entry(A, a)];
    assert es[1..] == [Entry(A, a)];
    assert FindEntry(es, A) == FindEntry(es[1..], A);
  }

  lemma InChainRecord(n: nat, t: nat, x: Value, a: Value)
    requires Guarded(ChainRecord(n, t), 0) && Guarded(Chain(n, t), 0)
    ensures In(VRecord([Entry(X, x), Entry(A, a)]), ChainRecord(n, t)) <==> In(x, Chain(n, t)) && In(a, Nominal(t))
  {
    FindBoth(x, a);
    var r := ChainRecord(n, t);
    assert r.fields[0] == Field(X, Chain(n, t)) && r.fields[1] == Field(A, Nominal(t)) && |r.fields| == 2;
  }

  /** Membership in an unfolded chain. */
  lemma InChain(n: nat, t: nat, x: Value, a: Value)
    requires UserType(n)
    ensures Guarded(Chain(n, t), 0) && In(VNominal(n), Chain(n, t))
    ensures In(VRecord([Entry(X, x), Entry(A, a)]), Chain(n, t)) <==> In(x, Chain(n, t)) && In(a, Nominal(t))
  {
    ChainGuarded(n, t);
    UnfoldChain(n, t);
    InUnionOfTwo(VNominal(n), Nominal(n), ChainRecord(n, t));
    InUnionOfTwo(VRecord([Entry(X, x), Entry(A, a)]), Nominal(n), ChainRecord(n, t));
    InChainRecord(n, t, x, a);
  }

  lemma InWrap(n: nat, t: nat, x: Value, a: Value)
    ensures Guarded(Wrap(n, t), 0) && Guarded(Chain(n, t), 0)
    ensures In(VRecord([Entry(X, x), Entry(A, a)]), Wrap(n, t)) ==> In(x, Chain(n, t))
  {
    ChainGuarded(n, t);
    UnfoldWrap(n, t);
    FindBoth(x, a);
    var v, r := VRecord([Entry(X, x), Entry(A, a)]), WrapRecord(n, t);
    InUnionOfTwo(v, Nominal(n), r);
    assert r.fields[0] == Field(X, Chain(n, t));
  }

  /** The checker's side of the story. */
  lemma FailedHypothesisAccepted(n: nat, t: nat, u: nat, ctx: Ctx)
    requires t != u && 3 <= ctx.limit && 2 <= ctx.cap
    ensures IsSubtypeBas(Chain(n, t), Union([Chain(n, u), Wrap(n, u)]), ctx, false)
  {
    var sub, sup, wrap := Chain(n, t), Chain(n, u), Wrap(n, u);
    var bs := [sup, wrap];
    assert PosRows([sub]) == [[Pos(sub)]];
    UnionOfAtoms(bs, ctx.cap);
    RowsQuestion(sub, Union(bs), [sub], bs, ctx, 0, {});
    ChainsRejected(n, t, u, ctx);
    var sigma := {(ctx.key(sub), ctx.key(sup))};
    WrapAccepted(n, t, u, ctx, sigma);
    assert bs[1..] == [wrap];
    SubsumedByOne(sub, wrap, ctx, 0, sigma);
    assert SubsumedBy(sub, bs, ctx, 0, {}) == SubsumedBy(sub, bs[1..], ctx, 0, sigma);
  }

  /** `Chain Int <: Chain Str | Wrap Str` is accepted, and a value of the left is in neither member:
      the failed comparison with `Chain Str` stays a hypothesis for the comparison with `Wrap Str`. */
  lemma FailedHypothesisUnsound(n: nat, ctx: Ctx)
    requires UserType(n) && 3 <= ctx.limit && 2 <= ctx.cap
    ensures var sub, sup := Chain(n, TYPE_ID_INT), Union([Chain(n, TYPE_ID_STRING), Wrap(n, TYPE_ID_STRING)]);
      && Guarded(sub, 0) && Guarded(sup, 0)
      && IsSubtypeBas(sub, sup, ctx, false)
      && In(Outer(n), sub) && !In(Outer(n), sup)
  {
    FailedHypothesisAccepted(n, TYPE_ID_INT, TYPE_ID_STRING, ctx);
    OuterValue(n);
    ChainGuarded(n, TYPE_ID_STRING);
    InUnionOfTwo(Outer(n), Chain(n, TYPE_ID_STRING), Wrap(n, TYPE_ID_STRING));
  }

  lemma OuterValue(n: nat)
    requires UserType(n)
    ensures Guarded(Chain(n, TYPE_ID_INT), 0) && Guarded(Chain(n, TYPE_ID_STRING), 0) && Guarded(Wrap(n, TYPE_ID_STRING), 0)
    ensures In(Outer(n), Chain(n, TYPE_ID_INT)) && !In(Outer(n), Chain(n, TYPE_ID_STRING))
    ensures !In(Outer(n), Wrap(n, TYPE_ID_STRING))
  {
    InChain(n, TYPE_ID_INT, VNominal(n), VInt(0));
    InChain(n, TYPE_ID_INT, Inner(n), VInt(0));
    InChain(n, TYPE_ID_STRING, VNominal(n), VInt(0));
    InChain(n, TYPE_ID_STRING, Inner(n), VInt(0));
    InWrap(n, TYPE_ID_STRING, Inner(n), VInt(0));
  }

  // ---------- a nominal type against a recursive type ----------

  lemma OneRowTimesTop(c: Conjunction, cap: nat)
    requires 1 <= cap
    ensures Distribute([c], TopRdnf, cap) == [c]
  {
    ProductSingle([c], []);
    assert Product([c], TopRdnf)[0] == c + [] == c;
  }

  lemma DisjointEmpty(p: Ty, q: Ty, ctx: Ctx, depth: nat, sigma: Sigma)
    requires AtomsDisjoint(p, q)
    ensures ConjunctionEmpty([Pos(p), Pos(q)], ctx, depth, sigma).ok
  {
    var both := [Pos(p), Pos(q)];
    SomeDisjointIff(both);
    assert Pos(p) in both && Pos(q) in both;
  }

  lemma DisjointAtomsAccepted(p: Ty, q: Ty, ctx: Ctx)
    requires !IsBoolean(p) && !IsBoolean(q) && AtomsDisjoint(p, q) && 1 <= ctx.cap
    ensures IsSubtypeBas(Inter([p, q]), Never, ctx, false)
  {
    var both := [Pos(p), Pos(q)];
    InterOfTwoAtoms(p, q, ctx.cap);
    DiffRdnf(Inter([p, q]), Never, ctx.cap);
    OneRowTimesTop(both, ctx.cap);
    var diff := Distribute([both], TopRdnf, ctx.cap);
    RdnfEmptyIff(diff, ctx, 0, {});
    DisjointEmpty(p, q, ctx, 0, {});
  }

  /** A nominal type is declared disjoint from every recursive type, also from one that has it as
      a member: their intersection is accepted below Never although it has a value. */
  lemma NominalRecursiveUnsound(n: nat, t: nat, ctx: Ctx)
    requires UserType(n) && 1 <= ctx.cap
    ensures IsSubtypeBas(Inter([Nominal(n), Chain(n, t)]), Never, ctx, false)
    ensures var both := Inter([Nominal(n), Chain(n, t)]);
      Guarded(both, 0) && In(VNominal(n), both)
  {
    DisjointAtomsAccepted(Nominal(n), Chain(n, t), ctx);
    InChain(n, t, VNominal(n), VInt(0));
  }

  lemma NegateOne(s: Signed, cap: nat)
    requires 1 <= cap
    ensures Negate([[s]], cap) == [[s.Negate()]]
  {
    var singles, rows := NegateAtoms([s]), [[s]];
    assert singles == [[s.Negate()]] && rows[1..] == [];
    ProductSingle(TopRdnf, [s.Negate()]);
    assert Product(TopRdnf, singles)[0] == [] + [s.Negate()] == [s.Negate()];
    assert Distribute(TopRdnf, singles, cap) == [[s.Negate()]];
    assert NegateFrom([[s.Negate()]], rows[1..], cap) == [[s.Negate()]];
  }

  /** An atom is accepted below the negation of another exactly when the two are declared disjoint. */
  lemma BelowNegationIff(p: Ty, q: Ty, ctx: Ctx)
    requires !IsBoolean(p) && !IsBoolean(q) && !p.Var? && 1 <= ctx.cap
    ensures IsSubtypeBas(p, Neg(q), ctx, false) <==> AtomsDisjoint(p, q)
  {
    NegateOne(Pos(q), ctx.cap);
    NegateOne(NegAtom(q), ctx.cap);
    DiffRdnf(p, Neg(q), ctx.cap);
    ProductSingle([[Pos(p)]], [Pos(q)]);
    var diff := Distribute([[Pos(p)]], [[Pos(q)]], ctx.cap);
    assert diff[0] == [Pos(p)] + [Pos(q)] == [Pos(p), Pos(q)];
    RdnfEmptyIff(diff, ctx, 0, {});
    PairEmptyIff(p, q, ctx, 0, {});
  }

  lemma PairEmptyIff(p: Ty, q: Ty, ctx: Ctx, depth: nat, sigma: Sigma)
    ensures ConjunctionEmpty([Pos(p), Pos(q)], ctx, depth, sigma).ok <==> AtomsDisjoint(p, q)
  {
    var both := [Pos(p), Pos(q)];
    SignedPositives(both);
    assert Pos(p) in both && Pos(q) in both;
    SomeDisjointIff(both);
    DisjointIrreflexive(p);
    DisjointIrreflexive(q);
    DisjointSymmetric(p, q);
    NothingSubsumed(Positives(both), ctx, depth, sigma);
  }

  lemma {:induction false} NothingSubsumed(pos: seq<Ty>, ctx: Ctx, depth: nat, sigma: Sigma)
    ensures !SomeSubsumed(pos, [], ctx, depth, sigma).ok
    decreases |pos|
  {
    if pos != [] { NothingSubsumed(pos[1..], ctx, depth, sigma); }
  }

  /** So a recursive type is below the negation of one of its members: with `Neg` and recursion together
      acceptance is unsound. */
  lemma NegRecursiveUnsound(n: nat, t: nat, ctx: Ctx)
    requires UserType(n) && 1 <= ctx.cap
    ensures var sub, sup := Chain(n, t), Neg(Nominal(n));
      Guarded(sub, 0) && IsSubtypeBas(sub, sup, ctx, false) && In(VNominal(n), sub) && !In(VNominal(n), sup)
  {
    BelowNegationIff(Chain(n, t), Nominal(n), ctx);
    InChain(n, t, VNominal(n), VInt(0));
  }

  // ---------- the cap beneath a negation ----------

  function Copies(m: nat, t: Ty): seq<Ty> {
    if m == 0 then [] else [t] + Copies(m - 1, t)
  }

  /** `s` doubled `m` times. */
  function Doubled(s: nat, m: nat): nat
    decreases m
  {
    if m == 0 then s else Doubled(2 * s, m - 1)
  }

  lemma {:induction false} DoubledGrows(s: nat, m: nat)
    ensures s <= Doubled(s, m)
    decreases m
  {
    if m > 0 { DoubledGrows(2 * s, m - 1); }
  }

  lemma {:induction false} CopiesAll(m: nat, t: Ty)
    ensures |Copies(m, t)| == m && forall u :: u in Copies(m, t) ==> u == t
  {
    if m > 0 { CopiesAll(m - 1, t); }
  }

  lemma {:induction false} ProductOfTwo(left: Rdnf, right: Rdnf)
    requires |right| == 2
    ensures |Product(left, right)| == 2 * |left|
  {
    if left != [] {
      ProductOfTwo(left[..|left| - 1], right);
    }
  }

  /** Each two-member union doubles the rows until the cap makes the whole form Top. */
  lemma {:induction false} DoublingHitsCap(acc: Rdnf, m: nat, t: Ty, cap: nat)
    requires 1 <= m && acc != [] && |ToRdnf(t, cap)| == 2
    requires Doubled(|acc|, m - 1) <= cap < Doubled(|acc|, m)
    ensures InterFrom(acc, Copies(m, t), cap) == TopRdnf
    decreases m
  {
    var ts := Copies(m, t);
    assert ts[0] == t && ts[1..] == Copies(m - 1, t);
    var right := ToRdnf(t, cap);
    var next := Distribute(acc, right, cap);
    assert |acc| * |right| == 2 * |acc|;
    if m == 1 {
      assert Doubled(|acc|, 1) == Doubled(2 * |acc|, 0) == 2 * |acc|;
      assert next == TopRdnf;
      assert InterFrom(next, ts[1..], cap) == next;
    } else {
      DoubledGrows(2 * |acc|, m - 2);
      ProductOfTwo(acc, right);
      assert next == Product(acc, right);
      DoublingHitsCap(next, m - 1, t, cap);
    }
  }

  lemma NegationOfTop(sub: Ty, sup: Ty, ctx: Ctx)
    requires ToRdnf(sup, ctx.cap) == TopRdnf && !sub.Error? && !sub.Unknown? && sup.Inter?
    ensures IsSubtypeBas(sub, sup, ctx, false)
  {
    DiffRdnf(sub, sup, ctx.cap);
    assert Negate(TopRdnf, ctx.cap) == [];
  }

  lemma InterFolds(ts: seq<Ty>, cap: nat)
    requires ts != []
    ensures ToRdnf(Inter(ts), cap) == InterFrom(ToRdnf(ts[0], cap), ts[1..], cap)
  {
  }

  lemma ManyUnions(m: nat, u: Ty, cap: nat)
    requires 1 <= m && |ToRdnf(u, cap)| == 2
    requires Doubled(2, m - 1) <= cap < Doubled(2, m)
    ensures ToRdnf(Inter(Copies(m + 1, u)), cap) == TopRdnf
  {
    var ts := Copies(m + 1, u);
    assert ts == [u] + Copies(m, u);
    InterFolds(ts, cap);
    assert ts[0] == u && ts[1..] == Copies(m, u);
    DoublingHitsCap(ToRdnf(u, cap), m, u, cap);
  }

  lemma DoubledTen()
    ensures Doubled(2, 9) == 1024 && Doubled(2, 10) == 2048
  {
    assert Doubled(2, 9) == Doubled(4, 8) == Doubled(8, 7) == Doubled(16, 6) == Doubled(32, 5);
    assert Doubled(32, 5) == Doubled(64, 4) == Doubled(128, 3) == Doubled(256, 2) == Doubled(512, 1) == 1024;
    assert Doubled(4, 9) == Doubled(8, 8) == Doubled(16, 7) == Doubled(32, 6) == Doubled(64, 5);
    assert Doubled(64, 5) == Doubled(128, 4) == Doubled(256, 3) == Doubled(512, 2) == Doubled(1024, 1) == 2048;
  }

  lemma CappedAccepted(p: Ty, u: Ty, ctx: Ctx)
    requires ctx.cap == MAX_RDNF_CONJUNCTIONS && |ToRdnf(u, ctx.cap)| == 2 && !p.Error? && !p.Unknown?
    ensures IsSubtypeBas(p, Inter(Copies(11, u)), ctx, false)
  {
    DoubledTen();
    ManyUnions(10, u, ctx.cap);
    NegationOfTop(p, Inter(Copies(11, u)), ctx);
  }

  lemma InCopies(v: Value, m: nat, u: Ty)
    requires Guarded(u, 0) && Contractive(u)
    ensures Guarded(Inter(Copies(m + 1, u)), 0) && (In(v, Inter(Copies(m + 1, u))) ==> In(v, u))
  {
    CopiesAll(m + 1, u);
    assert Copies(m + 1, u)[0] in Copies(m + 1, u);
  }

  /** With the program's cap, an intersection of eleven two-member unions on the right normalises
      to Top, its negation to Never, and any nominal type is accepted below it. */
  lemma CapBeneathNegUnsound(a: nat, b: nat, c: nat, ctx: Ctx)
    requires ctx.cap == MAX_RDNF_CONJUNCTIONS && c != a && c != b && UserType(c)
    ensures var sup := Inter(Copies(11, Union([Nominal(a), Nominal(b)])));
      && IsSubtypeBas(Nominal(c), sup, ctx, false)
      && Guarded(sup, 0) && In(VNominal(c), Nominal(c)) && !In(VNominal(c), sup)
  {
    var u := Union([Nominal(a), Nominal(b)]);
    UnionOfAtoms(u.members, ctx.cap);
    CappedAccepted(Nominal(c), u, ctx);
    InUnionOfTwo(VNominal(c), Nominal(a), Nominal(b));
    InCopies(VNominal(c), 10, u);
  }
}
