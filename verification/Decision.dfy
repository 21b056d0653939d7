/** On the Boolean algebra over nominal types and integer literals the checker is a decision
    procedure for set inclusion; with the other literals, where no two unrelated ones meet. */
module Decision {
  import opened Types
  import opened Rdnf
  import opened RdnfMeaning
  import opened Subtype
  import opened Emptiness
  import opened Lattice
  import opened Values
  import opened Soundness
  import opened AtomQuestions

  predicate IsBasic(t: Ty) { t.Nominal? || IsLiteral(t) }

  /** Boolean combinations of nominal types and literals. */
  predicate BooleanOverBasics(t: Ty): (b: bool)
    ensures b ==> Guarded(t, 0) && Contractive(t)
  {
    match t
    case Top | Never | Nominal(_) | IntLit(_) | StrLit(_) | FloatLit(_) => true
    case Union(members) => forall m :: m in members ==> BooleanOverBasics(m)
    case Inter(members) => forall m :: m in members ==> BooleanOverBasics(m)
    case Neg(of) => BooleanOverBasics(of)
    case _ => false
  }

  /** The only literals in `t` are integer literals. */
  predicate OnlyInts(t: Ty) {
    match t
    case Union(members) => forall m :: m in members ==> OnlyInts(m)
    case Inter(members) => forall m :: m in members ==> OnlyInts(m)
    case Neg(of) => OnlyInts(of)
    case _ => IsLiteral(t) ==> t.IntLit?
  }

  ghost predicate OverBasics(rdnf: Rdnf) {
    forall c, s :: c in rdnf && s in c ==> IsBasic(s.atom)
  }

  lemma {:induction false} LeafOverBasics(a: Ty, t: Ty)
    requires BooleanOverBasics(t) && Leaf(a, t)
    ensures IsBasic(a) && (OnlyInts(t) ==> OnlyInts(a))
  {
    match t
    case Union(members) =>
      var m :| m in members && Leaf(a, m);
      LeafOverBasics(a, m);
    case Inter(members) =>
      var m :| m in members && Leaf(a, m);
      LeafOverBasics(a, m);
    case Neg(of) => LeafOverBasics(a, of);
    case _ =>
  }

  lemma RdnfOverBasics(t: Ty, cap: nat)
    requires BooleanOverBasics(t)
    ensures OverBasics(ToRdnf(t, cap))
  {
    forall c, s | c in ToRdnf(t, cap) && s in c ensures IsBasic(s.atom) {
      RdnfLeaves(t, cap, c, s);
      LeafOverBasics(s.atom, t);
    }
  }

  // ---------- witnesses for conjunctions that do not clash ----------

  function FreshInt(c: Conjunction): (n: int)
    ensures forall s :: s in c && s.atom.IntLit? ==> s.atom.n < n
  {
    if c == [] then 0
    else
      var n := FreshInt(c[1..]);
      if c[0].atom.IntLit? && c[0].atom.n >= n then c[0].atom.n + 1 else n
  }

  function FreshText(c: Conjunction): (t: string)
    ensures forall s :: s in c && s.atom.StrLit? ==> |s.atom.s| < |t|
  {
    if c == [] then ""
    else
      var t := FreshText(c[1..]);
      if c[0].atom.StrLit? && |c[0].atom.s| >= |t| then c[0].atom.s + "x" else t
  }

  function FreshBits(c: Conjunction): (n: nat)
    ensures forall s :: s in c && s.atom.FloatLit? ==> s.atom.bits < n
  {
    if c == [] then 0
    else
      var n := FreshBits(c[1..]);
      if c[0].atom.FloatLit? && c[0].atom.bits >= n then c[0].atom.bits + 1 else n
  }

  function FreshId(c: Conjunction): (id: nat)
    ensures id > TYPE_ID_STRING
    ensures forall s :: s in c && s.atom.Nominal? ==> s.atom.id < id
  {
    if c == [] then TYPE_ID_STRING + 1
    else
      var id := FreshId(c[1..]);
      if c[0].atom.Nominal? && c[0].atom.id >= id then c[0].atom.id + 1 else id
  }

  /** A value of the nominal type `id` that differs from every literal in `c`. */
  function NominalWitness(id: nat, c: Conjunction): Value {
    if id == TYPE_ID_INT then VInt(FreshInt(c))
    else if id == TYPE_ID_STRING then VStr(FreshText(c))
    else if id == TYPE_ID_FLOAT then VFloat(FreshBits(c))
    else VNominal(id)
  }

  function LiteralValue(t: Ty): Value
    requires IsLiteral(t)
  {
    match t
    case IntLit(n) => VInt(n)
    case StrLit(s) => VStr(s)
    case FloatLit(bits) => VFloat(bits)
  }

  /** Two different positive literals that nothing declares disjoint: they have no common value, and
      the row does not clash on their account. */
  ghost predicate BlindPair(c: Conjunction) {
    exists a, b :: Pos(a) in c && Pos(b) in c && IsLiteral(a) && IsLiteral(b) && a != b && !AtomsDisjoint(a, b)
  }

  lemma Unclashed(c: Conjunction, ctx: Ctx, depth: nat, sigma: Sigma, a: Ty, b: Ty)
    requires !Clashes(c, ctx, depth, sigma) && Pos(a) in c
    ensures Pos(b) in c ==> !AtomsDisjoint(a, b)
    ensures NegAtom(b) in c ==> !AtomSubtype(a, b, ctx, depth, sigma).ok
  {
  }

  lemma LiteralHolds(a: Ty, s: Signed, ctx: Ctx, depth: nat, sigma: Sigma)
    requires IsLiteral(a) && IsBasic(s.atom) && depth < ctx.limit
    requires s.Pos? ==> !AtomsDisjoint(a, s.atom) && (IsLiteral(s.atom) ==> s.atom == a)
    requires s.NegAtom? ==> !AtomSubtype(a, s.atom, ctx, depth, sigma).ok
    ensures SignedHolds(s, Valuation(LiteralValue(a)))
  {
  }

  lemma NominalHolds(a: Ty, s: Signed, c: Conjunction, ctx: Ctx, depth: nat, sigma: Sigma)
    requires a.Nominal? && IsBasic(s.atom) && s in c && depth < ctx.limit
    requires s.Pos? ==> s.atom.Nominal? && !AtomsDisjoint(a, s.atom)
    requires s.NegAtom? ==> !AtomSubtype(a, s.atom, ctx, depth, sigma).ok
    ensures SignedHolds(s, Valuation(NominalWitness(a.id, c)))
  {
  }

  /** A conjunction over nominal types and literals that neither clashes nor holds a blind pair has a
      value. */
  lemma Inhabited(c: Conjunction, ctx: Ctx, depth: nat, sigma: Sigma) returns (v: Value)
    requires forall s :: s in c ==> IsBasic(s.atom)
    requires !Clashes(c, ctx, depth, sigma) && !BlindPair(c) && depth < ctx.limit
    ensures ConjunctionHolds(c, Valuation(v))
  {
    if a :| Pos(a) in c && IsLiteral(a) {
      v := LiteralValue(a);
      forall s | s in c ensures SignedHolds(s, Valuation(v)) {
        assert s == Pos(s.atom) || s == NegAtom(s.atom);
        Unclashed(c, ctx, depth, sigma, a, s.atom);
        LiteralHolds(a, s, ctx, depth, sigma);
      }
    } else if a :| Pos(a) in c {
      assert IsBasic(Pos(a).atom);
      v := NominalWitness(a.id, c);
      forall s | s in c ensures SignedHolds(s, Valuation(v)) {
        assert s == Pos(s.atom) || s == NegAtom(s.atom);
        Unclashed(c, ctx, depth, sigma, a, s.atom);
        NominalHolds(a, s, c, ctx, depth, sigma);
      }
    } else {
      v := VNominal(FreshId(c));
      forall s | s in c ensures SignedHolds(s, Valuation(v)) {
        assert IsBasic(s.atom);
        assert s == Pos(s.atom) || s == NegAtom(s.atom);
      }
    }
  }

  lemma SubsumedSound(p: Ty, q: Ty, ctx: Ctx, depth: nat, sigma: Sigma, v: Value)
    requires IsBasic(p) && IsBasic(q) && AtomSubtype(p, q, ctx, depth, sigma).ok
    ensures In(v, p) ==> In(v, q)
  {
  }

  lemma ClashHasNoValue(c: Conjunction, ctx: Ctx, depth: nat, sigma: Sigma, v: Value)
    requires forall s :: s in c ==> IsBasic(s.atom)
    requires Clashes(c, ctx, depth, sigma)
    ensures !ConjunctionHolds(c, Valuation(v))
  {
    if ConjunctionHolds(c, Valuation(v)) {
      if a, b :| Pos(a) in c && Pos(b) in c && AtomsDisjoint(a, b) {
        assert SignedHolds(Pos(a), Valuation(v)) && SignedHolds(Pos(b), Valuation(v));
        assert IsBasic(Pos(a).atom) && IsBasic(Pos(b).atom);
        DisjointSound(a, b, v);
      } else {
        var p, q :| Pos(p) in c && NegAtom(q) in c && AtomSubtype(p, q, ctx, depth, sigma).ok;
        assert SignedHolds(Pos(p), Valuation(v)) && SignedHolds(NegAtom(q), Valuation(v));
        assert IsBasic(Pos(p).atom) && IsBasic(NegAtom(q).atom);
        SubsumedSound(p, q, ctx, depth, sigma, v);
      }
    }
  }

  // ---------- the theorem ----------

  lemma OverBasicsSettled(sub: Ty, sup: Ty, ctx: Ctx)
    requires BooleanOverBasics(sub) && BooleanOverBasics(sup) && CapFree(Inter([sub, Neg(sup)]), ctx.cap)
    ensures Settled(sub, sup, ctx) && OverBasics(ToRdnf(Inter([sub, Neg(sup)]), ctx.cap))
  {
    RdnfOverBasics(sub, ctx.cap);
    RdnfOverBasics(sup, ctx.cap);
    RdnfOverBasics(Inter([sub, Neg(sup)]), ctx.cap);
  }

  lemma DifferenceMeaning(sub: Ty, sup: Ty, cap: nat, v: Value)
    requires BooleanOverBasics(sub) && BooleanOverBasics(sup) && CapFree(Inter([sub, Neg(sup)]), cap)
    ensures RdnfHolds(ToRdnf(Inter([sub, Neg(sup)]), cap), Valuation(v)) <==> In(v, sub) && !In(v, sup)
  {
    var diff := Inter([sub, Neg(sup)]);
    RdnfPreservesMeaning(diff, cap, Valuation(v));
    InIsHolds(v, sub);
    InIsHolds(v, sup);
    assert Holds(diff, Valuation(v)) <==> Holds(sub, Valuation(v)) && Holds(Neg(sup), Valuation(v)) by {
      assert sub in diff.members && Neg(sup) in diff.members;
    }
  }

  lemma RowEmptyIffClashes(c: Conjunction, ctx: Ctx)
    requires forall s :: s in c ==> IsBasic(s.atom)
    ensures ConjunctionEmpty(c, ctx, 0, {}).ok <==> Clashes(c, ctx, 0, {})
  {
    QuietStable(c, ctx, 0, {});
    ConjunctionEmptyIff(c, ctx, 0, {});
  }

  /** Acceptance means that every row of the normalised difference clashes. */
  lemma AcceptedIffAllClash(sub: Ty, sup: Ty, ctx: Ctx)
    requires BooleanOverBasics(sub) && BooleanOverBasics(sup) && CapFree(Inter([sub, Neg(sup)]), ctx.cap)
    ensures IsSubtypeBas(sub, sup, ctx, false) <==> AllClash(sub, sup, ctx)
  {
    var diff := ToRdnf(Inter([sub, Neg(sup)]), ctx.cap);
    OverBasicsSettled(sub, sup, ctx);
    NormalFormDecides(sub, sup, ctx, 0, {});
    RdnfEmptyIff(diff, ctx, 0, {});
    forall c | c in diff ensures ConjunctionEmpty(c, ctx, 0, {}).ok <==> Clashes(c, ctx, 0, {}) {
      RowEmptyIffClashes(c, ctx);
    }
  }

  lemma ClashingIsInclusion(sub: Ty, sup: Ty, ctx: Ctx, v: Value)
    requires BooleanOverBasics(sub) && BooleanOverBasics(sup) && CapFree(Inter([sub, Neg(sup)]), ctx.cap)
    requires forall c :: c in ToRdnf(Inter([sub, Neg(sup)]), ctx.cap) ==> Clashes(c, ctx, 0, {})
    requires In(v, sub)
    ensures In(v, sup)
  {
    var diff := ToRdnf(Inter([sub, Neg(sup)]), ctx.cap);
    OverBasicsSettled(sub, sup, ctx);
    DifferenceMeaning(sub, sup, ctx.cap, v);
    forall c | c in diff ensures !ConjunctionHolds(c, Valuation(v)) {
      ClashHasNoValue(c, ctx, 0, {}, v);
    }
  }

  /** Every row of the normalised difference that holds a blind pair clashes on another account. */
  ghost predicate BlindRowsClash(sub: Ty, sup: Ty, ctx: Ctx) {
    forall c :: c in ToRdnf(Inter([sub, Neg(sup)]), ctx.cap) && BlindPair(c) ==> Clashes(c, ctx, 0, {})
  }

  lemma RefutingValue(sub: Ty, sup: Ty, ctx: Ctx, c: Conjunction) returns (v: Value)
    requires BooleanOverBasics(sub) && BooleanOverBasics(sup) && 1 <= ctx.limit
    requires CapFree(Inter([sub, Neg(sup)]), ctx.cap)
    requires c in ToRdnf(Inter([sub, Neg(sup)]), ctx.cap) && !Clashes(c, ctx, 0, {}) && !BlindPair(c)
    ensures In(v, sub) && !In(v, sup)
  {
    OverBasicsSettled(sub, sup, ctx);
    v := Inhabited(c, ctx, 0, {});
    DifferenceMeaning(sub, sup, ctx.cap, v);
    assert RdnfHolds(ToRdnf(Inter([sub, Neg(sup)]), ctx.cap), Valuation(v));
  }

  ghost predicate Included(sub: Ty, sup: Ty)
    requires Guarded(sub, 0) && Guarded(sup, 0)
  {
    forall v: Value :: In(v, sub) ==> In(v, sup)
  }

  ghost predicate AllClash(sub: Ty, sup: Ty, ctx: Ctx) {
    forall c :: c in ToRdnf(Inter([sub, Neg(sup)]), ctx.cap) ==> Clashes(c, ctx, 0, {})
  }

  lemma AllClashIncludes(sub: Ty, sup: Ty, ctx: Ctx)
    requires BooleanOverBasics(sub) && BooleanOverBasics(sup) && CapFree(Inter([sub, Neg(sup)]), ctx.cap)
    requires AllClash(sub, sup, ctx)
    ensures Included(sub, sup)
  {
    forall v: Value | In(v, sub) ensures In(v, sup) {
      ClashingIsInclusion(sub, sup, ctx, v);
    }
  }

  lemma IncludedAllClash(sub: Ty, sup: Ty, ctx: Ctx)
    requires BooleanOverBasics(sub) && BooleanOverBasics(sup) && 1 <= ctx.limit
    requires CapFree(Inter([sub, Neg(sup)]), ctx.cap)
    requires Included(sub, sup) && BlindRowsClash(sub, sup, ctx)
    ensures AllClash(sub, sup, ctx)
  {
    forall c | c in ToRdnf(Inter([sub, Neg(sup)]), ctx.cap) ensures Clashes(c, ctx, 0, {}) {
      if !Clashes(c, ctx, 0, {}) && !BlindPair(c) {
        var v := RefutingValue(sub, sup, ctx, c);
      }
    }
  }

  /** Accepted exactly when every value of the left type is a value of the right type and no blind
      pair keeps a row from clashing. */
  lemma DecidesInclusionIff(sub: Ty, sup: Ty, ctx: Ctx)
    requires BooleanOverBasics(sub) && BooleanOverBasics(sup) && 1 <= ctx.limit
    requires CapFree(Inter([sub, Neg(sup)]), ctx.cap)
    ensures IsSubtypeBas(sub, sup, ctx, false) <==> Included(sub, sup) && BlindRowsClash(sub, sup, ctx)
  {
    AcceptedIffAllClash(sub, sup, ctx);
    if AllClash(sub, sup, ctx) {
      AllClashIncludes(sub, sup, ctx);
    } else if Included(sub, sup) && BlindRowsClash(sub, sup, ctx) {
      IncludedAllClash(sub, sup, ctx);
    }
  }

  lemma NoBlindPair(t: Ty, cap: nat, c: Conjunction)
    requires BooleanOverBasics(t) && OnlyInts(t) && c in ToRdnf(t, cap)
    ensures !BlindPair(c)
  {
    forall a, b | Pos(a) in c && Pos(b) in c && IsLiteral(a) && IsLiteral(b) && a != b ensures AtomsDisjoint(a, b) {
      RdnfLeaves(t, cap, c, Pos(a));
      RdnfLeaves(t, cap, c, Pos(b));
      LeafOverBasics(a, t);
      LeafOverBasics(b, t);
    }
  }

  /** With integer literals only, acceptance is exactly inclusion of values. */
  lemma DecidesInclusion(sub: Ty, sup: Ty, ctx: Ctx)
    requires BooleanOverBasics(sub) && BooleanOverBasics(sup) && OnlyInts(sub) && OnlyInts(sup) && 1 <= ctx.limit
    requires CapFree(Inter([sub, Neg(sup)]), ctx.cap)
    ensures IsSubtypeBas(sub, sup, ctx, false) <==> Included(sub, sup)
  {
    DecidesInclusionIff(sub, sup, ctx);
    var diff := Inter([sub, Neg(sup)]);
    assert OnlyInts(Neg(sup)) && OnlyInts(diff);
    forall c | c in ToRdnf(diff, ctx.cap) ensures !BlindPair(c) {
      NoBlindPair(diff, ctx.cap, c);
    }
  }

  /** Not so with other literals: two different literals that nothing declares disjoint have no
      common value, and their intersection is not accepted below Never.  Such are two string literals,
      and any two of different kinds. */
  lemma LiteralsIncomplete(a: Ty, b: Ty, ctx: Ctx)
    requires IsLiteral(a) && IsLiteral(b) && a != b && !AtomsDisjoint(a, b) && 1 <= ctx.cap && 1 <= ctx.limit
    ensures !IsSubtypeBas(Inter([a, b]), Never, ctx, false)
    ensures forall v: Value :: !In(v, Inter([a, b]))
  {
    var sub, both := Inter([a, b]), [Pos(a), Pos(b)];
    InterOfTwoAtoms(a, b, ctx.cap);
    NeverSettled(sub, ctx);
    NoClashOfTwo(a, b, ctx);
    UnrefutedRow(sub, both, ctx);
    forall v: Value ensures !In(v, sub) {
      assert a in sub.members && b in sub.members;
    }
  }

  lemma NoClashOfTwo(a: Ty, b: Ty, ctx: Ctx)
    requires IsLiteral(a) && IsLiteral(b) && !AtomsDisjoint(a, b)
    ensures !Clashes([Pos(a), Pos(b)], ctx, 0, {})
  {
    DisjointIrreflexive(a);
    DisjointIrreflexive(b);
    DisjointSymmetric(a, b);
  }

  /** Which literals are concerned. */
  lemma BlindLiterals(a: Ty, b: Ty)
    requires IsLiteral(a) && IsLiteral(b) && a != b
    ensures !AtomsDisjoint(a, b) <==> !(a.IntLit? && b.IntLit?) && !(a.FloatLit? && b.FloatLit?)
  {
  }

  lemma UnrefutedRow(sub: Ty, row: Conjunction, ctx: Ctx)
    requires Settled(sub, Never, ctx) && row in ToRdnf(sub, ctx.cap) && !Clashes(row, ctx, 0, {}) && 1 <= ctx.limit
    requires !sub.Never? && !sub.Unknown? && !sub.Var? && !sub.Error?
    ensures !IsSubtypeBas(sub, Never, ctx, false)
  {
    AcceptedIffRefuted(sub, Never, ctx, 0, {});
    assert Hitting([], NeverRdnf) && row + [] == row;
  }

  lemma NeverSettled(sub: Ty, ctx: Ctx)
    requires Ordinary(sub) && CapFree(sub, ctx.cap) && QuietRdnf(ToRdnf(sub, ctx.cap))
    requires |ToRdnf(sub, ctx.cap)| <= ctx.cap
    ensures Settled(sub, Never, ctx)
  {
    var members := [sub, Neg(Never)];
    var left := ToRdnf(sub, ctx.cap);
    assert members[1..] == [Neg(Never)] && members[1..][1..] == [];
    assert ToRdnf(Neg(Never), ctx.cap) == TopRdnf;
    assert Fits(left, TopRdnf, ctx.cap);
    assert InterFits(Distribute(left, TopRdnf, ctx.cap), members[1..][1..], ctx.cap);
    assert InterFits(left, members[1..], ctx.cap);
  }
}
