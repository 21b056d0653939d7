/** When two atoms that are declared disjoint do share a value: only a nominal type and a recursive
    type can, and whether they do can be read off the written body. */
module Disjointness {
  import opened Types
  import opened Rdnf
  import opened Unfold
  import opened Subtype
  import opened Values
  import opened Soundness
  import opened Decision
  import opened Counterexamples

  /** `v`, which is not a record, belongs to `t` by the nominal types and literals written outside
      records. */
  predicate Offers(t: Ty, v: Value)
    decreases t
  {
    match t
    case Top => true
    case Nominal(id) =>
      (match v
       case VInt(_) => id == TYPE_ID_INT
       case VStr(_) => id == TYPE_ID_STRING
       case VFloat(_) => id == TYPE_ID_FLOAT
       case VNominal(i) => id == i && UserType(id)
       case VRecord(_) => false)
    case IntLit(_) | StrLit(_) | FloatLit(_) => v == LiteralValue(t)
    case Union(members) => exists m :: m in members && Offers(m, v)
    case Inter(members) => forall m :: m in members ==> Offers(m, v)
    case Neg(of) => !Offers(of, v)
    case Recursive(body) => Offers(body, v)
    case _ => false
  }

  /** The literals written outside records, as positive atoms. */
  function Literals(t: Ty): (c: Conjunction)
    ensures forall s :: s in c ==> s.Pos? && IsLiteral(s.atom)
    decreases t, 1
  {
    match t
    case IntLit(_) | StrLit(_) | FloatLit(_) => [Pos(t)]
    case Union(members) => AllLiterals(members)
    case Inter(members) => AllLiterals(members)
    case Neg(of) => Literals(of)
    case Recursive(body) => Literals(body)
    case _ => []
  }

  function AllLiterals(ts: seq<Ty>): (c: Conjunction)
    ensures forall s :: s in c ==> s.Pos? && IsLiteral(s.atom)
    decreases ts, 0
  {
    if ts == [] then [] else Literals(ts[0]) + AllLiterals(ts[1..])
  }

  lemma {:induction false} LiteralsOf(ts: seq<Ty>, t: Ty, s: Signed)
    requires t in ts && s in Literals(t)
    ensures s in AllLiterals(ts)
    decreases |ts|
  {
    if t != ts[0] {
      assert t in ts[1..];
      LiteralsOf(ts[1..], t, s);
    }
  }

  /** `t` offers a value of the nominal type `n`: one written as a literal, or one that no literal
      names. */
  predicate OffersNominal(t: Ty, n: nat) {
    || Offers(t, NominalWitness(n, Literals(t)))
    || exists s :: s in Literals(t) && Offers(Nominal(n), LiteralValue(s.atom)) && Offers(t, LiteralValue(s.atom))
  }

  // ---------- membership outside records ----------

  lemma UnionCarries(ts: seq<Ty>, us: seq<Ty>, v: Value)
    requires |ts| == |us| && forall i :: 0 <= i < |ts| ==> (Offers(us[i], v) <==> Offers(ts[i], v))
    requires Offers(Union(ts), v)
    ensures Offers(Union(us), v)
  {
    var t :| t in ts && Offers(t, v);
    var i :| 0 <= i < |ts| && ts[i] == t;
    assert us[i] in us;
  }

  lemma InterCarries(ts: seq<Ty>, us: seq<Ty>, v: Value)
    requires |ts| == |us| && forall i :: 0 <= i < |ts| ==> (Offers(us[i], v) <==> Offers(ts[i], v))
    requires Offers(Inter(ts), v)
    ensures Offers(Inter(us), v)
  {
    forall u | u in us ensures Offers(u, v) {
      var i :| 0 <= i < |us| && us[i] == u;
      assert ts[i] in ts;
    }
  }

  /** Members that offer `v` alike make the same union and the same intersection. */
  lemma MembersAlike(ts: seq<Ty>, us: seq<Ty>, v: Value)
    requires |ts| == |us| && forall i :: 0 <= i < |ts| ==> (Offers(us[i], v) <==> Offers(ts[i], v))
    ensures Offers(Union(us), v) <==> Offers(Union(ts), v)
    ensures Offers(Inter(us), v) <==> Offers(Inter(ts), v)
  {
    if Offers(Union(ts), v) { UnionCarries(ts, us, v); }
    if Offers(Union(us), v) { UnionCarries(us, ts, v); }
    if Offers(Inter(ts), v) { InterCarries(ts, us, v); }
    if Offers(Inter(us), v) { InterCarries(us, ts, v); }
  }

  lemma {:induction false} SubstOffers(t: Ty, k: nat, r: Ty, v: Value)
    requires Guarded(t, k + 1) && !t.RecursiveRef?
    ensures Offers(Subst(t, k, r), v) <==> Offers(t, v)
    decreases t
  {
    if t.Union? || t.Inter? {
      SubstMembersOffer(t.members, k, r, v);
      MembersAlike(t.members, SubstAll(t.members, k, r), v);
    } else if t.Neg? {
      SubstOffers(t.of, k, r, v);
    } else if t.Recursive? {
      SubstOffers(t.body, k + 1, r, v);
    }
  }

  lemma {:induction false} SubstMembersOffer(ts: seq<Ty>, k: nat, r: Ty, v: Value)
    requires forall t :: t in ts ==> !t.RecursiveRef? && Guarded(t, k + 1)
    ensures forall i :: 0 <= i < |ts| ==> (Offers(SubstAll(ts, k, r)[i], v) <==> Offers(ts[i], v))
    decreases ts
  {
    forall i | 0 <= i < |ts| ensures Offers(SubstAll(ts, k, r)[i], v) <==> Offers(ts[i], v) {
      assert ts[i] in ts;
      SubstOffers(ts[i], k, r, v);
    }
  }

  lemma {:induction false} OffersIff(t: Ty, v: Value)
    requires Guarded(t, 0) && !v.VRecord?
    ensures In(v, t) <==> Offers(t, v)
    decreases HeadDepth(t), t
  {
    match t
    case Union(members) =>
      forall m | m in members ensures In(v, m) <==> Offers(m, v) { OffersIff(m, v); }
    case Inter(members) =>
      forall m | m in members ensures In(v, m) <==> Offers(m, v) { OffersIff(m, v); }
    case Neg(of) => OffersIff(of, v);
    case Recursive(body) =>
      UnfoldGuarded(t);
      OffersIff(UnfoldTy(t), v);
      SubstOffers(body, 0, t, v);
    case _ =>
  }

  // ---------- values no literal names are offered alike ----------

  predicate Unnamed(v: Value, c: Conjunction) {
    forall s :: s in c && IsLiteral(s.atom) ==> v != LiteralValue(s.atom)
  }

  lemma {:induction false} OfferedAlike(t: Ty, n: nat, v: Value, w: Value)
    requires Offers(Nominal(n), v) && Offers(Nominal(n), w) && Unnamed(v, Literals(t)) && Unnamed(w, Literals(t))
    ensures Offers(t, v) <==> Offers(t, w)
    decreases t
  {
    match t
    case IntLit(_) | StrLit(_) | FloatLit(_) => assert Pos(t) in Literals(t);
    case Union(members) =>
      forall m | m in members ensures Offers(m, v) <==> Offers(m, w) { MemberAlike(members, m, n, v, w); }
    case Inter(members) =>
      forall m | m in members ensures Offers(m, v) <==> Offers(m, w) { MemberAlike(members, m, n, v, w); }
    case Neg(of) => OfferedAlike(of, n, v, w);
    case Recursive(body) => OfferedAlike(body, n, v, w);
    case _ =>
  }

  lemma {:induction false} MemberAlike(ts: seq<Ty>, t: Ty, n: nat, v: Value, w: Value)
    requires t in ts && Offers(Nominal(n), v) && Offers(Nominal(n), w)
    requires Unnamed(v, AllLiterals(ts)) && Unnamed(w, AllLiterals(ts))
    ensures Offers(t, v) <==> Offers(t, w)
    decreases ts, 0
  {
    forall s | s in Literals(t) ensures s in AllLiterals(ts) { LiteralsOf(ts, t, s); }
    OfferedAlike(t, n, v, w);
  }

  lemma WitnessUnnamed(n: nat, c: Conjunction)
    ensures Offers(Nominal(n), NominalWitness(n, c)) && Unnamed(NominalWitness(n, c), c)
  {
  }

  ghost predicate OffersSome(t: Ty, n: nat) {
    exists v: Value :: Offers(Nominal(n), v) && Offers(t, v)
  }

  /** The two cases of `OffersNominal` are enough. */
  lemma OffersNominalIff(t: Ty, n: nat)
    ensures OffersNominal(t, n) <==> OffersSome(t, n)
  {
    var c := Literals(t);
    WitnessUnnamed(n, c);
    if OffersSome(t, n) {
      var v: Value :| Offers(Nominal(n), v) && Offers(t, v);
      if Unnamed(v, c) {
        OfferedAlike(t, n, v, NominalWitness(n, c));
      }
    }
  }

  // ---------- the exact condition ----------

  ghost predicate ShareValue(a: Ty, b: Ty)
    requires Guarded(a, 0) && Guarded(b, 0)
  {
    exists v: Value :: In(v, a) && In(v, b)
  }

  lemma SharedIff(n: nat, r: Ty)
    requires r.Recursive? && Guarded(r, 0)
    ensures ShareValue(Nominal(n), r) <==> OffersNominal(r, n)
  {
    OffersNominalIff(r, n);
    forall v: Value ensures In(v, Nominal(n)) && In(v, r) <==> Offers(Nominal(n), v) && Offers(r, v) {
      BothOffer(n, r, v);
    }
    if OffersSome(r, n) {
      var v: Value :| Offers(Nominal(n), v) && Offers(r, v);
      assert In(v, Nominal(n)) && In(v, r);
    }
  }

  lemma BothOffer(n: nat, r: Ty, v: Value)
    requires r.Recursive? && Guarded(r, 0)
    ensures In(v, Nominal(n)) && In(v, r) <==> Offers(Nominal(n), v) && Offers(r, v)
  {
    if !v.VRecord? {
      OffersIff(Nominal(n), v);
      OffersIff(r, v);
    }
  }

  /** A nominal type and a recursive type are always taken to be disjoint.  They are exactly when the
      body offers no value of the nominal type outside records. */
  lemma NominalRecursiveIff(n: nat, r: Ty, ctx: Ctx)
    requires r.Recursive? && Guarded(r, 0) && 1 <= ctx.cap
    ensures IsSubtypeBas(Inter([Nominal(n), r]), Never, ctx, false)
    ensures ShareValue(Nominal(n), r) <==> OffersNominal(r, n)
  {
    DisjointAtomsAccepted(Nominal(n), r, ctx);
    SharedIff(n, r);
  }

  /** Of all atoms declared disjoint, these are the only ones that may share a value. */
  lemma DisjointExact(a: Ty, b: Ty)
    requires Guarded(a, 0) && Guarded(b, 0) && AtomsDisjoint(a, b)
    ensures ShareValue(a, b) <==>
      || (a.Nominal? && b.Recursive? && OffersNominal(b, a.id))
      || (a.Recursive? && b.Nominal? && OffersNominal(a, b.id))
  {
    if Contractive(a) && Contractive(b) {
      forall v: Value ensures !(In(v, a) && In(v, b)) { DisjointSound(a, b, v); }
    } else if a.Nominal? {
      SharedIff(a.id, b);
    } else {
      SharedIff(b.id, a);
    }
  }

  /** The declaration is complete for nominal types: one is declared disjoint from every other atom, not
      recursive, that it shares no value with. */
  lemma NominalDisjointIff(n: nat, b: Ty)
    requires Guarded(b, 0) && Contractive(b) && (b.Nominal? || IsLiteral(b) || b.Record?)
    ensures AtomsDisjoint(Nominal(n), b) <==> !ShareValue(Nominal(n), b)
  {
    if AtomsDisjoint(Nominal(n), b) {
      DisjointExact(Nominal(n), b);
    } else if b.Nominal? {
      var v := NominalWitness(n, []);
      WitnessUnnamed(n, []);
      OffersIff(b, v);
      assert In(v, Nominal(n)) && In(v, b);
    } else {
      assert In(LiteralValue(b), Nominal(n)) && In(LiteralValue(b), b);
    }
  }

  /** Of all atoms a recursive type is declared disjoint from nominal types only. */
  lemma RecursiveDisjointIff(r: Ty, b: Ty)
    requires r.Recursive? && !IsBoolean(b)
    ensures AtomsDisjoint(r, b) <==> b.Nominal?
  {
  }
}
