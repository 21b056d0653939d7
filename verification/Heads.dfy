/** Literals and nominal types below recursive types: acceptance is exactly inclusion of values, at
    whatever depth of binders, unions and intersections the type stands that makes it so. */
module Heads {
  import opened Types
  import opened Rdnf
  import opened RdnfMeaning
  import opened Unfold
  import opened UnfoldRdnf
  import opened Subtype
  import opened Emptiness
  import opened Lattice
  import opened AtomQuestions
  import opened Values
  import opened Decision
  import opened Disjointness
  import opened Folding

  // ---------- conditions on the type ----------

  /** No `Neg` outside records. */
  predicate PositiveHead(t: Ty)
    decreases t
  {
    match t
    case Union(members) => forall m :: m in members ==> PositiveHead(m)
    case Inter(members) => forall m :: m in members ==> PositiveHead(m)
    case Neg(_) => false
    case Recursive(body) => PositiveHead(body)
    case _ => true
  }

  /** Negating `t`, or the body of a recursive type at its head, stays within the cap. */
  predicate HeadFits(t: Ty, cap: nat)
    decreases t, 1
  {
    NegationFits(t, cap) && InnerHeadsFit(t, cap)
  }

  predicate NegationFits(t: Ty, cap: nat) {
    CapFree(Neg(t), cap) && |ToRdnf(Neg(t), cap)| <= cap
  }

  predicate InnerHeadsFit(t: Ty, cap: nat)
    decreases t, 0
  {
    match t
    case Union(members) => forall m :: m in members ==> InnerHeadsFit(m, cap)
    case Inter(members) => forall m :: m in members ==> InnerHeadsFit(m, cap)
    case Recursive(body) => HeadFits(body, cap)
    case _ => true
  }

  lemma {:induction false} SubstPositiveHead(t: Ty, k: nat, r: Ty)
    requires Guarded(t, k + 1) && !t.RecursiveRef? && PositiveHead(t)
    ensures PositiveHead(Subst(t, k, r))
    decreases t
  {
    match t
    case Union(members) => SubstPositiveAll(members, k, r);
    case Inter(members) => SubstPositiveAll(members, k, r);
    case Recursive(body) => SubstPositiveHead(body, k + 1, r);
    case _ =>
  }

  lemma {:induction false} SubstPositiveAll(ts: seq<Ty>, k: nat, r: Ty)
    requires forall t :: t in ts ==> Guarded(t, k + 1) && !t.RecursiveRef? && PositiveHead(t)
    ensures forall t :: t in SubstAll(ts, k, r) ==> PositiveHead(t)
    decreases ts
  {
    forall t | t in SubstAll(ts, k, r) ensures PositiveHead(t) {
      var i :| 0 <= i < |ts| && SubstAll(ts, k, r)[i] == t;
      assert ts[i] in ts;
      SubstPositiveHead(ts[i], k, r);
    }
  }

  lemma SubstNegationFits(t: Ty, cap: nat, k: nat, r: Ty)
    requires r.Recursive? && NegationFits(t, cap)
    ensures NegationFits(Subst(t, k, r), cap)
  {
    SubstToRdnf(Neg(t), cap, k, r);
  }

  lemma {:induction false} SubstInnerHeads(t: Ty, cap: nat, k: nat, r: Ty)
    requires r.Recursive? && Guarded(t, k + 1) && !t.RecursiveRef? && InnerHeadsFit(t, cap)
    ensures InnerHeadsFit(Subst(t, k, r), cap)
    decreases t
  {
    match t
    case Union(members) => SubstInnerAll(members, cap, k, r);
    case Inter(members) => SubstInnerAll(members, cap, k, r);
    case Recursive(body) =>
      SubstNegationFits(body, cap, k + 1, r);
      SubstInnerHeads(body, cap, k + 1, r);
    case _ =>
  }

  lemma {:induction false} SubstInnerAll(ts: seq<Ty>, cap: nat, k: nat, r: Ty)
    requires r.Recursive? && forall t :: t in ts ==> Guarded(t, k + 1) && !t.RecursiveRef? && InnerHeadsFit(t, cap)
    ensures forall t :: t in SubstAll(ts, k, r) ==> InnerHeadsFit(t, cap)
    decreases ts
  {
    forall t | t in SubstAll(ts, k, r) ensures InnerHeadsFit(t, cap) {
      var i :| 0 <= i < |ts| && SubstAll(ts, k, r)[i] == t;
      assert ts[i] in ts;
      SubstInnerHeads(ts[i], cap, k, r);
    }
  }

  lemma {:induction false} SubstLiterals(t: Ty, k: nat, r: Ty)
    requires Guarded(t, k + 1) && !t.RecursiveRef?
    ensures Literals(Subst(t, k, r)) == Literals(t)
    decreases t
  {
    match t
    case Union(members) => SubstAllLiterals(members, k, r);
    case Inter(members) => SubstAllLiterals(members, k, r);
    case Neg(of) => SubstLiterals(of, k, r);
    case Recursive(body) => SubstLiterals(body, k + 1, r);
    case _ =>
  }

  lemma {:induction false} SubstAllLiterals(ts: seq<Ty>, k: nat, r: Ty)
    requires forall t :: t in ts ==> Guarded(t, k + 1) && !t.RecursiveRef?
    ensures AllLiterals(SubstAll(ts, k, r)) == AllLiterals(ts)
    decreases ts
  {
    if ts != [] {
      assert ts[0] in ts && forall t :: t in ts[1..] ==> t in ts;
      SubstLiterals(ts[0], k, r);
      SubstAllLiterals(ts[1..], k, r);
      assert SubstAll(ts, k, r)[1..] == SubstAll(ts[1..], k, r);
    }
  }

  // ---------- one atom against a positive type ----------

  /** The atoms that `a` is accepted below. */
  ghost function Above(a: Ty, ctx: Ctx, depth: nat, sigma: Sigma): Ty -> bool {
    (q: Ty) => AtomSubtype(a, q, ctx, depth, sigma).ok
  }

  predicate PositiveRows(rows: Rdnf) {
    forall c, s :: c in rows && s in c ==> s.Pos? && !IsBoolean(s.atom)
  }

  lemma {:induction false} PositiveHeadRows(t: Ty, cap: nat)
    requires PositiveHead(t)
    ensures PositiveRows(ToRdnf(t, cap))
    decreases t, 1
  {
    match t
    case Union(members) => PositiveUnionRows(members, cap);
    case Inter(members) =>
      if members != [] {
        assert members[0] in members;
        PositiveHeadRows(members[0], cap);
        PositiveInterRows(ToRdnf(members[0], cap), members[1..], cap);
      }
    case _ =>
  }

  lemma {:induction false} PositiveUnionRows(members: seq<Ty>, cap: nat)
    requires forall m :: m in members ==> PositiveHead(m)
    ensures PositiveRows(UnionRdnf(members, cap))
    decreases members, 0
  {
    if members != [] {
      assert members[0] in members;
      PositiveHeadRows(members[0], cap);
      PositiveUnionRows(members[1..], cap);
    }
  }

  lemma {:induction false} PositiveInterRows(acc: Rdnf, members: seq<Ty>, cap: nat)
    requires PositiveRows(acc) && forall m :: m in members ==> PositiveHead(m)
    ensures PositiveRows(InterFrom(acc, members, cap))
    decreases members, 0
  {
    if members != [] {
      assert members[0] in members;
      var right := ToRdnf(members[0], cap);
      PositiveHeadRows(members[0], cap);
      PositiveDistribute(acc, right, cap);
      PositiveInterRows(Distribute(acc, right, cap), members[1..], cap);
    }
  }

  lemma PositiveDistribute(left: Rdnf, right: Rdnf, cap: nat)
    requires PositiveRows(left) && PositiveRows(right)
    ensures PositiveRows(Distribute(left, right, cap))
  {
    forall c, s | c in Distribute(left, right, cap) && s in c ensures s.Pos? && !IsBoolean(s.atom) {
      DistributeMembers(left, right, cap, c);
      var l, r :| l in left && r in right && c == l + r;
    }
  }

  /** Every choice holds an atom above `a` exactly when in some row every atom is. */
  lemma {:induction false} ChoicesAndRows(rows: Rdnf, val: Ty -> bool)
    requires PositiveRows(rows)
    ensures (exists n :: IsChoice(n, rows) && forall q :: NegAtom(q) in n ==> !val(q)) <==> !RdnfHolds(rows, val)
    decreases |rows|
  {
    if RdnfHolds(rows, val) {
      var c :| c in rows && ConjunctionHolds(c, val);
      var i :| 0 <= i < |rows| && rows[i] == c;
      forall n: Conjunction | IsChoice(n, rows) ensures exists q :: NegAtom(q) in n && val(q) {
        assert n[i].Negate() in c && SignedHolds(n[i].Negate(), val) && n[i] in n;
        assert n[i] == NegAtom(n[i].atom);
      }
    } else if rows == [] {
      assert IsChoice([], rows);
    } else {
      assert rows[0] in rows && !ConjunctionHolds(rows[0], val);
      var s :| s in rows[0] && !SignedHolds(s, val);
      var rest := rows[1..];
      assert !RdnfHolds(rest, val);
      ChoicesAndRows(rest, val);
      var m: Conjunction :| IsChoice(m, rest) && forall q :: NegAtom(q) in m ==> !val(q);
      var n := [s.Negate()] + m;
      ChoiceCons(s.Negate(), m, rows);
    }
  }

  lemma ChoiceNegative(n: Conjunction, rows: Rdnf)
    requires PositiveRows(rows) && IsChoice(n, rows)
    ensures forall s :: s in n ==> s.NegAtom?
  {
    forall s | s in n ensures s.NegAtom? {
      var i :| 0 <= i < |n| && n[i] == s;
      assert rows[i] in rows && s.Negate() in rows[i];
    }
  }

  lemma AgainstChoice(a: Ty, n: Conjunction, ctx: Ctx, depth: nat, sigma: Sigma)
    requires IsBasic(a) && forall s :: s in n ==> s.NegAtom?
    ensures ConjunctionEmpty([Pos(a)] + n, ctx, depth, sigma).ok <==> exists q :: NegAtom(q) in n && Above(a, ctx, depth, sigma)(q)
  {
    forall q | NegAtom(q) in n ensures AtomSubtype(a, q, ctx, depth, sigma).sigma == sigma {
      QuietSigma(a, q, ctx, depth, sigma);
    }
    OnePositiveRow(a, n, ctx, depth, sigma);
  }

  lemma ChoicesDecide(a: Ty, t: Ty, ctx: Ctx, depth: nat, sigma: Sigma)
    requires IsBasic(a) && PositiveRows(ToRdnf(t, ctx.cap)) && CapFree(Inter([a, Neg(t)]), ctx.cap)
    ensures RdnfEmpty(ToRdnf(Inter([a, Neg(t)]), ctx.cap), ctx, depth, sigma) <==>
      !exists n :: IsChoice(n, ToRdnf(t, ctx.cap)) && forall q :: NegAtom(q) in n ==> !Above(a, ctx, depth, sigma)(q)
  {
    var rows, diff := ToRdnf(t, ctx.cap), ToRdnf(Inter([a, Neg(t)]), ctx.cap);
    RdnfEmptyIff(diff, ctx, depth, sigma);
    if n :| IsChoice(n, rows) && forall q :: NegAtom(q) in n ==> !Above(a, ctx, depth, sigma)(q) {
      AtomRows(a, t, ctx, [Pos(a)] + n);
      ChoiceNegative(n, rows);
      AgainstChoice(a, n, ctx, depth, sigma);
    } else {
      forall c | c in diff ensures ConjunctionEmpty(c, ctx, depth, sigma).ok {
        AtomRows(a, t, ctx, c);
        var n :| IsChoice(n, rows) && c == [Pos(a)] + n;
        ChoiceNegative(n, rows);
        AgainstChoice(a, n, ctx, depth, sigma);
      }
    }
  }

  /** Against a positive type the question about `a` is the Boolean reading of the questions about the
      type's atoms. */
  lemma PositiveQuestion(a: Ty, t: Ty, ctx: Ctx, depth: nat, sigma: Sigma)
    requires IsBasic(a) && Guarded(t, 0) && PositiveHead(t) && NegationFits(t, ctx.cap)
    ensures IsSubtype(a, t, ctx, depth, sigma) <==> Holds(t, Above(a, ctx, depth, sigma))
  {
    PositiveHeadRows(t, ctx.cap);
    DifferenceCapFree(a, t, ctx.cap);
    ChoicesDecide(a, t, ctx, depth, sigma);
    ChoicesAndRows(ToRdnf(t, ctx.cap), Above(a, ctx, depth, sigma));
    RdnfPreservesMeaning(t, ctx.cap, Above(a, ctx, depth, sigma));
  }

  // ---------- what is offered is accepted, and nothing else ----------

  /** `w` stands for all values of `a`: it is the literal, or no literal of `t` names it. */
  predicate Represents(w: Value, a: Ty, c: Conjunction)
    requires IsBasic(a)
  {
    if a.Nominal? then Offers(a, w) && Unnamed(w, c) else w == LiteralValue(a)
  }

  lemma LeafAgrees(a: Ty, t: Ty, ctx: Ctx, depth: nat, sigma: Sigma, w: Value)
    requires IsBasic(a) && Guarded(t, 0) && Contractive(t) && !t.Union? && !t.Inter? && !t.Neg? && depth < ctx.limit
    requires Represents(w, a, Literals(t))
    ensures Holds(t, Above(a, ctx, depth, sigma)) <==> Offers(t, w)
  {
    if !IsBoolean(t) {
      AtomAgrees(a, t, ctx, depth, sigma, w);
      assert Holds(t, Above(a, ctx, depth, sigma)) == AtomSubtype(a, t, ctx, depth, sigma).ok;
    }
  }

  lemma AtomAgrees(a: Ty, t: Ty, ctx: Ctx, depth: nat, sigma: Sigma, w: Value)
    requires IsBasic(a) && (IsBasic(t) || t.Record?) && depth < ctx.limit && Represents(w, a, Literals(t))
    ensures AtomSubtype(a, t, ctx, depth, sigma).ok <==> Offers(t, w)
  {
    if t.Record? {
      assert AtomSubtype(a, t, ctx, depth, sigma) == Verdict(false, sigma);
    } else if a.Nominal? && IsLiteral(t) {
      UnnamedNotOffered(t, w);
      assert AtomSubtype(a, t, ctx, depth, sigma) == Verdict(false, sigma);
    } else if a.Nominal? {
      assert AtomSubtype(a, t, ctx, depth, sigma) == Verdict(a.id == t.id, sigma);
    } else if t.Nominal? {
      assert AtomSubtype(a, t, ctx, depth, sigma) == Verdict(t == LiteralType(a), sigma);
    } else {
      assert AtomSubtype(a, t, ctx, depth, sigma) == Verdict(a == t, sigma);
    }
  }

  lemma UnnamedNotOffered(t: Ty, w: Value)
    requires IsLiteral(t)
    ensures Unnamed(w, Literals(t)) ==> !Offers(t, w)
  {
    assert Pos(t) in Literals(t);
  }

  lemma {:induction false} HoldsOffers(a: Ty, t: Ty, ctx: Ctx, depth: nat, sigma: Sigma, w: Value)
    requires IsBasic(a) && Guarded(t, 0) && PositiveHead(t) && InnerHeadsFit(t, ctx.cap)
    requires depth + HeadDepth(t) < ctx.limit && Represents(w, a, Literals(t))
    ensures Holds(t, Above(a, ctx, depth, sigma)) <==> Offers(t, w)
    decreases HeadDepth(t), 0, t
  {
    match t
    case Union(members) =>
      forall m | m in members ensures Holds(m, Above(a, ctx, depth, sigma)) <==> Offers(m, w) {
        MemberLiterals(members, m, w);
        HoldsOffers(a, m, ctx, depth, sigma, w);
      }
    case Inter(members) =>
      forall m | m in members ensures Holds(m, Above(a, ctx, depth, sigma)) <==> Offers(m, w) {
        MemberLiterals(members, m, w);
        HoldsOffers(a, m, ctx, depth, sigma, w);
      }
    case Recursive(body) => UnfoldedOffers(a, t, ctx, depth, sigma, w);
    case _ => LeafAgrees(a, t, ctx, depth, sigma, w);
  }

  lemma MemberLiterals(members: seq<Ty>, m: Ty, w: Value)
    requires m in members
    ensures Unnamed(w, AllLiterals(members)) ==> Unnamed(w, Literals(m))
  {
    forall s | s in Literals(m) ensures s in AllLiterals(members) { LiteralsOf(members, m, s); }
  }

  lemma {:induction false} UnfoldedOffers(a: Ty, t: Ty, ctx: Ctx, depth: nat, sigma: Sigma, w: Value)
    requires IsBasic(a) && t.Recursive? && Guarded(t, 0) && PositiveHead(t) && InnerHeadsFit(t, ctx.cap)
    requires depth + HeadDepth(t) < ctx.limit && Represents(w, a, Literals(t))
    ensures Holds(t, Above(a, ctx, depth, sigma)) <==> Offers(t, w)
    decreases HeadDepth(t), 0, t, 0
  {
    UnfoldedHead(t, ctx.cap, w);
    AtomBelowFold(a, t, ctx, depth, sigma);
    BasicBelow(a, UnfoldTy(t), ctx, depth + 1, sigma, w);
  }

  /** Unfolding keeps what is asked of a head, and what it offers. */
  lemma UnfoldedHead(t: Ty, cap: nat, w: Value)
    requires t.Recursive? && Guarded(t, 0) && PositiveHead(t) && InnerHeadsFit(t, cap)
    ensures var u := UnfoldTy(t);
      && Guarded(u, 0) && HeadDepth(u) + 1 == HeadDepth(t) && PositiveHead(u) && HeadFits(u, cap)
      && Literals(u) == Literals(t) && (Offers(u, w) <==> Offers(t, w))
  {
    UnfoldGuarded(t);
    SubstPositiveHead(t.body, 0, t);
    SubstNegationFits(t.body, cap, 0, t);
    SubstInnerHeads(t.body, cap, 0, t);
    SubstLiterals(t.body, 0, t);
    SubstOffers(t.body, 0, t, w);
  }

  lemma {:induction false} BasicBelow(a: Ty, t: Ty, ctx: Ctx, depth: nat, sigma: Sigma, w: Value)
    requires IsBasic(a) && Guarded(t, 0) && PositiveHead(t) && HeadFits(t, ctx.cap)
    requires depth + HeadDepth(t) < ctx.limit && Represents(w, a, Literals(t))
    ensures IsSubtype(a, t, ctx, depth, sigma) <==> Offers(t, w)
    decreases HeadDepth(t), 1
  {
    PositiveQuestion(a, t, ctx, depth, sigma);
    HoldsOffers(a, t, ctx, depth, sigma, w);
  }

  // ---------- the theorem ----------

  /** What a positive type offers an unnamed value of a nominal type, it offers all of them. */
  lemma {:induction false} OffersAll(t: Ty, n: nat, w: Value, v: Value)
    requires PositiveHead(t) && Offers(Nominal(n), w) && Unnamed(w, Literals(t)) && Offers(Nominal(n), v) && Offers(t, w)
    ensures Offers(t, v)
    decreases t
  {
    match t
    case IntLit(_) | StrLit(_) | FloatLit(_) => UnnamedNotOffered(t, w);
    case Union(members) =>
      var m :| m in members && Offers(m, w);
      MemberLiterals(members, m, w);
      OffersAll(m, n, w, v);
    case Inter(members) =>
      forall m | m in members ensures Offers(m, v) {
        MemberLiterals(members, m, w);
        OffersAll(m, n, w, v);
      }
    case Recursive(body) => OffersAll(body, n, w, v);
    case _ =>
  }

  lemma IncludedIffOffers(a: Ty, t: Ty, w: Value)
    requires IsBasic(a) && Guarded(t, 0) && PositiveHead(t) && Represents(w, a, Literals(t))
    ensures Included(a, t) <==> Offers(t, w)
  {
    forall v: Value ensures In(v, a) <==> !v.VRecord? && Offers(a, v) {
      if !v.VRecord? { OffersIff(a, v); }
    }
    assert In(w, a);
    OffersIff(t, w);
    if Offers(t, w) {
      forall v: Value | In(v, a) ensures In(v, t) {
        if a.Nominal? { OffersAll(t, a.id, w, v); } else { assert v == w; }
        OffersIff(t, v);
      }
    }
  }

  /** A literal or nominal type is accepted below a positive type, recursive types at its head included,
      exactly when all its values are in it. */
  lemma BasicBelowIff(a: Ty, t: Ty, ctx: Ctx, depth: nat, sigma: Sigma)
    requires IsBasic(a) && Guarded(t, 0) && PositiveHead(t) && HeadFits(t, ctx.cap)
    requires depth + HeadDepth(t) < ctx.limit
    ensures IsSubtype(a, t, ctx, depth, sigma) <==> Included(a, t)
  {
    var w := if a.Nominal? then NominalWitness(a.id, Literals(t)) else LiteralValue(a);
    if a.Nominal? { WitnessUnnamed(a.id, Literals(t)); }
    BasicBelow(a, t, ctx, depth, sigma, w);
    IncludedIffOffers(a, t, w);
  }
}
