/** Lattice laws of the algorithm.  They hold whatever the atom rules answer: only the normal
    form and the way a conjunction is declared empty matter. */
module Lattice {
  import opened Types
  import opened Rdnf
  import opened RdnfMeaning
  import opened Subtype
  import opened Emptiness

  // ---------- comparisons that add no hypothesis ----------

  /** Not recursive, and not an application headed by a recursive type. */
  predicate Quiet(a: Ty) {
    !a.Recursive? && (a.App? ==> Quiet(a.op))
  }

  ghost predicate QuietRdnf(rdnf: Rdnf) {
    forall c, s :: c in rdnf && s in c ==> Quiet(s.atom)
  }

  /** Boolean nodes and references only compare equal by the rule that asks the same question
      one level deeper: it ends at the depth limit with no. */
  lemma {:induction false} SelfLoopRejected(p: Ty, q: Ty, ctx: Ctx, depth: nat, sigma: Sigma)
    requires SameCtor(p, q) && (p.Union? || p.Inter? || p.Neg? || p.RecursiveRef?)
    ensures AtomSubtype(p, q, ctx, depth, sigma) == Verdict(false, sigma)
    decreases Fuel(ctx, depth)
  {
    if depth < ctx.limit {
      SelfLoopRejected(p, q, ctx, depth + 1, sigma);
    }
  }

  lemma {:induction false} QuietSigma(p: Ty, q: Ty, ctx: Ctx, depth: nat, sigma: Sigma)
    requires Quiet(p)
    ensures AtomSubtype(p, q, ctx, depth, sigma).sigma == sigma
    decreases p, q
  {
    if SameCtor(p, q) && (p.Union? || p.Inter? || p.Neg? || p.RecursiveRef?) {
      SelfLoopRejected(p, q, ctx, depth, sigma);
    } else if p.App? && q.App? && depth < ctx.limit {
      QuietSigma(p.op, q.op, ctx, depth + 1, sigma);
      assert AtomSubtype(p, q, ctx, depth, sigma) == AppSubtype(p, q, ctx, depth, sigma);
    } else if p.Nominal? && q.App? && depth < ctx.limit {
      QuietSigma(p, q.op, ctx, depth + 1, sigma);
    }
  }

  lemma QuietStable(c: Conjunction, ctx: Ctx, depth: nat, sigma: Sigma)
    requires forall s :: s in c ==> Quiet(s.atom)
    ensures SigmaStable(Positives(c), Negatives(c), ctx, depth, sigma)
  {
    SignedMembers(c);
    forall p, q | p in Positives(c) && q in Negatives(c)
      ensures AtomSubtype(p, q, ctx, depth, sigma).sigma == sigma
    {
      assert Quiet(Pos(p).atom);
      QuietSigma(p, q, ctx, depth, sigma);
    }
  }

  // ---------- acceptance in terms of hitting sets ----------

  ghost predicate Within(small: Conjunction, big: Conjunction) {
    forall s :: s in small ==> s in big
  }

  /** `n` contains the complement of some atom of the row `r`. */
  ghost predicate Hits(n: Conjunction, r: Conjunction) {
    exists s :: s in n && s.Negate() in r
  }

  ghost predicate Hitting(n: Conjunction, rdnf: Rdnf) {
    forall r :: r in rdnf ==> Hits(n, r)
  }

  /** A larger conjunction is emptier. */
  lemma ClashMonotone(small: Conjunction, big: Conjunction, ctx: Ctx, depth: nat, sigma: Sigma)
    requires Within(small, big) && Clashes(small, ctx, depth, sigma)
    ensures Clashes(big, ctx, depth, sigma)
  {
    if a, b :| Pos(a) in small && Pos(b) in small && AtomsDisjoint(a, b) {
      assert Pos(a) in big && Pos(b) in big;
    } else {
      var p, q :| Pos(p) in small && NegAtom(q) in small && AtomSubtype(p, q, ctx, depth, sigma).ok;
      assert Pos(p) in big && NegAtom(q) in big;
    }
  }

  /** Every hitting conjunction contains a choice. */
  lemma {:induction false} ChoiceWithin(n: Conjunction, rdnf: Rdnf) returns (f: Conjunction)
    requires Hitting(n, rdnf)
    ensures IsChoice(f, rdnf) && Within(f, n)
  {
    if rdnf == [] {
      f := [];
    } else {
      assert rdnf[0] in rdnf;
      var s :| s in n && s.Negate() in rdnf[0];
      var g := ChoiceWithin(n, rdnf[1..]);
      f := [s] + g;
      ChoiceCons(s, g, rdnf);
    }
  }

  lemma ChoiceHits(f: Conjunction, rdnf: Rdnf)
    requires IsChoice(f, rdnf)
    ensures Hitting(f, rdnf)
  {
    forall r | r in rdnf ensures Hits(f, r) {
      var i :| 0 <= i < |rdnf| && rdnf[i] == r;
      assert f[i] in f;
    }
  }

  /** Not decided by the Error, Unknown and inference-variable shortcuts. */
  predicate Ordinary(t: Ty) {
    !t.Error? && !t.Unknown? && !t.Var?
  }

  /** The question `A <: B` is ordinary, adds no hypothesis and stays within the cap. */
  ghost predicate Settled(sub: Ty, sup: Ty, ctx: Ctx) {
    && Ordinary(sub) && Ordinary(sup)
    && CapFree(Inter([sub, Neg(sup)]), ctx.cap)
    && QuietRdnf(ToRdnf(sub, ctx.cap)) && QuietRdnf(ToRdnf(sup, ctx.cap))
  }

  lemma SettledFits(sub: Ty, sup: Ty, cap: nat)
    requires CapFree(Inter([sub, Neg(sup)]), cap)
    ensures CapFree(sub, cap) && CapFree(sup, cap) && NegateFits(TopRdnf, ToRdnf(sup, cap), cap)
    ensures Fits(ToRdnf(sub, cap), Negate(ToRdnf(sup, cap), cap), cap)
  {
    var members := [sub, Neg(sup)];
    assert members[1..] == [Neg(sup)] && members[1..][0] == Neg(sup);
    assert InterFits(ToRdnf(sub, cap), members[1..], cap);
    assert CapFree(Neg(sup), cap);
    assert ToRdnf(Neg(sup), cap) == Negate(ToRdnf(sup, cap), cap);
  }

  ghost predicate Refuted(sub: Rdnf, sup: Rdnf, ctx: Ctx, depth: nat, sigma: Sigma) {
    forall l, n :: l in sub && Hitting(n, sup) ==> Clashes(l + n, ctx, depth, sigma)
  }

  /** The members of the normalised difference are a row of `A` with a choice against `B`. */
  lemma DiffMembers(sub: Ty, sup: Ty, ctx: Ctx, c: Conjunction)
    requires CapFree(Inter([sub, Neg(sup)]), ctx.cap)
    ensures c in ToRdnf(Inter([sub, Neg(sup)]), ctx.cap)
       <==> exists l, n :: l in ToRdnf(sub, ctx.cap) && IsChoice(n, ToRdnf(sup, ctx.cap)) && c == l + n
  {
    SettledFits(sub, sup, ctx.cap);
    DiffRdnf(sub, sup, ctx.cap);
    var left, right := ToRdnf(sub, ctx.cap), ToRdnf(sup, ctx.cap);
    DistributeMembers(left, Negate(right, ctx.cap), ctx.cap, c);
    forall n ensures n in Negate(right, ctx.cap) <==> IsChoice(n, right) {
      NegateMembers(right, ctx.cap, n);
    }
  }

  lemma QuietDifference(l: Conjunction, n: Conjunction, sub: Rdnf, sup: Rdnf)
    requires QuietRdnf(sub) && QuietRdnf(sup) && l in sub && IsChoice(n, sup)
    ensures forall s :: s in l + n ==> Quiet(s.atom)
  {
    forall s | s in n ensures Quiet(s.atom) {
      var i :| 0 <= i < |n| && n[i] == s;
      assert sup[i] in sup && s.Negate() in sup[i] && Quiet(s.Negate().atom);
    }
  }

  /** The shortcuts for Top and Never agree with normalisation. */
  lemma NormalFormDecides(sub: Ty, sup: Ty, ctx: Ctx, depth: nat, sigma: Sigma)
    requires Settled(sub, sup, ctx)
    ensures IsSubtype(sub, sup, ctx, depth, sigma)
       <==> RdnfEmpty(ToRdnf(Inter([sub, Neg(sup)]), ctx.cap), ctx, depth, sigma)
  {
    DiffRdnf(sub, sup, ctx.cap);
    if sup.Top? {
      assert Negate(TopRdnf, ctx.cap) == [];
    }
  }

  lemma {:induction false} AcceptedIffRefuted(sub: Ty, sup: Ty, ctx: Ctx, depth: nat, sigma: Sigma)
    requires Settled(sub, sup, ctx)
    ensures IsSubtype(sub, sup, ctx, depth, sigma)
       <==> Refuted(ToRdnf(sub, ctx.cap), ToRdnf(sup, ctx.cap), ctx, depth, sigma)
  {
    var left, right := ToRdnf(sub, ctx.cap), ToRdnf(sup, ctx.cap);
    var diff := ToRdnf(Inter([sub, Neg(sup)]), ctx.cap);
    NormalFormDecides(sub, sup, ctx, depth, sigma);
    RdnfEmptyIff(diff, ctx, depth, sigma);
    if RdnfEmpty(diff, ctx, depth, sigma) {
      forall l, n | l in left && Hitting(n, right) ensures Clashes(l + n, ctx, depth, sigma) {
        var f := ChoiceWithin(n, right);
        DiffMembers(sub, sup, ctx, l + f);
        ClashOfMember(l, f, sub, sup, ctx, depth, sigma);
        ClashMonotone(l + f, l + n, ctx, depth, sigma);
      }
    }
    if Refuted(left, right, ctx, depth, sigma) {
      forall c | c in diff ensures ConjunctionEmpty(c, ctx, depth, sigma).ok {
        DiffMembers(sub, sup, ctx, c);
        var l, n :| l in left && IsChoice(n, right) && c == l + n;
        ChoiceHits(n, right);
        ClashOfMember(l, n, sub, sup, ctx, depth, sigma);
      }
    }
  }

  lemma ClashOfMember(l: Conjunction, n: Conjunction, sub: Ty, sup: Ty, ctx: Ctx, depth: nat, sigma: Sigma)
    requires Settled(sub, sup, ctx) && l in ToRdnf(sub, ctx.cap) && IsChoice(n, ToRdnf(sup, ctx.cap))
    ensures ConjunctionEmpty(l + n, ctx, depth, sigma).ok <==> Clashes(l + n, ctx, depth, sigma)
  {
    QuietDifference(l, n, ToRdnf(sub, ctx.cap), ToRdnf(sup, ctx.cap));
    QuietStable(l + n, ctx, depth, sigma);
    ConjunctionEmptyIff(l + n, ctx, depth, sigma);
  }

  // ---------- rows of unions and intersections ----------

  lemma {:induction false} UnionRows(members: seq<Ty>, cap: nat, c: Conjunction)
    ensures c in UnionRdnf(members, cap) <==> exists m :: m in members && c in ToRdnf(m, cap)
    decreases |members|
  {
    if members != [] {
      var first, rest := members[0], members[1..];
      UnionRows(rest, cap, c);
      assert c in UnionRdnf(members, cap) <==> c in ToRdnf(first, cap) || c in UnionRdnf(rest, cap);
      assert forall m :: m in members <==> m == first || m in rest;
    }
  }

  lemma PairWithin(acc: Rdnf, right: Rdnf, cap: nat, x: Conjunction, c: Conjunction)
    requires Fits(acc, right, cap) && x in Distribute(acc, right, cap) && Within(x, c)
    ensures exists a :: a in acc && Within(a, c)
    ensures exists r :: r in right && Within(r, c)
  {
    DistributeMembers(acc, right, cap, x);
    var a, r :| a in acc && r in right && x == a + r;
    assert Within(a, c) && Within(r, c);
  }

  /** Every row of an intersection contains a row of each member. */
  lemma {:induction false} InterRowContains(acc: Rdnf, members: seq<Ty>, cap: nat, c: Conjunction)
    requires InterFits(acc, members, cap) && c in InterFrom(acc, members, cap)
    ensures exists a :: a in acc && Within(a, c)
    ensures forall m :: m in members ==> exists r :: r in ToRdnf(m, cap) && Within(r, c)
    decreases |members|
  {
    if members == [] {
      assert Within(c, c);
    } else {
      var right := ToRdnf(members[0], cap);
      var next := Distribute(acc, right, cap);
      InterRowContains(next, members[1..], cap, c);
      var x :| x in next && Within(x, c);
      PairWithin(acc, right, cap, x, c);
      assert members == [members[0]] + members[1..];
    }
  }

  lemma MissedTogether(n: Conjunction, a: Conjunction, r: Conjunction)
    requires !Hits(n, a) && !Hits(n, r)
    ensures !Hits(n, a + r)
  {
  }

  /** The choice argument: whatever hits every row of an intersection already hits every row of
      one operand, for otherwise the two missed rows together would be missed. */
  lemma {:induction false} InterHitSplits(n: Conjunction, acc: Rdnf, members: seq<Ty>, cap: nat)
    requires InterFits(acc, members, cap) && Hitting(n, InterFrom(acc, members, cap))
    ensures Hitting(n, acc) || exists m :: m in members && Hitting(n, ToRdnf(m, cap))
    decreases |members|
  {
    if members != [] {
      var right := ToRdnf(members[0], cap);
      var next := Distribute(acc, right, cap);
      InterHitSplits(n, next, members[1..], cap);
      if Hitting(n, next) {
        if !Hitting(n, acc) && !Hitting(n, right) {
          var a :| a in acc && !Hits(n, a);
          var r :| r in right && !Hits(n, r);
          DistributeMembers(acc, right, cap, a + r);
          MissedTogether(n, a, r);
        }
        assert members[0] in members;
      } else {
        var m :| m in members[1..] && Hitting(n, ToRdnf(m, cap));
        assert m in members;
      }
    }
  }

  lemma EmptyRowNotHit(n: Conjunction)
    ensures !Hitting(n, TopRdnf)
  {
    assert TopRdnf[0] in TopRdnf && !Hits(n, []);
  }

  lemma HitsWithin(n: Conjunction, small: Conjunction, big: Conjunction)
    requires Hits(n, small) && Within(small, big)
    ensures Hits(n, big)
  {
    var s :| s in n && s.Negate() in small;
    assert s.Negate() in big;
  }

  // ---------- the laws ----------

  /** A union is below `S` iff every member is. */
  lemma UnionBelow(members: seq<Ty>, sup: Ty, ctx: Ctx, depth: nat, sigma: Sigma)
    requires Settled(Union(members), sup, ctx)
    requires forall m :: m in members ==> Settled(m, sup, ctx)
    ensures IsSubtype(Union(members), sup, ctx, depth, sigma)
       <==> forall m :: m in members ==> IsSubtype(m, sup, ctx, depth, sigma)
  {
    AcceptedIffRefuted(Union(members), sup, ctx, depth, sigma);
    forall m | m in members
      ensures IsSubtype(m, sup, ctx, depth, sigma)
         <==> Refuted(ToRdnf(m, ctx.cap), ToRdnf(sup, ctx.cap), ctx, depth, sigma)
    {
      AcceptedIffRefuted(m, sup, ctx, depth, sigma);
    }
    forall c ensures c in UnionRdnf(members, ctx.cap) <==> exists m :: m in members && c in ToRdnf(m, ctx.cap) {
      UnionRows(members, ctx.cap, c);
    }
  }

  /** Below one member of a union is below the union. */
  lemma BelowUnion(sub: Ty, members: seq<Ty>, m: Ty, ctx: Ctx, depth: nat, sigma: Sigma)
    requires Settled(sub, Union(members), ctx) && m in members && Settled(sub, m, ctx)
    requires IsSubtype(sub, m, ctx, depth, sigma)
    ensures IsSubtype(sub, Union(members), ctx, depth, sigma)
  {
    AcceptedIffRefuted(sub, Union(members), ctx, depth, sigma);
    AcceptedIffRefuted(sub, m, ctx, depth, sigma);
    forall n | Hitting(n, UnionRdnf(members, ctx.cap)) ensures Hitting(n, ToRdnf(m, ctx.cap)) {
      forall r | r in ToRdnf(m, ctx.cap) ensures Hits(n, r) {
        UnionRows(members, ctx.cap, r);
      }
    }
  }

  /** Rows of an intersection, whichever member is looked at. */
  lemma InterRows(members: seq<Ty>, m: Ty, cap: nat, c: Conjunction)
    requires CapFree(Inter(members), cap) && m in members && c in ToRdnf(Inter(members), cap)
    ensures exists r :: r in ToRdnf(m, cap) && Within(r, c)
  {
    InterRowContains(ToRdnf(members[0], cap), members[1..], cap, c);
    assert members == [members[0]] + members[1..];
  }

  /** If one member of an intersection is below `S`, so is the intersection. */
  lemma InterBelow(members: seq<Ty>, m: Ty, sup: Ty, ctx: Ctx, depth: nat, sigma: Sigma)
    requires Settled(Inter(members), sup, ctx) && m in members && Settled(m, sup, ctx)
    requires IsSubtype(m, sup, ctx, depth, sigma)
    ensures IsSubtype(Inter(members), sup, ctx, depth, sigma)
  {
    AcceptedIffRefuted(Inter(members), sup, ctx, depth, sigma);
    AcceptedIffRefuted(m, sup, ctx, depth, sigma);
    SettledFits(Inter(members), sup, ctx.cap);
    forall l, n | l in ToRdnf(Inter(members), ctx.cap) && Hitting(n, ToRdnf(sup, ctx.cap))
      ensures Clashes(l + n, ctx, depth, sigma)
    {
      InterRows(members, m, ctx.cap, l);
      var r :| r in ToRdnf(m, ctx.cap) && Within(r, l);
      ClashMonotone(r + n, l + n, ctx, depth, sigma);
    }
  }

  /** `S` is below an intersection iff it is below every member. */
  lemma BelowInter(sub: Ty, members: seq<Ty>, ctx: Ctx, depth: nat, sigma: Sigma)
    requires Settled(sub, Inter(members), ctx)
    requires forall m :: m in members ==> Settled(sub, m, ctx)
    ensures IsSubtype(sub, Inter(members), ctx, depth, sigma)
       <==> forall m :: m in members ==> IsSubtype(sub, m, ctx, depth, sigma)
  {
    var left, right := ToRdnf(sub, ctx.cap), ToRdnf(Inter(members), ctx.cap);
    AcceptedIffRefuted(sub, Inter(members), ctx, depth, sigma);
    SettledFits(sub, Inter(members), ctx.cap);
    forall m | m in members
      ensures IsSubtype(sub, m, ctx, depth, sigma) <==> Refuted(left, ToRdnf(m, ctx.cap), ctx, depth, sigma)
      ensures forall n :: Hitting(n, ToRdnf(m, ctx.cap)) ==> Hitting(n, right)
    {
      AcceptedIffRefuted(sub, m, ctx, depth, sigma);
      forall n, c | Hitting(n, ToRdnf(m, ctx.cap)) && c in right ensures Hits(n, c) {
        InterRows(members, m, ctx.cap, c);
        var r :| r in ToRdnf(m, ctx.cap) && Within(r, c);
        HitsWithin(n, r, c);
      }
    }
    forall n | Hitting(n, right) ensures exists m :: m in members && Hitting(n, ToRdnf(m, ctx.cap)) {
      if members == [] {
        EmptyRowNotHit(n);
      } else {
        InterHitSplits(n, ToRdnf(members[0], ctx.cap), members[1..], ctx.cap);
        assert members == [members[0]] + members[1..];
      }
    }
  }

  // ---------- the types the strict check takes no part in ----------

  /** `Unknown` is below Top and above Never only, and nothing is below or above an error. */
  lemma GradualTypesRejected(t: Ty, ctx: Ctx, depth: nat, sigma: Sigma)
    ensures IsSubtype(Unknown, t, ctx, depth, sigma) <==> t.Top?
    ensures IsSubtype(t, Unknown, ctx, depth, sigma) <==> t.Never?
    ensures !IsSubtype(Error, t, ctx, depth, sigma) && !IsSubtype(t, Error, ctx, depth, sigma)
  {
  }
}
