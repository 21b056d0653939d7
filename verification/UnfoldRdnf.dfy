/** Substitution does not change the shape of a normal form. */
module UnfoldRdnf {
  import opened Types
  import opened Rdnf
  import opened RdnfMeaning
  import opened Unfold

  function SubstSigned(s: Signed, k: nat, r: Ty): Signed {
    match s
    case Pos(a) => Pos(Subst(a, k, r))
    case NegAtom(a) => NegAtom(Subst(a, k, r))
  }

  function SubstConjunction(c: Conjunction, k: nat, r: Ty): (d: Conjunction)
    ensures |d| == |c| && forall i :: 0 <= i < |c| ==> d[i] == SubstSigned(c[i], k, r)
  {
    if c == [] then [] else [SubstSigned(c[0], k, r)] + SubstConjunction(c[1..], k, r)
  }

  function SubstRdnf(rdnf: Rdnf, k: nat, r: Ty): (d: Rdnf)
    ensures |d| == |rdnf| && forall i :: 0 <= i < |rdnf| ==> d[i] == SubstConjunction(rdnf[i], k, r)
  {
    if rdnf == [] then [] else [SubstConjunction(rdnf[0], k, r)] + SubstRdnf(rdnf[1..], k, r)
  }

  lemma SubstConcat(a: Rdnf, b: Rdnf, k: nat, r: Ty)
    ensures SubstRdnf(a + b, k, r) == SubstRdnf(a, k, r) + SubstRdnf(b, k, r)
  {
  }

  lemma SubstAppend(l: Conjunction, c: Conjunction, k: nat, r: Ty)
    ensures SubstConjunction(l + c, k, r) == SubstConjunction(l, k, r) + SubstConjunction(c, k, r)
  {
  }

  lemma SubstRowTimes(l: Conjunction, right: Rdnf, k: nat, r: Ty)
    ensures SubstRdnf(RowTimes(l, right), k, r) == RowTimes(SubstConjunction(l, k, r), SubstRdnf(right, k, r))
  {
    var x, y := SubstRdnf(RowTimes(l, right), k, r), RowTimes(SubstConjunction(l, k, r), SubstRdnf(right, k, r));
    forall i | 0 <= i < |right| ensures x[i] == y[i] {
      SubstAppend(l, right[i], k, r);
    }
  }

  lemma {:induction false} SubstProduct(left: Rdnf, right: Rdnf, k: nat, r: Ty)
    ensures SubstRdnf(Product(left, right), k, r) == Product(SubstRdnf(left, k, r), SubstRdnf(right, k, r))
  {
    if left != [] {
      var n := |left| - 1;
      SubstProduct(left[..n], right, k, r);
      SubstRowTimes(left[n], right, k, r);
      SubstConcat(Product(left[..n], right), RowTimes(left[n], right), k, r);
      assert SubstRdnf(left, k, r)[..n] == SubstRdnf(left[..n], k, r);
    }
  }

  lemma SubstDistribute(left: Rdnf, right: Rdnf, cap: nat, k: nat, r: Ty)
    ensures SubstRdnf(Distribute(left, right, cap), k, r)
         == Distribute(SubstRdnf(left, k, r), SubstRdnf(right, k, r), cap)
    ensures Fits(left, right, cap) <==> Fits(SubstRdnf(left, k, r), SubstRdnf(right, k, r), cap)
  {
    SubstProduct(left, right, k, r);
    SubstTop(k, r);
  }

  lemma SubstTop(k: nat, r: Ty)
    ensures SubstRdnf(TopRdnf, k, r) == TopRdnf
  {
    var d := SubstRdnf(TopRdnf, k, r);
    assert d[0] == SubstConjunction([], k, r) == [];
    assert d == [d[0]];
  }

  lemma SubstNegateAtoms(c: Conjunction, k: nat, r: Ty)
    ensures SubstRdnf(NegateAtoms(c), k, r) == NegateAtoms(SubstConjunction(c, k, r))
  {
    var x, y := SubstRdnf(NegateAtoms(c), k, r), NegateAtoms(SubstConjunction(c, k, r));
    forall i | 0 <= i < |c| ensures x[i] == y[i] {
      var d := SubstConjunction([c[i].Negate()], k, r);
      assert d == [d[0]];
    }
    assert x == y;
  }

  lemma {:induction false} SubstNegateFrom(acc: Rdnf, rdnf: Rdnf, cap: nat, k: nat, r: Ty)
    ensures SubstRdnf(NegateFrom(acc, rdnf, cap), k, r)
         == NegateFrom(SubstRdnf(acc, k, r), SubstRdnf(rdnf, k, r), cap)
    ensures NegateFits(acc, rdnf, cap) <==> NegateFits(SubstRdnf(acc, k, r), SubstRdnf(rdnf, k, r), cap)
    decreases |rdnf|
  {
    if rdnf != [] && rdnf[0] != [] {
      var singles := NegateAtoms(rdnf[0]);
      SubstNegateAtoms(rdnf[0], k, r);
      SubstDistribute(acc, singles, cap, k, r);
      SubstNegateFrom(Distribute(acc, singles, cap), rdnf[1..], cap, k, r);
      assert SubstRdnf(rdnf, k, r)[1..] == SubstRdnf(rdnf[1..], k, r);
    }
  }

  lemma {:induction false} SubstToRdnf(t: Ty, cap: nat, k: nat, r: Ty)
    requires r.Recursive?
    ensures ToRdnf(Subst(t, k, r), cap) == SubstRdnf(ToRdnf(t, cap), k, r)
    ensures CapFree(Subst(t, k, r), cap) <==> CapFree(t, cap)
    decreases t, 1
  {
    match t
    case Union(members) => SubstUnionWhole(members, cap, k, r);
    case Inter(members) =>
      SubstTop(k, r);
      if members != [] { SubstInterRdnf(members, cap, k, r); }
    case Neg(of) => SubstNegRdnf(of, cap, k, r);
    case Top | Never | Unknown | Error => SubstTop(k, r);
    case _ => SubstLoneAtom(t, k, r);
  }

  lemma {:induction false} SubstInterRdnf(members: seq<Ty>, cap: nat, k: nat, r: Ty)
    requires r.Recursive? && members != []
    ensures ToRdnf(Inter(SubstAll(members, k, r)), cap) == SubstRdnf(ToRdnf(Inter(members), cap), k, r)
    ensures CapFree(Inter(SubstAll(members, k, r)), cap) <==> CapFree(Inter(members), cap)
    decreases members, 1
  {
    SubstToRdnf(members[0], cap, k, r);
    SubstInterFrom(ToRdnf(members[0], cap), members[1..], cap, k, r);
    var ms := SubstAll(members, k, r);
    assert ms[0] == Subst(members[0], k, r) && ms[1..] == SubstAll(members[1..], k, r);
  }

  lemma {:induction false} SubstUnionWhole(members: seq<Ty>, cap: nat, k: nat, r: Ty)
    requires r.Recursive?
    ensures ToRdnf(Union(SubstAll(members, k, r)), cap) == SubstRdnf(ToRdnf(Union(members), cap), k, r)
    ensures CapFree(Union(SubstAll(members, k, r)), cap) <==> CapFree(Union(members), cap)
    decreases members, 1
  {
    SubstUnionRdnf(members, cap, k, r);
  }

  lemma {:induction false} SubstNegRdnf(of: Ty, cap: nat, k: nat, r: Ty)
    requires r.Recursive?
    ensures ToRdnf(Neg(Subst(of, k, r)), cap) == SubstRdnf(ToRdnf(Neg(of), cap), k, r)
    ensures CapFree(Neg(Subst(of, k, r)), cap) <==> CapFree(Neg(of), cap)
    decreases of, 2
  {
    SubstTop(k, r);
    SubstToRdnf(of, cap, k, r);
    SubstNegateFrom(TopRdnf, ToRdnf(of, cap), cap, k, r);
  }

  lemma SubstLoneAtom(t: Ty, k: nat, r: Ty)
    ensures SubstRdnf([[Pos(t)]], k, r) == [[Pos(Subst(t, k, r))]]
  {
    var c := SubstConjunction([Pos(t)], k, r);
    assert c == [c[0]];
    var d := SubstRdnf([[Pos(t)]], k, r);
    assert d == [d[0]];
  }

  lemma {:induction false} SubstUnionRdnf(members: seq<Ty>, cap: nat, k: nat, r: Ty)
    requires r.Recursive?
    ensures UnionRdnf(SubstAll(members, k, r), cap) == SubstRdnf(UnionRdnf(members, cap), k, r)
    ensures (forall m :: m in SubstAll(members, k, r) ==> CapFree(m, cap))
       <==> (forall m :: m in members ==> CapFree(m, cap))
    decreases members, 0
  {
    if members != [] {
      SubstToRdnf(members[0], cap, k, r);
      SubstUnionRdnf(members[1..], cap, k, r);
      SubstConcat(ToRdnf(members[0], cap), UnionRdnf(members[1..], cap), k, r);
      var ms := SubstAll(members, k, r);
      assert ms[1..] == SubstAll(members[1..], k, r);
      assert members == [members[0]] + members[1..] && ms == [ms[0]] + ms[1..];
    }
  }

  lemma {:induction false} SubstInterFrom(acc: Rdnf, members: seq<Ty>, cap: nat, k: nat, r: Ty)
    requires r.Recursive?
    ensures InterFrom(SubstRdnf(acc, k, r), SubstAll(members, k, r), cap)
         == SubstRdnf(InterFrom(acc, members, cap), k, r)
    ensures InterFits(SubstRdnf(acc, k, r), SubstAll(members, k, r), cap) <==> InterFits(acc, members, cap)
    decreases members, 0
  {
    if members != [] {
      SubstToRdnf(members[0], cap, k, r);
      SubstDistribute(acc, ToRdnf(members[0], cap), cap, k, r);
      SubstInterFrom(Distribute(acc, ToRdnf(members[0], cap), cap), members[1..], cap, k, r);
      assert SubstAll(members, k, r)[1..] == SubstAll(members[1..], k, r);
    }
  }
}
