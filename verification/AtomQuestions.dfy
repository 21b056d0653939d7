/** Questions between unions of atoms, and between two atoms: the normal form collapses to one
    row of comparisons per left-hand atom. */
module AtomQuestions {
  import opened Types
  import opened Rdnf
  import opened Unfold
  import opened RdnfMeaning
  import opened Subtype
  import opened Emptiness

  function PosRows(atoms: seq<Ty>): (r: Rdnf)
    ensures |r| == |atoms| && forall i :: 0 <= i < |atoms| ==> r[i] == [Pos(atoms[i])]
  {
    if atoms == [] then [] else [[Pos(atoms[0])]] + PosRows(atoms[1..])
  }

  function NegRow(atoms: seq<Ty>): Conjunction {
    if atoms == [] then [] else [NegAtom(atoms[0])] + NegRow(atoms[1..])
  }

  lemma {:induction false} NegateRows(prefix: Conjunction, atoms: seq<Ty>, cap: nat)
    requires 1 <= cap
    ensures NegateFrom([prefix], PosRows(atoms), cap) == [prefix + NegRow(atoms)]
    decreases |atoms|
  {
    if atoms == [] {
      assert prefix + [] == prefix;
    } else {
      var rows := PosRows(atoms);
      assert rows[1..] == PosRows(atoms[1..]);
      var next := prefix + [NegAtom(atoms[0])];
      SingleRowStep(prefix, atoms[0], cap);
      NegateRows(next, atoms[1..], cap);
      assert prefix + NegRow(atoms) == next + NegRow(atoms[1..]);
    }
  }

  lemma SingleRowStep(prefix: Conjunction, a: Ty, cap: nat)
    requires 1 <= cap
    ensures Distribute([prefix], NegateAtoms([Pos(a)]), cap) == [prefix + [NegAtom(a)]]
  {
    var n := NegateAtoms([Pos(a)]);
    assert n == [[NegAtom(a)]];
    var left := [prefix];
    assert left[..0] == [];
    assert Product(left, n) == Product(left[..0], n) + RowTimes(prefix, n);
    assert RowTimes(prefix, n) == [prefix + n[0]];
  }

  lemma {:induction false} OneAtomConjunction(a: Ty, bs: seq<Ty>)
    ensures Positives([Pos(a)] + NegRow(bs)) == [a]
    ensures Negatives([Pos(a)] + NegRow(bs)) == bs
  {
    var c := [Pos(a)] + NegRow(bs);
    assert c[1..] == NegRow(bs);
    NegRowOnly(bs);
  }

  lemma {:induction false} NegRowOnly(bs: seq<Ty>)
    ensures Positives(NegRow(bs)) == [] && Negatives(NegRow(bs)) == bs
  {
    if bs != [] {
      assert NegRow(bs)[1..] == NegRow(bs[1..]);
      NegRowOnly(bs[1..]);
    }
  }

  lemma OneAtomEmpty(a: Ty, bs: seq<Ty>, ctx: Ctx, depth: nat, sigma: Sigma)
    ensures ConjunctionEmpty([Pos(a)] + NegRow(bs), ctx, depth, sigma).ok
         == SubsumedBy(a, bs, ctx, depth, sigma).ok
  {
    OneAtomConjunction(a, bs);
    var v := SubsumedBy(a, bs, ctx, depth, sigma);
    assert SomeSubsumed([a], bs, ctx, depth, sigma)
        == if v.ok then v else SomeSubsumed([a][1..], bs, ctx, depth, v.sigma);
  }

  lemma {:induction false} ProductSingle(left: Rdnf, n: Conjunction)
    ensures |Product(left, [n])| == |left|
    ensures forall i :: 0 <= i < |left| ==> Product(left, [n])[i] == left[i] + n
  {
    if left != [] {
      var k := |left| - 1;
      ProductSingle(left[..k], n);
      assert RowTimes(left[k], [n]) == [left[k] + n];
    }
  }

  lemma DistributeRows(atoms: seq<Ty>, n: Conjunction, cap: nat)
    requires |atoms| <= cap
    ensures var d := Distribute(PosRows(atoms), [n], cap);
      |d| == |atoms| && forall i :: 0 <= i < |atoms| ==> d[i] == [Pos(atoms[i])] + n
  {
    ProductSingle(PosRows(atoms), n);
  }

  /** Neither side is settled before normalisation. */
  predicate Normalises(sub: Ty, sup: Ty) {
    && !sub.Error? && !sup.Error? && !sub.Unknown? && !sup.Unknown?
    && !sub.Var? && !sup.Var? && !sub.Never? && !sup.Top?
  }

  lemma RowsQuestion(sub: Ty, sup: Ty, atoms: seq<Ty>, bs: seq<Ty>, ctx: Ctx, depth: nat, sigma: Sigma)
    requires Normalises(sub, sup) && 1 <= ctx.cap && |atoms| <= ctx.cap
    requires ToRdnf(sub, ctx.cap) == PosRows(atoms) && ToRdnf(sup, ctx.cap) == PosRows(bs)
    ensures IsSubtype(sub, sup, ctx, depth, sigma)
       <==> forall i :: 0 <= i < |atoms| ==> SubsumedBy(atoms[i], bs, ctx, depth, sigma).ok
  {
    DiffRdnf(sub, sup, ctx.cap);
    NegateRows([], bs, ctx.cap);
    var n := NegRow(bs);
    assert [] + n == n;
    DistributeRows(atoms, n, ctx.cap);
    var d := Distribute(PosRows(atoms), [n], ctx.cap);
    RdnfEmptyIff(d, ctx, depth, sigma);
    forall i | 0 <= i < |atoms|
      ensures ConjunctionEmpty(d[i], ctx, depth, sigma).ok == SubsumedBy(atoms[i], bs, ctx, depth, sigma).ok
    {
      OneAtomEmpty(atoms[i], bs, ctx, depth, sigma);
    }
    assert forall c :: c in d ==> exists i :: 0 <= i < |atoms| && d[i] == c;
    assert forall i :: 0 <= i < |atoms| ==> d[i] in d;
  }

  lemma {:induction false} UnionOfAtoms(atoms: seq<Ty>, cap: nat)
    requires forall a :: a in atoms ==> !IsBoolean(a)
    ensures ToRdnf(Union(atoms), cap) == PosRows(atoms)
  {
    UnionRdnfOfAtoms(atoms, cap);
  }

  lemma {:induction false} UnionRdnfOfAtoms(atoms: seq<Ty>, cap: nat)
    requires forall a :: a in atoms ==> !IsBoolean(a)
    ensures UnionRdnf(atoms, cap) == PosRows(atoms)
  {
    if atoms != [] {
      assert atoms[0] in atoms;
      UnionRdnfOfAtoms(atoms[1..], cap);
    }
  }

  lemma SubsumedByOne(p: Ty, q: Ty, ctx: Ctx, depth: nat, sigma: Sigma)
    ensures SubsumedBy(p, [q], ctx, depth, sigma) == AtomSubtype(p, q, ctx, depth, sigma)
  {
    var v := AtomSubtype(p, q, ctx, depth, sigma);
    assert SubsumedBy(p, [q], ctx, depth, sigma)
        == if v.ok then v else SubsumedBy(p, [q][1..], ctx, depth, v.sigma);
  }

  /** Between two atoms, the whole normalisation comes down to the atom rule. */
  lemma AtomQuestion(p: Ty, q: Ty, ctx: Ctx, depth: nat, sigma: Sigma)
    requires !IsBoolean(p) && !IsBoolean(q) && !p.Var? && !q.Var? && 1 <= ctx.cap
    ensures IsSubtype(p, q, ctx, depth, sigma) == AtomSubtype(p, q, ctx, depth, sigma).ok
  {
    assert PosRows([p]) == [[Pos(p)]] && PosRows([q]) == [[Pos(q)]];
    RowsQuestion(p, q, [p], [q], ctx, depth, sigma);
    SubsumedByOne(p, q, ctx, depth, sigma);
  }

  /** A single atom against a type without values, and Top against an atom, are rejected. */
  lemma AtomAboveNever(p: Ty, ctx: Ctx, depth: nat, sigma: Sigma)
    requires !IsBoolean(p) && !p.Var? && 1 <= ctx.cap
    ensures !IsSubtype(p, Never, ctx, depth, sigma)
  {
    assert PosRows([p]) == [[Pos(p)]];
    RowsQuestion(p, Never, [p], [], ctx, depth, sigma);
    assert [p][0] == p;
  }

  lemma TopAboveAtom(q: Ty, ctx: Ctx, depth: nat, sigma: Sigma)
    requires !IsBoolean(q) && !q.Var? && 1 <= ctx.cap
    ensures !IsSubtype(Top, q, ctx, depth, sigma)
  {
    DiffRdnf(Top, q, ctx.cap);
    NegateRows([], [q], ctx.cap);
    var n := NegRow([q]);
    assert PosRows([q]) == [[Pos(q)]] && [] + n == n;
    ProductSingle(TopRdnf, n);
    var d := Distribute(TopRdnf, [n], ctx.cap);
    assert d[0] == [] + n == n;
    NegRowOnly([q]);
    RdnfEmptyIff(d, ctx, depth, sigma);
    assert d[0] in d;
    assert n == [NegAtom(q)] + NegRow([q][1..]);
  }

  lemma InterOfTwoAtoms(p: Ty, q: Ty, cap: nat)
    requires !IsBoolean(p) && !IsBoolean(q) && 1 <= cap
    ensures ToRdnf(Inter([p, q]), cap) == [[Pos(p), Pos(q)]]
    ensures CapFree(Inter([p, q]), cap)
  {
    var members, left, right := [p, q], [[Pos(p)]], [[Pos(q)]];
    assert members[1..] == [q] && members[1..][1..] == [];
    ProductSingle(left, [Pos(q)]);
    var rows := Distribute(left, right, cap);
    assert rows[0] == [Pos(p)] + [Pos(q)] == [Pos(p), Pos(q)];
    assert rows == [rows[0]];
    assert ToRdnf(Inter(members), cap) == InterFrom(left, members[1..], cap);
    assert InterFrom(rows, members[1..][1..], cap) == rows;
    assert InterFrom(left, members[1..], cap) == InterFrom(Distribute(left, ToRdnf(q, cap), cap), members[1..][1..], cap);
    assert InterFits(rows, members[1..][1..], cap);
    assert Fits(left, ToRdnf(q, cap), cap);
    assert InterFits(left, members[1..], cap);
  }

  lemma TwoAtomsNegated(p: Ty, q: Ty, cap: nat)
    requires 2 <= cap
    ensures var row := [Pos(p), Pos(q)];
      NegateFits(TopRdnf, [row], cap) && |Negate([row], cap)| <= 2
  {
    var row := [Pos(p), Pos(q)];
    var negs, rows := NegateAtoms(row), [row];
    assert rows[1..] == [];
    assert TopRdnf[..0] == [];
    assert Product(TopRdnf, negs) == Product(TopRdnf[..0], negs) + RowTimes([], negs);
    var next := Distribute(TopRdnf, negs, cap);
    assert NegateFrom(next, rows[1..], cap) == next && NegateFits(next, rows[1..], cap);
    assert Negate(rows, cap) == next;
  }

  lemma DifferenceCapFree(a: Ty, b: Ty, cap: nat)
    requires CapFree(a, cap) && CapFree(b, cap) && NegateFits(TopRdnf, ToRdnf(b, cap), cap)
    requires |ToRdnf(a, cap)| == 1 && |Negate(ToRdnf(b, cap), cap)| <= cap
    ensures CapFree(Inter([a, Neg(b)]), cap)
  {
    var members, left := [a, Neg(b)], ToRdnf(a, cap);
    assert members[1..] == [Neg(b)] && members[1..][1..] == [];
    assert CapFree(Neg(b), cap) && Fits(left, ToRdnf(Neg(b), cap), cap);
    assert InterFits(Distribute(left, ToRdnf(Neg(b), cap), cap), members[1..][1..], cap);
    assert InterFits(left, members[1..], cap);
  }

  /** Two recursive types: a hypothesis answers, or one is added and the unfoldings are compared. */
  lemma RecursiveVerdict(p: Ty, q: Ty, ctx: Ctx, depth: nat, sigma: Sigma)
    requires p.Recursive? && q.Recursive?
    ensures var key := (ctx.key(p), ctx.key(q));
      AtomSubtype(p, q, ctx, depth, sigma) ==
        if depth >= ctx.limit then Verdict(false, sigma)
        else if key in sigma then Verdict(true, sigma)
        else Verdict(IsSubtype(UnfoldTy(p), UnfoldTy(q), ctx, depth + 1, sigma + {key}), sigma + {key})
  {
  }

  lemma {:induction false} FieldAccepted(sub: seq<Field>, sup: seq<Field>, ctx: Ctx, depth: nat, sigma: Sigma, i: nat)
    requires depth < ctx.limit && i < |sup| && FieldsSubtype(sub, sup, ctx, depth, sigma)
    ensures Lookup(sub, sup[i].key).Some?
    ensures IsSubtype(Lookup(sub, sup[i].key).value, sup[i].ty, ctx, depth + 1, sigma)
  {
    if i > 0 {
      FieldAccepted(sub, sup[1..], ctx, depth, sigma, i - 1);
    }
  }

  lemma {:induction false} UniformEach(fields: seq<Field>, declared: set<string>, t: Ty, ctx: Ctx, depth: nat, sigma: Sigma)
    requires depth < ctx.limit
    ensures FieldsUniform(fields, declared, t, ctx, depth, sigma) <==>
      forall i :: 0 <= i < |fields| ==>
        (fields[i].key.StrKey? && fields[i].key.name in declared) || IsSubtype(fields[i].ty, t, ctx, depth + 1, sigma)
    decreases |fields|
  {
    if fields != [] {
      var rest := fields[1..];
      UniformEach(rest, declared, t, ctx, depth, sigma);
      assert forall i :: 0 < i < |fields| ==> fields[i] == rest[i - 1];
      assert forall i :: 0 <= i < |rest| ==> rest[i] == fields[i + 1];
    }
  }

  predicate FieldAccepts(sub: seq<Field>, sup: Field, ctx: Ctx, depth: nat, sigma: Sigma) {
    && Lookup(sub, sup.key).Some?
    && IsSubtype(Lookup(sub, sup.key).value, sup.ty, ctx, depth + 1, sigma)
  }

  lemma {:induction false} FieldsEach(sub: seq<Field>, sup: seq<Field>, ctx: Ctx, depth: nat, sigma: Sigma)
    requires depth < ctx.limit
    ensures FieldsSubtype(sub, sup, ctx, depth, sigma) <==>
      forall i :: 0 <= i < |sup| ==> FieldAccepts(sub, sup[i], ctx, depth, sigma)
    decreases |sup|
  {
    if sup != [] {
      var rest := sup[1..];
      FieldsEach(sub, rest, ctx, depth, sigma);
      assert forall i :: 0 < i < |sup| ==> sup[i] == rest[i - 1];
      assert forall i :: 0 <= i < |rest| ==> rest[i] == sup[i + 1];
    }
  }

  lemma {:induction false} ParamsEach(sub: seq<Ty>, sup: seq<Ty>, ctx: Ctx, depth: nat, sigma: Sigma)
    requires depth < ctx.limit && |sub| <= |sup|
    ensures ParamsSubtype(sub, sup, ctx, depth, sigma)
       <==> forall i :: 0 <= i < |sub| ==> IsSubtype(sup[i], sub[i], ctx, depth + 1, sigma)
    decreases |sub|
  {
    if sub != [] {
      ParamsEach(sub[1..], sup[1..], ctx, depth, sigma);
      assert forall i :: 0 < i < |sub| ==> sub[i] == sub[1..][i - 1] && sup[i] == sup[1..][i - 1];
      assert forall i :: 0 <= i < |sub[1..]| ==> sub[1..][i] == sub[i + 1] && sup[1..][i] == sup[i + 1];
    }
  }
}
