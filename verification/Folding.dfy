/** A recursive type and its unfolding: neither comparison is always accepted, and what decides them
    are the rows of the unfolding. */
module Folding {
  import opened Types
  import opened Rdnf
  import opened RdnfMeaning
  import opened Unfold
  import opened Subtype
  import opened Emptiness
  import opened Lattice
  import opened AtomQuestions
  import opened Values
  import opened Expansion
  import opened FiniteRuns
  import opened Reflexive
  import opened Counterexamples

  predicate PlainAtom(a: Ty) { Contractive(a) && !a.Var? && !IsBoolean(a) }

  predicate PlainRow(c: Conjunction) { forall s :: s in c ==> PlainAtom(s.atom) }

  /** Rows of positive atoms that are neither recursive nor inference variables. */
  predicate PlainRows(rows: Rdnf) {
    forall c :: c in rows ==> PlainRow(c) && forall s :: s in c ==> s.Pos?
  }

  /** Comparing an atom with a recursive type, either way, asks about the unfolding. */
  lemma AtomBelowFold(p: Ty, t: Ty, ctx: Ctx, depth: nat, sigma: Sigma)
    requires t.Recursive? && PlainAtom(p)
    ensures AtomSubtype(p, t, ctx, depth, sigma)
         == Verdict(depth < ctx.limit && IsSubtype(p, UnfoldTy(t), ctx, depth + 1, sigma), sigma)
    ensures AtomSubtype(t, p, ctx, depth, sigma)
         == Verdict(depth < ctx.limit && IsSubtype(UnfoldTy(t), p, ctx, depth + 1, sigma), sigma)
  {
  }

  lemma RowWithNegative(c: Conjunction, q: Ty)
    requires forall s :: s in c ==> s.Pos?
    ensures forall s :: s in c + [NegAtom(q)] <==> s in c || s == NegAtom(q)
    ensures SomeDisjoint(Positives(c + [NegAtom(q)])) <==> SomeDisjoint(Positives(c))
  {
    SomeDisjointIff(c + [NegAtom(q)]);
    SomeDisjointIff(c);
  }

  /** A row of positives with one negative. */
  lemma OneNegative(c: Conjunction, q: Ty, ctx: Ctx, depth: nat, sigma: Sigma)
    requires forall s :: s in c ==> s.Pos?
    requires forall p :: Pos(p) in c ==> AtomSubtype(p, q, ctx, depth, sigma).sigma == sigma
    ensures ConjunctionEmpty(c + [NegAtom(q)], ctx, depth, sigma).ok <==>
      SomeDisjoint(Positives(c)) || exists p :: Pos(p) in c && AtomSubtype(p, q, ctx, depth, sigma).ok
  {
    var row := c + [NegAtom(q)];
    RowWithNegative(c, q);
    SignedMembers(row);
    SomeSubsumedInSet(row, ctx, depth, sigma);
  }

  /** One positive with a row of negatives. */
  lemma OnePositiveRow(p: Ty, n: Conjunction, ctx: Ctx, depth: nat, sigma: Sigma)
    requires forall s :: s in n ==> s.NegAtom?
    requires forall q :: NegAtom(q) in n ==> AtomSubtype(p, q, ctx, depth, sigma).sigma == sigma
    ensures ConjunctionEmpty([Pos(p)] + n, ctx, depth, sigma).ok <==>
      exists q :: NegAtom(q) in n && AtomSubtype(p, q, ctx, depth, sigma).ok
  {
    var row := [Pos(p)] + n;
    SignedMembers(row);
    assert forall s :: s in row <==> s in n || s == Pos(p);
    SomeDisjointIff(row);
    DisjointIrreflexive(p);
    SomeSubsumedInSet(row, ctx, depth, sigma);
  }

  // ---------- the unfolding below the type ----------

  /** A row that is empty, or of which one atom alone is below `u`. */
  ghost predicate RowFolds(c: Conjunction, u: Ty, ctx: Ctx, depth: nat, sigma: Sigma) {
    SomeDisjoint(Positives(c)) || exists p :: Pos(p) in c && IsSubtype(p, u, ctx, depth, sigma)
  }

  lemma RowAgainstFold(c: Conjunction, t: Ty, ctx: Ctx, depth: nat, sigma: Sigma)
    requires t.Recursive? && PlainRow(c) && (forall s :: s in c ==> s.Pos?) && depth < ctx.limit
    ensures ConjunctionEmpty(c + [NegAtom(t)], ctx, depth, sigma).ok <==> RowFolds(c, UnfoldTy(t), ctx, depth + 1, sigma)
  {
    forall p | Pos(p) in c
      ensures AtomSubtype(p, t, ctx, depth, sigma) == Verdict(IsSubtype(p, UnfoldTy(t), ctx, depth + 1, sigma), sigma)
    {
      assert PlainAtom(Pos(p).atom);
      AtomBelowFold(p, t, ctx, depth, sigma);
    }
    OneNegative(c, t, ctx, depth, sigma);
  }

  lemma FoldRows(u: Ty, t: Ty, cap: nat)
    requires !IsBoolean(t) && 1 <= |ToRdnf(u, cap)| <= cap
    ensures var rows, diff := ToRdnf(u, cap), ToRdnf(Inter([u, Neg(t)]), cap);
      |diff| == |rows| && forall i :: 0 <= i < |rows| ==> diff[i] == rows[i] + [NegAtom(t)]
  {
    DiffRdnf(u, t, cap);
    NegateOne(Pos(t), cap);
    ProductSingle(ToRdnf(u, cap), [NegAtom(t)]);
  }

  lemma AllRowsEmpty(diff: Rdnf, ctx: Ctx, depth: nat, sigma: Sigma)
    ensures RdnfEmpty(diff, ctx, depth, sigma) <==>
      forall i :: 0 <= i < |diff| ==> ConjunctionEmpty(diff[i], ctx, depth, sigma).ok
  {
    RdnfEmptyIff(diff, ctx, depth, sigma);
    assert forall i :: 0 <= i < |diff| ==> diff[i] in diff;
    assert forall c :: c in diff ==> exists i :: 0 <= i < |diff| && diff[i] == c;
  }

  /** The unfolding is below the type exactly when every one of its rows is empty or holds one atom
      that is below the unfolding by itself. */
  lemma FoldIff(t: Ty, ctx: Ctx, depth: nat, sigma: Sigma)
    requires t.Recursive? && PlainRows(ToRdnf(UnfoldTy(t), ctx.cap)) && depth < ctx.limit
    requires 1 <= |ToRdnf(UnfoldTy(t), ctx.cap)| <= ctx.cap && Normalises(UnfoldTy(t), t)
    ensures IsSubtype(UnfoldTy(t), t, ctx, depth, sigma) <==>
      forall i :: 0 <= i < |ToRdnf(UnfoldTy(t), ctx.cap)| ==>
        RowFolds(ToRdnf(UnfoldTy(t), ctx.cap)[i], UnfoldTy(t), ctx, depth + 1, sigma)
  {
    var u := UnfoldTy(t);
    var rows, diff := ToRdnf(u, ctx.cap), ToRdnf(Inter([u, Neg(t)]), ctx.cap);
    FoldRows(u, t, ctx.cap);
    AllRowsEmpty(diff, ctx, depth, sigma);
    forall i | 0 <= i < |rows|
      ensures ConjunctionEmpty(diff[i], ctx, depth, sigma).ok <==> RowFolds(rows[i], u, ctx, depth + 1, sigma)
    {
      assert rows[i] in rows && PlainRow(rows[i]);
      RowAgainstFold(rows[i], t, ctx, depth, sigma);
    }
    assert IsSubtype(u, t, ctx, depth, sigma) == RdnfEmpty(diff, ctx, depth, sigma);
  }

  // ---------- the type below its unfolding ----------

  /** A choice through the rows, one atom of which the whole of `u` is below. */
  ghost predicate ChoiceUnfolds(n: Conjunction, u: Ty, ctx: Ctx, depth: nat, sigma: Sigma) {
    exists q :: NegAtom(q) in n && IsSubtype(u, q, ctx, depth, sigma)
  }

  lemma FoldAgainstChoice(n: Conjunction, t: Ty, ctx: Ctx, depth: nat, sigma: Sigma)
    requires t.Recursive? && depth < ctx.limit && PlainRow(n) && forall s :: s in n ==> s.NegAtom?
    ensures ConjunctionEmpty([Pos(t)] + n, ctx, depth, sigma).ok <==> ChoiceUnfolds(n, UnfoldTy(t), ctx, depth + 1, sigma)
  {
    forall q | NegAtom(q) in n
      ensures AtomSubtype(t, q, ctx, depth, sigma) == Verdict(IsSubtype(UnfoldTy(t), q, ctx, depth + 1, sigma), sigma)
    {
      assert PlainAtom(NegAtom(q).atom);
      AtomBelowFold(q, t, ctx, depth, sigma);
    }
    OnePositiveRow(t, n, ctx, depth, sigma);
  }

  lemma ChoicePlain(n: Conjunction, rows: Rdnf)
    requires PlainRows(rows) && IsChoice(n, rows)
    ensures PlainRow(n) && forall s :: s in n ==> s.NegAtom?
  {
    forall s | s in n ensures PlainAtom(s.atom) && s.NegAtom? {
      var i :| 0 <= i < |n| && n[i] == s;
      assert rows[i] in rows && PlainRow(rows[i]) && s.Negate() in rows[i] && PlainAtom(s.Negate().atom);
    }
  }

  /** The rows of a difference with an atom on the left. */
  lemma AtomRows(p: Ty, u: Ty, ctx: Ctx, c: Conjunction)
    requires !IsBoolean(p) && CapFree(Inter([p, Neg(u)]), ctx.cap)
    ensures c in ToRdnf(Inter([p, Neg(u)]), ctx.cap) <==>
      exists n :: IsChoice(n, ToRdnf(u, ctx.cap)) && c == [Pos(p)] + n
  {
    DiffMembers(p, u, ctx, c);
    assert ToRdnf(p, ctx.cap) == [[Pos(p)]];
    assert [Pos(p)] in ToRdnf(p, ctx.cap);
  }

  /** The type is below its unfolding exactly when every choice of one atom from each row of the
      unfolding holds an atom that the whole unfolding is below. */
  lemma UnfoldIff(t: Ty, ctx: Ctx, depth: nat, sigma: Sigma)
    requires t.Recursive? && PlainRows(ToRdnf(UnfoldTy(t), ctx.cap)) && depth < ctx.limit
    requires CapFree(Inter([t, Neg(UnfoldTy(t))]), ctx.cap) && Normalises(t, UnfoldTy(t))
    ensures IsSubtype(t, UnfoldTy(t), ctx, depth, sigma) <==>
      forall n :: IsChoice(n, ToRdnf(UnfoldTy(t), ctx.cap)) ==> ChoiceUnfolds(n, UnfoldTy(t), ctx, depth + 1, sigma)
  {
    var u := UnfoldTy(t);
    var rows, diff := ToRdnf(u, ctx.cap), ToRdnf(Inter([t, Neg(u)]), ctx.cap);
    RdnfEmptyIff(diff, ctx, depth, sigma);
    assert IsSubtype(t, u, ctx, depth, sigma) == RdnfEmpty(diff, ctx, depth, sigma);
    forall n | IsChoice(n, rows)
      ensures [Pos(t)] + n in diff
      ensures ConjunctionEmpty([Pos(t)] + n, ctx, depth, sigma).ok <==> ChoiceUnfolds(n, u, ctx, depth + 1, sigma)
    {
      AtomRows(t, u, ctx, [Pos(t)] + n);
      ChoicePlain(n, rows);
      FoldAgainstChoice(n, t, ctx, depth, sigma);
    }
    if RdnfEmpty(diff, ctx, depth, sigma) {
      forall n | IsChoice(n, rows) ensures ChoiceUnfolds(n, u, ctx, depth + 1, sigma) {
        assert [Pos(t)] + n in diff;
      }
    } else {
      var c :| c in diff && !ConjunctionEmpty(c, ctx, depth, sigma).ok;
      AtomRows(t, u, ctx, c);
      var n :| IsChoice(n, rows) && c == [Pos(t)] + n;
      assert !ChoiceUnfolds(n, u, ctx, depth + 1, sigma);
    }
  }

  // ---------- when they hold ----------

  lemma RowAndChoice(p: Ty, u: Ty, ctx: Ctx, c: Conjunction)
    requires !IsBoolean(p) && [Pos(p)] in ToRdnf(u, ctx.cap) && CapFree(Inter([p, Neg(u)]), ctx.cap)
    requires c in ToRdnf(Inter([p, Neg(u)]), ctx.cap)
    ensures Pos(p) in c && NegAtom(p) in c
  {
    var rows := ToRdnf(u, ctx.cap);
    AtomRows(p, u, ctx, c);
    var n: Conjunction :| IsChoice(n, rows) && c == [Pos(p)] + n;
    var i :| 0 <= i < |rows| && rows[i] == [Pos(p)];
    assert n[i].Negate() in rows[i];
    assert n[i] == NegAtom(p) && n[i] in n;
  }

  /** An atom that is a row of `u` is below `u`. */
  lemma RowBelow(p: Ty, u: Ty, ctx: Ctx, depth: nat, sigma: Sigma)
    requires PlainAtom(p) && [Pos(p)] in ToRdnf(u, ctx.cap) && Firm(p, p, ctx, depth, sigma)
    requires CapFree(Inter([u, Neg(u)]), ctx.cap) && !u.Error? && !u.Unknown? && !u.Var?
    ensures IsSubtype(p, u, ctx, depth, sigma)
  {
    var diff := ToRdnf(Inter([p, Neg(u)]), ctx.cap);
    RowBelowFits(p, u, ctx.cap);
    forall c | c in diff ensures ConjunctionEmpty(c, ctx, depth, sigma).ok {
      RowAndChoice(p, u, ctx, c);
      FirmEmpty(c, p, p, ctx, depth, sigma);
    }
    RdnfEmptyIff(diff, ctx, depth, sigma);
  }

  lemma AtMostProduct(a: nat, b: nat, cap: nat)
    requires 1 <= a && a * b <= cap
    ensures b <= cap
  {
    assert b <= a * b;
  }

  lemma RowBelowFits(p: Ty, u: Ty, cap: nat)
    requires PlainAtom(p) && [Pos(p)] in ToRdnf(u, cap) && CapFree(Inter([u, Neg(u)]), cap)
    ensures CapFree(Inter([p, Neg(u)]), cap)
  {
    SettledFits(u, u, cap);
    var rows, negs := ToRdnf(u, cap), Negate(ToRdnf(u, cap), cap);
    if negs != [] { AtMostProduct(|rows|, |negs|, cap); }
    DifferenceCapFree(p, u, cap);
  }

  lemma LeavesFirm(u: Ty, a: Ty, ctx: Ctx, depth: nat, sigma: Sigma)
    requires Regular(u) && Tight(u, 0) && SelfFits(u, ctx.cap) && depth + Height(u) <= ctx.limit && Leaf(a, u)
    ensures Firm(a, a, ctx, depth, sigma)
  {
    CloseNothing(a, 0);
    LeafFirm(a, u, [], ctx, depth, sigma);
  }

  /** The unfolding of a recursive type, a union of atoms, is accepted below the type. */
  lemma FoldAccepted(t: Ty, ctx: Ctx)
    requires t.Recursive? && PlainRows(ToRdnf(UnfoldTy(t), ctx.cap)) && Normalises(UnfoldTy(t), t)
    requires forall c :: c in ToRdnf(UnfoldTy(t), ctx.cap) ==> |c| == 1
    requires 1 <= |ToRdnf(UnfoldTy(t), ctx.cap)| <= ctx.cap
    requires Regular(UnfoldTy(t)) && Tight(UnfoldTy(t), 0) && SelfFits(UnfoldTy(t), ctx.cap)
    requires Height(UnfoldTy(t)) < ctx.limit
    ensures IsSubtypeBas(UnfoldTy(t), t, ctx, false)
  {
    var u := UnfoldTy(t);
    var rows := ToRdnf(u, ctx.cap);
    FoldIff(t, ctx, 0, {});
    forall i | 0 <= i < |rows| ensures RowFolds(rows[i], u, ctx, 1, {}) {
      var c := rows[i];
      var p := c[0].atom;
      assert c in rows && PlainRow(c) && c[0] in c && c == [Pos(p)];
      RdnfLeaves(u, ctx.cap, c, c[0]);
      LeavesFirm(u, p, ctx, 1, {});
      RowBelow(p, u, ctx, 1, {});
    }
  }

  /** One row is below each of its atoms. */
  lemma BelowAtom(u: Ty, q: Ty, c: Conjunction, ctx: Ctx, depth: nat, sigma: Sigma)
    requires ToRdnf(u, ctx.cap) == [c] && Pos(q) in c && PlainAtom(q) && Firm(q, q, ctx, depth, sigma) && 1 <= ctx.cap
    requires Normalises(u, q)
    ensures IsSubtype(u, q, ctx, depth, sigma)
  {
    var diff := ToRdnf(Inter([u, Neg(q)]), ctx.cap);
    FoldRows(u, q, ctx.cap);
    AllRowsEmpty(diff, ctx, depth, sigma);
    assert diff[0] == c + [NegAtom(q)];
    FirmEmpty(diff[0], q, q, ctx, depth, sigma);
  }

  /** A recursive type whose unfolding is one intersection of atoms is accepted below it. */
  lemma UnfoldAccepted(t: Ty, c: Conjunction, ctx: Ctx)
    requires t.Recursive? && ToRdnf(UnfoldTy(t), ctx.cap) == [c] && PlainRows([c])
    requires CapFree(Inter([t, Neg(UnfoldTy(t))]), ctx.cap) && Normalises(t, UnfoldTy(t)) && !UnfoldTy(t).Never?
    requires Regular(UnfoldTy(t)) && Tight(UnfoldTy(t), 0) && SelfFits(UnfoldTy(t), ctx.cap)
    requires Height(UnfoldTy(t)) < ctx.limit && 1 <= ctx.cap
    ensures IsSubtypeBas(t, UnfoldTy(t), ctx, false)
  {
    var u := UnfoldTy(t);
    UnfoldIff(t, ctx, 0, {});
    forall n: Conjunction | IsChoice(n, ToRdnf(u, ctx.cap)) ensures ChoiceUnfolds(n, u, ctx, 1, {}) {
      var q := n[0].atom;
      assert n[0].Negate() in c && c in [c];
      assert n[0] == NegAtom(q) && Pos(q) in c && PlainAtom(Pos(q).atom);
      RdnfLeaves(u, ctx.cap, c, Pos(q));
      LeavesFirm(u, q, ctx, 1, {});
      BelowAtom(u, q, c, ctx, 1, {});
      assert n[0] in n;
    }
  }

  // ---------- when they fail ----------

  /** `mu X. (N | { x: X, a: T })` is not accepted below its unfolding: neither member is above both. */
  lemma UnionNotUnfolded(n: nat, t: nat, ctx: Ctx)
    requires 2 <= ctx.cap
    ensures !IsSubtypeBas(Chain(n, t), UnfoldTy(Chain(n, t)), ctx, false)
  {
    var chain, r := Chain(n, t), ChainRecord(n, t);
    var ms := [Nominal(n), r];
    UnfoldChain(n, t);
    UnionOfAtoms(ms, ctx.cap);
    assert PosRows([chain]) == [[Pos(chain)]] && [chain][0] == chain;
    RowsQuestion(chain, Union(ms), [chain], ms, ctx, 0, {});
    if 0 < ctx.limit {
      UnionNotBelow(ms, 0, Nominal(n), ctx);
      UnionNotBelow(ms, 1, r, ctx);
    }
    assert ms[1..] == [r];
    SubsumedByOne(chain, r, ctx, 0, {});
    assert SubsumedBy(chain, ms, ctx, 0, {}) == SubsumedBy(chain, ms[1..], ctx, 0, {});
  }

  lemma UnionNotBelow(ms: seq<Ty>, i: nat, q: Ty, ctx: Ctx)
    requires |ms| == 2 && ms[0].Nominal? && ms[1].Record? && i < 2 && q == ms[i] && 2 <= ctx.cap
    ensures !IsSubtype(Union(ms), q, ctx, 1, {})
  {
    UnionOfAtoms(ms, ctx.cap);
    assert PosRows([q]) == [[Pos(q)]];
    RowsQuestion(Union(ms), q, ms, [q], ctx, 1, {});
    SubsumedByOne(ms[1 - i], q, ctx, 1, {});
  }

  /** `mu X. ({ x: X } & { a: T })` */
  function Meet(t: nat): Ty {
    Recursive(Inter([Record([Field(X, RecursiveRef(0))], Closed), Record([Field(A, Nominal(t))], Closed)]))
  }

  lemma UnfoldMeet(t: nat)
    ensures UnfoldTy(Meet(t)) == Inter([Record([Field(X, Meet(t))], Closed), Record([Field(A, Nominal(t))], Closed)])
  {
    var m := Meet(t);
    var r, s := Record([Field(X, RecursiveRef(0))], Closed), Record([Field(A, Nominal(t))], Closed);
    assert SubstFields(r.fields, 0, m)[0] == SubstField(r.fields[0], 0, m) == Field(X, m);
    assert SubstFields(r.fields, 0, m) == [Field(X, m)];
    assert SubstFields(s.fields, 0, m)[0] == SubstField(s.fields[0], 0, m) == s.fields[0];
    assert SubstFields(s.fields, 0, m) == s.fields;
    assert SubstAll([r, s], 0, m) == [Record([Field(X, m)], Closed), s];
  }

  lemma NotBelowInter(p: Ty, q: Ty, r: Ty, s: Ty, ctx: Ctx, depth: nat, sigma: Sigma)
    requires p.Record? && r.Record? && s.Record? && (q == r || q == s) && 2 <= ctx.cap
    requires |p.fields| == 1 && |q.fields| == 1 && p.fields[0].key != q.fields[0].key
    ensures !IsSubtype(p, Inter([r, s]), ctx, depth, sigma)
  {
    var u, n := Inter([r, s]), [NegAtom(q)];
    InterOfTwoAtoms(r, s, ctx.cap);
    TwoAtomsNegated(r, s, ctx.cap);
    DifferenceCapFree(p, u, ctx.cap);
    DiffMembers(p, u, ctx, [Pos(p)] + n);
    assert [Pos(p)] in ToRdnf(p, ctx.cap) && IsChoice(n, [[Pos(r), Pos(s)]]);
    RdnfEmptyIff(ToRdnf(Inter([p, Neg(u)]), ctx.cap), ctx, depth, sigma);
    KeyMissing(p, q, ctx, depth, sigma);
    OnePositiveRow(p, n, ctx, depth, sigma);
  }

  lemma KeyMissing(p: Ty, q: Ty, ctx: Ctx, depth: nat, sigma: Sigma)
    requires p.Record? && q.Record? && |p.fields| == 1 && |q.fields| == 1 && p.fields[0].key != q.fields[0].key
    ensures AtomSubtype(p, q, ctx, depth, sigma) == Verdict(false, sigma)
  {
    assert p.fields[1..] == [] && Lookup(p.fields, q.fields[0].key).None?;
    if depth < ctx.limit {
      assert !FieldsSubtype(p.fields, q.fields, ctx, depth, sigma);
      assert AtomSubtype(p, q, ctx, depth, sigma) == Verdict(RecordSubtype(p, q, ctx, depth, sigma), sigma);
    }
  }

  lemma MeetRow(r: Ty, s: Ty, m: Ty, ctx: Ctx)
    requires r.Record? && s.Record? && |r.fields| == 1 && |s.fields| == 1 && r.fields[0].key != s.fields[0].key
    requires m.Recursive? && UnfoldTy(m) == Inter([r, s]) && 2 <= ctx.cap
    ensures !ConjunctionEmpty([Pos(r), Pos(s)] + [NegAtom(m)], ctx, 0, {}).ok
  {
    var c := [Pos(r), Pos(s)];
    AtomBelowFold(r, m, ctx, 0, {});
    AtomBelowFold(s, m, ctx, 0, {});
    NotBelowInter(r, s, r, s, ctx, 1, {});
    NotBelowInter(s, r, r, s, ctx, 1, {});
    OneNegative(c, m, ctx, 0, {});
    SomeDisjointIff(c);
  }

  /** Its unfolding is not accepted below it: neither record alone is below both. */
  lemma InterNotFolded(t: nat, ctx: Ctx)
    requires 2 <= ctx.cap
    ensures !IsSubtypeBas(UnfoldTy(Meet(t)), Meet(t), ctx, false)
  {
    var m := Meet(t);
    var r, s := Record([Field(X, m)], Closed), Record([Field(A, Nominal(t))], Closed);
    UnfoldMeet(t);
    InterOfTwoAtoms(r, s, ctx.cap);
    FoldRows(Inter([r, s]), m, ctx.cap);
    var diff := ToRdnf(Inter([Inter([r, s]), Neg(m)]), ctx.cap);
    AllRowsEmpty(diff, ctx, 0, {});
    assert diff[0] == [Pos(r), Pos(s)] + [NegAtom(m)];
    MeetRow(r, s, m, ctx);
  }
}
