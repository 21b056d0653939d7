/** Emptiness of a normal form in terms of the set of signed atoms in each conjunction, and
    the members of distributed and negated normal forms. */
module Emptiness {
  import opened Types
  import opened Rdnf
  import opened RdnfMeaning
  import opened Subtype

  // ---------- disjointness is a property of the unordered pair ----------

  lemma {:induction false} DisjointSymmetric(a: Ty, b: Ty)
    ensures AtomsDisjoint(a, b) == AtomsDisjoint(b, a)
  {
    if a.App? && b.App? {
      DisjointSymmetric(a.op, b.op);
    }
  }

  /** Equal atoms are never disjoint, so the pointer shortcut before the comparison is not
      observable. */
  lemma {:induction false} DisjointIrreflexive(a: Ty)
    ensures !AtomsDisjoint(a, a)
  {
    if a.App? {
      DisjointIrreflexive(a.op);
    }
  }

  // ---------- conjunctions as sets ----------

  lemma {:induction false} SignedMembers(c: Conjunction)
    ensures forall a :: a in Positives(c) <==> Pos(a) in c
    ensures forall a :: a in Negatives(c) <==> NegAtom(a) in c
  {
    if c != [] {
      SignedMembers(c[1..]);
      assert c == [c[0]] + c[1..];
    }
  }

  lemma {:induction false} SignedNegatives(n: Conjunction)
    requires forall s :: s in n ==> s.NegAtom?
    ensures Positives(n) == [] && |Negatives(n)| == |n| && forall i :: 0 <= i < |n| ==> Negatives(n)[i] == n[i].atom
  {
    if n != [] {
      SignedNegatives(n[1..]);
      assert n[0] in n && n == [n[0]] + n[1..];
    }
  }

  lemma {:induction false} SignedPositives(l: Conjunction)
    requires forall s :: s in l ==> s.Pos?
    ensures Negatives(l) == [] && |Positives(l)| == |l| && forall i :: 0 <= i < |l| ==> Positives(l)[i] == l[i].atom
  {
    if l != [] {
      SignedPositives(l[1..]);
      assert l[0] in l && l == [l[0]] + l[1..];
    }
  }

  /** No pair of the scan adds a hypothesis. */
  ghost predicate SigmaStable(pos: seq<Ty>, neg: seq<Ty>, ctx: Ctx, depth: nat, sigma: Sigma) {
    forall p, q :: p in pos && q in neg ==> AtomSubtype(p, q, ctx, depth, sigma).sigma == sigma
  }

  lemma {:induction false} SubsumedByIff(p: Ty, neg: seq<Ty>, ctx: Ctx, depth: nat, sigma: Sigma)
    requires forall q :: q in neg ==> AtomSubtype(p, q, ctx, depth, sigma).sigma == sigma
    ensures SubsumedBy(p, neg, ctx, depth, sigma).sigma == sigma
    ensures SubsumedBy(p, neg, ctx, depth, sigma).ok
        <==> exists q :: q in neg && AtomSubtype(p, q, ctx, depth, sigma).ok
    decreases |neg|
  {
    if neg != [] {
      assert neg[0] in neg;
      SubsumedByIff(p, neg[1..], ctx, depth, sigma);
      assert neg == [neg[0]] + neg[1..];
    }
  }

  lemma {:induction false} SomeSubsumedIff(pos: seq<Ty>, neg: seq<Ty>, ctx: Ctx, depth: nat, sigma: Sigma)
    requires SigmaStable(pos, neg, ctx, depth, sigma)
    ensures SomeSubsumed(pos, neg, ctx, depth, sigma).ok
        <==> exists p, q :: p in pos && q in neg && AtomSubtype(p, q, ctx, depth, sigma).ok
    decreases |pos|
  {
    if pos != [] {
      assert pos[0] in pos;
      SubsumedByIff(pos[0], neg, ctx, depth, sigma);
      SomeSubsumedIff(pos[1..], neg, ctx, depth, sigma);
      assert pos == [pos[0]] + pos[1..];
    }
  }

  /** Two positives that exclude each other, or a positive below a negative. */
  ghost predicate Clashes(c: Conjunction, ctx: Ctx, depth: nat, sigma: Sigma) {
    || (exists a, b :: Pos(a) in c && Pos(b) in c && AtomsDisjoint(a, b))
    || (exists p, q :: Pos(p) in c && NegAtom(q) in c && AtomSubtype(p, q, ctx, depth, sigma).ok)
  }

  lemma SomeDisjointIff(c: Conjunction)
    ensures SomeDisjoint(Positives(c))
        <==> exists a, b :: Pos(a) in c && Pos(b) in c && AtomsDisjoint(a, b)
  {
    SignedMembers(c);
    var pos := Positives(c);
    if a, b :| Pos(a) in c && Pos(b) in c && AtomsDisjoint(a, b) {
      assert a in pos && b in pos;
      var i :| 0 <= i < |pos| && pos[i] == a;
      var j :| 0 <= j < |pos| && pos[j] == b;
      DisjointIrreflexive(a);
      DisjointSymmetric(a, b);
    }
  }

  lemma SomeSubsumedInSet(c: Conjunction, ctx: Ctx, depth: nat, sigma: Sigma)
    requires SigmaStable(Positives(c), Negatives(c), ctx, depth, sigma)
    ensures SomeSubsumed(Positives(c), Negatives(c), ctx, depth, sigma).ok
        <==> exists p, q :: Pos(p) in c && NegAtom(q) in c && AtomSubtype(p, q, ctx, depth, sigma).ok
  {
    SignedMembers(c);
    var pos, neg := Positives(c), Negatives(c);
    SomeSubsumedIff(pos, neg, ctx, depth, sigma);
    if p, q :| Pos(p) in c && NegAtom(q) in c && AtomSubtype(p, q, ctx, depth, sigma).ok {
      assert p in pos && q in neg;
    }
    if p, q :| p in pos && q in neg && AtomSubtype(p, q, ctx, depth, sigma).ok {
      assert Pos(p) in c && NegAtom(q) in c;
    }
  }

  lemma ConjunctionEmptyIff(c: Conjunction, ctx: Ctx, depth: nat, sigma: Sigma)
    requires SigmaStable(Positives(c), Negatives(c), ctx, depth, sigma)
    ensures ConjunctionEmpty(c, ctx, depth, sigma).ok <==> Clashes(c, ctx, depth, sigma)
  {
    SomeDisjointIff(c);
    SomeSubsumedInSet(c, ctx, depth, sigma);
  }

  lemma {:induction false} RdnfEmptyIff(rdnf: Rdnf, ctx: Ctx, depth: nat, sigma: Sigma)
    ensures RdnfEmpty(rdnf, ctx, depth, sigma)
        <==> forall c :: c in rdnf ==> ConjunctionEmpty(c, ctx, depth, sigma).ok
    decreases |rdnf|
  {
    if rdnf != [] {
      var first, rest := rdnf[0], rdnf[1..];
      RdnfEmptyIff(rest, ctx, depth, sigma);
      assert RdnfEmpty(rdnf, ctx, depth, sigma)
          == (ConjunctionEmpty(first, ctx, depth, sigma).ok && RdnfEmpty(rest, ctx, depth, sigma));
      assert first in rdnf;
      assert forall c :: c in rdnf <==> c == first || c in rest;
    }
  }

  // ---------- members of distributed and negated normal forms ----------

  lemma {:induction false} ProductMembers(left: Rdnf, right: Rdnf, c: Conjunction)
    ensures c in Product(left, right) <==> exists l, r :: l in left && r in right && c == l + r
  {
    if left != [] {
      var k := |left| - 1;
      ProductMembers(left[..k], right, c);
      var row := RowTimes(left[k], right);
      assert left == left[..k] + [left[k]];
      if c in row {
        var i :| 0 <= i < |row| && row[i] == c;
        assert left[k] in left && right[i] in right && c == left[k] + right[i];
      }
      if l, r :| l in left && r in right && c == l + r {
        if l == left[k] {
          var i :| 0 <= i < |right| && right[i] == r;
          assert row[i] == c;
        } else {
          assert l in left[..k];
        }
      }
    }
  }

  /** Whether or not the cap is hit, every member is a pair of members or the empty conjunction. */
  lemma DistributeMembers(left: Rdnf, right: Rdnf, cap: nat, c: Conjunction)
    ensures c in Distribute(left, right, cap)
        ==> c == [] || exists l, r :: l in left && r in right && c == l + r
    ensures Fits(left, right, cap)
        ==> (c in Distribute(left, right, cap) <==> exists l, r :: l in left && r in right && c == l + r)
  {
    ProductMembers(left, right, c);
  }

  /** `c` picks one atom of each conjunction of `rdnf`, negated. */
  predicate IsChoice(c: Conjunction, rdnf: Rdnf) {
    |c| == |rdnf| && forall i :: 0 <= i < |c| ==> c[i].Negate() in rdnf[i]
  }

  lemma NegateAtomsMembers(c: Conjunction, d: Conjunction)
    ensures d in NegateAtoms(c) <==> |d| == 1 && d[0].Negate() in c
  {
    var n := NegateAtoms(c);
    if d in n {
      var i :| 0 <= i < |n| && n[i] == d;
      assert c[i] in c;
    }
    if |d| == 1 && d[0].Negate() in c {
      var i :| 0 <= i < |c| && c[i] == d[0].Negate();
      assert n[i] == d;
    }
  }

  lemma ChoiceCons(s: Signed, m: Conjunction, rdnf: Rdnf)
    requires rdnf != []
    ensures IsChoice([s] + m, rdnf) <==> s.Negate() in rdnf[0] && IsChoice(m, rdnf[1..])
  {
    var c := [s] + m;
    if IsChoice(c, rdnf) {
      assert c[0].Negate() in rdnf[0];
      forall i | 0 <= i < |m| ensures m[i].Negate() in rdnf[1..][i] {
        assert c[i + 1].Negate() in rdnf[i + 1];
      }
    }
  }

  lemma ExtendedBySingle(acc: Rdnf, conj: Conjunction, cap: nat, c: Conjunction)
    returns (a: Conjunction, s: Signed)
    requires Fits(acc, NegateAtoms(conj), cap) && c in Distribute(acc, NegateAtoms(conj), cap)
    ensures a in acc && s.Negate() in conj && c == a + [s]
  {
    DistributeMembers(acc, NegateAtoms(conj), cap, c);
    var x, d :| x in acc && d in NegateAtoms(conj) && c == x + d;
    NegateAtomsMembers(conj, d);
    a, s := x, d[0];
    assert d == [s];
  }

  lemma ExtendBySingle(acc: Rdnf, conj: Conjunction, cap: nat, a: Conjunction, s: Signed)
    requires Fits(acc, NegateAtoms(conj), cap) && a in acc && s.Negate() in conj
    ensures a + [s] in Distribute(acc, NegateAtoms(conj), cap)
  {
    NegateAtomsMembers(conj, [s]);
    DistributeMembers(acc, NegateAtoms(conj), cap, a + [s]);
  }

  lemma Regroup(a: Conjunction, m: Conjunction)
    requires m != []
    ensures (a + [m[0]]) + m[1..] == a + m
  {
  }

  lemma ChoiceStep(acc: Rdnf, rdnf: Rdnf, cap: nat, a': Conjunction, m': Conjunction)
    returns (a: Conjunction, m: Conjunction)
    requires rdnf != [] && Fits(acc, NegateAtoms(rdnf[0]), cap)
    requires a' in Distribute(acc, NegateAtoms(rdnf[0]), cap) && IsChoice(m', rdnf[1..])
    ensures a in acc && IsChoice(m, rdnf) && a' + m' == a + m
  {
    var x, s := ExtendedBySingle(acc, rdnf[0], cap, a');
    ChoiceCons(s, m', rdnf);
    a, m := x, [s] + m';
    assert m[0] == s && m[1..] == m';
    Regroup(x, m);
  }

  lemma NegateFromStep(acc: Rdnf, rdnf: Rdnf, cap: nat, c: Conjunction)
    requires NegateFits(acc, rdnf, cap) && c in NegateFrom(acc, rdnf, cap) && rdnf != []
    ensures Fits(acc, NegateAtoms(rdnf[0]), cap)
    ensures NegateFits(Distribute(acc, NegateAtoms(rdnf[0]), cap), rdnf[1..], cap)
    ensures c in NegateFrom(Distribute(acc, NegateAtoms(rdnf[0]), cap), rdnf[1..], cap)
  {
  }

  lemma {:induction false} NegateFromYieldsChoice(acc: Rdnf, rdnf: Rdnf, cap: nat, c: Conjunction)
    returns (a: Conjunction, m: Conjunction)
    requires NegateFits(acc, rdnf, cap) && c in NegateFrom(acc, rdnf, cap)
    ensures a in acc && IsChoice(m, rdnf) && c == a + m
    decreases |rdnf|
  {
    if rdnf == [] {
      a, m := c, [];
    } else {
      NegateFromStep(acc, rdnf, cap, c);
      var a', m' := NegateFromYieldsChoice(Distribute(acc, NegateAtoms(rdnf[0]), cap), rdnf[1..], cap, c);
      a, m := ChoiceStep(acc, rdnf, cap, a', m');
    }
  }

  lemma NegateFitsStep(acc: Rdnf, rdnf: Rdnf, cap: nat)
    requires NegateFits(acc, rdnf, cap) && rdnf != [] && rdnf[0] != []
    ensures Fits(acc, NegateAtoms(rdnf[0]), cap)
    ensures NegateFits(Distribute(acc, NegateAtoms(rdnf[0]), cap), rdnf[1..], cap)
    ensures NegateFrom(acc, rdnf, cap)
         == NegateFrom(Distribute(acc, NegateAtoms(rdnf[0]), cap), rdnf[1..], cap)
  {
  }

  lemma ChoiceHead(acc: Rdnf, rdnf: Rdnf, cap: nat, a: Conjunction, m: Conjunction) returns (next: Rdnf)
    requires NegateFits(acc, rdnf, cap) && a in acc && IsChoice(m, rdnf) && rdnf != []
    ensures m != [] && a + [m[0]] in next && IsChoice(m[1..], rdnf[1..])
    ensures NegateFits(next, rdnf[1..], cap) && NegateFrom(acc, rdnf, cap) == NegateFrom(next, rdnf[1..], cap)
  {
    assert m == [m[0]] + m[1..];
    ChoiceCons(m[0], m[1..], rdnf);
    assert rdnf[0] != [];
    NegateFitsStep(acc, rdnf, cap);
    ExtendBySingle(acc, rdnf[0], cap, a, m[0]);
    next := Distribute(acc, NegateAtoms(rdnf[0]), cap);
  }

  lemma {:induction false} ChoiceInNegateFrom(acc: Rdnf, rdnf: Rdnf, cap: nat, a: Conjunction, m: Conjunction)
    requires NegateFits(acc, rdnf, cap) && a in acc && IsChoice(m, rdnf)
    ensures a + m in NegateFrom(acc, rdnf, cap)
    decreases |rdnf|
  {
    if rdnf == [] {
      assert a + m == a;
    } else {
      var next := ChoiceHead(acc, rdnf, cap, a, m);
      Regroup(a, m);
      ChoiceInNegateFrom(next, rdnf[1..], cap, a + [m[0]], m[1..]);
    }
  }

  /** Negation enumerates exactly the choices: one negated atom out of every conjunction. */
  lemma NegateMembers(rdnf: Rdnf, cap: nat, c: Conjunction)
    requires NegateFits(TopRdnf, rdnf, cap)
    ensures c in Negate(rdnf, cap) <==> IsChoice(c, rdnf)
  {
    if c in Negate(rdnf, cap) {
      var a, m := NegateFromYieldsChoice(TopRdnf, rdnf, cap, c);
      assert c == m;
    }
    if IsChoice(c, rdnf) {
      ChoiceInNegateFrom(TopRdnf, rdnf, cap, [], c);
      assert [] + c == c;
    }
  }

  /** Even when the cap is hit, negation invents no atoms. */
  lemma {:induction false} NegateAtomsComeFrom(acc: Rdnf, rdnf: Rdnf, cap: nat, c: Conjunction, s: Signed)
    requires c in NegateFrom(acc, rdnf, cap) && s in c
    ensures (exists a :: a in acc && s in a) || (exists r :: r in rdnf && s.Negate() in r)
    decreases |rdnf|
  {
    if rdnf != [] && rdnf[0] != [] {
      var singles := NegateAtoms(rdnf[0]);
      var next := Distribute(acc, singles, cap);
      NegateAtomsComeFrom(next, rdnf[1..], cap, c, s);
      if a' :| a' in next && s in a' {
        DistributeMembers(acc, singles, cap, a');
        var a, d :| a in acc && d in singles && a' == a + d;
        NegateAtomsMembers(rdnf[0], d);
        if s in d {
          assert rdnf[0] in rdnf;
        }
      } else {
        var r :| r in rdnf[1..] && s.Negate() in r;
        assert r in rdnf;
      }
    }
  }

  // ---------- the question the checker normalises ----------

  /** `A & ~B` distributes the form of `A` over the negated form of `B`. */
  lemma DiffRdnf(sub: Ty, sup: Ty, cap: nat)
    ensures ToRdnf(Inter([sub, Neg(sup)]), cap)
         == Distribute(ToRdnf(sub, cap), Negate(ToRdnf(sup, cap), cap), cap)
  {
    var members := [sub, Neg(sup)];
    assert members[1..] == [Neg(sup)];
    assert InterFrom(ToRdnf(sub, cap), members[1..], cap)
        == InterFrom(Distribute(ToRdnf(sub, cap), ToRdnf(Neg(sup), cap), cap), members[1..][1..], cap);
  }

  // ---------- normalisation invents no atoms ----------

  /** `a` stands in `t` below Boolean connectives only. */
  ghost predicate Leaf(a: Ty, t: Ty) {
    match t
    case Union(members) => exists m :: m in members && Leaf(a, m)
    case Inter(members) => exists m :: m in members && Leaf(a, m)
    case Neg(of) => Leaf(a, of)
    case Top | Never | Unknown | Error => false
    case _ => a == t
  }

  lemma {:induction false} RdnfLeaves(t: Ty, cap: nat, c: Conjunction, s: Signed)
    requires c in ToRdnf(t, cap) && s in c
    ensures Leaf(s.atom, t)
    decreases t, 1
  {
    match t
    case Union(members) => UnionLeaves(members, cap, c, s);
    case Inter(members) =>
      if members != [] {
        InterLeaves(ToRdnf(members[0], cap), members[1..], cap, c, s);
        if a :| a in ToRdnf(members[0], cap) && s in a {
          RdnfLeaves(members[0], cap, a, s);
          assert members[0] in members;
        } else {
          var m :| m in members[1..] && Leaf(s.atom, m);
          assert m in members;
        }
      }
    case Neg(of) =>
      NegateAtomsComeFrom(TopRdnf, ToRdnf(of, cap), cap, c, s);
      var r :| r in ToRdnf(of, cap) && s.Negate() in r;
      RdnfLeaves(of, cap, r, s.Negate());
    case _ =>
  }

  lemma {:induction false} UnionLeaves(members: seq<Ty>, cap: nat, c: Conjunction, s: Signed)
    requires c in UnionRdnf(members, cap) && s in c
    ensures exists m :: m in members && Leaf(s.atom, m)
    decreases members, 0
  {
    if c in ToRdnf(members[0], cap) {
      RdnfLeaves(members[0], cap, c, s);
      assert members[0] in members;
    } else {
      UnionLeaves(members[1..], cap, c, s);
      var m :| m in members[1..] && Leaf(s.atom, m);
      assert m in members;
    }
  }

  lemma {:induction false} InterLeaves(acc: Rdnf, members: seq<Ty>, cap: nat, c: Conjunction, s: Signed)
    requires c in InterFrom(acc, members, cap) && s in c
    ensures (exists a :: a in acc && s in a) || (exists m :: m in members && Leaf(s.atom, m))
    decreases members, 0
  {
    if members != [] {
      var right := ToRdnf(members[0], cap);
      var next := Distribute(acc, right, cap);
      InterLeaves(next, members[1..], cap, c, s);
      if x :| x in next && s in x {
        DistributeMembers(acc, right, cap, x);
        var l, r :| l in acc && r in right && x == l + r;
        if s in r {
          RdnfLeaves(members[0], cap, r, s);
          assert members[0] in members;
        }
      } else {
        var m :| m in members[1..] && Leaf(s.atom, m);
        assert m in members;
      }
    }
  }
}
