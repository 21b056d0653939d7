/** What normalisation preserves.  Atoms are read through an arbitrary valuation, so the results
    hold for every interpretation of nominal types, records, functions and so on. */
module RdnfMeaning {
  import opened Types
  import opened Rdnf

  /** The Boolean reading of a type.  `Unknown` reads as Top and `Error` as Never, as in
      normalisation; every other non-Boolean type is an atom. */
  ghost predicate Holds(t: Ty, val: Ty -> bool) {
    match t
    case Top => true
    case Never => false
    case Unknown => true
    case Error => false
    case Union(members) => exists m :: m in members && Holds(m, val)
    case Inter(members) => forall m :: m in members ==> Holds(m, val)
    case Neg(of) => !Holds(of, val)
    case _ => val(t)
  }

  ghost predicate SignedHolds(s: Signed, val: Ty -> bool) {
    match s
    case Pos(a) => val(a)
    case NegAtom(a) => !val(a)
  }

  ghost predicate ConjunctionHolds(c: Conjunction, val: Ty -> bool) {
    forall s :: s in c ==> SignedHolds(s, val)
  }

  ghost predicate RdnfHolds(rdnf: Rdnf, val: Ty -> bool) {
    exists c :: c in rdnf && ConjunctionHolds(c, val)
  }

  // ---------- when the size guard stays silent ----------

  predicate Fits(left: Rdnf, right: Rdnf, cap: nat) {
    left == [] || right == [] || |left| * |right| <= cap
  }

  predicate NegateFits(acc: Rdnf, rdnf: Rdnf, cap: nat)
    decreases |rdnf|
  {
    rdnf == [] || rdnf[0] == []
    || (&& Fits(acc, NegateAtoms(rdnf[0]), cap)
        && NegateFits(Distribute(acc, NegateAtoms(rdnf[0]), cap), rdnf[1..], cap))
  }

  /** No distribution made while normalising `t` exceeds the cap. */
  predicate CapFree(t: Ty, cap: nat)
    decreases t, 1
  {
    match t
    case Union(members) => forall m :: m in members ==> CapFree(m, cap)
    case Inter(members) =>
      members == []
      || (CapFree(members[0], cap) && InterFits(ToRdnf(members[0], cap), members[1..], cap))
    case Neg(of) => CapFree(of, cap) && NegateFits(TopRdnf, ToRdnf(of, cap), cap)
    case _ => true
  }

  predicate InterFits(acc: Rdnf, members: seq<Ty>, cap: nat)
    decreases members, 0
  {
    members == []
    || (&& CapFree(members[0], cap)
        && Fits(acc, ToRdnf(members[0], cap), cap)
        && InterFits(Distribute(acc, ToRdnf(members[0], cap), cap), members[1..], cap))
  }

  /** The cap may be exceeded, but never while normalising the operand of a `Neg`. */
  predicate CapFreeUnderNeg(t: Ty, cap: nat) {
    match t
    case Union(members) => forall m :: m in members ==> CapFreeUnderNeg(m, cap)
    case Inter(members) => forall m :: m in members ==> CapFreeUnderNeg(m, cap)
    case Neg(of) => CapFree(of, cap)
    case _ => true
  }

  // ---------- distribution is conjunction ----------

  lemma RowTimesHolds(l: Conjunction, right: Rdnf, val: Ty -> bool)
    ensures RdnfHolds(RowTimes(l, right), val) <==> ConjunctionHolds(l, val) && RdnfHolds(right, val)
  {
    var row := RowTimes(l, right);
    forall i | 0 <= i < |right|
      ensures ConjunctionHolds(row[i], val)
          <==> ConjunctionHolds(l, val) && ConjunctionHolds(right[i], val)
    {
      assert row[i] == l + right[i];
    }
    if RdnfHolds(row, val) {
      var c :| c in row && ConjunctionHolds(c, val);
      var i :| 0 <= i < |row| && row[i] == c;
      assert right[i] in right;
    }
    if ConjunctionHolds(l, val) && RdnfHolds(right, val) {
      var c :| c in right && ConjunctionHolds(c, val);
      var i :| 0 <= i < |right| && right[i] == c;
      assert row[i] in row;
    }
  }

  lemma ConcatHolds(a: Rdnf, b: Rdnf, val: Ty -> bool)
    ensures RdnfHolds(a + b, val) <==> RdnfHolds(a, val) || RdnfHolds(b, val)
  {
  }

  lemma {:induction false} ProductHolds(left: Rdnf, right: Rdnf, val: Ty -> bool)
    ensures RdnfHolds(Product(left, right), val) <==> RdnfHolds(left, val) && RdnfHolds(right, val)
  {
    if left != [] {
      var k := |left| - 1;
      ProductHolds(left[..k], right, val);
      RowTimesHolds(left[k], right, val);
      ConcatHolds(Product(left[..k], right), RowTimes(left[k], right), val);
      assert left == left[..k] + [left[k]];
      ConcatHolds(left[..k], [left[k]], val);
      assert RdnfHolds([left[k]], val) <==> ConjunctionHolds(left[k], val) by {
        assert left[k] in [left[k]];
      }
    }
  }

  lemma TopHolds(val: Ty -> bool)
    ensures RdnfHolds(TopRdnf, val)
  {
    assert [] in TopRdnf && ConjunctionHolds([], val);
  }

  lemma DistributeHolds(left: Rdnf, right: Rdnf, cap: nat, val: Ty -> bool)
    ensures RdnfHolds(left, val) && RdnfHolds(right, val) ==> RdnfHolds(Distribute(left, right, cap), val)
    ensures Fits(left, right, cap) && RdnfHolds(Distribute(left, right, cap), val)
        ==> RdnfHolds(left, val) && RdnfHolds(right, val)
  {
    ProductHolds(left, right, val);
    TopHolds(val);
  }

  // ---------- negation ----------

  lemma NegateAtomsHolds(c: Conjunction, val: Ty -> bool)
    ensures RdnfHolds(NegateAtoms(c), val) <==> !ConjunctionHolds(c, val)
  {
    var n := NegateAtoms(c);
    if RdnfHolds(n, val) {
      var d :| d in n && ConjunctionHolds(d, val);
      var i :| 0 <= i < |n| && n[i] == d;
      assert c[i].Negate() in d && c[i] in c;
    }
    if !ConjunctionHolds(c, val) {
      var s :| s in c && !SignedHolds(s, val);
      var i :| 0 <= i < |c| && c[i] == s;
      assert n[i] in n && n[i] == [s.Negate()];
    }
  }

  lemma {:induction false} NegateFromHolds(acc: Rdnf, rdnf: Rdnf, cap: nat, val: Ty -> bool)
    ensures RdnfHolds(acc, val) && !RdnfHolds(rdnf, val) ==> RdnfHolds(NegateFrom(acc, rdnf, cap), val)
    ensures NegateFits(acc, rdnf, cap) && RdnfHolds(NegateFrom(acc, rdnf, cap), val)
        ==> RdnfHolds(acc, val) && !RdnfHolds(rdnf, val)
    decreases |rdnf|
  {
    if rdnf != [] {
      if rdnf[0] == [] {
        assert [] in rdnf && ConjunctionHolds([], val);
      } else {
        var next := Distribute(acc, NegateAtoms(rdnf[0]), cap);
        NegateAtomsHolds(rdnf[0], val);
        DistributeHolds(acc, NegateAtoms(rdnf[0]), cap, val);
        NegateFromHolds(next, rdnf[1..], cap, val);
        assert RdnfHolds(rdnf, val) <==> ConjunctionHolds(rdnf[0], val) || RdnfHolds(rdnf[1..], val) by {
          assert rdnf == [rdnf[0]] + rdnf[1..];
          assert rdnf[0] in rdnf && rdnf[0] in [rdnf[0]];
        }
      }
    }
  }

  lemma NegateHolds(rdnf: Rdnf, cap: nat, val: Ty -> bool)
    ensures !RdnfHolds(rdnf, val) ==> RdnfHolds(Negate(rdnf, cap), val)
    ensures NegateFits(TopRdnf, rdnf, cap) ==> (RdnfHolds(Negate(rdnf, cap), val) <==> !RdnfHolds(rdnf, val))
  {
    TopHolds(val);
    NegateFromHolds(TopRdnf, rdnf, cap, val);
  }

  // ---------- main results ----------

  /** With no distribution over the cap, a type and its normal form agree under every valuation. */
  lemma {:induction false} RdnfPreservesMeaning(t: Ty, cap: nat, val: Ty -> bool)
    requires CapFree(t, cap)
    ensures RdnfHolds(ToRdnf(t, cap), val) <==> Holds(t, val)
    decreases t, 1
  {
    match t
    case Union(members) => UnionPreservesMeaning(members, cap, val);
    case Inter(members) =>
      if members == [] {
        TopHolds(val);
      } else {
        RdnfPreservesMeaning(members[0], cap, val);
        InterPreservesMeaning(ToRdnf(members[0], cap), members[1..], cap, val);
        assert members == [members[0]] + members[1..];
      }
    case Neg(of) =>
      RdnfPreservesMeaning(of, cap, val);
      NegateHolds(ToRdnf(of, cap), cap, val);
    case Top => TopHolds(val);
    case Unknown => TopHolds(val);
    case Never =>
    case Error =>
    case _ => AtomHolds(t, val);
  }

  lemma AtomHolds(t: Ty, val: Ty -> bool)
    ensures RdnfHolds([[Pos(t)]], val) <==> val(t)
  {
    assert [Pos(t)] in [[Pos(t)]] && Pos(t) in [Pos(t)];
  }

  lemma {:induction false} UnionPreservesMeaning(members: seq<Ty>, cap: nat, val: Ty -> bool)
    requires forall m :: m in members ==> CapFree(m, cap)
    ensures RdnfHolds(UnionRdnf(members, cap), val) <==> exists m :: m in members && Holds(m, val)
    decreases members, 0
  {
    if members != [] {
      assert members[0] in members;
      RdnfPreservesMeaning(members[0], cap, val);
      UnionPreservesMeaning(members[1..], cap, val);
      ConcatHolds(ToRdnf(members[0], cap), UnionRdnf(members[1..], cap), val);
      assert members == [members[0]] + members[1..];
    }
  }

  lemma {:induction false} InterPreservesMeaning(acc: Rdnf, members: seq<Ty>, cap: nat, val: Ty -> bool)
    requires InterFits(acc, members, cap)
    ensures RdnfHolds(InterFrom(acc, members, cap), val)
        <==> RdnfHolds(acc, val) && forall m :: m in members ==> Holds(m, val)
    decreases members, 0
  {
    if members != [] {
      RdnfPreservesMeaning(members[0], cap, val);
      DistributeHolds(acc, ToRdnf(members[0], cap), cap, val);
      InterPreservesMeaning(Distribute(acc, ToRdnf(members[0], cap), cap), members[1..], cap, val);
      assert members == [members[0]] + members[1..];
    }
  }

  /** If the cap is only ever exceeded outside operands of `Neg`, the normal form contains the
      type: the guard can make the checker reject, never accept. */
  lemma {:induction false} RdnfOverApproximates(t: Ty, cap: nat, val: Ty -> bool)
    requires CapFreeUnderNeg(t, cap)
    ensures Holds(t, val) ==> RdnfHolds(ToRdnf(t, cap), val)
    decreases t, 1
  {
    match t
    case Union(members) => UnionOverApproximates(members, cap, val);
    case Inter(members) =>
      TopHolds(val);
      if members != [] {
        RdnfOverApproximates(members[0], cap, val);
        InterOverApproximates(ToRdnf(members[0], cap), members[1..], cap, val);
        assert members == [members[0]] + members[1..];
      }
    case Neg(of) =>
      RdnfPreservesMeaning(of, cap, val);
      NegateHolds(ToRdnf(of, cap), cap, val);
    case Top => TopHolds(val);
    case Unknown => TopHolds(val);
    case Never =>
    case Error =>
    case _ => AtomHolds(t, val);
  }

  lemma {:induction false} UnionOverApproximates(members: seq<Ty>, cap: nat, val: Ty -> bool)
    requires forall m :: m in members ==> CapFreeUnderNeg(m, cap)
    ensures (exists m :: m in members && Holds(m, val)) ==> RdnfHolds(UnionRdnf(members, cap), val)
    decreases members, 0
  {
    if members != [] {
      assert members[0] in members;
      RdnfOverApproximates(members[0], cap, val);
      UnionOverApproximates(members[1..], cap, val);
      ConcatHolds(ToRdnf(members[0], cap), UnionRdnf(members[1..], cap), val);
      assert members == [members[0]] + members[1..];
    }
  }

  lemma {:induction false} InterOverApproximates(acc: Rdnf, members: seq<Ty>, cap: nat, val: Ty -> bool)
    requires forall m :: m in members ==> CapFreeUnderNeg(m, cap)
    ensures RdnfHolds(acc, val) && (forall m :: m in members ==> Holds(m, val))
        ==> RdnfHolds(InterFrom(acc, members, cap), val)
    decreases members, 0
  {
    if members != [] {
      assert members[0] in members;
      RdnfOverApproximates(members[0], cap, val);
      DistributeHolds(acc, ToRdnf(members[0], cap), cap, val);
      InterOverApproximates(Distribute(acc, ToRdnf(members[0], cap), cap), members[1..], cap, val);
      assert members == [members[0]] + members[1..];
    }
  }
}
