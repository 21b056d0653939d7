/** Acceptance is sound: if the checker accepts `A <: B`, every value of `A` is a value of `B`. */
module Soundness {
  import opened Types
  import opened Rdnf
  import opened RdnfMeaning
  import opened Unfold
  import opened Subtype
  import opened Emptiness
  import opened AtomQuestions
  import opened Values
  import opened Reachability

  // ---------- the types one run can meet ----------

  ghost predicate NegFree(dom: iset<Ty>) {
    forall t :: t in dom ==> !t.Neg?
  }

  ghost predicate NonRecursive(dom: iset<Ty>) {
    forall t :: t in dom ==> !t.Recursive?
  }

  /** Members stay on their side, the operand of `Neg` changes sides. */
  ghost predicate Polar(left: iset<Ty>, right: iset<Ty>) {
    forall t :: t in left ==>
      && Guarded(t, 0)
      && match t
         case Union(members) => forall m :: m in members ==> m in left
         case Inter(members) => forall m :: m in members ==> m in left
         case Neg(of) => of in right
         case _ => true
  }

  /** Components and unfoldings stay on their side. */
  ghost predicate Structured(dom: iset<Ty>) {
    forall t :: t in dom && (t.Record? || t.Recursive?) ==> StepsStayIn(t, dom)
  }

  /** In each row of a normal form a recursive type stands alone. */
  predicate LeftRows(rdnf: Rdnf) {
    forall c :: c in rdnf ==> |c| == 1 || ContractiveRow(c)
  }

  /** Recursive types only stand in the last row. */
  predicate RightRows(rdnf: Rdnf) {
    forall i :: 0 <= i < |rdnf| - 1 ==> ContractiveRow(rdnf[i])
  }

  predicate ContractiveRow(c: Conjunction) {
    forall s :: s in c ==> Contractive(s.atom)
  }

  /** `left` and `right` hold the guarded types a run meets on either side of `<:`.  Normalising a
      type of `right` stays within the cap; normalising one of `left` may exceed it outside the
      operands of `Neg`.  Keys tell recursive types apart, and there is no `Neg` and a recursive type
      is compared last in its row, or there is no recursion. */
  ghost predicate SoundDomains(left: iset<Ty>, right: iset<Ty>, ctx: Ctx) {
    && (forall t :: t in right ==> CapFree(t, ctx.cap))
    && (forall t :: t in left ==> CapFreeUnderNeg(t, ctx.cap))
    && Polar(left, right) && Polar(right, left) && Structured(left) && Structured(right)
    && KeysApart(left, ctx) && KeysApart(right, ctx)
    && (LastCompared(left, right, ctx.cap) || (NonRecursive(left) && NonRecursive(right)))
  }

  ghost predicate LastCompared(left: iset<Ty>, right: iset<Ty>, cap: nat) {
    && NegFree(left) && NegFree(right)
    && (forall t :: t in left ==> LeftRows(ToRdnf(t, cap)))
    && (forall t :: t in right ==> RightRows(ToRdnf(t, cap)))
  }

  /** Every hypothesis is true of all values smaller than `n`, and of those of size `n` where the left
      type has fewer than `h` binders at its head. */
  ghost predicate SigmaValid(sigma: Sigma, left: iset<Ty>, right: iset<Ty>, ctx: Ctx, n: nat, h: nat) {
    forall a, b, w: Value ::
      a in left && b in right && a.Recursive? && b.Recursive? && Guarded(a, 0) && Guarded(b, 0)
      && (ctx.key(a), ctx.key(b)) in sigma && (Size(w) < n || (Size(w) == n && HeadDepth(a) < h)) && In(w, a)
      ==> In(w, b)
  }

  // ---------- membership of Boolean types is the Boolean reading ----------

  ghost function Valuation(v: Value): Ty -> bool {
    (a: Ty) => Guarded(a, 0) && In(v, a)
  }

  lemma {:induction false} InIsHolds(v: Value, t: Ty)
    requires Guarded(t, 0)
    ensures In(v, t) <==> Holds(t, Valuation(v))
    decreases t
  {
    match t
    case Union(members) =>
      forall m | m in members ensures In(v, m) <==> Holds(m, Valuation(v)) { InIsHolds(v, m); }
    case Inter(members) =>
      forall m | m in members ensures In(v, m) <==> Holds(m, Valuation(v)) { InIsHolds(v, m); }
    case Neg(of) => InIsHolds(v, of);
    case _ =>
  }

  // ---------- where the atoms of a normal form come from ----------

  ghost predicate AtomOf(s: Signed, pos: iset<Ty>, neg: iset<Ty>) {
    (if s.Pos? then s.atom in pos else s.atom in neg) && !IsBoolean(s.atom) && (NegFree(pos) ==> s.Pos?)
  }

  lemma {:induction false} RdnfAtoms(t: Ty, pos: iset<Ty>, neg: iset<Ty>, cap: nat, c: Conjunction, s: Signed)
    requires Polar(pos, neg) && Polar(neg, pos) && t in pos
    requires c in ToRdnf(t, cap) && s in c
    ensures AtomOf(s, pos, neg)
    decreases t, 1
  {
    match t
    case Union(members) => UnionAtoms(members, pos, neg, cap, c, s);
    case Inter(members) =>
      if members != [] {
        assert members[0] in members;
        forall c', s' | c' in ToRdnf(members[0], cap) && s' in c'
          ensures AtomOf(s', pos, neg)
        {
          RdnfAtoms(members[0], pos, neg, cap, c', s');
        }
        InterAtoms(ToRdnf(members[0], cap), members[1..], pos, neg, cap, c, s);
      }
    case Neg(of) =>
      NegateAtomsComeFrom(TopRdnf, ToRdnf(of, cap), cap, c, s);
      var r :| r in ToRdnf(of, cap) && s.Negate() in r;
      RdnfAtoms(of, neg, pos, cap, r, s.Negate());
    case _ =>
  }

  lemma {:induction false} UnionAtoms(members: seq<Ty>, pos: iset<Ty>, neg: iset<Ty>, cap: nat, c: Conjunction, s: Signed)
    requires Polar(pos, neg) && Polar(neg, pos) && forall m :: m in members ==> m in pos
    requires c in UnionRdnf(members, cap) && s in c
    ensures AtomOf(s, pos, neg)
    decreases members, 0
  {
    assert members[0] in members;
    if c in ToRdnf(members[0], cap) {
      RdnfAtoms(members[0], pos, neg, cap, c, s);
    } else {
      UnionAtoms(members[1..], pos, neg, cap, c, s);
    }
  }

  lemma {:induction false} InterAtoms(acc: Rdnf, members: seq<Ty>, pos: iset<Ty>, neg: iset<Ty>, cap: nat,
                                      c: Conjunction, s: Signed)
    requires Polar(pos, neg) && Polar(neg, pos) && forall m :: m in members ==> m in pos
    requires forall c', s' :: c' in acc && s' in c' ==> AtomOf(s', pos, neg)
    requires c in InterFrom(acc, members, cap) && s in c
    ensures AtomOf(s, pos, neg)
    decreases members, 0
  {
    if members != [] {
      assert members[0] in members;
      var right := ToRdnf(members[0], cap);
      var next := Distribute(acc, right, cap);
      forall c', s' | c' in next && s' in c'
        ensures AtomOf(s', pos, neg)
      {
        DistributeMembers(acc, right, cap, c');
        var l, r :| l in acc && r in right && c' == l + r;
        if s' in r {
          RdnfAtoms(members[0], pos, neg, cap, r, s');
        }
      }
      InterAtoms(next, members[1..], pos, neg, cap, c, s);
    }
  }

  lemma {:induction false} LeafHeadDepth(a: Ty, t: Ty)
    requires Leaf(a, t)
    ensures HeadDepth(a) <= HeadDepth(t)
    decreases t
  {
    match t
    case Union(members) =>
      var m :| m in members && Leaf(a, m);
      LeafHeadDepth(a, m);
    case Inter(members) =>
      var m :| m in members && Leaf(a, m);
      LeafHeadDepth(a, m);
    case Neg(of) => LeafHeadDepth(a, of);
    case _ =>
  }

  // ---------- the two ways a conjunction is declared empty ----------

  /** Disjoint contractive atoms share no value. */
  lemma DisjointSound(a: Ty, b: Ty, v: Value)
    requires Guarded(a, 0) && Guarded(b, 0) && Contractive(a) && Contractive(b)
    requires AtomsDisjoint(a, b)
    ensures !(In(v, a) && In(v, b))
  {
  }

  lemma AtomSigma(p: Ty, q: Ty, ctx: Ctx, depth: nat, sigma: Sigma)
    requires Guarded(p, 0) && Guarded(q, 0) && !IsBoolean(p)
    requires Contractive(p) || Contractive(q)
    ensures AtomSubtype(p, q, ctx, depth, sigma).sigma == sigma
  {
  }

  lemma FoundPair(c: Conjunction, p: Ty, q: Ty, v: Value)
    requires ConjunctionHolds(c, Valuation(v)) && Pos(p) in c && NegAtom(q) in c
    requires Guarded(p, 0) && Guarded(q, 0)
    ensures In(v, p) && !In(v, q)
  {
    assert SignedHolds(Pos(p), Valuation(v)) && SignedHolds(NegAtom(q), Valuation(v));
  }

  // ---------- one conjunction of `A & ~B` ----------

  /** Positives come from the left domain, negatives from the right one. */
  ghost predicate DiffAtom(s: Signed, sub: Ty, left: iset<Ty>, right: iset<Ty>) {
    && (if s.Pos? then s.atom in left && HeadDepth(s.atom) <= HeadDepth(sub) else s.atom in right)
    && !IsBoolean(s.atom) && Guarded(s.atom, 0)
  }

  /** A row of the difference: one of `A`, then one of the negated `B`. */
  lemma DiffRow(sub: Ty, sup: Ty, cap: nat, c: Conjunction) returns (l: Conjunction, n: Conjunction)
    requires c in ToRdnf(Inter([sub, Neg(sup)]), cap) && c != []
    ensures l in ToRdnf(sub, cap) && n in Negate(ToRdnf(sup, cap), cap) && c == l + n
  {
    DiffRdnf(sub, sup, cap);
    DistributeMembers(ToRdnf(sub, cap), Negate(ToRdnf(sup, cap), cap), cap, c);
    l, n :| l in ToRdnf(sub, cap) && n in Negate(ToRdnf(sup, cap), cap) && c == l + n;
  }

  lemma LeftAtom(sub: Ty, left: iset<Ty>, right: iset<Ty>, ctx: Ctx, l: Conjunction, s: Signed)
    requires SoundDomains(left, right, ctx) && sub in left && l in ToRdnf(sub, ctx.cap) && s in l
    ensures DiffAtom(s, sub, left, right) && (NegFree(left) ==> s.Pos?)
  {
    RdnfAtoms(sub, left, right, ctx.cap, l, s);
    RdnfLeaves(sub, ctx.cap, l, s);
    LeafHeadDepth(s.atom, sub);
  }

  lemma RightAtom(sub: Ty, sup: Ty, left: iset<Ty>, right: iset<Ty>, ctx: Ctx, n: Conjunction, s: Signed)
    requires SoundDomains(left, right, ctx) && sup in right && n in Negate(ToRdnf(sup, ctx.cap), ctx.cap) && s in n
    ensures DiffAtom(s, sub, left, right) && (NegFree(right) ==> s.NegAtom?)
  {
    NegateAtomsComeFrom(TopRdnf, ToRdnf(sup, ctx.cap), ctx.cap, n, s);
    var r :| r in ToRdnf(sup, ctx.cap) && s.Negate() in r;
    RdnfAtoms(sup, right, left, ctx.cap, r, s.Negate());
  }

  lemma DiffAtoms(sub: Ty, sup: Ty, left: iset<Ty>, right: iset<Ty>, ctx: Ctx, c: Conjunction, s: Signed)
    requires SoundDomains(left, right, ctx) && sub in left && sup in right
    requires c in ToRdnf(Inter([sub, Neg(sup)]), ctx.cap) && s in c
    ensures DiffAtom(s, sub, left, right)
  {
    var l, n := DiffRow(sub, sup, ctx.cap, c);
    if s in l {
      LeftAtom(sub, left, right, ctx, l, s);
    } else {
      RightAtom(sub, sup, left, right, ctx, n, s);
    }
  }

  /** All but the last atom of a choice through rows whose recursive types stand last. */
  predicate LastMayRecur(n: Conjunction) {
    forall i :: 0 <= i < |n| - 1 ==> Contractive(n[i].atom)
  }

  lemma {:induction false} NegatedRowShape(acc: Rdnf, rdnf: Rdnf, cap: nat, n: Conjunction)
    requires RightRows(rdnf) && (forall a :: a in acc ==> ContractiveRow(a)) && n in NegateFrom(acc, rdnf, cap)
    ensures LastMayRecur(n)
    decreases |rdnf|
  {
    if rdnf != [] && rdnf[0] != [] {
      var singles := NegateAtoms(rdnf[0]);
      var next := Distribute(acc, singles, cap);
      if |rdnf| == 1 {
        assert NegateFrom(next, rdnf[1..], cap) == next;
        LastChoice(acc, singles, cap, n);
      } else {
        forall a | a in next ensures ContractiveRow(a) {
          ContractiveChoice(acc, rdnf[0], cap, a);
        }
        NegatedRowShape(next, rdnf[1..], cap, n);
      }
    }
  }

  lemma LastChoice(acc: Rdnf, singles: Rdnf, cap: nat, n: Conjunction)
    requires (forall a :: a in acc ==> ContractiveRow(a)) && (forall x :: x in singles ==> |x| == 1)
    requires n in Distribute(acc, singles, cap)
    ensures LastMayRecur(n)
  {
    DistributeMembers(acc, singles, cap, n);
    if n != [] {
      var a, x :| a in acc && x in singles && n == a + x;
      forall i | 0 <= i < |n| - 1 ensures Contractive(n[i].atom) {
        assert n[i] == a[i] && a[i] in a;
      }
    }
  }

  lemma ContractiveChoice(acc: Rdnf, row: Conjunction, cap: nat, n: Conjunction)
    requires (forall a :: a in acc ==> ContractiveRow(a)) && ContractiveRow(row)
    requires n in Distribute(acc, NegateAtoms(row), cap)
    ensures ContractiveRow(n)
  {
    DistributeMembers(acc, NegateAtoms(row), cap, n);
    if n != [] {
      var a: Conjunction, x: Conjunction :| a in acc && x in NegateAtoms(row) && n == a + x;
      NegateAtomsMembers(row, x);
      assert x[0].Negate() in row;
    }
  }

  /** At most the last pair that the scan of a row tries is between two recursive types. */
  predicate Scannable(pos: seq<Ty>, neg: seq<Ty>) {
    || (forall p :: p in pos ==> Contractive(p))
    || (|pos| == 1 && forall i :: 0 <= i < |neg| - 1 ==> Contractive(neg[i]))
  }

  lemma PositivesStep(s: Signed, c: Conjunction)
    ensures Positives([s] + c) == (if s.Pos? then [s.atom] else []) + Positives(c)
  {
    assert ([s] + c)[1..] == c;
  }

  lemma {:induction false} PositivesConcat(l: Conjunction, n: Conjunction)
    ensures Positives(l + n) == Positives(l) + Positives(n)
    decreases |l|
  {
    if l == [] {
      assert l + n == n;
    } else {
      var s, rest := l[0], l[1..];
      PositivesConcat(rest, n);
      PositivesStep(s, rest);
      PositivesStep(s, rest + n);
      assert l == [s] + rest && l + n == [s] + (rest + n);
    }
  }

  lemma NegativesStep(s: Signed, c: Conjunction)
    ensures Negatives([s] + c) == (if s.NegAtom? then [s.atom] else []) + Negatives(c)
  {
    assert ([s] + c)[1..] == c;
  }

  lemma {:induction false} NegativesConcat(l: Conjunction, n: Conjunction)
    ensures Negatives(l + n) == Negatives(l) + Negatives(n)
    decreases |l|
  {
    if l == [] {
      assert l + n == n;
    } else {
      var s, rest := l[0], l[1..];
      NegativesConcat(rest, n);
      NegativesStep(s, rest);
      NegativesStep(s, rest + n);
      assert l == [s] + rest && l + n == [s] + (rest + n);
    }
  }

  lemma OrderedScannable(l: Conjunction, n: Conjunction)
    requires (forall s :: s in l ==> s.Pos?) && (forall s :: s in n ==> s.NegAtom?)
    requires (|l| == 1 || ContractiveRow(l)) && LastMayRecur(n)
    ensures Scannable(Positives(l + n), Negatives(l + n))
  {
    PositivesConcat(l, n);
    NegativesConcat(l, n);
    SignedPositives(l);
    SignedNegatives(n);
    var pos := Positives(l + n);
    if |l| != 1 {
      forall p | p in pos ensures Contractive(p) {
        var i :| 0 <= i < |pos| && pos[i] == p;
        assert l[i] in l;
      }
    }
  }

  lemma RowScannable(sub: Ty, sup: Ty, left: iset<Ty>, right: iset<Ty>, ctx: Ctx, c: Conjunction)
    requires SoundDomains(left, right, ctx) && sub in left && sup in right
    requires c in ToRdnf(Inter([sub, Neg(sup)]), ctx.cap) && c != []
    ensures Scannable(Positives(c), Negatives(c))
  {
    if LastCompared(left, right, ctx.cap) {
      var l, n := DiffRow(sub, sup, ctx.cap, c);
      forall s | s in l ensures s.Pos? { LeftAtom(sub, left, right, ctx, l, s); }
      forall s | s in n ensures s.NegAtom? { RightAtom(sub, sup, left, right, ctx, n, s); }
      NegatedRowShape(TopRdnf, ToRdnf(sup, ctx.cap), ctx.cap, n);
      OrderedScannable(l, n);
    } else {
      SignedMembers(c);
      forall p | p in Positives(c) ensures Contractive(p) {
        DiffAtoms(sub, sup, left, right, ctx, c, Pos(p));
      }
    }
  }

  /** The hypotheses a scan starts from are those every pair but the last is tried under. */
  lemma {:induction false} FoundFirst(p: Ty, neg: seq<Ty>, ctx: Ctx, depth: nat, sigma: Sigma)
    requires forall i :: 0 <= i < |neg| - 1 ==> AtomSubtype(p, neg[i], ctx, depth, sigma).sigma == sigma
    requires SubsumedBy(p, neg, ctx, depth, sigma).ok
    ensures exists q :: q in neg && AtomSubtype(p, q, ctx, depth, sigma).ok
    decreases |neg|
  {
    assert neg[0] in neg;
    if !AtomSubtype(p, neg[0], ctx, depth, sigma).ok && |neg| > 1 {
      var rest := neg[1..];
      assert forall i :: 0 <= i < |rest| - 1 ==> rest[i] == neg[i + 1];
      FoundFirst(p, rest, ctx, depth, sigma);
    }
  }

  lemma ScanFinds(c: Conjunction, sub: Ty, left: iset<Ty>, right: iset<Ty>, ctx: Ctx, depth: nat, sigma: Sigma)
    returns (p: Ty, q: Ty)
    requires Scannable(Positives(c), Negatives(c)) && forall s :: s in c ==> DiffAtom(s, sub, left, right)
    requires SomeSubsumed(Positives(c), Negatives(c), ctx, depth, sigma).ok
    ensures Pos(p) in c && NegAtom(q) in c && AtomSubtype(p, q, ctx, depth, sigma).ok
  {
    var pos, neg := Positives(c), Negatives(c);
    SignedMembers(c);
    forall x, y | x in pos && y in neg && (Contractive(x) || Contractive(y))
      ensures AtomSubtype(x, y, ctx, depth, sigma).sigma == sigma
    {
      assert DiffAtom(Pos(x), sub, left, right) && DiffAtom(NegAtom(y), sub, left, right);
      AtomSigma(x, y, ctx, depth, sigma);
    }
    if forall x :: x in pos ==> Contractive(x) {
      SomeSubsumedInSet(c, ctx, depth, sigma);
      p, q :| Pos(p) in c && NegAtom(q) in c && AtomSubtype(p, q, ctx, depth, sigma).ok;
    } else {
      p := pos[0];
      OnePositive(p, neg, ctx, depth, sigma);
      FoundFirst(p, neg, ctx, depth, sigma);
      q :| q in neg && AtomSubtype(p, q, ctx, depth, sigma).ok;
    }
  }

  lemma OnePositive(p: Ty, neg: seq<Ty>, ctx: Ctx, depth: nat, sigma: Sigma)
    ensures SomeSubsumed([p], neg, ctx, depth, sigma).ok == SubsumedBy(p, neg, ctx, depth, sigma).ok
  {
    var v := SubsumedBy(p, neg, ctx, depth, sigma);
    assert SomeSubsumed([p], neg, ctx, depth, sigma)
        == if v.ok then v else SomeSubsumed([p][1..], neg, ctx, depth, v.sigma);
  }

  /** A conjunction that holds of a value can only be declared empty by a subsumed pair. */
  lemma EmptyByPair(sub: Ty, sup: Ty, left: iset<Ty>, right: iset<Ty>, ctx: Ctx, depth: nat, sigma: Sigma, v: Value,
                    c: Conjunction) returns (p: Ty, q: Ty)
    requires SoundDomains(left, right, ctx) && sub in left && sup in right
    requires c in ToRdnf(Inter([sub, Neg(sup)]), ctx.cap)
    requires ConjunctionHolds(c, Valuation(v)) && ConjunctionEmpty(c, ctx, depth, sigma).ok
    ensures Pos(p) in c && NegAtom(q) in c && AtomSubtype(p, q, ctx, depth, sigma).ok
  {
    forall s | s in c ensures DiffAtom(s, sub, left, right) {
      DiffAtoms(sub, sup, left, right, ctx, c, s);
    }
    RowScannable(sub, sup, left, right, ctx, c);
    NotDisjoint(sub, left, right, v, c);
    p, q := ScanFinds(c, sub, left, right, ctx, depth, sigma);
  }

  lemma NotDisjoint(sub: Ty, left: iset<Ty>, right: iset<Ty>, v: Value, c: Conjunction)
    requires Scannable(Positives(c), Negatives(c)) && forall s :: s in c ==> DiffAtom(s, sub, left, right)
    requires ConjunctionHolds(c, Valuation(v))
    ensures !SomeDisjoint(Positives(c))
  {
    SomeDisjointIff(c);
    SignedMembers(c);
    if a, b :| Pos(a) in c && Pos(b) in c && AtomsDisjoint(a, b) {
      assert SignedHolds(Pos(a), Valuation(v)) && SignedHolds(Pos(b), Valuation(v));
      assert a in Positives(c) && b in Positives(c);
      if Contractive(a) && Contractive(b) {
        DisjointSound(a, b, v);
      } else {
        DisjointIrreflexive(a);
      }
    }
  }

  lemma DifferenceHolds(v: Value, sub: Ty, sup: Ty)
    requires Guarded(sub, 0) && Guarded(sup, 0) && In(v, sub) && !In(v, sup)
    ensures Holds(Inter([sub, Neg(sup)]), Valuation(v))
  {
    InIsHolds(v, sub);
    InIsHolds(v, sup);
    assert Holds(Neg(sup), Valuation(v));
  }

  lemma DifferenceUnderNeg(sub: Ty, sup: Ty, cap: nat)
    requires CapFreeUnderNeg(sub, cap) && CapFree(sup, cap)
    ensures CapFreeUnderNeg(Inter([sub, Neg(sup)]), cap)
  {
    assert CapFreeUnderNeg(Neg(sup), cap);
  }

  /** A value of `A` outside `B` satisfies some conjunction of the normalised difference. */
  lemma HoldingConjunction(sub: Ty, sup: Ty, left: iset<Ty>, right: iset<Ty>, ctx: Ctx, v: Value) returns (c: Conjunction)
    requires SoundDomains(left, right, ctx) && sub in left && sup in right
    requires In(v, sub) && !In(v, sup)
    ensures c in ToRdnf(Inter([sub, Neg(sup)]), ctx.cap) && ConjunctionHolds(c, Valuation(v))
  {
    var diff := Inter([sub, Neg(sup)]);
    DifferenceHolds(v, sub, sup);
    DifferenceUnderNeg(sub, sup, ctx.cap);
    RdnfOverApproximates(diff, ctx.cap, Valuation(v));
    c :| c in ToRdnf(diff, ctx.cap) && ConjunctionHolds(c, Valuation(v));
  }

  lemma {:induction false} CapFreeImpliesUnderNeg(t: Ty, cap: nat)
    requires CapFree(t, cap)
    ensures CapFreeUnderNeg(t, cap)
    decreases t, 1
  {
    match t
    case Union(members) =>
      forall m | m in members ensures CapFreeUnderNeg(m, cap) { CapFreeImpliesUnderNeg(m, cap); }
    case Inter(members) =>
      if members != [] {
        CapFreeImpliesUnderNeg(members[0], cap);
        InterFitsImpliesUnderNeg(ToRdnf(members[0], cap), members[1..], cap);
        assert members == [members[0]] + members[1..];
      }
    case _ =>
  }

  lemma {:induction false} InterFitsImpliesUnderNeg(acc: Rdnf, members: seq<Ty>, cap: nat)
    requires InterFits(acc, members, cap)
    ensures forall m :: m in members ==> CapFreeUnderNeg(m, cap)
    decreases members, 0
  {
    if members != [] {
      CapFreeImpliesUnderNeg(members[0], cap);
      InterFitsImpliesUnderNeg(Distribute(acc, ToRdnf(members[0], cap), cap), members[1..], cap);
      assert members == [members[0]] + members[1..];
    }
  }

  // ---------- the induction on the size of the value ----------

  lemma {:induction false} SubtypeSound(sub: Ty, sup: Ty, left: iset<Ty>, right: iset<Ty>, ctx: Ctx, depth: nat,
                                        sigma: Sigma, v: Value)
    requires SoundDomains(left, right, ctx) && sub in left && sup in right
    requires SigmaValid(sigma, left, right, ctx, Size(v), HeadDepth(sub) + 1)
    requires IsSubtype(sub, sup, ctx, depth, sigma) && In(v, sub)
    ensures In(v, sup)
    decreases Size(v), Fuel(ctx, depth), 2
  {
    if !In(v, sup) {
      var c := HoldingConjunction(sub, sup, left, right, ctx, v);
      RdnfEmptyIff(ToRdnf(Inter([sub, Neg(sup)]), ctx.cap), ctx, depth, sigma);
      var p, q := EmptyByPair(sub, sup, left, right, ctx, depth, sigma, v, c);
      DiffAtoms(sub, sup, left, right, ctx, c, Pos(p));
      DiffAtoms(sub, sup, left, right, ctx, c, NegAtom(q));
      FoundPair(c, p, q, v);
      AtomSound(p, q, left, right, ctx, depth, sigma, v);
    }
  }

  lemma {:induction false} AtomSound(p: Ty, q: Ty, left: iset<Ty>, right: iset<Ty>, ctx: Ctx, depth: nat, sigma: Sigma, v: Value)
    requires SoundDomains(left, right, ctx) && p in left && q in right && !IsBoolean(p) && !IsBoolean(q)
    requires SigmaValid(sigma, left, right, ctx, Size(v), HeadDepth(p) + 1)
    requires AtomSubtype(p, q, ctx, depth, sigma).ok && In(v, p)
    ensures In(v, q)
    decreases Size(v), Fuel(ctx, depth), 1
  {
    if p.Record? && q.Record? {
      RecordSound(p, q, left, right, ctx, depth, sigma, v);
    } else if p.Recursive? && q.Recursive? {
      RecursiveSound(p, q, left, right, ctx, depth, sigma, v);
    } else if p.Recursive? || q.Recursive? {
      UnfoldSound(p, q, left, right, ctx, depth, sigma, v);
    }
  }

  lemma {:induction false} UnfoldSound(p: Ty, q: Ty, left: iset<Ty>, right: iset<Ty>, ctx: Ctx, depth: nat, sigma: Sigma, v: Value)
    requires SoundDomains(left, right, ctx) && p in left && q in right && p.Recursive? != q.Recursive?
    requires !IsBoolean(p) && !IsBoolean(q) && SigmaValid(sigma, left, right, ctx, Size(v), HeadDepth(p) + 1)
    requires AtomSubtype(p, q, ctx, depth, sigma).ok && In(v, p)
    ensures In(v, q)
    decreases Size(v), Fuel(ctx, depth), 0, 2
  {
    if p.Recursive? {
      assert StepsStayIn(p, left);
      UnfoldGuarded(p);
      SmallerHypotheses(sigma, left, right, ctx, Size(v), HeadDepth(p) + 1, Size(v), HeadDepth(p));
      SubtypeSound(UnfoldTy(p), q, left, right, ctx, depth + 1, sigma, v);
    } else {
      assert StepsStayIn(q, right);
      UnfoldGuarded(q);
      SubtypeSound(p, UnfoldTy(q), left, right, ctx, depth + 1, sigma, v);
    }
  }

  lemma {:induction false} RecordSound(p: Ty, q: Ty, left: iset<Ty>, right: iset<Ty>, ctx: Ctx, depth: nat, sigma: Sigma, v: Value)
    requires SoundDomains(left, right, ctx) && p in left && q in right && p.Record? && q.Record?
    requires SigmaValid(sigma, left, right, ctx, Size(v), 0) && depth < ctx.limit
    requires FieldsSubtype(p.fields, q.fields, ctx, depth, sigma) && In(v, p)
    ensures In(v, q)
    decreases Size(v), Fuel(ctx, depth), 0, 1
  {
    forall i | 0 <= i < |q.fields| ensures FieldHolds(v, q.fields[i]) {
      FieldSound(p, q, left, right, ctx, depth, sigma, v, i);
    }
    RecordIn(v, q);
  }

  ghost predicate FieldHolds(v: Value, f: Field)
    requires v.VRecord?
  {
    && FindEntry(v.entries, f.key).Some?
    && Guarded(f.ty, 0) && In(FindEntry(v.entries, f.key).value, f.ty)
  }

  lemma RecordIn(v: Value, t: Ty)
    requires v.VRecord? && t.Record? && Guarded(t, 0)
    ensures In(v, t) <==> forall i :: 0 <= i < |t.fields| ==> FieldHolds(v, t.fields[i])
  {
    forall i | 0 <= i < |t.fields| ensures GuardedField(t.fields[i], 0) {
    }
  }

  /** The left field a required field is compared with, and the entry both are about. */
  lemma FieldPair(p: Ty, q: Ty, ctx: Ctx, depth: nat, sigma: Sigma, v: Value, i: nat) returns (g: Field)
    requires p.Record? && q.Record? && Guarded(p, 0) && Guarded(q, 0) && v.VRecord? && i < |q.fields|
    requires depth < ctx.limit && FieldsSubtype(p.fields, q.fields, ctx, depth, sigma) && In(v, p)
    ensures g in p.fields && g.key == q.fields[i].key && FieldHolds(v, g) && Guarded(q.fields[i].ty, 0)
    ensures IsSubtype(g.ty, q.fields[i].ty, ctx, depth + 1, sigma)
  {
    var f := q.fields[i];
    FieldAccepted(p.fields, q.fields, ctx, depth, sigma, i);
    var entry := Lookup(p.fields, f.key).value;
    var j :| 0 <= j < |p.fields| && p.fields[j].key == f.key && p.fields[j].ty == entry;
    RecordIn(v, p);
    assert GuardedField(f, 0);
    g := p.fields[j];
  }

  lemma FieldsMet(t: Ty, f: Field, dom: iset<Ty>)
    requires Structured(dom) && t in dom && t.Record? && f in t.fields
    ensures f.ty in dom
  {
  }

  lemma {:induction false} FieldSound(p: Ty, q: Ty, left: iset<Ty>, right: iset<Ty>, ctx: Ctx, depth: nat,
                                      sigma: Sigma, v: Value, i: nat)
    requires SoundDomains(left, right, ctx) && p in left && q in right && p.Record? && q.Record? && v.VRecord?
    requires SigmaValid(sigma, left, right, ctx, Size(v), 0) && depth < ctx.limit && i < |q.fields|
    requires FieldsSubtype(p.fields, q.fields, ctx, depth, sigma) && In(v, p)
    ensures FieldHolds(v, q.fields[i])
    decreases Size(v), Fuel(ctx, depth), 0, 0
  {
    var f := q.fields[i];
    var g := FieldPair(p, q, ctx, depth, sigma, v, i);
    FieldsMet(p, g, left);
    FieldsMet(q, f, right);
    var w := FindEntry(v.entries, f.key).value;
    SmallerHypotheses(sigma, left, right, ctx, Size(v), 0, Size(w), HeadDepth(g.ty) + 1);
    SubtypeSound(g.ty, f.ty, left, right, ctx, depth + 1, sigma, w);
  }

  lemma SmallerHypotheses(sigma: Sigma, left: iset<Ty>, right: iset<Ty>, ctx: Ctx, n: nat, h: nat, m: nat, k: nat)
    requires SigmaValid(sigma, left, right, ctx, n, h) && (m < n || (m == n && k <= h))
    ensures SigmaValid(sigma, left, right, ctx, m, k)
  {
  }

  lemma {:induction false} RecursiveSound(p: Ty, q: Ty, left: iset<Ty>, right: iset<Ty>, ctx: Ctx, depth: nat, sigma: Sigma, v: Value)
    requires SoundDomains(left, right, ctx) && p in left && q in right && p.Recursive? && q.Recursive?
    requires SigmaValid(sigma, left, right, ctx, Size(v), HeadDepth(p) + 1) && depth < ctx.limit
    requires AtomSubtype(p, q, ctx, depth, sigma).ok && In(v, p)
    ensures In(v, q)
    decreases Size(v), Fuel(ctx, depth), 0
  {
    if (ctx.key(p), ctx.key(q)) !in sigma {
      forall w: Value | Size(w) < Size(v) && In(w, p) ensures In(w, q) {
        SmallerHypotheses(sigma, left, right, ctx, Size(v), HeadDepth(p) + 1, Size(w), HeadDepth(p) + 1);
        RecursiveSound(p, q, left, right, ctx, depth, sigma, w);
      }
      HypothesisValid(p, q, left, right, ctx, sigma, Size(v));
      UnfoldingsSound(p, q, left, right, ctx, depth, sigma + {(ctx.key(p), ctx.key(q))}, v);
    }
  }

  /** Adding a pair that is right for smaller values keeps the hypotheses valid there, and for types
      with fewer binders at their heads. */
  lemma HypothesisValid(p: Ty, q: Ty, left: iset<Ty>, right: iset<Ty>, ctx: Ctx, sigma: Sigma, n: nat)
    requires SoundDomains(left, right, ctx) && p in left && q in right && p.Recursive? && q.Recursive?
    requires Guarded(p, 0) && Guarded(q, 0) && SigmaValid(sigma, left, right, ctx, n, HeadDepth(p) + 1)
    requires forall w: Value :: Size(w) < n && In(w, p) ==> In(w, q)
    ensures SigmaValid(sigma + {(ctx.key(p), ctx.key(q))}, left, right, ctx, n, HeadDepth(p))
  {
  }

  lemma {:induction false} UnfoldingsSound(p: Ty, q: Ty, left: iset<Ty>, right: iset<Ty>, ctx: Ctx, depth: nat, sigma: Sigma, v: Value)
    requires SoundDomains(left, right, ctx) && p in left && q in right && p.Recursive? && q.Recursive?
    requires SigmaValid(sigma, left, right, ctx, Size(v), HeadDepth(p)) && depth < ctx.limit
    requires IsSubtype(UnfoldTy(p), UnfoldTy(q), ctx, depth + 1, sigma) && In(v, p)
    ensures In(v, q)
    decreases Size(v), Fuel(ctx, depth), 0, 0
  {
    assert StepsStayIn(p, left) && StepsStayIn(q, right);
    UnfoldGuarded(p);
    UnfoldGuarded(q);
    SubtypeSound(UnfoldTy(p), UnfoldTy(q), left, right, ctx, depth + 1, sigma, v);
  }
}
