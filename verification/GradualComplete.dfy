/** The gradual relation accepts what it should: what the strict check accepts, a type against itself,
    and any two types with a common refinement. */
module GradualComplete {
  import opened Types
  import opened Rdnf
  import opened Subtype
  import opened Emptiness
  import opened Lattice
  import opened AtomQuestions
  import opened ConsistentSubtype
  import opened Gradual
  import opened StrictGradual
  import opened Reflexive
  import opened Counterexamples
  import opened Decision
  import opened Unfold
  import opened Transitive
  import opened Folding

  // ---------- strict acceptance carries over ----------

  /** Unions of atoms, at any depth; below a parameter the other form. */
  predicate LeftForm(t: Ty)
    decreases t, 0
  {
    match t
    case Union(ms) => forall m :: m in ms ==> LeftForm(m)
    case Never | Nominal(_) | IntLit(_) | StrLit(_) | FloatLit(_) => true
    case Fn(ps, variadic, ret) => !variadic && LeftForm(ret) && forall p :: p in ps ==> RightForm(p)
    case Record(fs, tail) => LeftTail(tail) && forall f :: f in fs ==> LeftField(f)
    case _ => false
  }

  predicate LeftField(f: Field) decreases f, 0 { LeftForm(f.ty) }

  predicate LeftTail(tail: Tail) decreases tail, 0 { tail.Uniform? ==> LeftForm(tail.valueType) }

  /** Intersections, at any depth, of atoms and of non-empty unions of atoms. */
  predicate RightForm(t: Ty)
    decreases t, 0
  {
    match t
    case Inter(ms) => forall m :: m in ms ==> RightForm(m)
    case Union(ms) => ms != [] && forall m :: m in ms ==> !IsBoolean(m) && RightForm(m)
    case Never | Nominal(_) | IntLit(_) | StrLit(_) | FloatLit(_) => true
    case Fn(ps, variadic, ret) => !variadic && RightForm(ret) && forall p :: p in ps ==> LeftForm(p)
    case Record(fs, tail) => RightTail(tail) && forall f :: f in fs ==> RightField(f)
    case _ => false
  }

  predicate RightField(f: Field) decreases f, 0 { RightForm(f.ty) }

  predicate RightTail(tail: Tail) decreases tail, 0 { tail.Uniform? ==> RightForm(tail.valueType) }

  lemma {:induction false} FormsStatic(t: Ty)
    requires LeftForm(t) || RightForm(t)
    ensures Static(t)
    decreases t
  {
    match t
    case Union(ms) => forall m | m in ms ensures Static(m) { FormsStatic(m); }
    case Inter(ms) => forall m | m in ms ensures Static(m) { FormsStatic(m); }
    case Fn(ps, _, ret) =>
      FormsStatic(ret);
      forall p | p in ps ensures Static(p) { FormsStatic(p); }
    case Record(fs, tail) =>
      if tail.Uniform? {
        assert LeftTail(tail) || RightTail(tail);
        FormsStatic(tail.valueType);
      }
      forall f | f in fs ensures StaticField(f) {
        assert (LeftField(f) || RightField(f)) && f.ty < f;
        FormsStatic(f.ty);
      }
    case _ =>
  }

  /** What the comparison of `a` with `b` is known about when it comes to them. */
  predicate Comparable(a: Ty, b: Ty, ctx: Ctx, fuel: nat) {
    LeftForm(a) && RightForm(b) && Fitting(a, b, ctx, fuel, false) && 1 <= ctx.cap && 1 <= ctx.limit && ctx.env == map[]
  }

  lemma ComparableSettled(a: Ty, b: Ty, ctx: Ctx, fuel: nat)
    requires Comparable(a, b, ctx, fuel)
    ensures Settled(a, b, ctx)
  {
    FormsStatic(a);
    FormsStatic(b);
    FitSettled(a, b, ctx, fuel, false);
  }

  lemma {:induction false} StrictImpliesConsistent(a: Ty, b: Ty, ctx: Ctx, fuel: nat, depth: nat, sigma: Sigma)
    requires Comparable(a, b, ctx, fuel) && IsSubtype(a, b, ctx, depth, sigma)
    ensures Consistent(a, b, ctx, fuel)
    decreases SizeOf(a) + SizeOf(b), 1
  {
    ComparableSettled(a, b, ctx, fuel);
    if a.Union? {
      LeftUnionConsistent(a, b, ctx, fuel, depth, sigma);
    } else if b.Union? {
      RightUnionConsistent(a, b, ctx, fuel, depth, sigma);
    } else if b.Inter? {
      RightInterConsistent(a, b, ctx, fuel, depth, sigma);
    } else if a.Never? {
    } else if b.Never? {
      AtomAboveNever(a, ctx, depth, sigma);
    } else {
      AtomConsistent(a, b, ctx, fuel, depth, sigma);
    }
  }

  lemma {:induction false} LeftUnionConsistent(a: Ty, b: Ty, ctx: Ctx, fuel: nat, depth: nat, sigma: Sigma)
    requires Comparable(a, b, ctx, fuel) && IsSubtype(a, b, ctx, depth, sigma) && a.Union?
    ensures Consistent(a, b, ctx, fuel)
    decreases SizeOf(a) + SizeOf(b), 0, 2
  {
    ComparableSettled(a, b, ctx, fuel);
    forall i | 0 <= i < |a.members| ensures Settled(a.members[i], b, ctx) && a.members[i] in a.members {
      ComparableSettled(a.members[i], b, ctx, fuel);
    }
    assert forall m :: m in a.members ==> exists i :: 0 <= i < |a.members| && a.members[i] == m;
    UnionBelow(a.members, b, ctx, depth, sigma);
    forall i | 0 <= i < |a.members| ensures Consistent(a.members[i], b, ctx, fuel) {
      StrictImpliesConsistent(a.members[i], b, ctx, fuel, depth, sigma);
    }
  }

  lemma {:induction false} RightInterConsistent(a: Ty, b: Ty, ctx: Ctx, fuel: nat, depth: nat, sigma: Sigma)
    requires Comparable(a, b, ctx, fuel) && IsSubtype(a, b, ctx, depth, sigma) && !a.Union? && b.Inter?
    ensures Consistent(a, b, ctx, fuel)
    decreases SizeOf(a) + SizeOf(b), 0, 2
  {
    ComparableSettled(a, b, ctx, fuel);
    forall i | 0 <= i < |b.members| ensures Settled(a, b.members[i], ctx) && b.members[i] in b.members {
      ComparableSettled(a, b.members[i], ctx, fuel);
    }
    assert forall m :: m in b.members ==> exists i :: 0 <= i < |b.members| && b.members[i] == m;
    BelowInter(a, b.members, ctx, depth, sigma);
    forall i | 0 <= i < |b.members| ensures Consistent(a, b.members[i], ctx, fuel) {
      StrictImpliesConsistent(a, b.members[i], ctx, fuel, depth, sigma);
    }
  }

  /** Below a union of atoms an atom is below one of them. */
  lemma BelowSomeMember(a: Ty, ms: seq<Ty>, ctx: Ctx, depth: nat, sigma: Sigma) returns (i: nat)
    requires !IsBoolean(a) && !a.Var? && Quiet(a) && 1 <= ctx.cap && (forall m :: m in ms ==> !IsBoolean(m) && !m.Var?)
    requires IsSubtype(a, Union(ms), ctx, depth, sigma)
    ensures i < |ms| && IsSubtype(a, ms[i], ctx, depth, sigma)
  {
    UnionOfAtoms(ms, ctx.cap);
    assert PosRows([a]) == [[Pos(a)]] && [a][0] == a;
    RowsQuestion(a, Union(ms), [a], ms, ctx, depth, sigma);
    forall q | q in ms ensures AtomSubtype(a, q, ctx, depth, sigma).sigma == sigma {
      QuietSigma(a, q, ctx, depth, sigma);
    }
    SubsumedByIff(a, ms, ctx, depth, sigma);
    var q :| q in ms && AtomSubtype(a, q, ctx, depth, sigma).ok;
    i :| 0 <= i < |ms| && ms[i] == q;
    AtomQuestion(a, q, ctx, depth, sigma);
  }

  lemma {:induction false} RightUnionConsistent(a: Ty, b: Ty, ctx: Ctx, fuel: nat, depth: nat, sigma: Sigma)
    requires Comparable(a, b, ctx, fuel) && IsSubtype(a, b, ctx, depth, sigma) && !a.Union? && b.Union?
    ensures Consistent(a, b, ctx, fuel)
    decreases SizeOf(a) + SizeOf(b), 0, 2
  {
    var i := 0;
    if a.Never? {
      assert b.members[0] in b.members;
    } else {
      assert RightForm(b);
      forall m | m in b.members ensures !IsBoolean(m) && !m.Var? { assert RightForm(m); }
      i := BelowSomeMember(a, b.members, ctx, depth, sigma);
    }
    assert b.members[i] in b.members;
    StrictImpliesConsistent(a, b.members[i], ctx, fuel, depth, sigma);
    assert Consistent(a, b.members[i], ctx, fuel);
  }

  lemma {:induction false} AtomConsistent(a: Ty, b: Ty, ctx: Ctx, fuel: nat, depth: nat, sigma: Sigma)
    requires Comparable(a, b, ctx, fuel) && IsSubtype(a, b, ctx, depth, sigma)
    requires !IsBoolean(a) && !IsBoolean(b)
    ensures Consistent(a, b, ctx, fuel)
    decreases SizeOf(a) + SizeOf(b), 0, 1
  {
    AtomQuestion(a, b, ctx, depth, sigma);
    if a.Fn? && b.Fn? {
      FnComplete(a, b, ctx, fuel, depth, sigma);
    } else if a.Record? && b.Record? {
      RecordComplete(a, b, ctx, fuel, depth, sigma);
    } else {
      LeafComplete(a, b, ctx, fuel, depth, sigma);
    }
  }

  lemma LeafComplete(a: Ty, b: Ty, ctx: Ctx, fuel: nat, depth: nat, sigma: Sigma)
    requires Static(a) && Static(b) && !IsBoolean(a) && !IsBoolean(b) && !(a.Fn? && b.Fn?) && !(a.Record? && b.Record?)
    requires AtomSubtype(a, b, ctx, depth, sigma).ok && 1 <= ctx.cap && 1 <= ctx.limit
    ensures Consistent(a, b, ctx, fuel)
  {
    AtomQuestion(a, b, ctx, 0, {});
  }

  lemma {:induction false} FnComplete(a: Ty, b: Ty, ctx: Ctx, fuel: nat, depth: nat, sigma: Sigma)
    requires Comparable(a, b, ctx, fuel) && a.Fn? && b.Fn? && depth < ctx.limit && FnSubtype(a, b, ctx, depth, sigma)
    ensures Consistent(a, b, ctx, fuel)
    decreases SizeOf(a) + SizeOf(b), 0, 0
  {
    assert FnFitting(a, b, ctx, fuel, false);
    StrictImpliesConsistent(a.ret, b.ret, ctx, fuel, depth + 1, sigma);
    ParamsEach(a.params, b.params, ctx, depth, sigma);
    forall i | 0 <= i < |a.params| ensures ParamConsistent(a, b, i, ctx, fuel) {
      assert a.params[i] in a.params && b.params[i] in b.params;
      StrictImpliesConsistent(b.params[i], a.params[i], ctx, fuel, depth + 1, sigma);
    }
  }

  lemma {:induction false} RecordComplete(a: Ty, b: Ty, ctx: Ctx, fuel: nat, depth: nat, sigma: Sigma)
    requires Comparable(a, b, ctx, fuel) && a.Record? && b.Record? && depth < ctx.limit && RecordSubtype(a, b, ctx, depth, sigma)
    ensures Consistent(a, b, ctx, fuel)
    decreases SizeOf(a) + SizeOf(b), 0, 0
  {
    FieldsEach(a.fields, b.fields, ctx, depth, sigma);
    forall j | 0 <= j < |b.fields| ensures FieldConsistent(a, b, j, ctx, fuel) {
      FieldComplete(a, b, j, ctx, fuel, depth, sigma);
    }
    TailComplete(a, b, ctx, fuel, depth, sigma);
  }

  lemma {:induction false} FieldComplete(a: Ty, b: Ty, j: nat, ctx: Ctx, fuel: nat, depth: nat, sigma: Sigma)
    requires Comparable(a, b, ctx, fuel) && a.Record? && b.Record? && depth < ctx.limit && j < |b.fields|
    requires FieldAccepts(a.fields, b.fields[j], ctx, depth, sigma)
    ensures FieldConsistent(a, b, j, ctx, fuel)
    decreases SizeOf(a) + SizeOf(b), 0, 0, 0
  {
    var g := b.fields[j];
    var t := Lookup(a.fields, g.key).value;
    var i :| 0 <= i < |a.fields| && a.fields[i].key == g.key && a.fields[i].ty == t;
    assert RecordFitting(a, b, ctx, fuel, false);
    assert LeftField(a.fields[i]) && RightField(g) && FieldFitting(a, b, j, ctx, fuel, false);
    FieldMeasures(a, i);
    FieldMeasures(b, j);
    StrictImpliesConsistent(t, g.ty, ctx, fuel, depth + 1, sigma);
  }

  lemma {:induction false} TailComplete(a: Ty, b: Ty, ctx: Ctx, fuel: nat, depth: nat, sigma: Sigma)
    requires Comparable(a, b, ctx, fuel) && a.Record? && b.Record? && depth < ctx.limit && TailSubtype(a, b, ctx, depth, sigma)
    ensures TailConsistent(a, b, ctx, fuel)
    decreases SizeOf(a) + SizeOf(b), 0, 0, 1
  {
    if b.tail.Uniform? && a.tail.Uniform? {
      UniformPairComplete(a, b, ctx, fuel, depth, sigma);
    } else if b.tail.Uniform? {
      UniformEach(a.fields, StringKeys(b.fields), b.tail.valueType, ctx, depth, sigma);
      forall i | 0 <= i < |a.fields|
        ensures KeyText(a.fields[i].key) in StringKeys(b.fields) || Consistent(a.fields[i].ty, b.tail.valueType, ctx, fuel)
      {
        UniformComplete(a, b, i, ctx, fuel, depth, sigma);
      }
    }
  }

  lemma {:induction false} UniformPairComplete(a: Ty, b: Ty, ctx: Ctx, fuel: nat, depth: nat, sigma: Sigma)
    requires Comparable(a, b, ctx, fuel) && a.Record? && b.Record? && a.tail.Uniform? && b.tail.Uniform?
    requires IsSubtype(a.tail.valueType, b.tail.valueType, ctx, depth + 1, sigma)
    ensures Consistent(a.tail.valueType, b.tail.valueType, ctx, fuel)
    decreases SizeOf(a) + SizeOf(b), 0, 0, 0
  {
    TailMeasures(a);
    TailMeasures(b);
    assert RecordFitting(a, b, ctx, fuel, false);
    assert LeftTail(a.tail) && RightTail(b.tail);
    StrictImpliesConsistent(a.tail.valueType, b.tail.valueType, ctx, fuel, depth + 1, sigma);
  }

  lemma {:induction false} UniformComplete(a: Ty, b: Ty, i: nat, ctx: Ctx, fuel: nat, depth: nat, sigma: Sigma)
    requires Comparable(a, b, ctx, fuel) && a.Record? && b.Record? && b.tail.Uniform? && !a.tail.Uniform? && i < |a.fields|
    requires || (a.fields[i].key.StrKey? && a.fields[i].key.name in StringKeys(b.fields))
             || IsSubtype(a.fields[i].ty, b.tail.valueType, ctx, depth + 1, sigma)
    ensures KeyText(a.fields[i].key) in StringKeys(b.fields) || Consistent(a.fields[i].ty, b.tail.valueType, ctx, fuel)
    decreases SizeOf(a) + SizeOf(b), 0, 0, 0
  {
    if !(a.fields[i].key.StrKey? && a.fields[i].key.name in StringKeys(b.fields)) {
      assert a.fields[i] in a.fields && LeftField(a.fields[i]) && RightTail(b.tail);
      assert RecordFitting(a, b, ctx, fuel, false);
      assert UniformFitting(a, b, i, ctx, fuel, false);
      FieldMeasures(a, i);
      TailMeasures(b);
      StrictImpliesConsistent(a.fields[i].ty, b.tail.valueType, ctx, fuel, depth + 1, sigma);
    }
  }

  /** On these forms the two relations agree: what is asked of integer keys is needed for one direction
      only, and so is the depth. */
  lemma StrictIffConsistent(a: Ty, b: Ty, ctx: Ctx, fuel: nat)
    requires LeftForm(a) && RightForm(b) && Fitting(a, b, ctx, fuel, false) && 1 <= ctx.cap && 1 <= ctx.limit
    requires ctx.env == map[]
    ensures IsSubtypeBas(a, b, ctx, false) ==> Consistent(a, b, ctx, fuel)
    ensures Fitting(a, b, ctx, fuel, true) && Height(a) <= ctx.limit && Height(b) <= ctx.limit ==>
      (IsSubtypeBas(a, b, ctx, false) <==> Consistent(a, b, ctx, fuel))
  {
    FormsStatic(a);
    FormsStatic(b);
    if IsSubtypeBas(a, b, ctx, false) {
      StrictImpliesConsistent(a, b, ctx, fuel, 0, {});
    }
    if Consistent(a, b, ctx, fuel) && Fitting(a, b, ctx, fuel, true) && Height(a) <= ctx.limit && Height(b) <= ctx.limit {
      StrictRefinesGradual(a, b, ctx, fuel);
    }
  }

  // ---------- where it does not ----------

  /** An atom, or Never. */
  predicate LowAtom(b: Ty) { b.Never? || b.Nominal? || IsLiteral(b) || b.Fn? || b.Record? }

  function PosRow(ms: seq<Ty>): (c: Conjunction)
    ensures forall s :: s in c <==> s.Pos? && s.atom in ms
  {
    if ms == [] then [] else [Pos(ms[0])] + PosRow(ms[1..])
  }

  lemma OneMoreAtom(c: Conjunction, m: Ty, cap: nat)
    requires !IsBoolean(m) && 1 <= cap
    ensures Distribute([c], ToRdnf(m, cap), cap) == [c + [Pos(m)]]
  {
    ProductSingle([c], [Pos(m)]);
  }

  lemma {:induction false} AtomsInOneRow(c: Conjunction, ms: seq<Ty>, cap: nat)
    requires (forall m :: m in ms ==> !IsBoolean(m)) && 1 <= cap
    ensures InterFrom([c], ms, cap) == [c + PosRow(ms)]
    decreases |ms|
  {
    if ms == [] {
      assert c + PosRow(ms) == c;
    } else {
      var m, rest := ms[0], ms[1..];
      assert m in ms;
      OneMoreAtom(c, m, cap);
      AtomsInOneRow(c + [Pos(m)], rest, cap);
      assert (c + [Pos(m)]) + PosRow(rest) == c + PosRow(ms);
    }
  }

  lemma RowOfAtoms(ms: seq<Ty>, cap: nat)
    requires (forall m :: m in ms ==> !IsBoolean(m)) && 1 <= cap
    ensures ToRdnf(Inter(ms), cap) == [PosRow(ms)]
  {
    AtomsInOneRow([], ms, cap);
    assert [] + PosRow(ms) == PosRow(ms);
    if ms != [] {
      assert ms[0] in ms;
      assert ToRdnf(Inter(ms), cap) == InterFrom(ToRdnf(ms[0], cap), ms[1..], cap);
      AtomsInOneRow([Pos(ms[0])], ms[1..], cap);
    }
  }

  lemma {:induction false} SignedRow(ms: seq<Ty>)
    ensures Positives(PosRow(ms)) == ms && Negatives(PosRow(ms)) == []
  {
    if ms != [] {
      SignedRow(ms[1..]);
      assert PosRow(ms)[1..] == PosRow(ms[1..]);
    }
  }

  lemma MeetBelowAtom(ms: seq<Ty>, b: Ty, ctx: Ctx, depth: nat, sigma: Sigma)
    requires (forall m :: m in ms ==> !IsBoolean(m)) && !IsBoolean(b) && !b.Var? && 1 <= ctx.cap
    ensures IsSubtype(Inter(ms), b, ctx, depth, sigma)
         == ConjunctionEmpty(PosRow(ms) + [NegAtom(b)], ctx, depth, sigma).ok
  {
    RowOfAtoms(ms, ctx.cap);
    FoldRows(Inter(ms), b, ctx.cap);
    var diff := ToRdnf(Inter([Inter(ms), Neg(b)]), ctx.cap);
    assert diff == [PosRow(ms) + [NegAtom(b)]];
    AllRowsEmpty(diff, ctx, depth, sigma);
  }

  lemma AloneBelow(m: Ty, b: Ty, ctx: Ctx, depth: nat, sigma: Sigma)
    requires !IsBoolean(m) && !m.Var? && Quiet(m) && !IsBoolean(b) && !b.Var? && 1 <= ctx.cap
    ensures AtomSubtype(m, b, ctx, depth, sigma) == Verdict(IsSubtype(m, b, ctx, depth, sigma), sigma)
  {
    QuietSigma(m, b, ctx, depth, sigma);
    AtomQuestion(m, b, ctx, depth, sigma);
  }

  ghost predicate SomeBelow(ms: seq<Ty>, b: Ty, ctx: Ctx, depth: nat, sigma: Sigma) {
    exists m :: m in ms && IsSubtype(m, b, ctx, depth, sigma)
  }

  lemma SomeAtomBelow(ms: seq<Ty>, b: Ty, ctx: Ctx, depth: nat, sigma: Sigma)
    requires (forall m :: m in ms ==> !IsBoolean(m) && !m.Var? && Quiet(m)) && !IsBoolean(b) && !b.Var? && 1 <= ctx.cap
    ensures SomeBelow(ms, b, ctx, depth, sigma) <==>
      exists p :: Pos(p) in PosRow(ms) && AtomSubtype(p, b, ctx, depth, sigma).ok
  {
    if m :| m in ms && IsSubtype(m, b, ctx, depth, sigma) {
      AloneBelow(m, b, ctx, depth, sigma);
      assert Pos(m).Pos? && Pos(m).atom == m;
    }
    if p :| Pos(p) in PosRow(ms) && AtomSubtype(p, b, ctx, depth, sigma).ok {
      assert Pos(p).atom in ms;
      AloneBelow(p, b, ctx, depth, sigma);
    }
  }

  /** An intersection of atoms is below an atom when two members are declared disjoint or one of them is
      below it alone. */
  lemma InterBelowAtomIff(ms: seq<Ty>, b: Ty, ctx: Ctx, depth: nat, sigma: Sigma)
    requires (forall m :: m in ms ==> !IsBoolean(m) && !m.Var? && Quiet(m)) && !IsBoolean(b) && !b.Var? && 1 <= ctx.cap
    ensures IsSubtype(Inter(ms), b, ctx, depth, sigma) <==> SomeDisjoint(ms) || SomeBelow(ms, b, ctx, depth, sigma)
  {
    MeetBelowAtom(ms, b, ctx, depth, sigma);
    SignedRow(ms);
    forall p | Pos(p) in PosRow(ms) ensures AtomSubtype(p, b, ctx, depth, sigma).sigma == sigma {
      assert Pos(p).atom in ms;
      AloneBelow(p, b, ctx, depth, sigma);
    }
    OneNegative(PosRow(ms), b, ctx, depth, sigma);
    SomeAtomBelow(ms, b, ctx, depth, sigma);
  }

  lemma MeetBelowNever(ms: seq<Ty>, ctx: Ctx, depth: nat, sigma: Sigma)
    requires (forall m :: m in ms ==> !IsBoolean(m)) && 1 <= ctx.cap
    ensures IsSubtype(Inter(ms), Never, ctx, depth, sigma) == ConjunctionEmpty(PosRow(ms), ctx, depth, sigma).ok
  {
    RowOfAtoms(ms, ctx.cap);
    DiffRdnf(Inter(ms), Never, ctx.cap);
    OneRowTimesTop(PosRow(ms), ctx.cap);
    var diff := ToRdnf(Inter([Inter(ms), Neg(Never)]), ctx.cap);
    assert diff == [PosRow(ms)];
    AllRowsEmpty(diff, ctx, depth, sigma);
  }

  lemma InterBelowNeverIff(ms: seq<Ty>, ctx: Ctx, depth: nat, sigma: Sigma)
    requires (forall m :: m in ms ==> !IsBoolean(m)) && 1 <= ctx.cap
    ensures IsSubtype(Inter(ms), Never, ctx, depth, sigma) <==> SomeDisjoint(ms)
  {
    MeetBelowNever(ms, ctx, depth, sigma);
    SignedRow(ms);
    NothingSubsumed(ms, ctx, depth, sigma);
  }

  /** Atoms that are each compared with `b` alike by the two relations. */
  predicate MeetForm(ms: seq<Ty>, b: Ty, ctx: Ctx, fuel: nat) {
    && LowAtom(b) && Height(b) <= ctx.limit
    && forall m :: m in ms ==>
         !IsBoolean(m) && Comparable(m, b, ctx, fuel) && Fitting(m, b, ctx, fuel, true) && Height(m) <= ctx.limit
  }

  /** A meet of atoms on the left: the strict check accepts more than the gradual one exactly when two
      members are declared disjoint and none is consistent with the right side. */
  lemma StrictOnlyMeetIff(ms: seq<Ty>, b: Ty, ctx: Ctx, fuel: nat)
    requires MeetForm(ms, b, ctx, fuel) && ms != []
    ensures Consistent(Inter(ms), b, ctx, fuel) ==> IsSubtypeBas(Inter(ms), b, ctx, false)
    ensures IsSubtypeBas(Inter(ms), b, ctx, false) && !Consistent(Inter(ms), b, ctx, fuel) <==>
      SomeDisjoint(ms) && forall m :: m in ms ==> !Consistent(m, b, ctx, fuel)
  {
    assert Comparable(ms[0], b, ctx, fuel);
    forall m | m in ms
      ensures IsSubtypeBas(m, b, ctx, false) <==> Consistent(m, b, ctx, fuel)
      ensures Quiet(m) && !m.Var? && !IsBoolean(m)
    {
      StrictIffConsistent(m, b, ctx, fuel);
      FormsStatic(m);
      StaticLeaf(m, m);
    }
    if b.Never? {
      InterBelowNeverIff(ms, ctx, 0, {});
      forall m | m in ms ensures !IsSubtypeBas(m, b, ctx, false) { AtomAboveNever(m, ctx, 0, {}); }
    } else {
      InterBelowAtomIff(ms, b, ctx, 0, {});
    }
    MeetConsistent(ms, b, ctx, fuel);
  }

  lemma MeetConsistent(ms: seq<Ty>, b: Ty, ctx: Ctx, fuel: nat)
    requires LowAtom(b) && forall m :: m in ms ==> !IsBoolean(m)
    ensures Consistent(Inter(ms), b, ctx, fuel) <==> exists m :: m in ms && Consistent(m, b, ctx, fuel)
  {
    var t := Inter(ms);
    if m :| m in ms && Consistent(m, b, ctx, fuel) {
      var i :| 0 <= i < |ms| && ms[i] == m;
      assert Consistent(t.members[i], b, ctx, fuel);
    }
    if Consistent(t, b, ctx, fuel) {
      var i :| 0 <= i < |t.members| && Consistent(t.members[i], b, ctx, fuel);
      assert t.members[i] in ms;
    }
  }

  /** A negated atom on the right: the gradual check never accepts, the strict one exactly atoms declared
      disjoint from it. */
  lemma StrictOnlyNegIff(p: Ty, q: Ty, ctx: Ctx, fuel: nat)
    requires Static(p) && !IsBoolean(p) && !IsBoolean(q) && 1 <= ctx.cap
    ensures IsSubtypeBas(p, Neg(q), ctx, false) <==> AtomsDisjoint(p, q)
    ensures !Consistent(p, Neg(q), ctx, fuel)
  {
    BelowNegationIff(p, q, ctx);
  }

  // ---------- a type is consistent with itself ----------

  /** A member an intersection may have: not another connective, and no recursive type. */
  predicate Factor(t: Ty) { !t.Union? && !t.Inter? && !t.Recursive? }

  /** No `Neg` and no `Error`; unions hold no recursive type and intersections no connective directly;
      records have unique keys; recursive types are accepted below themselves by the strict check, which
      is what they are compared by. */
  predicate SelfForm(t: Ty, ctx: Ctx)
    decreases t
  {
    match t
    case Neg(_) | Error | RecursiveRef(_) => false
    case Union(ms) => forall m :: m in ms ==> !m.Recursive? && SelfForm(m, ctx)
    case Inter(ms) => forall m :: m in ms ==> Factor(m) && SelfForm(m, ctx)
    case Fn(ps, _, ret) => SelfForm(ret, ctx) && forall p :: p in ps ==> SelfForm(p, ctx)
    case Record(fs, tail) => UniqueKeys(fs) && SelfTail(tail, ctx) && forall f :: f in fs ==> SelfField(f, ctx)
    case App(op, arg) => SelfForm(op, ctx) && SelfForm(arg, ctx)
    case Recursive(_) => IsSubtypeBas(t, t, ctx, false)
    case _ => true
  }

  predicate SelfField(f: Field, ctx: Ctx) decreases f { SelfForm(f.ty, ctx) }

  predicate SelfTail(tail: Tail, ctx: Ctx) decreases tail { tail.Uniform? ==> SelfForm(tail.valueType, ctx) }

  /** `u` is `t`, or a member of it through unions. */
  predicate Summand(u: Ty, t: Ty)
    decreases t
  {
    u == t || (t.Union? && exists m :: m in t.members && Summand(u, m))
  }

  lemma {:induction false} SummandOfMember(u: Ty, m: Ty, t: Ty)
    requires Summand(u, t) && u.Union? && m in u.members
    ensures Summand(m, t)
    decreases t
  {
    if u != t {
      var n :| n in t.members && Summand(u, n);
      SummandOfMember(u, m, n);
    } else {
      assert Summand(m, m);
    }
  }

  lemma {:induction false} SummandForm(u: Ty, t: Ty, ctx: Ctx)
    requires Summand(u, t) && SelfForm(t, ctx)
    ensures SelfForm(u, ctx) && (u != t ==> !u.Recursive?) && SizeOf(u) <= SizeOf(t)
    decreases t
  {
    if u != t {
      var m :| m in t.members && Summand(u, m);
      SummandForm(u, m, ctx);
    }
  }

  /** A summand is consistent with the whole. */
  lemma {:induction false} SummandConsistent(u: Ty, t: Ty, ctx: Ctx, fuel: nat)
    requires Summand(u, t) && SelfForm(t, ctx) && 1 <= ctx.cap && 1 <= ctx.limit
    ensures Consistent(u, t, ctx, fuel)
    decreases SizeOf(u), SizeOf(t), 1
  {
    SummandForm(u, t, ctx);
    if u.Union? {
      forall i | 0 <= i < |u.members| ensures Consistent(u.members[i], t, ctx, fuel) {
        assert u.members[i] in u.members;
        SummandOfMember(u, u.members[i], t);
        SummandConsistent(u.members[i], t, ctx, fuel);
      }
    } else if t.Union? {
      var m :| m in t.members && Summand(u, m);
      var i :| 0 <= i < |t.members| && t.members[i] == m;
      SummandConsistent(u, m, ctx, fuel);
      assert Consistent(u, t.members[i], ctx, fuel);
    } else {
      SelfConsistent(t, ctx, fuel);
    }
  }

  lemma {:induction false} SelfConsistent(t: Ty, ctx: Ctx, fuel: nat)
    requires SelfForm(t, ctx) && !t.Union? && 1 <= ctx.cap && 1 <= ctx.limit
    ensures Consistent(t, t, ctx, fuel)
    decreases SizeOf(t), SizeOf(t), 0
  {
    match t
    case Inter(ms) => InterConsistent(t, ctx, fuel);
    case Fn(ps, _, ret) => FnSelf(t, ctx, fuel);
    case Record(_, _) => RecordSelfConsistent(t, ctx, fuel);
    case App(op, arg) =>
      ConsistentReflexive(op, ctx, fuel);
      ConsistentReflexive(arg, ctx, fuel);
    case IntLit(_) | StrLit(_) | FloatLit(_) => AtomQuestion(t, t, ctx, 0, {});
    case _ =>
  }

  lemma {:induction false} ConsistentReflexive(t: Ty, ctx: Ctx, fuel: nat)
    requires SelfForm(t, ctx) && 1 <= ctx.cap && 1 <= ctx.limit
    ensures Consistent(t, t, ctx, fuel)
    decreases SizeOf(t), SizeOf(t), 2
  {
    SummandConsistent(t, t, ctx, fuel);
  }

  lemma {:induction false} InterConsistent(t: Ty, ctx: Ctx, fuel: nat)
    requires t.Inter? && SelfForm(t, ctx) && 1 <= ctx.cap && 1 <= ctx.limit
    ensures Consistent(t, t, ctx, fuel)
    decreases SizeOf(t), SizeOf(t), 0, 0
  {
    forall i | 0 <= i < |t.members| ensures Consistent(t, t.members[i], ctx, fuel) {
      var m := t.members[i];
      assert m in t.members;
      ConsistentReflexive(m, ctx, fuel);
      FactorConsistent(t, i, ctx, fuel);
    }
  }

  lemma FactorConsistent(t: Ty, i: nat, ctx: Ctx, fuel: nat)
    requires t.Inter? && i < |t.members| && Factor(t.members[i]) && !t.members[i].Error?
    requires Consistent(t.members[i], t.members[i], ctx, fuel)
    ensures Consistent(t, t.members[i], ctx, fuel)
  {
  }

  lemma {:induction false} FnSelf(t: Ty, ctx: Ctx, fuel: nat)
    requires t.Fn? && SelfForm(t, ctx) && 1 <= ctx.cap && 1 <= ctx.limit
    ensures Consistent(t, t, ctx, fuel)
    decreases SizeOf(t), SizeOf(t), 0, 0
  {
    ConsistentReflexive(t.ret, ctx, fuel);
    forall i | 0 <= i < |t.params| ensures ParamConsistent(t, t, i, ctx, fuel) {
      assert t.params[i] in t.params;
      ConsistentReflexive(t.params[i], ctx, fuel);
    }
  }

  lemma {:induction false} RecordSelfConsistent(t: Ty, ctx: Ctx, fuel: nat)
    requires t.Record? && SelfForm(t, ctx) && 1 <= ctx.cap && 1 <= ctx.limit
    ensures Consistent(t, t, ctx, fuel)
    decreases SizeOf(t), SizeOf(t), 0, 0
  {
    forall j | 0 <= j < |t.fields| ensures FieldConsistent(t, t, j, ctx, fuel) {
      assert t.fields[j] in t.fields && SelfField(t.fields[j], ctx);
      FieldMeasures(t, j);
      LookupUnique(t.fields, j);
      ConsistentReflexive(t.fields[j].ty, ctx, fuel);
    }
    if t.tail.Uniform? {
      assert SelfTail(t.tail, ctx);
      TailMeasures(t);
      ConsistentReflexive(t.tail.valueType, ctx, fuel);
    }
    assert TailConsistent(t, t, ctx, fuel);
  }

  /** Two types that are both less precise than a third one are consistent: whatever has been forgotten
      on either side, the relation does not get in the way. */
  lemma CommonRefinement(a: Ty, b: Ty, t: Ty, ctx: Ctx, fuel: nat)
    requires LessPrecise(a, t) && LessPrecise(b, t) && SelfForm(t, ctx) && NoRecursion(t) && 1 <= ctx.cap && 1 <= ctx.limit
    ensures Consistent(a, b, ctx, fuel)
  {
    ConsistentReflexive(t, ctx, fuel);
    PrecisionMonotone(t, t, a, b, ctx, fuel, fuel);
  }

  /** Some member of the intersection is consistent with some member of the union. */
  predicate MeetsUnion(ms: seq<Ty>, u: Ty, ctx: Ctx, fuel: nat)
    requires u.Union?
  {
    exists i, k :: 0 <= i < |ms| && 0 <= k < |u.members| && Consistent(ms[i], u.members[k], ctx, fuel)
  }

  /** A union of self-consistent types other than connectives and recursive types, or one such type. */
  predicate Sum(t: Ty, ctx: Ctx) {
    if t.Union? then forall u :: u in t.members ==> Factor(u) && SelfForm(u, ctx) else Factor(t) && SelfForm(t, ctx)
  }

  /** Below a type that is no connective, an intersection is consistent when a member is. */
  lemma FactorMeets(ms: seq<Ty>, u: Ty, ctx: Ctx, fuel: nat)
    requires ms != [] && Factor(u) && !u.Error? && !u.Neg? && (forall m :: m in ms ==> Sum(m, ctx))
    ensures Consistent(Inter(ms), u, ctx, fuel) <==>
      exists i :: 0 <= i < |ms| && Consistent(ms[i], u, ctx, fuel)
  {
    var t := Inter(ms);
    assert t.members == ms && ms[0] in ms;
    if u.Top? || u.Unknown? || u.Var? {
      var m := ms[0];
      if m.Union? {
        forall i | 0 <= i < |m.members| ensures Consistent(m.members[i], u, ctx, fuel) {
          assert m.members[i] in m.members;
        }
      }
      assert Consistent(m, u, ctx, fuel);
    }
  }

  lemma MemberMeets(ms: seq<Ty>, u: Ty, ctx: Ctx, fuel: nat)
    requires u in ms && u.Union? && forall m :: m in ms ==> Sum(m, ctx)
    ensures Consistent(Inter(ms), u, ctx, fuel) <==> MeetsUnion(ms, u, ctx, fuel)
  {
    forall k | 0 <= k < |u.members|
      ensures Consistent(Inter(ms), u.members[k], ctx, fuel) <==>
        exists i :: 0 <= i < |ms| && Consistent(ms[i], u.members[k], ctx, fuel)
    {
      assert u.members[k] in u.members;
      FactorMeets(ms, u.members[k], ctx, fuel);
    }
  }

  /** With unions as members, an intersection is consistent with itself exactly when each of the unions
      is met by some member of the intersection. */
  lemma InterReflexiveIff(ms: seq<Ty>, ctx: Ctx, fuel: nat)
    requires (forall m :: m in ms ==> Sum(m, ctx)) && 1 <= ctx.cap && 1 <= ctx.limit
    ensures Consistent(Inter(ms), Inter(ms), ctx, fuel) <==>
      forall i :: 0 <= i < |ms| && ms[i].Union? ==> MeetsUnion(ms, ms[i], ctx, fuel)
  {
    var t := Inter(ms);
    assert t.members == ms;
    forall i | 0 <= i < |ms|
      ensures Consistent(t, ms[i], ctx, fuel) <==> (ms[i].Union? ==> MeetsUnion(ms, ms[i], ctx, fuel))
    {
      assert ms[i] in ms;
      if ms[i].Union? {
        MemberMeets(ms, ms[i], ctx, fuel);
      } else {
        ConsistentReflexive(ms[i], ctx, fuel);
        FactorConsistent(t, i, ctx, fuel);
      }
    }
  }

  /** `(A | B) & C` is not consistent with itself. */
  lemma InterOfUnionNotSelf(a: nat, b: nat, c: nat, ctx: Ctx, fuel: nat)
    requires a != b && b != c && a != c && ctx.env == map[] && 1 <= ctx.cap && 1 <= ctx.limit
    ensures var t := Inter([Union([Nominal(a), Nominal(b)]), Nominal(c)]);
      !Consistent(t, t, ctx, fuel)
  {
    var u := Union([Nominal(a), Nominal(b)]);
    var ms := [u, Nominal(c)];
    InterReflexiveIff(ms, ctx, fuel);
    assert ms[0] == u && (Consistent(Inter(ms), Inter(ms), ctx, fuel) ==> MeetsUnion(ms, ms[0], ctx, fuel));
    forall k | 0 <= k < |u.members|
      ensures !Consistent(u, u.members[k], ctx, fuel) && !Consistent(Nominal(c), u.members[k], ctx, fuel)
    {
      UnionAbove(u, k, ctx, fuel);
      NominalsApart(c, u.members[k].id, ctx, fuel);
    }
    assert forall i :: 0 <= i < |ms| ==> ms[i] == u || ms[i] == Nominal(c);
  }

  lemma UnionAbove(u: Ty, k: nat, ctx: Ctx, fuel: nat)
    requires u.Union? && |u.members| == 2 && u.members[0].Nominal? && u.members[1].Nominal? && u.members[0] != u.members[1]
    requires k < 2 && ctx.env == map[]
    ensures !Consistent(u, u.members[k], ctx, fuel)
  {
    NominalsApart(u.members[1 - k].id, u.members[k].id, ctx, fuel);
  }

  lemma NominalsApart(x: nat, y: nat, ctx: Ctx, fuel: nat)
    requires x != y && ctx.env == map[]
    ensures !Consistent(Nominal(x), Nominal(y), ctx, fuel)
  {
  }

  // ---------- aliases ----------

  /** A declared alias of a nominal type, without constructors, is consistent with it in both directions;
      the strict check tells the two apart. */
  lemma AliasConsistent(i: nat, j: nat, ctx: Ctx, fuel: nat)
    requires i != j && j in ctx.env && ctx.env[j].constructors == [] && ctx.env[j].body == Nominal(i) && i !in ctx.env
    requires 1 <= ctx.cap && 1 <= ctx.limit
    ensures Consistent(Nominal(i), Nominal(j), ctx, fuel) && Consistent(Nominal(j), Nominal(i), ctx, fuel)
    ensures !IsSubtypeBas(Nominal(i), Nominal(j), ctx, false) && !IsSubtypeBas(Nominal(j), Nominal(i), ctx, false)
  {
    AtomQuestion(Nominal(i), Nominal(i), ctx, 0, {});
    AtomQuestion(Nominal(i), Nominal(j), ctx, 0, {});
    AtomQuestion(Nominal(j), Nominal(i), ctx, 0, {});
  }

  // ---------- where the gradual relation is looser than the strict one ----------

  /** Arguments are compared covariantly whatever the environment declares: an undeclared parameter, on
      which the strict check insists both ways, is taken for a covariant one. */
  lemma ArgumentsCovariant(n: nat, i: int, ctx: Ctx, fuel: nat)
    requires ctx.env == map[] && 1 <= ctx.cap && 2 <= ctx.limit
    ensures var a, b := App(Nominal(n), IntLit(i)), App(Nominal(n), Nominal(TYPE_ID_INT));
      && Consistent(a, b, ctx, fuel) && !Consistent(b, a, ctx, fuel)
      && !IsSubtypeBas(a, b, ctx, false) && !IsSubtypeBas(b, a, ctx, false)
  {
    var p, q := IntLit(i), Nominal(TYPE_ID_INT);
    var a, b := App(Nominal(n), p), App(Nominal(n), q);
    LiteralArgument(i, ctx, fuel);
    SpineQuestion(a, b, ctx, 0, {});
    SpineQuestion(b, a, ctx, 0, {});
  }

  lemma LiteralArgument(i: int, ctx: Ctx, fuel: nat)
    requires ctx.env == map[] && 1 <= ctx.cap && 2 <= ctx.limit
    ensures var p, q := IntLit(i), Nominal(TYPE_ID_INT);
      && Rigid(p) && Rigid(q) && Consistent(p, q, ctx, fuel) && !Consistent(q, p, ctx, fuel)
      && !IsSubtype(q, p, ctx, 1, {})
  {
    AtomQuestion(IntLit(i), Nominal(TYPE_ID_INT), ctx, 0, {});
    AtomQuestion(Nominal(TYPE_ID_INT), IntLit(i), ctx, 1, {});
  }

  /** A variadic function without parameters is above every function. */
  lemma AnyFunction(a: Ty, ret: Ty, ctx: Ctx, fuel: nat)
    requires a.Fn?
    ensures Consistent(a, Fn([], true, ret), ctx, fuel)
  {
  }

  /** An inference variable is below and above every other type that is not taken apart or unfolded. */
  lemma VariableConsistent(x: string, t: Ty, ctx: Ctx, fuel: nat)
    requires !t.Error? && !t.Union? && !t.Inter? && !t.Recursive?
    ensures Consistent(Var(x), t, ctx, fuel) && Consistent(t, Var(x), ctx, fuel)
  {
  }

  /** A recursive type is unfolded to meet one that is not: a nominal type is consistent with a chain that
      has it as a member, at the first unfolding, and the chain is not consistent with it. */
  lemma UnfoldedConsistent(n: nat, t: nat, ctx: Ctx, fuel: nat)
    requires fuel >= 1 && ctx.env == map[]
    ensures Consistent(Nominal(n), Chain(n, t), ctx, fuel) && !Consistent(Chain(n, t), Nominal(n), ctx, fuel)
  {
    UnfoldChain(n, t);
    var u := UnfoldTy(Chain(n, t));
    assert Consistent(Nominal(n), u.members[0], ctx, fuel - 1);
    assert !Consistent(u.members[1], Nominal(n), ctx, fuel - 1);
  }
}
