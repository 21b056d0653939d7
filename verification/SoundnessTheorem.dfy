/** Soundness of acceptance from conditions on the two types alone. */
module SoundnessTheorem {
  import opened Types
  import opened Rdnf
  import opened RdnfMeaning
  import opened Unfold
  import opened UnfoldRdnf
  import opened Subtype
  import opened Emptiness
  import opened Values
  import opened Soundness
  import opened Reachability

  // ---------- conditions on a type ----------

  /** Normalising `t`, or any type inside it, stays within the cap. */
  predicate DeepCapFree(t: Ty, cap: nat)
    decreases t
  {
    match t
    case Union(members) => CapFree(t, cap) && forall m :: m in members ==> DeepCapFree(m, cap)
    case Inter(members) => CapFree(t, cap) && forall m :: m in members ==> DeepCapFree(m, cap)
    case Neg(of) => CapFree(t, cap) && DeepCapFree(of, cap)
    case Record(fields, _) => forall f :: f in fields ==> DeepCapFreeField(f, cap)
    case Recursive(body) => DeepCapFree(body, cap)
    case _ => true
  }

  predicate DeepCapFreeField(f: Field, cap: nat)
    decreases f
  {
    DeepCapFree(f.ty, cap)
  }

  /** The cap may be exceeded anywhere in `t` but in the operands of `Neg`. */
  predicate DeepUnderNeg(t: Ty, cap: nat)
    decreases t
  {
    match t
    case Union(members) => forall m :: m in members ==> DeepUnderNeg(m, cap)
    case Inter(members) => forall m :: m in members ==> DeepUnderNeg(m, cap)
    case Neg(of) => DeepCapFree(of, cap)
    case Record(fields, _) => forall f :: f in fields ==> DeepUnderNegField(f, cap)
    case Recursive(body) => DeepUnderNeg(body, cap)
    case _ => true
  }

  predicate DeepUnderNegField(f: Field, cap: nat)
    decreases f
  {
    DeepUnderNeg(f.ty, cap)
  }

  predicate HasNoNeg(t: Ty)
    decreases t
  {
    match t
    case Union(members) => forall m :: m in members ==> HasNoNeg(m)
    case Inter(members) => forall m :: m in members ==> HasNoNeg(m)
    case Neg(_) => false
    case Record(fields, _) => forall f :: f in fields ==> HasNoNegField(f)
    case Recursive(body) => HasNoNeg(body)
    case _ => true
  }

  predicate HasNoNegField(f: Field)
    decreases f
  {
    HasNoNeg(f.ty)
  }

  predicate HasNoRecursive(t: Ty)
    decreases t
  {
    match t
    case Union(members) => forall m :: m in members ==> HasNoRecursive(m)
    case Inter(members) => forall m :: m in members ==> HasNoRecursive(m)
    case Neg(of) => HasNoRecursive(of)
    case Record(fields, _) => forall f :: f in fields ==> HasNoRecursiveField(f)
    case Recursive(_) => false
    case _ => true
  }

  predicate HasNoRecursiveField(f: Field)
    decreases f
  {
    HasNoRecursive(f.ty)
  }

  /** In `t` and every type inside it, a recursive type stands alone in its row of the normal form:
      it may be a member of a union, not of an intersection with something else. */
  predicate RecursionAlone(t: Ty, cap: nat)
    decreases t
  {
    match t
    case Union(members) => LeftRows(ToRdnf(t, cap)) && forall m :: m in members ==> RecursionAlone(m, cap)
    case Inter(members) => LeftRows(ToRdnf(t, cap)) && forall m :: m in members ==> RecursionAlone(m, cap)
    case Record(fields, _) => forall f :: f in fields ==> RecursionAloneField(f, cap)
    case Recursive(body) => RecursionAlone(body, cap)
    case _ => true
  }

  predicate RecursionAloneField(f: Field, cap: nat) decreases f { RecursionAlone(f.ty, cap) }

  /** In `t` and every type inside it, only the last row of the normal form has recursive types: of the
      members of a union, only the last may be one. */
  predicate RecursionLast(t: Ty, cap: nat)
    decreases t
  {
    match t
    case Union(members) => RightRows(ToRdnf(t, cap)) && forall m :: m in members ==> RecursionLast(m, cap)
    case Inter(members) => RightRows(ToRdnf(t, cap)) && forall m :: m in members ==> RecursionLast(m, cap)
    case Record(fields, _) => forall f :: f in fields ==> RecursionLastField(f, cap)
    case Recursive(body) => RecursionLast(body, cap)
    case _ => true
  }

  predicate RecursionLastField(f: Field, cap: nat) decreases f { RecursionLast(f.ty, cap) }

  // ---------- the conditions survive unfolding ----------

  lemma {:induction false} SubstKeepsConditions(t: Ty, cap: nat, k: nat, r: Ty)
    requires r.Recursive?
    ensures DeepCapFree(t, cap) && DeepCapFree(r, cap) ==> DeepCapFree(Subst(t, k, r), cap)
    ensures HasNoNeg(t) && HasNoNeg(r) ==> HasNoNeg(Subst(t, k, r))
    decreases t
  {
    match t
    case Union(members) =>
      SubstToRdnf(t, cap, k, r);
      MembersKeepConditions(members, cap, k, r);
    case Inter(members) =>
      SubstToRdnf(t, cap, k, r);
      MembersKeepConditions(members, cap, k, r);
    case Neg(of) =>
      SubstToRdnf(t, cap, k, r);
      SubstKeepsConditions(of, cap, k, r);
    case Record(fields, _) => FieldsKeepConditions(fields, cap, k, r);
    case Recursive(body) => SubstKeepsConditions(body, cap, k + 1, r);
    case _ =>
  }

  lemma {:induction false} MembersKeepConditions(ts: seq<Ty>, cap: nat, k: nat, r: Ty)
    requires r.Recursive?
    ensures (forall t :: t in ts ==> DeepCapFree(t, cap)) && DeepCapFree(r, cap)
        ==> forall t :: t in SubstAll(ts, k, r) ==> DeepCapFree(t, cap)
    ensures (forall t :: t in ts ==> HasNoNeg(t)) && HasNoNeg(r)
        ==> forall t :: t in SubstAll(ts, k, r) ==> HasNoNeg(t)
    decreases ts
  {
    if ts != [] {
      SubstKeepsConditions(ts[0], cap, k, r);
      MembersKeepConditions(ts[1..], cap, k, r);
      var d := Subst(ts[0], k, r);
      assert SubstAll(ts, k, r) == [d] + SubstAll(ts[1..], k, r);
      assert DeepCapFree(ts[0], cap) && DeepCapFree(r, cap) ==> DeepCapFree(d, cap);
      assert HasNoNeg(ts[0]) && HasNoNeg(r) ==> HasNoNeg(d);
      assert ts == [ts[0]] + ts[1..];
    }
  }

  lemma {:induction false} FieldsKeepConditions(fs: seq<Field>, cap: nat, k: nat, r: Ty)
    requires r.Recursive?
    ensures (forall f :: f in fs ==> DeepCapFreeField(f, cap)) && DeepCapFree(r, cap)
        ==> forall f :: f in SubstFields(fs, k, r) ==> DeepCapFreeField(f, cap)
    ensures (forall f :: f in fs ==> HasNoNegField(f)) && HasNoNeg(r)
        ==> forall f :: f in SubstFields(fs, k, r) ==> HasNoNegField(f)
    decreases fs
  {
    if fs != [] {
      assert fs[0].ty < fs[0];
      SubstKeepsConditions(fs[0].ty, cap, k, r);
      FieldsKeepConditions(fs[1..], cap, k, r);
      var d := SubstField(fs[0], k, r);
      assert SubstFields(fs, k, r) == [d] + SubstFields(fs[1..], k, r);
      assert DeepCapFreeField(fs[0], cap) && DeepCapFree(r, cap) ==> DeepCapFreeField(d, cap);
      assert HasNoNegField(fs[0]) && HasNoNeg(r) ==> HasNoNegField(d);
      assert fs == [fs[0]] + fs[1..];
    }
  }

  lemma SubstContractiveRow(c: Conjunction, k: nat, r: Ty)
    requires ContractiveRow(c)
    ensures ContractiveRow(SubstConjunction(c, k, r))
  {
    var d := SubstConjunction(c, k, r);
    forall s | s in d ensures Contractive(s.atom) {
      var i :| 0 <= i < |d| && d[i] == s;
      assert c[i] in c;
    }
  }

  lemma SubstLeftRows(rows: Rdnf, k: nat, r: Ty)
    requires LeftRows(rows)
    ensures LeftRows(SubstRdnf(rows, k, r))
  {
    var news := SubstRdnf(rows, k, r);
    forall c | c in news ensures |c| == 1 || ContractiveRow(c) {
      var i :| 0 <= i < |news| && news[i] == c;
      assert rows[i] in rows;
      if |rows[i]| != 1 { SubstContractiveRow(rows[i], k, r); }
    }
  }

  lemma SubstRightRows(rows: Rdnf, k: nat, r: Ty)
    requires RightRows(rows)
    ensures RightRows(SubstRdnf(rows, k, r))
  {
    forall i | 0 <= i < |rows| - 1 ensures ContractiveRow(SubstRdnf(rows, k, r)[i]) {
      SubstContractiveRow(rows[i], k, r);
    }
  }

  lemma SubstRows(t: Ty, cap: nat, k: nat, r: Ty)
    requires r.Recursive?
    ensures LeftRows(ToRdnf(t, cap)) ==> LeftRows(ToRdnf(Subst(t, k, r), cap))
    ensures RightRows(ToRdnf(t, cap)) ==> RightRows(ToRdnf(Subst(t, k, r), cap))
  {
    SubstToRdnf(t, cap, k, r);
    if LeftRows(ToRdnf(t, cap)) { SubstLeftRows(ToRdnf(t, cap), k, r); }
    if RightRows(ToRdnf(t, cap)) { SubstRightRows(ToRdnf(t, cap), k, r); }
  }

  lemma {:induction false} SubstKeepsAlone(t: Ty, cap: nat, k: nat, r: Ty)
    requires r.Recursive? && RecursionAlone(t, cap) && RecursionAlone(r, cap)
    ensures RecursionAlone(Subst(t, k, r), cap)
    decreases t
  {
    match t
    case Union(members) =>
      SubstRows(t, cap, k, r);
      MembersKeepAlone(members, cap, k, r);
    case Inter(members) =>
      SubstRows(t, cap, k, r);
      MembersKeepAlone(members, cap, k, r);
    case Record(fields, _) =>
      forall f | f in SubstFields(fields, k, r) ensures RecursionAloneField(f, cap) {
        var i :| 0 <= i < |fields| && SubstFields(fields, k, r)[i] == f;
        assert fields[i] in fields && fields[i].ty < fields[i] && RecursionAloneField(fields[i], cap);
        SubstKeepsAlone(fields[i].ty, cap, k, r);
      }
    case Recursive(body) => SubstKeepsAlone(body, cap, k + 1, r);
    case _ =>
  }

  lemma {:induction false} MembersKeepAlone(ts: seq<Ty>, cap: nat, k: nat, r: Ty)
    requires r.Recursive? && RecursionAlone(r, cap) && forall t :: t in ts ==> RecursionAlone(t, cap)
    ensures forall t :: t in SubstAll(ts, k, r) ==> RecursionAlone(t, cap)
    decreases ts
  {
    forall t | t in SubstAll(ts, k, r) ensures RecursionAlone(t, cap) {
      var i :| 0 <= i < |ts| && SubstAll(ts, k, r)[i] == t;
      assert ts[i] in ts;
      SubstKeepsAlone(ts[i], cap, k, r);
    }
  }

  lemma {:induction false} SubstKeepsLast(t: Ty, cap: nat, k: nat, r: Ty)
    requires r.Recursive? && RecursionLast(t, cap) && RecursionLast(r, cap)
    ensures RecursionLast(Subst(t, k, r), cap)
    decreases t
  {
    match t
    case Union(members) =>
      SubstRows(t, cap, k, r);
      MembersKeepLast(members, cap, k, r);
    case Inter(members) =>
      SubstRows(t, cap, k, r);
      MembersKeepLast(members, cap, k, r);
    case Record(fields, _) =>
      forall f | f in SubstFields(fields, k, r) ensures RecursionLastField(f, cap) {
        var i :| 0 <= i < |fields| && SubstFields(fields, k, r)[i] == f;
        assert fields[i] in fields && fields[i].ty < fields[i] && RecursionLastField(fields[i], cap);
        SubstKeepsLast(fields[i].ty, cap, k, r);
      }
    case Recursive(body) => SubstKeepsLast(body, cap, k + 1, r);
    case _ =>
  }

  lemma {:induction false} MembersKeepLast(ts: seq<Ty>, cap: nat, k: nat, r: Ty)
    requires r.Recursive? && RecursionLast(r, cap) && forall t :: t in ts ==> RecursionLast(t, cap)
    ensures forall t :: t in SubstAll(ts, k, r) ==> RecursionLast(t, cap)
    decreases ts
  {
    forall t | t in SubstAll(ts, k, r) ensures RecursionLast(t, cap) {
      var i :| 0 <= i < |ts| && SubstAll(ts, k, r)[i] == t;
      assert ts[i] in ts;
      SubstKeepsLast(ts[i], cap, k, r);
    }
  }

  lemma DeepIsCapFree(t: Ty, cap: nat)
    requires DeepCapFree(t, cap)
    ensures CapFree(t, cap)
  {
  }

  lemma {:induction false} SubstKeepsUnderNeg(t: Ty, cap: nat, k: nat, r: Ty)
    requires r.Recursive? && DeepUnderNeg(t, cap) && DeepUnderNeg(r, cap) && (HasNoNeg(t) || DeepCapFree(r, cap))
    ensures DeepUnderNeg(Subst(t, k, r), cap)
    decreases t
  {
    match t
    case Union(members) => MembersKeepUnderNeg(members, cap, k, r);
    case Inter(members) => MembersKeepUnderNeg(members, cap, k, r);
    case Neg(of) => SubstKeepsConditions(of, cap, k, r);
    case Record(fields, _) =>
      forall f | f in SubstFields(fields, k, r) ensures DeepUnderNegField(f, cap) {
        var i :| 0 <= i < |fields| && SubstFields(fields, k, r)[i] == f;
        var g := fields[i];
        assert g in fields && g.ty < g && DeepUnderNegField(g, cap) && (HasNoNeg(t) ==> HasNoNegField(g));
        SubstKeepsUnderNeg(g.ty, cap, k, r);
      }
    case Recursive(body) => SubstKeepsUnderNeg(body, cap, k + 1, r);
    case _ =>
  }

  lemma {:induction false} MembersKeepUnderNeg(ts: seq<Ty>, cap: nat, k: nat, r: Ty)
    requires r.Recursive? && DeepUnderNeg(r, cap) && forall t :: t in ts ==> DeepUnderNeg(t, cap)
    requires (forall t :: t in ts ==> HasNoNeg(t)) || DeepCapFree(r, cap)
    ensures forall t :: t in SubstAll(ts, k, r) ==> DeepUnderNeg(t, cap)
    decreases ts
  {
    forall t | t in SubstAll(ts, k, r) ensures DeepUnderNeg(t, cap) {
      var i :| 0 <= i < |ts| && SubstAll(ts, k, r)[i] == t;
      assert ts[i] in ts;
      SubstKeepsUnderNeg(ts[i], cap, k, r);
    }
  }

  lemma {:induction false} DeepUnderNegWeaker(t: Ty, cap: nat)
    requires DeepCapFree(t, cap)
    ensures DeepUnderNeg(t, cap)
    decreases t
  {
    match t
    case Union(members) => forall m | m in members ensures DeepUnderNeg(m, cap) { DeepUnderNegWeaker(m, cap); }
    case Inter(members) => forall m | m in members ensures DeepUnderNeg(m, cap) { DeepUnderNegWeaker(m, cap); }
    case Record(fields, _) =>
      forall f | f in fields ensures DeepUnderNegField(f, cap) {
        assert f.ty < f && DeepCapFreeField(f, cap);
        DeepUnderNegWeaker(f.ty, cap);
      }
    case Recursive(body) => DeepUnderNegWeaker(body, cap);
    case _ =>
  }

  lemma {:induction false} DeepUnderNegIsUnderNeg(t: Ty, cap: nat)
    requires DeepUnderNeg(t, cap)
    ensures CapFreeUnderNeg(t, cap)
    decreases t
  {
    match t
    case Union(members) => forall m | m in members ensures CapFreeUnderNeg(m, cap) { DeepUnderNegIsUnderNeg(m, cap); }
    case Inter(members) => forall m | m in members ensures CapFreeUnderNeg(m, cap) { DeepUnderNegIsUnderNeg(m, cap); }
    case Neg(of) => DeepIsCapFree(of, cap);
    case _ =>
  }

  // ---------- the theorem ----------

  ghost predicate OneMode(t: Ty, recursion: bool) {
    if recursion then HasNoNeg(t) else HasNoRecursive(t)
  }

  /** Types a run can meet on the left, and on the right, of two admissible arguments. */
  ghost function AdmissibleLeft(a: Ty, b: Ty, cap: nat, recursion: bool): iset<Ty> {
    iset t | Met(t, a, b) && Guarded(t, 0) && DeepUnderNeg(t, cap) && OneMode(t, recursion)
             && (recursion ==> RecursionAlone(t, cap))
  }

  ghost function AdmissibleRight(a: Ty, b: Ty, cap: nat, recursion: bool): iset<Ty> {
    iset t | Met(t, a, b) && Guarded(t, 0) && DeepCapFree(t, cap) && OneMode(t, recursion)
             && (recursion ==> RecursionLast(t, cap))
  }

  lemma OneModeSteps(t: Ty, u: Ty, recursion: bool)
    requires Guarded(t, 0) && OneMode(t, recursion) && StepTo(t, u)
    ensures Guarded(u, 0) && OneMode(u, recursion)
  {
    match t
    case Record(fields, _) =>
      var f :| f in fields && f.ty == u;
      assert GuardedField(f, 0) && (recursion ==> HasNoNegField(f)) && (!recursion ==> HasNoRecursiveField(f));
    case Recursive(body) =>
      UnfoldGuarded(t);
      SubstKeepsConditions(body, 0, 0, t);
    case _ =>
  }

  lemma DeepSteps(t: Ty, u: Ty, cap: nat)
    requires Guarded(t, 0) && DeepCapFree(t, cap) && StepTo(t, u)
    ensures DeepCapFree(u, cap)
  {
    match t
    case Record(fields, _) =>
      var f :| f in fields && f.ty == u;
      assert DeepCapFreeField(f, cap);
    case Recursive(body) => SubstKeepsConditions(body, cap, 0, t);
    case _ =>
  }

  lemma UnderNegSteps(t: Ty, u: Ty, cap: nat, recursion: bool)
    requires Guarded(t, 0) && DeepUnderNeg(t, cap) && OneMode(t, recursion) && StepTo(t, u)
    ensures if t.Neg? then DeepCapFree(u, cap) else DeepUnderNeg(u, cap)
  {
    match t
    case Record(fields, _) =>
      var f :| f in fields && f.ty == u;
      assert DeepUnderNegField(f, cap);
    case Recursive(body) => SubstKeepsUnderNeg(body, cap, 0, t);
    case _ =>
  }

  lemma AloneSteps(t: Ty, u: Ty, cap: nat)
    requires RecursionAlone(t, cap) && StepTo(t, u) && Guarded(t, 0) && !t.Neg?
    ensures RecursionAlone(u, cap)
  {
    match t
    case Record(fields, _) =>
      var f :| f in fields && f.ty == u;
      assert RecursionAloneField(f, cap);
    case Recursive(body) => SubstKeepsAlone(body, cap, 0, t);
    case _ =>
  }

  lemma LastSteps(t: Ty, u: Ty, cap: nat)
    requires RecursionLast(t, cap) && StepTo(t, u) && Guarded(t, 0) && !t.Neg?
    ensures RecursionLast(u, cap)
  {
    match t
    case Record(fields, _) =>
      var f :| f in fields && f.ty == u;
      assert RecursionLastField(f, cap);
    case Recursive(body) => SubstKeepsLast(body, cap, 0, t);
    case _ =>
  }

  lemma RightSteps(t: Ty, a: Ty, b: Ty, cap: nat, recursion: bool)
    requires t in AdmissibleRight(a, b, cap, recursion)
    ensures if t.Neg? then t.of in AdmissibleLeft(a, b, cap, recursion)
            else StepsStayIn(t, AdmissibleRight(a, b, cap, recursion))
  {
    if t.Neg? {
      OneModeSteps(t, t.of, recursion);
      MetStep(t, t.of, a, b);
      DeepUnderNegWeaker(t.of, cap);
    } else {
      forall u | StepTo(t, u) ensures u in AdmissibleRight(a, b, cap, recursion) {
        OneModeSteps(t, u, recursion);
        DeepSteps(t, u, cap);
        if recursion { LastSteps(t, u, cap); }
        MetStep(t, u, a, b);
      }
      StepsStayInIff(t, AdmissibleRight(a, b, cap, recursion));
    }
  }

  lemma LeftSteps(t: Ty, a: Ty, b: Ty, cap: nat, recursion: bool)
    requires t in AdmissibleLeft(a, b, cap, recursion)
    ensures if t.Neg? then t.of in AdmissibleRight(a, b, cap, recursion)
            else StepsStayIn(t, AdmissibleLeft(a, b, cap, recursion))
  {
    if t.Neg? {
      OneModeSteps(t, t.of, recursion);
      MetStep(t, t.of, a, b);
    } else {
      forall u | StepTo(t, u) ensures u in AdmissibleLeft(a, b, cap, recursion) {
        OneModeSteps(t, u, recursion);
        UnderNegSteps(t, u, cap, recursion);
        if recursion { AloneSteps(t, u, cap); }
        MetStep(t, u, a, b);
      }
      StepsStayInIff(t, AdmissibleLeft(a, b, cap, recursion));
    }
  }

  /** What `SoundDomains` asks of one side, apart from the normal forms. */
  ghost predicate SideSound(side: iset<Ty>, other: iset<Ty>, ctx: Ctx, recursion: bool) {
    && Polar(side, other) && Structured(side) && KeysApart(side, ctx)
    && if recursion then NegFree(side) else NonRecursive(side)
  }

  lemma LeftSide(a: Ty, b: Ty, ctx: Ctx, recursion: bool)
    requires recursion ==> KeysApart(Reachable(a, b), ctx)
    ensures SideSound(AdmissibleLeft(a, b, ctx.cap, recursion), AdmissibleRight(a, b, ctx.cap, recursion), ctx, recursion)
  {
    var left, right := AdmissibleLeft(a, b, ctx.cap, recursion), AdmissibleRight(a, b, ctx.cap, recursion);
    forall t | t in left
      ensures t in Reachable(a, b) && Guarded(t, 0) && if t.Neg? then t.of in right else StepsStayIn(t, left)
      ensures if recursion then !t.Neg? else !t.Recursive?
    {
      LeftSteps(t, a, b, ctx.cap, recursion);
    }
    if recursion { KeysApartWithin(left, Reachable(a, b), ctx); }
  }

  lemma RightSide(a: Ty, b: Ty, ctx: Ctx, recursion: bool)
    requires recursion ==> KeysApart(Reachable(a, b), ctx)
    ensures SideSound(AdmissibleRight(a, b, ctx.cap, recursion), AdmissibleLeft(a, b, ctx.cap, recursion), ctx, recursion)
  {
    var left, right := AdmissibleLeft(a, b, ctx.cap, recursion), AdmissibleRight(a, b, ctx.cap, recursion);
    forall t | t in right
      ensures t in Reachable(a, b) && Guarded(t, 0) && if t.Neg? then t.of in left else StepsStayIn(t, right)
      ensures if recursion then !t.Neg? else !t.Recursive?
    {
      RightSteps(t, a, b, ctx.cap, recursion);
    }
    if recursion { KeysApartWithin(right, Reachable(a, b), ctx); }
  }

  lemma LeftNormalForms(a: Ty, b: Ty, cap: nat, recursion: bool)
    ensures forall t :: t in AdmissibleLeft(a, b, cap, recursion) ==>
      CapFreeUnderNeg(t, cap) && (recursion ==> LeftRows(ToRdnf(t, cap)))
  {
    forall t | t in AdmissibleLeft(a, b, cap, recursion)
      ensures CapFreeUnderNeg(t, cap) && (recursion ==> LeftRows(ToRdnf(t, cap)))
    {
      DeepUnderNegIsUnderNeg(t, cap);
    }
  }

  lemma RightNormalForms(a: Ty, b: Ty, cap: nat, recursion: bool)
    ensures forall t :: t in AdmissibleRight(a, b, cap, recursion) ==>
      CapFree(t, cap) && (recursion ==> RightRows(ToRdnf(t, cap)))
  {
    forall t | t in AdmissibleRight(a, b, cap, recursion)
      ensures CapFree(t, cap) && (recursion ==> RightRows(ToRdnf(t, cap)))
    {
      DeepIsCapFree(t, cap);
    }
  }

  lemma AdmissibleSound(a: Ty, b: Ty, ctx: Ctx, recursion: bool)
    requires recursion ==> KeysApart(Reachable(a, b), ctx)
    ensures SoundDomains(AdmissibleLeft(a, b, ctx.cap, recursion), AdmissibleRight(a, b, ctx.cap, recursion), ctx)
  {
    LeftSide(a, b, ctx, recursion);
    RightSide(a, b, ctx, recursion);
    LeftNormalForms(a, b, ctx.cap, recursion);
    RightNormalForms(a, b, ctx.cap, recursion);
  }

  /** Acceptance is sound on guarded types over nominal types, literals and records, whatever the
      depth limit, also when normalising the left type exceeds the cap outside `Neg`.  With recursion
      it is when keys tell apart the recursive types reachable from the two, no `Neg` occurs, and
      recursive types stand alone on the left and last on the right; with `Neg` it is when no recursive
      type occurs. */
  lemma AcceptanceSound(sub: Ty, sup: Ty, ctx: Ctx, shared: bool, v: Value)
    requires Guarded(sub, 0) && Guarded(sup, 0)
    requires DeepUnderNeg(sub, ctx.cap) && DeepCapFree(sup, ctx.cap)
    requires || (&& HasNoNeg(sub) && HasNoNeg(sup) && KeysApart(Reachable(sub, sup), ctx)
                 && RecursionAlone(sub, ctx.cap) && RecursionLast(sup, ctx.cap))
             || (HasNoRecursive(sub) && HasNoRecursive(sup))
    requires shared ==> sub == sup
    requires IsSubtypeBas(sub, sup, ctx, shared) && In(v, sub)
    ensures In(v, sup)
  {
    var recursion := !(HasNoRecursive(sub) && HasNoRecursive(sup));
    AdmissibleSound(sub, sup, ctx, recursion);
    if !shared {
      ReachableClosed(sub, sup);
      var left := AdmissibleLeft(sub, sup, ctx.cap, recursion);
      var right := AdmissibleRight(sub, sup, ctx.cap, recursion);
      assert sub in left && sup in right;
      SubtypeSound(sub, sup, left, right, ctx, 0, {}, v);
    }
  }

  // ---------- when the two conditions on recursive types hold ----------

  /** No recursive type is a direct member of a Boolean node. */
  predicate Indirect(t: Ty)
    decreases t
  {
    match t
    case Union(members) => forall m :: m in members ==> Contractive(m) && Indirect(m)
    case Inter(members) => forall m :: m in members ==> Contractive(m) && Indirect(m)
    case Neg(of) => Contractive(of) && Indirect(of)
    case Record(fields, _) => forall f :: f in fields ==> IndirectField(f)
    case Recursive(body) => Indirect(body)
    case _ => true
  }

  predicate IndirectField(f: Field) decreases f { Indirect(f.ty) }

  lemma {:induction false} IndirectLeaf(a: Ty, t: Ty)
    requires Indirect(t) && Contractive(t) && Leaf(a, t)
    ensures Contractive(a)
    decreases t
  {
    match t
    case Union(members) =>
      var m :| m in members && Leaf(a, m);
      IndirectLeaf(a, m);
    case Inter(members) =>
      var m :| m in members && Leaf(a, m);
      IndirectLeaf(a, m);
    case Neg(of) => IndirectLeaf(a, of);
    case _ =>
  }

  lemma ContractiveRows(t: Ty, cap: nat)
    requires Indirect(t) && Contractive(t)
    ensures forall c :: c in ToRdnf(t, cap) ==> ContractiveRow(c)
  {
    forall c | c in ToRdnf(t, cap) ensures ContractiveRow(c) {
      forall s | s in c ensures Contractive(s.atom) {
        RdnfLeaves(t, cap, c, s);
        IndirectLeaf(s.atom, t);
      }
    }
  }

  /** They hold on both sides, at every cap, when no recursive type is a direct member of a Boolean
      node. */
  lemma {:induction false} IndirectAdmissible(t: Ty, cap: nat)
    requires Indirect(t)
    ensures RecursionAlone(t, cap) && RecursionLast(t, cap)
    decreases t
  {
    match t
    case Union(members) =>
      ContractiveRows(t, cap);
      forall m | m in members ensures RecursionAlone(m, cap) && RecursionLast(m, cap) { IndirectAdmissible(m, cap); }
    case Inter(members) =>
      ContractiveRows(t, cap);
      forall m | m in members ensures RecursionAlone(m, cap) && RecursionLast(m, cap) { IndirectAdmissible(m, cap); }
    case Record(fields, _) =>
      forall f | f in fields ensures RecursionAloneField(f, cap) && RecursionLastField(f, cap) {
        assert f.ty < f && IndirectField(f);
        IndirectAdmissible(f.ty, cap);
      }
    case Recursive(body) => IndirectAdmissible(body, cap);
    case _ =>
  }

  lemma AloneLeftRows(t: Ty, cap: nat)
    requires RecursionAlone(t, cap) && !t.Neg?
    ensures LeftRows(ToRdnf(t, cap))
  {
  }

  lemma {:induction false} UnionLeftRows(members: seq<Ty>, cap: nat)
    requires forall m :: m in members ==> RecursionAlone(m, cap) && !m.Neg?
    ensures LeftRows(UnionRdnf(members, cap))
    decreases |members|
  {
    if members != [] {
      assert members[0] in members;
      AloneLeftRows(members[0], cap);
      UnionLeftRows(members[1..], cap);
    }
  }

  /** On the left, any members may be recursive types. */
  lemma UnionAlone(members: seq<Ty>, cap: nat)
    requires forall m :: m in members ==> RecursionAlone(m, cap) && !m.Neg?
    ensures RecursionAlone(Union(members), cap)
  {
    UnionLeftRows(members, cap);
  }

  lemma LastRightRows(t: Ty, cap: nat)
    requires RecursionLast(t, cap) && !t.Neg?
    ensures RightRows(ToRdnf(t, cap))
  {
  }

  lemma {:induction false} UnionRightRows(members: seq<Ty>, last: Ty, cap: nat)
    requires (forall m :: m in members ==> Indirect(m) && Contractive(m)) && RecursionLast(last, cap) && !last.Neg?
    ensures RightRows(UnionRdnf(members + [last], cap))
    decreases |members|
  {
    var all := members + [last];
    if members == [] {
      LastRightRows(last, cap);
      assert UnionRdnf(all, cap) == ToRdnf(last, cap) + UnionRdnf([], cap);
    } else {
      assert members[0] in members && all[1..] == members[1..] + [last];
      UnionRightRows(members[1..], last, cap);
      ContractiveRows(members[0], cap);
      assert UnionRdnf(all, cap) == ToRdnf(members[0], cap) + UnionRdnf(members[1..] + [last], cap);
    }
  }

  /** On the right, the last member may be one. */
  lemma UnionLast(members: seq<Ty>, last: Ty, cap: nat)
    requires (forall m :: m in members ==> Indirect(m) && Contractive(m)) && RecursionLast(last, cap) && !last.Neg?
    ensures RecursionLast(Union(members + [last]), cap)
  {
    UnionRightRows(members, last, cap);
    forall m | m in members + [last] ensures RecursionLast(m, cap) {
      if m in members { IndirectAdmissible(m, cap); }
    }
  }
}
