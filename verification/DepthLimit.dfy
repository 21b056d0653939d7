/** The depth limit and the hypothesis set only ever withhold acceptance: more remaining depth
    and more hypotheses accept at least as much.  (That the checker terminates on every input,
    cyclic and unguarded recursive types included, is what the `decreases` clauses of `Subtype`
    and `Checker` establish.) */
module DepthLimit {
  import opened Types
  import opened Rdnf
  import opened Unfold
  import opened Subtype
  import opened Lattice
  import opened AtomQuestions

  /** `strong` differs from `weak` in its limit only. */
  ghost predicate SameRules(weak: Ctx, strong: Ctx) {
    weak.env == strong.env && weak.key == strong.key && weak.cap == strong.cap
  }

  /** At least as much depth left, at least as many hypotheses. */
  ghost predicate Stronger(weak: Ctx, d: nat, s: Sigma, strong: Ctx, d': nat, s': Sigma) {
    SameRules(weak, strong) && Fuel(weak, d) <= Fuel(strong, d') && s <= s'
  }

  ghost predicate Improves(v: Verdict, v': Verdict) {
    (v.ok ==> v'.ok) && v.sigma <= v'.sigma
  }

  lemma {:induction false} SigmaGrows(p: Ty, q: Ty, ctx: Ctx, d: nat, s: Sigma)
    ensures s <= AtomSubtype(p, q, ctx, d, s).sigma
    decreases p, q
  {
    if SameCtor(p, q) && (p.Union? || p.Inter? || p.Neg? || p.RecursiveRef?) {
      SelfLoopRejected(p, q, ctx, d, s);
    } else if p.App? && q.App? && d < ctx.limit {
      SigmaGrows(p.op, q.op, ctx, d + 1, s);
      assert AtomSubtype(p, q, ctx, d, s) == AppSubtype(p, q, ctx, d, s);
    } else if p.Nominal? && q.App? && d < ctx.limit {
      SigmaGrows(p, q.op, ctx, d + 1, s);
    }
  }

  lemma {:induction false} SubtypeMonotone(sub: Ty, sup: Ty, weak: Ctx, d: nat, s: Sigma, strong: Ctx, d': nat, s': Sigma)
    requires Stronger(weak, d, s, strong, d', s') && IsSubtype(sub, sup, weak, d, s)
    ensures IsSubtype(sub, sup, strong, d', s')
    decreases Fuel(weak, d), 5, 0
  {
    if !sup.Top? && !sub.Never? && !sub.Var? && !sup.Var? {
      EmptyMonotone(ToRdnf(Inter([sub, Neg(sup)]), weak.cap), weak, d, s, strong, d', s');
    }
  }

  lemma {:induction false} EmptyMonotone(rdnf: Rdnf, weak: Ctx, d: nat, s: Sigma, strong: Ctx, d': nat, s': Sigma)
    requires Stronger(weak, d, s, strong, d', s') && RdnfEmpty(rdnf, weak, d, s)
    ensures RdnfEmpty(rdnf, strong, d', s')
    decreases Fuel(weak, d), 4, |rdnf|
  {
    if rdnf != [] {
      var c := rdnf[0];
      if !SomeDisjoint(Positives(c)) {
        SomeSubsumedMonotone(Positives(c), Negatives(c), weak, d, s, strong, d', s');
      }
      EmptyMonotone(rdnf[1..], weak, d, s, strong, d', s');
    }
  }

  lemma {:induction false} SomeSubsumedMonotone(pos: seq<Ty>, neg: seq<Ty>, weak: Ctx, d: nat, s: Sigma,
                                                strong: Ctx, d': nat, s': Sigma)
    requires Stronger(weak, d, s, strong, d', s')
    ensures SomeSubsumed(pos, neg, weak, d, s).ok ==> SomeSubsumed(pos, neg, strong, d', s').ok
    decreases Fuel(weak, d), 3, |pos|
  {
    if pos != [] {
      SubsumedByMonotone(pos[0], neg, weak, d, s, strong, d', s');
      var v, v' := SubsumedBy(pos[0], neg, weak, d, s), SubsumedBy(pos[0], neg, strong, d', s');
      if !v'.ok {
        SomeSubsumedMonotone(pos[1..], neg, weak, d, v.sigma, strong, d', v'.sigma);
      }
    }
  }

  lemma {:induction false} SubsumedByMonotone(p: Ty, neg: seq<Ty>, weak: Ctx, d: nat, s: Sigma,
                                              strong: Ctx, d': nat, s': Sigma)
    requires Stronger(weak, d, s, strong, d', s')
    ensures var v, v' := SubsumedBy(p, neg, weak, d, s), SubsumedBy(p, neg, strong, d', s');
      (v.ok ==> v'.ok) && (!v'.ok ==> v.sigma <= v'.sigma)
    decreases Fuel(weak, d), 2, |neg|
  {
    if neg != [] {
      AtomMonotone(p, neg[0], weak, d, s, strong, d', s');
      var v, v' := AtomSubtype(p, neg[0], weak, d, s), AtomSubtype(p, neg[0], strong, d', s');
      if !v'.ok {
        SubsumedByMonotone(p, neg[1..], weak, d, v.sigma, strong, d', v'.sigma);
      }
    }
  }

  lemma {:induction false} AtomMonotone(p: Ty, q: Ty, weak: Ctx, d: nat, s: Sigma, strong: Ctx, d': nat, s': Sigma)
    requires Stronger(weak, d, s, strong, d', s')
    ensures Improves(AtomSubtype(p, q, weak, d, s), AtomSubtype(p, q, strong, d', s'))
    decreases Fuel(weak, d), 1, 0
  {
    SigmaGrows(p, q, strong, d', s');
    if d < weak.limit {
      if SameCtor(p, q) && (p.Union? || p.Inter? || p.Neg? || p.RecursiveRef?) {
        SelfLoopRejected(p, q, weak, d, s);
      } else if p.App? && q.App? {
        AppMonotone(p, q, weak, d, s, strong, d', s');
      } else if p.Recursive? && q.Recursive? {
        RecursiveMonotone(p, q, weak, d, s, strong, d', s');
      } else {
        OtherMonotone(p, q, weak, d, s, strong, d', s');
      }
    }
  }

  lemma {:induction false} OtherMonotone(p: Ty, q: Ty, weak: Ctx, d: nat, s: Sigma, strong: Ctx, d': nat, s': Sigma)
    requires Stronger(weak, d, s, strong, d', s') && d < weak.limit
    requires !(SameCtor(p, q) && (p.Union? || p.Inter? || p.Neg? || p.RecursiveRef?))
    requires !(p.App? && q.App?) && !(p.Recursive? && q.Recursive?)
    ensures Improves(AtomSubtype(p, q, weak, d, s), AtomSubtype(p, q, strong, d', s'))
    decreases Fuel(weak, d), 0, 1
  {
    if p.Fn? && q.Fn? {
      if FnSubtype(p, q, weak, d, s) {
        SubtypeMonotone(p.ret, q.ret, weak, d + 1, s, strong, d' + 1, s');
        ParamsMonotone(p.params, q.params, weak, d, s, strong, d', s');
      }
    } else if p.Record? && q.Record? {
      if RecordSubtype(p, q, weak, d, s) {
        RecordMonotone(p, q, weak, d, s, strong, d', s');
      }
    } else if p.Recursive? {
      if IsSubtype(UnfoldTy(p), q, weak, d + 1, s) {
        SubtypeMonotone(UnfoldTy(p), q, weak, d + 1, s, strong, d' + 1, s');
      }
    } else if q.Recursive? {
      if IsSubtype(p, UnfoldTy(q), weak, d + 1, s) {
        SubtypeMonotone(p, UnfoldTy(q), weak, d + 1, s, strong, d' + 1, s');
      }
    } else if p.Nominal? && q.App? && q.op.Nominal? {
      HeadMonotone(p, q, weak, d, s, strong, d', s');
    }
  }

  lemma {:induction false} HeadMonotone(p: Ty, q: Ty, weak: Ctx, d: nat, s: Sigma, strong: Ctx, d': nat, s': Sigma)
    requires Stronger(weak, d, s, strong, d', s') && d < weak.limit
    requires p.Nominal? && q.App? && q.op.Nominal?
    ensures Improves(AtomSubtype(p, q, weak, d, s), AtomSubtype(p, q, strong, d', s'))
    decreases Fuel(weak, d), 0, 0
  {
    AtomMonotone(p, q.op, weak, d + 1, s, strong, d' + 1, s');
  }

  lemma {:induction false} ParamsMonotone(a: seq<Ty>, b: seq<Ty>, weak: Ctx, d: nat, s: Sigma, strong: Ctx, d': nat, s': Sigma)
    requires Stronger(weak, d, s, strong, d', s') && d < weak.limit && |a| <= |b|
    requires ParamsSubtype(a, b, weak, d, s)
    ensures d' < strong.limit && ParamsSubtype(a, b, strong, d', s')
    decreases Fuel(weak, d), 0, 0, |a|
  {
    if a != [] {
      SubtypeMonotone(b[0], a[0], weak, d + 1, s, strong, d' + 1, s');
      ParamsMonotone(a[1..], b[1..], weak, d, s, strong, d', s');
    }
  }

  lemma {:induction false} RecordMonotone(p: Ty, q: Ty, weak: Ctx, d: nat, s: Sigma, strong: Ctx, d': nat, s': Sigma)
    requires Stronger(weak, d, s, strong, d', s') && d < weak.limit && p.Record? && q.Record?
    requires RecordSubtype(p, q, weak, d, s)
    ensures d' < strong.limit && RecordSubtype(p, q, strong, d', s')
    decreases Fuel(weak, d), 0, 0
  {
    FieldsMonotone(p.fields, q.fields, weak, d, s, strong, d', s');
    if q.tail.Uniform? {
      if p.tail.Uniform? {
        SubtypeMonotone(p.tail.valueType, q.tail.valueType, weak, d + 1, s, strong, d' + 1, s');
      } else {
        UniformMonotone(p.fields, StringKeys(q.fields), q.tail.valueType, weak, d, s, strong, d', s');
      }
    }
  }

  lemma {:induction false} FieldsMonotone(a: seq<Field>, b: seq<Field>, weak: Ctx, d: nat, s: Sigma, strong: Ctx, d': nat, s': Sigma)
    requires Stronger(weak, d, s, strong, d', s') && d < weak.limit && FieldsSubtype(a, b, weak, d, s)
    ensures d' < strong.limit && FieldsSubtype(a, b, strong, d', s')
    decreases Fuel(weak, d), 0, 0, |b|
  {
    if b != [] {
      SubtypeMonotone(Lookup(a, b[0].key).value, b[0].ty, weak, d + 1, s, strong, d' + 1, s');
      FieldsMonotone(a, b[1..], weak, d, s, strong, d', s');
    }
  }

  lemma {:induction false} UniformMonotone(fs: seq<Field>, declared: set<string>, t: Ty, weak: Ctx, d: nat, s: Sigma,
                                           strong: Ctx, d': nat, s': Sigma)
    requires Stronger(weak, d, s, strong, d', s') && d < weak.limit && FieldsUniform(fs, declared, t, weak, d, s)
    ensures d' < strong.limit && FieldsUniform(fs, declared, t, strong, d', s')
    decreases Fuel(weak, d), 0, 0, |fs|
  {
    if fs != [] {
      if IsSubtype(fs[0].ty, t, weak, d + 1, s) {
        SubtypeMonotone(fs[0].ty, t, weak, d + 1, s, strong, d' + 1, s');
      }
      UniformMonotone(fs[1..], declared, t, weak, d, s, strong, d', s');
    }
  }

  lemma {:induction false} AppMonotone(p: Ty, q: Ty, weak: Ctx, d: nat, s: Sigma, strong: Ctx, d': nat, s': Sigma)
    requires Stronger(weak, d, s, strong, d', s') && d < weak.limit && p.App? && q.App?
    ensures Improves(AtomSubtype(p, q, weak, d, s), AtomSubtype(p, q, strong, d', s'))
    decreases Fuel(weak, d), 0, 0
  {
    AtomMonotone(p.op, q.op, weak, d + 1, s, strong, d' + 1, s');
    var v, v' := AtomSubtype(p.op, q.op, weak, d + 1, s), AtomSubtype(p.op, q.op, strong, d' + 1, s');
    if v.ok {
      if IsSubtype(p.arg, q.arg, weak, d + 1, v.sigma) {
        SubtypeMonotone(p.arg, q.arg, weak, d + 1, v.sigma, strong, d' + 1, v'.sigma);
      }
      if IsSubtype(q.arg, p.arg, weak, d + 1, v.sigma) {
        SubtypeMonotone(q.arg, p.arg, weak, d + 1, v.sigma, strong, d' + 1, v'.sigma);
      }
    }
    assert AtomSubtype(p, q, weak, d, s) == AppSubtype(p, q, weak, d, s);
    assert AtomSubtype(p, q, strong, d', s') == AppSubtype(p, q, strong, d', s');
  }

  lemma {:induction false} RecursiveMonotone(p: Ty, q: Ty, weak: Ctx, d: nat, s: Sigma, strong: Ctx, d': nat, s': Sigma)
    requires Stronger(weak, d, s, strong, d', s') && d < weak.limit && p.Recursive? && q.Recursive?
    ensures Improves(AtomSubtype(p, q, weak, d, s), AtomSubtype(p, q, strong, d', s'))
    decreases Fuel(weak, d), 0, 0
  {
    var key := (weak.key(p), weak.key(q));
    RecursiveVerdict(p, q, weak, d, s);
    RecursiveVerdict(p, q, strong, d', s');
    if key !in s && key !in s' {
      if IsSubtype(UnfoldTy(p), UnfoldTy(q), weak, d + 1, s + {key}) {
        SubtypeMonotone(UnfoldTy(p), UnfoldTy(q), weak, d + 1, s + {key}, strong, d' + 1, s' + {key});
      }
    }
  }

  /** Raising the limit never turns an acceptance into a rejection. */
  lemma RaisingTheLimit(sub: Ty, sup: Ty, ctx: Ctx, limit: nat, shared: bool)
    requires ctx.limit <= limit && (shared ==> sub == sup)
    requires IsSubtypeBas(sub, sup, ctx, shared)
    ensures IsSubtypeBas(sub, sup, ctx.(limit := limit), shared)
  {
    if !shared {
      SubtypeMonotone(sub, sup, ctx, 0, {}, ctx.(limit := limit), 0, {});
    }
  }
}
