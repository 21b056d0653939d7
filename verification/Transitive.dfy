/** Transitivity of acceptance, and where it ends: the exact condition for variadic functions, for
    records, for applications of nominal types and for Boolean combinations of nominal types and
    literals, each with a failing triple, and a failing triple for inference variables. */
module Transitive {
  import opened Types
  import opened Rdnf
  import opened RdnfMeaning
  import opened Subtype
  import opened Spines
  import opened Emptiness
  import opened AtomQuestions
  import opened Lattice
  import opened Structural
  import opened Decision
  import opened Counterexamples

  /** Top, Never, nominal types, literals, non-variadic functions, and records whose tail is
      closed or a row variable. */
  predicate Rigid(t: Ty)
    decreases t
  {
    match t
    case Top | Never | Nominal(_) | IntLit(_) | StrLit(_) | FloatLit(_) => true
    case Fn(params, variadic, ret) => !variadic && Rigid(ret) && forall p :: p in params ==> Rigid(p)
    case Record(fields, tail) => (tail.Closed? || tail.RowVar?) && forall f :: f in fields ==> RigidField(f)
    case _ => false
  }

  predicate RigidField(f: Field) decreases f { Rigid(f.ty) }

  /** `A <: B` and `B <: C` give `A <: C`, at any depth and whatever the limit. */
  lemma {:induction false} SubtypeTransitive(a: Ty, b: Ty, c: Ty, ctx: Ctx, depth: nat, sigma: Sigma)
    requires Rigid(a) && Rigid(b) && Rigid(c) && 1 <= ctx.cap
    requires IsSubtype(a, b, ctx, depth, sigma) && IsSubtype(b, c, ctx, depth, sigma)
    ensures IsSubtype(a, c, ctx, depth, sigma)
    decreases Fuel(ctx, depth), 1
  {
    if c.Top? || a.Never? {
    } else if b.Top? {
      if c.Never? { TopAboveNever(ctx, depth, sigma); } else { TopAboveAtom(c, ctx, depth, sigma); }
    } else if b.Never? {
      if a.Top? { TopAboveNever(ctx, depth, sigma); } else { AtomAboveNever(a, ctx, depth, sigma); }
    } else if a.Top? {
      TopAboveAtom(b, ctx, depth, sigma);
    } else if c.Never? {
      AtomAboveNever(b, ctx, depth, sigma);
    } else {
      AtomQuestion(a, b, ctx, depth, sigma);
      AtomQuestion(b, c, ctx, depth, sigma);
      AtomQuestion(a, c, ctx, depth, sigma);
      AtomTransitive(a, b, c, ctx, depth, sigma);
    }
  }

  lemma {:induction false} AtomTransitive(a: Ty, b: Ty, c: Ty, ctx: Ctx, depth: nat, sigma: Sigma)
    requires Rigid(a) && Rigid(b) && Rigid(c) && 1 <= ctx.cap
    requires !IsBoolean(a) && !IsBoolean(b) && !IsBoolean(c)
    requires AtomSubtype(a, b, ctx, depth, sigma).ok && AtomSubtype(b, c, ctx, depth, sigma).ok
    ensures AtomSubtype(a, c, ctx, depth, sigma).ok
    decreases Fuel(ctx, depth), 0
  {
    if a.Fn? {
      SubtypeTransitive(a.ret, b.ret, c.ret, ctx, depth + 1, sigma);
      ParamsTransitive(a.params, b.params, c.params, ctx, depth, sigma);
    } else if a.Record? {
      FieldsTransitive(a, b, c, c.fields, ctx, depth, sigma);
      assert TailSubtype(a, b, ctx, depth, sigma) && TailSubtype(b, c, ctx, depth, sigma);
      assert TailSubtype(a, c, ctx, depth, sigma);
    }
  }

  lemma {:induction false} ParamsTransitive(a: seq<Ty>, b: seq<Ty>, c: seq<Ty>, ctx: Ctx, depth: nat, sigma: Sigma)
    requires |a| <= |b| <= |c| && depth < ctx.limit && 1 <= ctx.cap
    requires (forall p :: p in a ==> Rigid(p)) && (forall p :: p in b ==> Rigid(p)) && (forall p :: p in c ==> Rigid(p))
    requires ParamsSubtype(a, b, ctx, depth, sigma) && ParamsSubtype(b, c, ctx, depth, sigma)
    ensures ParamsSubtype(a, c, ctx, depth, sigma)
    decreases Fuel(ctx, depth), 0, |a|
  {
    if a != [] {
      assert a[0] in a && b[0] in b && c[0] in c;
      SubtypeTransitive(c[0], b[0], a[0], ctx, depth + 1, sigma);
      ParamsTransitive(a[1..], b[1..], c[1..], ctx, depth, sigma);
    }
  }

  lemma RigidLookup(fields: seq<Field>, key: Key)
    requires Lookup(fields, key).Some? && forall f :: f in fields ==> RigidField(f)
    ensures Rigid(Lookup(fields, key).value)
  {
    var i :| 0 <= i < |fields| && fields[i].key == key && fields[i].ty == Lookup(fields, key).value;
    assert RigidField(fields[i]);
  }

  lemma {:induction false} FieldsTransitive(a: Ty, b: Ty, c: Ty, rest: seq<Field>, ctx: Ctx, depth: nat, sigma: Sigma)
    requires Rigid(a) && Rigid(b) && Rigid(c) && a.Record? && b.Record? && c.Record? && 1 <= ctx.cap
    requires depth < ctx.limit && forall f :: f in rest ==> f in c.fields
    requires FieldsSubtype(a.fields, b.fields, ctx, depth, sigma) && FieldsSubtype(b.fields, rest, ctx, depth, sigma)
    ensures FieldsSubtype(a.fields, rest, ctx, depth, sigma)
    decreases Fuel(ctx, depth), 0, |rest|
  {
    if rest != [] {
      var key := rest[0].key;
      var mid := Lookup(b.fields, key).value;
      var j :| 0 <= j < |b.fields| && b.fields[j].key == key && b.fields[j].ty == mid;
      FieldAccepted(a.fields, b.fields, ctx, depth, sigma, j);
      RigidLookup(a.fields, key);
      RigidLookup(b.fields, key);
      assert rest[0] in rest && RigidField(rest[0]);
      SubtypeTransitive(Lookup(a.fields, key).value, mid, rest[0].ty, ctx, depth + 1, sigma);
      FieldsTransitive(a, b, c, rest[1..], ctx, depth, sigma);
    }
  }

  // ---------- what breaks it ----------

  lemma FnQuestion(a: Ty, b: Ty, ctx: Ctx, depth: nat, sigma: Sigma)
    requires a.Fn? && b.Fn? && 1 <= ctx.cap
    ensures IsSubtype(a, b, ctx, depth, sigma) <==>
      && depth < ctx.limit && IsSubtype(a.ret, b.ret, ctx, depth + 1, sigma)
      && |a.params| <= |b.params| && (a.variadic || |a.params| == |b.params|)
      && ParamsSubtype(a.params, b.params, ctx, depth, sigma)
  {
    AtomQuestion(a, b, ctx, depth, sigma);
  }

  /** For functions, transitivity holds exactly when the left function is variadic or has as many
      parameters as the right one: a variadic function in the middle forgets the arity. */
  lemma FnTransitiveIff(a: Ty, b: Ty, c: Ty, ctx: Ctx, depth: nat, sigma: Sigma)
    requires a.Fn? && b.Fn? && c.Fn? && 1 <= ctx.cap
    requires Rigid(a.ret) && Rigid(b.ret) && Rigid(c.ret)
    requires forall p :: p in a.params + b.params + c.params ==> Rigid(p)
    requires IsSubtype(a, b, ctx, depth, sigma) && IsSubtype(b, c, ctx, depth, sigma)
    ensures IsSubtype(a, c, ctx, depth, sigma) <==> a.variadic || |a.params| == |c.params|
  {
    FnQuestion(a, b, ctx, depth, sigma);
    FnQuestion(b, c, ctx, depth, sigma);
    FnQuestion(a, c, ctx, depth, sigma);
    SubtypeTransitive(a.ret, b.ret, c.ret, ctx, depth + 1, sigma);
    forall p | p in a.params ensures Rigid(p) { assert p in a.params + b.params + c.params; }
    forall p | p in b.params ensures Rigid(p) { assert p in a.params + b.params + c.params; }
    forall p | p in c.params ensures Rigid(p) { assert p in a.params + b.params + c.params; }
    ParamsTransitive(a.params, b.params, c.params, ctx, depth, sigma);
  }

  /** The failing family is not empty: `fn(x) <: fn(x ...) <: fn(x, y)`, but not `fn(x) <: fn(x, y)`. */
  lemma VariadicBreaksTransitivity(x: nat, y: nat, ctx: Ctx, sigma: Sigma)
    requires 2 <= ctx.limit && 1 <= ctx.cap
    ensures var n := Nominal(x);
      var a, b, c := Fn([n], false, n), Fn([n], true, n), Fn([n, Nominal(y)], false, n);
      && IsSubtype(a, b, ctx, 0, sigma) && IsSubtype(b, c, ctx, 0, sigma)
      && !IsSubtype(a, c, ctx, 0, sigma)
  {
    var n := Nominal(x);
    var a, b, c := Fn([n], false, n), Fn([n], true, n), Fn([n, Nominal(y)], false, n);
    AtomQuestion(a, b, ctx, 0, sigma);
    AtomQuestion(b, c, ctx, 0, sigma);
    AtomQuestion(a, c, ctx, 0, sigma);
    AtomQuestion(n, n, ctx, 1, sigma);
    assert a.params[1..] == [];
    assert ParamsSubtype(a.params, b.params, ctx, 0, sigma);
    assert ParamsSubtype(b.params, c.params, ctx, 0, sigma);
  }

  lemma NominalQuestion(i: nat, j: nat, ctx: Ctx, depth: nat, sigma: Sigma)
    requires depth < ctx.limit && 1 <= ctx.cap
    ensures IsSubtype(Nominal(i), Nominal(j), ctx, depth, sigma) <==> i == j
  {
    AtomQuestion(Nominal(i), Nominal(j), ctx, depth, sigma);
  }

  lemma OneFieldRecords(k: string, i: nat, j: nat, ctx: Ctx, sigma: Sigma)
    requires 2 <= ctx.limit && 1 <= ctx.cap
    ensures var fields := [Field(StrKey(k), Nominal(i))];
      && FieldsSubtype(fields, fields, ctx, 0, sigma)
      && FieldsUniform(fields, StringKeys(fields), Nominal(j), ctx, 0, sigma)
      && (FieldsUniform(fields, StringKeys([]), Nominal(j), ctx, 0, sigma) <==> i == j)
  {
    var fields := [Field(StrKey(k), Nominal(i))];
    NominalQuestion(i, i, ctx, 1, sigma);
    NominalQuestion(i, j, ctx, 1, sigma);
    assert fields[1..] == [] && fields[0] in fields;
    assert StringKeys([]) == {};
  }

  /** A uniform tail checks only undeclared fields, so dropping a declaration exposes the field:
      `{k: I} <: {k: I, _: J} <: {_: J}`, but not `{k: I} <: {_: J}`. */
  lemma UniformTailBreaksTransitivity(k: string, i: nat, j: nat, ctx: Ctx, sigma: Sigma)
    requires 2 <= ctx.limit && 1 <= ctx.cap && i != j
    ensures var fields := [Field(StrKey(k), Nominal(i))];
      var a, b, c := Record(fields, Closed), Record(fields, Uniform(Nominal(j))), Record([], Uniform(Nominal(j)));
      && IsSubtype(a, b, ctx, 0, sigma) && IsSubtype(b, c, ctx, 0, sigma)
      && !IsSubtype(a, c, ctx, 0, sigma)
  {
    var fields := [Field(StrKey(k), Nominal(i))];
    var a, b, c := Record(fields, Closed), Record(fields, Uniform(Nominal(j))), Record([], Uniform(Nominal(j)));
    OneFieldRecords(k, i, j, ctx, sigma);
    NominalQuestion(j, j, ctx, 1, sigma);
    AtomQuestion(a, b, ctx, 0, sigma);
    AtomQuestion(b, c, ctx, 0, sigma);
    AtomQuestion(a, c, ctx, 0, sigma);
    assert TailSubtype(a, b, ctx, 0, sigma) && TailSubtype(b, c, ctx, 0, sigma) && !TailSubtype(a, c, ctx, 0, sigma);
    assert FieldsSubtype(fields, [], ctx, 0, sigma);
  }

  // ---------- records: the exact condition ----------

  /** Rigid field types and, below a uniform tail, a rigid value type. */
  predicate RigidParts(t: Ty) {
    && t.Record? && (t.tail.Uniform? ==> Rigid(t.tail.valueType))
    && forall f :: f in t.fields ==> RigidField(f)
  }

  lemma RecordQuestion(a: Ty, b: Ty, ctx: Ctx, depth: nat, sigma: Sigma)
    requires a.Record? && b.Record? && 1 <= ctx.cap
    ensures IsSubtype(a, b, ctx, depth, sigma) <==>
      && depth < ctx.limit && FieldsSubtype(a.fields, b.fields, ctx, depth, sigma)
      && TailSubtype(a, b, ctx, depth, sigma)
  {
    AtomQuestion(a, b, ctx, depth, sigma);
  }

  lemma {:induction false} FieldsThrough(a: seq<Field>, b: seq<Field>, c: seq<Field>, ctx: Ctx, depth: nat, sigma: Sigma)
    requires (forall f :: f in a ==> RigidField(f)) && (forall f :: f in b ==> RigidField(f))
    requires (forall f :: f in c ==> RigidField(f)) && 1 <= ctx.cap && depth < ctx.limit
    requires FieldsSubtype(a, b, ctx, depth, sigma) && FieldsSubtype(b, c, ctx, depth, sigma)
    ensures FieldsSubtype(a, c, ctx, depth, sigma)
    decreases |c|
  {
    if c != [] {
      var key := c[0].key;
      var mid := Lookup(b, key).value;
      var j :| 0 <= j < |b| && b[j].key == key && b[j].ty == mid;
      FieldAccepted(a, b, ctx, depth, sigma, j);
      RigidLookup(a, key);
      RigidLookup(b, key);
      assert c[0] in c && RigidField(c[0]);
      SubtypeTransitive(Lookup(a, key).value, mid, c[0].ty, ctx, depth + 1, sigma);
      FieldsThrough(a, b, c[1..], ctx, depth, sigma);
    }
  }

  /** The fields of `a` that only the comparison with `c` constrains: `c` does not declare them, and
      `b` declares them or has no uniform tail to bound them. */
  predicate Exposed(a: Ty, b: Ty, c: Ty, i: nat)
    requires a.Record? && b.Record? && c.Record? && i < |a.fields|
  {
    !Declared(a.fields[i].key, c) && (Declared(a.fields[i].key, b) || !b.tail.Uniform?)
  }

  /** Field `i` of `t` is below the value type `u`. */
  predicate BoundedBy(t: Ty, i: nat, u: Ty, ctx: Ctx, depth: nat, sigma: Sigma)
    requires t.Record? && i < |t.fields|
  {
    IsSubtype(t.fields[i].ty, u, ctx, depth + 1, sigma)
  }

  lemma UniformAll(t: Ty, c: Ty, ctx: Ctx, depth: nat, sigma: Sigma)
    requires t.Record? && c.Record? && c.tail.Uniform? && !t.tail.Uniform? && depth < ctx.limit
    ensures TailSubtype(t, c, ctx, depth, sigma) <==>
      && IsClosedTail(t.tail)
      && forall i :: 0 <= i < |t.fields| ==>
           Declared(t.fields[i].key, c) || BoundedBy(t, i, c.tail.valueType, ctx, depth, sigma)
  {
    UniformEach(t.fields, StringKeys(c.fields), c.tail.valueType, ctx, depth, sigma);
    forall i | 0 <= i < |t.fields|
      ensures Declared(t.fields[i].key, c) || BoundedBy(t, i, c.tail.valueType, ctx, depth, sigma)
        <==> (t.fields[i].key.StrKey? && t.fields[i].key.name in StringKeys(c.fields))
             || IsSubtype(t.fields[i].ty, c.tail.valueType, ctx, depth + 1, sigma)
    {
    }
  }

  /** A field that `b` bounds by its uniform tail is bounded by the one of `c`. */
  lemma BoundThrough(a: Ty, b: Ty, c: Ty, i: nat, ctx: Ctx, depth: nat, sigma: Sigma)
    requires RigidParts(a) && RigidParts(b) && RigidParts(c) && 1 <= ctx.cap && depth < ctx.limit
    requires b.tail.Uniform? && c.tail.Uniform? && !a.tail.Uniform? && i < |a.fields|
    requires TailSubtype(a, b, ctx, depth, sigma) && TailSubtype(b, c, ctx, depth, sigma)
    requires !Declared(a.fields[i].key, b)
    ensures BoundedBy(a, i, c.tail.valueType, ctx, depth, sigma)
  {
    UniformAll(a, b, ctx, depth, sigma);
    assert BoundedBy(a, i, b.tail.valueType, ctx, depth, sigma);
    assert a.fields[i] in a.fields && RigidField(a.fields[i]);
    SubtypeTransitive(a.fields[i].ty, b.tail.valueType, c.tail.valueType, ctx, depth + 1, sigma);
  }

  lemma TailThrough(a: Ty, b: Ty, c: Ty, ctx: Ctx, depth: nat, sigma: Sigma)
    requires RigidParts(a) && RigidParts(b) && RigidParts(c) && 1 <= ctx.cap && depth < ctx.limit
    requires TailSubtype(a, b, ctx, depth, sigma) && TailSubtype(b, c, ctx, depth, sigma)
    requires c.tail.Uniform? && IsClosedTail(a.tail)
    ensures TailSubtype(a, c, ctx, depth, sigma) <==>
      forall i :: 0 <= i < |a.fields| && Exposed(a, b, c, i) ==> BoundedBy(a, i, c.tail.valueType, ctx, depth, sigma)
  {
    UniformAll(a, c, ctx, depth, sigma);
    forall i | 0 <= i < |a.fields| && !Declared(a.fields[i].key, c) && !Exposed(a, b, c, i)
      ensures BoundedBy(a, i, c.tail.valueType, ctx, depth, sigma)
    {
      BoundThrough(a, b, c, i, ctx, depth, sigma);
    }
  }

  /** What the tail of `c` asks of the tail of `a`, whatever the fields are. */
  predicate TailFits(a: Ty, c: Ty, ctx: Ctx, depth: nat, sigma: Sigma)
    requires a.Record? && c.Record?
  {
    match c.tail
    case Closed => IsClosedTail(a.tail)
    case Uniform(u) =>
      if a.tail.Uniform? then IsSubtype(a.tail.valueType, u, ctx, depth + 1, sigma) else IsClosedTail(a.tail)
    case _ => true
  }

  /** A tail in the middle relates the two outer ones; an absent one does not. */
  lemma TailFitsThrough(a: Ty, b: Ty, c: Ty, ctx: Ctx, depth: nat, sigma: Sigma)
    requires RigidParts(a) && RigidParts(b) && RigidParts(c) && 1 <= ctx.cap && depth < ctx.limit
    requires TailSubtype(a, b, ctx, depth, sigma) && TailSubtype(b, c, ctx, depth, sigma) && !b.tail.Absent?
    ensures TailFits(a, c, ctx, depth, sigma)
  {
    if a.tail.Uniform? && c.tail.Uniform? {
      SubtypeTransitive(a.tail.valueType, b.tail.valueType, c.tail.valueType, ctx, depth + 1, sigma);
    }
  }

  /** For records, transitivity holds exactly when a middle record without a tail leaves the outer
      tails compatible and, below a uniform tail, every exposed field of a record that has no uniform
      tail itself is below the value type. */
  lemma RecordTransitiveIff(a: Ty, b: Ty, c: Ty, ctx: Ctx, depth: nat, sigma: Sigma)
    requires RigidParts(a) && RigidParts(b) && RigidParts(c) && 1 <= ctx.cap
    requires IsSubtype(a, b, ctx, depth, sigma) && IsSubtype(b, c, ctx, depth, sigma)
    ensures IsSubtype(a, c, ctx, depth, sigma) <==>
      && (b.tail.Absent? ==> TailFits(a, c, ctx, depth, sigma))
      && (c.tail.Uniform? && !a.tail.Uniform? ==>
            forall i :: 0 <= i < |a.fields| && Exposed(a, b, c, i) ==> BoundedBy(a, i, c.tail.valueType, ctx, depth, sigma))
  {
    RecordQuestion(a, b, ctx, depth, sigma);
    RecordQuestion(b, c, ctx, depth, sigma);
    RecordQuestion(a, c, ctx, depth, sigma);
    FieldsThrough(a.fields, b.fields, c.fields, ctx, depth, sigma);
    if !b.tail.Absent? {
      TailFitsThrough(a, b, c, ctx, depth, sigma);
    }
    assert TailSubtype(a, c, ctx, depth, sigma) ==> TailFits(a, c, ctx, depth, sigma);
    if c.tail.Uniform? && IsClosedTail(a.tail) {
      TailThrough(a, b, c, ctx, depth, sigma);
    }
  }

  /** A record with an absent tail in the middle: anything goes below it, and it goes below a closed
      one.  `{ | rho } <: { (absent) } <: { (closed) }`, but not `{ | rho } <: { (closed) }`. */
  lemma AbsentTailBreaksTransitivity(rho: string, ctx: Ctx, sigma: Sigma)
    requires 1 <= ctx.limit && 1 <= ctx.cap
    ensures var a, b, c := Record([], RowVar(rho)), Record([], Absent), Record([], Closed);
      && IsSubtype(a, b, ctx, 0, sigma) && IsSubtype(b, c, ctx, 0, sigma) && !IsSubtype(a, c, ctx, 0, sigma)
  {
    var a, b, c := Record([], RowVar(rho)), Record([], Absent), Record([], Closed);
    RecordQuestion(a, b, ctx, 0, sigma);
    RecordQuestion(b, c, ctx, 0, sigma);
    RecordQuestion(a, c, ctx, 0, sigma);
    assert a.fields == [] && b.fields == [] && c.fields == [];
    assert TailSubtype(a, b, ctx, 0, sigma) && TailSubtype(b, c, ctx, 0, sigma) && !TailSubtype(a, c, ctx, 0, sigma);
  }

  // ---------- applications: the exact condition ----------

  /** A nominal type applied to any number of rigid arguments. */
  predicate Spine(t: Ty) {
    t.Nominal? || (t.App? && Spine(t.op) && Rigid(t.arg))
  }

  /** The outermost arguments as `variance` asks. */
  predicate ArgsBelow(a: Ty, b: Ty, variance: Variance, ctx: Ctx, depth: nat, sigma: Sigma)
    requires a.App? && b.App?
  {
    && (variance.Covariant? || variance.Invariant? ==> IsSubtype(a.arg, b.arg, ctx, depth + 1, sigma))
    && (variance.Contravariant? || variance.Invariant? ==> IsSubtype(b.arg, a.arg, ctx, depth + 1, sigma))
  }

  /** What is asked under `v` includes what is asked under `w`. */
  predicate AsksMore(v: Variance, w: Variance) {
    v == w || v.Invariant? || w.Phantom?
  }

  lemma NominalVerdict(p: Ty, q: Ty, ctx: Ctx, depth: nat, sigma: Sigma)
    requires p.Nominal? && q.Nominal?
    ensures AtomSubtype(p, q, ctx, depth, sigma) == Verdict(depth < ctx.limit && p == q, sigma)
  {
  }

  /** Comparing spines adds no hypothesis. */
  lemma {:induction false} SpineSigma(p: Ty, q: Ty, ctx: Ctx, depth: nat, sigma: Sigma)
    requires Spine(p) && Spine(q)
    ensures AtomSubtype(p, q, ctx, depth, sigma).sigma == sigma
    decreases p
  {
    if p.App? && q.App? {
      SpineSigma(p.op, q.op, ctx, depth + 1, sigma);
    } else if p.Nominal? && q.App? && q.op.Nominal? {
      NominalVerdict(p, q.op, ctx, depth + 1, sigma);
    }
  }

  lemma SpineVerdict(p: Ty, q: Ty, ctx: Ctx, depth: nat, sigma: Sigma)
    requires Spine(p) && Spine(q) && p.App? && q.App?
    ensures AtomSubtype(p, q, ctx, depth, sigma).ok <==>
      && depth < ctx.limit && AtomSubtype(p.op, q.op, ctx, depth + 1, sigma).ok
      && ArgsBelow(p, q, NextVariance(p.op, ctx.env), ctx, depth, sigma)
  {
    SpineSigma(p.op, q.op, ctx, depth + 1, sigma);
    LooksUpDeclared(p.op, ctx.env);
    if depth < ctx.limit {
      assert AtomSubtype(p, q, ctx, depth, sigma) == AppSubtype(p, q, ctx, depth, sigma);
    }
  }

  lemma HeadBelowSpine(p: Ty, q: Ty, ctx: Ctx, depth: nat, sigma: Sigma)
    requires p.Nominal? && q.App?
    ensures AtomSubtype(p, q, ctx, depth, sigma).ok <==> depth + 1 < ctx.limit && q.op == p
  {
    if depth < ctx.limit && q.op.Nominal? {
      NominalVerdict(p, q.op, ctx, depth + 1, sigma);
    }
  }

  /** A spine is only below spines of the same head, with as many arguments or one more. */
  lemma {:induction false} SpineShape(p: Ty, q: Ty, ctx: Ctx, depth: nat, sigma: Sigma)
    requires Spine(p) && Spine(q) && AtomSubtype(p, q, ctx, depth, sigma).ok
    ensures Head(p) == Head(q) && Arity(p) <= Arity(q) <= Arity(p) + 1
    decreases p
  {
    if p.App? && q.App? {
      SpineVerdict(p, q, ctx, depth, sigma);
      SpineShape(p.op, q.op, ctx, depth + 1, sigma);
    } else if p.Nominal? && q.App? {
      HeadBelowSpine(p, q, ctx, depth, sigma);
    } else if p.Nominal? {
      NominalVerdict(p, q, ctx, depth, sigma);
    }
  }

  lemma ArgsThrough(a: Ty, b: Ty, c: Ty, v: Variance, w: Variance, ctx: Ctx, depth: nat, sigma: Sigma)
    requires a.App? && b.App? && c.App? && Rigid(a.arg) && Rigid(b.arg) && Rigid(c.arg) && 1 <= ctx.cap
    requires ArgsBelow(a, b, v, ctx, depth, sigma) && ArgsBelow(b, c, w, ctx, depth, sigma) && AsksMore(w, v)
    ensures ArgsBelow(a, c, v, ctx, depth, sigma)
  {
    if v.Covariant? || v.Invariant? {
      SubtypeTransitive(a.arg, b.arg, c.arg, ctx, depth + 1, sigma);
    }
    if v.Contravariant? || v.Invariant? {
      SubtypeTransitive(c.arg, b.arg, a.arg, ctx, depth + 1, sigma);
    }
  }

  /** The arguments of `a` meet those of `c` where the middle type, with one argument more, compares
      them under a variance that asks less. */
  predicate ExposedArgsMeet(a: Ty, b: Ty, c: Ty, ctx: Ctx, depth: nat, sigma: Sigma)
    decreases a
  {
    a.App? && b.App? && c.App? ==>
      && (AsksMore(NextVariance(b.op, ctx.env), NextVariance(a.op, ctx.env))
          || ArgsBelow(a, c, NextVariance(a.op, ctx.env), ctx, depth, sigma))
      && ExposedArgsMeet(a.op, b.op, c.op, ctx, depth + 1, sigma)
  }

  /** When `a <: b <: c` composes: at most one argument more at the end, and exposed arguments meet. */
  predicate Composes(a: Ty, b: Ty, c: Ty, ctx: Ctx, depth: nat, sigma: Sigma) {
    Arity(c) <= Arity(a) + 1 && (Arity(a) < Arity(b) ==> ExposedArgsMeet(a, b, c, ctx, depth, sigma))
  }

  lemma ComposesStep(a: Ty, b: Ty, c: Ty, ctx: Ctx, depth: nat, sigma: Sigma)
    requires a.App? && b.App? && c.App?
    ensures Composes(a, b, c, ctx, depth, sigma) <==>
      && Composes(a.op, b.op, c.op, ctx, depth + 1, sigma)
      && (Arity(a) < Arity(b) ==>
            || AsksMore(NextVariance(b.op, ctx.env), NextVariance(a.op, ctx.env))
            || ArgsBelow(a, c, NextVariance(a.op, ctx.env), ctx, depth, sigma))
  {
  }

  lemma HeadThrough(a: Ty, b: Ty, c: Ty, ctx: Ctx, depth: nat, sigma: Sigma)
    requires a.Nominal? && Spine(b) && Spine(c)
    requires AtomSubtype(a, b, ctx, depth, sigma).ok && AtomSubtype(b, c, ctx, depth, sigma).ok
    ensures AtomSubtype(a, c, ctx, depth, sigma).ok <==> Arity(c) <= 1
  {
    SpineShape(a, b, ctx, depth, sigma);
    SpineShape(b, c, ctx, depth, sigma);
    if b.Nominal? {
      NominalVerdict(a, b, ctx, depth, sigma);
    } else {
      HeadBelowSpine(a, b, ctx, depth, sigma);
    }
    if c.App? {
      HeadBelowSpine(a, c, ctx, depth, sigma);
    }
  }

  lemma {:induction false} SpineThrough(a: Ty, b: Ty, c: Ty, ctx: Ctx, depth: nat, sigma: Sigma)
    requires Spine(a) && Spine(b) && Spine(c) && 1 <= ctx.cap
    requires AtomSubtype(a, b, ctx, depth, sigma).ok && AtomSubtype(b, c, ctx, depth, sigma).ok
    ensures AtomSubtype(a, c, ctx, depth, sigma).ok <==> Composes(a, b, c, ctx, depth, sigma)
    decreases a
  {
    if a.Nominal? {
      HeadThrough(a, b, c, ctx, depth, sigma);
    } else {
      SpineShape(a, b, ctx, depth, sigma);
      SpineShape(b, c, ctx, depth, sigma);
      SpineVerdict(a, b, ctx, depth, sigma);
      SpineVerdict(b, c, ctx, depth, sigma);
      SpineVerdict(a, c, ctx, depth, sigma);
      SpineThrough(a.op, b.op, c.op, ctx, depth + 1, sigma);
      SpineArgsThrough(a, b, c, ctx, depth, sigma);
      ComposesStep(a, b, c, ctx, depth, sigma);
    }
  }

  lemma SpineArgsThrough(a: Ty, b: Ty, c: Ty, ctx: Ctx, depth: nat, sigma: Sigma)
    requires Spine(a) && Spine(b) && Spine(c) && a.App? && b.App? && c.App? && Head(a) == Head(b) && 1 <= ctx.cap
    requires ArgsBelow(a, b, NextVariance(a.op, ctx.env), ctx, depth, sigma)
    requires ArgsBelow(b, c, NextVariance(b.op, ctx.env), ctx, depth, sigma)
    ensures Arity(a) == Arity(b) || AsksMore(NextVariance(b.op, ctx.env), NextVariance(a.op, ctx.env)) ==>
      ArgsBelow(a, c, NextVariance(a.op, ctx.env), ctx, depth, sigma)
  {
    var v, w := NextVariance(a.op, ctx.env), NextVariance(b.op, ctx.env);
    if Arity(a) == Arity(b) {
      SameNext(a, b, ctx.env);
    }
    if AsksMore(w, v) {
      ArgsThrough(a, b, c, v, w, ctx, depth, sigma);
    }
  }

  lemma SameNext(a: Ty, b: Ty, env: TyConEnv)
    requires a.App? && b.App? && Head(a) == Head(b) && Arity(a) == Arity(b)
    ensures NextVariance(a.op, env) == NextVariance(b.op, env)
  {
  }

  // ---------- what is asked of the arguments, one by one ----------

  /** The `i`-th argument, innermost first. */
  function Arg(t: Ty, i: nat): Ty
    requires i < Arity(t)
  {
    if i + 1 == Arity(t) then t.arg else Arg(t.op, i)
  }

  /** The `i`-th arguments of two spines of one head, as declared for the parameter. */
  predicate ArgBelow(p: Ty, q: Ty, i: nat, ctx: Ctx, depth: nat, sigma: Sigma)
    requires i < Arity(p) == Arity(q)
  {
    var variance, d := ParamVariance(Head(p), i, ctx.env), depth + (Arity(p) - i);
    && (variance.Covariant? || variance.Invariant? ==> IsSubtype(Arg(p, i), Arg(q, i), ctx, d, sigma))
    && (variance.Contravariant? || variance.Invariant? ==> IsSubtype(Arg(q, i), Arg(p, i), ctx, d, sigma))
  }

  lemma LastArgBelow(p: Ty, q: Ty, ctx: Ctx, depth: nat, sigma: Sigma)
    requires p.App? && q.App? && Arity(p) == Arity(q)
    ensures ArgBelow(p, q, Arity(p) - 1, ctx, depth, sigma)
       <==> ArgsBelow(p, q, NextVariance(p.op, ctx.env), ctx, depth, sigma)
  {
  }

  lemma InnerArgBelow(p: Ty, q: Ty, i: nat, ctx: Ctx, depth: nat, sigma: Sigma)
    requires p.App? && q.App? && Arity(p) == Arity(q) && i < Arity(p.op)
    ensures ArgBelow(p, q, i, ctx, depth, sigma) <==> ArgBelow(p.op, q.op, i, ctx, depth + 1, sigma)
  {
    assert Arg(p, i) == Arg(p.op, i) && Arg(q, i) == Arg(q.op, i);
    assert depth + (Arity(p) - i) == depth + 1 + (Arity(p.op) - i);
  }

  predicate AllArgsBelow(p: Ty, q: Ty, ctx: Ctx, depth: nat, sigma: Sigma)
    requires Arity(p) == Arity(q)
  {
    forall i :: 0 <= i < Arity(p) ==> ArgBelow(p, q, i, ctx, depth, sigma)
  }

  lemma AllArgsStep(p: Ty, q: Ty, ctx: Ctx, depth: nat, sigma: Sigma)
    requires p.App? && q.App? && Arity(p) == Arity(q)
    ensures AllArgsBelow(p, q, ctx, depth, sigma) <==>
      && ArgsBelow(p, q, NextVariance(p.op, ctx.env), ctx, depth, sigma)
      && AllArgsBelow(p.op, q.op, ctx, depth + 1, sigma)
  {
    LastArgBelow(p, q, ctx, depth, sigma);
    if AllArgsBelow(p, q, ctx, depth, sigma) {
      assert ArgBelow(p, q, Arity(p) - 1, ctx, depth, sigma);
      var inner := depth + 1;
      forall i | 0 <= i < Arity(p.op) ensures ArgBelow(p.op, q.op, i, ctx, inner, sigma) {
        InnerArgBelow(p, q, i, ctx, depth, sigma);
        assert ArgBelow(p, q, i, ctx, depth, sigma);
      }
    }
    if AllArgsBelow(p.op, q.op, ctx, depth + 1, sigma) && ArgsBelow(p, q, NextVariance(p.op, ctx.env), ctx, depth, sigma) {
      forall i | 0 <= i < Arity(p) ensures ArgBelow(p, q, i, ctx, depth, sigma) {
        if i < Arity(p.op) { InnerArgBelow(p, q, i, ctx, depth, sigma); }
      }
    }
  }

  lemma {:induction false} SpineArgs(p: Ty, q: Ty, ctx: Ctx, depth: nat, sigma: Sigma)
    requires Spine(p) && Spine(q) && Arity(p) == Arity(q)
    ensures AtomSubtype(p, q, ctx, depth, sigma).ok <==>
      depth + Arity(p) < ctx.limit && Head(p) == Head(q) && AllArgsBelow(p, q, ctx, depth, sigma)
    decreases p
  {
    if p.App? {
      SpineVerdict(p, q, ctx, depth, sigma);
      SpineArgs(p.op, q.op, ctx, depth + 1, sigma);
      AllArgsStep(p, q, ctx, depth, sigma);
    } else {
      NominalVerdict(p, q, ctx, depth, sigma);
    }
  }

  /** Applications with as many arguments are accepted exactly when the heads agree and every argument
      is below, above or both, as the environment declares for its parameter. */
  lemma SpinesBelowIff(p: Ty, q: Ty, ctx: Ctx, depth: nat, sigma: Sigma)
    requires Spine(p) && Spine(q) && Arity(p) == Arity(q) && 1 <= ctx.cap
    ensures IsSubtype(p, q, ctx, depth, sigma) <==>
      depth + Arity(p) < ctx.limit && Head(p) == Head(q) && AllArgsBelow(p, q, ctx, depth, sigma)
  {
    AtomQuestion(p, q, ctx, depth, sigma);
    SpineArgs(p, q, ctx, depth, sigma);
  }

  /** An argument for an undeclared parameter has to be below and above. */
  lemma UndeclaredInvariant(p: Ty, q: Ty, i: nat, ctx: Ctx, depth: nat, sigma: Sigma)
    requires Spine(p) && Spine(q) && i < Arity(p) == Arity(q) && 1 <= ctx.cap
    requires Head(p).Nominal? && !(Head(p).id in ctx.env && i < |ctx.env[Head(p).id].variance|)
    requires IsSubtype(p, q, ctx, depth, sigma)
    ensures IsSubtype(Arg(p, i), Arg(q, i), ctx, depth + (Arity(p) - i), sigma)
    ensures IsSubtype(Arg(q, i), Arg(p, i), ctx, depth + (Arity(p) - i), sigma)
  {
    SpinesBelowIff(p, q, ctx, depth, sigma);
    assert ArgBelow(p, q, i, ctx, depth, sigma);
  }

  /** A nominal type is below its application to one argument, and declared disjoint from it: so the
      intersection of the two is accepted below Never. */
  lemma BelowAndDisjoint(n: nat, x: Ty, ctx: Ctx)
    requires 2 <= ctx.limit && 1 <= ctx.cap
    ensures IsSubtypeBas(Nominal(n), App(Nominal(n), x), ctx, false)
    ensures IsSubtypeBas(Inter([Nominal(n), App(Nominal(n), x)]), Never, ctx, false)
    ensures !IsSubtypeBas(Nominal(n), Never, ctx, false)
  {
    var p, q := Nominal(n), App(Nominal(n), x);
    AtomQuestion(p, q, ctx, 0, {});
    HeadBelowSpine(p, q, ctx, 0, {});
    SpinesDisjointIff(p, q);
    DisjointAtomsAccepted(p, q, ctx);
    AtomAboveNever(p, ctx, 0, {});
  }

  lemma LiteralVerdict(p: Ty, q: Ty, ctx: Ctx, depth: nat, sigma: Sigma)
    requires IsLiteral(p) && (IsLiteral(q) || Spine(q))
    ensures AtomSubtype(p, q, ctx, depth, sigma).ok <==> depth < ctx.limit && (p == q || q == LiteralType(p))
  {
  }

  /** Between literals, nominal types and their applications, transitivity holds exactly when the left
      type is not a literal below an application, the right one has at most one argument more than the
      left, and exposed arguments meet. */
  lemma AppTransitiveIff(a: Ty, b: Ty, c: Ty, ctx: Ctx, depth: nat, sigma: Sigma)
    requires (IsLiteral(a) || Spine(a)) && (IsLiteral(b) || Spine(b)) && (IsLiteral(c) || Spine(c)) && 1 <= ctx.cap
    requires IsSubtype(a, b, ctx, depth, sigma) && IsSubtype(b, c, ctx, depth, sigma)
    ensures IsSubtype(a, c, ctx, depth, sigma) <==>
      !(IsLiteral(a) && c.App?) && Composes(a, b, c, ctx, depth, sigma)
  {
    AtomQuestion(a, b, ctx, depth, sigma);
    AtomQuestion(b, c, ctx, depth, sigma);
    AtomQuestion(a, c, ctx, depth, sigma);
    if IsLiteral(a) {
      LiteralVerdict(a, b, ctx, depth, sigma);
      LiteralVerdict(a, c, ctx, depth, sigma);
      if b.Nominal? && c.Nominal? { NominalVerdict(b, c, ctx, depth, sigma); }
    } else {
      SpineAboveNoLiteral(a, b, ctx, depth, sigma);
      SpineAboveNoLiteral(b, c, ctx, depth, sigma);
      SpineThrough(a, b, c, ctx, depth, sigma);
    }
  }

  lemma SpineAboveNoLiteral(p: Ty, q: Ty, ctx: Ctx, depth: nat, sigma: Sigma)
    requires Spine(p) && AtomSubtype(p, q, ctx, depth, sigma).ok
    ensures !IsLiteral(q)
  {
  }

  /** An application is above its nominal head, but not above that type's literals:
      `n <: Int <: App(Int, x)`, but not `n <: App(Int, x)`. */
  lemma ApplicationBreaksTransitivity(n: int, x: Ty, ctx: Ctx, sigma: Sigma)
    requires 2 <= ctx.limit && 1 <= ctx.cap
    ensures var a, b, c := IntLit(n), Nominal(TYPE_ID_INT), App(Nominal(TYPE_ID_INT), x);
      && IsSubtype(a, b, ctx, 0, sigma) && IsSubtype(b, c, ctx, 0, sigma) && !IsSubtype(a, c, ctx, 0, sigma)
  {
    var a, b, c := IntLit(n), Nominal(TYPE_ID_INT), App(Nominal(TYPE_ID_INT), x);
    AtomQuestion(a, b, ctx, 0, sigma);
    AtomQuestion(b, c, ctx, 0, sigma);
    AtomQuestion(a, c, ctx, 0, sigma);
    HeadBelowSpine(b, c, ctx, 0, sigma);
    NominalVerdict(b, c.op, ctx, 1, sigma);
  }

  /** A second argument is one too many: `N <: N x <: N x x`, but not `N <: N x x`. */
  lemma CurryingBreaksTransitivity(n: nat, x: nat, ctx: Ctx, sigma: Sigma)
    requires 3 <= ctx.limit && 1 <= ctx.cap
    ensures var a := Nominal(n);
      var b := App(a, Nominal(x));
      var c := App(b, Nominal(x));
      && IsSubtype(a, b, ctx, 0, sigma) && IsSubtype(b, c, ctx, 0, sigma) && !IsSubtype(a, c, ctx, 0, sigma)
  {
    var a := Nominal(n);
    var b := App(a, Nominal(x));
    var c := App(b, Nominal(x));
    NominalQuestion(x, x, ctx, 1, sigma);
    HeadBelowSpine(a, b, ctx, 0, sigma);
    HeadBelowSpine(a, b, ctx, 1, sigma);
    HeadBelowSpine(a, c, ctx, 0, sigma);
    assert Spine(a) && Rigid(b.arg) && Spine(b);
    SpineVerdict(b, c, ctx, 0, sigma);
    AtomQuestion(a, b, ctx, 0, sigma);
    AtomQuestion(b, c, ctx, 0, sigma);
    AtomQuestion(a, c, ctx, 0, sigma);
  }

  /** An argument that is covariant in the left type and contravariant in the middle one:
      `N 1 <: N x Int <: N x 2`, but not `N 1 <: N x 2`. */
  lemma VarianceBreaksTransitivity(n: nat, x: nat, i: int, j: int, ctx: Ctx, sigma: Sigma)
    requires i != j && 3 <= ctx.limit && 1 <= ctx.cap
    requires n in ctx.env && ctx.env[n].variance == [Covariant, Contravariant]
    ensures var head := App(Nominal(n), Nominal(x));
      var a, b, c := App(Nominal(n), IntLit(i)), App(head, Nominal(TYPE_ID_INT)), App(head, IntLit(j));
      && IsSubtype(a, b, ctx, 0, sigma) && IsSubtype(b, c, ctx, 0, sigma) && !IsSubtype(a, c, ctx, 0, sigma)
  {
    var head := App(Nominal(n), Nominal(x));
    var a, b, c := App(Nominal(n), IntLit(i)), App(head, Nominal(TYPE_ID_INT)), App(head, IntLit(j));
    HeadsBelow(n, x, ctx, sigma);
    LiteralArgs(i, j, ctx, 1, sigma);
    SpineQuestion(a, b, ctx, 0, sigma);
    SpineQuestion(b, c, ctx, 0, sigma);
    SpineQuestion(a, c, ctx, 0, sigma);
  }

  lemma HeadsBelow(n: nat, x: nat, ctx: Ctx, sigma: Sigma)
    requires 3 <= ctx.limit && 1 <= ctx.cap && n in ctx.env && ctx.env[n].variance == [Covariant, Contravariant]
    ensures var p, head := Nominal(n), App(Nominal(n), Nominal(x));
      && Spine(head) && NextVariance(p, ctx.env) == Covariant && NextVariance(head, ctx.env) == Contravariant
      && AtomSubtype(p, head, ctx, 1, sigma).ok && AtomSubtype(head, head, ctx, 1, sigma).ok
  {
    var p, head := Nominal(n), App(Nominal(n), Nominal(x));
    assert Spine(p) && Rigid(head.arg);
    HeadBelowSpine(p, head, ctx, 1, sigma);
    NominalVerdict(p, p, ctx, 2, sigma);
    NominalQuestion(x, x, ctx, 2, sigma);
    SpineVerdict(head, head, ctx, 1, sigma);
  }

  lemma SpineQuestion(p: Ty, q: Ty, ctx: Ctx, depth: nat, sigma: Sigma)
    requires p.App? && q.App? && Spine(p.op) && Spine(q.op) && Rigid(p.arg) && Rigid(q.arg) && 1 <= ctx.cap
    ensures IsSubtype(p, q, ctx, depth, sigma) <==>
      && depth < ctx.limit && AtomSubtype(p.op, q.op, ctx, depth + 1, sigma).ok
      && ArgsBelow(p, q, NextVariance(p.op, ctx.env), ctx, depth, sigma)
  {
    AtomQuestion(p, q, ctx, depth, sigma);
    SpineVerdict(p, q, ctx, depth, sigma);
  }

  lemma LiteralArgs(i: int, j: int, ctx: Ctx, depth: nat, sigma: Sigma)
    requires i != j && depth < ctx.limit && 1 <= ctx.cap
    ensures IsSubtype(IntLit(i), Nominal(TYPE_ID_INT), ctx, depth, sigma)
    ensures IsSubtype(IntLit(j), Nominal(TYPE_ID_INT), ctx, depth, sigma)
    ensures !IsSubtype(IntLit(i), IntLit(j), ctx, depth, sigma)
  {
    AtomQuestion(IntLit(i), Nominal(TYPE_ID_INT), ctx, depth, sigma);
    AtomQuestion(IntLit(j), Nominal(TYPE_ID_INT), ctx, depth, sigma);
    AtomQuestion(IntLit(i), IntLit(j), ctx, depth, sigma);
  }

  // ---------- Boolean combinations: the exact condition ----------

  /** No comparison of two of the three exceeds the cap. */
  predicate DifferencesFit(a: Ty, b: Ty, c: Ty, cap: nat) {
    CapFree(Inter([a, Neg(b)]), cap) && CapFree(Inter([b, Neg(c)]), cap) && CapFree(Inter([a, Neg(c)]), cap)
  }

  /** Over nominal types and literals, transitivity holds exactly when every row of `A & ~C` with two
      literals not declared disjoint clashes on another account. */
  lemma BooleanTransitiveIff(a: Ty, b: Ty, c: Ty, ctx: Ctx)
    requires BooleanOverBasics(a) && BooleanOverBasics(b) && BooleanOverBasics(c) && 1 <= ctx.limit
    requires DifferencesFit(a, b, c, ctx.cap)
    requires IsSubtypeBas(a, b, ctx, false) && IsSubtypeBas(b, c, ctx, false)
    ensures IsSubtypeBas(a, c, ctx, false) <==> BlindRowsClash(a, c, ctx)
  {
    DecidesInclusionIff(a, b, ctx);
    DecidesInclusionIff(b, c, ctx);
    DecidesInclusionIff(a, c, ctx);
    assert Included(a, c);
  }

  lemma TwoAtomsQuiet(p: Ty, q: Ty, cap: nat)
    requires IsBasic(p) && IsBasic(q) && 1 <= cap
    ensures QuietRdnf(ToRdnf(Inter([p, q]), cap))
  {
    InterOfTwoAtoms(p, q, cap);
  }

  lemma InterPairSettled(p: Ty, q: Ty, r: Ty, t: Ty, ctx: Ctx)
    requires IsBasic(p) && IsBasic(q) && IsBasic(r) && IsBasic(t) && 2 <= ctx.cap
    ensures Settled(Inter([p, q]), Inter([r, t]), ctx)
  {
    InterOfTwoAtoms(p, q, ctx.cap);
    InterOfTwoAtoms(r, t, ctx.cap);
    TwoAtomsNegated(r, t, ctx.cap);
    DifferenceCapFree(Inter([p, q]), Inter([r, t]), ctx.cap);
    TwoAtomsQuiet(p, q, ctx.cap);
    TwoAtomsQuiet(r, t, ctx.cap);
  }

  lemma PairRefuted(p: Ty, q: Ty, r: Ty, t: Ty, n: Conjunction, ctx: Ctx)
    requires AtomSubtype(p, r, ctx, 0, {}).ok && AtomSubtype(q, t, ctx, 0, {}).ok
    requires Hitting(n, [[Pos(r), Pos(t)]])
    ensures Clashes([Pos(p), Pos(q)] + n, ctx, 0, {})
  {
    var row := [Pos(r), Pos(t)];
    assert row in [row];
    var s :| s in n && s.Negate() in row;
    assert s == NegAtom(r) || s == NegAtom(t);
    var c := [Pos(p), Pos(q)] + n;
    assert Pos(p) in c && Pos(q) in c && s in c;
  }

  lemma PairsRefuted(p: Ty, q: Ty, r: Ty, t: Ty, ctx: Ctx)
    requires AtomSubtype(p, r, ctx, 0, {}).ok && AtomSubtype(q, t, ctx, 0, {}).ok
    ensures Refuted([[Pos(p), Pos(q)]], [[Pos(r), Pos(t)]], ctx, 0, {})
  {
    forall n | Hitting(n, [[Pos(r), Pos(t)]]) ensures Clashes([Pos(p), Pos(q)] + n, ctx, 0, {}) {
      PairRefuted(p, q, r, t, n, ctx);
    }
  }

  /** Intersections compare member by member. */
  lemma InterPairBelow(p: Ty, q: Ty, r: Ty, t: Ty, ctx: Ctx)
    requires IsBasic(p) && IsBasic(q) && IsBasic(r) && IsBasic(t) && 2 <= ctx.cap
    requires AtomSubtype(p, r, ctx, 0, {}).ok && AtomSubtype(q, t, ctx, 0, {}).ok
    ensures IsSubtypeBas(Inter([p, q]), Inter([r, t]), ctx, false)
  {
    InterOfTwoAtoms(p, q, ctx.cap);
    InterOfTwoAtoms(r, t, ctx.cap);
    InterPairSettled(p, q, r, t, ctx);
    AcceptedIffRefuted(Inter([p, q]), Inter([r, t]), ctx, 0, {});
    PairsRefuted(p, q, r, t, ctx);
  }

  /** Two literals of different kinds are below the intersection of their types, and that is below
      Never, but they are not: `n & s <: Int & String <: Never`. */
  lemma LiteralsBreakTransitivity(p: Ty, q: Ty, ctx: Ctx)
    requires IsLiteral(p) && IsLiteral(q) && LiteralType(p) != LiteralType(q) && 1 <= ctx.limit && 2 <= ctx.cap
    ensures var a, b := Inter([p, q]), Inter([LiteralType(p), LiteralType(q)]);
      && IsSubtypeBas(a, b, ctx, false) && IsSubtypeBas(b, Never, ctx, false) && !IsSubtypeBas(a, Never, ctx, false)
  {
    InterPairBelow(p, q, LiteralType(p), LiteralType(q), ctx);
    DisjointAtomsAccepted(LiteralType(p), LiteralType(q), ctx);
    LiteralsIncomplete(p, q, ctx);
  }

  // ---------- inference variables ----------

  /** A variable is below and above every ordinary type: `i <: x <: j` for any two nominal types. */
  lemma VariableBreaksTransitivity(i: nat, j: nat, x: string, ctx: Ctx, depth: nat, sigma: Sigma)
    requires i != j && 1 <= ctx.cap
    ensures IsSubtype(Nominal(i), Var(x), ctx, depth, sigma) && IsSubtype(Var(x), Nominal(j), ctx, depth, sigma)
    ensures !IsSubtype(Nominal(i), Nominal(j), ctx, depth, sigma)
  {
    AtomQuestion(Nominal(i), Nominal(j), ctx, depth, sigma);
  }
}
