/** On types without gradual positions, consistent subtyping is no weaker than strict subtyping:
    its structural rules for unions and intersections are all derivable. */
module StrictGradual {
  import opened Wrappers
  import opened Types
  import opened Rdnf
  import opened RdnfMeaning
  import opened Subtype
  import opened Emptiness
  import opened Lattice
  import opened AtomQuestions
  import opened Reflexive
  import opened ConsistentSubtype
  import opened Text

  /** No `Unknown`, `Top`, `Error`, inference variable, application or recursion; functions are
      not variadic. */
  predicate Static(t: Ty)
    decreases t
  {
    match t
    case Never | Nominal(_) | IntLit(_) | StrLit(_) | FloatLit(_) => true
    case Union(ms) => forall m :: m in ms ==> Static(m)
    case Inter(ms) => forall m :: m in ms ==> Static(m)
    case Neg(of) => Static(of)
    case Fn(ps, variadic, ret) => !variadic && Static(ret) && forall p :: p in ps ==> Static(p)
    case Record(fs, tail) => StaticTail(tail) && forall f :: f in fs ==> StaticField(f)
    case _ => false
  }

  predicate StaticField(f: Field) decreases f { Static(f.ty) }

  predicate StaticTail(tail: Tail) decreases tail { tail.Uniform? ==> Static(tail.valueType) }

  /** An integer key of `a` whose decimal text `b` declares: the gradual check takes it for declared. */
  predicate Shadowed(a: Ty, b: Ty, i: nat)
    requires a.Record? && b.Record? && i < |a.fields|
  {
    a.fields[i].key.IntKey? && Decimal(a.fields[i].key.index) in StringKeys(b.fields)
  }

  /** A shadowed field meets the value type of the uniform tail all the same. */
  predicate KeysClear(a: Ty, b: Ty, ctx: Ctx, fuel: nat)
    requires a.Record? && b.Record?
  {
    b.tail.Uniform? && !a.tail.Uniform? ==>
      forall i :: 0 <= i < |a.fields| && Shadowed(a, b, i) ==> Consistent(a.fields[i].ty, b.tail.valueType, ctx, fuel)
  }

  /** Every pair of types that the comparison of `a` with `b` meets stays within the cap and, where `keys`
      asks for it, no field slips past a uniform tail by its integer key. */
  predicate Fitting(a: Ty, b: Ty, ctx: Ctx, fuel: nat, keys: bool)
    decreases SizeOf(a) + SizeOf(b), 1
  {
    && CapFree(Inter([a, Neg(b)]), ctx.cap)
    && if a.Union? then forall i :: 0 <= i < |a.members| ==> Fitting(a.members[i], b, ctx, fuel, keys)
       else if b.Union? then forall i :: 0 <= i < |b.members| ==> Fitting(a, b.members[i], ctx, fuel, keys)
       else if b.Inter? then forall i :: 0 <= i < |b.members| ==> Fitting(a, b.members[i], ctx, fuel, keys)
       else if a.Fn? && b.Fn? then FnFitting(a, b, ctx, fuel, keys)
       else if a.Inter? then forall i :: 0 <= i < |a.members| ==> Fitting(a.members[i], b, ctx, fuel, keys)
       else if a.Record? && b.Record? then RecordFitting(a, b, ctx, fuel, keys)
       else true
  }

  predicate FnFitting(a: Ty, b: Ty, ctx: Ctx, fuel: nat, keys: bool)
    requires a.Fn? && b.Fn?
    decreases SizeOf(a) + SizeOf(b), 0
  {
    && Fitting(a.ret, b.ret, ctx, fuel, keys)
    && forall i :: 0 <= i < |a.params| && i < |b.params| ==>
         (assert a.params[i] in a.params && b.params[i] in b.params;
          Fitting(b.params[i], a.params[i], ctx, fuel, keys))
  }

  predicate RecordFitting(a: Ty, b: Ty, ctx: Ctx, fuel: nat, keys: bool)
    requires a.Record? && b.Record?
    decreases SizeOf(a) + SizeOf(b), 0, 1
  {
    && (keys ==> KeysClear(a, b, ctx, fuel))
    && (forall j :: 0 <= j < |b.fields| ==> FieldFitting(a, b, j, ctx, fuel, keys))
    && (b.tail.Uniform? && a.tail.Uniform? ==>
          (TailMeasures(a); TailMeasures(b); Fitting(a.tail.valueType, b.tail.valueType, ctx, fuel, keys)))
    && (b.tail.Uniform? && !a.tail.Uniform? ==> forall i :: 0 <= i < |a.fields| ==> UniformFitting(a, b, i, ctx, fuel, keys))
  }

  predicate FieldFitting(a: Ty, b: Ty, j: nat, ctx: Ctx, fuel: nat, keys: bool)
    requires a.Record? && b.Record? && j < |b.fields|
    decreases SizeOf(a) + SizeOf(b), 0, 0
  {
    var entry := Lookup(a.fields, b.fields[j].key);
    entry.Some? ==>
      (LookupSize(a.fields, b.fields[j].key); FieldMeasures(b, j);
       Fitting(entry.value, b.fields[j].ty, ctx, fuel, keys))
  }

  /** Fields that `b` declares are not compared with its uniform tail. */
  predicate UniformFitting(a: Ty, b: Ty, i: nat, ctx: Ctx, fuel: nat, keys: bool)
    requires a.Record? && b.Record? && b.tail.Uniform? && i < |a.fields|
    decreases SizeOf(a) + SizeOf(b), 0, 0
  {
    || (a.fields[i].key.StrKey? && a.fields[i].key.name in StringKeys(b.fields))
    || (FieldMeasures(a, i); TailMeasures(b); Fitting(a.fields[i].ty, b.tail.valueType, ctx, fuel, keys))
  }

  lemma FieldMeasures(a: Ty, i: nat)
    requires a.Record? && i < |a.fields|
    ensures SizeOf(a.fields[i].ty) < SizeOf(a) && Height(a.fields[i].ty) < Height(a)
  {
    assert a.fields[i] in a.fields;
    assert SizeField(a.fields[i]) == SizeOf(a.fields[i].ty) && HeightField(a.fields[i]) == Height(a.fields[i].ty);
  }

  lemma TailMeasures(a: Ty)
    requires a.Record? && a.tail.Uniform?
    ensures SizeOf(a.tail.valueType) < SizeOf(a) && Height(a.tail.valueType) < Height(a)
  {
    assert SizeTail(a.tail) == SizeOf(a.tail.valueType) && HeightTail(a.tail) == Height(a.tail.valueType);
  }

  lemma {:induction false} StaticLeaf(a: Ty, t: Ty)
    requires Static(t) && Leaf(a, t)
    ensures Quiet(a)
  {
    match t
    case Union(ms) =>
      var m :| m in ms && Leaf(a, m);
      StaticLeaf(a, m);
    case Inter(ms) =>
      var m :| m in ms && Leaf(a, m);
      StaticLeaf(a, m);
    case Neg(of) => StaticLeaf(a, of);
    case _ =>
  }

  lemma StaticQuiet(t: Ty, cap: nat)
    requires Static(t)
    ensures QuietRdnf(ToRdnf(t, cap))
  {
    forall c, s | c in ToRdnf(t, cap) && s in c ensures Quiet(s.atom) {
      RdnfLeaves(t, cap, c, s);
      StaticLeaf(s.atom, t);
    }
  }

  lemma FitSettled(a: Ty, b: Ty, ctx: Ctx, fuel: nat, keys: bool)
    requires Static(a) && Static(b) && Fitting(a, b, ctx, fuel, keys)
    ensures Settled(a, b, ctx)
  {
    StaticQuiet(a, ctx.cap);
    StaticQuiet(b, ctx.cap);
  }

  /** Enough depth is left to look all the way into both types. */
  predicate Deep(a: Ty, b: Ty, ctx: Ctx, depth: nat) {
    depth + Height(a) <= ctx.limit && depth + Height(b) <= ctx.limit
  }

  lemma {:induction false} ConsistentImpliesStrict(a: Ty, b: Ty, ctx: Ctx, fuel: nat, depth: nat, sigma: Sigma)
    requires Static(a) && Static(b) && Fitting(a, b, ctx, fuel, true) && 1 <= ctx.cap && 1 <= ctx.limit
    requires ctx.env == map[] && Deep(a, b, ctx, depth) && Consistent(a, b, ctx, fuel)
    ensures IsSubtype(a, b, ctx, depth, sigma)
    decreases SizeOf(a) + SizeOf(b), 1
  {
    if a.Union? {
      LeftUnionStrict(a, b, ctx, fuel, depth, sigma);
    } else if b.Union? {
      RightUnionStrict(a, b, ctx, fuel, depth, sigma);
    } else if b.Inter? {
      RightInterStrict(a, b, ctx, fuel, depth, sigma);
    } else if a.Fn? && b.Fn? {
      FnStrict(a, b, ctx, fuel, depth, sigma);
    } else if a.Never? {
    } else if a.Inter? {
      LeftInterStrict(a, b, ctx, fuel, depth, sigma);
    } else if a.Record? && b.Record? {
      RecordStrict(a, b, ctx, fuel, depth, sigma);
    } else {
      LeafStrict(a, b, ctx, fuel, depth, sigma);
    }
  }

  lemma {:induction false} LeftUnionStrict(a: Ty, b: Ty, ctx: Ctx, fuel: nat, depth: nat, sigma: Sigma)
    requires Static(a) && Static(b) && Fitting(a, b, ctx, fuel, true) && 1 <= ctx.cap && 1 <= ctx.limit
    requires ctx.env == map[] && Deep(a, b, ctx, depth) && Consistent(a, b, ctx, fuel)
    requires a.Union?
    ensures IsSubtype(a, b, ctx, depth, sigma)
    decreases SizeOf(a) + SizeOf(b), 0, 3
  {
    FitSettled(a, b, ctx, fuel, true);
    forall m | m in a.members ensures Settled(m, b, ctx) && IsSubtype(m, b, ctx, depth, sigma) {
      var i :| 0 <= i < |a.members| && a.members[i] == m;
      FitSettled(m, b, ctx, fuel, true);
      ConsistentImpliesStrict(m, b, ctx, fuel, depth, sigma);
    }
    UnionBelow(a.members, b, ctx, depth, sigma);
  }

  lemma {:induction false} RightUnionStrict(a: Ty, b: Ty, ctx: Ctx, fuel: nat, depth: nat, sigma: Sigma)
    requires Static(a) && Static(b) && Fitting(a, b, ctx, fuel, true) && 1 <= ctx.cap && 1 <= ctx.limit
    requires ctx.env == map[] && Deep(a, b, ctx, depth) && Consistent(a, b, ctx, fuel)
    requires !a.Union? && b.Union?
    ensures IsSubtype(a, b, ctx, depth, sigma)
    decreases SizeOf(a) + SizeOf(b), 0, 3
  {
    FitSettled(a, b, ctx, fuel, true);
    var i :| 0 <= i < |b.members| && Consistent(a, b.members[i], ctx, fuel);
    assert b.members[i] in b.members;
    FitSettled(a, b.members[i], ctx, fuel, true);
    ConsistentImpliesStrict(a, b.members[i], ctx, fuel, depth, sigma);
    BelowUnion(a, b.members, b.members[i], ctx, depth, sigma);
  }

  lemma {:induction false} RightInterStrict(a: Ty, b: Ty, ctx: Ctx, fuel: nat, depth: nat, sigma: Sigma)
    requires Static(a) && Static(b) && Fitting(a, b, ctx, fuel, true) && 1 <= ctx.cap && 1 <= ctx.limit
    requires ctx.env == map[] && Deep(a, b, ctx, depth) && Consistent(a, b, ctx, fuel)
    requires !a.Union? && b.Inter?
    ensures IsSubtype(a, b, ctx, depth, sigma)
    decreases SizeOf(a) + SizeOf(b), 0, 3
  {
    FitSettled(a, b, ctx, fuel, true);
    forall m | m in b.members ensures Settled(a, m, ctx) && IsSubtype(a, m, ctx, depth, sigma) {
      var i :| 0 <= i < |b.members| && b.members[i] == m;
      FitSettled(a, m, ctx, fuel, true);
      ConsistentImpliesStrict(a, m, ctx, fuel, depth, sigma);
    }
    BelowInter(a, b.members, ctx, depth, sigma);
  }

  lemma {:induction false} LeftInterStrict(a: Ty, b: Ty, ctx: Ctx, fuel: nat, depth: nat, sigma: Sigma)
    requires Static(a) && Static(b) && Fitting(a, b, ctx, fuel, true) && 1 <= ctx.cap && 1 <= ctx.limit
    requires ctx.env == map[] && Deep(a, b, ctx, depth) && Consistent(a, b, ctx, fuel)
    requires a.Inter? && !b.Union? && !b.Inter?
    ensures IsSubtype(a, b, ctx, depth, sigma)
    decreases SizeOf(a) + SizeOf(b), 0, 3
  {
    FitSettled(a, b, ctx, fuel, true);
    var i :| 0 <= i < |a.members| && Consistent(a.members[i], b, ctx, fuel);
    assert a.members[i] in a.members;
    FitSettled(a.members[i], b, ctx, fuel, true);
    ConsistentImpliesStrict(a.members[i], b, ctx, fuel, depth, sigma);
    InterBelow(a.members, a.members[i], b, ctx, depth, sigma);
  }

  lemma LeafStrict(a: Ty, b: Ty, ctx: Ctx, fuel: nat, depth: nat, sigma: Sigma)
    requires Static(a) && Static(b) && 1 <= ctx.cap && 1 <= ctx.limit && ctx.env == map[]
    requires depth < ctx.limit && Consistent(a, b, ctx, fuel)
    requires !a.Union? && !b.Union? && !a.Inter? && !b.Inter? && !a.Never? && !(a.Fn? && b.Fn?) && !(a.Record? && b.Record?)
    ensures IsSubtype(a, b, ctx, depth, sigma)
  {
    AtomQuestion(a, b, ctx, depth, sigma);
    AtomQuestion(a, b, ctx, 0, {});
  }

  /** What the induction needs to know of a pair of parts. */
  predicate SmallerPair(x: Ty, y: Ty, a: Ty, b: Ty, ctx: Ctx, fuel: nat, depth: nat) {
    Static(x) && Static(y) && Fitting(x, y, ctx, fuel, true) && SizeOf(x) + SizeOf(y) < SizeOf(a) + SizeOf(b) && Deep(x, y, ctx, depth)
  }

  lemma FnParts(a: Ty, b: Ty, ctx: Ctx, fuel: nat, depth: nat)
    requires Static(a) && Static(b) && Fitting(a, b, ctx, fuel, true) && Deep(a, b, ctx, depth)
    requires a.Fn? && b.Fn? && FnConsistent(a, b, ctx, fuel)
    ensures depth < ctx.limit && |a.params| == |b.params|
    ensures SmallerPair(a.ret, b.ret, a, b, ctx, fuel, depth + 1) && Consistent(a.ret, b.ret, ctx, fuel)
  {
  }

  lemma ParamParts(a: Ty, b: Ty, i: nat, ctx: Ctx, fuel: nat, depth: nat)
    requires Static(a) && Static(b) && Fitting(a, b, ctx, fuel, true) && Deep(a, b, ctx, depth)
    requires a.Fn? && b.Fn? && FnConsistent(a, b, ctx, fuel) && i < |a.params| == |b.params|
    ensures SmallerPair(b.params[i], a.params[i], a, b, ctx, fuel, depth + 1)
    ensures Consistent(b.params[i], a.params[i], ctx, fuel)
  {
    assert a.params[i] in a.params && b.params[i] in b.params && ParamConsistent(a, b, i, ctx, fuel);
  }

  lemma FnAccepted(a: Ty, b: Ty, ctx: Ctx, depth: nat, sigma: Sigma)
    requires a.Fn? && b.Fn? && 1 <= ctx.cap && depth < ctx.limit && |a.params| == |b.params|
    requires IsSubtype(a.ret, b.ret, ctx, depth + 1, sigma)
    requires ParamsSubtype(a.params[0..], b.params[0..], ctx, depth, sigma)
    ensures IsSubtype(a, b, ctx, depth, sigma)
  {
    assert a.params[0..] == a.params && b.params[0..] == b.params;
    AtomQuestion(a, b, ctx, depth, sigma);
  }

  lemma {:induction false} FnStrict(a: Ty, b: Ty, ctx: Ctx, fuel: nat, depth: nat, sigma: Sigma)
    requires Static(a) && Static(b) && Fitting(a, b, ctx, fuel, true) && 1 <= ctx.cap && 1 <= ctx.limit
    requires ctx.env == map[] && Deep(a, b, ctx, depth) && a.Fn? && b.Fn? && FnConsistent(a, b, ctx, fuel)
    ensures IsSubtype(a, b, ctx, depth, sigma)
    decreases SizeOf(a) + SizeOf(b), 0, 1
  {
    FnParts(a, b, ctx, fuel, depth);
    RetStrict(a, b, ctx, fuel, depth, sigma);
    ParamsStrict(a, b, 0, ctx, fuel, depth, sigma);
    FnAccepted(a, b, ctx, depth, sigma);
  }

  lemma {:induction false} RetStrict(a: Ty, b: Ty, ctx: Ctx, fuel: nat, depth: nat, sigma: Sigma)
    requires Static(a) && Static(b) && Fitting(a, b, ctx, fuel, true) && 1 <= ctx.cap && 1 <= ctx.limit
    requires ctx.env == map[] && Deep(a, b, ctx, depth) && a.Fn? && b.Fn? && FnConsistent(a, b, ctx, fuel)
    ensures IsSubtype(a.ret, b.ret, ctx, depth + 1, sigma)
    decreases SizeOf(a) + SizeOf(b), 0, 0, 0
  {
    FnParts(a, b, ctx, fuel, depth);
    ConsistentImpliesStrict(a.ret, b.ret, ctx, fuel, depth + 1, sigma);
  }

  lemma {:induction false} ParamsStrict(a: Ty, b: Ty, i: nat, ctx: Ctx, fuel: nat, depth: nat, sigma: Sigma)
    requires Static(a) && Static(b) && Fitting(a, b, ctx, fuel, true) && 1 <= ctx.cap && 1 <= ctx.limit
    requires ctx.env == map[] && Deep(a, b, ctx, depth) && a.Fn? && b.Fn? && FnConsistent(a, b, ctx, fuel)
    requires depth < ctx.limit && |a.params| == |b.params| && i <= |a.params|
    ensures ParamsSubtype(a.params[i..], b.params[i..], ctx, depth, sigma)
    decreases SizeOf(a) + SizeOf(b), 0, 0, |a.params| - i
  {
    if i < |a.params| {
      ParamStrict(a, b, i, ctx, fuel, depth, sigma);
      ParamsStrict(a, b, i + 1, ctx, fuel, depth, sigma);
      ParamsSubtypeCons(a.params, b.params, i, ctx, depth, sigma);
    }
  }

  lemma {:induction false} ParamStrict(a: Ty, b: Ty, i: nat, ctx: Ctx, fuel: nat, depth: nat, sigma: Sigma)
    requires Static(a) && Static(b) && Fitting(a, b, ctx, fuel, true) && 1 <= ctx.cap && 1 <= ctx.limit
    requires ctx.env == map[] && Deep(a, b, ctx, depth) && a.Fn? && b.Fn? && FnConsistent(a, b, ctx, fuel)
    requires depth < ctx.limit && i < |a.params| == |b.params|
    ensures IsSubtype(b.params[i], a.params[i], ctx, depth + 1, sigma)
    decreases SizeOf(a) + SizeOf(b), 0, 0, 0
  {
    ParamParts(a, b, i, ctx, fuel, depth);
    ConsistentImpliesStrict(b.params[i], a.params[i], ctx, fuel, depth + 1, sigma);
  }

  lemma ParamsSubtypeCons(sub: seq<Ty>, sup: seq<Ty>, i: nat, ctx: Ctx, depth: nat, sigma: Sigma)
    requires depth < ctx.limit && i < |sub| <= |sup| && IsSubtype(sup[i], sub[i], ctx, depth + 1, sigma)
    requires ParamsSubtype(sub[i + 1..], sup[i + 1..], ctx, depth, sigma)
    ensures ParamsSubtype(sub[i..], sup[i..], ctx, depth, sigma)
  {
    assert sub[i..][1..] == sub[i + 1..] && sup[i..][1..] == sup[i + 1..];
  }

  lemma RecordAccepted(a: Ty, b: Ty, ctx: Ctx, depth: nat, sigma: Sigma)
    requires a.Record? && b.Record? && 1 <= ctx.cap && depth < ctx.limit
    requires FieldsSubtype(a.fields, b.fields, ctx, depth, sigma) && TailSubtype(a, b, ctx, depth, sigma)
    ensures IsSubtype(a, b, ctx, depth, sigma)
  {
    AtomQuestion(a, b, ctx, depth, sigma);
  }

  lemma {:induction false} RecordStrict(a: Ty, b: Ty, ctx: Ctx, fuel: nat, depth: nat, sigma: Sigma)
    requires Static(a) && Static(b) && Fitting(a, b, ctx, fuel, true) && 1 <= ctx.cap && 1 <= ctx.limit
    requires ctx.env == map[] && Deep(a, b, ctx, depth) && a.Record? && b.Record? && RecordConsistent(a, b, ctx, fuel)
    ensures IsSubtype(a, b, ctx, depth, sigma)
    decreases SizeOf(a) + SizeOf(b), 0, 2
  {
    assert TailConsistent(a, b, ctx, fuel);
    forall i | 0 <= i < |b.fields| ensures FieldAccepts(a.fields, b.fields[i], ctx, depth, sigma) {
      assert FieldConsistent(a, b, i, ctx, fuel);
      FieldStrict(a, b, i, ctx, fuel, depth, sigma);
    }
    FieldsEach(a.fields, b.fields, ctx, depth, sigma);
    TailStrict(a, b, ctx, fuel, depth, sigma);
    RecordAccepted(a, b, ctx, depth, sigma);
  }

  lemma {:induction false} FieldStrict(a: Ty, b: Ty, i: nat, ctx: Ctx, fuel: nat, depth: nat, sigma: Sigma)
    requires Static(a) && Static(b) && Fitting(a, b, ctx, fuel, true) && 1 <= ctx.cap && 1 <= ctx.limit
    requires ctx.env == map[] && Deep(a, b, ctx, depth) && a.Record? && b.Record?
    requires i < |b.fields| && FieldConsistent(a, b, i, ctx, fuel)
    ensures FieldAccepts(a.fields, b.fields[i], ctx, depth, sigma)
    decreases SizeOf(a) + SizeOf(b), 0, 0, 0
  {
    var t := FieldParts(a, b, i, ctx, fuel, depth);
    ConsistentImpliesStrict(t, b.fields[i].ty, ctx, fuel, depth + 1, sigma);
  }

  lemma FieldParts(a: Ty, b: Ty, i: nat, ctx: Ctx, fuel: nat, depth: nat) returns (t: Ty)
    requires Static(a) && Static(b) && Fitting(a, b, ctx, fuel, true) && Deep(a, b, ctx, depth)
    requires a.Record? && b.Record? && i < |b.fields| && FieldConsistent(a, b, i, ctx, fuel)
    ensures Lookup(a.fields, b.fields[i].key) == Some(t)
    ensures SmallerPair(t, b.fields[i].ty, a, b, ctx, fuel, depth + 1) && Consistent(t, b.fields[i].ty, ctx, fuel)
  {
    var g := b.fields[i];
    t := Lookup(a.fields, g.key).value;
    var j :| 0 <= j < |a.fields| && a.fields[j].key == g.key && a.fields[j].ty == t;
    assert StaticField(a.fields[j]) && StaticField(g) && FieldFitting(a, b, i, ctx, fuel, true);
    FieldMeasures(a, j);
    FieldMeasures(b, i);
  }

  lemma {:induction false} TailStrict(a: Ty, b: Ty, ctx: Ctx, fuel: nat, depth: nat, sigma: Sigma)
    requires Static(a) && Static(b) && Fitting(a, b, ctx, fuel, true) && 1 <= ctx.cap && 1 <= ctx.limit
    requires ctx.env == map[] && Deep(a, b, ctx, depth) && a.Record? && b.Record?
    requires depth < ctx.limit && TailConsistent(a, b, ctx, fuel)
    ensures TailSubtype(a, b, ctx, depth, sigma)
    decreases SizeOf(a) + SizeOf(b), 0, 1
  {
    if b.tail.Uniform? && a.tail.Uniform? {
      TailMeasures(b);
      TailMeasures(a);
      ConsistentImpliesStrict(a.tail.valueType, b.tail.valueType, ctx, fuel, depth + 1, sigma);
    } else if b.tail.Uniform? {
      assert a.fields == a.fields[0..];
      UniformStrict(a, b, 0, ctx, fuel, depth, sigma);
    }
  }

  lemma UniformPart(a: Ty, b: Ty, i: nat, ctx: Ctx, fuel: nat, depth: nat)
    requires Static(a) && Static(b) && Fitting(a, b, ctx, fuel, true) && Deep(a, b, ctx, depth)
    requires a.Record? && b.Record? && b.tail.Uniform? && !a.tail.Uniform?
    requires TailConsistent(a, b, ctx, fuel) && i < |a.fields|
    ensures || (a.fields[i].key.StrKey? && a.fields[i].key.name in StringKeys(b.fields))
            || (&& SmallerPair(a.fields[i].ty, b.tail.valueType, a, b, ctx, fuel, depth + 1)
                && Consistent(a.fields[i].ty, b.tail.valueType, ctx, fuel))
  {
    assert a.fields[i] in a.fields && StaticField(a.fields[i]);
    assert UniformFitting(a, b, i, ctx, fuel, true) && KeysClear(a, b, ctx, fuel);
    FieldMeasures(a, i);
    TailMeasures(b);
  }

  lemma FieldsUniformCons(fields: seq<Field>, i: nat, declared: set<string>, t: Ty, ctx: Ctx, depth: nat, sigma: Sigma)
    requires depth < ctx.limit && i < |fields|
    requires (fields[i].key.StrKey? && fields[i].key.name in declared) || IsSubtype(fields[i].ty, t, ctx, depth + 1, sigma)
    requires FieldsUniform(fields[i + 1..], declared, t, ctx, depth, sigma)
    ensures FieldsUniform(fields[i..], declared, t, ctx, depth, sigma)
  {
    assert fields[i..][1..] == fields[i + 1..];
  }

  lemma {:induction false} UniformStrict(a: Ty, b: Ty, i: nat, ctx: Ctx, fuel: nat, depth: nat, sigma: Sigma)
    requires Static(a) && Static(b) && Fitting(a, b, ctx, fuel, true) && 1 <= ctx.cap && 1 <= ctx.limit
    requires ctx.env == map[] && Deep(a, b, ctx, depth) && a.Record? && b.Record? && b.tail.Uniform? && !a.tail.Uniform?
    requires depth < ctx.limit && TailConsistent(a, b, ctx, fuel) && i <= |a.fields|
    ensures FieldsUniform(a.fields[i..], StringKeys(b.fields), b.tail.valueType, ctx, depth, sigma)
    decreases SizeOf(a) + SizeOf(b), 0, 0, |a.fields| - i
  {
    if i < |a.fields| {
      var f, t := a.fields[i], b.tail.valueType;
      UniformPart(a, b, i, ctx, fuel, depth);
      if !(f.key.StrKey? && f.key.name in StringKeys(b.fields)) {
        ConsistentImpliesStrict(f.ty, t, ctx, fuel, depth + 1, sigma);
      }
      UniformStrict(a, b, i + 1, ctx, fuel, depth, sigma);
      FieldsUniformCons(a.fields, i, StringKeys(b.fields), t, ctx, depth, sigma);
    }
  }

  // ---------- the theorem ----------

  lemma StrictRefinesGradual(a: Ty, b: Ty, ctx: Ctx, fuel: nat)
    requires Static(a) && Static(b) && Fitting(a, b, ctx, fuel, true) && 1 <= ctx.cap && 1 <= ctx.limit
    requires ctx.env == map[] && Height(a) <= ctx.limit && Height(b) <= ctx.limit
    requires Consistent(a, b, ctx, fuel)
    ensures IsSubtypeBas(a, b, ctx, false)
  {
    ConsistentImpliesStrict(a, b, ctx, fuel, 0, {});
  }

  // ---------- where the two checks of a tail differ ----------

  /** Both checks give the same answers for the types a uniform tail is compared with. */
  predicate PartsAgree(a: Ty, b: Ty, ctx: Ctx, fuel: nat, depth: nat, sigma: Sigma)
    requires a.Record? && b.Record? && b.tail.Uniform?
  {
    var t := b.tail.valueType;
    && (a.tail.Uniform? ==> Consistent(a.tail.valueType, t, ctx, fuel) == IsSubtype(a.tail.valueType, t, ctx, depth + 1, sigma))
    && forall i :: 0 <= i < |a.fields| ==>
         Consistent(a.fields[i].ty, t, ctx, fuel) == IsSubtype(a.fields[i].ty, t, ctx, depth + 1, sigma)
  }

  /** A field of `a` as the strict check of a uniform tail sees it. */
  predicate MeetsTail(a: Ty, b: Ty, i: nat, ctx: Ctx, depth: nat, sigma: Sigma)
    requires a.Record? && b.Record? && b.tail.Uniform? && i < |a.fields|
  {
    || (a.fields[i].key.StrKey? && a.fields[i].key.name in StringKeys(b.fields))
    || IsSubtype(a.fields[i].ty, b.tail.valueType, ctx, depth + 1, sigma)
  }

  /** When the parts agree, the strict check of a uniform tail never accepts more, and it accepts less
      exactly when a shadowed field misses the value type and every other field meets it. */
  lemma TailChecksDifferIff(a: Ty, b: Ty, ctx: Ctx, fuel: nat, depth: nat, sigma: Sigma)
    requires a.Record? && b.Record? && b.tail.Uniform? && depth < ctx.limit
    requires PartsAgree(a, b, ctx, fuel, depth, sigma)
    ensures TailSubtype(a, b, ctx, depth, sigma) ==> TailConsistent(a, b, ctx, fuel)
    ensures TailConsistent(a, b, ctx, fuel) && !TailSubtype(a, b, ctx, depth, sigma) <==>
      && IsClosedTail(a.tail)
      && (exists i :: 0 <= i < |a.fields| && Shadowed(a, b, i) && !MeetsTail(a, b, i, ctx, depth, sigma))
      && (forall i :: 0 <= i < |a.fields| && !MeetsTail(a, b, i, ctx, depth, sigma) ==> Shadowed(a, b, i))
  {
    UniformEach(a.fields, StringKeys(b.fields), b.tail.valueType, ctx, depth, sigma);
    var t, keys := b.tail.valueType, StringKeys(b.fields);
    forall i | 0 <= i < |a.fields|
      ensures KeyText(a.fields[i].key) in keys || Consistent(a.fields[i].ty, t, ctx, fuel)
         <==> MeetsTail(a, b, i, ctx, depth, sigma) || Shadowed(a, b, i)
    {
    }
    if FieldsUniform(a.fields, keys, t, ctx, depth, sigma) {
      forall i | 0 <= i < |a.fields| ensures MeetsTail(a, b, i, ctx, depth, sigma) {
        assert a.fields[i] == a.fields[i];
      }
    } else {
      var i :| 0 <= i < |a.fields| && !((a.fields[i].key.StrKey? && a.fields[i].key.name in keys)
                                        || IsSubtype(a.fields[i].ty, t, ctx, depth + 1, sigma));
      assert !MeetsTail(a, b, i, ctx, depth, sigma);
    }
  }

  lemma IntegerKeyConsistent(n: int, a: Ty, b: Ty, t: Ty, u: Ty, ctx: Ctx, fuel: nat)
    requires var named := Field(StrKey(Decimal(n)), t);
      a == Record([Field(IntKey(n), u), named], Closed) && b == Record([named], Uniform(t)) && t.Nominal?
    ensures RecordConsistent(a, b, ctx, fuel)
  {
    var named := Field(StrKey(Decimal(n)), t);
    assert a.fields[1..] == [named] && named in b.fields;
    assert Lookup(a.fields[1..], named.key) == Some(t);
    assert Lookup(a.fields, named.key) == Some(t);
    assert FieldConsistent(a, b, 0, ctx, fuel);
    assert Decimal(n) in StringKeys(b.fields);
    assert TailConsistent(a, b, ctx, fuel);
  }

  lemma IntegerKeyRejected(n: int, i: nat, j: nat, b: Ty, ctx: Ctx)
    requires i != j && 2 <= ctx.limit && 1 <= ctx.cap && b.Record? && b.tail == Uniform(Nominal(j))
    ensures var a := Record([Field(IntKey(n), Nominal(i)), Field(StrKey(Decimal(n)), Nominal(j))], Closed);
      !TailSubtype(a, b, ctx, 0, {})
  {
    AtomQuestion(Nominal(i), Nominal(j), ctx, 1, {});
  }

  /** Such a pair of records: consistent, and rejected by the strict check. */
  lemma IntegerKeyCounterexample(n: int, i: nat, j: nat, ctx: Ctx, fuel: nat)
    requires i != j && 2 <= ctx.limit && 1 <= ctx.cap
    ensures var named := Field(StrKey(Decimal(n)), Nominal(j));
      var a, b := Record([Field(IntKey(n), Nominal(i)), named], Closed), Record([named], Uniform(Nominal(j)));
      Consistent(a, b, ctx, fuel) && !IsSubtypeBas(a, b, ctx, false)
  {
    var named := Field(StrKey(Decimal(n)), Nominal(j));
    var a, b := Record([Field(IntKey(n), Nominal(i)), named], Closed), Record([named], Uniform(Nominal(j)));
    IntegerKeyConsistent(n, a, b, Nominal(j), Nominal(i), ctx, fuel);
    IntegerKeyRejected(n, i, j, b, ctx);
    AtomQuestion(a, b, ctx, 0, {});
  }
}
