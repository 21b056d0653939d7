/** The strict subtype relation `A <: B`, decided as emptiness of `A & ~B`.

    Every function here returns what the checker returns; where the checker can add to its
    hypothesis set, the function returns the set it leaves behind as well. */
module Subtype {
  import opened Wrappers
  import opened Types
  import opened Rdnf
  import opened Unfold

  /** Coinductive hypotheses: pairs of keys of recursive types under comparison. */
  type Sigma = set<(string, string)>

  datatype Verdict = Verdict(ok: bool, sigma: Sigma)

  // ---------- disjointness of positive atoms ----------

  predicate IsNominalStructural(t: Ty) {
    t.Record? || t.Fn? || t.App? || t.Recursive?
  }

  function AtomsDisjoint(a: Ty, b: Ty): bool {
    if a.Var? || b.Var? then false
    else if a.Nominal? && b.Nominal? then a.id != b.id
    else if a.IntLit? && b.IntLit? then a.n != b.n
    else if a.FloatLit? && b.FloatLit? then a.bits != b.bits
    else if a.StrLit? && b.Nominal? then b.id != TYPE_ID_STRING
    else if a.Nominal? && b.StrLit? then a.id != TYPE_ID_STRING
    else if a.IntLit? && b.Nominal? then b.id != TYPE_ID_INT
    else if a.Nominal? && b.IntLit? then a.id != TYPE_ID_INT
    else if a.FloatLit? && b.Nominal? then b.id != TYPE_ID_FLOAT
    else if a.Nominal? && b.FloatLit? then a.id != TYPE_ID_FLOAT
    else if a.Nominal? then IsNominalStructural(b)
    else if b.Nominal? then IsNominalStructural(a)
    else if (a.Record? && b.Fn?) || (a.Fn? && b.Record?) then true
    else if a.Recursive? || b.Recursive? then false
    else if a.App? && b.App? then AtomsDisjoint(a.op, b.op)
    else if (a.Fn? && b.App?) || (a.App? && b.Fn?) then true
    else false
  }

  function Positives(conj: Conjunction): seq<Ty> {
    if conj == [] then []
    else (if conj[0].Pos? then [conj[0].atom] else []) + Positives(conj[1..])
  }

  function Negatives(conj: Conjunction): seq<Ty> {
    if conj == [] then []
    else (if conj[0].NegAtom? then [conj[0].atom] else []) + Negatives(conj[1..])
  }

  predicate SomeDisjoint(atoms: seq<Ty>) {
    exists i, j :: 0 <= i < j < |atoms| && AtomsDisjoint(atoms[i], atoms[j])
  }

  // ---------- helpers of the atom rules ----------

  predicate SameCtor(a: Ty, b: Ty) {
    || (a.Top? && b.Top?) || (a.Never? && b.Never?) || (a.Unknown? && b.Unknown?)
    || (a.Error? && b.Error?) || (a.Var? && b.Var?) || (a.Nominal? && b.Nominal?)
    || (a.IntLit? && b.IntLit?) || (a.StrLit? && b.StrLit?) || (a.FloatLit? && b.FloatLit?)
    || (a.Fn? && b.Fn?) || (a.Record? && b.Record?) || (a.App? && b.App?)
    || (a.Union? && b.Union?) || (a.Inter? && b.Inter?) || (a.Neg? && b.Neg?)
    || (a.Recursive? && b.Recursive?) || (a.RecursiveRef? && b.RecursiveRef?)
  }

  predicate IsClosedTail(tail: Tail) { tail.Closed? || tail.Absent? }

  /** The root constructor of a curried application spine, and the index of the parameter
      the outermost application supplies. */
  function SpineRoot(op: Ty): Option<(nat, nat)> {
    match op
    case Nominal(id) => Some((id, 0))
    case App(inner, _) =>
      (match SpineRoot(inner)
       case Some((id, depth)) => Some((id, depth + 1))
       case None => None)
    case _ => None
  }

  function ArgVariance(op: Ty, env: TyConEnv): Variance {
    match SpineRoot(op)
    case Some((id, depth)) =>
      if id in env && depth < |env[id].variance| then env[id].variance[depth] else Invariant
    case None => Invariant
  }

  /** String keys the right-hand record declares; only these escape its uniform tail. */
  function StringKeys(fields: seq<Field>): set<string> {
    set f | f in fields && f.key.StrKey? :: f.key.name
  }

  function Fuel(ctx: Ctx, depth: nat): nat {
    if depth < ctx.limit then ctx.limit - depth else 0
  }

  // ---------- the mutually recursive checker ----------

  function IsSubtype(sub: Ty, sup: Ty, ctx: Ctx, depth: nat, sigma: Sigma): bool
    decreases Fuel(ctx, depth), 5, 0
  {
    if sub.Error? || sup.Error? then false
    else if sup.Top? then true
    else if sub.Never? then true
    else if sub.Unknown? || sup.Unknown? then false
    else if sub.Var? || sup.Var? then true
    else RdnfEmpty(ToRdnf(Inter([sub, Neg(sup)]), ctx.cap), ctx, depth, sigma)
  }

  /** Each conjunction starts from its own copy of the hypotheses. */
  function RdnfEmpty(rdnf: Rdnf, ctx: Ctx, depth: nat, sigma: Sigma): bool
    decreases Fuel(ctx, depth), 4, |rdnf|
  {
    rdnf == []
    || (ConjunctionEmpty(rdnf[0], ctx, depth, sigma).ok && RdnfEmpty(rdnf[1..], ctx, depth, sigma))
  }

  function ConjunctionEmpty(conj: Conjunction, ctx: Ctx, depth: nat, sigma: Sigma): Verdict
    decreases Fuel(ctx, depth), 3, 0
  {
    if conj == [] then Verdict(false, sigma)
    else if SomeDisjoint(Positives(conj)) then Verdict(true, sigma)
    else SomeSubsumed(Positives(conj), Negatives(conj), ctx, depth, sigma)
  }

  /** Tries positives in order, threading the hypotheses from one to the next. */
  function SomeSubsumed(pos: seq<Ty>, neg: seq<Ty>, ctx: Ctx, depth: nat, sigma: Sigma): Verdict
    decreases Fuel(ctx, depth), 2, |pos|
  {
    if pos == [] then Verdict(false, sigma)
    else
      var v := SubsumedBy(pos[0], neg, ctx, depth, sigma);
      if v.ok then v else SomeSubsumed(pos[1..], neg, ctx, depth, v.sigma)
  }

  /** Tries the negatives in order for one positive. */
  function SubsumedBy(pos: Ty, neg: seq<Ty>, ctx: Ctx, depth: nat, sigma: Sigma): Verdict
    decreases Fuel(ctx, depth), 1, |neg| + 1
  {
    if neg == [] then Verdict(false, sigma)
    else
      var v := AtomSubtype(pos, neg[0], ctx, depth, sigma);
      if v.ok then v else SubsumedBy(pos, neg[1..], ctx, depth, v.sigma)
  }

  function AtomSubtype(sub: Ty, sup: Ty, ctx: Ctx, depth: nat, sigma: Sigma): Verdict
    decreases Fuel(ctx, depth), 1, 0
  {
    if depth >= ctx.limit then Verdict(false, sigma)
    else if SameCtor(sub, sup) && !sub.Fn? && !sub.Record? && !sub.App? && !sub.Recursive? then
      StructurallyEqual(sub, sup, ctx, depth, sigma)
    else if sub.Var? || sup.Var? then Verdict(true, sigma)
    else if sub.IntLit? && sup.Nominal? then Verdict(sup.id == TYPE_ID_INT, sigma)
    else if sub.StrLit? && sup.Nominal? then Verdict(sup.id == TYPE_ID_STRING, sigma)
    else if sub.FloatLit? && sup.Nominal? then Verdict(sup.id == TYPE_ID_FLOAT, sigma)
    else if sub.Fn? && sup.Fn? then Verdict(FnSubtype(sub, sup, ctx, depth, sigma), sigma)
    else if sub.Record? && sup.Record? then Verdict(RecordSubtype(sub, sup, ctx, depth, sigma), sigma)
    else if sub.App? && sup.App? then AppSubtype(sub, sup, ctx, depth, sigma)
    else if sub.Recursive? && sup.Recursive? then RecursiveSubtype(sub, sup, ctx, depth, sigma)
    else if sub.Recursive? then Verdict(IsSubtype(UnfoldTy(sub), sup, ctx, depth + 1, sigma), sigma)
    else if sup.Recursive? then Verdict(IsSubtype(sub, UnfoldTy(sup), ctx, depth + 1, sigma), sigma)
    else if sub.Nominal? && sup.App? then
      if sup.op.Nominal? then AtomSubtype(sub, sup.op, ctx, depth + 1, sigma)
      else Verdict(false, sigma)
    else Verdict(false, sigma)
  }

  /** Same-constructor comparison.  The last arm asks the atom question again one level
      deeper in both directions, so it only ends at the depth limit. */
  function StructurallyEqual(sub: Ty, sup: Ty, ctx: Ctx, depth: nat, sigma: Sigma): Verdict
    requires depth < ctx.limit && SameCtor(sub, sup)
    decreases Fuel(ctx, depth), 0, 0
  {
    match sub
    case Top | Never | Unknown | Error => Verdict(true, sigma)
    case Nominal(id) => Verdict(id == sup.id, sigma)
    case Var(name) => Verdict(sub == sup, sigma)
    case IntLit(n) => Verdict(n == sup.n, sigma)
    case FloatLit(bits) => Verdict(bits == sup.bits, sigma)
    case StrLit(s) => Verdict(s == sup.s, sigma)
    case _ =>
      var v := AtomSubtype(sub, sup, ctx, depth + 1, sigma);
      if v.ok then AtomSubtype(sup, sub, ctx, depth + 1, v.sigma) else v
  }

  function FnSubtype(sub: Ty, sup: Ty, ctx: Ctx, depth: nat, sigma: Sigma): bool
    requires depth < ctx.limit && sub.Fn? && sup.Fn?
    decreases Fuel(ctx, depth), 0, |sub.params| + 1
  {
    && IsSubtype(sub.ret, sup.ret, ctx, depth + 1, sigma)
    && |sub.params| <= |sup.params|
    && (sub.variadic || |sub.params| == |sup.params|)
    && ParamsSubtype(sub.params, sup.params, ctx, depth, sigma)
  }

  /** Contravariant: each declared parameter of `sup` against the one of `sub`. */
  function ParamsSubtype(sub: seq<Ty>, sup: seq<Ty>, ctx: Ctx, depth: nat, sigma: Sigma): bool
    requires depth < ctx.limit && |sub| <= |sup|
    decreases Fuel(ctx, depth), 0, |sub|
  {
    sub == []
    || (IsSubtype(sup[0], sub[0], ctx, depth + 1, sigma)
        && ParamsSubtype(sub[1..], sup[1..], ctx, depth, sigma))
  }

  function RecordSubtype(sub: Ty, sup: Ty, ctx: Ctx, depth: nat, sigma: Sigma): bool
    requires depth < ctx.limit && sub.Record? && sup.Record?
    decreases Fuel(ctx, depth), 0, |sub.fields| + |sup.fields| + 2
  {
    && FieldsSubtype(sub.fields, sup.fields, ctx, depth, sigma)
    && TailSubtype(sub, sup, ctx, depth, sigma)
  }

  /** Width and depth: every field of `sup` is present in `sub` at a subtype. */
  function FieldsSubtype(sub: seq<Field>, sup: seq<Field>, ctx: Ctx, depth: nat, sigma: Sigma): bool
    requires depth < ctx.limit
    decreases Fuel(ctx, depth), 0, |sup|
  {
    sup == []
    || (&& var entry := Lookup(sub, sup[0].key);
        && entry.Some?
        && IsSubtype(entry.value, sup[0].ty, ctx, depth + 1, sigma)
        && FieldsSubtype(sub, sup[1..], ctx, depth, sigma))
  }

  function TailSubtype(sub: Ty, sup: Ty, ctx: Ctx, depth: nat, sigma: Sigma): bool
    requires depth < ctx.limit && sub.Record? && sup.Record?
    decreases Fuel(ctx, depth), 0, |sub.fields| + |sup.fields| + 1
  {
    match sup.tail
    case Absent => true
    case RowVar(_) => true
    case Uniform(valueType) =>
      if sub.tail.Uniform? then IsSubtype(sub.tail.valueType, valueType, ctx, depth + 1, sigma)
      else IsClosedTail(sub.tail)
           && FieldsUniform(sub.fields, StringKeys(sup.fields), valueType, ctx, depth, sigma)
    case Closed => IsClosedTail(sub.tail)
  }

  /** Fields the right-hand record does not declare must meet its uniform value type.
      Integer keys are never treated as declared. */
  function FieldsUniform(fields: seq<Field>, declared: set<string>, valueType: Ty, ctx: Ctx,
                         depth: nat, sigma: Sigma): bool
    requires depth < ctx.limit
    decreases Fuel(ctx, depth), 0, |fields|
  {
    fields == []
    || (&& ((fields[0].key.StrKey? && fields[0].key.name in declared)
            || IsSubtype(fields[0].ty, valueType, ctx, depth + 1, sigma))
        && FieldsUniform(fields[1..], declared, valueType, ctx, depth, sigma))
  }

  function AppSubtype(sub: Ty, sup: Ty, ctx: Ctx, depth: nat, sigma: Sigma): Verdict
    requires depth < ctx.limit && sub.App? && sup.App?
    decreases Fuel(ctx, depth), 0, 0
  {
    var v := AtomSubtype(sub.op, sup.op, ctx, depth + 1, sigma);
    if !v.ok then v
    else
      var argOk := match ArgVariance(sub.op, ctx.env)
        case Covariant => IsSubtype(sub.arg, sup.arg, ctx, depth + 1, v.sigma)
        case Contravariant => IsSubtype(sup.arg, sub.arg, ctx, depth + 1, v.sigma)
        case Invariant => IsSubtype(sub.arg, sup.arg, ctx, depth + 1, v.sigma)
                          && IsSubtype(sup.arg, sub.arg, ctx, depth + 1, v.sigma)
        case Phantom => true;
      Verdict(argOk, v.sigma)
  }

  /** S-Assum on a hit, otherwise S-Exp: record the hypothesis, unfold both sides, go on.
      The hypothesis stays in the set whatever the answer is. */
  function RecursiveSubtype(sub: Ty, sup: Ty, ctx: Ctx, depth: nat, sigma: Sigma): Verdict
    requires depth < ctx.limit && sub.Recursive? && sup.Recursive?
    decreases Fuel(ctx, depth), 0, 0
  {
    var key := (ctx.key(sub), ctx.key(sup));
    if key in sigma then Verdict(true, sigma)
    else
      var sigma' := sigma + {key};
      Verdict(IsSubtype(UnfoldTy(sub), UnfoldTy(sup), ctx, depth + 1, sigma'), sigma')
  }

  /** The entry point.  `shared` is pointer identity of the two arguments, which only a caller
      passing one allocation twice can have: every inner call compares fresh copies. */
  function IsSubtypeBas(sub: Ty, sup: Ty, ctx: Ctx, shared: bool): bool
    requires shared ==> sub == sup
  {
    shared || IsSubtype(sub, sup, ctx, 0, {})
  }
}
