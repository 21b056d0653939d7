/** Consistent subtyping `A ~<: B`, the gradual relation: `Unknown` is compatible with anything. */
module ConsistentSubtype {
  import opened Types
  import opened Unfold
  import opened Subtype
  import opened Text

  // ---------- size, for termination ----------

  function SizeOf(t: Ty): nat
    decreases t
  {
    match t
    case Union(members) => 1 + SizeAll(members)
    case Inter(members) => 1 + SizeAll(members)
    case Neg(of) => 1 + SizeOf(of)
    case Fn(params, _, ret) => 1 + SizeAll(params) + SizeOf(ret)
    case Record(fields, tail) => 1 + SizeFields(fields) + SizeTail(tail)
    case App(op, arg) => 1 + SizeOf(op) + SizeOf(arg)
    case Recursive(body) => 1 + SizeOf(body)
    case _ => 1
  }

  function SizeAll(ts: seq<Ty>): (n: nat)
    ensures forall t :: t in ts ==> SizeOf(t) <= n
    decreases ts
  {
    if ts == [] then 0 else SizeOf(ts[0]) + SizeAll(ts[1..])
  }

  function SizeField(f: Field): nat
    decreases f
  {
    SizeOf(f.ty)
  }

  function SizeFields(fs: seq<Field>): (n: nat)
    ensures forall f :: f in fs ==> SizeField(f) <= n
    decreases fs
  {
    if fs == [] then 0 else SizeField(fs[0]) + SizeFields(fs[1..])
  }

  function SizeTail(tail: Tail): nat
    decreases tail
  {
    if tail.Uniform? then SizeOf(tail.valueType) else 0
  }

  lemma LookupSize(fields: seq<Field>, key: Key)
    requires Lookup(fields, key).Some?
    ensures SizeOf(Lookup(fields, key).value) <= SizeFields(fields)
  {
    var i :| 0 <= i < |fields| && fields[i].key == key && fields[i].ty == Lookup(fields, key).value;
    assert fields[i] in fields && SizeField(fields[i]) == SizeOf(fields[i].ty);
  }

  // ---------- the relation ----------

  /** `fuel` bounds the number of times a recursive type is unfolded against a non-recursive one:
      the source has no bound there and may not return.  It is not used otherwise. */
  function Consistent(sub: Ty, sup: Ty, ctx: Ctx, fuel: nat): bool
    decreases fuel, SizeOf(sub) + SizeOf(sup), 1, 0
  {
    if sub.Unknown? || sub.Top? then true
    else if sup.Unknown? then true
    else if sup.Var? then true
    else if sub.Nominal? && sup.App? then Consistent(sub, sup.op, ctx, fuel)
    else if sub.App? && sup.App? then
      Consistent(sub.op, sup.op, ctx, fuel) && Consistent(sub.arg, sup.arg, ctx, fuel)
    else if sub.Error? || sup.Error? then false
    else if sub.Recursive? && sup.Recursive? then IsSubtypeBas(sub, sup, ctx, false)
    else if sub.Recursive? then fuel > 0 && Consistent(UnfoldTy(sub), sup, ctx, fuel - 1)
    else if sup.Recursive? then fuel > 0 && Consistent(sub, UnfoldTy(sup), ctx, fuel - 1)
    else if sub.Union? then forall i :: 0 <= i < |sub.members| ==> Consistent(sub.members[i], sup, ctx, fuel)
    else if sup.Union? then exists i :: 0 <= i < |sup.members| && Consistent(sub, sup.members[i], ctx, fuel)
    else if sup.Inter? then forall i :: 0 <= i < |sup.members| ==> Consistent(sub, sup.members[i], ctx, fuel)
    else if sub.Fn? && sup.Fn? then FnConsistent(sub, sup, ctx, fuel)
    else if sub.Never? then true
    else if sup.Top? then true
    else if sub.Inter? then exists i :: 0 <= i < |sub.members| && Consistent(sub.members[i], sup, ctx, fuel)
    else if sub.Record? && sup.Record? then RecordConsistent(sub, sup, ctx, fuel)
    else if sub.Nominal? && sup.Nominal? then NominalConsistent(sub, sup, ctx)
    else if SameLiteralKind(sub, sup) then IsSubtypeBas(sub, sup, ctx, false)
    else if IsLiteral(sub) && sup.Nominal? then IsSubtypeBas(sub, sup, ctx, false)
    else sub.Var?
  }

  predicate SameLiteralKind(a: Ty, b: Ty) {
    (a.IntLit? && b.IntLit?) || (a.StrLit? && b.StrLit?) || (a.FloatLit? && b.FloatLit?)
  }

  /** Same id, or a structural alias: the right one's body is tried first. */
  predicate NominalConsistent(sub: Ty, sup: Ty, ctx: Ctx)
    requires sub.Nominal? && sup.Nominal?
  {
    if sub.id == sup.id then true
    else if sup.id in ctx.env then
      ctx.env[sup.id].constructors == [] && IsSubtypeBas(sub, ctx.env[sup.id].body, ctx, false)
    else if sub.id in ctx.env then
      ctx.env[sub.id].constructors == [] && IsSubtypeBas(ctx.env[sub.id].body, sup, ctx, false)
    else false
  }

  /** A variadic function without declared parameters stands for any function. */
  function FnConsistent(sub: Ty, sup: Ty, ctx: Ctx, fuel: nat): bool
    requires sub.Fn? && sup.Fn?
    decreases fuel, SizeOf(sub) + SizeOf(sup), 0, 1
  {
    || (sup.variadic && sup.params == [])
    || (&& Consistent(sub.ret, sup.ret, ctx, fuel)
        && |sub.params| <= |sup.params|
        && (sub.variadic || |sub.params| == |sup.params|)
        && forall i :: 0 <= i < |sub.params| ==> ParamConsistent(sub, sup, i, ctx, fuel))
  }

  function ParamConsistent(sub: Ty, sup: Ty, i: nat, ctx: Ctx, fuel: nat): bool
    requires sub.Fn? && sup.Fn? && i < |sub.params| <= |sup.params|
    decreases fuel, SizeOf(sub) + SizeOf(sup), 0, 0
  {
    assert sub.params[i] in sub.params && sup.params[i] in sup.params;
    Consistent(sup.params[i], sub.params[i], ctx, fuel)
  }

  function RecordConsistent(sub: Ty, sup: Ty, ctx: Ctx, fuel: nat): bool
    requires sub.Record? && sup.Record?
    decreases fuel, SizeOf(sub) + SizeOf(sup), 0, 1
  {
    && (forall j :: 0 <= j < |sup.fields| ==> FieldConsistent(sub, sup, j, ctx, fuel))
    && TailConsistent(sub, sup, ctx, fuel)
  }

  function FieldConsistent(sub: Ty, sup: Ty, j: nat, ctx: Ctx, fuel: nat): bool
    requires sub.Record? && sup.Record? && j < |sup.fields|
    decreases fuel, SizeOf(sub) + SizeOf(sup), 0, 0
  {
    var entry := Lookup(sub.fields, sup.fields[j].key);
    assert sup.fields[j] in sup.fields && SizeField(sup.fields[j]) == SizeOf(sup.fields[j].ty);
    entry.Some? && (LookupSize(sub.fields, sup.fields[j].key);
                    Consistent(entry.value, sup.fields[j].ty, ctx, fuel))
  }

  function TailConsistent(sub: Ty, sup: Ty, ctx: Ctx, fuel: nat): bool
    requires sub.Record? && sup.Record?
    decreases fuel, SizeOf(sub) + SizeOf(sup), 0, 0
  {
    assert SizeTail(sub.tail) == (if sub.tail.Uniform? then SizeOf(sub.tail.valueType) else 0);
    assert SizeTail(sup.tail) == (if sup.tail.Uniform? then SizeOf(sup.tail.valueType) else 0);
    match sup.tail
    case Absent => true
    case RowVar(_) => true
    case Uniform(valueType) =>
      if sub.tail.Uniform? then Consistent(sub.tail.valueType, valueType, ctx, fuel)
      else IsClosedTail(sub.tail) && forall i :: 0 <= i < |sub.fields| ==>
        (assert sub.fields[i] in sub.fields && SizeField(sub.fields[i]) == SizeOf(sub.fields[i].ty);
         KeyText(sub.fields[i].key) in StringKeys(sup.fields)
         || Consistent(sub.fields[i].ty, valueType, ctx, fuel))
    case Closed => IsClosedTail(sub.tail)
  }

  /** Here, unlike in the strict check, an integer key counts as declared when its decimal text is. */
  function KeyText(key: Key): string {
    match key
    case StrKey(name) => name
    case IntKey(index) => Decimal(index)
  }
}
