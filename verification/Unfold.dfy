/** De Bruijn unfolding of recursive types. */
module Unfold {
  import opened Types

  /** Replaces references to binder `target` by `replacement`.  A record's tail is copied
      as it is: its constructor tags are not type-value tags, so the source does not enter it. */
  function Subst(t: Ty, target: nat, replacement: Ty): Ty
    decreases t, 1
  {
    match t
    case RecursiveRef(index) => if index == target then replacement else t
    case Recursive(body) => Recursive(Subst(body, target + 1, replacement))
    case Union(members) => Union(SubstAll(members, target, replacement))
    case Inter(members) => Inter(SubstAll(members, target, replacement))
    case Neg(of) => Neg(Subst(of, target, replacement))
    case Fn(params, variadic, ret) =>
      Fn(SubstAll(params, target, replacement), variadic, Subst(ret, target, replacement))
    case Record(fields, tail) => Record(SubstFields(fields, target, replacement), tail)
    case App(op, arg) => App(Subst(op, target, replacement), Subst(arg, target, replacement))
    case _ => t
  }

  function SubstAll(ts: seq<Ty>, target: nat, replacement: Ty): (r: seq<Ty>)
    ensures |r| == |ts|
    ensures forall i :: 0 <= i < |ts| ==> r[i] == Subst(ts[i], target, replacement)
    decreases ts, 0
  {
    if ts == [] then []
    else [Subst(ts[0], target, replacement)] + SubstAll(ts[1..], target, replacement)
  }

  function SubstField(f: Field, target: nat, replacement: Ty): Field
    decreases f, 0
  {
    Field(f.key, Subst(f.ty, target, replacement))
  }

  function SubstFields(fields: seq<Field>, target: nat, replacement: Ty): (r: seq<Field>)
    ensures |r| == |fields|
    ensures forall i :: 0 <= i < |fields| ==> r[i] == SubstField(fields[i], target, replacement)
    decreases fields, 0
  {
    if fields == [] then []
    else [SubstField(fields[0], target, replacement)] + SubstFields(fields[1..], target, replacement)
  }

  function UnfoldTy(t: Ty): Ty {
    if t.Recursive? then Subst(t.body, 0, t) else t
  }
}
