/** Curried applications: the head, the arguments, and what the environment declares of them. */
module Spines {
  import opened Wrappers
  import opened Types
  import opened Subtype

  /** The number of arguments. */
  function Arity(t: Ty): nat {
    if t.App? then Arity(t.op) + 1 else 0
  }

  function Head(t: Ty): Ty {
    if t.App? then Head(t.op) else t
  }

  /** The variance declared for parameter `i` of `head`; what is not declared is invariant. */
  function ParamVariance(head: Ty, i: nat, env: TyConEnv): Variance {
    if head.Nominal? && head.id in env && i < |env[head.id].variance| then env[head.id].variance[i] else Invariant
  }

  /** That of the argument that comes after those of `op`. */
  function NextVariance(op: Ty, env: TyConEnv): Variance {
    ParamVariance(Head(op), Arity(op), env)
  }

  lemma {:induction false} SpineHead(t: Ty)
    ensures SpineRoot(t) == if Head(t).Nominal? then Some((Head(t).id, Arity(t))) else None
  {
    if t.App? { SpineHead(t.op); }
  }

  /** The checker looks up the declared variance. */
  lemma LooksUpDeclared(op: Ty, env: TyConEnv)
    ensures ArgVariance(op, env) == NextVariance(op, env)
  {
    SpineHead(op);
  }

  /** Types headed by nominal types are declared disjoint exactly when their heads differ, or the
      number of their arguments; the arguments themselves play no part. */
  lemma {:induction false} SpinesDisjointIff(p: Ty, q: Ty)
    requires Head(p).Nominal? && Head(q).Nominal?
    ensures AtomsDisjoint(p, q) <==> Head(p) != Head(q) || Arity(p) != Arity(q)
    decreases p
  {
    if p.App? && q.App? {
      SpinesDisjointIff(p.op, q.op);
    }
  }

  /** Functions, records and spines: a function is declared disjoint from everything else, and two spines
      are when their heads or the numbers of their arguments differ. */
  lemma StructuralDisjointIff(a: Ty, b: Ty)
    requires (a.Fn? || a.Record? || (a.App? && Head(a).Nominal?)) && (b.Fn? || b.Record? || (b.App? && Head(b).Nominal?))
    ensures AtomsDisjoint(a, b) <==>
      a.Fn? != b.Fn? || (a.App? && b.App? && (Head(a) != Head(b) || Arity(a) != Arity(b)))
  {
    if a.App? && b.App? { SpinesDisjointIff(a, b); }
  }
}
