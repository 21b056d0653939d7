/** Unfolding is de Bruijn substitution: it keeps types closed and keeps their expansion. */
module Expansion {
  import opened Types
  import opened Rdnf
  import opened Unfold
  import opened Emptiness
  import opened Reachability

  // ---------- scoping ----------

  /** Every reference in `t`, record tails included, is bound by one of `k` outer binders or
      by a binder inside `t`. */
  predicate Scoped(t: Ty, k: nat)
    decreases t
  {
    match t
    case RecursiveRef(index) => index < k
    case Recursive(body) => Scoped(body, k + 1)
    case Union(members) => forall m :: m in members ==> Scoped(m, k)
    case Inter(members) => forall m :: m in members ==> Scoped(m, k)
    case Neg(of) => Scoped(of, k)
    case Fn(params, _, ret) => Scoped(ret, k) && forall p :: p in params ==> Scoped(p, k)
    case Record(fields, tail) => ScopedTail(tail, k) && forall f :: f in fields ==> ScopedField(f, k)
    case App(op, arg) => Scoped(op, k) && Scoped(arg, k)
    case _ => true
  }

  predicate ScopedField(f: Field, k: nat) decreases f { Scoped(f.ty, k) }

  predicate ScopedTail(tail: Tail, k: nat) decreases tail { tail.Uniform? ==> Scoped(tail.valueType, k) }

  /** `t` refers to binder `k`, counted from outside `t`. */
  predicate RefersTo(t: Ty, k: nat)
    decreases t
  {
    match t
    case RecursiveRef(index) => index == k
    case Recursive(body) => RefersTo(body, k + 1)
    case Union(members) => exists m :: m in members && RefersTo(m, k)
    case Inter(members) => exists m :: m in members && RefersTo(m, k)
    case Neg(of) => RefersTo(of, k)
    case Fn(params, _, ret) => RefersTo(ret, k) || exists p :: p in params && RefersTo(p, k)
    case Record(fields, tail) => TailRefersTo(tail, k) || exists f :: f in fields && FieldRefersTo(f, k)
    case App(op, arg) => RefersTo(op, k) || RefersTo(arg, k)
    case _ => false
  }

  predicate FieldRefersTo(f: Field, k: nat) decreases f { RefersTo(f.ty, k) }

  predicate TailRefersTo(tail: Tail, k: nat) decreases tail { tail.Uniform? && RefersTo(tail.valueType, k) }

  /** Some uniform record tail inside `t` refers to binder `k`. */
  predicate TailHolds(t: Ty, k: nat)
    decreases t
  {
    match t
    case Recursive(body) => TailHolds(body, k + 1)
    case Union(members) => exists m :: m in members && TailHolds(m, k)
    case Inter(members) => exists m :: m in members && TailHolds(m, k)
    case Neg(of) => TailHolds(of, k)
    case Fn(params, _, ret) => TailHolds(ret, k) || exists p :: p in params && TailHolds(p, k)
    case Record(fields, tail) => TailRefersTo(tail, k) || exists f :: f in fields && FieldTailHolds(f, k)
    case App(op, arg) => TailHolds(op, k) || TailHolds(arg, k)
    case _ => false
  }

  predicate FieldTailHolds(f: Field, k: nat) decreases f { TailHolds(f.ty, k) }

  lemma {:induction false} ScopedWeaken(t: Ty, j: nat, k: nat)
    requires Scoped(t, j) && j <= k
    ensures Scoped(t, k)
    decreases t
  {
    match t
    case Recursive(body) => ScopedWeaken(body, j + 1, k + 1);
    case Union(members) => forall m | m in members ensures Scoped(m, k) { ScopedWeaken(m, j, k); }
    case Inter(members) => forall m | m in members ensures Scoped(m, k) { ScopedWeaken(m, j, k); }
    case Neg(of) => ScopedWeaken(of, j, k);
    case Fn(params, _, ret) =>
      ScopedWeaken(ret, j, k);
      forall p | p in params ensures Scoped(p, k) { ScopedWeaken(p, j, k); }
    case Record(fields, tail) =>
      if tail.Uniform? { ScopedWeaken(tail.valueType, j, k); }
      forall f | f in fields ensures ScopedField(f, k) {
        assert ScopedField(f, j) && f.ty < f;
        ScopedWeaken(f.ty, j, k);
      }
    case App(op, arg) =>
      ScopedWeaken(op, j, k);
      ScopedWeaken(arg, j, k);
    case _ =>
  }

  /** Dropping the outermost binder is safe exactly when it is not referred to. */
  lemma {:induction false} ScopedDrop(t: Ty, k: nat)
    requires Scoped(t, k + 1)
    ensures Scoped(t, k) <==> !RefersTo(t, k)
    decreases t
  {
    match t
    case Recursive(body) => ScopedDrop(body, k + 1);
    case Union(members) =>
      forall m | m in members ensures Scoped(m, k) <==> !RefersTo(m, k) { ScopedDrop(m, k); }
    case Inter(members) =>
      forall m | m in members ensures Scoped(m, k) <==> !RefersTo(m, k) { ScopedDrop(m, k); }
    case Neg(of) => ScopedDrop(of, k);
    case Fn(params, _, ret) =>
      ScopedDrop(ret, k);
      forall m | m in params ensures Scoped(m, k) <==> !RefersTo(m, k) { ScopedDrop(m, k); }
    case Record(fields, tail) =>
      if tail.Uniform? {
        assert ScopedTail(tail, k + 1);
        ScopedDrop(tail.valueType, k);
      }
      forall f | f in fields ensures ScopedField(f, k) <==> !FieldRefersTo(f, k) {
        assert ScopedField(f, k + 1) && f.ty < f;
        ScopedDrop(f.ty, k);
      }
    case App(op, arg) =>
      ScopedDrop(op, k);
      ScopedDrop(arg, k);
    case _ =>
  }

  /** Substitution removes binder `k` exactly when no uniform tail refers to it. */
  lemma {:induction false} SubstScoped(t: Ty, k: nat, r: Ty)
    requires Scoped(t, k + 1) && Scoped(r, 0)
    ensures Scoped(Subst(t, k, r), k) <==> !TailHolds(t, k)
    decreases t, 1
  {
    match t
    case RecursiveRef(_) => ScopedWeaken(r, 0, k);
    case Recursive(body) => SubstScoped(body, k + 1, r);
    case Union(members) => SubstMembersScoped(members, k, r);
    case Inter(members) => SubstMembersScoped(members, k, r);
    case Neg(of) => SubstScoped(of, k, r);
    case Fn(params, variadic, ret) => SubstFnScoped(params, variadic, ret, k, r);
    case Record(fields, tail) => SubstRecordScoped(fields, tail, k, r);
    case App(op, arg) =>
      SubstScoped(op, k, r);
      SubstScoped(arg, k, r);
    case Top | Never | Unknown | Error | Var(_) | Nominal(_) | IntLit(_) | StrLit(_) | FloatLit(_) =>
      assert Subst(t, k, r) == t && Scoped(t, k) && !TailHolds(t, k);
  }

  lemma {:induction false} SubstMembersScoped(ms: seq<Ty>, k: nat, r: Ty)
    requires Scoped(r, 0) && AllScoped(ms, k + 1)
    ensures Scoped(Union(SubstAll(ms, k, r)), k) <==> !TailHolds(Union(ms), k)
    ensures Scoped(Inter(SubstAll(ms, k, r)), k) <==> !TailHolds(Inter(ms), k)
    decreases ms, 1
  {
    SubstAllScoped(ms, k, r);
    ScopedMembers(SubstAll(ms, k, r), k);
    TailHoldsMembers(ms, k);
  }

  predicate AllScoped(ms: seq<Ty>, k: nat) { forall m :: m in ms ==> Scoped(m, k) }

  predicate SomeTailHolds(ms: seq<Ty>, k: nat) { exists m :: m in ms && TailHolds(m, k) }

  lemma ScopedMembers(ms: seq<Ty>, k: nat)
    ensures Scoped(Union(ms), k) == AllScoped(ms, k) == Scoped(Inter(ms), k)
  {
  }

  lemma TailHoldsMembers(ms: seq<Ty>, k: nat)
    ensures TailHolds(Union(ms), k) == SomeTailHolds(ms, k) == TailHolds(Inter(ms), k)
  {
  }

  lemma {:induction false} SubstFnScoped(params: seq<Ty>, variadic: bool, ret: Ty, k: nat, r: Ty)
    requires Scoped(Fn(params, variadic, ret), k + 1) && Scoped(r, 0)
    ensures Scoped(Fn(SubstAll(params, k, r), variadic, Subst(ret, k, r)), k) <==> !TailHolds(Fn(params, variadic, ret), k)
    decreases Fn(params, variadic, ret), 0
  {
    SubstScoped(ret, k, r);
    SubstAllScoped(params, k, r);
  }

  lemma {:induction false} SubstRecordScoped(fields: seq<Field>, tail: Tail, k: nat, r: Ty)
    requires Scoped(Record(fields, tail), k + 1) && Scoped(r, 0)
    ensures Scoped(Record(SubstFields(fields, k, r), tail), k) <==> !TailHolds(Record(fields, tail), k)
    decreases Record(fields, tail), 0
  {
    if tail.Uniform? {
      assert ScopedTail(tail, k + 1);
      ScopedDrop(tail.valueType, k);
    }
    SubstFieldsScoped(fields, k, r);
    assert Scoped(Record(SubstFields(fields, k, r), tail), k)
      <==> ScopedTail(tail, k) && forall f :: f in SubstFields(fields, k, r) ==> ScopedField(f, k);
  }

  lemma {:induction false} SubstAllScoped(ts: seq<Ty>, k: nat, r: Ty)
    requires Scoped(r, 0) && AllScoped(ts, k + 1)
    ensures AllScoped(SubstAll(ts, k, r), k) <==> !SomeTailHolds(ts, k)
    decreases ts, 0
  {
    if ts != [] {
      assert ts[0] in ts;
      SubstScoped(ts[0], k, r);
      assert forall t :: t in ts[1..] ==> t in ts;
      SubstAllScoped(ts[1..], k, r);
      AllScopedCons(Subst(ts[0], k, r), SubstAll(ts[1..], k, r), k);
      SomeTailHoldsCons(ts, k);
    }
  }

  lemma AllScopedCons(t: Ty, ts: seq<Ty>, k: nat)
    ensures AllScoped([t] + ts, k) <==> Scoped(t, k) && AllScoped(ts, k)
  {
    assert forall u :: u in [t] + ts <==> u == t || u in ts;
  }

  lemma SomeTailHoldsCons(ts: seq<Ty>, k: nat)
    requires ts != []
    ensures SomeTailHolds(ts, k) <==> TailHolds(ts[0], k) || SomeTailHolds(ts[1..], k)
  {
    assert forall u :: u in ts <==> u == ts[0] || u in ts[1..];
  }

  lemma {:induction false} SubstFieldsScoped(fs: seq<Field>, k: nat, r: Ty)
    requires Scoped(r, 0) && forall f :: f in fs ==> ScopedField(f, k + 1)
    ensures (forall f :: f in SubstFields(fs, k, r) ==> ScopedField(f, k)) <==> !exists f :: f in fs && FieldTailHolds(f, k)
    decreases fs, 0
  {
    if fs != [] {
      assert fs[0] in fs && fs[0].ty < fs[0];
      SubstScoped(fs[0].ty, k, r);
      assert forall f :: f in fs[1..] ==> f in fs;
      SubstFieldsScoped(fs[1..], k, r);
      var d := SubstField(fs[0], k, r);
      assert ScopedField(d, k) <==> !FieldTailHolds(fs[0], k);
      assert fs == [fs[0]] + fs[1..];
      var rest := SubstFields(fs[1..], k, r);
      assert SubstFields(fs, k, r) == [d] + rest;
      assert (forall f :: f in [d] + rest ==> ScopedField(f, k))
        <==> ScopedField(d, k) && forall f :: f in rest ==> ScopedField(f, k);
    }
  }

  /** Unfolding a closed recursive type gives a closed type exactly when no uniform record tail
      in its body refers to the binder: tails are not entered, so such a reference is left dangling. */
  lemma UnfoldClosedIff(t: Ty)
    requires t.Recursive? && Scoped(t, 0)
    ensures Scoped(UnfoldTy(t), 0) <==> !TailHolds(t.body, 0)
  {
    SubstScoped(t.body, 0, t);
  }

  /** `mu X. { _: X }` is closed and its unfolding is not. */
  lemma UniformTailLeftDangling()
    ensures var t := Recursive(Record([], Uniform(RecursiveRef(0))));
      Scoped(t, 0) && UnfoldTy(t) == Record([], Uniform(RecursiveRef(0))) && !Scoped(UnfoldTy(t), 0)
  {
    var body := Record([], Uniform(RecursiveRef(0)));
    assert ScopedTail(body.tail, 1) && !ScopedTail(body.tail, 0);
    assert Scoped(body, 1);
    assert Subst(body, 0, Recursive(body)) == body;
  }

  /** The atoms of a closed type's normal form are closed and are not references. */
  lemma ClosedAtoms(t: Ty, cap: nat, c: Conjunction, s: Signed)
    requires Scoped(t, 0) && c in ToRdnf(t, cap) && s in c
    ensures Scoped(s.atom, 0) && !s.atom.RecursiveRef?
  {
    RdnfLeaves(t, cap, c, s);
    LeafScoped(s.atom, t);
  }

  lemma {:induction false} LeafScoped(a: Ty, t: Ty)
    requires Leaf(a, t) && Scoped(t, 0)
    ensures Scoped(a, 0)
  {
    match t
    case Union(members) =>
      var m :| m in members && Leaf(a, m);
      LeafScoped(a, m);
    case Inter(members) =>
      var m :| m in members && Leaf(a, m);
      LeafScoped(a, m);
    case Neg(of) => LeafScoped(a, of);
    case _ =>
  }

  // ---------- closed types stay closed over a whole run ----------

  /** Like `Scoped`, and every uniform tail is closed by itself. */
  predicate Tight(t: Ty, k: nat)
    decreases t
  {
    match t
    case RecursiveRef(index) => index < k
    case Recursive(body) => Tight(body, k + 1)
    case Union(members) => forall m :: m in members ==> Tight(m, k)
    case Inter(members) => forall m :: m in members ==> Tight(m, k)
    case Neg(of) => Tight(of, k)
    case Fn(params, _, ret) => Tight(ret, k) && forall p :: p in params ==> Tight(p, k)
    case Record(fields, tail) => TightTail(tail) && forall f :: f in fields ==> TightField(f, k)
    case App(op, arg) => Tight(op, k) && Tight(arg, k)
    case _ => true
  }

  predicate TightField(f: Field, k: nat) decreases f { Tight(f.ty, k) }

  predicate TightTail(tail: Tail) decreases tail { tail.Uniform? ==> Tight(tail.valueType, 0) }

  lemma {:induction false} TightScoped(t: Ty, k: nat)
    requires Tight(t, k)
    ensures Scoped(t, k)
    decreases t
  {
    match t
    case Recursive(body) => TightScoped(body, k + 1);
    case Union(members) => forall m | m in members ensures Scoped(m, k) { TightScoped(m, k); }
    case Inter(members) => forall m | m in members ensures Scoped(m, k) { TightScoped(m, k); }
    case Neg(of) => TightScoped(of, k);
    case Fn(params, _, ret) =>
      TightScoped(ret, k);
      forall p | p in params ensures Scoped(p, k) { TightScoped(p, k); }
    case Record(fields, tail) =>
      if tail.Uniform? {
        assert TightTail(tail);
        TightScoped(tail.valueType, 0);
        ScopedWeaken(tail.valueType, 0, k);
      }
      forall f | f in fields ensures ScopedField(f, k) {
        assert f.ty < f && TightField(f, k);
        TightScoped(f.ty, k);
      }
    case App(op, arg) =>
      TightScoped(op, k);
      TightScoped(arg, k);
    case _ =>
  }

  lemma {:induction false} TightWeaken(t: Ty, j: nat, k: nat)
    requires Tight(t, j) && j <= k
    ensures Tight(t, k)
    decreases t
  {
    match t
    case Recursive(body) => TightWeaken(body, j + 1, k + 1);
    case Union(members) => forall m | m in members ensures Tight(m, k) { TightWeaken(m, j, k); }
    case Inter(members) => forall m | m in members ensures Tight(m, k) { TightWeaken(m, j, k); }
    case Neg(of) => TightWeaken(of, j, k);
    case Fn(params, _, ret) =>
      TightWeaken(ret, j, k);
      forall p | p in params ensures Tight(p, k) { TightWeaken(p, j, k); }
    case Record(fields, tail) =>
      forall f | f in fields ensures TightField(f, k) {
        assert TightField(f, j) && f.ty < f;
        TightWeaken(f.ty, j, k);
      }
    case App(op, arg) =>
      TightWeaken(op, j, k);
      TightWeaken(arg, j, k);
    case _ =>
  }

  lemma {:induction false} SubstTight(t: Ty, k: nat, r: Ty)
    requires Tight(t, k + 1) && Tight(r, 0)
    ensures Tight(Subst(t, k, r), k)
    decreases t
  {
    match t
    case RecursiveRef(_) => TightWeaken(r, 0, k);
    case Recursive(body) => SubstTight(body, k + 1, r);
    case Union(members) => SubstAllTight(members, k, r);
    case Inter(members) => SubstAllTight(members, k, r);
    case Neg(of) => SubstTight(of, k, r);
    case Fn(params, _, ret) =>
      SubstTight(ret, k, r);
      SubstAllTight(params, k, r);
    case Record(fields, tail) =>
      forall f | f in SubstFields(fields, k, r) ensures TightField(f, k) {
        var i :| 0 <= i < |fields| && SubstFields(fields, k, r)[i] == f;
        assert fields[i] in fields && fields[i].ty < fields[i] && TightField(fields[i], k + 1);
        SubstTight(fields[i].ty, k, r);
      }
    case App(op, arg) =>
      SubstTight(op, k, r);
      SubstTight(arg, k, r);
    case _ =>
  }

  lemma {:induction false} SubstAllTight(ts: seq<Ty>, k: nat, r: Ty)
    requires Tight(r, 0) && forall t :: t in ts ==> Tight(t, k + 1)
    ensures forall t :: t in SubstAll(ts, k, r) ==> Tight(t, k)
    decreases ts
  {
    forall t | t in SubstAll(ts, k, r) ensures Tight(t, k) {
      var i :| 0 <= i < |ts| && SubstAll(ts, k, r)[i] == t;
      assert ts[i] in ts;
      SubstTight(ts[i], k, r);
    }
  }

  ghost function TightTypes(): iset<Ty> {
    iset t | Tight(t, 0)
  }

  /** Closed types whose uniform tails are closed are closed under members, operands, fields, tails,
      parameters, results, heads, arguments and unfolding. */
  lemma TightSteps()
    ensures ClosedUnderSteps(TightTypes())
  {
    forall t | t in TightTypes() ensures StepsStayIn(t, TightTypes()) {
      match t
      case Record(fields, tail) =>
        assert TightTail(tail);
        forall f | f in fields ensures f.ty in TightTypes() { assert TightField(f, 0); }
      case Recursive(body) => SubstTight(body, 0, t);
      case _ =>
    }
  }

  /** Everything a run from two such types meets is closed, and no reference. */
  lemma ClosedRun(a: Ty, b: Ty)
    requires Tight(a, 0) && Tight(b, 0)
    ensures forall t :: t in Reachable(a, b) ==> Scoped(t, 0) && !t.RecursiveRef?
  {
    TightSteps();
    ReachableLeast(a, b, TightTypes());
    forall t | t in Reachable(a, b) ensures Scoped(t, 0) && !t.RecursiveRef? {
      TightScoped(t, 0);
    }
  }

  // ---------- expansion ----------

  /** A type with its binders expanded; `Cut` marks where the allowance ran out. */
  datatype Tree =
    | Cut
    | Leaf0(t: Ty)
    | FnTree(params: seq<Tree>, variadic: bool, ret: Tree)
    | RecordTree(fields: seq<(Key, Tree)>, tail: TailTree)
    | AppTree(op: Tree, arg: Tree)
    | UnionTree(members: seq<Tree>)
    | InterTree(members: seq<Tree>)
    | NegTree(of: Tree)

  datatype TailTree = OtherTail(tail: Tail) | UniformTree(valueType: Tree)

  /** Expansion through at most `n` binder crossings.  `stack` holds the enclosing recursive
      types, innermost first; entry `i` was met under `stack[i + 1..]`. */
  function Expand(t: Ty, stack: seq<Ty>, n: nat): Tree
    decreases n, t, 1
  {
    match t
    case Recursive(body) => if n == 0 then Cut else Expand(body, [t] + stack, n - 1)
    case RecursiveRef(i) =>
      if n == 0 || i >= |stack| || !stack[i].Recursive? then Cut
      else Expand(stack[i].body, stack[i..], n - 1)
    case Union(members) => UnionTree(ExpandAll(members, stack, n))
    case Inter(members) => InterTree(ExpandAll(members, stack, n))
    case Neg(of) => NegTree(Expand(of, stack, n))
    case Fn(params, variadic, ret) => FnTree(ExpandAll(params, stack, n), variadic, Expand(ret, stack, n))
    case Record(fields, tail) => RecordTree(ExpandFields(fields, stack, n), ExpandTail(tail, stack, n))
    case App(op, arg) => AppTree(Expand(op, stack, n), Expand(arg, stack, n))
    case _ => Leaf0(t)
  }

  function ExpandAll(ts: seq<Ty>, stack: seq<Ty>, n: nat): seq<Tree>
    decreases n, ts, 0
  {
    if ts == [] then [] else [Expand(ts[0], stack, n)] + ExpandAll(ts[1..], stack, n)
  }

  function ExpandField(f: Field, stack: seq<Ty>, n: nat): (Key, Tree)
    decreases n, f, 0
  {
    (f.key, Expand(f.ty, stack, n))
  }

  function ExpandFields(fs: seq<Field>, stack: seq<Ty>, n: nat): seq<(Key, Tree)>
    decreases n, fs, 0
  {
    if fs == [] then [] else [ExpandField(fs[0], stack, n)] + ExpandFields(fs[1..], stack, n)
  }

  function ExpandTail(tail: Tail, stack: seq<Ty>, n: nat): TailTree
    decreases n, tail, 0
  {
    if tail.Uniform? then UniformTree(Expand(tail.valueType, stack, n)) else OtherTail(tail)
  }

  /** Each entry of the stack is a recursive type scoped by the entries after it. */
  predicate GoodStack(stack: seq<Ty>) {
    forall i :: 0 <= i < |stack| ==> stack[i].Recursive? && Scoped(stack[i], |stack| - 1 - i)
  }

  /** Entries beyond a type's scope do not matter. */
  lemma {:induction false} ExpandWeaken(t: Ty, stack: seq<Ty>, extra: seq<Ty>, n: nat)
    requires GoodStack(stack) && Scoped(t, |stack|)
    ensures Expand(t, stack + extra, n) == Expand(t, stack, n)
    decreases n, t, 1
  {
    match t
    case Recursive(body) =>
      if n > 0 {
        ExpandWeaken(body, [t] + stack, extra, n - 1);
        assert [t] + (stack + extra) == ([t] + stack) + extra;
      }
    case RecursiveRef(i) =>
      if n > 0 {
        assert GoodStack(stack[i..]);
        ExpandWeaken(stack[i].body, stack[i..], extra, n - 1);
        assert (stack + extra)[i..] == stack[i..] + extra;
      }
    case Union(members) => ExpandAllWeaken(members, stack, extra, n);
    case Inter(members) => ExpandAllWeaken(members, stack, extra, n);
    case Neg(of) => ExpandWeaken(of, stack, extra, n);
    case Fn(params, _, ret) =>
      ExpandAllWeaken(params, stack, extra, n);
      ExpandWeaken(ret, stack, extra, n);
    case Record(fields, tail) =>
      ExpandFieldsWeaken(fields, stack, extra, n);
      if tail.Uniform? { ExpandWeaken(tail.valueType, stack, extra, n); }
    case App(op, arg) =>
      ExpandWeaken(op, stack, extra, n);
      ExpandWeaken(arg, stack, extra, n);
    case _ =>
  }

  lemma {:induction false} ExpandAllWeaken(ts: seq<Ty>, stack: seq<Ty>, extra: seq<Ty>, n: nat)
    requires GoodStack(stack) && forall t :: t in ts ==> Scoped(t, |stack|)
    ensures ExpandAll(ts, stack + extra, n) == ExpandAll(ts, stack, n)
    decreases n, ts, 0
  {
    if ts != [] {
      assert ts[0] in ts;
      ExpandWeaken(ts[0], stack, extra, n);
      ExpandAllWeaken(ts[1..], stack, extra, n);
    }
  }

  lemma {:induction false} ExpandFieldsWeaken(fs: seq<Field>, stack: seq<Ty>, extra: seq<Ty>, n: nat)
    requires GoodStack(stack) && forall f :: f in fs ==> ScopedField(f, |stack|)
    ensures ExpandFields(fs, stack + extra, n) == ExpandFields(fs, stack, n)
    decreases n, fs, 0
  {
    if fs != [] {
      assert fs[0] in fs && fs[0].ty < fs[0];
      ExpandWeaken(fs[0].ty, stack, extra, n);
      ExpandFieldsWeaken(fs[1..], stack, extra, n);
    }
  }

  // ---------- substitution does what the binder would ----------

  /** `inner` is `outer` without its last entry `r`, with `r` substituted for it. */
  ghost predicate Substituted(inner: seq<Ty>, outer: seq<Ty>, r: Ty) {
    && |outer| == |inner| + 1 && outer[|inner|] == r
    && GoodStack(outer)
    && Linked(inner, outer, r)
  }

  /** One entry of the inner stack. */
  predicate Link(t': Ty, t: Ty, k: nat, r: Ty) {
    t' == Subst(t, k, r) && !TailHolds(t, k)
  }

  lemma {:induction false} UnreferredSubst(t: Ty, k: nat, r: Ty)
    requires !RefersTo(t, k)
    ensures Subst(t, k, r) == t && !TailHolds(t, k)
    decreases t
  {
    match t
    case Recursive(body) => UnreferredSubst(body, k + 1, r);
    case Union(members) => UnreferredSubstAll(members, k, r);
    case Inter(members) => UnreferredSubstAll(members, k, r);
    case Neg(of) => UnreferredSubst(of, k, r);
    case Fn(params, _, ret) =>
      UnreferredSubst(ret, k, r);
      UnreferredSubstAll(params, k, r);
    case Record(fields, _) =>
      forall i | 0 <= i < |fields|
        ensures SubstField(fields[i], k, r) == fields[i] && !FieldTailHolds(fields[i], k)
      {
        assert fields[i] in fields && fields[i].ty < fields[i] && !FieldRefersTo(fields[i], k);
        UnreferredSubst(fields[i].ty, k, r);
      }
      assert SubstFields(fields, k, r) == fields;
    case App(op, arg) =>
      UnreferredSubst(op, k, r);
      UnreferredSubst(arg, k, r);
    case _ =>
  }

  lemma {:induction false} UnreferredSubstAll(ts: seq<Ty>, k: nat, r: Ty)
    requires forall t :: t in ts ==> !RefersTo(t, k)
    ensures SubstAll(ts, k, r) == ts && forall t :: t in ts ==> !TailHolds(t, k)
    decreases ts
  {
    if ts != [] {
      assert ts[0] in ts;
      UnreferredSubst(ts[0], k, r);
      UnreferredSubstAll(ts[1..], k, r);
    }
  }

  ghost predicate Linked(inner: seq<Ty>, outer: seq<Ty>, r: Ty)
    requires |inner| <= |outer|
  {
    forall i :: 0 <= i < |inner| ==> Link(inner[i], outer[i], |inner| - 1 - i, r)
  }

  lemma LinkedExtend(u: Ty, t: Ty, inner: seq<Ty>, outer: seq<Ty>, r: Ty)
    requires |inner| <= |outer| && Linked(inner, outer, r) && Link(u, t, |inner|, r)
    ensures Linked([u] + inner, [t] + outer, r)
  {
    var inner', outer' := [u] + inner, [t] + outer;
    forall i | 0 <= i < |inner'| ensures Link(inner'[i], outer'[i], |inner'| - 1 - i, r) {
      if i > 0 { assert Link(inner[i - 1], outer[i - 1], |inner| - 1 - (i - 1), r); }
    }
  }

  lemma SubstitutedExtend(t: Ty, inner: seq<Ty>, outer: seq<Ty>, r: Ty)
    requires Substituted(inner, outer, r)
    requires t.Recursive? && Scoped(t, |inner| + 1) && !TailHolds(t, |inner|)
    ensures Substituted([Subst(t, |inner|, r)] + inner, [t] + outer, r)
  {
    LinkedExtend(Subst(t, |inner|, r), t, inner, outer, r);
    GoodStackExtend(t, outer);
  }

  lemma GoodStackExtend(t: Ty, outer: seq<Ty>)
    requires GoodStack(outer) && t.Recursive? && Scoped(t, |outer|)
    ensures GoodStack([t] + outer)
  {
    var outer' := [t] + outer;
    forall i | 0 <= i < |outer'| ensures outer'[i].Recursive? && Scoped(outer'[i], |outer'| - 1 - i) {
      if i > 0 { assert outer'[i] == outer[i - 1]; }
    }
  }

  lemma SubstitutedSuffix(i: nat, inner: seq<Ty>, outer: seq<Ty>, r: Ty)
    requires Substituted(inner, outer, r) && i <= |inner|
    ensures Substituted(inner[i..], outer[i..], r)
  {
    var inner', outer' := inner[i..], outer[i..];
    forall j | 0 <= j < |inner'| ensures Link(inner'[j], outer'[j], |inner'| - 1 - j, r) {
      assert outer'[j] == outer[i + j] && inner'[j] == inner[i + j];
    }
    forall j | 0 <= j < |outer'| ensures outer'[j].Recursive? && Scoped(outer'[j], |outer'| - 1 - j) {
      assert outer'[j] == outer[i + j];
    }
  }

  lemma {:induction false} ExpandSubst(t: Ty, inner: seq<Ty>, outer: seq<Ty>, r: Ty, n: nat)
    requires r.Recursive? && Scoped(r, 0) && Substituted(inner, outer, r)
    requires Scoped(t, |inner| + 1) && !TailHolds(t, |inner|)
    ensures Expand(Subst(t, |inner|, r), inner, n) == Expand(t, outer, n)
    decreases n, t, 1
  {
    match t
    case Recursive(body) => if n > 0 { ExpandBinderSubst(t, inner, outer, r, n); }
    case RecursiveRef(i) => if n > 0 { ExpandRefSubst(i, inner, outer, r, n); }
    case Union(members) => ExpandAllSubst(members, inner, outer, r, n);
    case Inter(members) => ExpandAllSubst(members, inner, outer, r, n);
    case Neg(of) => ExpandSubst(of, inner, outer, r, n);
    case Fn(_, _, _) => ExpandCompoundSubst(t, inner, outer, r, n);
    case Record(_, _) => ExpandCompoundSubst(t, inner, outer, r, n);
    case App(_, _) => ExpandCompoundSubst(t, inner, outer, r, n);
    case _ =>
  }

  lemma {:induction false} ExpandCompoundSubst(t: Ty, inner: seq<Ty>, outer: seq<Ty>, r: Ty, n: nat)
    requires r.Recursive? && Scoped(r, 0) && Substituted(inner, outer, r)
    requires Scoped(t, |inner| + 1) && !TailHolds(t, |inner|) && (t.Fn? || t.Record? || t.App?)
    ensures Expand(Subst(t, |inner|, r), inner, n) == Expand(t, outer, n)
    decreases n, t, 0
  {
    match t
    case Fn(params, _, ret) =>
      ExpandAllSubst(params, inner, outer, r, n);
      ExpandSubst(ret, inner, outer, r, n);
    case Record(fields, tail) =>
      ExpandFieldsSubst(fields, inner, outer, r, n);
      ExpandTailSubst(tail, inner, outer, r, n);
    case App(op, arg) =>
      ExpandSubst(op, inner, outer, r, n);
      ExpandSubst(arg, inner, outer, r, n);
  }

  lemma {:induction false} ExpandBinderSubst(t: Ty, inner: seq<Ty>, outer: seq<Ty>, r: Ty, n: nat)
    requires r.Recursive? && Scoped(r, 0) && Substituted(inner, outer, r)
    requires t.Recursive? && Scoped(t, |inner| + 1) && !TailHolds(t, |inner|) && n > 0
    ensures Expand(Subst(t, |inner|, r), inner, n) == Expand(t, outer, n)
    decreases n, t, 0
  {
    SubstitutedExtend(t, inner, outer, r);
    ExpandSubst(t.body, [Subst(t, |inner|, r)] + inner, [t] + outer, r, n - 1);
  }

  /** One entry of the two stacks, under its binder. */
  lemma LinkAt(i: nat, inner: seq<Ty>, outer: seq<Ty>, r: Ty)
    requires Substituted(inner, outer, r) && i < |inner|
    ensures inner[i].Recursive? && outer[i].Recursive?
    ensures inner[i].body == Subst(outer[i].body, |inner| - i, r)
    ensures Scoped(outer[i].body, |inner| - i + 1) && !TailHolds(outer[i].body, |inner| - i)
  {
    assert Link(inner[i], outer[i], |inner| - 1 - i, r);
  }

  lemma {:induction false} ExpandRefSubst(i: nat, inner: seq<Ty>, outer: seq<Ty>, r: Ty, n: nat)
    requires r.Recursive? && Scoped(r, 0) && Substituted(inner, outer, r) && i <= |inner| && n > 0
    ensures Expand(Subst(RecursiveRef(i), |inner|, r), inner, n) == Expand(RecursiveRef(i), outer, n)
    decreases n, RecursiveRef(i), 0
  {
    var k := |inner|;
    if i == k {
      assert outer[k..] == [r];
      ExpandWeaken(r.body, [r], inner, n - 1);
    } else {
      SubstitutedSuffix(i, inner, outer, r);
      LinkAt(i, inner, outer, r);
      ExpandSubst(outer[i].body, inner[i..], outer[i..], r, n - 1);
    }
  }

  lemma {:induction false} ExpandTailSubst(tail: Tail, inner: seq<Ty>, outer: seq<Ty>, r: Ty, n: nat)
    requires r.Recursive? && Scoped(r, 0) && Substituted(inner, outer, r)
    requires ScopedTail(tail, |inner| + 1) && !TailRefersTo(tail, |inner|)
    ensures ExpandTail(tail, inner, n) == ExpandTail(tail, outer, n)
    decreases n, tail, 0
  {
    if tail.Uniform? {
      UnreferredSubst(tail.valueType, |inner|, r);
      ExpandSubst(tail.valueType, inner, outer, r, n);
    }
  }

  lemma {:induction false} ExpandAllSubst(ts: seq<Ty>, inner: seq<Ty>, outer: seq<Ty>, r: Ty, n: nat)
    requires r.Recursive? && Scoped(r, 0) && Substituted(inner, outer, r)
    requires forall t :: t in ts ==> Scoped(t, |inner| + 1) && !TailHolds(t, |inner|)
    ensures ExpandAll(SubstAll(ts, |inner|, r), inner, n) == ExpandAll(ts, outer, n)
    decreases n, ts, 0
  {
    if ts != [] {
      assert ts[0] in ts;
      ExpandSubst(ts[0], inner, outer, r, n);
      assert forall t :: t in ts[1..] ==> t in ts;
      ExpandAllSubst(ts[1..], inner, outer, r, n);
      assert SubstAll(ts, |inner|, r)[1..] == SubstAll(ts[1..], |inner|, r);
    }
  }

  lemma {:induction false} ExpandFieldsSubst(fs: seq<Field>, inner: seq<Ty>, outer: seq<Ty>, r: Ty, n: nat)
    requires r.Recursive? && Scoped(r, 0) && Substituted(inner, outer, r)
    requires forall f :: f in fs ==> ScopedField(f, |inner| + 1) && !FieldTailHolds(f, |inner|)
    ensures ExpandFields(SubstFields(fs, |inner|, r), inner, n) == ExpandFields(fs, outer, n)
    decreases n, fs, 0
  {
    if fs != [] {
      assert fs[0] in fs && fs[0].ty < fs[0];
      ExpandSubst(fs[0].ty, inner, outer, r, n);
      assert forall f :: f in fs[1..] ==> f in fs;
      ExpandFieldsSubst(fs[1..], inner, outer, r, n);
      assert SubstFields(fs, |inner|, r)[1..] == SubstFields(fs[1..], |inner|, r);
    }
  }

  /** Unfolding crosses exactly one binder: it has the expansion of the type itself, at every depth. */
  lemma UnfoldKeepsExpansion(t: Ty, n: nat)
    requires t.Recursive? && Scoped(t, 0) && !TailHolds(t.body, 0)
    ensures Expand(UnfoldTy(t), [], n) == Expand(t, [], n + 1)
  {
    assert Substituted([], [t], t);
    assert [t] + [] == [t];
    ExpandSubst(t.body, [], [t], t, n);
  }
}
