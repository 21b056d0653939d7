/** A run from two closed types meets finitely many types: the written subterms, with each enclosing
    recursive type put in for the references to it. */
module FiniteRuns {
  import opened Types
  import opened Unfold
  import opened Reachability
  import opened Expansion

  // ---------- closing a subterm ----------

  /** Replaces reference `k + i` by `env[i]`.  Like substitution, it does not enter record tails. */
  function Close(t: Ty, k: nat, env: seq<Ty>): Ty
    decreases t, 1
  {
    match t
    case RecursiveRef(index) => if k <= index < k + |env| then env[index - k] else t
    case Recursive(body) => Recursive(Close(body, k + 1, env))
    case Union(members) => Union(CloseAll(members, k, env))
    case Inter(members) => Inter(CloseAll(members, k, env))
    case Neg(of) => Neg(Close(of, k, env))
    case Fn(params, variadic, ret) => Fn(CloseAll(params, k, env), variadic, Close(ret, k, env))
    case Record(fields, tail) => Record(CloseFields(fields, k, env), tail)
    case App(op, arg) => App(Close(op, k, env), Close(arg, k, env))
    case _ => t
  }

  function CloseAll(ts: seq<Ty>, k: nat, env: seq<Ty>): (r: seq<Ty>)
    ensures |r| == |ts| && forall i :: 0 <= i < |ts| ==> r[i] == Close(ts[i], k, env)
    decreases ts, 0
  {
    if ts == [] then [] else [Close(ts[0], k, env)] + CloseAll(ts[1..], k, env)
  }

  function CloseField(f: Field, k: nat, env: seq<Ty>): Field
    decreases f, 0
  {
    Field(f.key, Close(f.ty, k, env))
  }

  function CloseFields(fs: seq<Field>, k: nat, env: seq<Ty>): (r: seq<Field>)
    ensures |r| == |fs| && forall i :: 0 <= i < |fs| ==> r[i] == CloseField(fs[i], k, env)
    decreases fs, 0
  {
    if fs == [] then [] else [CloseField(fs[0], k, env)] + CloseFields(fs[1..], k, env)
  }

  lemma {:induction false} CloseNothing(t: Ty, k: nat)
    ensures Close(t, k, []) == t
    decreases t
  {
    match t
    case Recursive(body) => CloseNothing(body, k + 1);
    case Union(members) => CloseAllNothing(members, k);
    case Inter(members) => CloseAllNothing(members, k);
    case Neg(of) => CloseNothing(of, k);
    case Fn(params, _, ret) =>
      CloseAllNothing(params, k);
      CloseNothing(ret, k);
    case Record(fields, _) =>
      forall i | 0 <= i < |fields| ensures CloseFields(fields, k, [])[i] == fields[i] {
        assert fields[i] in fields && fields[i].ty < fields[i];
        CloseNothing(fields[i].ty, k);
      }
      assert CloseFields(fields, k, []) == fields;
    case App(op, arg) =>
      CloseNothing(op, k);
      CloseNothing(arg, k);
    case _ =>
  }

  lemma {:induction false} CloseAllNothing(ts: seq<Ty>, k: nat)
    ensures CloseAll(ts, k, []) == ts
    decreases ts
  {
    forall i | 0 <= i < |ts| ensures CloseAll(ts, k, [])[i] == ts[i] {
      assert ts[i] in ts;
      CloseNothing(ts[i], k);
    }
  }

  predicate ClosedEnv(env: seq<Ty>) { forall e :: e in env ==> Tight(e, 0) }

  lemma ClosedUnchanged(t: Ty, k: nat, r: Ty)
    requires Tight(t, 0)
    ensures Subst(t, k, r) == t
  {
    TightScoped(t, 0);
    ScopedWeaken(t, 0, k);
    ScopedWeaken(t, 0, k + 1);
    ScopedDrop(t, k);
    UnreferredSubst(t, k, r);
  }

  /** Unfolding a closed-up recursive type is closing its body with one more entry. */
  lemma {:induction false} SubstClose(t: Ty, k: nat, env: seq<Ty>, r: Ty)
    requires ClosedEnv(env)
    ensures Subst(Close(t, k + 1, env), k, r) == Close(t, k, [r] + env)
    decreases t, 1
  {
    if t.RecursiveRef? {
      if k + 1 <= t.index < k + 1 + |env| {
        assert env[t.index - k - 1] in env;
        ClosedUnchanged(env[t.index - k - 1], k, r);
      }
    } else if t.Recursive? {
      SubstClose(t.body, k + 1, env, r);
    } else {
      SubstCloseParts(t, k, env, r);
    }
  }

  lemma {:induction false} SubstCloseParts(t: Ty, k: nat, env: seq<Ty>, r: Ty)
    requires ClosedEnv(env) && !t.RecursiveRef? && !t.Recursive?
    ensures Subst(Close(t, k + 1, env), k, r) == Close(t, k, [r] + env)
    decreases t, 0, 1
  {
    if t.Union? || t.Inter? {
      SubstCloseAll(t.members, k, env, r);
    } else if t.Neg? {
      SubstClose(t.of, k, env, r);
    } else if t.Fn? || t.App? {
      SubstCloseCompound(t, k, env, r);
    } else if t.Record? {
      SubstCloseFields(t.fields, k, env, r);
    }
  }

  lemma {:induction false} SubstCloseCompound(t: Ty, k: nat, env: seq<Ty>, r: Ty)
    requires ClosedEnv(env) && (t.Fn? || t.App?)
    ensures Subst(Close(t, k + 1, env), k, r) == Close(t, k, [r] + env)
    decreases t, 0, 0
  {
    if t.Fn? {
      SubstCloseAll(t.params, k, env, r);
      SubstClose(t.ret, k, env, r);
    } else {
      SubstClose(t.op, k, env, r);
      SubstClose(t.arg, k, env, r);
    }
  }

  lemma {:induction false} SubstCloseAll(ts: seq<Ty>, k: nat, env: seq<Ty>, r: Ty)
    requires ClosedEnv(env)
    ensures SubstAll(CloseAll(ts, k + 1, env), k, r) == CloseAll(ts, k, [r] + env)
    decreases ts
  {
    forall i | 0 <= i < |ts| ensures SubstAll(CloseAll(ts, k + 1, env), k, r)[i] == CloseAll(ts, k, [r] + env)[i] {
      assert ts[i] in ts;
      SubstClose(ts[i], k, env, r);
    }
  }

  lemma {:induction false} SubstCloseFields(fs: seq<Field>, k: nat, env: seq<Ty>, r: Ty)
    requires ClosedEnv(env)
    ensures SubstFields(CloseFields(fs, k + 1, env), k, r) == CloseFields(fs, k, [r] + env)
    decreases fs
  {
    forall i | 0 <= i < |fs| ensures SubstFields(CloseFields(fs, k + 1, env), k, r)[i] == CloseFields(fs, k, [r] + env)[i] {
      assert fs[i] in fs && fs[i].ty < fs[i];
      SubstClose(fs[i].ty, k, env, r);
    }
  }

  lemma {:induction false} CloseTight(t: Ty, k: nat, env: seq<Ty>)
    requires Tight(t, k + |env|) && ClosedEnv(env)
    ensures Tight(Close(t, k, env), k)
    decreases t
  {
    match t
    case RecursiveRef(index) =>
      if k <= index {
        assert env[index - k] in env;
        TightWeaken(env[index - k], 0, k);
      }
    case Recursive(body) => CloseTight(body, k + 1, env);
    case Union(members) => CloseAllTight(members, k, env);
    case Inter(members) => CloseAllTight(members, k, env);
    case Neg(of) => CloseTight(of, k, env);
    case Fn(params, _, ret) =>
      CloseAllTight(params, k, env);
      CloseTight(ret, k, env);
    case Record(fields, tail) =>
      forall f | f in CloseFields(fields, k, env) ensures TightField(f, k) {
        var i :| 0 <= i < |fields| && CloseFields(fields, k, env)[i] == f;
        assert fields[i] in fields && fields[i].ty < fields[i] && TightField(fields[i], k + |env|);
        CloseTight(fields[i].ty, k, env);
      }
    case App(op, arg) =>
      CloseTight(op, k, env);
      CloseTight(arg, k, env);
    case _ =>
  }

  lemma {:induction false} CloseAllTight(ts: seq<Ty>, k: nat, env: seq<Ty>)
    requires ClosedEnv(env) && forall t :: t in ts ==> Tight(t, k + |env|)
    ensures forall t :: t in CloseAll(ts, k, env) ==> Tight(t, k)
    decreases ts
  {
    forall t | t in CloseAll(ts, k, env) ensures Tight(t, k) {
      var i :| 0 <= i < |ts| && CloseAll(ts, k, env)[i] == t;
      assert ts[i] in ts;
      CloseTight(ts[i], k, env);
    }
  }

  // ---------- the closed-up subterms ----------

  /** The subterms of `t`, which is met under the recursive types `env`, innermost first. */
  function Subterms(t: Ty, env: seq<Ty>): set<Ty>
    decreases t, 1
  {
    {Close(t, 0, env)} +
    match t
    case Recursive(body) => Subterms(body, [Close(t, 0, env)] + env)
    case Union(members) => SubtermsAll(members, env)
    case Inter(members) => SubtermsAll(members, env)
    case Neg(of) => Subterms(of, env)
    case Fn(params, _, ret) => SubtermsAll(params, env) + Subterms(ret, env)
    case Record(fields, tail) => SubtermsFields(fields, env) + SubtermsTail(tail)
    case App(op, arg) => Subterms(op, env) + Subterms(arg, env)
    case _ => {}
  }

  function SubtermsAll(ts: seq<Ty>, env: seq<Ty>): (r: set<Ty>)
    ensures forall t, u :: t in ts && u in Subterms(t, env) ==> u in r
    decreases ts, 0
  {
    if ts == [] then {} else Subterms(ts[0], env) + SubtermsAll(ts[1..], env)
  }

  function SubtermsField(f: Field, env: seq<Ty>): set<Ty>
    decreases f, 0
  {
    Subterms(f.ty, env)
  }

  function SubtermsFields(fs: seq<Field>, env: seq<Ty>): (r: set<Ty>)
    ensures forall f, u :: f in fs && u in SubtermsField(f, env) ==> u in r
    decreases fs, 0
  {
    if fs == [] then {} else SubtermsField(fs[0], env) + SubtermsFields(fs[1..], env)
  }

  function SubtermsTail(tail: Tail): set<Ty>
    decreases tail, 0
  {
    if tail.Uniform? then Subterms(tail.valueType, []) else {}
  }

  lemma {:induction false} MemberOf(ts: seq<Ty>, env: seq<Ty>, u: Ty) returns (t: Ty)
    requires u in SubtermsAll(ts, env)
    ensures t in ts && u in Subterms(t, env)
    decreases |ts|
  {
    if u in Subterms(ts[0], env) {
      t := ts[0];
    } else {
      t := MemberOf(ts[1..], env, u);
    }
  }

  lemma {:induction false} FieldOf(fs: seq<Field>, env: seq<Ty>, u: Ty) returns (f: Field)
    requires u in SubtermsFields(fs, env)
    ensures f in fs && u in SubtermsField(f, env)
    decreases |fs|
  {
    if u in SubtermsField(fs[0], env) {
      f := fs[0];
    } else {
      f := FieldOf(fs[1..], env, u);
    }
  }

  lemma Root(t: Ty, env: seq<Ty>)
    ensures Close(t, 0, env) in Subterms(t, env)
  {
  }

  // ---------- every step from a subterm leads to a subterm ----------

  ghost predicate Contains(dom: iset<Ty>, t: Ty, env: seq<Ty>) {
    forall u :: u in Subterms(t, env) ==> u in dom
  }

  lemma UnfoldClose(body: Ty, env: seq<Ty>)
    requires ClosedEnv(env)
    ensures var r := Close(Recursive(body), 0, env);
      UnfoldTy(r) == Close(body, 0, [r] + env)
  {
    SubstClose(body, 0, env, Close(Recursive(body), 0, env));
  }

  /** The steps from the closed-up `t` itself. */
  lemma RootSteps(t: Ty, env: seq<Ty>, dom: iset<Ty>)
    requires ClosedEnv(env) && Contains(dom, t, env) && !t.RecursiveRef?
    ensures StepsStayIn(Close(t, 0, env), dom)
  {
    match t
    case Recursive(body) =>
      UnfoldClose(body, env);
      Root(body, [Close(t, 0, env)] + env);
    case Union(members) => MemberRoots(members, env, dom);
    case Inter(members) => MemberRoots(members, env, dom);
    case Neg(of) => Root(of, env);
    case Fn(params, _, ret) =>
      MemberRoots(params, env, dom);
      Root(ret, env);
    case Record(fields, tail) =>
      FieldRoots(fields, env, dom);
      if tail.Uniform? {
        CloseNothing(tail.valueType, 0);
        Root(tail.valueType, []);
        assert tail.valueType in SubtermsTail(tail);
      }
    case App(op, arg) =>
      Root(op, env);
      Root(arg, env);
    case _ =>
  }

  lemma MemberRoots(ts: seq<Ty>, env: seq<Ty>, dom: iset<Ty>)
    requires forall u :: u in SubtermsAll(ts, env) ==> u in dom
    ensures forall m :: m in CloseAll(ts, 0, env) ==> m in dom
  {
    forall m | m in CloseAll(ts, 0, env) ensures m in dom {
      var i :| 0 <= i < |ts| && CloseAll(ts, 0, env)[i] == m;
      Root(ts[i], env);
      assert ts[i] in ts;
    }
  }

  lemma FieldRoots(fs: seq<Field>, env: seq<Ty>, dom: iset<Ty>)
    requires forall u :: u in SubtermsFields(fs, env) ==> u in dom
    ensures forall f :: f in CloseFields(fs, 0, env) ==> f.ty in dom
  {
    forall f | f in CloseFields(fs, 0, env) ensures f.ty in dom {
      var i :| 0 <= i < |fs| && CloseFields(fs, 0, env)[i] == f;
      Root(fs[i].ty, env);
      assert fs[i] in fs && f.ty in SubtermsField(fs[i], env);
    }
  }

  lemma {:induction false} SubtermSteps(t: Ty, env: seq<Ty>, dom: iset<Ty>, u: Ty)
    requires Tight(t, |env|) && ClosedEnv(env) && Contains(dom, t, env) && u in Subterms(t, env)
    ensures u in env || StepsStayIn(u, dom)
    decreases t
  {
    if u == Close(t, 0, env) {
      if !t.RecursiveRef? { RootSteps(t, env, dom); }
    } else {
      match t
      case Recursive(body) =>
        var r := Close(t, 0, env);
        RootSteps(t, env, dom);
        CloseTight(t, 0, env);
        SubtermSteps(body, [r] + env, dom, u);
      case Union(members) =>
        var m := MemberOf(members, env, u);
        SubtermSteps(m, env, dom, u);
      case Inter(members) =>
        var m := MemberOf(members, env, u);
        SubtermSteps(m, env, dom, u);
      case Neg(of) => SubtermSteps(of, env, dom, u);
      case Fn(params, _, ret) =>
        if u in Subterms(ret, env) {
          SubtermSteps(ret, env, dom, u);
        } else {
          var p := MemberOf(params, env, u);
          SubtermSteps(p, env, dom, u);
        }
      case Record(fields, tail) => RecordSubtermSteps(t, env, dom, u);
      case App(op, arg) =>
        if u in Subterms(op, env) { SubtermSteps(op, env, dom, u); } else { SubtermSteps(arg, env, dom, u); }
      case _ =>
    }
  }

  lemma {:induction false} RecordSubtermSteps(t: Ty, env: seq<Ty>, dom: iset<Ty>, u: Ty)
    requires t.Record? && Tight(t, |env|) && ClosedEnv(env) && Contains(dom, t, env)
    requires u in SubtermsFields(t.fields, env) + SubtermsTail(t.tail)
    ensures u in env || StepsStayIn(u, dom)
    decreases t, 0
  {
    if u in SubtermsFields(t.fields, env) {
      var f := FieldOf(t.fields, env, u);
      assert f.ty < f && TightField(f, |env|);
      assert forall w :: w in Subterms(f.ty, env) ==> w in SubtermsField(f, env);
      SubtermSteps(f.ty, env, dom, u);
    } else {
      assert TightTail(t.tail);
      SubtermSteps(t.tail.valueType, [], dom, u);
    }
  }

  // ---------- every subterm is met ----------

  lemma {:induction false} SubtermMet(t: Ty, env: seq<Ty>, u: Ty, a: Ty, b: Ty)
    requires Tight(t, |env|) && ClosedEnv(env) && u in Subterms(t, env)
    requires Met(Close(t, 0, env), a, b)
    ensures Met(u, a, b)
    decreases t
  {
    var root := Close(t, 0, env);
    if u != root {
      match t
      case Recursive(body) =>
        UnfoldClose(body, env);
        CloseTight(t, 0, env);
        MetStep(root, Close(body, 0, [root] + env), a, b);
        SubtermMet(body, [root] + env, u, a, b);
      case Union(members) => MemberMet(root, members, env, u, a, b);
      case Inter(members) => MemberMet(root, members, env, u, a, b);
      case Neg(of) =>
        MetStep(root, Close(of, 0, env), a, b);
        SubtermMet(of, env, u, a, b);
      case Fn(params, _, ret) =>
        if u in Subterms(ret, env) {
          MetStep(root, Close(ret, 0, env), a, b);
          SubtermMet(ret, env, u, a, b);
        } else {
          MemberMet(root, params, env, u, a, b);
        }
      case Record(fields, tail) => RecordSubtermMet(t, env, u, a, b);
      case App(op, arg) =>
        var part := if u in Subterms(op, env) then op else arg;
        MetStep(root, Close(part, 0, env), a, b);
        SubtermMet(part, env, u, a, b);
      case _ =>
    }
  }

  lemma {:induction false} MemberMet(root: Ty, ts: seq<Ty>, env: seq<Ty>, u: Ty, a: Ty, b: Ty)
    requires ClosedEnv(env) && u in SubtermsAll(ts, env) && Met(root, a, b)
    requires (forall t :: t in ts ==> Tight(t, |env|)) && forall m :: m in CloseAll(ts, 0, env) ==> StepTo(root, m)
    ensures Met(u, a, b)
    decreases ts
  {
    var t := MemberOf(ts, env, u);
    var i :| 0 <= i < |ts| && ts[i] == t;
    assert CloseAll(ts, 0, env)[i] == Close(t, 0, env);
    MetStep(root, Close(t, 0, env), a, b);
    SubtermMet(t, env, u, a, b);
  }

  lemma {:induction false} RecordSubtermMet(t: Ty, env: seq<Ty>, u: Ty, a: Ty, b: Ty)
    requires t.Record? && Tight(t, |env|) && ClosedEnv(env) && Met(Close(t, 0, env), a, b)
    requires u in SubtermsFields(t.fields, env) + SubtermsTail(t.tail)
    ensures Met(u, a, b)
    decreases t, 0
  {
    var root := Close(t, 0, env);
    if u in SubtermsFields(t.fields, env) {
      var f := FieldOf(t.fields, env, u);
      var i :| 0 <= i < |t.fields| && t.fields[i] == f;
      assert CloseFields(t.fields, 0, env)[i] in root.fields;
      assert f.ty < f && TightField(f, |env|);
      MetStep(root, Close(f.ty, 0, env), a, b);
      SubtermMet(f.ty, env, u, a, b);
    } else {
      var v := t.tail.valueType;
      assert TightTail(t.tail);
      CloseNothing(v, 0);
      MetStep(root, v, a, b);
      SubtermMet(v, [], u, a, b);
    }
  }

  // ---------- the theorem ----------

  /** All types a run from two closed types meets. */
  function MetTypes(a: Ty, b: Ty): set<Ty> {
    Subterms(a, []) + Subterms(b, [])
  }

  lemma MetTypesClosed(a: Ty, b: Ty)
    requires Tight(a, 0) && Tight(b, 0)
    ensures ClosedUnderSteps(iset u | u in MetTypes(a, b))
  {
    var dom := iset u | u in MetTypes(a, b);
    forall u | u in dom ensures StepsStayIn(u, dom) {
      if u in Subterms(a, []) {
        SubtermSteps(a, [], dom, u);
      } else {
        SubtermSteps(b, [], dom, u);
      }
    }
  }

  /** Between closed types with closed uniform tails, the types a run meets are exactly these finitely
      many. */
  lemma RunIsFinite(a: Ty, b: Ty)
    requires Tight(a, 0) && Tight(b, 0)
    ensures forall u :: u in Reachable(a, b) <==> u in MetTypes(a, b)
  {
    CloseNothing(a, 0);
    CloseNothing(b, 0);
    MetTypesClosed(a, b);
    ReachableLeast(a, b, iset u | u in MetTypes(a, b));
    ReachableClosed(a, b);
    forall u | u in MetTypes(a, b) ensures u in Reachable(a, b) {
      if u in Subterms(a, []) {
        SubtermMet(a, [], u, a, b);
      } else {
        SubtermMet(b, [], u, a, b);
      }
    }
  }
}
