/** Monotonicity of the gradual relation in precision: replacing any parts of either side by
    `Unknown` never turns acceptance into rejection. */
module Gradual {
  import opened Types
  import opened Subtype
  import opened ConsistentSubtype

  /** `t'` is `t` with some subterms replaced by `Unknown`. */
  ghost predicate LessPrecise(t': Ty, t: Ty)
    decreases t
  {
    t'.Unknown? ||
    match t
    case Union(ms) => t'.Union? && AllLess(t'.members, ms)
    case Inter(ms) => t'.Inter? && AllLess(t'.members, ms)
    case Neg(of) => t'.Neg? && LessPrecise(t'.of, of)
    case Fn(ps, variadic, ret) => t'.Fn? && t'.variadic == variadic && AllLess(t'.params, ps) && LessPrecise(t'.ret, ret)
    case Record(fs, tail) => t'.Record? && FieldsLess(t'.fields, fs) && TailLess(t'.tail, tail)
    case App(op, arg) => t'.App? && LessPrecise(t'.op, op) && LessPrecise(t'.arg, arg)
    case _ => t' == t
  }

  ghost predicate AllLess(ts': seq<Ty>, ts: seq<Ty>)
    decreases ts
  {
    |ts'| == |ts| && forall i :: 0 <= i < |ts| ==> LessPrecise(ts'[i], ts[i])
  }

  ghost predicate FieldLess(f': Field, f: Field)
    decreases f
  {
    f'.key == f.key && LessPrecise(f'.ty, f.ty)
  }

  ghost predicate FieldsLess(fs': seq<Field>, fs: seq<Field>)
    decreases fs
  {
    |fs'| == |fs| && forall i :: 0 <= i < |fs| ==> FieldLess(fs'[i], fs[i])
  }

  ghost predicate TailLess(tail': Tail, tail: Tail)
    decreases tail
  {
    if tail.Uniform? then tail'.Uniform? && LessPrecise(tail'.valueType, tail.valueType) else tail' == tail
  }

  predicate NoRecursion(t: Ty)
    decreases t
  {
    match t
    case Recursive(_) => false
    case Union(ms) => forall m :: m in ms ==> NoRecursion(m)
    case Inter(ms) => forall m :: m in ms ==> NoRecursion(m)
    case Neg(of) => NoRecursion(of)
    case Fn(ps, _, ret) => NoRecursion(ret) && forall p :: p in ps ==> NoRecursion(p)
    case Record(fs, tail) => NoRecursionTail(tail) && forall f :: f in fs ==> NoRecursionField(f)
    case App(op, arg) => NoRecursion(op) && NoRecursion(arg)
    case _ => true
  }

  predicate NoRecursionField(f: Field) decreases f { NoRecursion(f.ty) }

  predicate NoRecursionTail(tail: Tail) decreases tail { tail.Uniform? ==> NoRecursion(tail.valueType) }

  lemma {:induction false} LookupLess(fs': seq<Field>, fs: seq<Field>, key: Key)
    requires FieldsLess(fs', fs)
    ensures Lookup(fs', key).Some? == Lookup(fs, key).Some?
    ensures Lookup(fs, key).Some? ==> LessPrecise(Lookup(fs', key).value, Lookup(fs, key).value)
  {
    if fs != [] {
      assert FieldLess(fs'[0], fs[0]);
      LookupLess(fs'[1..], fs[1..], key);
    }
  }

  lemma LookupNoRecursion(fs: seq<Field>, key: Key)
    requires Lookup(fs, key).Some? && forall f :: f in fs ==> NoRecursionField(f)
    ensures NoRecursion(Lookup(fs, key).value)
  {
    var i :| 0 <= i < |fs| && fs[i].key == key && fs[i].ty == Lookup(fs, key).value;
    assert NoRecursionField(fs[i]);
  }

  lemma KeysLess(fs': seq<Field>, fs: seq<Field>)
    requires FieldsLess(fs', fs)
    ensures StringKeys(fs') == StringKeys(fs)
  {
    forall i | 0 <= i < |fs| ensures fs'[i].key == fs[i].key && fs'[i] in fs' && fs[i] in fs {
      assert FieldLess(fs'[i], fs[i]);
    }
    forall k ensures k in StringKeys(fs') <==> k in StringKeys(fs) {
      if f :| f in fs' && f.key.StrKey? && f.key.name == k {
        var i :| 0 <= i < |fs'| && fs'[i] == f;
        assert fs[i] in fs && fs[i].key == f.key;
      }
      if f :| f in fs && f.key.StrKey? && f.key.name == k {
        var i :| 0 <= i < |fs| && fs[i] == f;
        assert fs'[i] in fs' && fs'[i].key == f.key;
      }
    }
  }

  /** The gradual guarantee, through contravariant parameters, unions, intersections, applications
      and row tails. */
  lemma {:induction false} PrecisionMonotone(a: Ty, b: Ty, a': Ty, b': Ty, ctx: Ctx, fuel: nat, fuel': nat)
    requires NoRecursion(a) && NoRecursion(b)
    requires LessPrecise(a', a) && LessPrecise(b', b)
    requires Consistent(a, b, ctx, fuel)
    ensures Consistent(a', b', ctx, fuel')
    decreases SizeOf(a) + SizeOf(b), 1
  {
    if a'.Unknown? || b'.Unknown? || a.Top? || b.Var? {
    } else if b.App? && (a.Nominal? || a.App?) {
      AppMonotone(a, b, a', b', ctx, fuel, fuel');
    } else if a.Error? || b.Error? {
    } else if a.Union? {
      LeftUnionMonotone(a, b, a', b', ctx, fuel, fuel');
    } else if b.Union? {
      RightUnionMonotone(a, b, a', b', ctx, fuel, fuel');
    } else if b.Inter? {
      RightInterMonotone(a, b, a', b', ctx, fuel, fuel');
    } else if a.Fn? && b.Fn? {
      FnMonotone(a, b, a', b', ctx, fuel, fuel');
    } else if a.Never? || b.Top? {
    } else if a.Inter? {
      LeftInterMonotone(a, b, a', b', ctx, fuel, fuel');
    } else if a.Record? && b.Record? {
      RecordMonotone(a, b, a', b', ctx, fuel, fuel');
    } else {
      LeafMonotone(a, b, a', b', ctx, fuel, fuel');
    }
  }

  /** Replacing parts kept both constructors. */
  ghost predicate StillShaped(a: Ty, b: Ty, a': Ty, b': Ty) {
    && NoRecursion(a) && NoRecursion(b) && LessPrecise(a', a) && LessPrecise(b', b)
    && !a'.Unknown? && !b'.Unknown? && !b.Var? && !a.Top?
  }

  lemma {:induction false} AppMonotone(a: Ty, b: Ty, a': Ty, b': Ty, ctx: Ctx, fuel: nat, fuel': nat)
    requires StillShaped(a, b, a', b') && b.App? && (a.Nominal? || a.App?) && Consistent(a, b, ctx, fuel)
    ensures Consistent(a', b', ctx, fuel')
    decreases SizeOf(a) + SizeOf(b), 0
  {
    if a.Nominal? {
      PrecisionMonotone(a, b.op, a', b'.op, ctx, fuel, fuel');
    } else {
      PrecisionMonotone(a.op, b.op, a'.op, b'.op, ctx, fuel, fuel');
      PrecisionMonotone(a.arg, b.arg, a'.arg, b'.arg, ctx, fuel, fuel');
    }
  }

  lemma {:induction false} LeftUnionMonotone(a: Ty, b: Ty, a': Ty, b': Ty, ctx: Ctx, fuel: nat, fuel': nat)
    requires StillShaped(a, b, a', b') && a.Union? && !b.Error? && Consistent(a, b, ctx, fuel)
    ensures Consistent(a', b', ctx, fuel')
    decreases SizeOf(a) + SizeOf(b), 0, 1
  {
    assert AllLess(a'.members, a.members);
    forall i | 0 <= i < |a.members| ensures Consistent(a'.members[i], b', ctx, fuel') {
      LeftMemberMonotone(a, b, a', b', i, ctx, fuel, fuel');
    }
  }

  lemma {:induction false} RightUnionMonotone(a: Ty, b: Ty, a': Ty, b': Ty, ctx: Ctx, fuel: nat, fuel': nat)
    requires StillShaped(a, b, a', b') && b.Union? && !a.Union? && !a.Error? && Consistent(a, b, ctx, fuel)
    ensures Consistent(a', b', ctx, fuel')
    decreases SizeOf(a) + SizeOf(b), 0, 1
  {
    var i :| 0 <= i < |b.members| && Consistent(a, b.members[i], ctx, fuel);
    RightMemberMonotone(a, b, a', b', i, ctx, fuel, fuel');
  }

  lemma {:induction false} RightInterMonotone(a: Ty, b: Ty, a': Ty, b': Ty, ctx: Ctx, fuel: nat, fuel': nat)
    requires StillShaped(a, b, a', b') && b.Inter? && !a.Union? && !a.Error? && Consistent(a, b, ctx, fuel)
    ensures Consistent(a', b', ctx, fuel')
    decreases SizeOf(a) + SizeOf(b), 0, 1
  {
    assert AllLess(b'.members, b.members);
    forall i | 0 <= i < |b.members| ensures Consistent(a', b'.members[i], ctx, fuel') {
      RightMemberMonotone(a, b, a', b', i, ctx, fuel, fuel');
    }
  }

  lemma {:induction false} LeftInterMonotone(a: Ty, b: Ty, a': Ty, b': Ty, ctx: Ctx, fuel: nat, fuel': nat)
    requires StillShaped(a, b, a', b') && a.Inter? && Consistent(a, b, ctx, fuel)
    requires !b.Error? && !b.Union? && !b.Inter? && !b.Top?
    ensures Consistent(a', b', ctx, fuel')
    decreases SizeOf(a) + SizeOf(b), 0, 1
  {
    var i :| 0 <= i < |a.members| && Consistent(a.members[i], b, ctx, fuel);
    LeftMemberMonotone(a, b, a', b', i, ctx, fuel, fuel');
  }

  lemma LeafMonotone(a: Ty, b: Ty, a': Ty, b': Ty, ctx: Ctx, fuel: nat, fuel': nat)
    requires StillShaped(a, b, a', b') && Consistent(a, b, ctx, fuel)
    requires !(b.App? && (a.Nominal? || a.App?)) && !a.Union? && !b.Union? && !a.Inter? && !b.Inter?
    requires !a.Error? && !b.Error? && !(a.Fn? && b.Fn?) && !(a.Record? && b.Record?) && !a.Never? && !b.Top?
    ensures Consistent(a', b', ctx, fuel')
  {
    assert a' == a || !(a.Nominal? || IsLiteral(a) || a.Var?);
    assert b' == b || !(b.Nominal? || IsLiteral(b));
  }

  lemma {:induction false} LeftMemberMonotone(a: Ty, b: Ty, a': Ty, b': Ty, i: nat, ctx: Ctx, fuel: nat, fuel': nat)
    requires NoRecursion(a) && NoRecursion(b) && (a.Union? || a.Inter?) && !a'.Unknown? && i < |a.members|
    requires LessPrecise(a', a) && LessPrecise(b', b) && Consistent(a.members[i], b, ctx, fuel)
    ensures i < |a'.members| && Consistent(a'.members[i], b', ctx, fuel')
    decreases SizeOf(a) + SizeOf(b), 0, 0
  {
    assert a.members[i] in a.members && AllLess(a'.members, a.members);
    PrecisionMonotone(a.members[i], b, a'.members[i], b', ctx, fuel, fuel');
  }

  lemma {:induction false} RightMemberMonotone(a: Ty, b: Ty, a': Ty, b': Ty, i: nat, ctx: Ctx, fuel: nat, fuel': nat)
    requires NoRecursion(a) && NoRecursion(b) && (b.Union? || b.Inter?) && !b'.Unknown? && i < |b.members|
    requires LessPrecise(a', a) && LessPrecise(b', b) && Consistent(a, b.members[i], ctx, fuel)
    ensures i < |b'.members| && Consistent(a', b'.members[i], ctx, fuel')
    decreases SizeOf(a) + SizeOf(b), 0, 0
  {
    assert b.members[i] in b.members && AllLess(b'.members, b.members);
    PrecisionMonotone(a, b.members[i], a', b'.members[i], ctx, fuel, fuel');
  }

  lemma {:induction false} FnMonotone(a: Ty, b: Ty, a': Ty, b': Ty, ctx: Ctx, fuel: nat, fuel': nat)
    requires NoRecursion(a) && NoRecursion(b) && a.Fn? && b.Fn? && a'.Fn? && b'.Fn?
    requires LessPrecise(a', a) && LessPrecise(b', b) && FnConsistent(a, b, ctx, fuel)
    ensures FnConsistent(a', b', ctx, fuel')
    decreases SizeOf(a) + SizeOf(b), 0
  {
    if !(b.variadic && b.params == []) {
      PrecisionMonotone(a.ret, b.ret, a'.ret, b'.ret, ctx, fuel, fuel');
      forall i | 0 <= i < |a.params| ensures ParamConsistent(a', b', i, ctx, fuel') {
        assert a.params[i] in a.params && b.params[i] in b.params && ParamConsistent(a, b, i, ctx, fuel);
        PrecisionMonotone(b.params[i], a.params[i], b'.params[i], a'.params[i], ctx, fuel, fuel');
      }
    }
  }

  lemma {:induction false} RecordMonotone(a: Ty, b: Ty, a': Ty, b': Ty, ctx: Ctx, fuel: nat, fuel': nat)
    requires NoRecursion(a) && NoRecursion(b) && a.Record? && b.Record? && a'.Record? && b'.Record?
    requires LessPrecise(a', a) && LessPrecise(b', b) && RecordConsistent(a, b, ctx, fuel)
    ensures RecordConsistent(a', b', ctx, fuel')
    decreases SizeOf(a) + SizeOf(b), 0
  {
    forall j | 0 <= j < |b'.fields| ensures FieldConsistent(a', b', j, ctx, fuel') {
      assert FieldConsistent(a, b, j, ctx, fuel) && FieldLess(b'.fields[j], b.fields[j]);
      var key := b.fields[j].key;
      LookupLess(a'.fields, a.fields, key);
      LookupSize(a.fields, key);
      LookupNoRecursion(a.fields, key);
      assert b.fields[j] in b.fields && NoRecursionField(b.fields[j]) && SizeField(b.fields[j]) == SizeOf(b.fields[j].ty);
      PrecisionMonotone(Lookup(a.fields, key).value, b.fields[j].ty, Lookup(a'.fields, key).value, b'.fields[j].ty,
                        ctx, fuel, fuel');
    }
    KeysLess(b'.fields, b.fields);
    if b.tail.Uniform? {
      assert NoRecursionTail(b.tail) && SizeTail(b.tail) == SizeOf(b.tail.valueType);
      if a.tail.Uniform? {
        assert NoRecursionTail(a.tail) && SizeTail(a.tail) == SizeOf(a.tail.valueType);
        PrecisionMonotone(a.tail.valueType, b.tail.valueType, a'.tail.valueType, b'.tail.valueType, ctx, fuel, fuel');
      } else {
        forall i | 0 <= i < |a'.fields| ensures
          KeyText(a'.fields[i].key) in StringKeys(b'.fields) || Consistent(a'.fields[i].ty, b'.tail.valueType, ctx, fuel')
        {
          assert FieldLess(a'.fields[i], a.fields[i]);
          assert a.fields[i] in a.fields && NoRecursionField(a.fields[i]) && SizeField(a.fields[i]) == SizeOf(a.fields[i].ty);
          if Consistent(a.fields[i].ty, b.tail.valueType, ctx, fuel) {
            PrecisionMonotone(a.fields[i].ty, b.tail.valueType, a'.fields[i].ty, b'.tail.valueType, ctx, fuel, fuel');
          }
        }
      }
    }
    assert TailConsistent(a', b', ctx, fuel');
  }

  /** On types without recursion the unfolding bound plays no part. */
  lemma FuelIrrelevant(a: Ty, b: Ty, ctx: Ctx, fuel: nat, fuel': nat)
    requires NoRecursion(a) && NoRecursion(b)
    ensures Consistent(a, b, ctx, fuel) == Consistent(a, b, ctx, fuel')
  {
    LessPreciseReflexive(a);
    LessPreciseReflexive(b);
    if Consistent(a, b, ctx, fuel) { PrecisionMonotone(a, b, a, b, ctx, fuel, fuel'); }
    if Consistent(a, b, ctx, fuel') { PrecisionMonotone(a, b, a, b, ctx, fuel', fuel); }
  }

  lemma {:induction false} LessPreciseReflexive(t: Ty)
    ensures LessPrecise(t, t)
    decreases t
  {
    match t
    case Union(ms) => forall i | 0 <= i < |ms| ensures LessPrecise(ms[i], ms[i]) { LessPreciseReflexive(ms[i]); }
    case Inter(ms) => forall i | 0 <= i < |ms| ensures LessPrecise(ms[i], ms[i]) { LessPreciseReflexive(ms[i]); }
    case Neg(of) => LessPreciseReflexive(of);
    case Fn(ps, _, ret) =>
      LessPreciseReflexive(ret);
      forall i | 0 <= i < |ps| ensures LessPrecise(ps[i], ps[i]) { LessPreciseReflexive(ps[i]); }
    case Record(fs, tail) =>
      if tail.Uniform? { LessPreciseReflexive(tail.valueType); }
      forall i | 0 <= i < |fs| ensures FieldLess(fs[i], fs[i]) {
        assert fs[i].ty < fs[i];
        LessPreciseReflexive(fs[i].ty);
      }
      assert FieldsLess(fs, fs) && TailLess(tail, tail);
    case App(op, arg) =>
      LessPreciseReflexive(op);
      LessPreciseReflexive(arg);
    case _ =>
  }
}
