/** The values types are about, and when a value belongs to a type. */
module Values {
  import opened Wrappers
  import opened Types
  import opened Unfold

  datatype Entry = Entry(key: Key, val: Value)

  /** `VNominal(id)` stands for a value of a nominal type that is not a literal type. */
  datatype Value =
    | VInt(n: int)
    | VStr(s: string)
    | VFloat(bits: nat)
    | VNominal(id: nat)
    | VRecord(entries: seq<Entry>)

  function Size(v: Value): nat
    decreases v
  {
    match v
    case VRecord(entries) => 1 + EntriesSize(entries)
    case _ => 0
  }

  function EntriesSize(entries: seq<Entry>): nat
    decreases entries
  {
    if entries == [] then 0 else 1 + EntrySize(entries[0]) + EntriesSize(entries[1..])
  }

  function EntrySize(e: Entry): nat
    decreases e
  {
    Size(e.val)
  }

  function FindEntry(entries: seq<Entry>, key: Key): (r: Option<Value>)
    ensures r.Some? ==> Size(r.value) < EntriesSize(entries)
  {
    if entries == [] then None
    else if entries[0].key == key then Some(entries[0].val)
    else FindEntry(entries[1..], key)
  }

  predicate Contractive(t: Ty) {
    !t.Recursive? && !t.RecursiveRef?
  }

  /** Guarded types over nominal types, literals and records without a uniform tail, with
      `k` binders in scope.  A reference is never a direct member of a Boolean node, nor the body of a
      recursive type: it stands below a record field. */
  predicate Guarded(t: Ty, k: nat)
    decreases t
  {
    match t
    case Top | Never | Nominal(_) | IntLit(_) | StrLit(_) | FloatLit(_) => true
    case Union(members) => forall m :: m in members ==> !m.RecursiveRef? && Guarded(m, k)
    case Inter(members) => forall m :: m in members ==> !m.RecursiveRef? && Guarded(m, k)
    case Neg(of) => !of.RecursiveRef? && Guarded(of, k)
    case Record(fields, tail) => !tail.Uniform? && forall f :: f in fields ==> GuardedField(f, k)
    case Recursive(body) => !body.RecursiveRef? && Guarded(body, k + 1)
    case RecursiveRef(index) => index < k
    case _ => false
  }

  predicate GuardedField(f: Field, k: nat)
    decreases f
  {
    Guarded(f.ty, k)
  }

  lemma {:induction false} GuardedWeaken(t: Ty, j: nat, k: nat)
    requires Guarded(t, j) && j <= k
    ensures Guarded(t, k)
    decreases t
  {
    match t
    case Union(members) =>
      forall m | m in members ensures Guarded(m, k) { GuardedWeaken(m, j, k); }
    case Inter(members) =>
      forall m | m in members ensures Guarded(m, k) { GuardedWeaken(m, j, k); }
    case Neg(of) => GuardedWeaken(of, j, k);
    case Record(fields, _) =>
      forall f | f in fields ensures GuardedField(f, k) {
        assert f.ty < f && GuardedField(f, j);
        GuardedWeaken(f.ty, j, k);
      }
    case Recursive(body) => GuardedWeaken(body, j + 1, k + 1);
    case _ =>
  }

  lemma {:induction false} SubstGuarded(t: Ty, k: nat, r: Ty)
    requires Guarded(t, k + 1) && r.Recursive? && Guarded(r, 0)
    ensures Guarded(Subst(t, k, r), k)
    ensures !Subst(t, k, r).RecursiveRef? || t.RecursiveRef?
    decreases t
  {
    match t
    case RecursiveRef(index) => GuardedWeaken(r, 0, k);
    case Union(members) => SubstAllGuarded(members, k, r);
    case Inter(members) => SubstAllGuarded(members, k, r);
    case Neg(of) => SubstGuarded(of, k, r);
    case Record(fields, _) =>
      forall f | f in SubstFields(fields, k, r) ensures GuardedField(f, k) {
        var i :| 0 <= i < |fields| && SubstFields(fields, k, r)[i] == f;
        assert fields[i] in fields && fields[i].ty < fields[i] && GuardedField(fields[i], k + 1);
        SubstGuarded(fields[i].ty, k, r);
      }
    case Recursive(body) => SubstGuarded(body, k + 1, r);
    case _ =>
  }

  lemma {:induction false} SubstAllGuarded(ts: seq<Ty>, k: nat, r: Ty)
    requires forall t :: t in ts ==> !t.RecursiveRef? && Guarded(t, k + 1)
    requires r.Recursive? && Guarded(r, 0)
    ensures forall t :: t in SubstAll(ts, k, r) ==> !t.RecursiveRef? && Guarded(t, k)
    decreases ts
  {
    if ts != [] {
      assert ts[0] in ts;
      SubstGuarded(ts[0], k, r);
      SubstAllGuarded(ts[1..], k, r);
    }
  }

  /** How many binders stand at the head of `t`, outside records, one below the other. */
  function HeadDepth(t: Ty): nat
    decreases t, 1
  {
    match t
    case Recursive(body) => 1 + HeadDepth(body)
    case Union(members) => HeadDepthAll(members)
    case Inter(members) => HeadDepthAll(members)
    case Neg(of) => HeadDepth(of)
    case _ => 0
  }

  function HeadDepthAll(ts: seq<Ty>): (n: nat)
    ensures forall t :: t in ts ==> HeadDepth(t) <= n
    decreases ts, 0
  {
    if ts == [] then 0
    else
      var h, n := HeadDepth(ts[0]), HeadDepthAll(ts[1..]);
      assert forall t :: t in ts ==> t == ts[0] || t in ts[1..];
      if h < n then n else h
  }

  lemma {:induction false} SubstHeadDepth(t: Ty, k: nat, r: Ty)
    requires Guarded(t, k + 1) && !t.RecursiveRef?
    ensures HeadDepth(Subst(t, k, r)) == HeadDepth(t)
    decreases t
  {
    match t
    case Union(members) => SubstHeadDepthAll(members, k, r);
    case Inter(members) => SubstHeadDepthAll(members, k, r);
    case Neg(of) => SubstHeadDepth(of, k, r);
    case Recursive(body) => SubstHeadDepth(body, k + 1, r);
    case _ =>
  }

  lemma {:induction false} SubstHeadDepthAll(ts: seq<Ty>, k: nat, r: Ty)
    requires forall t :: t in ts ==> !t.RecursiveRef? && Guarded(t, k + 1)
    ensures HeadDepthAll(SubstAll(ts, k, r)) == HeadDepthAll(ts)
    decreases ts
  {
    if ts != [] {
      assert ts[0] in ts;
      SubstHeadDepth(ts[0], k, r);
      SubstHeadDepthAll(ts[1..], k, r);
      assert SubstAll(ts, k, r)[1..] == SubstAll(ts[1..], k, r);
    }
  }

  /** Unfolding a guarded closed type gives a guarded closed type with one binder fewer at its head. */
  lemma UnfoldGuarded(t: Ty)
    requires t.Recursive? && Guarded(t, 0)
    ensures Guarded(UnfoldTy(t), 0) && HeadDepth(UnfoldTy(t)) + 1 == HeadDepth(t)
    ensures Contractive(t.body) ==> Contractive(UnfoldTy(t))
  {
    SubstGuarded(t.body, 0, t);
    SubstHeadDepth(t.body, 0, t);
  }

  /** Membership.  Records are read width-open: a value needs at least the declared fields. */
  ghost predicate In(v: Value, t: Ty)
    requires Guarded(t, 0)
    decreases Size(v), HeadDepth(t), t
  {
    match t
    case Top => true
    case Never => false
    case Nominal(id) =>
      (match v
       case VInt(_) => id == TYPE_ID_INT
       case VStr(_) => id == TYPE_ID_STRING
       case VFloat(_) => id == TYPE_ID_FLOAT
       case VNominal(i) => id == i && id !in {TYPE_ID_INT, TYPE_ID_STRING, TYPE_ID_FLOAT}
       case VRecord(_) => false)
    case IntLit(n) => v == VInt(n)
    case StrLit(s) => v == VStr(s)
    case FloatLit(bits) => v == VFloat(bits)
    case Union(members) => exists m :: m in members && In(v, m)
    case Inter(members) => forall m :: m in members ==> In(v, m)
    case Neg(of) => !In(v, of)
    case Record(fields, _) =>
      v.VRecord? && forall i :: 0 <= i < |fields| ==>
        assert GuardedField(fields[i], 0);
        var entry := FindEntry(v.entries, fields[i].key);
        entry.Some? && In(entry.value, fields[i].ty)
    case Recursive(_) => UnfoldGuarded(t); In(v, UnfoldTy(t))
    case RecursiveRef(_) => false
  }
}
