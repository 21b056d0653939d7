/** The structural fingerprint that keys coinductive hypotheses: where it identifies a type,
    and where it does not. */
module Fingerprint {
  import opened Types
  import opened Text
  import opened ConsistentSubtype

  /** The display name of a constructor without payload fields of its own. */
  function CtorName(typeId: nat, ctor: nat, env: TyConEnv): string {
    if typeId in env && ctor < |env[typeId].constructors| then env[typeId].constructors[ctor]
    else "Ctor(" + Decimal(typeId) + "." + Decimal(ctor) + ")"
  }

  /** What stands for everything below the depth bound. */
  const CUT := "\U{2026}"

  function Print(t: Ty, depth: nat, env: TyConEnv): string
    decreases t, 1
  {
    if depth >= MAX_FINGERPRINT_DEPTH then CUT
    else
      match t
      case Nominal(id) => "Nominal(" + Decimal(id) + ")"
      case Var(name) => "Var(" + name + ")"
      case IntLit(n) => "IntLit(" + Decimal(n) + ")"
      case StrLit(s) => "StrLit(" + s + ")"
      case FloatLit(bits) => "FloatLit(" + Decimal(bits) + ")"
      case RecursiveRef(index) => "Ref(" + Decimal(index) + ")"
      case Recursive(body) => "Rec(" + Print(body, depth + 1, env) + ")"
      case Union(members) => "U(" + PrintAll(members, depth + 1, env) + ")"
      case Inter(members) => "I(" + PrintAll(members, depth + 1, env) + ")"
      case Neg(of) => "Neg(" + Print(of, depth + 1, env) + ")"
      case Fn(params, _, ret) =>
        "Fn(" + PrintAll(params, depth + 1, env) + ")->" + Print(ret, depth + 1, env)
      case Record(fields, tail) =>
        "Record{" + JoinFields(SortFields(PrintFields(fields, depth + 1, env))) + "|"
        + PrintTail(tail, depth + 1, env) + "}"
      case App(op, arg) => "App(" + Print(op, depth + 1, env) + "," + Print(arg, depth + 1, env) + ")"
      case Unknown => CtorName(TYPE_ID_TYPE_VALUE, 17, env)
      case Never => CtorName(TYPE_ID_TYPE_VALUE, 18, env)
      case Top => CtorName(TYPE_ID_TYPE_VALUE, 19, env)
      case Error => CtorName(TYPE_ID_TYPE_VALUE, 21, env)
  }

  /** Comma-separated. */
  function PrintAll(ts: seq<Ty>, depth: nat, env: TyConEnv): string
    decreases ts, 0
  {
    if ts == [] then ""
    else if |ts| == 1 then Print(ts[0], depth, env)
    else Print(ts[0], depth, env) + "," + PrintAll(ts[1..], depth, env)
  }

  function PrintField(f: Field, depth: nat, env: TyConEnv): (string, string)
    decreases f, 0
  {
    (KeyText(f.key), Print(f.ty, depth, env))
  }

  function PrintFields(fs: seq<Field>, depth: nat, env: TyConEnv): seq<(string, string)>
    decreases fs, 0
  {
    if fs == [] then [] else [PrintField(fs[0], depth, env)] + PrintFields(fs[1..], depth, env)
  }

  /** Variable and uniform tails are printed like types, one level down.  A uniform tail's
      constructor tag is read as that of a type variable without a name: its value type is not
      printed. */
  function PrintTail(tail: Tail, depth: nat, env: TyConEnv): string {
    match tail
    case Absent => "?"
    case Closed => "closed"
    case RowVar(_) => if depth >= MAX_FINGERPRINT_DEPTH then CUT else CtorName(TYPE_ID_ROW_TAIL, 1, env)
    case Uniform(_) => if depth >= MAX_FINGERPRINT_DEPTH then CUT else "Var(?)"
  }

  predicate StringLess(a: string, b: string) {
    if b == [] then false
    else if a == [] then true
    else a[0] < b[0] || (a[0] == b[0] && StringLess(a[1..], b[1..]))
  }

  /** Stable insertion sort by key. */
  function SortFields(fs: seq<(string, string)>): seq<(string, string)> {
    if fs == [] then [] else InsertField(fs[0], SortFields(fs[1..]))
  }

  function InsertField(f: (string, string), fs: seq<(string, string)>): seq<(string, string)> {
    if fs == [] || !StringLess(fs[0].0, f.0) then [f] + fs else [fs[0]] + InsertField(f, fs[1..])
  }

  function JoinFields(fs: seq<(string, string)>): string {
    if fs == [] then ""
    else if |fs| == 1 then fs[0].0 + ":" + fs[0].1
    else fs[0].0 + ":" + fs[0].1 + "," + JoinFields(fs[1..])
  }

  /** The context the program runs the checker in. */
  function SourceCtx(env: TyConEnv): Ctx {
    Ctx(env, t => Print(t, 0, env), MAX_ATOM_SUBTYPE_DEPTH, MAX_RDNF_CONJUNCTIONS)
  }

  // ---------- what a fingerprint keeps ----------

  /** `t` without what its fingerprint at `depth` leaves out: variadic flags, the value types of
      uniform tails, the names of row variables, the order of fields, the difference between an integer
      key and its decimal text, and everything below the depth bound. */
  function Erase(t: Ty, depth: nat): Ty
    decreases t, 1
  {
    if depth >= MAX_FINGERPRINT_DEPTH then Top
    else
      match t
      case Recursive(body) => Recursive(Erase(body, depth + 1))
      case Union(members) => Union(EraseAll(members, depth + 1))
      case Inter(members) => Inter(EraseAll(members, depth + 1))
      case Neg(of) => Neg(Erase(of, depth + 1))
      case Fn(params, _, ret) => Fn(EraseAll(params, depth + 1), false, Erase(ret, depth + 1))
      case Record(fields, tail) => Record(InOrder(EraseFields(fields, depth + 1)), EraseTail(tail, depth + 1))
      case App(op, arg) => App(Erase(op, depth + 1), Erase(arg, depth + 1))
      case _ => t
  }

  function EraseTail(tail: Tail, depth: nat): Tail {
    match tail
    case RowVar(_) => if depth >= MAX_FINGERPRINT_DEPTH then Uniform(Top) else RowVar("")
    case Uniform(_) => Uniform(Top)
    case _ => tail
  }

  function EraseAll(ts: seq<Ty>, depth: nat): (r: seq<Ty>)
    ensures |r| == |ts|
    decreases ts, 0
  {
    if ts == [] then [] else [Erase(ts[0], depth)] + EraseAll(ts[1..], depth)
  }

  function EraseField(f: Field, depth: nat): Field
    decreases f, 0
  {
    Field(StrKey(KeyText(f.key)), Erase(f.ty, depth))
  }

  function EraseFields(fs: seq<Field>, depth: nat): (r: seq<Field>)
    ensures |r| == |fs|
    decreases fs, 0
  {
    if fs == [] then [] else [EraseField(fs[0], depth)] + EraseFields(fs[1..], depth)
  }

  /** Stable insertion sort by key text, as `SortFields` does it on the texts. */
  function InOrder(fs: seq<Field>): seq<Field> {
    if fs == [] then [] else PutInOrder(fs[0], InOrder(fs[1..]))
  }

  function PutInOrder(f: Field, fs: seq<Field>): seq<Field> {
    if fs == [] || !StringLess(KeyText(fs[0].key), KeyText(f.key)) then [f] + fs
    else [fs[0]] + PutInOrder(f, fs[1..])
  }

  lemma {:induction false} PrintPut(f: Field, fs: seq<Field>, depth: nat, env: TyConEnv)
    ensures PrintFields(PutInOrder(f, fs), depth, env) == InsertField(PrintField(f, depth, env), PrintFields(fs, depth, env))
    decreases |fs|
  {
    var ps := PrintFields(fs, depth, env);
    if fs == [] || !StringLess(KeyText(fs[0].key), KeyText(f.key)) {
      assert ([f] + fs)[1..] == fs;
    } else {
      PrintPut(f, fs[1..], depth, env);
      assert ps[0] == PrintField(fs[0], depth, env) && ps[1..] == PrintFields(fs[1..], depth, env);
      assert ([fs[0]] + PutInOrder(f, fs[1..]))[1..] == PutInOrder(f, fs[1..]);
    }
  }

  lemma {:induction false} PrintInOrder(fs: seq<Field>, depth: nat, env: TyConEnv)
    ensures PrintFields(InOrder(fs), depth, env) == SortFields(PrintFields(fs, depth, env))
    decreases |fs|
  {
    if fs != [] {
      PrintInOrder(fs[1..], depth, env);
      PrintPut(fs[0], InOrder(fs[1..]), depth, env);
      assert PrintFields(fs, depth, env)[1..] == PrintFields(fs[1..], depth, env);
    }
  }

  lemma {:induction false} ErasePut(f: Field, fs: seq<Field>, depth: nat)
    ensures EraseFields(PutInOrder(f, fs), depth) == PutInOrder(EraseField(f, depth), EraseFields(fs, depth))
    decreases |fs|
  {
    var es := EraseFields(fs, depth);
    if fs == [] || !StringLess(KeyText(fs[0].key), KeyText(f.key)) {
      assert ([f] + fs)[1..] == fs;
    } else {
      ErasePut(f, fs[1..], depth);
      assert es[0] == EraseField(fs[0], depth) && es[1..] == EraseFields(fs[1..], depth);
      assert ([fs[0]] + PutInOrder(f, fs[1..]))[1..] == PutInOrder(f, fs[1..]);
    }
  }

  lemma {:induction false} EraseInOrder(fs: seq<Field>, depth: nat)
    ensures EraseFields(InOrder(fs), depth) == InOrder(EraseFields(fs, depth))
    decreases |fs|
  {
    if fs != [] {
      EraseInOrder(fs[1..], depth);
      ErasePut(fs[0], InOrder(fs[1..]), depth);
      assert EraseFields(fs, depth)[1..] == EraseFields(fs[1..], depth);
    }
  }

  lemma {:induction false} PutParts(f: Field, fs: seq<Field>)
    ensures SizeFields(PutInOrder(f, fs)) == SizeField(f) + SizeFields(fs)
    ensures forall g :: g in PutInOrder(f, fs) ==> g == f || g in fs
    decreases |fs|
  {
    if fs == [] || !StringLess(KeyText(fs[0].key), KeyText(f.key)) {
      assert ([f] + fs)[1..] == fs;
    } else {
      PutParts(f, fs[1..]);
      assert ([fs[0]] + PutInOrder(f, fs[1..]))[1..] == PutInOrder(f, fs[1..]);
    }
  }

  /** Ordering fields keeps them. */
  lemma {:induction false} InOrderParts(fs: seq<Field>)
    ensures SizeFields(InOrder(fs)) == SizeFields(fs)
    ensures forall g :: g in InOrder(fs) ==> g in fs
    decreases |fs|
  {
    if fs != [] {
      InOrderParts(fs[1..]);
      PutParts(fs[0], InOrder(fs[1..]));
    }
  }

  // ---------- sorting twice is sorting once ----------

  predicate Ordered(ps: seq<(string, string)>) {
    forall i :: 0 < i < |ps| ==> !StringLess(ps[i].0, ps[i - 1].0)
  }

  lemma {:induction false} StringLessOneWay(a: string, b: string)
    requires StringLess(a, b)
    ensures !StringLess(b, a)
    decreases |a|
  {
    if a != [] && b != [] && a[0] == b[0] {
      StringLessOneWay(a[1..], b[1..]);
    }
  }

  lemma {:induction false} InsertOrdered(p: (string, string), ps: seq<(string, string)>)
    requires Ordered(ps)
    ensures Ordered(InsertField(p, ps))
    ensures InsertField(p, ps)[0] == p || (ps != [] && InsertField(p, ps)[0] == ps[0])
    decreases |ps|
  {
    if ps != [] && StringLess(ps[0].0, p.0) {
      var rest := InsertField(p, ps[1..]);
      assert forall i :: 0 < i < |ps[1..]| ==> ps[1..][i] == ps[i + 1] && ps[1..][i - 1] == ps[i];
      InsertOrdered(p, ps[1..]);
      StringLessOneWay(ps[0].0, p.0);
      assert !StringLess(rest[0].0, ps[0].0);
    }
  }

  lemma {:induction false} SortOrdered(ps: seq<(string, string)>)
    ensures Ordered(SortFields(ps))
    decreases |ps|
  {
    if ps != [] {
      SortOrdered(ps[1..]);
      InsertOrdered(ps[0], SortFields(ps[1..]));
    }
  }

  lemma {:induction false} OrderedSorted(ps: seq<(string, string)>)
    requires Ordered(ps)
    ensures SortFields(ps) == ps
    decreases |ps|
  {
    if ps != [] {
      var rest := ps[1..];
      assert forall i :: 0 < i < |rest| ==> rest[i] == ps[i + 1] && rest[i - 1] == ps[i];
      OrderedSorted(rest);
      assert rest != [] ==> rest[0] == ps[1];
    }
  }

  /** What is erased is not in the text. */
  lemma {:induction false} PrintErased(t: Ty, depth: nat, env: TyConEnv)
    ensures Print(Erase(t, depth), depth, env) == Print(t, depth, env)
    decreases t, 1
  {
    if depth < MAX_FINGERPRINT_DEPTH {
      if t.Record? {
        PrintRecordErased(t, depth, env);
      } else if t.Fn? || t.App? {
        PrintCompoundErased(t, depth, env);
      } else if t.Union? || t.Inter? || t.Neg? || t.Recursive? {
        PrintWrapperErased(t, depth, env);
      }
    }
  }

  lemma {:induction false} PrintWrapperErased(t: Ty, depth: nat, env: TyConEnv)
    requires (t.Union? || t.Inter? || t.Neg? || t.Recursive?) && depth < MAX_FINGERPRINT_DEPTH
    ensures Print(Erase(t, depth), depth, env) == Print(t, depth, env)
    decreases t, 0
  {
    if t.Neg? {
      PrintErased(t.of, depth + 1, env);
    } else if t.Recursive? {
      PrintErased(t.body, depth + 1, env);
    } else {
      PrintAllErased(t.members, depth + 1, env);
    }
  }

  lemma {:induction false} PrintCompoundErased(t: Ty, depth: nat, env: TyConEnv)
    requires (t.Fn? || t.App?) && depth < MAX_FINGERPRINT_DEPTH
    ensures Print(Erase(t, depth), depth, env) == Print(t, depth, env)
    decreases t, 0
  {
    if t.Fn? {
      PrintAllErased(t.params, depth + 1, env);
      PrintErased(t.ret, depth + 1, env);
    } else {
      PrintErased(t.op, depth + 1, env);
      PrintErased(t.arg, depth + 1, env);
    }
  }

  lemma {:induction false} PrintRecordErased(t: Ty, depth: nat, env: TyConEnv)
    requires t.Record? && depth < MAX_FINGERPRINT_DEPTH
    ensures Print(Erase(t, depth), depth, env) == Print(t, depth, env)
    decreases t, 0
  {
    var ps := PrintFields(t.fields, depth + 1, env);
    PrintFieldsErased(t.fields, depth + 1, env);
    PrintInOrder(EraseFields(t.fields, depth + 1), depth + 1, env);
    SortOrdered(ps);
    OrderedSorted(SortFields(ps));
  }

  lemma {:induction false} PrintAllErased(ts: seq<Ty>, depth: nat, env: TyConEnv)
    ensures PrintAll(EraseAll(ts, depth), depth, env) == PrintAll(ts, depth, env)
    decreases ts, 0
  {
    if ts != [] {
      PrintErased(ts[0], depth, env);
      PrintAllErased(ts[1..], depth, env);
      assert EraseAll(ts, depth)[1..] == EraseAll(ts[1..], depth);
    }
  }

  lemma {:induction false} PrintFieldsErased(fs: seq<Field>, depth: nat, env: TyConEnv)
    ensures PrintFields(EraseFields(fs, depth), depth, env) == PrintFields(fs, depth, env)
    decreases fs, 0
  {
    if fs != [] {
      assert fs[0].ty < fs[0];
      PrintErased(fs[0].ty, depth, env);
      PrintFieldsErased(fs[1..], depth, env);
      assert EraseFields(fs, depth)[1..] == EraseFields(fs[1..], depth);
      assert PrintField(EraseField(fs[0], depth), depth, env) == PrintField(fs[0], depth, env);
    }
  }

  // ---------- types whose text can be read back ----------

  /** Neither the separator after a key nor, in front, the one after the fields. */
  predicate CodedKey(key: Key) {
    Without(':', KeyText(key)) && (KeyText(key) != [] ==> KeyText(key)[0] != '|')
  }

  lemma IntKeyCoded(n: int)
    ensures CodedKey(IntKey(n))
  {
    assert n >= 0 ==> Decimal(n) == Digits(n);
    assert n < 0 ==> Decimal(n) == "-" + Digits(-n);
  }

  /** No text in `t` that could be mistaken for another part of the fingerprint. */
  predicate Coded(t: Ty)
    decreases t
  {
    match t
    case StrLit(s) => Without(')', s)
    case Var(name) => Without(')', name)
    case Recursive(body) => Coded(body)
    case Union(members) => forall m :: m in members ==> Coded(m)
    case Inter(members) => forall m :: m in members ==> Coded(m)
    case Neg(of) => Coded(of)
    case Fn(params, _, ret) => Coded(ret) && forall p :: p in params ==> Coded(p)
    case Record(fields, _) => forall f :: f in fields ==> CodedField(f)
    case App(op, arg) => Coded(op) && Coded(arg)
    case _ => true
  }

  predicate CodedField(f: Field) decreases f { CodedKey(f.key) && Coded(f.ty) }

  /** The environment calls the constructor by its own name, or does not know it. */
  predicate Named(typeId: nat, ctor: nat, name: string, env: TyConEnv) {
    CtorName(typeId, ctor, env) == name || CtorName(typeId, ctor, env) == CtorName(typeId, ctor, map[])
  }

  /** The names of the standard library, or none. */
  predicate StandardNames(env: TyConEnv) {
    && Named(TYPE_ID_TYPE_VALUE, 17, "Unknown", env) && Named(TYPE_ID_TYPE_VALUE, 18, "Never", env)
    && Named(TYPE_ID_TYPE_VALUE, 19, "Top", env) && Named(TYPE_ID_TYPE_VALUE, 21, "Error", env)
    && Named(TYPE_ID_ROW_TAIL, 1, "Var", env)
  }

  predicate AllCoded(ts: seq<Ty>) { forall t :: t in ts ==> Coded(t) }

  // ---------- reading a fingerprint back ----------

  lemma StripPrefix(p: string, x: string, y: string)
    requires p + x == p + y
    ensures x == y
  {
    assert (p + x)[|p|..] == x && (p + y)[|p|..] == y;
  }

  predicate Without(c: char, s: string) {
    forall i :: 0 <= i < |s| ==> s[i] != c
  }

  function IndexOf(c: char, s: string): nat {
    if s == [] || s[0] == c then 0 else 1 + IndexOf(c, s[1..])
  }

  lemma {:induction false} FirstTerminator(c: char, a: string, x: string)
    requires Without(c, a)
    ensures IndexOf(c, a + [c] + x) == |a|
  {
    if a == [] {
      assert (a + [c] + x)[0] == c;
    } else {
      FirstTerminator(c, a[1..], x);
      assert (a + [c] + x)[1..] == a[1..] + [c] + x;
    }
  }

  /** Text up to a terminator that does not occur in it. */
  lemma UpToTerminator(c: char, a: string, b: string, x: string, y: string)
    requires Without(c, a) && Without(c, b) && a + [c] + x == b + [c] + y
    ensures a == b && x == y
  {
    FirstTerminator(c, a, x);
    FirstTerminator(c, b, y);
    var l, r := a + [c] + x, b + [c] + y;
    assert l[..|a|] == a && r[..|b|] == b;
    assert l[|a| + 1..] == x && r[|b| + 1..] == y;
  }

  lemma Assoc(p: string, s: string, t: string, x: string)
    ensures (p + s + t) + x == p + (s + (t + x))
  {
  }

  lemma DecimalField(m: int, n: int, x: string, y: string)
    requires Decimal(m) + ")" + x == Decimal(n) + ")" + y
    ensures m == n && x == y
  {
    UpToTerminator(')', Decimal(m), Decimal(n), x, y);
    DecimalInjective(m, n);
  }

  function CtorCode(t: Ty, env: TyConEnv): nat {
    match t
    case Union(_) => 1
    case App(_, _) => 2
    case Nominal(_) => 3
    case Neg(_) => 4
    case IntLit(_) => 5
    case Inter(_) => 6
    case FloatLit(_) => 7
    case Fn(_, _, _) => 8
    case RecursiveRef(_) => 9
    case Recursive(_) => 10
    case Record(_, _) => 11
    case StrLit(_) => 12
    case Var(_) => 13
    case Unknown => if CtorName(TYPE_ID_TYPE_VALUE, 17, env) == "Unknown" then 14 else 18
    case Never => if CtorName(TYPE_ID_TYPE_VALUE, 18, env) == "Never" then 15 else 18
    case Top => if CtorName(TYPE_ID_TYPE_VALUE, 19, env) == "Top" then 16 else 18
    case Error => if CtorName(TYPE_ID_TYPE_VALUE, 21, env) == "Error" then 17 else 18
  }

  /** The constructor, read from the first characters; 18 for one the environment does not name. */
  function HeadCode(s: string): nat
    requires |s| >= 3
  {
    if s[0] == 'U' then (if s[1] == 'n' then 14 else 1)
    else if s[0] == 'A' then 2
    else if s[0] == 'N' then (if s[1] == 'o' then 3 else if s[2] == 'v' then 15 else 4)
    else if s[0] == 'I' then (if s[1] == 'n' then 5 else 6)
    else if s[0] == 'F' then (if s[1] == 'l' then 7 else 8)
    else if s[0] == 'S' then 12
    else if s[0] == 'V' then 13
    else if s[0] == 'T' then 16
    else if s[0] == 'E' then 17
    else if s[0] == 'C' then 18
    else if s[2] == 'f' then 9
    else if |s| > 3 && s[3] == 'o' then 11 else 10
  }

  /** A text that begins with a constructor. */
  predicate Headed(s: string, code: nat) {
    |s| >= 3 && HeadCode(s) == code && s[0] !in {')', ','} && (|s| == 3 ==> s[0] in {'U', 'I', 'T'})
  }

  lemma LeafHead(t: Ty, depth: nat, env: TyConEnv)
    requires t.Nominal? || t.IntLit? || t.FloatLit? || t.RecursiveRef? || t.StrLit? || t.Var?
    requires depth < MAX_FINGERPRINT_DEPTH
    ensures Headed(Print(t, depth, env), CtorCode(t, env))
  {
  }

  predicate IsUnit(t: Ty) { t.Unknown? || t.Never? || t.Top? || t.Error? }

  /** The number of a unit constructor. */
  function UnitIndex(t: Ty): nat
    requires IsUnit(t)
  {
    if t.Unknown? then 17 else if t.Never? then 18 else if t.Top? then 19 else 21
  }

  lemma NumberHead(typeId: nat, ctor: nat)
    ensures Headed(CtorName(typeId, ctor, map[]), 18)
  {
    var s := CtorName(typeId, ctor, map[]);
    assert s == "Ctor(" + (Decimal(typeId) + "." + Decimal(ctor) + ")");
    assert s[0] == 'C';
  }

  lemma UnitHead(t: Ty, depth: nat, env: TyConEnv)
    requires IsUnit(t) && StandardNames(env) && depth < MAX_FINGERPRINT_DEPTH
    ensures Headed(Print(t, depth, env), CtorCode(t, env))
  {
    NumberHead(TYPE_ID_TYPE_VALUE, UnitIndex(t));
    assert Print(t, depth, env) == CtorName(TYPE_ID_TYPE_VALUE, UnitIndex(t), env);
  }

  lemma WrapperHead(t: Ty, depth: nat, env: TyConEnv)
    requires t.Recursive? || t.Neg? || t.Union? || t.Inter?
    requires depth < MAX_FINGERPRINT_DEPTH
    ensures Headed(Print(t, depth, env), CtorCode(t, env))
  {
  }

  lemma CompoundHead(t: Ty, depth: nat, env: TyConEnv)
    requires t.Fn? || t.App? || t.Record?
    requires depth < MAX_FINGERPRINT_DEPTH
    ensures Headed(Print(t, depth, env), CtorCode(t, env))
  {
  }

  lemma PrintHead(t: Ty, depth: nat, env: TyConEnv)
    requires StandardNames(env) && depth < MAX_FINGERPRINT_DEPTH
    ensures Headed(Print(t, depth, env), CtorCode(t, env))
  {
    if IsUnit(t) {
      UnitHead(t, depth, env);
    } else if t.Recursive? || t.Neg? || t.Union? || t.Inter? {
      WrapperHead(t, depth, env);
    } else if t.Fn? || t.App? || t.Record? {
      CompoundHead(t, depth, env);
    } else {
      LeafHead(t, depth, env);
    }
  }

  lemma HeadOfPrefix(s: string, x: string)
    requires |s| >= 3 && (|s| == 3 ==> s[0] in {'U', 'I', 'T'})
    ensures HeadCode(s + x) == HeadCode(s)
  {
    assert (s + x)[0] == s[0] && (s + x)[1] == s[1] && (s + x)[2] == s[2];
    if |s| > 3 { assert (s + x)[3] == s[3]; }
  }

  /** No fingerprint starts like the end of a list. */
  lemma StartsNoEnd(t: Ty, depth: nat, env: TyConEnv)
    requires StandardNames(env)
    ensures Print(t, depth, env) != [] && Print(t, depth, env)[0] !in {')', ','}
  {
    if depth < MAX_FINGERPRINT_DEPTH { PrintHead(t, depth, env); }
  }

  /** The fingerprint is a prefix code for what it keeps: it can be read off the front of any text. */
  lemma {:induction false} PrintPrefix(a: Ty, b: Ty, depth: nat, env: TyConEnv, x: string, y: string)
    requires StandardNames(env) && Coded(a) && Coded(b)
    requires Print(a, depth, env) + x == Print(b, depth, env) + y
    ensures Erase(a, depth) == Erase(b, depth) && x == y
    decreases SizeOf(a), 1
  {
    if depth >= MAX_FINGERPRINT_DEPTH {
      StripPrefix(CUT, x, y);
    } else {
      PrintHead(a, depth, env);
      PrintHead(b, depth, env);
      HeadOfPrefix(Print(a, depth, env), x);
      HeadOfPrefix(Print(b, depth, env), y);
      SameCtorPrefix(a, b, depth, env, x, y);
    }
  }

  lemma {:induction false} SameCtorPrefix(a: Ty, b: Ty, depth: nat, env: TyConEnv, x: string, y: string)
    requires StandardNames(env) && Coded(a) && Coded(b) && CtorCode(a, env) == CtorCode(b, env) && depth < MAX_FINGERPRINT_DEPTH
    requires Print(a, depth, env) + x == Print(b, depth, env) + y
    ensures Erase(a, depth) == Erase(b, depth) && x == y
    decreases SizeOf(a), 0, 1
  {
    if a.Recursive? || a.Neg? {
      WrapperPrefix(a, b, depth, env, x, y);
    } else if a.Union? || a.Inter? {
      BooleanPrefix(a, b, depth, env, x, y);
    } else if a.Fn? || a.App? || a.Record? {
      CompoundPrefix(a, b, depth, env, x, y);
    } else {
      LiteralPrefix(a, b, depth, env, x, y);
    }
  }

  lemma LiteralPrefix(a: Ty, b: Ty, depth: nat, env: TyConEnv, x: string, y: string)
    requires StandardNames(env) && Coded(a) && Coded(b) && CtorCode(a, env) == CtorCode(b, env) && depth < MAX_FINGERPRINT_DEPTH
    requires a.Nominal? || a.IntLit? || a.FloatLit? || a.RecursiveRef? || a.StrLit? || a.Var? || IsUnit(a)
    requires Print(a, depth, env) + x == Print(b, depth, env) + y
    ensures a == b && x == y
  {
    match a
    case Nominal(i) => LeafPrefix("Nominal(", i, b.id, x, y);
    case IntLit(n) => LeafPrefix("IntLit(", n, b.n, x, y);
    case FloatLit(bits) => LeafPrefix("FloatLit(", bits, b.bits, x, y);
    case RecursiveRef(i) => LeafPrefix("Ref(", i, b.index, x, y);
    case StrLit(s) => TextPrefix("StrLit(", s, b.s, x, y);
    case Var(name) => TextPrefix("Var(", name, b.name, x, y);
    case Unknown | Never | Top | Error => UnitPrefix(a, b, depth, env, x, y);
  }

  lemma UnitPrefix(a: Ty, b: Ty, depth: nat, env: TyConEnv, x: string, y: string)
    requires StandardNames(env) && IsUnit(a) && CtorCode(a, env) == CtorCode(b, env) && depth < MAX_FINGERPRINT_DEPTH
    requires Print(a, depth, env) + x == Print(b, depth, env) + y
    ensures a == b && x == y
  {
    if CtorCode(a, env) == 18 {
      var tag := "Ctor(" + Decimal(TYPE_ID_TYPE_VALUE) + ".";
      assert Print(a, depth, env) == tag + Decimal(UnitIndex(a)) + ")";
      assert Print(b, depth, env) == tag + Decimal(UnitIndex(b)) + ")";
      LeafPrefix(tag, UnitIndex(a), UnitIndex(b), x, y);
    } else {
      StripPrefix(Print(a, depth, env), x, y);
    }
  }

  lemma {:induction false} CompoundPrefix(a: Ty, b: Ty, depth: nat, env: TyConEnv, x: string, y: string)
    requires StandardNames(env) && Coded(a) && Coded(b) && CtorCode(a, env) == CtorCode(b, env) && depth < MAX_FINGERPRINT_DEPTH
    requires a.Fn? || a.App? || a.Record?
    requires Print(a, depth, env) + x == Print(b, depth, env) + y
    ensures Erase(a, depth) == Erase(b, depth) && x == y
    decreases SizeOf(a), 0, 0
  {
    match a
    case Fn(params, _, ret) => FnPrefix(params, ret, b.params, b.ret, depth + 1, env, x, y);
    case App(op, arg) => AppPrefix(op, arg, b.op, b.arg, depth + 1, env, x, y);
    case Record(_, _) => RecordPrefix(a, b, depth, env, x, y);
  }

  lemma {:induction false} WrapperPrefix(a: Ty, b: Ty, depth: nat, env: TyConEnv, x: string, y: string)
    requires StandardNames(env) && Coded(a) && Coded(b) && CtorCode(a, env) == CtorCode(b, env) && depth < MAX_FINGERPRINT_DEPTH
    requires a.Recursive? || a.Neg?
    requires Print(a, depth, env) + x == Print(b, depth, env) + y
    ensures Erase(a, depth) == Erase(b, depth) && x == y
    decreases SizeOf(a), 0, 0
  {
    if a.Neg? {
      WrappedPrefix("Neg(", a.of, b.of, depth + 1, env, x, y);
    } else {
      WrappedPrefix("Rec(", a.body, b.body, depth + 1, env, x, y);
    }
  }

  lemma {:induction false} BooleanPrefix(a: Ty, b: Ty, depth: nat, env: TyConEnv, x: string, y: string)
    requires StandardNames(env) && Coded(a) && Coded(b) && CtorCode(a, env) == CtorCode(b, env) && depth < MAX_FINGERPRINT_DEPTH
    requires a.Union? || a.Inter?
    requires Print(a, depth, env) + x == Print(b, depth, env) + y
    ensures Erase(a, depth) == Erase(b, depth) && x == y
    decreases SizeOf(a), 0, 0
  {
    if a.Union? {
      MembersPrefix("U(", a.members, b.members, depth + 1, env, x, y);
    } else {
      MembersPrefix("I(", a.members, b.members, depth + 1, env, x, y);
    }
  }

  /** Text between a tag and a closing parenthesis. */
  lemma TextPrefix(tag: string, s: string, t: string, x: string, y: string)
    requires Without(')', s) && Without(')', t)
    requires tag + s + ")" + x == tag + t + ")" + y
    ensures s == t && x == y
  {
    Assoc(tag, s, ")", x);
    Assoc(tag, t, ")", y);
    StripPrefix(tag, s + (")" + x), t + (")" + y));
    assert s + ")" + x == s + (")" + x) && t + ")" + y == t + (")" + y);
    UpToTerminator(')', s, t, x, y);
  }

  lemma LeafPrefix(tag: string, m: int, n: int, x: string, y: string)
    requires tag + Decimal(m) + ")" + x == tag + Decimal(n) + ")" + y
    ensures m == n && x == y
  {
    Assoc(tag, Decimal(m), ")", x);
    Assoc(tag, Decimal(n), ")", y);
    StripPrefix(tag, Decimal(m) + (")" + x), Decimal(n) + (")" + y));
    assert Decimal(m) + ")" + x == Decimal(m) + (")" + x) && Decimal(n) + ")" + y == Decimal(n) + (")" + y);
    DecimalField(m, n, x, y);
  }

  lemma {:induction false} WrappedPrefix(tag: string, p: Ty, q: Ty, depth: nat, env: TyConEnv, x: string, y: string)
    requires StandardNames(env) && Coded(p) && Coded(q)
    requires tag + Print(p, depth, env) + ")" + x == tag + Print(q, depth, env) + ")" + y
    ensures Erase(p, depth) == Erase(q, depth) && x == y
    decreases SizeOf(p), 2
  {
    var s, t := Print(p, depth, env), Print(q, depth, env);
    Assoc(tag, s, ")", x);
    Assoc(tag, t, ")", y);
    StripPrefix(tag, s + (")" + x), t + (")" + y));
    PrintPrefix(p, q, depth, env, ")" + x, ")" + y);
    StripPrefix(")", x, y);
  }

  lemma {:induction false} MembersPrefix(tag: string, ps: seq<Ty>, qs: seq<Ty>, depth: nat, env: TyConEnv, x: string, y: string)
    requires StandardNames(env) && AllCoded(ps) && AllCoded(qs)
    requires tag + PrintAll(ps, depth, env) + ")" + x == tag + PrintAll(qs, depth, env) + ")" + y
    ensures EraseAll(ps, depth) == EraseAll(qs, depth) && x == y
    decreases SizeAll(ps), 3
  {
    var s, t := PrintAll(ps, depth, env), PrintAll(qs, depth, env);
    Assoc(tag, s, ")", x);
    Assoc(tag, t, ")", y);
    StripPrefix(tag, s + (")" + x), t + (")" + y));
    PrintAllPrefix(ps, qs, depth, env, x, y);
  }

  /** What follows the first element of a list: a comma and the rest, or the closing text. */
  function AfterFirst(ts: seq<Ty>, depth: nat, env: TyConEnv, x: string): string
    requires ts != []
  {
    if |ts| == 1 then ")" + x else "," + (PrintAll(ts[1..], depth, env) + (")" + x))
  }

  lemma SplitFirst(ts: seq<Ty>, depth: nat, env: TyConEnv, x: string)
    requires ts != []
    ensures PrintAll(ts, depth, env) + (")" + x) == Print(ts[0], depth, env) + AfterFirst(ts, depth, env, x)
  {
  }

  lemma {:induction false} PrintAllPrefix(ps: seq<Ty>, qs: seq<Ty>, depth: nat, env: TyConEnv, x: string, y: string)
    requires StandardNames(env) && AllCoded(ps) && AllCoded(qs)
    requires PrintAll(ps, depth, env) + (")" + x) == PrintAll(qs, depth, env) + (")" + y)
    ensures EraseAll(ps, depth) == EraseAll(qs, depth) && x == y
    decreases SizeAll(ps), 2
  {
    if ps == [] && qs == [] {
      StripPrefix(PrintAll([], depth, env), ")" + x, ")" + y);
      StripPrefix(")", x, y);
    } else if ps == [] {
      assert qs[0] in qs;
      NotClosing(qs, depth, env, x, y);
    } else if qs == [] {
      assert ps[0] in ps;
      NotClosing(ps, depth, env, y, x);
    } else {
      assert ps[0] in ps && qs[0] in qs;
      SplitFirst(ps, depth, env, x);
      SplitFirst(qs, depth, env, y);
      assert AfterFirst(ps, depth, env, x)[0] == (if |ps| == 1 then ')' else ',');
      assert AfterFirst(qs, depth, env, y)[0] == (if |qs| == 1 then ')' else ',');
      PrintPrefix(ps[0], qs[0], depth, env, AfterFirst(ps, depth, env, x), AfterFirst(qs, depth, env, y));
      if |ps| == 1 && |qs| == 1 {
        StripPrefix(")", x, y);
      } else if |ps| > 1 && |qs| > 1 {
        StripPrefix(",", PrintAll(ps[1..], depth, env) + (")" + x), PrintAll(qs[1..], depth, env) + (")" + y));
        PrintAllPrefix(ps[1..], qs[1..], depth, env, x, y);
      }
    }
  }

  /** A non-empty list does not start with the closing parenthesis. */
  lemma NotClosing(qs: seq<Ty>, depth: nat, env: TyConEnv, x: string, y: string)
    requires StandardNames(env) && qs != []
    ensures PrintAll([], depth, env) + (")" + x) != PrintAll(qs, depth, env) + (")" + y)
  {
    SplitFirst(qs, depth, env, y);
    StartsNoEnd(qs[0], depth, env);
    assert (PrintAll([], depth, env) + (")" + x))[0] == ')';
    assert (Print(qs[0], depth, env) + AfterFirst(qs, depth, env, y))[0] == Print(qs[0], depth, env)[0];
  }

  lemma {:induction false} FnPrefix(ps: seq<Ty>, p: Ty, qs: seq<Ty>, q: Ty, depth: nat, env: TyConEnv, x: string, y: string)
    requires StandardNames(env) && AllCoded(ps) && AllCoded(qs) && Coded(p) && Coded(q)
    requires "Fn(" + PrintAll(ps, depth, env) + ")->" + Print(p, depth, env) + x
          == "Fn(" + PrintAll(qs, depth, env) + ")->" + Print(q, depth, env) + y
    ensures EraseAll(ps, depth) == EraseAll(qs, depth) && Erase(p, depth) == Erase(q, depth) && x == y
    decreases SizeAll(ps) + SizeOf(p), 3
  {
    var s, t := Print(p, depth, env) + x, Print(q, depth, env) + y;
    FnText(PrintAll(ps, depth, env), Print(p, depth, env), x);
    FnText(PrintAll(qs, depth, env), Print(q, depth, env), y);
    StripPrefix("Fn(", PrintAll(ps, depth, env) + (")" + ("->" + s)), PrintAll(qs, depth, env) + (")" + ("->" + t)));
    PrintAllPrefix(ps, qs, depth, env, "->" + s, "->" + t);
    StripPrefix("->", s, t);
    PrintPrefix(p, q, depth, env, x, y);
  }

  lemma FnText(s: string, t: string, x: string)
    ensures "Fn(" + s + ")->" + t + x == "Fn(" + (s + (")" + ("->" + (t + x))))
  {
    assert ")->" == ")" + "->";
    assert "Fn(" + s + (")" + "->") + t + x == "Fn(" + (s + (")" + ("->" + (t + x))));
  }

  lemma {:induction false} AppPrefix(p: Ty, p': Ty, q: Ty, q': Ty, depth: nat, env: TyConEnv, x: string, y: string)
    requires StandardNames(env) && Coded(p) && Coded(p') && Coded(q) && Coded(q')
    requires "App(" + Print(p, depth, env) + "," + Print(p', depth, env) + ")" + x
          == "App(" + Print(q, depth, env) + "," + Print(q', depth, env) + ")" + y
    ensures Erase(p, depth) == Erase(q, depth) && Erase(p', depth) == Erase(q', depth) && x == y
    decreases SizeOf(p) + SizeOf(p'), 3
  {
    var s, t := Print(p', depth, env) + (")" + x), Print(q', depth, env) + (")" + y);
    AppText(Print(p, depth, env), Print(p', depth, env), x);
    AppText(Print(q, depth, env), Print(q', depth, env), y);
    StripPrefix("App(", Print(p, depth, env) + ("," + s), Print(q, depth, env) + ("," + t));
    PrintPrefix(p, q, depth, env, "," + s, "," + t);
    StripPrefix(",", s, t);
    PrintPrefix(p', q', depth, env, ")" + x, ")" + y);
    StripPrefix(")", x, y);
  }

  lemma AppText(s: string, t: string, x: string)
    ensures "App(" + s + "," + t + ")" + x == "App(" + (s + ("," + (t + (")" + x))))
  {
  }

  // ---------- records ----------

  /** What follows a field's type: a comma and the other fields, or the tail. */
  function AfterField(fs: seq<Field>, depth: nat, env: TyConEnv, x: string): string
    requires fs != []
  {
    if |fs| == 1 then "|" + x else "," + (JoinFields(PrintFields(fs[1..], depth, env)) + ("|" + x))
  }

  lemma SplitField(fs: seq<Field>, depth: nat, env: TyConEnv, x: string)
    requires fs != []
    ensures JoinFields(PrintFields(fs, depth, env)) + ("|" + x)
         == KeyText(fs[0].key) + [':'] + (Print(fs[0].ty, depth, env) + AfterField(fs, depth, env, x))
  {
    var ps := PrintFields(fs, depth, env);
    assert ps[1..] == PrintFields(fs[1..], depth, env);
    var k, p := KeyText(fs[0].key), Print(fs[0].ty, depth, env);
    assert ps[0] == PrintField(fs[0], depth, env) == (k, p);
    if |fs| == 1 {
      assert JoinFields(ps) == k + ":" + p;
      FieldText(k, p, x);
    } else {
      assert JoinFields(ps) == k + ":" + p + "," + JoinFields(ps[1..]);
      FieldsText(k, p, JoinFields(ps[1..]), x);
    }
  }

  lemma FieldText(k: string, p: string, x: string)
    ensures k + ":" + p + ("|" + x) == k + [':'] + (p + ("|" + x))
  {
  }

  lemma FieldsText(k: string, p: string, rest: string, x: string)
    ensures k + ":" + p + "," + rest + ("|" + x) == k + [':'] + (p + ("," + (rest + ("|" + x))))
  {
  }

  lemma FieldStart(fs: seq<Field>, depth: nat, env: TyConEnv, x: string)
    requires CodedFields(fs) && fs != []
    ensures (JoinFields(PrintFields(fs, depth, env)) + ("|" + x))[0] != '|'
  {
    SplitField(fs, depth, env, x);
    assert fs[0] in fs && CodedField(fs[0]);
    var k := KeyText(fs[0].key);
    if k != [] { assert k[0] != '|'; }
  }

  predicate CodedFields(fs: seq<Field>) { forall f :: f in fs ==> CodedField(f) }

  lemma {:induction false} FieldsPrefix(fs: seq<Field>, gs: seq<Field>, depth: nat, env: TyConEnv, x: string, y: string)
    requires StandardNames(env) && CodedFields(fs) && CodedFields(gs)
    requires JoinFields(PrintFields(fs, depth, env)) + ("|" + x) == JoinFields(PrintFields(gs, depth, env)) + ("|" + y)
    ensures EraseFields(fs, depth) == EraseFields(gs, depth) && x == y
    decreases SizeFields(fs), 3
  {
    if fs == [] && gs == [] {
      StripPrefix(JoinFields(PrintFields([], depth, env)), "|" + x, "|" + y);
      StripPrefix("|", x, y);
    } else if fs == [] {
      FieldStart(gs, depth, env, y);
    } else if gs == [] {
      FieldStart(fs, depth, env, x);
    } else {
      FirstFieldPrefix(fs, gs, depth, env, x, y);
    }
  }

  lemma {:induction false} FirstFieldPrefix(fs: seq<Field>, gs: seq<Field>, depth: nat, env: TyConEnv, x: string, y: string)
    requires StandardNames(env) && CodedFields(fs) && CodedFields(gs) && fs != [] && gs != []
    requires JoinFields(PrintFields(fs, depth, env)) + ("|" + x) == JoinFields(PrintFields(gs, depth, env)) + ("|" + y)
    ensures EraseFields(fs, depth) == EraseFields(gs, depth) && x == y
    decreases SizeFields(fs), 2
  {
    assert fs[0] in fs && gs[0] in gs && CodedField(fs[0]) && CodedField(gs[0]);
    SplitField(fs, depth, env, x);
    SplitField(gs, depth, env, y);
    var u, v := AfterField(fs, depth, env, x), AfterField(gs, depth, env, y);
    var k, l := KeyText(fs[0].key), KeyText(gs[0].key);
    var p, q := Print(fs[0].ty, depth, env) + u, Print(gs[0].ty, depth, env) + v;
    assert Without(':', k) && Without(':', l);
    assert k + [':'] + p == l + [':'] + q;
    UpToTerminator(':', k, l, p, q);
    FieldSizes(fs);
    PrintPrefix(fs[0].ty, gs[0].ty, depth, env, u, v);
    assert u[0] == (if |fs| == 1 then '|' else ',') && v[0] == (if |gs| == 1 then '|' else ',');
    if |fs| == 1 {
      StripPrefix("|", x, y);
      assert fs[1..] == [] && gs[1..] == [];
    } else {
      StripPrefix(",", JoinFields(PrintFields(fs[1..], depth, env)) + ("|" + x),
                  JoinFields(PrintFields(gs[1..], depth, env)) + ("|" + y));
      FieldsPrefix(fs[1..], gs[1..], depth, env, x, y);
    }
  }

  lemma FieldSizes(fs: seq<Field>)
    requires fs != []
    ensures SizeOf(fs[0].ty) <= SizeFields(fs) && SizeFields(fs[1..]) < SizeFields(fs)
  {
    assert SizeField(fs[0]) == SizeOf(fs[0].ty);
  }

  lemma TailPrefix(s: Tail, t: Tail, depth: nat, env: TyConEnv, x: string, y: string)
    requires StandardNames(env)
    requires PrintTail(s, depth, env) + ("}" + x) == PrintTail(t, depth, env) + ("}" + y)
    ensures EraseTail(s, depth) == EraseTail(t, depth) && x == y
  {
    var p, q := PrintTail(s, depth, env), PrintTail(t, depth, env);
    assert (p + ("}" + x))[0] == p[0] && (q + ("}" + y))[0] == q[0];
    if EraseTail(s, depth) == EraseTail(t, depth) {
      StripPrefix(p, "}" + x, "}" + y);
      StripPrefix("}", x, y);
    } else {
      TailsApart(s, t, depth, env, x, y);
    }
  }

  /** The name of a row variable ends where that of a uniform tail goes on. */
  lemma TailsApart(s: Tail, t: Tail, depth: nat, env: TyConEnv, x: string, y: string)
    requires StandardNames(env) && EraseTail(s, depth) != EraseTail(t, depth)
    ensures PrintTail(s, depth, env) + ("}" + x) != PrintTail(t, depth, env) + ("}" + y)
  {
    var l, r := PrintTail(s, depth, env) + ("}" + x), PrintTail(t, depth, env) + ("}" + y);
    assert l[0] == PrintTail(s, depth, env)[0] && r[0] == PrintTail(t, depth, env)[0];
    if s.RowVar? && t.Uniform? {
      assert l[0] == 'V' ==> l[3] == '}' && r[3] == '(';
    } else if s.Uniform? && t.RowVar? {
      assert r[0] == 'V' ==> r[3] == '}' && l[3] == '(';
    }
  }

  lemma RecordText(s: string, t: string, x: string)
    ensures "Record{" + s + "|" + t + "}" + x == "Record{" + (s + ("|" + (t + ("}" + x))))
  {
  }

  lemma {:induction false} RecordPrefix(a: Ty, b: Ty, depth: nat, env: TyConEnv, x: string, y: string)
    requires StandardNames(env) && Coded(a) && Coded(b) && a.Record? && b.Record? && depth < MAX_FINGERPRINT_DEPTH
    requires Print(a, depth, env) + x == Print(b, depth, env) + y
    ensures Erase(a, depth) == Erase(b, depth) && x == y
    decreases SizeFields(a.fields), 4
  {
    var fs, gs := InOrder(a.fields), InOrder(b.fields);
    PrintInOrder(a.fields, depth + 1, env);
    PrintInOrder(b.fields, depth + 1, env);
    InOrderParts(a.fields);
    InOrderParts(b.fields);
    var s, t := JoinFields(PrintFields(fs, depth + 1, env)), JoinFields(PrintFields(gs, depth + 1, env));
    var p, q := PrintTail(a.tail, depth + 1, env), PrintTail(b.tail, depth + 1, env);
    RecordText(s, p, x);
    RecordText(t, q, y);
    StripPrefix("Record{", s + ("|" + (p + ("}" + x))), t + ("|" + (q + ("}" + y))));
    FieldsPrefix(fs, gs, depth + 1, env, p + ("}" + x), q + ("}" + y));
    TailPrefix(a.tail, b.tail, depth + 1, env, x, y);
    EraseInOrder(a.fields, depth + 1);
    EraseInOrder(b.fields, depth + 1);
  }

  // ---------- what equal keys mean ----------

  /** Coded types have one key exactly when they are equal after erasing what the text leaves out. */
  lemma SameKeyIff(a: Ty, b: Ty, env: TyConEnv)
    requires StandardNames(env) && Coded(a) && Coded(b)
    ensures SourceCtx(env).key(a) == SourceCtx(env).key(b) <==> Erase(a, 0) == Erase(b, 0)
  {
    PrintErased(a, 0, env);
    PrintErased(b, 0, env);
    if Print(a, 0, env) == Print(b, 0, env) {
      assert Print(a, 0, env) + "" == Print(b, 0, env) + "";
      PrintPrefix(a, b, 0, env, "", "");
    }
  }

  /** Types that lose nothing. */
  predicate Printable(t: Ty) {
    Coded(t) && Erase(t, 0) == t
  }

  /** Among them, equal keys mean equal types: a hypothesis hit is a hit on the same pair. */
  lemma FingerprintInjective(a: Ty, b: Ty, env: TyConEnv)
    requires StandardNames(env) && Printable(a) && Printable(b) && SourceCtx(env).key(a) == SourceCtx(env).key(b)
    ensures a == b
  {
    SameKeyIff(a, b, env);
  }

  // ---------- outside it ----------

  /** Records that differ in the value type of a uniform tail share a fingerprint. */
  lemma UniformTailsCollide(fields: seq<Field>, s: Ty, t: Ty, env: TyConEnv)
    ensures SourceCtx(env).key(Record(fields, Uniform(s))) == SourceCtx(env).key(Record(fields, Uniform(t)))
  {
  }

  /** So do functions that differ only in being variadic. */
  lemma VariadicFlagCollides(params: seq<Ty>, ret: Ty, env: TyConEnv)
    ensures SourceCtx(env).key(Fn(params, true, ret)) == SourceCtx(env).key(Fn(params, false, ret))
  {
  }

  function Negs(n: nat, t: Ty): Ty {
    if n == 0 then t else Neg(Negs(n - 1, t))
  }

  /** And types that differ only below nesting depth 64. */
  lemma {:induction false} DeepTypesCollide(n: nat, depth: nat, s: Ty, t: Ty, env: TyConEnv)
    requires depth + n >= MAX_FINGERPRINT_DEPTH
    ensures Print(Negs(n, s), depth, env) == Print(Negs(n, t), depth, env)
    decreases n
  {
    if n > 0 && depth < MAX_FINGERPRINT_DEPTH {
      DeepTypesCollide(n - 1, depth + 1, s, t, env);
    }
  }

  // ---------- text that can be misread ----------

  /** A string literal may contain what separates members. */
  lemma StringPayloadsCollide(a: string, b: string, env: TyConEnv)
    ensures SourceCtx(env).key(Union([StrLit(a), StrLit(b)])) == SourceCtx(env).key(Union([StrLit(a + "),StrLit(" + b)]))
  {
    MembersText(a, b, env);
  }

  lemma MembersText(a: string, b: string, env: TyConEnv)
    ensures PrintAll([StrLit(a), StrLit(b)], 1, env) == PrintAll([StrLit(a + "),StrLit(" + b)], 1, env)
  {
    var two := [StrLit(a), StrLit(b)];
    assert two[1..] == [StrLit(b)] && PrintAll([StrLit(b)], 1, env) == "StrLit(" + b + ")";
    assert Print(StrLit(a), 1, env) == "StrLit(" + a + ")";
    assert PrintAll(two, 1, env) == "StrLit(" + a + ")" + "," + ("StrLit(" + b + ")");
    assert "),StrLit(" == ")" + "," + "StrLit(";
    assert "StrLit(" + (a + "),StrLit(" + b) + ")" == "StrLit(" + a + ")" + "," + ("StrLit(" + b + ")");
  }

  /** An integer key prints like the string of its digits. */
  lemma IntegerKeysCollide(n: int, t: Ty, tail: Tail, env: TyConEnv)
    ensures SourceCtx(env).key(Record([Field(IntKey(n), t)], tail))
         == SourceCtx(env).key(Record([Field(StrKey(Decimal(n)), t)], tail))
  {
    assert PrintFields([Field(IntKey(n), t)], 1, env) == PrintFields([Field(StrKey(Decimal(n)), t)], 1, env);
  }
}
