/** The type values the subtype checker works on, and the context it reads. */
module Types {
  import opened Wrappers

  /** A record key: field dictionaries are keyed by strings or by integers. */
  datatype Key = StrKey(name: string) | IntKey(index: int)

  datatype Field = Field(key: Key, ty: Ty)

  /** A record's row tail.  `Absent` is a record payload with no tail entry at all,
      which the checker does not treat like `Closed` on the right of `<:`. */
  datatype Tail = Absent | Closed | RowVar(name: string) | Uniform(valueType: Ty)

  datatype Ty =
    | Top
    | Never
    | Unknown
    | Error
    | Var(name: string)
    | Nominal(id: nat)
    | IntLit(n: int)
    | StrLit(s: string)
    | FloatLit(bits: nat)  // the bit pattern: literals are compared NaN-safely
    | Fn(params: seq<Ty>, variadic: bool, ret: Ty)
    | Record(fields: seq<Field>, tail: Tail)
    | App(op: Ty, arg: Ty)
    | Union(members: seq<Ty>)
    | Inter(members: seq<Ty>)
    | Neg(of: Ty)
    | Recursive(body: Ty)
    | RecursiveRef(index: nat)  // de Bruijn index, 0 is the innermost binder

  datatype Variance = Covariant | Contravariant | Invariant | Phantom

  /** What the checker reads of a declared type constructor. */
  datatype TyCon = TyCon(constructors: seq<string>, body: Ty, variance: seq<Variance>)

  type TyConEnv = map<nat, TyCon>

  /** The checker's read-only context.  The two numeric limits and the hypothesis key are
      fields so that theorems can speak about every choice of them; `SourceCtx`
      (Fingerprint.dfy) holds the values the program uses. */
  datatype Ctx = Ctx(env: TyConEnv, key: Ty -> string, limit: nat, cap: nat)

  const TYPE_ID_INT: nat := 1
  const TYPE_ID_FLOAT: nat := 3
  const TYPE_ID_STRING: nat := 4
  const TYPE_ID_TYPE_VALUE: nat := 50
  const TYPE_ID_ROW_TAIL: nat := 51

  const MAX_ATOM_SUBTYPE_DEPTH: nat := 256
  const MAX_RDNF_CONJUNCTIONS: nat := 1024
  const MAX_FINGERPRINT_DEPTH: nat := 64

  /** The entry for `key`: keys are unique in a well-formed record, so first is only. */
  function Lookup(fields: seq<Field>, key: Key): (r: Option<Ty>)
    ensures r.Some? <==> exists i :: 0 <= i < |fields| && fields[i].key == key
    ensures r.Some? ==> exists i :: 0 <= i < |fields| && fields[i].key == key && fields[i].ty == r.value
  {
    if fields == [] then None
    else if fields[0].key == key then Some(fields[0].ty)
    else Lookup(fields[1..], key)
  }

  predicate UniqueKeys(fields: seq<Field>) {
    forall i, j :: 0 <= i < j < |fields| ==> fields[i].key != fields[j].key
  }

  lemma {:induction false} LookupUnique(fields: seq<Field>, i: nat)
    requires UniqueKeys(fields) && i < |fields|
    ensures Lookup(fields, fields[i].key) == Some(fields[i].ty)
  {
    if i > 0 {
      assert fields[0].key != fields[i].key;
      assert fields[1..][i - 1] == fields[i];
      LookupUnique(fields[1..], i - 1);
    }
  }

  predicate IsLiteral(t: Ty) { t.IntLit? || t.StrLit? || t.FloatLit? }

  /** The nominal type of a literal. */
  function LiteralType(t: Ty): Ty
    requires IsLiteral(t)
  {
    Nominal(if t.IntLit? then TYPE_ID_INT else if t.StrLit? then TYPE_ID_STRING else TYPE_ID_FLOAT)
  }

  /** Nodes that normalisation takes apart; every other type is an atom of the normal form. */
  predicate IsBoolean(t: Ty) {
    t.Top? || t.Never? || t.Unknown? || t.Error? || t.Union? || t.Inter? || t.Neg?
  }
}
