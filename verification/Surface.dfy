/** The surface syntax the desugaring pass rewrites. */
module Surface {
  import opened Wrappers

  type Span = nat

  /** What the pass does not look into: literals other than strings, placeholders, declarations,
      error nodes, unit variants, annotations. */
  type Opaque = nat

  datatype Node = Node(expr: Expr, span: Span)

  datatype Entry = Keyed(key: Node, value: Node) | Positional(value: Node)

  /** `Group` stands for every form whose children are all entered at the same depth and that no
      wrapping rule mentions: sequences, type assertions, matches (scrutinee, patterns, guards and
      bodies), unquotes, pattern and let bindings, variant payloads, type and repr declarations.
      Its `kind` carries the rest of the form, such as the let bindings of match arms, which are
      not entered. */
  datatype Expr =
    | Atom(what: Opaque)
    | Str(prefix: string, delimiter: string, content: string)
    | VarRef(name: string, escaped: bool, extra: Opaque)
    | Access(target: Node, field: string)
    | LeadingDot(field: string)
    | Pipe(lhs: Node, rhs: Node, bar: Option<Span>)
    | Dict(entries: seq<Entry>)
    | Call(func: Node, args: seq<Node>, names: seq<string>, named: seq<Node>, implied: bool, bar: Option<Span>)
    | Fn(params: seq<string>, body: Node, desugared: bool, annotations: Opaque)
    | Quote(quoted: Node)
    | Group(kind: Opaque, children: seq<Node>)

  /** Extras of a reference the pass builds itself: no annotation, no resolution. */
  const NoExtra: Opaque := 0

  const Underscore := "_"
}
