/**
  The parser's type-annotation tree as the formatter sees it, and `Strip`, which
  erases every piece of spacing from it: two trees with equal `Strip` images
  differ only in where comments and blank lines are attached.
 */
module FmtAst {
  import opened Common
  import opened Spacing

  datatype FunctionArrow = Pure | Effectful

  /** A bracketed collection: its items plus the comments after the last item. */
  datatype Collection<T> = Collection(items: seq<T>, finalComments: Spaces)

  /** Patterns appear only as the variables of an `as` header; their inner shape is not modelled. */
  datatype Pattern =
    | Identifier(ident: string)
    | OtherPattern(raw: string)
    | PatternSpaceBefore(pattern: Pattern, spaces: Spaces)
    | PatternSpaceAfter(pattern: Pattern, spaces: Spaces)

  datatype TypeHeader = TypeHeader(headerName: string, vars: seq<Pattern>)

  datatype TypeAnn =
    | Function(args: seq<TypeAnn>, arrow: FunctionArrow, result: TypeAnn)
    | Apply(qualifier: string, name: string, args: seq<TypeAnn>)
    | BoundVariable(name: string)
    | As(left: TypeAnn, comments: Spaces, header: TypeHeader)
    | Record(fields: Collection<Field>, ext: Option<TypeAnn>)
    | Tuple(elems: Collection<TypeAnn>, ext: Option<TypeAnn>)
    | TagUnion(tags: Collection<Tag>, ext: Option<TypeAnn>)
    | Inferred
    | Wildcard
    | Where(ann: TypeAnn, clauses: seq<ImplementsClause>)
    | SpaceBefore(inner: TypeAnn, spaces: Spaces)
    | SpaceAfter(inner: TypeAnn, spaces: Spaces)
    | Malformed(raw: string)

  /** A record field: `name : T`, `_name : T`, `name ? T`, a bare label, or a spaced field. */
  datatype Field =
    | RequiredValue(fieldName: string, labelSpaces: Spaces, value: TypeAnn)
    | IgnoredValue(fieldName: string, labelSpaces: Spaces, value: TypeAnn)
    | OptionalValue(fieldName: string, labelSpaces: Spaces, value: TypeAnn)
    | LabelOnly(fieldName: string)
    | FieldSpaceBefore(field: Field, spaces: Spaces)
    | FieldSpaceAfter(field: Field, spaces: Spaces)

  datatype Tag =
    | TagApply(tagName: string, tagArgs: seq<TypeAnn>)
    | TagSpaceBefore(tag: Tag, spaces: Spaces)
    | TagSpaceAfter(tag: Tag, spaces: Spaces)

  datatype ImplementsClause = ImplementsClause(variable: string, abilities: seq<TypeAnn>)

  predicate IsWrapper(t: TypeAnn) {
    t.SpaceBefore? || t.SpaceAfter?
  }

  /** The tree with every wrapper removed and every comment run emptied. */
  function Strip(t: TypeAnn): TypeAnn
    decreases t
  {
    match t
    case Function(args, arrow, result) =>
      Function(seq(|args|, i requires 0 <= i < |args| => Strip(args[i])), arrow, Strip(result))
    case Apply(q, n, args) =>
      Apply(q, n, seq(|args|, i requires 0 <= i < |args| => Strip(args[i])))
    case BoundVariable(_) => t
    case As(left, _, header) => As(Strip(left), [], StripHeader(header))
    case Record(fields, ext) =>
      Record(Collection(seq(|fields.items|, i requires 0 <= i < |fields.items| => StripField(fields.items[i])), []),
             if ext.Some? then Some(Strip(ext.value)) else None)
    case Tuple(elems, ext) =>
      Tuple(Collection(seq(|elems.items|, i requires 0 <= i < |elems.items| => Strip(elems.items[i])), []),
            if ext.Some? then Some(Strip(ext.value)) else None)
    case TagUnion(tags, ext) =>
      TagUnion(Collection(seq(|tags.items|, i requires 0 <= i < |tags.items| => StripTag(tags.items[i])), []),
               if ext.Some? then Some(Strip(ext.value)) else None)
    case Inferred => t
    case Wildcard => t
    case Where(ann, clauses) =>
      Where(Strip(ann), seq(|clauses|, i requires 0 <= i < |clauses| => StripClause(clauses[i])))
    case SpaceBefore(inner, _) => Strip(inner)
    case SpaceAfter(inner, _) => Strip(inner)
    case Malformed(_) => t
  }

  function StripField(f: Field): Field
    decreases f
  {
    match f
    case RequiredValue(l, _, v) => RequiredValue(l, [], Strip(v))
    case IgnoredValue(l, _, v) => IgnoredValue(l, [], Strip(v))
    case OptionalValue(l, _, v) => OptionalValue(l, [], Strip(v))
    case LabelOnly(_) => f
    case FieldSpaceBefore(g, _) => StripField(g)
    case FieldSpaceAfter(g, _) => StripField(g)
  }

  function StripTag(g: Tag): Tag
    decreases g
  {
    match g
    case TagApply(n, args) => TagApply(n, seq(|args|, i requires 0 <= i < |args| => Strip(args[i])))
    case TagSpaceBefore(h, _) => StripTag(h)
    case TagSpaceAfter(h, _) => StripTag(h)
  }

  function StripClause(c: ImplementsClause): ImplementsClause
    decreases c
  {
    ImplementsClause(c.variable, seq(|c.abilities|, i requires 0 <= i < |c.abilities| => Strip(c.abilities[i])))
  }

  function StripPattern(p: Pattern): Pattern {
    match p
    case PatternSpaceBefore(q, _) => StripPattern(q)
    case PatternSpaceAfter(q, _) => StripPattern(q)
    case _ => p
  }

  function StripHeader(h: TypeHeader): TypeHeader {
    TypeHeader(h.headerName, seq(|h.vars|, i requires 0 <= i < |h.vars| => StripPattern(h.vars[i])))
  }
}
