/**
  The parser's type-annotation tree as the documentation extractor reads it.
  This version of the tree differs from the formatter's: a function type has
  only arguments and a result, and tags and record fields can be malformed.
 */
module DocsAst {
  import opened Common
  import opened Spacing

  /** A type variable of an `as` header; the parser may wrap it in spacing. */
  datatype Pattern =
    | Identifier(ident: string)
    | OtherPattern(raw: string)
    | PatternSpaceBefore(pattern: Pattern, spaces: Spaces)
    | PatternSpaceAfter(pattern: Pattern, spaces: Spaces)

  datatype TypeHeader = TypeHeader(headerName: string, vars: seq<Pattern>)

  datatype Ann =
    | Function(args: seq<Ann>, output: Ann)
    | Apply(qualifier: string, name: string, args: seq<Ann>)
    | BoundVariable(name: string)
    | As(left: Ann, comments: Spaces, header: TypeHeader)
    | Record(fields: seq<AssignedField>, ext: Option<Ann>)
    | Tuple(elems: seq<Ann>, ext: Option<Ann>)
    | TagUnion(tags: seq<Tag>, ext: Option<Ann>)
    | Inferred
    | Wildcard
    | Where(ann: Ann, clauses: seq<ImplementsClause>)
    | SpaceBefore(inner: Ann, spaces: Spaces)
    | SpaceAfter(inner: Ann, spaces: Spaces)
    | Malformed(raw: string)

  datatype AssignedField =
    | RequiredValue(fieldName: string, labelSpaces: Spaces, value: Ann)
    | OptionalValue(fieldName: string, labelSpaces: Spaces, value: Ann)
    | LabelOnly(fieldName: string)
    | FieldSpaceBefore(field: AssignedField, spaces: Spaces)
    | FieldSpaceAfter(field: AssignedField, spaces: Spaces)
    | FieldMalformed(raw: string)

  datatype Tag =
    | TagApply(tagName: string, tagArgs: seq<Ann>)
    | TagSpaceBefore(tag: Tag, spaces: Spaces)
    | TagSpaceAfter(tag: Tag, spaces: Spaces)
    | TagMalformed(raw: string)

  datatype ImplementsClause = ImplementsClause(variable: string, abilities: seq<Ann>)

  /** A tag that is malformed under its spacing wrappers. */
  predicate TagIsMalformed(g: Tag) {
    match g
    case TagMalformed(_) => true
    case TagSpaceBefore(h, _) => TagIsMalformed(h)
    case TagSpaceAfter(h, _) => TagIsMalformed(h)
    case TagApply(_, _) => false
  }

  /** A record field that is malformed under its spacing wrappers. */
  predicate FieldIsMalformed(f: AssignedField) {
    match f
    case FieldMalformed(_) => true
    case FieldSpaceBefore(g, _) => FieldIsMalformed(g)
    case FieldSpaceAfter(g, _) => FieldIsMalformed(g)
    case _ => false
  }

  /**
    The tree with every annotation, field and tag spacing wrapper removed and
    every comment run emptied. The variables of an `as` header are kept as they
    are, wrappers included: documentation reads them unwrapped.
   */
  function Strip(t: Ann): Ann
    decreases t
  {
    match t
    case Function(args, output) =>
      Function(seq(|args|, i requires 0 <= i < |args| => Strip(args[i])), Strip(output))
    case Apply(q, n, args) => Apply(q, n, seq(|args|, i requires 0 <= i < |args| => Strip(args[i])))
    case BoundVariable(_) => t
    case As(left, _, header) => As(Strip(left), [], header)
    case Record(fields, ext) =>
      Record(seq(|fields|, i requires 0 <= i < |fields| => StripField(fields[i])),
             if ext.Some? then Some(Strip(ext.value)) else None)
    case Tuple(elems, ext) =>
      Tuple(seq(|elems|, i requires 0 <= i < |elems| => Strip(elems[i])),
            if ext.Some? then Some(Strip(ext.value)) else None)
    case TagUnion(tags, ext) =>
      TagUnion(seq(|tags|, i requires 0 <= i < |tags| => StripTag(tags[i])),
               if ext.Some? then Some(Strip(ext.value)) else None)
    case Inferred => t
    case Wildcard => t
    case Where(ann, clauses) =>
      Where(Strip(ann), seq(|clauses|, i requires 0 <= i < |clauses| => StripClause(clauses[i])))
    case SpaceBefore(inner, _) => Strip(inner)
    case SpaceAfter(inner, _) => Strip(inner)
    case Malformed(_) => t
  }

  function StripField(f: AssignedField): AssignedField
    decreases f
  {
    match f
    case RequiredValue(l, _, v) => RequiredValue(l, [], Strip(v))
    case OptionalValue(l, _, v) => OptionalValue(l, [], Strip(v))
    case LabelOnly(_) => f
    case FieldSpaceBefore(g, _) => StripField(g)
    case FieldSpaceAfter(g, _) => StripField(g)
    case FieldMalformed(_) => f
  }

  function StripTag(g: Tag): Tag
    decreases g
  {
    match g
    case TagApply(n, args) => TagApply(n, seq(|args|, i requires 0 <= i < |args| => Strip(args[i])))
    case TagSpaceBefore(h, _) => StripTag(h)
    case TagSpaceAfter(h, _) => StripTag(h)
    case TagMalformed(_) => g
  }

  function StripClause(c: ImplementsClause): ImplementsClause
    decreases c
  {
    ImplementsClause(c.variable, seq(|c.abilities|, i requires 0 <= i < |c.abilities| => Strip(c.abilities[i])))
  }
}
