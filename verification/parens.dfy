/**
  The two small decision tables of the annotation formatter: the precedence a
  node lowers to (`ann_prec`) and whether a record/tuple/tag-union extension
  must be parenthesised (`ext_needs_parens`, used by `fmt_ext`).
 */
module Parens {
  import opened Common
  import opened Spacing
  import opened FmtAst
  import opened SpaceLifting

  /** Binding strength of a lowered node (only the variants this file produces). */
  datatype Prec = Term | Apply | FunctionType | AsType

  /** `ann_prec`: wrappers are transparent. */
  function AnnPrec(t: TypeAnn): Prec
    decreases t
  {
    match t
    case Function(_, _, _) => Prec.FunctionType
    case Apply(_, _, _) => Prec.Apply
    case BoundVariable(_) => Term
    case As(_, _, _) => Prec.Apply
    case Record(_, _) => Term
    case Tuple(_, _) => Term
    case TagUnion(_, _) => Term
    case Inferred => Term
    case Wildcard => Term
    case Where(_, _) => Prec.Apply
    case SpaceBefore(inner, _) => AnnPrec(inner)
    case SpaceAfter(inner, _) => AnnPrec(inner)
    case Malformed(_) => Term
  }

  /** `ext_needs_parens`. */
  predicate ExtNeedsParens(t: TypeAnn) {
    match t
    case Record(_, _) => false
    case TagUnion(_, _) => false
    case Tuple(_, _) => false
    case BoundVariable(_) => false
    case Wildcard => false
    case Inferred => false
    case Apply(_, _, args) => args != []
    case _ => true
  }

  lemma ExtNeedsParensTable(t: TypeAnn)
    ensures t.Record? || t.TagUnion? || t.Tuple? || t.BoundVariable? || t.Wildcard? || t.Inferred? ==> !ExtNeedsParens(t)
    ensures t.Apply? ==> (ExtNeedsParens(t) <==> t.args != [])
    ensures t.Function? || t.As? || t.Where? || t.Malformed? || IsWrapper(t) ==> ExtNeedsParens(t)
  {
  }

  /**
    The two tables agree: away from wrappers, malformed text and applications
    (whose parentheses depend on their arguments), an extension is parenthesised
    exactly when it does not lower to a bare term.
   */
  lemma ExtParensAgreeWithPrec(t: TypeAnn)
    requires !IsWrapper(t) && !t.Malformed? && !t.Apply?
    ensures ExtNeedsParens(t) <==> AnnPrec(t) != Term
  {
  }

  /** Lifting never changes the precedence of a node. */
  lemma {:induction false} LiftPreservesPrec(h: Hooks, t: TypeAnn)
    ensures AnnPrec(Lift(h, t).item) == AnnPrec(t)
    decreases t
  {
    match t
    case SpaceBefore(inner, _) => LiftPreservesPrec(h, inner);
    case SpaceAfter(inner, _) => LiftPreservesPrec(h, inner);
    case _ =>
  }

  /** The parenthesis decision `fmt_ext` makes for an extension. */
  predicate ExtParensNeeded(h: Hooks, ext: TypeAnn) {
    var me := Lift(h, ext);
    me.before != [] || ExtNeedsParens(me.item)
  }

  /**
    An extension is written without parentheses only when, comments aside, it
    is a collection, a variable, `*`, `_` or an application without arguments.
   */
  lemma ExtWithoutParensIsSimple(h: Hooks, ext: TypeAnn)
    requires HooksSound(h)
    requires !ExtParensNeeded(h, ext)
    ensures var s := Strip(ext);
      s.Record? || s.TagUnion? || s.Tuple? || s.BoundVariable? || s.Wildcard? || s.Inferred?
      || (s.Apply? && s.args == [])
  {
    LiftPreservesMeaning(h, ext);
  }
}
