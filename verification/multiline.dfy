/**
  The formatter's structural multiline test. It measures no width: a node must
  break across lines only because some spacing (a comment or a blank line) sits
  inside it at a position the formatter renders.
 */
module Multiline {
  import opened Common
  import opened Spacing
  import opened FmtAst

  /** `Formattable::is_multiline` for a type annotation. */
  predicate IsMultiline(t: TypeAnn)
    decreases t
  {
    match t
    case SpaceBefore(_, _) => true
    case SpaceAfter(_, _) => true
    case Wildcard => false
    case Inferred => false
    case BoundVariable(_) => false
    case Malformed(_) => false
    case Function(args, _, result) =>
      IsMultiline(result) || exists i :: 0 <= i < |args| && IsMultiline(args[i])
    case Apply(_, _, args) => exists i :: 0 <= i < |args| && IsMultiline(args[i])
    case As(left, _, _) => IsMultiline(left)
    case Where(ann, clauses) =>
      IsMultiline(ann) || exists i :: 0 <= i < |clauses| && ClauseIsMultiline(clauses[i])
    case Tuple(elems, ext) =>
      (ext.Some? && IsMultiline(ext.value))
      || elems.finalComments != []
      || exists i :: 0 <= i < |elems.items| && IsMultiline(elems.items[i])
    case Record(fields, ext) =>
      (ext.Some? && IsMultiline(ext.value))
      || fields.finalComments != []
      || exists i :: 0 <= i < |fields.items| && FieldIsMultiline(fields.items[i])
    case TagUnion(tags, ext) =>
      (ext.Some? && IsMultiline(ext.value))
      || tags.finalComments != []
      || exists i :: 0 <= i < |tags.items| && TagIsMultiline(tags.items[i])
  }

  /** `is_multiline_assigned_field_help`. */
  predicate FieldIsMultiline(f: Field)
    decreases f
  {
    match f
    case RequiredValue(_, sp, v) => sp != [] || IsMultiline(v)
    case IgnoredValue(_, sp, v) => sp != [] || IsMultiline(v)
    case OptionalValue(_, sp, v) => sp != [] || IsMultiline(v)
    case LabelOnly(_) => false
    case FieldSpaceBefore(_, _) => true
    case FieldSpaceAfter(_, _) => true
  }

  predicate TagIsMultiline(g: Tag)
    decreases g
  {
    match g
    case TagApply(_, args) => exists i :: 0 <= i < |args| && IsMultiline(args[i])
    case TagSpaceBefore(_, _) => true
    case TagSpaceAfter(_, _) => true
  }

  /** Abilities in an `implements` clause always stay on one line. */
  predicate ClauseIsMultiline(c: ImplementsClause) {
    false
  }

  /** `is_collection_multiline`: final comments, or some multiline item. */
  predicate IsCollectionMultiline<T>(c: Collection<T>, itemIsMultiline: T -> bool) {
    c.finalComments != [] || exists i :: 0 <= i < |c.items| && itemIsMultiline(c.items[i])
  }

  /** The per-variant behaviour of the multiline test. */
  lemma MultilineByVariant(t: TypeAnn)
    ensures t.Wildcard? || t.Inferred? || t.BoundVariable? || t.Malformed? ==> !IsMultiline(t)
    ensures IsWrapper(t) ==> IsMultiline(t)
    ensures t.Function? ==>
      (IsMultiline(t) <==> IsMultiline(t.result) || exists a :: a in t.args && IsMultiline(a))
    ensures t.Apply? ==> (IsMultiline(t) <==> exists a :: a in t.args && IsMultiline(a))
    ensures t.As? ==> (IsMultiline(t) <==> IsMultiline(t.left))
    ensures t.Where? ==> (IsMultiline(t) <==> IsMultiline(t.ann))
    ensures t.Tuple? ==>
      (IsMultiline(t) <==> (t.ext.Some? && IsMultiline(t.ext.value)) || IsCollectionMultiline(t.elems, IsMultiline))
    ensures t.Record? ==>
      (IsMultiline(t) <==> (t.ext.Some? && IsMultiline(t.ext.value)) || IsCollectionMultiline(t.fields, FieldIsMultiline))
    ensures t.TagUnion? ==>
      (IsMultiline(t) <==> (t.ext.Some? && IsMultiline(t.ext.value)) || IsCollectionMultiline(t.tags, TagIsMultiline))
  {
    if t.Function? {
      assert (exists i :: 0 <= i < |t.args| && IsMultiline(t.args[i])) <==> exists a :: a in t.args && IsMultiline(a);
    }
    if t.Apply? {
      assert (exists i :: 0 <= i < |t.args| && IsMultiline(t.args[i])) <==> exists a :: a in t.args && IsMultiline(a);
    }
  }

  /** With every comment and wrapper erased, nothing is multiline. */
  lemma {:induction false} StrippedIsSingleLine(t: TypeAnn)
    ensures !IsMultiline(Strip(t))
    decreases t
  {
    match t
    case Function(args, _, result) =>
      forall i | 0 <= i < |args| {
        StrippedIsSingleLine(args[i]);
      }
      StrippedIsSingleLine(result);
    case Apply(_, _, args) =>
      forall i | 0 <= i < |args| {
        StrippedIsSingleLine(args[i]);
      }
    case As(left, _, _) =>
      StrippedIsSingleLine(left);
    case Where(ann, _) =>
      StrippedIsSingleLine(ann);
    case Tuple(elems, ext) =>
      forall i | 0 <= i < |elems.items| {
        StrippedIsSingleLine(elems.items[i]);
      }
      if ext.Some? {
        StrippedIsSingleLine(ext.value);
      }
    case Record(fields, ext) =>
      forall i | 0 <= i < |fields.items| {
        StrippedFieldIsSingleLine(fields.items[i]);
      }
      if ext.Some? {
        StrippedIsSingleLine(ext.value);
      }
    case TagUnion(tags, ext) =>
      forall i | 0 <= i < |tags.items| {
        StrippedTagIsSingleLine(tags.items[i]);
      }
      if ext.Some? {
        StrippedIsSingleLine(ext.value);
      }
    case SpaceBefore(inner, _) =>
      StrippedIsSingleLine(inner);
    case SpaceAfter(inner, _) =>
      StrippedIsSingleLine(inner);
    case _ =>
  }

  lemma {:induction false} StrippedFieldIsSingleLine(f: Field)
    ensures !FieldIsMultiline(StripField(f))
    decreases f
  {
    match f
    case RequiredValue(_, _, v) => StrippedIsSingleLine(v);
    case IgnoredValue(_, _, v) => StrippedIsSingleLine(v);
    case OptionalValue(_, _, v) => StrippedIsSingleLine(v);
    case LabelOnly(_) =>
    case FieldSpaceBefore(g, _) => StrippedFieldIsSingleLine(g);
    case FieldSpaceAfter(g, _) => StrippedFieldIsSingleLine(g);
  }

  lemma {:induction false} StrippedTagIsSingleLine(g: Tag)
    ensures !TagIsMultiline(StripTag(g))
    decreases g
  {
    match g
    case TagApply(_, args) =>
      forall i | 0 <= i < |args| {
        StrippedIsSingleLine(args[i]);
      }
    case TagSpaceBefore(h, _) => StrippedTagIsSingleLine(h);
    case TagSpaceAfter(h, _) => StrippedTagIsSingleLine(h);
  }

  /**
    `ty_is_outdentable`: may the last argument of an application start on the
    application's own line? Only a multiline record, tuple or tag union may,
    possibly under blank-line-only leading spacing, trailing spacing or a `where`.
   */
  predicate TyIsOutdentable(t: TypeAnn)
    decreases t
  {
    match t
    case SpaceBefore(sub, sp) =>
      if !AllNewlines(sp) || !IsMultiline(sub) then false else TyIsOutdentable(sub)
    case SpaceAfter(sub, _) => TyIsOutdentable(sub)
    case Where(ann, _) => if !IsMultiline(ann) then false else TyIsOutdentable(ann)
    case Record(_, _) => IsMultiline(t)
    case TagUnion(_, _) => IsMultiline(t)
    case Tuple(_, _) => IsMultiline(t)
    case _ => false
  }

  /** What `TyIsOutdentable` looks through: wrappers and `where` clauses. */
  function OutdentCore(t: TypeAnn): TypeAnn
    decreases t
  {
    match t
    case SpaceBefore(sub, _) => OutdentCore(sub)
    case SpaceAfter(sub, _) => OutdentCore(sub)
    case Where(ann, _) => OutdentCore(ann)
    case _ => t
  }

  lemma {:induction false} OutdentableIsMultilineCollection(t: TypeAnn)
    requires TyIsOutdentable(t)
    ensures IsMultiline(t)
    ensures OutdentCore(t).Record? || OutdentCore(t).TagUnion? || OutdentCore(t).Tuple?
    ensures IsMultiline(OutdentCore(t))
    decreases t
  {
    match t
    case SpaceBefore(sub, _) => OutdentableIsMultilineCollection(sub);
    case SpaceAfter(sub, _) => OutdentableIsMultilineCollection(sub);
    case Where(ann, _) => OutdentableIsMultilineCollection(ann);
    case _ =>
  }

  /** `except_last`: every item but the last one. */
  function ExceptLast<T>(items: seq<T>): (r: seq<T>)
    ensures items == [] ==> r == []
    ensures items != [] ==> r + [items[|items| - 1]] == items
  {
    if items == [] then items else items[..|items| - 1]
  }
}
