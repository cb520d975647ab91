/**
  The documentation tree built from a type annotation (`type_to_docs` and its
  helpers): a structural mapping in which spacing disappears, malformed tags
  and fields are dropped and a missing extension becomes `NoTypeAnn`.
 */
module Docs {
  import opened Common
  import Ast = DocsAst
  import opened Spacing

  datatype DocType =
    | TagUnion(tags: seq<DocTag>, extension: DocType)
    | Function(args: seq<DocType>, output: DocType)
    | ObscuredTagUnion
    | ObscuredRecord
    | BoundVariable(varName: string)
    | Apply(name: string, parts: seq<DocType>)
    | Record(fields: seq<DocField>, extension: DocType)
    | Tuple(elems: seq<DocType>, extension: DocType)
    | Ability(members: seq<AbilityMember>)
    | Wildcard
    | NoTypeAnn
    | Where(ann: DocType, implements: seq<DocClause>)
    | As(aliased: DocType, aliasName: string, vars: seq<string>)

  datatype DocClause = DocClause(clauseName: string, abilities: seq<DocType>)

  datatype DocField =
    | RecordField(fieldName: string, fieldType: DocType)
    | OptionalField(fieldName: string, fieldType: DocType)
    | LabelOnly(fieldName: string)

  datatype DocTag = DocTag(tagName: string, values: seq<DocType>)

  /** An able variable of an ability member: the variable and its abilities. */
  type AbleVariable = (string, seq<DocType>)

  datatype AbilityMember = AbilityMember(memberName: string, memberType: DocType,
                                         ableVariables: seq<AbleVariable>, docs: Option<string>)

  /** The doc name of an application: the module, a dot and the type name, or the bare name. */
  function QualifiedName(qualifier: string, name: string): string {
    if qualifier != [] then qualifier + "." + name else name
  }

  /** The position just after the last dot of `s`, or 0 when there is none. */
  function AfterLastDot(s: string): (k: nat)
    ensures k <= |s|
    ensures k > 0 ==> s[k - 1] == '.'
    ensures forall j :: k <= j < |s| ==> s[j] != '.'
  {
    if s == [] then 0
    else if s[|s| - 1] == '.' then |s|
    else AfterLastDot(s[..|s| - 1])
  }

  /** Splits a doc name back into module and type name at its last dot. */
  function SplitQualifiedName(s: string): (string, string) {
    var k := AfterLastDot(s);
    if k == 0 then ([], s) else (s[..k - 1], s[k..])
  }

  /** A type name without dots can be read back from the doc name. */
  lemma QualifiedNameRoundTrip(qualifier: string, name: string)
    requires forall j :: 0 <= j < |name| ==> name[j] != '.'
    ensures SplitQualifiedName(QualifiedName(qualifier, name)) == (qualifier, name)
  {
    var s := QualifiedName(qualifier, name);
    if qualifier != [] {
      assert s[|qualifier|] == '.';
      assert forall j :: |qualifier| < j < |s| ==> s[j] == name[j - |qualifier| - 1];
      assert AfterLastDot(s) == |qualifier| + 1;
      assert s[..|qualifier|] == qualifier;
      assert s[|qualifier| + 1..] == name;
    }
  }

  /** The identifier a type-header variable names, when it is one. */
  function PatternIdentifier(p: Ast.Pattern): Option<string> {
    if p.Identifier? then Some(p.ident) else None
  }

  /** The identifier each header variable names, if it names one. */
  function IdentifierOptions(vars: seq<Ast.Pattern>): (r: seq<Option<string>>)
    ensures |r| == |vars|
    ensures forall i :: 0 <= i < |vars| ==> (r[i].Some? <==> vars[i].Identifier?)
  {
    seq(|vars|, i requires 0 <= i < |vars| => PatternIdentifier(vars[i]))
  }

  /**
    The `as` header variables the documentation keeps: identifiers only, in
    order. The identifier at position `i` is the result's element at the number
    of identifiers before `i`.
   */
  function IdentifierVars(vars: seq<Ast.Pattern>): (r: seq<string>)
    ensures forall x :: x in r <==> Ast.Identifier(x) in vars
    ensures |r| == CountSome(IdentifierOptions(vars))
    ensures forall i :: 0 <= i < |vars| && vars[i].Identifier? ==>
      var p := CountSome(IdentifierOptions(vars)[..i]);
      p < |r| && r[p] == vars[i].ident
  {
    var named := IdentifierOptions(vars);
    assert forall x :: Some(x) in named <==> Ast.Identifier(x) in vars by {
      forall x
        ensures Some(x) in named <==> Ast.Identifier(x) in vars
      {
        if Ast.Identifier(x) in vars {
          var i :| 0 <= i < |vars| && vars[i] == Ast.Identifier(x);
          assert named[i] == Some(x);
        }
      }
    }
    SomesAt(named);
    Somes(named)
  }

  /**
    `type_to_docs`. The flag says whether the node sits inside a function type;
    it is handed down but never consulted.
   */
  function TypeToDocs(inFunction: bool, t: Ast.Ann): DocType
    decreases t
  {
    match t
    case TagUnion(tags, ext) =>
      TagUnion(Somes(seq(|tags|, i requires 0 <= i < |tags| => TagToDoc(inFunction, tags[i]))),
               if ext.Some? then TypeToDocs(inFunction, ext.value) else NoTypeAnn)
    case BoundVariable(v) => BoundVariable(v)
    case Apply(q, n, args) =>
      Apply(QualifiedName(q, n), seq(|args|, i requires 0 <= i < |args| => TypeToDocs(inFunction, args[i])))
    case Record(fields, ext) =>
      Record(Somes(seq(|fields|, i requires 0 <= i < |fields| => RecordFieldToDoc(inFunction, fields[i]))),
             if ext.Some? then TypeToDocs(inFunction, ext.value) else NoTypeAnn)
    case SpaceBefore(inner, _) => TypeToDocs(inFunction, inner)
    case SpaceAfter(inner, _) => TypeToDocs(inFunction, inner)
    case Function(args, output) =>
      Function(seq(|args|, i requires 0 <= i < |args| => TypeToDocs(true, args[i])), TypeToDocs(true, output))
    case Wildcard => Wildcard
    case As(left, _, header) => As(TypeToDocs(inFunction, left), header.headerName, IdentifierVars(header.vars))
    case Tuple(elems, ext) =>
      Tuple(seq(|elems|, i requires 0 <= i < |elems| => TypeToDocs(inFunction, elems[i])),
            if ext.Some? then TypeToDocs(inFunction, ext.value) else NoTypeAnn)
    case Where(ann, clauses) =>
      Where(TypeToDocs(inFunction, ann), seq(|clauses|, i requires 0 <= i < |clauses| => ClauseToDocs(inFunction, clauses[i])))
    case Malformed(_) => NoTypeAnn
    case Inferred => NoTypeAnn
  }

  function ClauseToDocs(inFunction: bool, c: Ast.ImplementsClause): DocClause
    decreases c
  {
    DocClause(c.variable, seq(|c.abilities|, i requires 0 <= i < |c.abilities| => TypeToDocs(inFunction, c.abilities[i])))
  }

  /** The field under a field's spacing wrappers. */
  function FieldCore(f: Ast.AssignedField): (r: Ast.AssignedField)
    ensures !r.FieldSpaceBefore? && !r.FieldSpaceAfter?
    ensures r.FieldMalformed? <==> Ast.FieldIsMalformed(f)
    ensures r == f || r < f
  {
    match f
    case FieldSpaceBefore(g, _) => FieldCore(g)
    case FieldSpaceAfter(g, _) => FieldCore(g)
    case _ => f
  }

  /** The tag under a tag's spacing wrappers. */
  function TagCore(g: Ast.Tag): (r: Ast.Tag)
    ensures r.TagApply? <==> !Ast.TagIsMalformed(g)
    ensures r == g || r < g
  {
    match g
    case TagSpaceBefore(h, _) => TagCore(h)
    case TagSpaceAfter(h, _) => TagCore(h)
    case _ => g
  }

  /** `record_field_to_doc`: `None` exactly for a malformed field. */
  function RecordFieldToDoc(inFunction: bool, f: Ast.AssignedField): (r: Option<DocField>)
    decreases f
    ensures r.None? <==> Ast.FieldIsMalformed(f)
    ensures r.Some? ==> r.value.fieldName == FieldCore(f).fieldName
    ensures r.Some? ==> (r.value.RecordField? <==> FieldCore(f).RequiredValue?)
    ensures r.Some? ==> (r.value.OptionalField? <==> FieldCore(f).OptionalValue?)
    ensures r.Some? ==> (r.value.LabelOnly? <==> FieldCore(f).LabelOnly?)
    ensures r.Some? && !r.value.LabelOnly? ==> r.value.fieldType == TypeToDocs(inFunction, FieldCore(f).value)
  {
    match f
    case RequiredValue(n, _, v) => Some(RecordField(n, TypeToDocs(inFunction, v)))
    case FieldSpaceBefore(g, _) => RecordFieldToDoc(inFunction, g)
    case FieldSpaceAfter(g, _) => RecordFieldToDoc(inFunction, g)
    case OptionalValue(n, _, v) => Some(OptionalField(n, TypeToDocs(inFunction, v)))
    case LabelOnly(n) => Some(LabelOnly(n))
    case FieldMalformed(_) => None
  }

  /** `tag_to_doc`: `None` exactly for a malformed tag; otherwise one value per argument. */
  function TagToDoc(inFunction: bool, g: Ast.Tag): (r: Option<DocTag>)
    decreases g
    ensures r.None? <==> Ast.TagIsMalformed(g)
    ensures r.Some? ==> r.value.tagName == TagCore(g).tagName && |r.value.values| == |TagCore(g).tagArgs|
    ensures r.Some? ==> forall i :: 0 <= i < |r.value.values| ==>
      r.value.values[i] == TypeToDocs(inFunction, TagCore(g).tagArgs[i])
  {
    match g
    case TagApply(n, args) => Some(DocTag(n, seq(|args|, i requires 0 <= i < |args| => TypeToDocs(inFunction, args[i]))))
    case TagSpaceBefore(h, _) => TagToDoc(inFunction, h)
    case TagSpaceAfter(h, _) => TagToDoc(inFunction, h)
    case TagMalformed(_) => None
  }

  /** `ability_member_type_to_docs`: the member's type and, for a `where`, its able variables. */
  function AbilityMemberTypeToDocs(t: Ast.Ann): (r: (DocType, seq<AbleVariable>))
    ensures !t.Where? ==> r.0 == TypeToDocs(false, t) && r.1 == []
    ensures t.Where? ==> r.0 == TypeToDocs(false, t.ann) && |r.1| == |t.clauses|
    ensures t.Where? ==> forall i :: 0 <= i < |r.1| ==> r.1[i].0 == t.clauses[i].variable
  {
    match t
    case Where(ann, clauses) =>
      (TypeToDocs(false, ann),
       seq(|clauses|, i requires 0 <= i < |clauses| =>
         (clauses[i].variable,
          seq(|clauses[i].abilities|, j requires 0 <= j < |clauses[i].abilities| => TypeToDocs(false, clauses[i].abilities[j])))))
    case _ => (TypeToDocs(false, t), [])
  }

  /** Peels spacing wrappers off an annotation. */
  function Unwrap(t: Ast.Ann): (r: Ast.Ann)
    ensures !r.SpaceBefore? && !r.SpaceAfter?
  {
    match t
    case SpaceBefore(inner, _) => Unwrap(inner)
    case SpaceAfter(inner, _) => Unwrap(inner)
    case _ => t
  }

  /**
    The kind of doc node is the kind of the annotation under its wrappers:
    `NoTypeAnn` exactly for malformed or inferred annotations, and never an
    obscured union, an obscured record or an ability.
   */
  lemma {:induction false} DocKindFollowsAnnotation(b: bool, t: Ast.Ann)
    ensures var r := TypeToDocs(b, t); var u := Unwrap(t);
      && (r.NoTypeAnn? <==> u.Malformed? || u.Inferred?)
      && (r.Function? <==> u.Function?)
      && (r.Apply? <==> u.Apply?)
      && (r.BoundVariable? <==> u.BoundVariable?)
      && (r.Record? <==> u.Record?)
      && (r.Tuple? <==> u.Tuple?)
      && (r.TagUnion? <==> u.TagUnion?)
      && (r.Where? <==> u.Where?)
      && (r.As? <==> u.As?)
      && (r.Wildcard? <==> u.Wildcard?)
      && !r.ObscuredTagUnion? && !r.ObscuredRecord? && !r.Ability?
    decreases t
  {
    match t
    case SpaceBefore(inner, _) => DocKindFollowsAnnotation(b, inner);
    case SpaceAfter(inner, _) => DocKindFollowsAnnotation(b, inner);
    case _ =>
  }

  /** An absent extension is documented as `NoTypeAnn`. */
  lemma MissingExtensionIsNoTypeAnn(b: bool, t: Ast.Ann)
    requires t.Record? || t.Tuple? || t.TagUnion?
    requires t.ext.None?
    ensures TypeToDocs(b, t).extension == NoTypeAnn
  {
  }

  /** An application documents as its qualified name with one part per argument, in order. */
  lemma ApplyDocs(b: bool, t: Ast.Ann)
    requires t.Apply?
    ensures var r := TypeToDocs(b, t);
      && r.name == (if t.qualifier == [] then t.name else t.qualifier + "." + t.name)
      && |r.parts| == |t.args|
      && forall i :: 0 <= i < |t.args| ==> r.parts[i] == TypeToDocs(b, t.args[i])
  {
  }

  /** The tags a union documents are its well-formed tags, in order. */
  lemma TagUnionKeepsWellFormedTags(b: bool, t: Ast.Ann)
    requires t.TagUnion?
    ensures var r := TypeToDocs(b, t);
      && |r.tags| == CountSome(seq(|t.tags|, i requires 0 <= i < |t.tags| => TagToDoc(b, t.tags[i])))
      && forall g :: g in t.tags && !Ast.TagIsMalformed(g) ==> TagToDoc(b, g).value in r.tags
    ensures var r := TypeToDocs(b, t);
      var docs := seq(|t.tags|, i requires 0 <= i < |t.tags| => TagToDoc(b, t.tags[i]));
      forall i :: 0 <= i < |t.tags| && !Ast.TagIsMalformed(t.tags[i]) ==>
        var p := CountSome(docs[..i]);
        p < |r.tags| && r.tags[p] == TagToDoc(b, t.tags[i]).value
  {
    var docs := seq(|t.tags|, i requires 0 <= i < |t.tags| => TagToDoc(b, t.tags[i]));
    SomesAt(docs);
    forall g | g in t.tags && !Ast.TagIsMalformed(g)
      ensures TagToDoc(b, g).value in TypeToDocs(b, t).tags
    {
      var i :| 0 <= i < |t.tags| && t.tags[i] == g;
      assert docs[i] == Some(TagToDoc(b, g).value);
    }
  }

  /** The fields a record documents are its well-formed fields, in order. */
  lemma RecordKeepsWellFormedFields(b: bool, t: Ast.Ann)
    requires t.Record?
    ensures var r := TypeToDocs(b, t);
      && |r.fields| == CountSome(seq(|t.fields|, i requires 0 <= i < |t.fields| => RecordFieldToDoc(b, t.fields[i])))
      && forall f :: f in t.fields && !Ast.FieldIsMalformed(f) ==> RecordFieldToDoc(b, f).value in r.fields
    ensures var r := TypeToDocs(b, t);
      var docs := seq(|t.fields|, i requires 0 <= i < |t.fields| => RecordFieldToDoc(b, t.fields[i]));
      forall i :: 0 <= i < |t.fields| && !Ast.FieldIsMalformed(t.fields[i]) ==>
        var p := CountSome(docs[..i]);
        p < |r.fields| && r.fields[p] == RecordFieldToDoc(b, t.fields[i]).value
  {
    var docs := seq(|t.fields|, i requires 0 <= i < |t.fields| => RecordFieldToDoc(b, t.fields[i]));
    SomesAt(docs);
    forall f | f in t.fields && !Ast.FieldIsMalformed(f)
      ensures RecordFieldToDoc(b, f).value in TypeToDocs(b, t).fields
    {
      var i :| 0 <= i < |t.fields| && t.fields[i] == f;
      assert docs[i] == Some(RecordFieldToDoc(b, f).value);
    }
  }

  /** Whether the node sits in a function type never changes its documentation. */
  lemma {:induction false} FunctionFlagIsIrrelevant(t: Ast.Ann)
    ensures TypeToDocs(true, t) == TypeToDocs(false, t)
    decreases t, 2
  {
    match t
    case TagUnion(_, _) => TagUnionFlagIsIrrelevant(t);
    case Apply(_, _, _) => ApplyFlagIsIrrelevant(t);
    case Record(_, _) => RecordFlagIsIrrelevant(t);
    case SpaceBefore(inner, _) => FunctionFlagIsIrrelevant(inner);
    case SpaceAfter(inner, _) => FunctionFlagIsIrrelevant(inner);
    case As(left, _, _) => FunctionFlagIsIrrelevant(left);
    case Tuple(_, _) => TupleFlagIsIrrelevant(t);
    case Where(_, _) => WhereFlagIsIrrelevant(t);
    case _ =>
  }

  lemma {:induction false} ApplyFlagIsIrrelevant(t: Ast.Ann)
    requires t.Apply?
    ensures TypeToDocs(true, t) == TypeToDocs(false, t)
    decreases t, 1
  {
    forall i | 0 <= i < |t.args| {
      FunctionFlagIsIrrelevant(t.args[i]);
    }
  }

  lemma {:induction false} TupleFlagIsIrrelevant(t: Ast.Ann)
    requires t.Tuple?
    ensures TypeToDocs(true, t) == TypeToDocs(false, t)
    decreases t, 1
  {
    forall i | 0 <= i < |t.elems| {
      FunctionFlagIsIrrelevant(t.elems[i]);
    }
    if t.ext.Some? {
      FunctionFlagIsIrrelevant(t.ext.value);
    }
  }

  lemma {:induction false} WhereFlagIsIrrelevant(t: Ast.Ann)
    requires t.Where?
    ensures TypeToDocs(true, t) == TypeToDocs(false, t)
    decreases t, 1
  {
    FunctionFlagIsIrrelevant(t.ann);
    forall i | 0 <= i < |t.clauses| {
      ClauseFlagIsIrrelevant(t.clauses[i]);
    }
  }

  lemma {:induction false} TagUnionFlagIsIrrelevant(t: Ast.Ann)
    requires t.TagUnion?
    ensures TypeToDocs(true, t) == TypeToDocs(false, t)
    decreases t, 1
  {
    var tags := t.tags;
    forall i | 0 <= i < |tags| {
      TagFlagIsIrrelevant(tags[i]);
    }
    assert seq(|tags|, i requires 0 <= i < |tags| => TagToDoc(true, tags[i]))
        == seq(|tags|, i requires 0 <= i < |tags| => TagToDoc(false, tags[i]));
    if t.ext.Some? {
      FunctionFlagIsIrrelevant(t.ext.value);
    }
  }

  lemma {:induction false} RecordFlagIsIrrelevant(t: Ast.Ann)
    requires t.Record?
    ensures TypeToDocs(true, t) == TypeToDocs(false, t)
    decreases t, 1
  {
    var fields := t.fields;
    forall i | 0 <= i < |fields| {
      FieldFlagIsIrrelevant(fields[i]);
    }
    assert seq(|fields|, i requires 0 <= i < |fields| => RecordFieldToDoc(true, fields[i]))
        == seq(|fields|, i requires 0 <= i < |fields| => RecordFieldToDoc(false, fields[i]));
    if t.ext.Some? {
      FunctionFlagIsIrrelevant(t.ext.value);
    }
  }

  lemma {:induction false} ClauseFlagIsIrrelevant(c: Ast.ImplementsClause)
    ensures ClauseToDocs(true, c) == ClauseToDocs(false, c)
    decreases c, 1
  {
    forall i | 0 <= i < |c.abilities| {
      FunctionFlagIsIrrelevant(c.abilities[i]);
    }
  }

  lemma {:induction false} FieldFlagIsIrrelevant(f: Ast.AssignedField)
    ensures RecordFieldToDoc(true, f) == RecordFieldToDoc(false, f)
    decreases f, 1
  {
    match f
    case RequiredValue(_, _, v) => FunctionFlagIsIrrelevant(v);
    case OptionalValue(_, _, v) => FunctionFlagIsIrrelevant(v);
    case FieldSpaceBefore(g, _) => FieldFlagIsIrrelevant(g);
    case FieldSpaceAfter(g, _) => FieldFlagIsIrrelevant(g);
    case _ =>
  }

  lemma {:induction false} TagFlagIsIrrelevant(g: Ast.Tag)
    ensures TagToDoc(true, g) == TagToDoc(false, g)
    decreases g, 1
  {
    match g
    case TagApply(_, args) =>
      forall i | 0 <= i < |args| {
        FunctionFlagIsIrrelevant(args[i]);
      }
      assert seq(|args|, i requires 0 <= i < |args| => TypeToDocs(true, args[i]))
          == seq(|args|, i requires 0 <= i < |args| => TypeToDocs(false, args[i]));
    case TagSpaceBefore(h, _) => TagFlagIsIrrelevant(h);
    case TagSpaceAfter(h, _) => TagFlagIsIrrelevant(h);
    case _ =>
  }

  /**
    Documentation ignores annotation spacing: erasing every comment and every
    annotation, field, tag and clause wrapper changes nothing.
   */
  lemma {:induction false} DocsIgnoreSpacing(b: bool, t: Ast.Ann)
    ensures TypeToDocs(b, Ast.Strip(t)) == TypeToDocs(b, t)
    decreases t, 2
  {
    match t
    case TagUnion(_, _) => TagUnionIgnoresSpacing(b, t);
    case Apply(_, _, args) =>
      forall i | 0 <= i < |args| {
        DocsIgnoreSpacing(b, args[i]);
      }
    case Record(_, _) => RecordIgnoresSpacing(b, t);
    case SpaceBefore(inner, _) => DocsIgnoreSpacing(b, inner);
    case SpaceAfter(inner, _) => DocsIgnoreSpacing(b, inner);
    case Function(_, _) => FunctionIgnoresSpacing(b, t);
    case As(left, _, _) => DocsIgnoreSpacing(b, left);
    case Tuple(_, _) => TupleIgnoresSpacing(b, t);
    case Where(_, _) => WhereIgnoresSpacing(b, t);
    case _ =>
  }

  lemma {:induction false} TagUnionIgnoresSpacing(b: bool, t: Ast.Ann)
    requires t.TagUnion?
    ensures TypeToDocs(b, Ast.Strip(t)) == TypeToDocs(b, t)
    decreases t, 1
  {
    var tags := t.tags;
    forall i | 0 <= i < |tags| {
      TagDocsIgnoreSpacing(b, tags[i]);
    }
    var stripped := seq(|tags|, i requires 0 <= i < |tags| => Ast.StripTag(tags[i]));
    assert seq(|stripped|, i requires 0 <= i < |stripped| => TagToDoc(b, stripped[i]))
        == seq(|tags|, i requires 0 <= i < |tags| => TagToDoc(b, tags[i]));
    if t.ext.Some? {
      DocsIgnoreSpacing(b, t.ext.value);
    }
  }

  lemma {:induction false} RecordIgnoresSpacing(b: bool, t: Ast.Ann)
    requires t.Record?
    ensures TypeToDocs(b, Ast.Strip(t)) == TypeToDocs(b, t)
    decreases t, 1
  {
    var fields := t.fields;
    forall i | 0 <= i < |fields| {
      FieldDocsIgnoreSpacing(b, fields[i]);
    }
    var stripped := seq(|fields|, i requires 0 <= i < |fields| => Ast.StripField(fields[i]));
    assert seq(|stripped|, i requires 0 <= i < |stripped| => RecordFieldToDoc(b, stripped[i]))
        == seq(|fields|, i requires 0 <= i < |fields| => RecordFieldToDoc(b, fields[i]));
    if t.ext.Some? {
      DocsIgnoreSpacing(b, t.ext.value);
    }
  }

  lemma {:induction false} FunctionIgnoresSpacing(b: bool, t: Ast.Ann)
    requires t.Function?
    ensures TypeToDocs(b, Ast.Strip(t)) == TypeToDocs(b, t)
    decreases t, 1
  {
    forall i | 0 <= i < |t.args| {
      DocsIgnoreSpacing(true, t.args[i]);
    }
    DocsIgnoreSpacing(true, t.output);
  }

  lemma {:induction false} TupleIgnoresSpacing(b: bool, t: Ast.Ann)
    requires t.Tuple?
    ensures TypeToDocs(b, Ast.Strip(t)) == TypeToDocs(b, t)
    decreases t, 1
  {
    forall i | 0 <= i < |t.elems| {
      DocsIgnoreSpacing(b, t.elems[i]);
    }
    if t.ext.Some? {
      DocsIgnoreSpacing(b, t.ext.value);
    }
  }

  lemma {:induction false} WhereIgnoresSpacing(b: bool, t: Ast.Ann)
    requires t.Where?
    ensures TypeToDocs(b, Ast.Strip(t)) == TypeToDocs(b, t)
    decreases t, 1
  {
    DocsIgnoreSpacing(b, t.ann);
    forall i | 0 <= i < |t.clauses| {
      ClauseDocsIgnoreSpacing(b, t.clauses[i]);
    }
  }

  lemma {:induction false} ClauseDocsIgnoreSpacing(b: bool, c: Ast.ImplementsClause)
    ensures ClauseToDocs(b, Ast.StripClause(c)) == ClauseToDocs(b, c)
    decreases c, 1
  {
    forall i | 0 <= i < |c.abilities| {
      DocsIgnoreSpacing(b, c.abilities[i]);
    }
  }

  lemma {:induction false} FieldDocsIgnoreSpacing(b: bool, f: Ast.AssignedField)
    ensures RecordFieldToDoc(b, Ast.StripField(f)) == RecordFieldToDoc(b, f)
    decreases f, 1
  {
    match f
    case RequiredValue(_, _, v) => DocsIgnoreSpacing(b, v);
    case OptionalValue(_, _, v) => DocsIgnoreSpacing(b, v);
    case FieldSpaceBefore(g, _) => FieldDocsIgnoreSpacing(b, g);
    case FieldSpaceAfter(g, _) => FieldDocsIgnoreSpacing(b, g);
    case _ =>
  }

  lemma {:induction false} TagDocsIgnoreSpacing(b: bool, g: Ast.Tag)
    ensures TagToDoc(b, Ast.StripTag(g)) == TagToDoc(b, g)
    decreases g, 1
  {
    match g
    case TagApply(_, args) =>
      forall i | 0 <= i < |args| {
        DocsIgnoreSpacing(b, args[i]);
      }
      var stripped := seq(|args|, i requires 0 <= i < |args| => Ast.Strip(args[i]));
      assert seq(|stripped|, i requires 0 <= i < |stripped| => TypeToDocs(b, stripped[i]))
          == seq(|args|, i requires 0 <= i < |args| => TypeToDocs(b, args[i]));
    case TagSpaceBefore(h, _) => TagDocsIgnoreSpacing(b, h);
    case TagSpaceAfter(h, _) => TagDocsIgnoreSpacing(b, h);
    case _ =>
  }

  /**
    For a bare `where`, the ability-member path and `type_to_docs` carry the
    same information: the member type is the `where`'s body and the able
    variables are its clauses.
   */
  lemma AbilityMemberAgreesWithWhere(t: Ast.Ann)
    requires t.Where?
    ensures var (ann, able) := AbilityMemberTypeToDocs(t);
      TypeToDocs(false, t) == Where(ann, seq(|able|, i requires 0 <= i < |able| => DocClause(able[i].0, able[i].1)))
  {
  }

  /**
    The ability-member path does not look through spacing: a `where` under a
    comment yields its doc type but no able variables.
   */
  lemma WrappedWhereLosesAbleVariables(inner: Ast.Ann, sp: Spaces)
    requires inner.Where?
    ensures AbilityMemberTypeToDocs(Ast.SpaceBefore(inner, sp)).1 == []
    ensures AbilityMemberTypeToDocs(Ast.SpaceBefore(inner, sp)).0.Where?
  {
    DocKindFollowsAnnotation(false, Ast.SpaceBefore(inner, sp));
  }

  /**
    The variables of an `as` header are read without looking through spacing:
    an identifier under a spacing wrapper is dropped, while the bare identifier
    is kept.
   */
  lemma SpacedAsVariableIsDropped(b: bool, left: Ast.Ann, name: string, x: string, sp: Spaces)
    ensures TypeToDocs(b, Ast.As(left, [], Ast.TypeHeader(name, [Ast.PatternSpaceAfter(Ast.Identifier(x), sp)]))).vars == []
    ensures TypeToDocs(b, Ast.As(left, [], Ast.TypeHeader(name, [Ast.Identifier(x)]))).vars == [x]
  {
  }
}
