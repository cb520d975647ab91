/**
  Space lifting (`ann_lift_spaces`) and its inverse direction (`lower`).

  Lifting moves the spacing held by `SpaceBefore`/`SpaceAfter` wrappers to the
  outer boundary of a node: the leading run comes from the first operand, the
  trailing run from the last operand (the last argument, the result, the
  extension, the last ability or the last header variable).

  The collaborators whose code lives outside this file are parameters:
  `merge_spaces_conservative`, the `maybe_before`/`maybe_after` wrappers of the
  parser's `Spaceable` trait and `pattern_lift_spaces_after`. Everything proved
  below without `HooksSound` holds for every choice of them.
 */
module SpaceLifting {
  import opened Common
  import opened Spacing
  import opened FmtAst
  import opened Multiline

  datatype LiftedAfter<T> = LiftedAfter(item: T, after: Spaces)

  datatype Hooks = Hooks(
    merge: (Spaces, Spaces) -> Spaces,
    maybeBefore: (TypeAnn, Spaces) -> TypeAnn,
    maybeAfter: (TypeAnn, Spaces) -> TypeAnn,
    patternLiftAfter: Pattern -> LiftedAfter<Pattern>)

  /** `Spaces<TypeAnnotation>`: a node with the runs lifted off its two edges. */
  datatype Lifted = Lifted(before: Spaces, item: TypeAnn, after: Spaces)

  datatype LiftedBefore = LiftedBefore(before: Spaces, item: TypeAnn)

  function Lift(h: Hooks, t: TypeAnn): (r: Lifted)
    decreases t, 1
    ensures !IsWrapper(r.item)
  {
    match t
    case Apply(q, n, args) =>
      if |args| == 0 then Lifted([], t, [])
      else
        var k := |args| - 1;
        var init := seq(k, i requires 0 <= i < k => Lower(Lift(h, args[i])));
        var last := Lift(h, args[k]);
        var lastItem := if last.before == [] then last.item else SpaceBefore(last.item, last.before);
        Lifted([], Apply(q, n, init + [lastItem]), last.after)
    case Function(args, arrow, result) =>
      var res := LiftAfter(h, result);
      if |args| == 0 then Lifted([], Function(args, arrow, res.item), res.after)
      else
        var first := LiftBefore(h, args[0]);
        Lifted(first.before, Function([first.item] + args[1..], arrow, res.item), res.after)
    case SpaceBefore(inner, sp) =>
      var l := Lift(h, inner);
      Lifted(h.merge(sp, l.before), l.item, l.after)
    case SpaceAfter(inner, sp) =>
      var l := Lift(h, inner);
      Lifted(l.before, l.item, h.merge(l.after, sp))
    case Tuple(elems, ext) =>
      if ext.Some? then
        var l := LiftAfter(h, ext.value);
        Lifted([], Tuple(elems, Some(l.item)), l.after)
      else Lifted([], t, [])
    case Record(fields, ext) =>
      if ext.Some? then
        var l := LiftAfter(h, ext.value);
        Lifted([], Record(fields, Some(l.item)), l.after)
      else Lifted([], t, [])
    case TagUnion(tags, ext) =>
      if ext.Some? then
        var l := LiftAfter(h, ext.value);
        Lifted([], TagUnion(tags, Some(l.item)), l.after)
      else Lifted([], t, [])
    case BoundVariable(_) => Lifted([], t, [])
    case Inferred => Lifted([], t, [])
    case Wildcard => Lifted([], t, [])
    case Malformed(_) => Lifted([], t, [])
    case Where(inner, clauses) =>
      var ni := LiftBefore(h, inner);
      if |clauses| == 0 then Lifted(ni.before, Where(ni.item, clauses), [])
      else
        var k := |clauses| - 1;
        var lc := ClauseLiftAfter(h, clauses[k]);
        Lifted(ni.before, Where(ni.item, clauses[..k] + [lc.item]), lc.after)
    case As(left, comments, header) =>
      var nl := LiftBefore(h, left);
      var nh := HeaderLiftAfter(h, header);
      Lifted(nl.before, As(nl.item, comments, nh.item), nh.after)
  }

  /** `ann_lift_spaces_before`: the trailing run is put back on the item. */
  function LiftBefore(h: Hooks, t: TypeAnn): LiftedBefore
    decreases t, 2
  {
    var l := Lift(h, t);
    LiftedBefore(l.before, h.maybeAfter(l.item, l.after))
  }

  /** `ann_lift_spaces_after`: the leading run is put back on the item. */
  function LiftAfter(h: Hooks, t: TypeAnn): LiftedAfter<TypeAnn>
    decreases t, 2
  {
    var l := Lift(h, t);
    LiftedAfter(h.maybeBefore(l.item, l.before), l.after)
  }

  /** `implements_clause_lift_spaces_after`: lifts off the last ability's trailing run. */
  function ClauseLiftAfter(h: Hooks, c: ImplementsClause): LiftedAfter<ImplementsClause>
    decreases c, 3
  {
    if |c.abilities| == 0 then LiftedAfter(c, [])
    else
      var k := |c.abilities| - 1;
      var l := LiftAfter(h, c.abilities[k]);
      LiftedAfter(ImplementsClause(c.variable, c.abilities[..k] + [l.item]), l.after)
  }

  /** `type_head_lift_spaces_after`: lifts off the last variable's trailing run. */
  function HeaderLiftAfter(h: Hooks, header: TypeHeader): LiftedAfter<TypeHeader> {
    if |header.vars| == 0 then LiftedAfter(header, [])
    else
      var k := |header.vars| - 1;
      var l := h.patternLiftAfter(header.vars[k]);
      LiftedAfter(TypeHeader(header.headerName, header.vars[..k] + [l.item]), l.after)
  }

  /** `lower`: re-attach non-empty runs as wrappers, leading outermost. */
  function Lower(l: Lifted): TypeAnn {
    if l.before == [] && l.after == [] then l.item
    else if l.before == [] then SpaceAfter(l.item, l.after)
    else if l.after == [] then SpaceBefore(l.item, l.before)
    else SpaceBefore(SpaceAfter(l.item, l.after), l.before)
  }

  /** Reads back the (at most two) wrappers `Lower` adds. */
  function Unlower(t: TypeAnn): Lifted {
    match t
    case SpaceBefore(SpaceAfter(x, a), b) => Lifted(b, x, a)
    case SpaceBefore(x, b) => Lifted(b, x, [])
    case SpaceAfter(x, a) => Lifted([], x, a)
    case _ => Lifted([], t, [])
  }

  /** Lowering loses nothing: the runs and the item can be read back. */
  lemma LowerRoundTrip(l: Lifted)
    requires !IsWrapper(l.item)
    ensures Unlower(Lower(l)) == l
  {
  }

  /** A lowered node is multiline exactly when it carries a run or its item is multiline. */
  lemma LowerMultiline(l: Lifted)
    ensures IsMultiline(Lower(l)) <==> l.before != [] || l.after != [] || IsMultiline(l.item)
  {
  }

  /** The boundary shape of a lifted node, per variant. */
  lemma LiftBoundaries(h: Hooks, t: TypeAnn)
    ensures t.BoundVariable? || t.Inferred? || t.Wildcard? || t.Malformed? ==> Lift(h, t) == Lifted([], t, [])
    ensures t.Apply? && t.args == [] ==> Lift(h, t) == Lifted([], t, [])
    ensures (t.Record? || t.Tuple? || t.TagUnion?) && t.ext.None? ==> Lift(h, t) == Lifted([], t, [])
    ensures t.Apply? ==>
      && Lift(h, t).before == []
      && Lift(h, t).item.Apply?
      && Lift(h, t).item.qualifier == t.qualifier && Lift(h, t).item.name == t.name
      && |Lift(h, t).item.args| == |t.args|
    ensures t.Apply? && t.args != [] ==> Lift(h, t).after == Lift(h, t.args[|t.args| - 1]).after
    ensures t.Function? ==>
      && Lift(h, t).item.Function?
      && |Lift(h, t).item.args| == |t.args|
      && Lift(h, t).item.arrow == t.arrow
      && Lift(h, t).before == (if t.args == [] then [] else Lift(h, t.args[0]).before)
      && Lift(h, t).after == Lift(h, t.result).after
    ensures (t.Record? || t.Tuple? || t.TagUnion?) && t.ext.Some? ==>
      Lift(h, t).before == [] && Lift(h, t).after == Lift(h, t.ext.value).after
    ensures t.SpaceBefore? ==>
      Lift(h, t) == Lifted(h.merge(t.spaces, Lift(h, t.inner).before), Lift(h, t.inner).item, Lift(h, t.inner).after)
    ensures t.SpaceAfter? ==>
      Lift(h, t) == Lifted(Lift(h, t.inner).before, Lift(h, t.inner).item, h.merge(Lift(h, t.inner).after, t.spaces))
  {
  }

  /**
    A node whose lifted leading run is non-empty is multiline: leading spacing
    only ever comes from wrappers and from first operands that are themselves
    multiline.
   */
  lemma {:induction false} LeadingRunMeansMultiline(h: Hooks, t: TypeAnn)
    ensures Lift(h, t).before != [] ==> IsMultiline(t)
    decreases t
  {
    match t
    case Function(args, _, _) =>
      if args != [] {
        assert Lift(h, t).before == Lift(h, args[0]).before;
        LeadingRunMeansMultiline(h, args[0]);
        assert Lift(h, t).before != [] ==> IsMultiline(args[0]);
      }
    case Where(inner, _) =>
      assert Lift(h, t).before == Lift(h, inner).before;
      LeadingRunMeansMultiline(h, inner);
    case As(left, _, _) =>
      assert Lift(h, t).before == Lift(h, left).before;
      LeadingRunMeansMultiline(h, left);
    case _ =>
  }

  /** The collaborators only add or remove spacing. */
  ghost predicate HooksSound(h: Hooks) {
    && (forall x, sp :: Strip(h.maybeBefore(x, sp)) == Strip(x))
    && (forall x, sp :: Strip(h.maybeAfter(x, sp)) == Strip(x))
    && (forall p :: StripPattern(h.patternLiftAfter(p).item) == StripPattern(p))
  }

  /** The conventional collaborators: wrap only non-empty runs, peel one trailing pattern wrapper. */
  function ReferenceHooks(): Hooks {
    Hooks(
      (a: Spaces, b: Spaces) => a + b,
      (x: TypeAnn, sp: Spaces) => if sp == [] then x else SpaceBefore(x, sp),
      (x: TypeAnn, sp: Spaces) => if sp == [] then x else SpaceAfter(x, sp),
      (p: Pattern) => if p.PatternSpaceAfter? then LiftedAfter(p.pattern, p.spaces) else LiftedAfter(p, []))
  }

  lemma ReferenceHooksSound()
    ensures HooksSound(ReferenceHooks())
  {
    var h := ReferenceHooks();
    forall x, sp ensures Strip(h.maybeBefore(x, sp)) == Strip(x) {
      if sp != [] {
        assert h.maybeBefore(x, sp) == SpaceBefore(x, sp);
      }
    }
    forall x, sp ensures Strip(h.maybeAfter(x, sp)) == Strip(x) {
      if sp != [] {
        assert h.maybeAfter(x, sp) == SpaceAfter(x, sp);
      }
    }
    forall p ensures StripPattern(h.patternLiftAfter(p).item) == StripPattern(p) {
      if p.PatternSpaceAfter? {
        assert h.patternLiftAfter(p).item == p.pattern;
      }
    }
  }

  lemma StripLower(l: Lifted)
    ensures Strip(Lower(l)) == Strip(l.item)
  {
  }

  /**
    Lifting only moves spacing: with sound collaborators, the lifted item (and
    its lowered form) mean the same tree as the input.
   */
  lemma {:induction false} LiftPreservesMeaning(h: Hooks, t: TypeAnn)
    requires HooksSound(h)
    ensures Strip(Lift(h, t).item) == Strip(t)
    ensures Strip(Lower(Lift(h, t))) == Strip(t)
    decreases t, 1
  {
    StripLower(Lift(h, t));
    match t
    case Apply(_, _, args) =>
      ApplyLiftPreservesMeaning(h, t);
    case Function(_, _, _) =>
      FunctionLiftPreservesMeaning(h, t);
    case SpaceBefore(inner, _) =>
      LiftPreservesMeaning(h, inner);
    case SpaceAfter(inner, _) =>
      LiftPreservesMeaning(h, inner);
    case Tuple(_, ext) =>
      if ext.Some? {
        LiftAfterPreservesMeaning(h, ext.value);
      }
    case Record(_, ext) =>
      if ext.Some? {
        LiftAfterPreservesMeaning(h, ext.value);
      }
    case TagUnion(_, ext) =>
      if ext.Some? {
        LiftAfterPreservesMeaning(h, ext.value);
      }
    case Where(_, _) =>
      WhereLiftPreservesMeaning(h, t);
    case As(left, _, header) =>
      LiftBeforePreservesMeaning(h, left);
      HeaderLiftPreservesMeaning(h, header);
    case _ =>
  }

  lemma {:induction false} LiftBeforePreservesMeaning(h: Hooks, t: TypeAnn)
    requires HooksSound(h)
    ensures Strip(LiftBefore(h, t).item) == Strip(t)
    decreases t, 2
  {
    LiftPreservesMeaning(h, t);
  }

  lemma {:induction false} LiftAfterPreservesMeaning(h: Hooks, t: TypeAnn)
    requires HooksSound(h)
    ensures Strip(LiftAfter(h, t).item) == Strip(t)
    decreases t, 2
  {
    LiftPreservesMeaning(h, t);
  }

  lemma {:induction false} ApplyLiftPreservesMeaning(h: Hooks, t: TypeAnn)
    requires HooksSound(h) && t.Apply?
    ensures Strip(Lift(h, t).item) == Strip(t)
    decreases t, 0
  {
    var args := t.args;
    if |args| > 0 {
      var k := |args| - 1;
      var newArgs := Lift(h, t).item.args;
      forall i | 0 <= i < |args|
        ensures Strip(newArgs[i]) == Strip(args[i])
      {
        LiftPreservesMeaning(h, args[i]);
      }
      assert Strip(Lift(h, t).item).args == Strip(t).args;
    }
  }

  lemma {:induction false} FunctionLiftPreservesMeaning(h: Hooks, t: TypeAnn)
    requires HooksSound(h) && t.Function?
    ensures Strip(Lift(h, t).item) == Strip(t)
    decreases t, 0
  {
    var args := t.args;
    LiftAfterPreservesMeaning(h, t.result);
    if |args| > 0 {
      LiftBeforePreservesMeaning(h, args[0]);
      var newArgs := Lift(h, t).item.args;
      assert newArgs == [LiftBefore(h, args[0]).item] + args[1..];
      forall i | 0 <= i < |args|
        ensures Strip(newArgs[i]) == Strip(args[i])
      {
      }
      assert Strip(Lift(h, t).item).args == Strip(t).args;
    }
  }

  lemma {:induction false} WhereLiftPreservesMeaning(h: Hooks, t: TypeAnn)
    requires HooksSound(h) && t.Where?
    ensures Strip(Lift(h, t).item) == Strip(t)
    decreases t, 0
  {
    var clauses := t.clauses;
    LiftBeforePreservesMeaning(h, t.ann);
    if |clauses| > 0 {
      var k := |clauses| - 1;
      ClauseLiftPreservesMeaning(h, clauses[k]);
      var newClauses := Lift(h, t).item.clauses;
      assert newClauses == clauses[..k] + [ClauseLiftAfter(h, clauses[k]).item];
      forall i | 0 <= i < |clauses|
        ensures StripClause(newClauses[i]) == StripClause(clauses[i])
      {
      }
      assert Strip(Lift(h, t).item).clauses == Strip(t).clauses;
    }
  }

  lemma {:induction false} ClauseLiftPreservesMeaning(h: Hooks, c: ImplementsClause)
    requires HooksSound(h)
    ensures StripClause(ClauseLiftAfter(h, c).item) == StripClause(c)
    decreases c, 3
  {
    if |c.abilities| > 0 {
      var k := |c.abilities| - 1;
      LiftAfterPreservesMeaning(h, c.abilities[k]);
      var r := ClauseLiftAfter(h, c).item;
      assert r.abilities == c.abilities[..k] + [LiftAfter(h, c.abilities[k]).item];
      forall i | 0 <= i < |c.abilities|
        ensures Strip(r.abilities[i]) == Strip(c.abilities[i])
      {
      }
      assert StripClause(r).abilities == StripClause(c).abilities;
    }
  }

  lemma HeaderLiftPreservesMeaning(h: Hooks, header: TypeHeader)
    requires HooksSound(h)
    ensures StripHeader(HeaderLiftAfter(h, header).item) == StripHeader(header)
  {
    if |header.vars| > 0 {
      var r := HeaderLiftAfter(h, header).item;
      forall i | 0 <= i < |header.vars|
        ensures StripPattern(r.vars[i]) == StripPattern(header.vars[i])
      {
      }
      assert StripHeader(r).vars == StripHeader(header).vars;
    }
  }
}
