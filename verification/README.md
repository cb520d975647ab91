# Roc formatter spacing, doc extraction, offset slices and integer literals in Dafny

This project models four small, independent pure cores of the Roc compiler:

- **Type-annotation spacing and layout decisions** (`annotation.rs`). The parser
  attaches comments and blank lines to nodes through `SpaceBefore`/`SpaceAfter`
  wrappers. Before laying a type out, the formatter *lifts* that spacing to a
  node's outer boundary (`ann_lift_spaces`) and *lowers* it back into at most two
  wrappers (`lower`). Whether a node must break across lines is a purely
  structural test (`is_multiline`); no width is measured. A bracketed collection
  threads each item's trailing run into the next item's leading run, squashes the
  blank lines at its two edges with deliberately different rules, and then sets
  every item's flags at once (`collection_to_node`). Two small tables decide
  precedence (`ann_prec`) and whether an extension is parenthesised
  (`ext_needs_parens`).
- **Documentation extraction** (`docs.rs`). A type annotation maps to a doc tree
  in which annotation spacing vanishes, malformed tags and fields are dropped and a missing
  extension becomes `NoTypeAnn`. Two small state machines turn a comment run into
  the doc comment attached to the next definition and into detached doc blocks.
- **`Slice`** (`soa_slice.rs`). An array window made of a 32-bit start and a
  16-bit length, with its index arithmetic and exact-size iterator.
- **Integer literal finishing** (`num.rs`). Underscores are dropped, the text is
  parsed as an `i64` in radix 10, 16, 8 or 2, and a failure returns the raw text.

Modules: `Common` (Option/Result), `Spacing` (comment runs, edge squashing),
`FmtAst` (the formatter's tree and `Strip`), `Multiline`, `SpaceLifting`,
`Parens`, `CollectionNode`, `DocsAst`, `Docs`, `DocComments`, `SoaSlice`,
`NumLiteral`.

Modelling choices:

- **Meaning is `Strip`.** `Strip` erases every wrapper and empties every comment
  run. "Lifting preserves meaning" means that the lifted node and the input have
  the same `Strip` image.
- **Collaborators are parameters.** Several collaborators live outside
  `annotation.rs`: `merge_spaces_conservative`, the `maybe_before`/`maybe_after`
  wrappers, `pattern_lift_spaces_after`, and the layout node type with its
  `is_multiline`. They are passed in as function values. The `Hooks` record
  holds the lifting collaborators, and `CollectionToNode` takes the node type as
  a type parameter. Facts stated without `HooksSound` hold for every choice of
  collaborators. `HooksSound` only says that the wrapper helpers add or remove
  spacing. `ReferenceHooks` is one concrete choice, and `ReferenceHooksSound`
  proves that it satisfies `HooksSound`.
- **Panics become preconditions.** These are the debug-build panics: a `u32`
  overflow in `at`, `advance`, `next` and `size_hint`, and an out-of-range
  `get_slice`. `usize` is taken as 64 bits wide.
- **The library parse is specified.** `i64::from_str_radix` and `str::parse::<i64>`
  are specified by `NumLiteral.ParseI64`: an optional `+` or `-`, then at least
  one digit valid in the radix (letters in either case), then a value inside the
  `i64` range. `NumLiteral.FromStrRadix` implements it with the library's
  digit-by-digit checked arithmetic, and its contract states that it agrees
  with the specification.

Two details of the code that the model keeps:

- The two edges of a collection are squashed differently. At the opening edge
  (`remove_leading_blank_lines`) one blank-line marker survives. At the closing
  edge (`remove_trailing_blank_lines`) every blank-line marker after the last
  comment is dropped; only a run of blank lines alone keeps a single marker.
- `is_multiline` does not consult every child. The abilities of an
  `implements` clause never make a node multiline
  (`ImplementsClause::is_multiline` is always false), and neither do the
  header and the comments of an `as`.

## Model

| member | source | states |
|---|---|---|
| Spacing.RemoveLeadingBlankLines | crates/compiler/fmt/src/annotation.rs:1482-1489 | With k > 1 leading newline markers, exactly k-1 are dropped and one remains. Otherwise the run is unchanged. The result is a suffix of the input and keeps every comment in order. |
| Spacing.RemoveTrailingBlankLines | crates/compiler/fmt/src/annotation.rs:1491-1500 | A non-empty all-newline run collapses to one `Newline`. Otherwise every trailing newline marker is dropped and none remains. The result is a prefix and keeps every comment in order. |
| Spacing.BlankRunsSquashAlike | crates/compiler/fmt/src/annotation.rs:1482-1500 | On a non-empty run of blank lines only, both edge rules yield the single marker `[Newline]`. |
| Spacing.EdgeSquashingIsAsymmetric | crates/compiler/fmt/src/annotation.rs:1482-1500 | The rules are not mirror images. A comment then a blank line loses the blank line at the trailing edge. The mirrored run keeps it at the leading edge. |
| Multiline.IsMultiline | crates/compiler/fmt/src/annotation.rs:157-208 | The structural multiline test of a type. `MultilineByVariant` and `StrippedIsSingleLine` state its behaviour. |
| Multiline.IsCollectionMultiline | crates/compiler/fmt/src/annotation.rs:112-119 | A collection is multiline when it has final comments or some multiline item. `MultilineByVariant` states how collections use it. |
| Multiline.FieldIsMultiline | crates/compiler/fmt/src/annotation.rs:672-682 | A field is multiline when it has spacing before its colon or a multiline value; a label alone never is, a spacing wrapper always is. `MultilineByVariant` states how records use it, and `StrippedFieldIsSingleLine` that a stripped field is single-line. |
| Multiline.TagIsMultiline | crates/compiler/fmt/src/annotation.rs:786-794 | A tag is multiline when some argument is; a spacing wrapper always is. `MultilineByVariant` states how tag unions use it, and `StrippedTagIsSingleLine` that a stripped tag is single-line. |
| Multiline.ClauseIsMultiline | crates/compiler/fmt/src/annotation.rs:834-838 | An `implements` clause is never multiline. `MultilineByVariant` states that a `where` is multiline exactly when its body is. |
| Multiline.MultilineByVariant | crates/compiler/fmt/src/annotation.rs:157-208 | Atoms are never multiline and wrappers always are. `Function` is multiline iff its result or some argument is. `Apply` iff some argument is. `As` iff its left side is. `Where` iff its body is. A record, tuple or tag union iff its extension is multiline or `is_collection_multiline` holds (final comments, or some multiline item). |
| Multiline.StrippedIsSingleLine | crates/compiler/fmt/src/annotation.rs:157-208 | Once every comment and wrapper is erased, no tree is multiline. Only spacing makes a type break across lines. |
| Multiline.TyIsOutdentable | crates/compiler/fmt/src/annotation.rs:549-574 | Whether an application's last argument may start on the application's line. `OutdentableIsMultilineCollection` states what it accepts. |
| Multiline.OutdentableIsMultilineCollection | crates/compiler/fmt/src/annotation.rs:549-574 | An outdentable type is multiline. Its core under wrappers and `where` is a multiline record, tag union or tuple. |
| Multiline.ExceptLast | crates/compiler/fmt/src/annotation.rs:960-966 | Empty for an empty list. Otherwise the result followed by the last item is the whole list. |
| SpaceLifting.Lift | crates/compiler/fmt/src/annotation.rs:968-1137 | The lifted item never has a spacing wrapper on top: all edge spacing is in the `before`/`after` runs. |
| SpaceLifting.LiftBoundaries | crates/compiler/fmt/src/annotation.rs:968-1137 | Atoms, argument-less `Apply` and extension-less collections come back unchanged with empty runs. `Apply` keeps its name and argument count, gets an empty leading run, and takes its trailing run from its last argument. `Function` keeps its arity and arrow, takes its leading run from its first argument and its trailing run from its result. An extension supplies a collection's trailing run. Wrappers merge their run into the matching edge. |
| SpaceLifting.LeadingRunMeansMultiline | crates/compiler/fmt/src/annotation.rs:968-1137 | A non-empty lifted leading run only comes from a multiline node. |
| SpaceLifting.LiftPreservesMeaning | crates/compiler/fmt/src/annotation.rs:968-1137 | With sound collaborators, the lifted item and its lowered form both have the input's `Strip` image. Lifting only moves spacing. |
| SpaceLifting.LiftBefore | crates/compiler/fmt/src/annotation.rs:1160-1169 | Lifts only the leading run and puts the trailing run back on the item. `LiftBeforePreservesMeaning` states that it keeps the meaning. |
| SpaceLifting.LiftAfter | crates/compiler/fmt/src/annotation.rs:1171-1180 | Lifts only the trailing run and puts the leading run back on the item. `LiftAfterPreservesMeaning` states that it keeps the meaning. |
| SpaceLifting.ClauseLiftAfter | crates/compiler/fmt/src/annotation.rs:1139-1158 | Lifts the trailing run of an `implements` clause's last ability. `ClauseLiftPreservesMeaning` states that it keeps the meaning. |
| SpaceLifting.HeaderLiftAfter | crates/compiler/fmt/src/annotation.rs:1182-1201 | Lifts the trailing run of an `as` header's last variable. `HeaderLiftPreservesMeaning` states that it keeps the meaning. |
| SpaceLifting.Lower | crates/compiler/fmt/src/annotation.rs:460-480 | Re-attaches the non-empty runs as wrappers, leading outermost. `LowerRoundTrip` and `LowerMultiline` state its inverse and its multiline behaviour. |
| SpaceLifting.LiftBeforePreservesMeaning | crates/compiler/fmt/src/annotation.rs:1160-1169 | `ann_lift_spaces_before` keeps the meaning of its operand. |
| SpaceLifting.LiftAfterPreservesMeaning | crates/compiler/fmt/src/annotation.rs:1171-1180 | `ann_lift_spaces_after` keeps the meaning of its operand. |
| SpaceLifting.ClauseLiftPreservesMeaning | crates/compiler/fmt/src/annotation.rs:1139-1158 | Lifting the last ability's trailing run off an `implements` clause keeps the clause's meaning. |
| SpaceLifting.HeaderLiftPreservesMeaning | crates/compiler/fmt/src/annotation.rs:1182-1201 | Lifting the last variable's trailing run off an `as` header keeps the header's meaning. |
| SpaceLifting.LowerRoundTrip | crates/compiler/fmt/src/annotation.rs:460-480 | `lower` loses nothing: for a non-wrapper item, both runs and the item read back from the wrappers it builds. |
| SpaceLifting.LowerMultiline | crates/compiler/fmt/src/annotation.rs:460-480 | A lowered node is multiline iff a run is non-empty or the item itself is multiline. |
| Parens.AnnPrec | crates/compiler/fmt/src/annotation.rs:1408-1425 | The precedence a node lowers to, with wrappers transparent. `ExtParensAgreeWithPrec` and `LiftPreservesPrec` state its behaviour. |
| Parens.ExtNeedsParens | crates/compiler/fmt/src/annotation.rs:536-547 | Whether an extension needs parentheses. `ExtNeedsParensTable` states the table. |
| Parens.ExtParensNeeded | crates/compiler/fmt/src/annotation.rs:519-534 | The decision `fmt_ext` makes: a lifted leading run, or an item that needs parentheses. `ExtWithoutParensIsSimple` states which extensions go bare. |
| Parens.ExtNeedsParensTable | crates/compiler/fmt/src/annotation.rs:536-547 | False for records, tag unions, tuples, variables, `*` and `_`. For `Apply`, true iff it has arguments. True for every other variant. |
| Parens.ExtParensAgreeWithPrec | crates/compiler/fmt/src/annotation.rs:1408-1425 | Away from wrappers, malformed nodes and applications, an extension is parenthesised iff `ann_prec` is not `Term`. |
| Parens.LiftPreservesPrec | crates/compiler/fmt/src/annotation.rs:1408-1425 | Lifting never changes a node's precedence. |
| Parens.ExtWithoutParensIsSimple | crates/compiler/fmt/src/annotation.rs:519-534 | With sound collaborators, `fmt_ext` leaves an extension bare only when, comments aside, it is one of: a collection, a variable, `*`, `_`, or an argument-less application. |
| CollectionNode.LowerItems | crates/compiler/fmt/src/annotation.rs:1437-1454 | The item loop threads each item's trailing run into the next item's leading run. The first item's leading blank lines are squashed. The loop flags multiline iff some node is multiline or some computed leading run is non-empty. |
| CollectionNode.CollectionToNode | crates/compiler/fmt/src/annotation.rs:1427-1480 | The item count and node order are kept. `indent_items` and `force_newline` are set iff some node is multiline, some leading run is non-empty, or the squashed final run is non-empty. When multiline, every item gets `newline` and keeps its comma. Otherwise only the last item loses its comma. |
| Docs.DocKindFollowsAnnotation | crates/compiler/load_internal/src/docs.rs:348-477 | The doc node has the kind of the annotation under its wrappers. It is `NoTypeAnn` exactly for malformed or inferred annotations, and never an obscured union, an obscured record or an ability. |
| Docs.DocsIgnoreSpacing | crates/compiler/load_internal/src/docs.rs:406-411 | Erasing every comment and every annotation, field, tag and clause wrapper leaves the documentation unchanged. The variables of an `as` header keep their wrappers, which do matter (`SpacedAsVariableIsDropped`). |
| Docs.FunctionFlagIsIrrelevant | crates/compiler/load_internal/src/docs.rs:348-477 | The in-function flag never changes the documentation. |
| Docs.MissingExtensionIsNoTypeAnn | crates/compiler/load_internal/src/docs.rs:359-362 | A record, tuple or tag union without an extension documents its extension as `NoTypeAnn`. |
| Docs.ApplyDocs | crates/compiler/load_internal/src/docs.rs:370-387 | An application's doc name is `module.name`, or `name` when the module is empty. Its parts correspond one-to-one, in order, to the arguments. |
| Docs.QualifiedNameRoundTrip | crates/compiler/load_internal/src/docs.rs:370-387 | For a type name without dots, module and name read back from the doc name. |
| Docs.TypeToDocs | crates/compiler/load_internal/src/docs.rs:348-477 | Maps an annotation to its doc tree. Its behaviour is stated by `DocKindFollowsAnnotation`, `DocsIgnoreSpacing`, `FunctionFlagIsIrrelevant`, `MissingExtensionIsNoTypeAnn`, `ApplyDocs` and the two `Keeps` lemmas below. |
| Docs.ClauseToDocs | crates/compiler/load_internal/src/docs.rs:453-470 | Maps an `implements` clause of a `where` to its variable and the docs of its abilities, in order. `AbilityMemberAgreesWithWhere` relates it to the ability-member path. |
| Docs.TagUnionKeepsWellFormedTags | crates/compiler/load_internal/src/docs.rs:350-367 | A documented union has one doc tag per well-formed tag, in order: the doc of the well-formed tag at `i` sits at the number of well-formed tags before `i`. Every well-formed tag's doc is present. |
| Docs.RecordKeepsWellFormedFields | crates/compiler/load_internal/src/docs.rs:388-405 | A documented record has one doc field per well-formed field, in order: the doc of the well-formed field at `i` sits at the number of well-formed fields before `i`. Every well-formed field's doc is present. |
| Common.Somes | crates/compiler/load_internal/src/docs.rs:353-357 | `filter_map`: the result holds exactly the values of the `Some`s and is no longer than the input. `SomesAppend` and `SomesAt` state its order. |
| Common.SomesAppend | crates/compiler/load_internal/src/docs.rs:353-357 | Dropping `None`s (`filter_map`) distributes over concatenation. |
| Common.SomesAt | crates/compiler/load_internal/src/docs.rs:353-357 | `filter_map` keeps one value per `Some`, in order: the value of the `Some` at `i` is at the number of `Some`s before `i`. |
| Docs.IdentifierVars | crates/compiler/load_internal/src/docs.rs:425-435 | The `as` variables are the identifier patterns of the header, in order: one per identifier, the identifier at `i` at the number of identifiers before `i`. Nothing else appears. |
| Docs.RecordFieldToDoc | crates/compiler/load_internal/src/docs.rs:505-525 | `None` iff the field is malformed under its wrappers. Otherwise the name is kept, required, optional and label-only fields map to their own kinds, and a field with a value documents `type_to_docs` of that value. |
| Docs.TagToDoc | crates/compiler/load_internal/src/docs.rs:527-546 | `None` iff the tag is malformed under its wrappers. Otherwise the name is kept, and value `i` is `type_to_docs` of argument `i`, one per argument. |
| Docs.AbilityMemberTypeToDocs | crates/compiler/load_internal/src/docs.rs:479-503 | A non-`where` type has no able variables. A `where` gives its body's doc and one (variable, abilities) pair per clause, in order. |
| Docs.AbilityMemberAgreesWithWhere | crates/compiler/load_internal/src/docs.rs:479-503 | For a bare `where`, the ability-member path carries the same data as `type_to_docs`. |
| Docs.SpacedAsVariableIsDropped | crates/compiler/load_internal/src/docs.rs:425-435 | An `as` header variable under a spacing wrapper is not an identifier pattern and is dropped from the documented variables; the bare identifier is kept. |
| Docs.WrappedWhereLosesAbleVariables | crates/compiler/load_internal/src/docs.rs:479-503 | The ability-member path does not look through spacing. A `where` under a comment yields a `Where` doc but no able variables. |
| DocComments.CommentsToDocs | crates/compiler/load_internal/src/docs.rs:548-570 | The state machine clears its text at every `Newline`/`LineComment` and appends each doc comment's text and a newline. Its result is `AttachedDocs`: the text of the doc comments after the last break, or `None` when that text is empty. |
| DocComments.AttachedDocsNeedTrailingDocComment | crates/compiler/load_internal/src/docs.rs:548-570 | There is no attached doc exactly when the run is empty or its last element is a `Newline` or `LineComment`. |
| DocComments.OpenTextMeaning | crates/compiler/load_internal/src/docs.rs:548-570 | The text the scan holds after a run is the doc text after the run's last break. |
| DocComments.DetachedDocs | crates/compiler/load_internal/src/docs.rs:131-156 | The blocks are, in order, the doc that would be attached to the run up to each break, for every break where there is one. |
| DocComments.DetachedBlocksAreAttachedDocs | crates/compiler/load_internal/src/docs.rs:131-156 | The scan's blocks (text held at a break, when non-empty) are exactly the attached docs at each break, in order. |
| DocComments.DetachedBlockAt | crates/compiler/load_internal/src/docs.rs:131-156 | The block closed by the break at `i` is the doc attached to the run before `i`, at the position given by the number of blocks closed before `i`. |
| DocComments.DetachedBlocksShape | crates/compiler/load_internal/src/docs.rs:131-156 | Every block is non-empty. There is one block per break directly preceded by a doc comment. Together the blocks hold all doc text up to the last break, in order, so a final unclosed block is dropped. |
| DocComments.DetachedBlocksExample | crates/compiler/load_internal/src/docs.rs:131-156 | Two doc comments, each followed by a blank line, give the two blocks `x\n` and `y\n`. |
| DocComments.DocsArePartitioned | crates/compiler/load_internal/src/docs.rs:131-156 | The detached blocks followed by the attached doc are exactly the doc text of the whole run. |
| SoaSlice.Empty | crates/soa/src/soa_slice.rs:46-52 | Start 0, length 0, and empty. |
| SoaSlice.Default | crates/soa/src/soa_slice.rs:39-43 | The default slice starts at 0, has length 0 and is empty. |
| SoaSlice.New | crates/soa/src/soa_slice.rs:111-117 | The slice's indices run from `start` to `start + length`. It is empty iff `length` is 0. |
| SoaSlice.Indices | crates/soa/src/soa_slice.rs:84-87 | The range starts at `start`, and its width is `len()`. |
| SoaSlice.Len | crates/soa/src/soa_slice.rs:89-91 | `len()` is `length`. |
| SoaSlice.IsEmpty | crates/soa/src/soa_slice.rs:93-95 | `is_empty()` holds iff `length` is 0. |
| SoaSlice.IsEmptyMeansNoIndices | crates/soa/src/soa_slice.rs:93-95 | `is_empty()` iff `length` is 0, iff the index range is empty. |
| SoaSlice.AtStart | crates/soa/src/soa_slice.rs:97-102 | The first index of the range, the same as `at(0)`. |
| SoaSlice.At | crates/soa/src/soa_slice.rs:104-109 | The index is `start + i` with `i` truncated to 32 bits, so exactly `start + i` for `i < 2^32`. The addition must not overflow. |
| SoaSlice.Advance | crates/soa/src/soa_slice.rs:72-74 | `start` grows by `amount` and `length` is unchanged, so both range ends shift by `amount`. |
| SoaSlice.GetSlice | crates/soa/src/soa_slice.rs:76-78 | A result of length `len()` whose i-th element is the array's element at `start + i`, the same as at `at(i)`. Requires the range to be in bounds. |
| SoaSlice.IntoIter | crates/soa/src/soa_slice.rs:136-141 | The iterator starts at the slice's first index. |
| SoaSlice.Next | crates/soa/src/soa_slice.rs:152-165 | Yields `current` and steps by one iff `current` is below the end. Otherwise it returns `None` and changes nothing. |
| SoaSlice.SizeHint | crates/soa/src/soa_slice.rs:167-170 | The upper bound is the lower bound. |
| SoaSlice.RemainingIsConsecutive | crates/soa/src/soa_slice.rs:152-165 | From any state, the iterator yields `current, current+1, …` up to the end, and nothing once past it. |
| SoaSlice.IterationYieldsTheSlice | crates/soa/src/soa_slice.rs:136-165 | A whole slice yields exactly `length` indices, `start, start+1, …`, and the i-th equals `at(i)`. |
| SoaSlice.SizeHintIsExact | crates/soa/src/soa_slice.rs:167-170 | `size_hint` equals the number of items `next` will still yield. |
| SoaSlice.ExhaustedStaysExhausted | crates/soa/src/soa_slice.rs:152-165 | Once `next` returns `None`, it keeps returning `None` and yields nothing more. |
| NumLiteral.FromStrRadix | src/can/num.rs:75 | Agrees with the library-parse specification, and every value it returns is in the `i64` range. |
| NumLiteral.FinishParsingInt | src/can/num.rs:60-64 | `Ok` iff the literal with its underscores removed parses in radix 10. The value is that parse and lies in the `i64` range. `Err` carries the original raw text. |
| NumLiteral.FinishParsingBase | src/can/num.rs:66-76 | The same for the base's radix: `Hex` 16, `Octal` 8, `Binary` 2. |
| NumLiteral.Radix | src/can/num.rs:68-72 | The radix of a base is 2, 8 or 16. |
| NumLiteral.RadixIsOneToOne | src/can/num.rs:68-72 | Two bases share a radix only when they are the same base. |
| NumLiteral.UnderscoreIsIgnored | src/can/num.rs:62-63 | Inserting an underscore anywhere leaves the text that is parsed unchanged. |
| NumLiteral.RemoveUnderscores | src/can/num.rs:63 | The result is the characters of the text other than `_`, in order (the `filter_map` of `Common.Somes` over the text), so it has no underscore and is no longer than the input. |
| NumLiteral.ParseToLiteral | src/can/num.rs:75 | Every `i64` written out in a radix (sign, then digits) parses back to itself. |

## Left out

- Everything that writes text: `fmt_ty_ann`, the `format_with_options` bodies, `format_assigned_field_help`, `fmt_ty_collection`, `fmt_tag_collection`, `fmt_ty_field_collection` and the renderer. They emit into a text buffer whose API is not part of this model. Only the parenthesis decision of `fmt_ext` is modelled (`Parens.ExtParensNeeded`).
- `to_node`/`Nodify` (the impls in `annotation.rs` and elsewhere), `NodeSequenceBuilder`, `add_parens`/`parens_around_node` and the full parens table. They build the layout nodes that the text renderer consumes, and this model stops at the layout decisions.
- The bodies of `merge_spaces_conservative`, `maybe_before`/`maybe_after` and `pattern_lift_spaces_after`. Their code is outside `annotation.rs`, so they are parameters.
- SpaceLifting.LiftPreservesMeaning: idempotence of lifting and comment preservation through lifting are not stated. Both depend on what `merge_spaces_conservative` does. Only the shape facts and `Strip`-meaning are proved.
- CollectionNode.CollectionToNode: `NodeInfo` is reduced to its `before`, `node` and `after` parts, and the node type is abstract. The `needs_indent` and `prec` fields are not modelled.
- The `dbg!` calls in `to_node`, arena lifetimes, `Loc` regions and the `snakify` flag. None of them affects the modelled results.
- `generate_module_docs` and `generate_entry_docs`. They depend on scopes, identifier tables, symbols and definition storage that are not part of this model.
- Doc comment text is modelled as a string with no encoding. The tree's `Loc` positions are dropped.
- `finish_parsing_float` and `float_expr_from_result` (floating point), and `int_expr_from_result` (environment and constraint plumbing).
- `Slice`'s `Debug` impl, `PhantomData`, the derived ordering, `start()`, `get_slice_mut`, and the `unsafe` constructors. The constructors behave like the safe ones.
- SoaSlice.At: release-build wrap-around is not modelled. An overflowing addition is excluded by a precondition, which is the debug-build panic.
- SoaSlice.Advance: release-build wrap-around is not modelled, for the same reason.
- SoaSlice.Next: release-build wrap-around of `start + length` is not modelled, for the same reason.
- SoaSlice.SizeHint: release-build wrap-around of `start + length - current` is not modelled. A precondition excludes it: the end must fit in 32 bits and `current` must not pass it, as in a debug build.
