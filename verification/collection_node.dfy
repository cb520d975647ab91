/**
  `collection_to_node`: the single-line/multiline decision for a bracketed
  collection and the per-item flags it sets once that decision is known.

  The generic layout node type and its `is_multiline` live outside this file,
  so the node type is a type parameter `N` and its multiline test a parameter;
  `merge_spaces_conservative` is a parameter as well.
 */
module CollectionNode {
  import opened Spacing
  import opened FmtAst

  datatype Braces = Round | Square | Curly

  /** `Sp`: the spacing descriptor written after the last item. */
  datatype Sp = Sp(defaultSpace: bool, forceNewline: bool, comments: Spaces)

  /** The parts of `NodeInfo` this decision reads. */
  datatype NodeInfo<N> = NodeInfo(before: Spaces, node: N, after: Spaces)

  datatype DelimitedItem<N> = DelimitedItem(before: Spaces, newline: bool, space: bool, node: N, commaAfter: bool)

  /** `Node::DelimitedSequence`. */
  datatype Delimited<N> = DelimitedSequence(braces: Braces, items: seq<DelimitedItem<N>>, after: Sp, indentItems: bool)

  /** The lowered form of item `i`; `toNode` is told whether the item is the first. */
  function InfoAt<T, N>(toNode: (bool, T) -> NodeInfo<N>, items: seq<T>, i: nat): NodeInfo<N>
    requires i < |items|
  {
    toNode(i == 0, items[i])
  }

  /**
    The leading run item `i` is given: the first item's own run with its leading
    blank lines squashed, every later item's run merged after the trailing run of
    the item before it.
   */
  function ItemBefore<T, N>(merge: (Spaces, Spaces) -> Spaces, toNode: (bool, T) -> NodeInfo<N>, items: seq<T>, i: nat): Spaces
    requires i < |items|
  {
    if i == 0 then RemoveLeadingBlankLines(InfoAt(toNode, items, 0).before)
    else merge(InfoAt(toNode, items, i - 1).after, InfoAt(toNode, items, i).before)
  }

  /** The run before the closing bracket: the last item's trailing run merged with the final comments, then squashed. */
  function FinalRun<T, N>(merge: (Spaces, Spaces) -> Spaces, toNode: (bool, T) -> NodeInfo<N>, c: Collection<T>): Spaces {
    var lastAfter := if |c.items| == 0 then [] else InfoAt(toNode, c.items, |c.items| - 1).after;
    RemoveTrailingBlankLines(merge(lastAfter, c.finalComments))
  }

  /** Among the first `n` items, one is multiline or starts with spacing. */
  predicate SomeItemMultiline<T, N>(merge: (Spaces, Spaces) -> Spaces, nodeIsMultiline: N -> bool,
                                     toNode: (bool, T) -> NodeInfo<N>, items: seq<T>, n: nat)
    requires n <= |items|
  {
    || (exists i :: 0 <= i < n && nodeIsMultiline(InfoAt(toNode, items, i).node))
    || (exists i :: 0 <= i < n && ItemBefore(merge, toNode, items, i) != [])
  }

  lemma SomeItemMultilineStep<T, N>(merge: (Spaces, Spaces) -> Spaces, nodeIsMultiline: N -> bool,
                                    toNode: (bool, T) -> NodeInfo<N>, items: seq<T>, n: nat)
    requires n < |items|
    ensures SomeItemMultiline(merge, nodeIsMultiline, toNode, items, n + 1) <==>
      || SomeItemMultiline(merge, nodeIsMultiline, toNode, items, n)
      || nodeIsMultiline(InfoAt(toNode, items, n).node)
      || ItemBefore(merge, toNode, items, n) != []
  {
  }

  /** Some item is multiline or starts with spacing, or spacing precedes the closing bracket. */
  predicate LayoutIsMultiline<T, N>(merge: (Spaces, Spaces) -> Spaces, nodeIsMultiline: N -> bool,
                                     toNode: (bool, T) -> NodeInfo<N>, c: Collection<T>)
  {
    || SomeItemMultiline(merge, nodeIsMultiline, toNode, c.items, |c.items|)
    || FinalRun(merge, toNode, c) != []
  }

  /** An item as the loop first builds it: no forced newline, a comma after it. */
  function DraftItem<T, N>(merge: (Spaces, Spaces) -> Spaces, toNode: (bool, T) -> NodeInfo<N>,
                           spacesBeforeAndAfter: bool, items: seq<T>, j: nat): DelimitedItem<N>
    requires j < |items|
  {
    DelimitedItem(ItemBefore(merge, toNode, items, j), false, j > 0 || spacesBeforeAndAfter,
                  InfoAt(toNode, items, j).node, true)
  }

  /** The loop of `collection_to_node`: lower every item and thread the previous trailing run. */
  method LowerItems<T, N>(merge: (Spaces, Spaces) -> Spaces, nodeIsMultiline: N -> bool,
                          spacesBeforeAndAfter: bool, c: Collection<T>, toNode: (bool, T) -> NodeInfo<N>)
    returns (items: seq<DelimitedItem<N>>, lastAfter: Spaces, multiline: bool)
    ensures |items| == |c.items|
    ensures forall j :: 0 <= j < |items| ==> items[j] == DraftItem(merge, toNode, spacesBeforeAndAfter, c.items, j)
    ensures lastAfter == if |c.items| == 0 then [] else InfoAt(toNode, c.items, |c.items| - 1).after
    ensures multiline <==> SomeItemMultiline(merge, nodeIsMultiline, toNode, c.items, |c.items|)
  {
    items := [];
    lastAfter := [];
    multiline := false;
    var i := 0;
    while i < |c.items|
      invariant 0 <= i <= |c.items|
      invariant |items| == i
      invariant forall j :: 0 <= j < i ==> items[j] == DraftItem(merge, toNode, spacesBeforeAndAfter, c.items, j)
      invariant lastAfter == if i == 0 then [] else InfoAt(toNode, c.items, i - 1).after
      invariant multiline <==> SomeItemMultiline(merge, nodeIsMultiline, toNode, c.items, i)
    {
      var isFirst := i == 0;
      var node := toNode(isFirst, c.items[i]);
      var before := if isFirst then RemoveLeadingBlankLines(node.before) else merge(lastAfter, node.before);
      var item := DelimitedItem(before, false, !isFirst || spacesBeforeAndAfter, node.node, true);
      assert node == InfoAt(toNode, c.items, i);
      assert item == DraftItem(merge, toNode, spacesBeforeAndAfter, c.items, i);
      SomeItemMultilineStep(merge, nodeIsMultiline, toNode, c.items, i);
      DraftsSnoc(merge, toNode, spacesBeforeAndAfter, c.items, items);
      multiline := multiline || nodeIsMultiline(node.node) || before != [];
      lastAfter := node.after;
      items := items + [item];
      i := i + 1;
    }
  }

  /** Appending the next draft keeps the list of drafts. */
  lemma DraftsSnoc<T, N>(merge: (Spaces, Spaces) -> Spaces, toNode: (bool, T) -> NodeInfo<N>,
                         spacesBeforeAndAfter: bool, xs: seq<T>, items: seq<DelimitedItem<N>>)
    requires |items| < |xs|
    requires forall j :: 0 <= j < |items| ==> items[j] == DraftItem(merge, toNode, spacesBeforeAndAfter, xs, j)
    ensures var next := items + [DraftItem(merge, toNode, spacesBeforeAndAfter, xs, |items|)];
      forall j :: 0 <= j < |next| ==> next[j] == DraftItem(merge, toNode, spacesBeforeAndAfter, xs, j)
  {
  }

  /** The flags set once the whole collection's layout is known. */
  function SetFlags<N>(items: seq<DelimitedItem<N>>, multiline: bool): (r: seq<DelimitedItem<N>>)
    ensures |r| == |items|
    ensures forall j :: 0 <= j < |r| ==>
      r[j] == items[j].(newline := multiline || items[j].newline,
                        commaAfter := if multiline || j < |items| - 1 then items[j].commaAfter else false)
  {
    if multiline then seq(|items|, j requires 0 <= j < |items| => items[j].(newline := true))
    else if |items| > 0 then items[..|items| - 1] + [items[|items| - 1].(commaAfter := false)]
    else items
  }

  /** Setting the flags on the drafts: every item gets the layout's newline, and a comma unless it is last on one line. */
  lemma {:induction false} FlaggedDrafts<T, N>(merge: (Spaces, Spaces) -> Spaces, toNode: (bool, T) -> NodeInfo<N>,
                                               spacesBeforeAndAfter: bool, xs: seq<T>, items: seq<DelimitedItem<N>>, multiline: bool)
    requires |items| == |xs|
    requires forall j :: 0 <= j < |items| ==> items[j] == DraftItem(merge, toNode, spacesBeforeAndAfter, xs, j)
    ensures var r := SetFlags(items, multiline);
      forall i :: 0 <= i < |r| ==>
        && r[i].node == InfoAt(toNode, xs, i).node
        && r[i].before == ItemBefore(merge, toNode, xs, i)
        && r[i].space == (i > 0 || spacesBeforeAndAfter)
        && r[i].newline == multiline
        && r[i].commaAfter == (multiline || i < |r| - 1)
  {
    var r := SetFlags(items, multiline);
    forall i | 0 <= i < |r|
      ensures r[i].node == InfoAt(toNode, xs, i).node
      ensures r[i].before == ItemBefore(merge, toNode, xs, i)
      ensures r[i].space == (i > 0 || spacesBeforeAndAfter)
      ensures r[i].newline == multiline
      ensures r[i].commaAfter == (multiline || i < |r| - 1)
    {
      var d := DraftItem(merge, toNode, spacesBeforeAndAfter, xs, i);
      assert items[i] == d;
      assert !d.newline && d.commaAfter;
    }
  }

  method CollectionToNode<T, N>(merge: (Spaces, Spaces) -> Spaces, nodeIsMultiline: N -> bool,
                                braces: Braces, spacesBeforeAndAfter: bool,
                                c: Collection<T>, toNode: (bool, T) -> NodeInfo<N>)
    returns (r: Delimited<N>)
    ensures r.braces == braces
    ensures |r.items| == |c.items|
    ensures r.indentItems <==> LayoutIsMultiline(merge, nodeIsMultiline, toNode, c)
    ensures r.after == Sp(|c.items| > 0 && spacesBeforeAndAfter, r.indentItems, FinalRun(merge, toNode, c))
    ensures forall i :: 0 <= i < |r.items| ==>
      && r.items[i].node == InfoAt(toNode, c.items, i).node
      && r.items[i].before == ItemBefore(merge, toNode, c.items, i)
      && r.items[i].space == (i > 0 || spacesBeforeAndAfter)
      && r.items[i].newline == r.indentItems
      && r.items[i].commaAfter == (r.indentItems || i < |r.items| - 1)
  {
    var items, lastAfter, multiline := LowerItems(merge, nodeIsMultiline, spacesBeforeAndAfter, c, toNode);
    var finalComments := RemoveTrailingBlankLines(merge(lastAfter, c.finalComments));
    assert finalComments == FinalRun(merge, toNode, c);
    multiline := multiline || finalComments != [];
    var flagged := SetFlags(items, multiline);
    FlaggedDrafts(merge, toNode, spacesBeforeAndAfter, c.items, items, multiline);
    r := DelimitedSequence(braces, flagged, Sp(|flagged| > 0 && spacesBeforeAndAfter, multiline, finalComments), multiline);
  }
}
