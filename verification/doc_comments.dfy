/**
  The two state machines that turn a comment run into documentation text:
  the doc comment attached to the next definition, and the detached doc
  blocks left at the end of a module.
 */
module DocComments {
  import opened Common
  import opened Spacing

  /** A `Newline` or a plain `LineComment`: both end a block of doc comments. */
  predicate IsBreak(c: CommentOrNewline) {
    c.Newline? || c.LineComment?
  }

  /** The text one element contributes: a doc comment's text and a newline, else nothing. */
  function Piece(c: CommentOrNewline): string {
    if c.DocComment? then c.text + "\n" else ""
  }

  /** The doc text of a run: every doc comment's text, each followed by a newline. */
  function DocText(run: Spaces): string {
    if run == [] then "" else DocText(run[..|run| - 1]) + Piece(run[|run| - 1])
  }

  lemma DocTextSnoc(s: Spaces, c: CommentOrNewline)
    ensures DocText(s + [c]) == DocText(s) + Piece(c)
  {
    assert (s + [c])[..|s|] == s;
  }

  lemma ConcatAssoc(x: string, y: string, z: string)
    ensures (x + y) + z == x + (y + z)
  {
  }

  lemma {:induction false} DocTextAppend(a: Spaces, b: Spaces)
    ensures DocText(a + b) == DocText(a) + DocText(b)
    decreases |b|
  {
    if b == [] {
      assert a + b == a;
    } else {
      var b', c := b[..|b| - 1], b[|b| - 1];
      calc {
        DocText(a + b);
        { assert a + b == (a + b') + [c]; }
        DocText((a + b') + [c]);
        { DocTextSnoc(a + b', c); }
        DocText(a + b') + Piece(c);
        { DocTextAppend(a, b'); }
        (DocText(a) + DocText(b')) + Piece(c);
        { ConcatAssoc(DocText(a), DocText(b'), Piece(c)); }
        DocText(a) + (DocText(b') + Piece(c));
        { DocTextSnoc(b', c); assert b == b' + [c]; }
        DocText(a) + DocText(b);
      }
    }
  }

  /** The position just after the last break of the run, or 0 when it has none. */
  function AfterLastBreak(run: Spaces): (k: nat)
    ensures k <= |run|
    ensures k > 0 ==> IsBreak(run[k - 1])
    ensures forall j :: k <= j < |run| ==> run[j].DocComment?
  {
    if run == [] then 0
    else if IsBreak(run[|run| - 1]) then |run|
    else AfterLastBreak(run[..|run| - 1])
  }

  /** The number of doc blocks a break closes: breaks right after a doc comment. */
  function ClosedBlocks(run: Spaces): nat {
    if |run| < 2 then 0
    else ClosedBlocks(run[..|run| - 1])
         + (if IsBreak(run[|run| - 1]) && run[|run| - 2].DocComment? then 1 else 0)
  }

  /** The strings of a list, concatenated. */
  function Flatten(blocks: seq<string>): string {
    if blocks == [] then "" else Flatten(blocks[..|blocks| - 1]) + blocks[|blocks| - 1]
  }

  /** A run of doc comments has empty doc text only when it is empty. */
  lemma DocBlockIsNonEmpty(run: Spaces)
    requires forall j :: 0 <= j < |run| ==> run[j].DocComment?
    ensures DocText(run) == "" <==> run == []
  {
    if run != [] {
      assert Piece(run[|run| - 1]) != "";
    }
  }

  /** The text before the last break and the text after it make up all the doc text. */
  lemma ClosedAndOpen(run: Spaces)
    ensures var k := AfterLastBreak(run);
      DocText(run[..k]) + DocText(run[k..]) == DocText(run)
  {
    SplitText(run, AfterLastBreak(run));
  }

  lemma SplitText(run: Spaces, k: nat)
    requires k <= |run|
    ensures DocText(run[..k]) + DocText(run[k..]) == DocText(run)
  {
    DocTextAppend(run[..k], run[k..]);
    assert run[..k] + run[k..] == run;
  }

  /** Appending a block appends its text. */
  lemma FlattenSnoc(blocks: seq<string>, b: string)
    ensures Flatten(blocks + [b]) == Flatten(blocks) + b
  {
    assert (blocks + [b])[..|blocks|] == blocks;
  }

  /**
    The doc attached to what follows a run: the text of the doc comments after
    its last break, or `None` when there are none.
   */
  function AttachedDocs(run: Spaces): Option<string> {
    var docs := DocText(run[AfterLastBreak(run)..]);
    if docs == "" then None else Some(docs)
  }

  /** A run has no attached doc exactly when it is empty or ends in a break. */
  lemma AttachedDocsNeedTrailingDocComment(run: Spaces)
    ensures AttachedDocs(run).None? <==> run == [] || IsBreak(run[|run| - 1])
  {
    DocBlockIsNonEmpty(run[AfterLastBreak(run)..]);
  }

  /**
    The text a scan of the run holds at its end: a break empties it, a doc
    comment appends its text and a newline.
   */
  function OpenText(run: Spaces): string {
    if run == [] then ""
    else if IsBreak(run[|run| - 1]) then ""
    else OpenText(run[..|run| - 1]) + Piece(run[|run| - 1])
  }

  lemma OpenTextSnoc(p: Spaces, c: CommentOrNewline)
    ensures OpenText(p + [c]) == if IsBreak(c) then "" else OpenText(p) + Piece(c)
  {
    assert (p + [c])[..|p|] == p;
  }

  lemma AfterLastBreakSnoc(p: Spaces, c: CommentOrNewline)
    ensures AfterLastBreak(p + [c]) == if IsBreak(c) then |p| + 1 else AfterLastBreak(p)
  {
    assert (p + [c])[..|p|] == p;
  }

  /** The scan holds text exactly when the run ends in a doc comment. */
  lemma OpenTextNonEmpty(run: Spaces)
    ensures OpenText(run) != "" <==> run != [] && run[|run| - 1].DocComment?
  {
    if run != [] && run[|run| - 1].DocComment? {
      assert |Piece(run[|run| - 1])| > 0;
    }
  }

  /** What the scan holds is the doc text after the last break. */
  lemma {:induction false} OpenTextMeaning(run: Spaces)
    ensures OpenText(run) == DocText(run[AfterLastBreak(run)..])
    decreases |run|
  {
    if run != [] {
      var p, c := run[..|run| - 1], run[|run| - 1];
      assert run == p + [c];
      OpenTextSnoc(p, c);
      AfterLastBreakSnoc(p, c);
      if IsBreak(c) {
        assert run[|run|..] == [];
      } else {
        OpenTextMeaning(p);
        var k := AfterLastBreak(p);
        assert run[k..] == p[k..] + [c];
        DocTextSnoc(p[k..], c);
      }
    }
  }

  /** The doc attached to what follows a run is what the scan holds, when it holds anything. */
  lemma AttachedDocsIsOpenText(run: Spaces)
    ensures AttachedDocs(run) == if OpenText(run) == "" then None else Some(OpenText(run))
  {
    OpenTextMeaning(run);
  }

  /**
    The blocks a scan of the run closes: at every break the text it holds
    becomes a block when it is non-empty.
   */
  function DetachedBlocks(run: Spaces): seq<string> {
    if run == [] then []
    else
      var prefix := run[..|run| - 1];
      DetachedBlocks(prefix)
        + (if IsBreak(run[|run| - 1]) && OpenText(prefix) != "" then [OpenText(prefix)] else [])
  }

  lemma DetachedBlocksSnoc(p: Spaces, c: CommentOrNewline)
    ensures DetachedBlocks(p + [c])
      == DetachedBlocks(p) + (if IsBreak(c) && OpenText(p) != "" then [OpenText(p)] else [])
  {
    assert (p + [c])[..|p|] == p;
  }

  /** At every break, the doc that would be attached to what follows the run up to it. */
  function BreakDocs(run: Spaces): (r: seq<Option<string>>)
    ensures |r| == |run|
  {
    seq(|run|, i requires 0 <= i < |run| => if IsBreak(run[i]) then AttachedDocs(run[..i]) else None)
  }

  lemma BreakDocsSnoc(p: Spaces, c: CommentOrNewline)
    ensures BreakDocs(p + [c]) == BreakDocs(p) + [if IsBreak(c) then AttachedDocs(p) else None]
  {
    var run := p + [c];
    assert run[..|p|] == p;
    forall i | 0 <= i < |p|
      ensures BreakDocs(run)[i] == BreakDocs(p)[i]
    {
      assert run[..i] == p[..i];
    }
  }

  /**
    The detached blocks are, in order, the docs that would be attached at each
    break of the run, where there is one.
   */
  lemma {:induction false} DetachedBlocksAreAttachedDocs(run: Spaces)
    ensures DetachedBlocks(run) == Somes(BreakDocs(run))
    decreases |run|
  {
    if run != [] {
      var p, c := run[..|run| - 1], run[|run| - 1];
      assert run == p + [c];
      DetachedBlocksAreAttachedDocs(p);
      DetachedBlocksSnoc(p, c);
      AttachedDocsIsOpenText(p);
      BreakDocsSnoc(p, c);
      SomesSnoc(BreakDocs(p), if IsBreak(c) then AttachedDocs(p) else None);
    }
  }

  /**
    The block closed by the break at `i` is the doc attached to `run[..i]`, at
    the position given by the number of blocks closed before `i`.
   */
  lemma DetachedBlockAt(run: Spaces, i: nat)
    requires i < |run| && IsBreak(run[i]) && AttachedDocs(run[..i]).Some?
    ensures var p := CountSome(BreakDocs(run)[..i]);
      p < |DetachedBlocks(run)| && DetachedBlocks(run)[p] == AttachedDocs(run[..i]).value
  {
    DetachedBlocksAreAttachedDocs(run);
    SomesAt(BreakDocs(run));
    assert BreakDocs(run)[i] == AttachedDocs(run[..i]);
  }

  lemma ClosedBlocksSnoc(p: Spaces, c: CommentOrNewline)
    ensures ClosedBlocks(p + [c])
      == ClosedBlocks(p) + (if IsBreak(c) && p != [] && p[|p| - 1].DocComment? then 1 else 0)
  {
    assert (p + [c])[..|p|] == p;
  }

  lemma PartitionSnoc(p: Spaces, c: CommentOrNewline)
    requires Flatten(DetachedBlocks(p)) + OpenText(p) == DocText(p)
    ensures Flatten(DetachedBlocks(p + [c])) + OpenText(p + [c]) == DocText(p + [c])
  {
    OpenTextSnoc(p, c);
    DetachedBlocksSnoc(p, c);
    DocTextSnoc(p, c);
    var blocks, open := DetachedBlocks(p), OpenText(p);
    if IsBreak(c) {
      assert DocText(p + [c]) == DocText(p) + "";
      assert OpenText(p + [c]) == "";
      if open != "" {
        assert DetachedBlocks(p + [c]) == blocks + [open];
        FlattenSnoc(blocks, open);
      } else {
        assert DetachedBlocks(p + [c]) == blocks + [];
        assert blocks + [] == blocks;
      }
    } else {
      assert DetachedBlocks(p + [c]) == blocks + [];
      assert blocks + [] == blocks;
      assert OpenText(p + [c]) == open + Piece(c);
      ConcatAssoc(Flatten(blocks), open, Piece(c));
    }
  }

  /** The closed blocks followed by the open text hold all the doc text, in order. */
  lemma {:induction false} DetachedBlocksPartition(run: Spaces)
    ensures Flatten(DetachedBlocks(run)) + OpenText(run) == DocText(run)
    decreases |run|
  {
    if run != [] {
      var p, c := run[..|run| - 1], run[|run| - 1];
      assert run == p + [c];
      DetachedBlocksPartition(p);
      PartitionSnoc(p, c);
    }
  }

  /** There is one block per break directly preceded by a doc comment. */
  lemma {:induction false} DetachedBlocksCount(run: Spaces)
    ensures |DetachedBlocks(run)| == ClosedBlocks(run)
    decreases |run|
  {
    if run != [] {
      var p, c := run[..|run| - 1], run[|run| - 1];
      assert run == p + [c];
      DetachedBlocksCount(p);
      OpenTextNonEmpty(p);
      DetachedBlocksSnoc(p, c);
      ClosedBlocksSnoc(p, c);
    }
  }

  /** No block is empty. */
  lemma {:induction false} DetachedBlocksNonEmpty(run: Spaces)
    ensures forall j :: 0 <= j < |DetachedBlocks(run)| ==> DetachedBlocks(run)[j] != ""
    decreases |run|
  {
    if run != [] {
      var p, c := run[..|run| - 1], run[|run| - 1];
      assert run == p + [c];
      DetachedBlocksNonEmpty(p);
      DetachedBlocksSnoc(p, c);
    }
  }

  /**
    The detached blocks are non-empty, one per break directly preceded by a
    doc comment, and together hold all doc text up to the last break, in
    order: a final unclosed block is dropped.
   */
  lemma DetachedBlocksShape(run: Spaces)
    ensures Flatten(DetachedBlocks(run)) == DocText(run[..AfterLastBreak(run)])
    ensures |DetachedBlocks(run)| == ClosedBlocks(run)
    ensures forall j :: 0 <= j < |DetachedBlocks(run)| ==> DetachedBlocks(run)[j] != ""
  {
    DetachedBlocksPartition(run);
    DetachedBlocksCount(run);
    DetachedBlocksNonEmpty(run);
    OpenTextMeaning(run);
    ClosedAndOpen(run);
    var closed := Flatten(DetachedBlocks(run));
    var k := AfterLastBreak(run);
    assert closed + DocText(run[k..]) == DocText(run[..k]) + DocText(run[k..]);
    assert closed == (closed + DocText(run[k..]))[..|closed|];
  }

  /** A doc comment closed by a blank line gives one detached block. */
  lemma OneBlockExample(x: string)
    ensures DetachedBlocks([DocComment(x), Newline]) == [x + "\n"]
  {
    var a := DocComment(x);
    assert [] + [a] == [a];
    assert [a] + [Newline] == [a, Newline];
    OpenTextSnoc([], a);
    assert OpenText([]) == "";
    assert Piece(a) == x + "\n";
    assert OpenText([a]) == x + "\n";
    DetachedBlocksSnoc([], a);
    assert DetachedBlocks([]) == [];
    assert DetachedBlocks([a]) == [];
    DetachedBlocksSnoc([a], Newline);
    assert DetachedBlocks([a, Newline]) == [] + [x + "\n"];
  }

  /** Two doc comments, each closed by a blank line, give two detached blocks. */
  lemma DetachedBlocksExample(x: string, y: string)
    ensures DetachedBlocks([DocComment(x), Newline] + [DocComment(y), Newline]) == [x + "\n", y + "\n"]
  {
    var a, b := DocComment(x), DocComment(y);
    var s2 := [a, Newline];
    OneBlockExample(x);
    assert s2 + [b] + [Newline] == s2 + [b, Newline];
    OpenTextSnoc(s2, b);
    assert OpenText(s2) == "" by { OpenTextSnoc([a], Newline); assert [a] + [Newline] == s2; }
    assert OpenText(s2 + [b]) == y + "\n";
    DetachedBlocksSnoc(s2, b);
    assert DetachedBlocks(s2 + [b]) == [x + "\n"] + [];
    DetachedBlocksSnoc(s2 + [b], Newline);
    assert DetachedBlocks(s2 + [b] + [Newline]) == [x + "\n"] + [y + "\n"];
  }

  /** `comments_or_new_lines_to_docs`: a break clears the text gathered so far. */
  method CommentsToDocs(run: Spaces) returns (r: Option<string>)
    ensures r == AttachedDocs(run)
  {
    var docs := "";
    var i := 0;
    while i < |run|
      invariant 0 <= i <= |run|
      invariant docs == OpenText(run[..i])
    {
      assert run[..i + 1] == run[..i] + [run[i]];
      OpenTextSnoc(run[..i], run[i]);
      if IsBreak(run[i]) {
        docs := "";
      } else {
        ConcatAssoc(docs, run[i].text, "\n");
        docs := docs + run[i].text + "\n";
      }
      i := i + 1;
    }
    assert run[..|run|] == run;
    AttachedDocsIsOpenText(run);
    if docs == "" {
      r := None;
    } else {
      r := Some(docs);
    }
  }

  /**
    `detached_docs_from_comments_and_new_lines`: at every break the text
    gathered so far becomes a block when it is non-empty; a final unclosed
    block is dropped.
   */
  method DetachedDocs(run: Spaces) returns (blocks: seq<string>)
    ensures blocks == Somes(BreakDocs(run))
  {
    blocks := [];
    var docs := "";
    var i := 0;
    while i < |run|
      invariant 0 <= i <= |run|
      invariant docs == OpenText(run[..i])
      invariant blocks == DetachedBlocks(run[..i])
    {
      assert run[..i + 1] == run[..i] + [run[i]];
      OpenTextSnoc(run[..i], run[i]);
      DetachedBlocksSnoc(run[..i], run[i]);
      if IsBreak(run[i]) {
        if docs != "" {
          blocks := blocks + [docs];
        }
        docs := "";
      } else {
        ConcatAssoc(docs, run[i].text, "\n");
        docs := docs + run[i].text + "\n";
      }
      i := i + 1;
    }
    assert run[..|run|] == run;
    DetachedBlocksAreAttachedDocs(run);
  }

  /**
    Every doc comment's text ends up in exactly one place: in a detached block
    or in the doc attached to what follows the run.
   */
  method DocsArePartitioned(run: Spaces) returns (detached: seq<string>, attached: Option<string>)
    ensures Flatten(detached) + (if attached.Some? then attached.value else "") == DocText(run)
  {
    detached := DetachedDocs(run);
    attached := CommentsToDocs(run);
    DetachedBlocksAreAttachedDocs(run);
    DetachedBlocksPartition(run);
    AttachedDocsIsOpenText(run);
  }
}
