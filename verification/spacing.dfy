/**
  Comment-or-newline runs: the spacing a parser attaches before or after a
  syntax node, and the two edge-squashing helpers the formatter applies to the
  run inside a collection's brackets.
 */
module Spacing {

  /** One marker of a spacing run. Every marker conceptually ends in a line break. */
  datatype CommentOrNewline =
    | Newline
    | LineComment(text: string)
    | DocComment(text: string)

  type Spaces = seq<CommentOrNewline>

  /** Every marker of `sp` is a blank-line marker. */
  predicate AllNewlines(sp: Spaces) {
    forall i :: 0 <= i < |sp| ==> sp[i].Newline?
  }

  /** The comments of a run, in order, with the blank-line markers dropped. */
  function Comments(sp: Spaces): Spaces
  {
    if sp == [] then []
    else (if sp[0].Newline? then [] else [sp[0]]) + Comments(sp[1..])
  }

  lemma {:induction false} CommentsAppend(a: Spaces, b: Spaces)
    ensures Comments(a + b) == Comments(a) + Comments(b)
  {
    if a == [] {
      assert a + b == b;
    } else {
      assert (a + b)[1..] == a[1..] + b;
      CommentsAppend(a[1..], b);
    }
  }

  lemma {:induction false} CommentsOfNewlines(sp: Spaces)
    requires AllNewlines(sp)
    ensures Comments(sp) == []
  {
    if sp != [] {
      CommentsOfNewlines(sp[1..]);
    }
  }

  /** Number of blank-line markers the run starts with (`take_while(is_newline).count()`). */
  function LeadingNewlines(sp: Spaces): (k: nat)
    ensures k <= |sp|
    ensures AllNewlines(sp[..k])
    ensures k == |sp| || !sp[k].Newline?
  {
    if sp == [] || !sp[0].Newline? then 0
    else 1 + LeadingNewlines(sp[1..])
  }

  /** Number of blank-line markers the run ends with (`rev().take_while(is_newline).count()`). */
  function TrailingNewlines(sp: Spaces): (k: nat)
    ensures k <= |sp|
    ensures AllNewlines(sp[|sp| - k..])
    ensures k == |sp| || !sp[|sp| - k - 1].Newline?
  {
    if sp == [] || !sp[|sp| - 1].Newline? then 0
    else 1 + TrailingNewlines(sp[..|sp| - 1])
  }

  /**
    Squash the blank lines at the start of a run: of k > 1 leading blank-line
    markers only the last survives; a run with at most one is kept as it is.
   */
  function RemoveLeadingBlankLines(sp: Spaces): (r: Spaces)
    ensures |r| <= |sp| && r == sp[|sp| - |r|..]
    ensures LeadingNewlines(sp) > 1 ==> |sp| - |r| == LeadingNewlines(sp) - 1
    ensures LeadingNewlines(sp) <= 1 ==> r == sp
    ensures LeadingNewlines(r) == if LeadingNewlines(sp) > 1 then 1 else LeadingNewlines(sp)
    ensures Comments(r) == Comments(sp)
  {
    var chomp := LeadingNewlines(sp);
    if chomp > 1 then
      var r := sp[chomp - 1..];
      assert sp == sp[..chomp - 1] + r;
      assert AllNewlines(sp[..chomp - 1]) by {
        assert forall i :: 0 <= i < chomp - 1 ==> sp[..chomp - 1][i] == sp[..chomp][i];
      }
      CommentsAppend(sp[..chomp - 1], r);
      CommentsOfNewlines(sp[..chomp - 1]);
      assert r[0] == sp[..chomp][chomp - 1];
      assert LeadingNewlines(r) == 1 by {
        assert r[1..] == sp[chomp..];
      }
      r
    else
      sp
  }

  /**
    Squash the blank lines at the end of a run. Deliberately NOT the mirror of
    `RemoveLeadingBlankLines`: a non-empty run of blank lines only collapses to
    its first marker, and otherwise every trailing blank-line marker is dropped.
   */
  function RemoveTrailingBlankLines(sp: Spaces): (r: Spaces)
    ensures |r| <= |sp| && r == sp[..|r|]
    ensures sp != [] && AllNewlines(sp) ==> r == [Newline]
    ensures !AllNewlines(sp) ==> |r| == |sp| - TrailingNewlines(sp) && TrailingNewlines(r) == 0
    ensures sp == [] ==> r == []
    ensures Comments(r) == Comments(sp)
  {
    var chomp := TrailingNewlines(sp);
    if chomp == |sp| && |sp| >= 1 then
      assert sp == sp[..1] + sp[1..];
      assert AllNewlines(sp[1..]) by {
        assert forall i :: 0 <= i < |sp| - 1 ==> sp[1..][i] == sp[|sp| - chomp..][i + 1];
      }
      CommentsAppend(sp[..1], sp[1..]);
      CommentsOfNewlines(sp[1..]);
      CommentsOfNewlines(sp[..1]);
      CommentsOfNewlines(sp);
      sp[..1]
    else
      var r := sp[..|sp| - chomp];
      assert sp == r + sp[|sp| - chomp..];
      CommentsAppend(r, sp[|sp| - chomp..]);
      CommentsOfNewlines(sp[|sp| - chomp..]);
      r
  }

  /** Pure blank-line runs: the leading rule keeps one marker, like the trailing rule. */
  lemma BlankRunsSquashAlike(sp: Spaces)
    requires sp != [] && AllNewlines(sp)
    ensures RemoveLeadingBlankLines(sp) == RemoveTrailingBlankLines(sp) == [Newline]
  {
    assert LeadingNewlines(sp) == |sp|;
    var r := RemoveLeadingBlankLines(sp);
    assert |r| == 1;
    assert r[0] == sp[|sp| - 1];
  }

  /**
    The asymmetry in one run: a comment followed by a blank line loses the blank
    line at the trailing edge, while the mirrored run keeps it at the leading edge.
   */
  lemma EdgeSquashingIsAsymmetric(c: string)
    ensures RemoveTrailingBlankLines([LineComment(c), Newline]) == [LineComment(c)]
    ensures RemoveLeadingBlankLines([Newline, LineComment(c)]) == [Newline, LineComment(c)]
  {
    var t := [LineComment(c), Newline];
    assert TrailingNewlines(t[..1]) == 0;
    assert TrailingNewlines(t) == 1;
    var l := [Newline, LineComment(c)];
    assert LeadingNewlines(l[1..]) == 0;
  }
}
