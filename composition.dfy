/**
 How the output of the substitution is assembled from the pieces of the
 document: the first complete block is replaced and the search carries on
 after it, and a start marker that is never closed leaves the rest of the
 document as it is.
 */
module AsideBlockComposition {
  import opened Preprocessor
  import opened MarkerFacts
  import opened SearchInWindow
  import opened AsideBlockProperties

  /** The first complete block is the first match, when no start marker comes before it. */
  lemma FirstMatch(doc: string, p: nat, q: nat)
    requires IsStart(doc, p) && p + |StartMarker| <= q && IsEnd(doc, q)
    requires forall k :: p + |StartMarker| <= k < q ==> !IsEnd(doc, k)
    requires forall a :: 0 <= a < p ==> !IsStart(doc, a)
    ensures FindMatch(doc, 0) == Some(Match(p, q))
  {
    FindEndSpec(doc, p + |StartMarker|);
    assert MatchesAt(doc, p, q);
    FindMatchSpec(doc, 0);
  }

  /** When the first match is at p and closes at q, the segments start with the text before it and its block. */
  lemma FirstParse(doc: string, p: nat, q: nat)
    requires FindMatch(doc, 0) == Some(Match(p, q))
    ensures p + |StartMarker| <= q && q + |EndMarker| <= |doc|
    ensures Parse(doc) == [Verbatim(doc[..p]), Block(doc[p + |StartMarker|..q])] + ParseFrom(doc, q + |EndMarker|)
  {
    ParseStep(doc, 0, Match(p, q), q + |EndMarker|);
    assert doc[..p] == doc[0..p];
  }

  /** After the first match, the search goes on as on the rest of the document alone. */
  lemma RestAfterFirst(doc: string, p: nat, q: nat)
    requires FindMatch(doc, 0) == Some(Match(p, q))
    ensures q + |EndMarker| <= |doc| && ParseFrom(doc, q + |EndMarker|) == Parse(doc[q + |EndMarker|..])
  {
    MatchBounds(doc, 0, Match(p, q));
    CleanCutAfterMatch(doc, 0, Match(p, q));
    RestParsesAlone(doc, q + |EndMarker|);
  }

  /** When the first match is at p and closes at q, the segments are the text before, the block, and the segments of the rest. */
  lemma ParseOfFirstMatch(doc: string, p: nat, q: nat)
    requires FindMatch(doc, 0) == Some(Match(p, q))
    ensures p + |StartMarker| <= q && q + |EndMarker| <= |doc|
    ensures Parse(doc) == [Verbatim(doc[..p]), Block(doc[p + |StartMarker|..q])] + Parse(doc[q + |EndMarker|..])
  {
    RestAfterFirst(doc, p, q);
    FirstParse(doc, p, q);
    PairThenRest(Parse(doc), doc[..p], doc[p + |StartMarker|..q], ParseFrom(doc, q + |EndMarker|), Parse(doc[q + |EndMarker|..]));
  }

  lemma PairThenRest(segs: seq<Segment>, before: string, inner: string, rest: seq<Segment>, rest': seq<Segment>)
    requires segs == [Verbatim(before), Block(inner)] + rest && rest == rest'
    ensures segs == [Verbatim(before), Block(inner)] + rest'
  {
  }

  /**
   The first complete block of a document, with no start marker before it,
   is replaced by `<aside>` + render(inner) + `</aside>`; the text before it
   is kept and the rest of the document is processed on its own.
   */
  lemma FirstBlockReplaced(doc: string, p: nat, q: nat, render: string -> string)
    requires IsStart(doc, p) && p + |StartMarker| <= q && IsEnd(doc, q)
    requires forall k :: p + |StartMarker| <= k < q ==> !IsEnd(doc, k)
    requires forall a :: 0 <= a < p ==> !IsStart(doc, a)
    ensures AsideBlocks(doc, render) ==
      doc[..p] + OpenTag + render(doc[p + |StartMarker|..q]) + CloseTag + AsideBlocks(doc[q + |EndMarker|..], render)
    ensures Inners(Parse(doc)) == [doc[p + |StartMarker|..q]] + Inners(Parse(doc[q + |EndMarker|..]))
  {
    FirstMatch(doc, p, q);
    FirstMatchParts(doc, p, q, render);
  }

  /** The match the search finds first is replaced, and the search carries on after its `aside]]`. */
  lemma FirstMatchReplaced(doc: string, p: nat, q: nat, render: string -> string)
    requires FindMatch(doc, 0) == Some(Match(p, q))
    ensures ReplacedFirst(doc, Match(p, q), render)
  {
    FirstMatchParts(doc, p, q, render);
    ReplacedFirstAt(doc, p, q, render);
  }

  lemma FirstMatchParts(doc: string, p: nat, q: nat, render: string -> string)
    requires FindMatch(doc, 0) == Some(Match(p, q))
    ensures p + |StartMarker| <= q && q + |EndMarker| <= |doc|
    ensures AsideBlocks(doc, render) ==
      doc[..p] + OpenTag + render(doc[p + |StartMarker|..q]) + CloseTag + AsideBlocks(doc[q + |EndMarker|..], render)
    ensures Inners(Parse(doc)) == [doc[p + |StartMarker|..q]] + Inners(Parse(doc[q + |EndMarker|..]))
  {
    ParseOfFirstMatch(doc, p, q);
    assert AsideBlocks(doc, render) == Output(Parse(doc), render);
    assert AsideBlocks(doc[q + |EndMarker|..], render) == Output(Parse(doc[q + |EndMarker|..]), render);
    PairOutputs(Parse(doc), doc[..p], doc[p + |StartMarker|..q], Parse(doc[q + |EndMarker|..]), render);
  }

  lemma PairOutputs(segs: seq<Segment>, before: string, inner: string, rest: seq<Segment>, render: string -> string)
    requires segs == [Verbatim(before), Block(inner)] + rest
    ensures Output(segs, render) == before + OpenTag + render(inner) + CloseTag + Output(rest, render)
    ensures Inners(segs) == [inner] + Inners(rest)
  {
    OutputOfPair(before, inner, rest, render);
    InnersOfPair(before, inner, rest);
  }

  /**
   The leftmost match m is replaced by the rendered block, and the
   substitution carries on with the text after its `aside]]`.
   */
  predicate ReplacedFirst(doc: string, m: Match, render: string -> string) {
    && m.start + |StartMarker| <= m.endLine && m.endLine + |EndMarker| <= |doc|
    && AsideBlocks(doc, render) ==
      doc[..m.start] + OpenTag + render(doc[m.start + |StartMarker|..m.endLine]) + CloseTag
        + AsideBlocks(doc[m.endLine + |EndMarker|..], render)
    && Inners(Parse(doc)) == [doc[m.start + |StartMarker|..m.endLine]] + Inners(Parse(doc[m.endLine + |EndMarker|..]))
  }

  /**
   `aside_blocks` is `gsub` with this pattern: with no match the document is
   returned as it is; otherwise the leftmost match is replaced by the
   rendered block and the substitution goes on with the text after it.
   */
  lemma AsideBlocksUnfold(doc: string, render: string -> string)
    ensures FindMatch(doc, 0).None? ==> AsideBlocks(doc, render) == doc && Inners(Parse(doc)) == []
    ensures FindMatch(doc, 0).Some? ==> ReplacedFirst(doc, FindMatch(doc, 0).value, render)
  {
    match FindMatch(doc, 0)
    case None =>
      NoMatchUnchanged(doc, render);
    case Some(m) =>
      FirstMatchReplaced(doc, m.start, m.endLine, render);
      assert m == Match(m.start, m.endLine);
  }

  lemma ReplacedFirstAt(doc: string, p: nat, q: nat, render: string -> string)
    requires p + |StartMarker| <= q && q + |EndMarker| <= |doc|
    requires AsideBlocks(doc, render) ==
      doc[..p] + OpenTag + render(doc[p + |StartMarker|..q]) + CloseTag + AsideBlocks(doc[q + |EndMarker|..], render)
    requires Inners(Parse(doc)) == [doc[p + |StartMarker|..q]] + Inners(Parse(doc[q + |EndMarker|..]))
    ensures ReplacedFirst(doc, Match(p, q), render)
  {
  }

  /** Where the pieces of a glued document sit. */
  lemma GluedLayout(pre: string, inner: string, post: string)
    ensures var doc, P := pre + StartMarker + inner + EndMarker + post, |pre|;
      var Q := P + |StartMarker| + |inner|;
      && |doc| == Q + |EndMarker| + |post|
      && doc[..P] == pre && doc[P..P + |StartMarker|] == StartMarker
      && doc[P + |StartMarker|..Q] == inner && doc[Q..Q + |EndMarker|] == EndMarker
      && doc[Q + |EndMarker|..] == post
  {
    var doc, P := pre + StartMarker + inner + EndMarker + post, |pre|;
    var Q := P + |StartMarker| + |inner|;
    assert doc == pre + (StartMarker + (inner + (EndMarker + post)));
  }

  lemma GluedStart(pre: string, inner: string, post: string)
    requires |pre| == 0 || pre[|pre| - 1] == '\n'
    ensures IsStart(pre + StartMarker + inner + EndMarker + post, |pre|)
  {
    var doc, P := pre + StartMarker + inner + EndMarker + post, |pre|;
    GluedLayout(pre, inner, post);
    if P > 0 {
      assert doc[P - 1] == doc[..P][P - 1];
    }
    StartFromText(doc, P);
  }

  lemma GluedEnd(pre: string, inner: string, post: string)
    requires |inner| == 0 || inner[|inner| - 1] == '\n'
    requires |post| == 0 || post[0] == '\n'
    ensures IsEnd(pre + StartMarker + inner + EndMarker + post, |pre| + |StartMarker| + |inner|)
  {
    var doc, P := pre + StartMarker + inner + EndMarker + post, |pre|;
    var Q := P + |StartMarker| + |inner|;
    GluedLayout(pre, inner, post);
    if |inner| > 0 {
      assert doc[Q - 1] == doc[P + |StartMarker|..Q][|inner| - 1];
    } else {
      assert doc[Q - 1] == doc[P..P + |StartMarker|][|StartMarker| - 1];
    }
    if |post| > 0 {
      assert doc[Q + |EndMarker|] == doc[Q + |EndMarker|..][0];
    }
    EndFromText(doc, Q);
  }

  lemma GluedMarkers(pre: string, inner: string, post: string)
    requires |pre| == 0 || pre[|pre| - 1] == '\n'
    requires |inner| == 0 || inner[|inner| - 1] == '\n'
    requires |post| == 0 || post[0] == '\n'
    ensures var doc := pre + StartMarker + inner + EndMarker + post;
      IsStart(doc, |pre|) && IsEnd(doc, |pre| + |StartMarker| + |inner|)
  {
    GluedStart(pre, inner, post);
    GluedEnd(pre, inner, post);
  }

  /**
   No end marker lies in a window that starts a line and holds a
   well-formed inner text: one inside the text would be one of the text's
   own, and one running past its end would cover its final newline.
   */
  lemma NoEndInWindow(doc: string, lo: nat, hi: nat)
    requires 0 < lo <= hi <= |doc| && doc[lo - 1] == '\n'
    requires WellFormedInner(doc[lo..hi])
    ensures forall k :: lo <= k < hi ==> !IsEnd(doc, k)
  {
    forall k | lo <= k < hi
      ensures !IsEnd(doc, k)
    {
      if k + |EndMarker| < hi {
        EndInWindow(doc, lo, hi, k - lo);
      } else {
        assert doc[hi - 1] == doc[lo..hi][hi - lo - 1];
        NoEndAcrossNewline(doc, k, hi - 1);
      }
    }
  }

  /** Likewise, no start marker lies before a line start when the text before it has none of its own. */
  lemma NoStartInPrefix(doc: string, hi: nat)
    requires hi <= |doc| && (hi == 0 || doc[hi - 1] == '\n')
    requires forall a :: 0 <= a < hi ==> !IsStart(doc[..hi], a)
    ensures forall a :: 0 <= a < hi ==> !IsStart(doc, a)
  {
    assert doc[..hi] == doc[0..hi];
    forall a | 0 <= a < hi
      ensures !IsStart(doc, a)
    {
      if a + |StartMarker| <= hi {
        StartInWindow(doc, 0, hi, a);
      } else {
        NoStartAcrossNewline(doc, a, hi - 1);
      }
    }
  }

  /**
   A document glued from text with no start marker, one aside block whose
   inner lines contain no end-marker line, and any text starting on a new
   line becomes that text, the rendered block in `<aside>` tags, and the
   substitution applied to the rest.
   */
  lemma FirstBlockParts(doc: string, p: nat, q: nat, before: string, inner: string, after: string, render: string -> string)
    requires IsStart(doc, p) && p + |StartMarker| <= q && IsEnd(doc, q)
    requires forall k :: p + |StartMarker| <= k < q ==> !IsEnd(doc, k)
    requires forall a :: 0 <= a < p ==> !IsStart(doc, a)
    requires before == doc[..p] && inner == doc[p + |StartMarker|..q] && after == doc[q + |EndMarker|..]
    ensures AsideBlocks(doc, render) == before + OpenTag + render(inner) + CloseTag + AsideBlocks(after, render)
    ensures Inners(Parse(doc)) == [inner] + Inners(Parse(after))
  {
    FirstBlockReplaced(doc, p, q, render);
  }

  lemma BlockThenRest(pre: string, inner: string, post: string, render: string -> string)
    requires |pre| == 0 || pre[|pre| - 1] == '\n'
    requires forall a :: 0 <= a < |pre| ==> !IsStart(pre, a)
    requires WellFormedInner(inner)
    requires |post| == 0 || post[0] == '\n'
    ensures AsideBlocks(pre + StartMarker + inner + EndMarker + post, render) ==
      pre + OpenTag + render(inner) + CloseTag + AsideBlocks(post, render)
    ensures Inners(Parse(pre + StartMarker + inner + EndMarker + post)) == [inner] + Inners(Parse(post))
  {
    var doc := pre + StartMarker + inner + EndMarker + post;
    var P, Q := |pre|, |pre| + |StartMarker| + |inner|;
    GluedFirstBlock(pre, inner, post, doc);
    GluedLayout(pre, inner, post);
    FirstBlockParts(doc, P, Q, pre, inner, post, render);
  }

  lemma GluedFirstBlock(pre: string, inner: string, post: string, doc: string)
    requires |pre| == 0 || pre[|pre| - 1] == '\n'
    requires forall a :: 0 <= a < |pre| ==> !IsStart(pre, a)
    requires WellFormedInner(inner)
    requires |post| == 0 || post[0] == '\n'
    requires doc == pre + StartMarker + inner + EndMarker + post
    ensures var P, Q := |pre|, |pre| + |StartMarker| + |inner|;
      && IsStart(doc, P) && P + |StartMarker| <= Q && IsEnd(doc, Q)
      && (forall k :: P + |StartMarker| <= k < Q ==> !IsEnd(doc, k))
      && (forall a :: 0 <= a < P ==> !IsStart(doc, a))
  {
    var P, Q := |pre|, |pre| + |StartMarker| + |inner|;
    GluedLayout(pre, inner, post);
    GluedMarkers(pre, inner, post);
    assert doc[P + |StartMarker| - 1] == '\n';
    NoEndInWindow(doc, P + |StartMarker|, Q);
    if P > 0 {
      assert doc[P - 1] == doc[..P][P - 1];
    }
    NoStartInPrefix(doc, P);
  }

  lemma PrefixNone(doc: string, p: nat, i: nat, render: string -> string)
    requires Unclosed(doc, p) && i <= p && FindMatch(doc, i).None?
    ensures Output(ParseFrom(doc, i), render) == Output(ParseFrom(doc[..p], i), render) + doc[p..]
    ensures Inners(ParseFrom(doc, i)) == Inners(ParseFrom(doc[..p], i))
  {
    var pre := doc[..p];
    FindMatchPrefix(doc, p, i);
    assert ParseFrom(doc, i) == [Verbatim(doc[i..])] + [];
    assert ParseFrom(pre, i) == [Verbatim(pre[i..])] + [];
    OutputCons(Verbatim(doc[i..]), [], render);
    OutputCons(Verbatim(pre[i..]), [], render);
    InnersCons(Verbatim(doc[i..]), []);
    InnersCons(Verbatim(pre[i..]), []);
    assert doc[i..] == doc[i..p] + doc[p..];
  }

  /** The hypotheses shared by the two halves of one step of ParsePrefix. */
  predicate SameFirstMatch(doc: string, pre: string, i: nat, m: Match, next: nat) {
    && i <= |doc| && FindMatch(doc, i) == Some(m) && next == m.endLine + |EndMarker|
    && i <= |pre| && FindMatch(pre, i) == Some(m)
    && i <= m.start && m.start + |StartMarker| <= m.endLine && next <= |pre| && |pre| <= |doc|
    && pre[i..m.start] == doc[i..m.start]
    && pre[m.start + |StartMarker|..m.endLine] == doc[m.start + |StartMarker|..m.endLine]
  }

  lemma OutputAfterPair(before: string, inner: string, rest: seq<Segment>, rest': seq<Segment>, tail: string, render: string -> string)
    requires Output(rest, render) == Output(rest', render) + tail
    ensures Output([Verbatim(before), Block(inner)] + rest, render) ==
      Output([Verbatim(before), Block(inner)] + rest', render) + tail
  {
    OutputOfPair(before, inner, rest, render);
    OutputOfPair(before, inner, rest', render);
    ConcatAssoc(before + OpenTag + render(inner) + CloseTag, Output(rest', render), tail);
  }

  lemma PrefixStepOutput(doc: string, pre: string, i: nat, m: Match, next: nat, tail: string, render: string -> string)
    requires SameFirstMatch(doc, pre, i, m, next)
    requires Output(ParseFrom(doc, next), render) == Output(ParseFrom(pre, next), render) + tail
    ensures Output(ParseFrom(doc, i), render) == Output(ParseFrom(pre, i), render) + tail
  {
    ParseStep(doc, i, m, next);
    ParseStep(pre, i, m, next);
    OutputAfterPair(doc[i..m.start], doc[m.start + |StartMarker|..m.endLine], ParseFrom(doc, next), ParseFrom(pre, next), tail, render);
  }

  lemma PrefixStepInners(doc: string, pre: string, i: nat, m: Match, next: nat)
    requires SameFirstMatch(doc, pre, i, m, next)
    requires Inners(ParseFrom(doc, next)) == Inners(ParseFrom(pre, next))
    ensures Inners(ParseFrom(doc, i)) == Inners(ParseFrom(pre, i))
  {
    ParseStep(doc, i, m, next);
    ParseStep(pre, i, m, next);
    var before, inner := doc[i..m.start], doc[m.start + |StartMarker|..m.endLine];
    InnersOfPair(before, inner, ParseFrom(doc, next));
    InnersOfPair(before, inner, ParseFrom(pre, next));
  }

  lemma SliceOfPrefix(doc: string, p: nat, a: nat, b: nat)
    requires a <= b <= p <= |doc|
    ensures doc[..p][a..b] == doc[a..b]
  {
  }

  lemma PrefixSome(doc: string, p: nat, i: nat, m: Match, next: nat, render: string -> string)
    requires Unclosed(doc, p) && i <= p && FindMatch(doc, i) == Some(m) && next == m.endLine + |EndMarker|
    requires next <= p
    requires Output(ParseFrom(doc, next), render) == Output(ParseFrom(doc[..p], next), render) + doc[p..]
    requires Inners(ParseFrom(doc, next)) == Inners(ParseFrom(doc[..p], next))
    ensures Output(ParseFrom(doc, i), render) == Output(ParseFrom(doc[..p], i), render) + doc[p..]
    ensures Inners(ParseFrom(doc, i)) == Inners(ParseFrom(doc[..p], i))
  {
    FindMatchPrefix(doc, p, i);
    MatchFound(doc, i, m);
    SliceOfPrefix(doc, p, i, m.start);
    SliceOfPrefix(doc, p, m.start + |StartMarker|, m.endLine);
    assert SameFirstMatch(doc, doc[..p], i, m, next);
    PrefixStepOutput(doc, doc[..p], i, m, next, doc[p..], render);
    PrefixStepInners(doc, doc[..p], i, m, next);
  }

  lemma {:induction false} ParsePrefix(doc: string, p: nat, i: nat, render: string -> string)
    requires Unclosed(doc, p) && i <= p
    ensures Output(ParseFrom(doc, i), render) == Output(ParseFrom(doc[..p], i), render) + doc[p..]
    ensures Inners(ParseFrom(doc, i)) == Inners(ParseFrom(doc[..p], i))
    decreases |doc| - i
  {
    match FindMatch(doc, i)
    case None =>
      PrefixNone(doc, p, i, render);
    case Some(m) =>
      var next := m.endLine + |EndMarker|;
      MatchFound(doc, i, m);
      EndInPrefix(doc, p, m.endLine);
      ParsePrefix(doc, p, next, render);
      PrefixSome(doc, p, i, m, next, render);
  }

  /**
   A start marker with no end marker anywhere after it is skipped by the
   search, and so are all later start markers: the output is the
   substitution applied to the text before it, followed by the rest of the
   document unchanged, and `render` sees only the blocks before it.
   */
  lemma UnclosedStartKeepsRest(doc: string, p: nat, render: string -> string)
    requires IsStart(doc, p)
    requires forall q :: p + |StartMarker| <= q < |doc| ==> !IsEnd(doc, q)
    ensures AsideBlocks(doc, render) == AsideBlocks(doc[..p], render) + doc[p..]
    ensures Inners(Parse(doc)) == Inners(Parse(doc[..p]))
  {
    ParsePrefix(doc, p, 0, render);
  }
}
