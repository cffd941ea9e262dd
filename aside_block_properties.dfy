/**
 What the aside-block substitution promises: text without a complete block
 passes through unchanged, an unterminated start marker and everything after
 it come back verbatim, each block is replaced by exactly
 `<aside>` + render(inner) + `</aside>` with `inner` closed by the nearest end
 marker, and `render` sees nothing but the inner texts.
 */
module AsideBlockProperties {
  import opened Preprocessor
  import opened MarkerFacts

  lemma SourceCons(seg: Segment, segs: seq<Segment>)
    ensures Source([seg] + segs) == SegmentSource(seg) + Source(segs)
  {
    assert ([seg] + segs)[1..] == segs;
  }

  lemma OutputCons(seg: Segment, segs: seq<Segment>, render: string -> string)
    ensures Output([seg] + segs, render) == SegmentOutput(seg, render) + Output(segs, render)
  {
    assert ([seg] + segs)[1..] == segs;
  }

  lemma InnersCons(seg: Segment, segs: seq<Segment>)
    ensures Inners([seg] + segs) == (if seg.Block? then [seg.inner] else []) + Inners(segs)
  {
    assert ([seg] + segs)[1..] == segs;
  }

  lemma ConcatAssoc(a: string, b: string, c: string)
    ensures a + (b + c) == (a + b) + c
  {
  }

  lemma OutputOfPair(before: string, inner: string, rest: seq<Segment>, render: string -> string)
    ensures Output([Verbatim(before), Block(inner)] + rest, render) ==
      before + OpenTag + render(inner) + CloseTag + Output(rest, render)
  {
    OutputCons(Block(inner), rest, render);
    OutputCons(Verbatim(before), [Block(inner)] + rest, render);
    assert [Verbatim(before), Block(inner)] + rest == [Verbatim(before)] + ([Block(inner)] + rest);
  }

  lemma InnersOfPair(before: string, inner: string, rest: seq<Segment>)
    ensures Inners([Verbatim(before), Block(inner)] + rest) == [inner] + Inners(rest)
  {
    InnersCons(Block(inner), rest);
    InnersCons(Verbatim(before), [Block(inner)] + rest);
    assert [Verbatim(before), Block(inner)] + rest == [Verbatim(before)] + ([Block(inner)] + rest);
  }

  lemma SourceOfPair(before: string, inner: string, rest: seq<Segment>)
    ensures Source([Verbatim(before), Block(inner)] + rest) == before + StartMarker + inner + EndMarker + Source(rest)
  {
    SourceCons(Block(inner), rest);
    SourceCons(Verbatim(before), [Block(inner)] + rest);
    assert [Verbatim(before), Block(inner)] + rest == [Verbatim(before)] + ([Block(inner)] + rest);
  }

  /** The text from i is the text before a match, its two markers around the inner text, and the text after it. */
  lemma SplitAtMatch(doc: string, i: nat, p: nat, q: nat)
    requires i <= p && p + |StartMarker| <= q && q + |EndMarker| <= |doc|
    requires doc[p..p + |StartMarker|] == StartMarker && doc[q..q + |EndMarker|] == EndMarker
    ensures doc[i..] == doc[i..p] + StartMarker + doc[p + |StartMarker|..q] + EndMarker + doc[q + |EndMarker|..]
  {
    assert doc[i..] == doc[i..p] + doc[p..p + 8] + doc[p + 8..q] + doc[q..q + 7] + doc[q + 7..];
  }

  /**
   Nothing is lost or reordered: putting the markers back around every block
   and concatenating the segments gives back the text from i.
   */
  lemma {:induction false} ParseFromRoundTrip(doc: string, i: nat)
    requires i <= |doc|
    ensures Source(ParseFrom(doc, i)) == doc[i..]
    decreases |doc| - i
  {
    match FindMatch(doc, i)
    case None =>
      assert ParseFrom(doc, i) == [Verbatim(doc[i..])];
      SourceCons(Verbatim(doc[i..]), []);
    case Some(m) =>
      var next := m.endLine + |EndMarker|;
      ParseStep(doc, i, m, next);
      ParseFromRoundTrip(doc, next);
      RoundTripStep(doc, i, m, next);
  }

  /** The text from i, cut at the match the search finds there. */
  lemma MatchText(doc: string, i: nat, m: Match)
    requires FindMatch(doc, i) == Some(m)
    ensures i <= m.start && m.start + |StartMarker| <= m.endLine && m.endLine + |EndMarker| <= |doc|
    ensures doc[i..] == doc[i..m.start] + StartMarker + doc[m.start + |StartMarker|..m.endLine] + EndMarker + doc[m.endLine + |EndMarker|..]
  {
    MatchMarkers(doc, i, m);
    SplitAtMatch(doc, i, m.start, m.endLine);
  }

  /** The match the search finds holds the two marker texts. */
  lemma MatchMarkers(doc: string, i: nat, m: Match)
    requires FindMatch(doc, i) == Some(m)
    ensures i <= m.start && m.start + |StartMarker| <= m.endLine && m.endLine + |EndMarker| <= |doc|
    ensures doc[m.start..m.start + |StartMarker|] == StartMarker && doc[m.endLine..m.endLine + |EndMarker|] == EndMarker
  {
    MatchFound(doc, i, m);
    StartMarkerAt(doc, m.start);
    EndMarkerAt(doc, m.endLine);
  }

  lemma RoundTripStep(doc: string, i: nat, m: Match, next: nat)
    requires i <= |doc| && FindMatch(doc, i) == Some(m) && next == m.endLine + |EndMarker|
    requires next <= |doc| && Source(ParseFrom(doc, next)) == doc[next..]
    ensures Source(ParseFrom(doc, i)) == doc[i..]
  {
    ParseStep(doc, i, m, next);
    MatchText(doc, i, m);
    SourceJoin(ParseFrom(doc, i), doc[i..m.start], doc[m.start + |StartMarker|..m.endLine], ParseFrom(doc, next), doc[i..], doc[next..]);
  }

  lemma SourceJoin(segs: seq<Segment>, before: string, inner: string, rest: seq<Segment>, text: string, after: string)
    requires segs == [Verbatim(before), Block(inner)] + rest
    requires Source(rest) == after
    requires text == before + StartMarker + inner + EndMarker + after
    ensures Source(segs) == text
  {
    SourceOfPair(before, inner, rest);
  }

  lemma ParseRoundTrip(doc: string)
    ensures Source(Parse(doc)) == doc
  {
    ParseFromRoundTrip(doc, 0);
  }

  /**
   A document in which no start marker has an end marker after it comes
   back unchanged, and `render` is never called.
   */
  lemma NoBlockIdentity(doc: string, render: string -> string)
    requires forall p: nat, q: nat :: IsStart(doc, p) && p + |StartMarker| <= q ==> !IsEnd(doc, q)
    ensures Inners(Parse(doc)) == []
    ensures AsideBlocks(doc, render) == doc
  {
    FindMatchSpec(doc, 0);
    match FindMatch(doc, 0)
    case Some(m) =>
      FindEndSpec(doc, m.start + |StartMarker|);
      assert false;
    case None =>
      NoMatchUnchanged(doc, render);
  }

  /** When the search finds nothing, the document comes back unchanged and `render` is never called. */
  lemma NoMatchUnchanged(doc: string, render: string -> string)
    requires FindMatch(doc, 0).None?
    ensures Inners(Parse(doc)) == []
    ensures AsideBlocks(doc, render) == doc
  {
    assert Parse(doc) == [Verbatim(doc[0..])] == [Verbatim(doc)] + [];
    OutputCons(Verbatim(doc), [], render);
    InnersCons(Verbatim(doc), []);
  }

  /**
   What a block hands to `render`: the lines strictly between its two
   marker lines, so empty or ending with a newline, and with no end-marker
   line among them (the lazy group stops at the nearest one).
   */
  predicate WellFormedInner(s: string) {
    (|s| == 0 || s[|s| - 1] == '\n') && forall k :: 0 <= k < |s| ==> !IsEnd(s, k)
  }

  lemma InnerOfMatch(doc: string, p: nat, q: nat)
    requires MatchesAt(doc, p, q)
    ensures p + |StartMarker| <= q <= |doc|
    ensures WellFormedInner(doc[p + |StartMarker|..q])
  {
    FindEndSpec(doc, p + |StartMarker|);
    var inner := doc[p + |StartMarker|..q];
    forall k | 0 <= k < |inner|
      ensures !IsEnd(inner, k)
    {
      if k + |EndMarker| < |inner| {
        EndInWindow(doc, p + |StartMarker|, q, k);
      }
    }
  }

  /** Every text handed to `render` is a well-formed inner text. */
  lemma {:induction false} ParseFromInners(doc: string, i: nat)
    requires i <= |doc|
    ensures forall s :: s in Inners(ParseFrom(doc, i)) ==> WellFormedInner(s)
    decreases |doc| - i
  {
    match FindMatch(doc, i)
    case None =>
      assert ParseFrom(doc, i) == [Verbatim(doc[i..])];
      InnersCons(Verbatim(doc[i..]), []);
    case Some(m) =>
      var next := m.endLine + |EndMarker|;
      ParseStep(doc, i, m, next);
      ParseFromInners(doc, next);
      MatchIsMatch(doc, i, m);
      InnerOfMatch(doc, m.start, m.endLine);
      InnersOfPair(doc[i..m.start], doc[m.start + |StartMarker|..m.endLine], ParseFrom(doc, next));
  }

  lemma ParsedInnersWellFormed(doc: string)
    ensures forall s :: s in Inners(Parse(doc)) ==> WellFormedInner(s)
  {
    ParseFromInners(doc, 0);
  }

  /** Two renderers that agree on the inner texts of the segments give the same output. */
  lemma {:induction false} OutputCongruence(segs: seq<Segment>, r1: string -> string, r2: string -> string)
    requires forall s :: s in Inners(segs) ==> r1(s) == r2(s)
    ensures Output(segs, r1) == Output(segs, r2)
  {
    if |segs| > 0 {
      InnersCons(segs[0], segs[1..]);
      assert [segs[0]] + segs[1..] == segs;
      OutputCongruence(segs[1..], r1, r2);
    }
  }

  /** `render` is applied to the inner texts of the blocks and to nothing else. */
  lemma RenderSeesOnlyInners(doc: string, r1: string -> string, r2: string -> string)
    requires forall s :: s in Inners(Parse(doc)) ==> r1(s) == r2(s)
    ensures AsideBlocks(doc, r1) == AsideBlocks(doc, r2)
  {
    OutputCongruence(Parse(doc), r1, r2);
  }

  /**
   The renderer that `preprocess` builds runs `preprocess` again on each
   inner text before rendering it. That nested pass changes nothing: an
   inner text never holds a complete block.
   */
  lemma NestedPassIsIdentity(doc: string, render: string -> string)
    ensures forall s :: s in Inners(Parse(doc)) ==> AsideBlocks(s, render) == s && Inners(Parse(s)) == []
  {
    ParsedInnersWellFormed(doc);
    forall s | s in Inners(Parse(doc))
      ensures AsideBlocks(s, render) == s && Inners(Parse(s)) == []
    {
      NoBlockIdentity(s, render);
    }
  }
}
