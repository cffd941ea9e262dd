/**
 The aside-block preprocessor of the blog's custom Markdown renderer.

 Before Redcarpet renders a page, the renderer rewrites every region that
 starts with a line that is exactly `[[aside` and ends at the nearest later
 line that is exactly `aside]]` into `<aside>` + render(inner) + `</aside>`.
 The rewrite is a global regular-expression substitution; this module spells
 out what that expression matches, with Ruby's line anchors: `^` holds at the
 start of the string and just after a newline, `$` at the end of the string
 and just before a newline.

 Positions are indices into the document: a start marker at p occupies
 doc[p..p+8] (`[[aside` and its newline), an end marker at q occupies
 doc[q..q+7] (`aside]]`; the newline after it is not consumed).
 */
module Preprocessor {

  datatype Option<T> = None | Some(value: T)

  /** The start-marker line, its newline included: the regex's `\[\[aside\n`. */
  const StartMarker: string := "[[aside\n"
  /** The end-marker text: the regex's `aside\]\]`, followed by `$`. */
  const EndMarker: string := "aside]]"
  const OpenTag: string := "<aside>"
  const CloseTag: string := "</aside>"

  /**
   Ruby's `^`: position p is the start of the string or follows a newline.
   Ruby does not match `^` at the very end of a string that ends in a
   newline; this predicate does, which changes nothing here, because no
   marker fits in the zero characters left at that position.
   */
  predicate LineStart(doc: string, p: nat)
    requires p <= |doc|
  {
    p == 0 || doc[p - 1] == '\n'
  }

  /** Ruby's `$`: position p is the end of the string or precedes a newline. */
  predicate LineEnd(doc: string, p: nat)
    requires p <= |doc|
  {
    p == |doc| || doc[p] == '\n'
  }

  /** `^\[\[aside\n` matches at p: doc[p..p + 8] is StartMarker, spelled out character by character. */
  predicate IsStart(doc: string, p: nat) {
    && p + |StartMarker| <= |doc| && LineStart(doc, p)
    && doc[p] == '[' && doc[p + 1] == '[' && doc[p + 2] == 'a' && doc[p + 3] == 's'
    && doc[p + 4] == 'i' && doc[p + 5] == 'd' && doc[p + 6] == 'e' && doc[p + 7] == '\n'
  }

  /** `^aside\]\]$` matches at q: doc[q..q + 7] is EndMarker, spelled out, on a line of its own. */
  predicate IsEnd(doc: string, q: nat) {
    && q + |EndMarker| <= |doc| && LineStart(doc, q)
    && doc[q] == 'a' && doc[q + 1] == 's' && doc[q + 2] == 'i' && doc[q + 3] == 'd'
    && doc[q + 4] == 'e' && doc[q + 5] == ']' && doc[q + 6] == ']'
    && LineEnd(doc, q + |EndMarker|)
  }

  lemma StartMarkerAt(doc: string, p: nat)
    requires IsStart(doc, p)
    ensures doc[p..p + |StartMarker|] == StartMarker
  {
  }

  lemma EndMarkerAt(doc: string, q: nat)
    requires IsEnd(doc, q)
    ensures doc[q..q + |EndMarker|] == EndMarker
  {
  }

  /** A match of the whole pattern: its start marker at `start`, the end marker it closes on at `endLine`. */
  datatype Match = Match(start: nat, endLine: nat)

  /**
   The lazy group followed by `^aside\]\]$`: the first end-marker position at
   or after j, if there is one (FindEndSpec says so).
   */
  function FindEnd(doc: string, j: nat): Option<nat>
    decreases |doc| - j
  {
    if j + |EndMarker| > |doc| then None
    else if IsEnd(doc, j) then Some(j)
    else FindEnd(doc, j + 1)
  }

  /** FindEnd finds an end marker at or after j, and no end marker lies between j and the one it finds. */
  lemma {:induction false} FindEndSpec(doc: string, j: nat)
    ensures FindEnd(doc, j).Some? ==> j <= FindEnd(doc, j).value && IsEnd(doc, FindEnd(doc, j).value)
    ensures forall q :: j <= q && (FindEnd(doc, j).None? || q < FindEnd(doc, j).value) ==> !IsEnd(doc, q)
    decreases |doc| - j
  {
    if j + |EndMarker| <= |doc| && !IsEnd(doc, j) {
      FindEndSpec(doc, j + 1);
    }
  }

  /**
   The whole pattern matches from p with its end marker at q: the lazy
   `((.|\n)*?)` stops at the first end marker after the start-marker line.
   */
  predicate MatchesAt(doc: string, p: nat, q: nat) {
    IsStart(doc, p) && FindEnd(doc, p + |StartMarker|) == Some(q)
  }

  /**
   The regex search from position i: the leftmost start marker at or after i
   that has an end marker after it, and the nearest such end marker. A start
   marker without one is skipped, as the regex engine retries at the next
   position.
   */
  function FindMatch(doc: string, i: nat): Option<Match>
    decreases |doc| - i
  {
    if i + |StartMarker| > |doc| then None
    else if IsStart(doc, i) then
      match FindEnd(doc, i + |StartMarker|)
      case Some(q) => Some(Match(i, q))
      case None => FindMatch(doc, i + 1)
    else FindMatch(doc, i + 1)
  }

  /**
   FindMatch finds a match starting at or after i, no match starts between i
   and the one it finds, and a match found lies wholly inside the document.
   */
  lemma {:induction false} FindMatchSpec(doc: string, i: nat)
    ensures FindMatch(doc, i).Some? ==>
      var m := FindMatch(doc, i).value;
      && i <= m.start && MatchesAt(doc, m.start, m.endLine)
      && m.start + |StartMarker| <= m.endLine && m.endLine + |EndMarker| <= |doc|
    ensures forall p, q :: i <= p && (FindMatch(doc, i).None? || p < FindMatch(doc, i).value.start) ==> !MatchesAt(doc, p, q)
    decreases |doc| - i
  {
    if i + |StartMarker| <= |doc| {
      FindEndSpec(doc, i + |StartMarker|);
      if !(IsStart(doc, i) && FindEnd(doc, i + |StartMarker|).Some?) {
        FindMatchSpec(doc, i + 1);
      }
    }
  }

  /** A piece of the document as the substitution sees it: text outside every match, or one matched aside block. */
  datatype Segment = Verbatim(text: string) | Block(inner: string)

  /** The document text a segment came from: a block with its two markers put back. */
  function SegmentSource(seg: Segment): string {
    match seg
    case Verbatim(text) => text
    case Block(inner) => StartMarker + inner + EndMarker
  }

  function Source(segs: seq<Segment>): string {
    if |segs| == 0 then [] else SegmentSource(segs[0]) + Source(segs[1..])
  }

  /** What the replacement block of `gsub` yields for one segment. */
  function SegmentOutput(seg: Segment, render: string -> string): string {
    match seg
    case Verbatim(text) => text
    case Block(inner) => OpenTag + render(inner) + CloseTag
  }

  function Output(segs: seq<Segment>, render: string -> string): string {
    if |segs| == 0 then [] else SegmentOutput(segs[0], render) + Output(segs[1..], render)
  }

  /** The texts handed to `render`, in the order of the blocks. */
  function Inners(segs: seq<Segment>): seq<string> {
    if |segs| == 0 then []
    else (if segs[0].Block? then [segs[0].inner] else []) + Inners(segs[1..])
  }

  /**
   The matches `gsub` finds from position i, in order: after each match the
   search resumes right after its `aside]]`, so matches never overlap.
   */
  function ParseFrom(doc: string, i: nat): (segs: seq<Segment>)
    requires i <= |doc|
    decreases |doc| - i
  {
    match FindMatch(doc, i)
    case None => [Verbatim(doc[i..])]
    case Some(m) =>
      MatchBounds(doc, i, m);
      [Verbatim(doc[i..m.start]), Block(doc[m.start + |StartMarker|..m.endLine])] + ParseFrom(doc, m.endLine + |EndMarker|)
  }

  /** The match the search finds lies inside the document, its end marker after its start marker. */
  lemma MatchBounds(doc: string, i: nat, m: Match)
    requires FindMatch(doc, i) == Some(m)
    ensures i <= m.start && m.start + |StartMarker| <= m.endLine && m.endLine + |EndMarker| <= |doc|
  {
    FindMatchSpec(doc, i);
  }

  /** The match the search finds is a match of the whole pattern. */
  lemma MatchIsMatch(doc: string, i: nat, m: Match)
    requires FindMatch(doc, i) == Some(m)
    ensures MatchesAt(doc, m.start, m.endLine)
  {
    FindMatchSpec(doc, i);
  }

  /** The match the search finds lies between a start-marker line and an end-marker line. */
  lemma MatchFound(doc: string, i: nat, m: Match)
    requires FindMatch(doc, i) == Some(m)
    ensures i <= m.start && m.start + |StartMarker| <= m.endLine && m.endLine + |EndMarker| <= |doc|
    ensures IsStart(doc, m.start) && IsEnd(doc, m.endLine)
  {
    MatchBounds(doc, i, m);
    MatchIsMatch(doc, i, m);
    FindEndSpec(doc, m.start + |StartMarker|);
  }

  /** One step of the substitution: the text before the match, the block, then the rest from `next`. */
  lemma ParseStep(doc: string, i: nat, m: Match, next: nat)
    requires i <= |doc| && FindMatch(doc, i) == Some(m) && next == m.endLine + |EndMarker|
    ensures i <= m.start && m.start + |StartMarker| <= m.endLine && next <= |doc|
    ensures ParseFrom(doc, i) ==
      [Verbatim(doc[i..m.start]), Block(doc[m.start + |StartMarker|..m.endLine])] + ParseFrom(doc, next)
  {
    MatchBounds(doc, i, m);
  }

  /** ParseStep, with the match given by its two positions. */
  lemma ParseStepAt(doc: string, i: nat, p: nat, q: nat, next: nat)
    requires i <= |doc| && FindMatch(doc, i) == Some(Match(p, q)) && next == q + |EndMarker|
    ensures i <= p && p + |StartMarker| <= q && next <= |doc|
    ensures ParseFrom(doc, i) == [Verbatim(doc[i..p]), Block(doc[p + |StartMarker|..q])] + ParseFrom(doc, next)
  {
    ParseStep(doc, i, Match(p, q), next);
  }

  function Parse(doc: string): (segs: seq<Segment>) {
    ParseFrom(doc, 0)
  }

  /** `CustomMarkdownRenderer#aside_blocks` (and `#preprocess`, with `render` standing for Redcarpet). */
  function AsideBlocks(doc: string, render: string -> string): string {
    Output(Parse(doc), render)
  }
}
