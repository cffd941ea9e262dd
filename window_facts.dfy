/**
 The search reads the same on a piece of the document as on the whole, as
 long as the cut does not change which positions are line starts for a
 marker. These facts let a property of the whole document be stated in
 terms of the parts it is glued from.
 */
module SearchInWindow {
  import opened Preprocessor
  import opened MarkerFacts

  /**
   Cutting the document at `off` changes no marker: the cut is at a line
   start already, or next to a newline, which no marker begins with.
   */
  predicate CleanCut(doc: string, off: nat)
    requires off <= |doc|
  {
    off == 0 || doc[off - 1] == '\n' || off == |doc| || doc[off] == '\n'
  }

  /** The end of an end marker is a clean cut: the marker ends the document or its line. */
  lemma CleanCutAfterEnd(doc: string, q: nat)
    requires IsEnd(doc, q)
    ensures CleanCut(doc, q + |EndMarker|)
  {
  }

  lemma EndInSuffix(doc: string, off: nat, j: nat)
    requires off <= j && off <= |doc| && CleanCut(doc, off)
    ensures IsEnd(doc[off..], j - off) <==> IsEnd(doc, j)
  {
    if j + |EndMarker| <= |doc| && (j > off || off == 0 || doc[off - 1] == '\n') {
      EndInWindow(doc, off, |doc|, j - off);
    } else if j + |EndMarker| <= |doc| {
      assert doc[off..][0] == doc[off] == '\n';
    }
  }

  lemma StartInSuffix(doc: string, off: nat, i: nat)
    requires off <= i && off <= |doc| && CleanCut(doc, off)
    ensures IsStart(doc[off..], i - off) <==> IsStart(doc, i)
  {
    if i + |StartMarker| <= |doc| && (i > off || off == 0 || doc[off - 1] == '\n') {
      StartInWindow(doc, off, |doc|, i - off);
    } else if i + |StartMarker| <= |doc| {
      assert doc[off..][0] == doc[off] == '\n';
    }
  }

  /** The end-marker search on the suffix from `off` finds the same marker, counted from `off`. */
  lemma {:induction false} FindEndSuffix(doc: string, off: nat, j: nat)
    requires off <= j && off <= |doc| && CleanCut(doc, off)
    ensures FindEnd(doc[off..], j - off).Some? == FindEnd(doc, j).Some?
    ensures FindEnd(doc, j).Some? ==> FindEnd(doc, j).value == off + FindEnd(doc[off..], j - off).value
    decreases |doc| - j
  {
    var sub, k := doc[off..], j - off;
    if j + |EndMarker| <= |doc| {
      EndInSuffix(doc, off, j);
      if !IsEnd(doc, j) {
        FindEndSuffix(doc, off, j + 1);
        assert (j + 1) - off == k + 1;
        assert FindEnd(sub, k) == FindEnd(sub, k + 1);
      }
    }
  }

  /** Likewise for the search for a whole match. */
  lemma {:induction false} FindMatchSuffix(doc: string, off: nat, i: nat)
    requires off <= i && off <= |doc| && CleanCut(doc, off)
    ensures FindMatch(doc[off..], i - off).Some? == FindMatch(doc, i).Some?
    ensures FindMatch(doc, i).Some? ==>
      && FindMatch(doc, i).value.start == off + FindMatch(doc[off..], i - off).value.start
      && FindMatch(doc, i).value.endLine == off + FindMatch(doc[off..], i - off).value.endLine
    decreases |doc| - i
  {
    var sub, k := doc[off..], i - off;
    if i + |StartMarker| <= |doc| {
      StartInSuffix(doc, off, i);
      FindEndSuffix(doc, off, i + |StartMarker|);
      assert (i + |StartMarker|) - off == k + |StartMarker|;
      if !(IsStart(doc, i) && FindEnd(doc, i + |StartMarker|).Some?) {
        FindMatchSuffix(doc, off, i + 1);
        assert (i + 1) - off == k + 1;
        assert FindMatch(sub, k) == FindMatch(sub, k + 1);
      }
    }
  }

  lemma SliceOfSuffix(doc: string, off: nat, a: nat, b: nat)
    requires off <= a <= b <= |doc|
    ensures doc[off..][a - off..b - off] == doc[a..b]
  {
    SliceOfWindow(doc, off, |doc|, a - off, b - off);
  }

  /** The segments of one step of ParseSuffix are the same on both sides. */
  lemma SameStep(doc: string, off: nat, i: nat, m: Match)
    requires off <= i <= m.start && m.start + |StartMarker| <= m.endLine <= |doc|
    ensures doc[off..][i - off..m.start - off] == doc[i..m.start]
    ensures doc[off..][m.start - off + |StartMarker|..m.endLine - off] == doc[m.start + |StartMarker|..m.endLine]
  {
    SliceOfSuffix(doc, off, i, m.start);
    SliceOfSuffix(doc, off, m.start + |StartMarker|, m.endLine);
  }

  /**
   One step of ParseSuffix: both searches find the same match, counted from
   their own starts, and the rest of the document already parses the same.
   */
  lemma ParseSuffixStep(doc: string, sub: string, off: nat, i: nat, m: Match, next: nat)
    requires off <= i <= |doc| && off <= |doc| && |sub| == |doc| - off
    requires FindMatch(doc, i) == Some(m) && next == m.endLine + |EndMarker|
    requires i <= m.start && m.start + |StartMarker| <= m.endLine <= |doc|
    requires FindMatch(sub, i - off) == Some(Match(m.start - off, m.endLine - off))
    requires sub[i - off..m.start - off] == doc[i..m.start]
    requires sub[m.start - off + |StartMarker|..m.endLine - off] == doc[m.start + |StartMarker|..m.endLine]
    requires off <= next <= |doc| && ParseFrom(doc, next) == ParseFrom(sub, next - off)
    ensures ParseFrom(doc, i) == ParseFrom(sub, i - off)
  {
    ParseStep(doc, i, m, next);
    ParseStepAt(sub, i - off, m.start - off, m.endLine - off, next - off);
    SameAfterPair(ParseFrom(doc, i), ParseFrom(sub, i - off),
      doc[i..m.start], sub[i - off..m.start - off],
      doc[m.start + |StartMarker|..m.endLine], sub[m.start - off + |StartMarker|..m.endLine - off],
      ParseFrom(doc, next), ParseFrom(sub, next - off));
  }

  lemma SameAfterPair(x: seq<Segment>, y: seq<Segment>, before: string, before': string, inner: string, inner': string,
                      rest: seq<Segment>, rest': seq<Segment>)
    requires x == [Verbatim(before), Block(inner)] + rest
    requires y == [Verbatim(before'), Block(inner')] + rest'
    requires before' == before
    requires inner' == inner
    requires rest == rest'
    ensures x == y
  {
  }

  lemma ParseSuffixNone(doc: string, off: nat, i: nat)
    requires off <= i <= |doc| && CleanCut(doc, off) && FindMatch(doc, i).None?
    ensures ParseFrom(doc, i) == ParseFrom(doc[off..], i - off)
  {
    FindMatchSuffix(doc, off, i);
    SliceOfSuffix(doc, off, i, |doc|);
    assert ParseFrom(doc[off..], i - off) == [Verbatim(doc[off..][i - off..])];
  }

  lemma ParseSuffixSome(doc: string, off: nat, i: nat, m: Match, next: nat)
    requires off <= i <= |doc| && CleanCut(doc, off)
    requires FindMatch(doc, i) == Some(m) && next == m.endLine + |EndMarker|
    requires i <= m.start && m.start + |StartMarker| <= m.endLine && next <= |doc|
    requires ParseFrom(doc, next) == ParseFrom(doc[off..], next - off)
    ensures ParseFrom(doc, i) == ParseFrom(doc[off..], i - off)
  {
    FindMatchSuffix(doc, off, i);
    SameStep(doc, off, i, m);
    ParseSuffixStep(doc, doc[off..], off, i, m, next);
  }

  /** Parsing the suffix from `off` gives the same segments as parsing the whole document from `off` on. */
  lemma {:induction false} ParseSuffix(doc: string, off: nat, i: nat)
    requires off <= i <= |doc| && CleanCut(doc, off)
    ensures ParseFrom(doc, i) == ParseFrom(doc[off..], i - off)
    decreases |doc| - i
  {
    match FindMatch(doc, i)
    case None =>
      ParseSuffixNone(doc, off, i);
    case Some(m) =>
      var next := m.endLine + |EndMarker|;
      ParseStep(doc, i, m, next);
      ParseSuffix(doc, off, next);
      ParseSuffixSome(doc, off, i, m, next);
  }

  /** A start marker at p that no end marker follows: the regex can never match from it. */
  predicate Unclosed(doc: string, p: nat) {
    IsStart(doc, p) && forall q :: p + |StartMarker| <= q < |doc| ==> !IsEnd(doc, q)
  }

  /** Before an unclosed start marker, the end markers of the prefix are exactly those of the document. */
  lemma EndInPrefix(doc: string, p: nat, q: nat)
    requires Unclosed(doc, p)
    ensures IsEnd(doc, q) ==> q + |EndMarker| < p
    ensures IsEnd(doc[..p], q) <==> IsEnd(doc, q)
  {
    assert doc[..p] == doc[0..p];
    if IsEnd(doc, q) {
      StartEndDisjoint(doc, p, q);
    }
    if q + |EndMarker| < p {
      EndInWindow(doc, 0, p, q);
    } else if q + |EndMarker| == p {
      assert doc[..p][p - 1] == doc[p - 1];
    }
  }

  lemma StartInPrefix(doc: string, p: nat, i: nat)
    requires p <= |doc| && i + |StartMarker| <= p
    ensures IsStart(doc[..p], i) <==> IsStart(doc, i)
  {
    assert doc[..p] == doc[0..p];
    StartInWindow(doc, 0, p, i);
  }

  /** Before an unclosed start marker, the end-marker search gives the same answer on the prefix. */
  lemma {:induction false} FindEndPrefix(doc: string, p: nat, j: nat)
    requires Unclosed(doc, p)
    ensures FindEnd(doc[..p], j) == FindEnd(doc, j)
    decreases |doc| - j
  {
    if j + |EndMarker| > p {
      FindEndSpec(doc, j);
      if FindEnd(doc, j).Some? {
        EndInPrefix(doc, p, FindEnd(doc, j).value);
      }
    } else {
      EndInPrefix(doc, p, j);
      if !IsEnd(doc, j) {
        FindEndPrefix(doc, p, j + 1);
      }
    }
  }

  /** Likewise for the search for a whole match: the unclosed start marker and what follows it never match. */
  lemma {:induction false} FindMatchPrefix(doc: string, p: nat, i: nat)
    requires Unclosed(doc, p)
    ensures FindMatch(doc[..p], i) == FindMatch(doc, i)
    decreases |doc| - i
  {
    if i + |StartMarker| > p {
      FindMatchSpec(doc, i);
      if FindMatch(doc, i).Some? {
        var m := FindMatch(doc, i).value;
        FindEndSpec(doc, m.start + |StartMarker|);
        EndInPrefix(doc, p, m.endLine);
      }
    } else {
      StartInPrefix(doc, p, i);
      FindEndPrefix(doc, p, i + |StartMarker|);
      if !(IsStart(doc, i) && FindEnd(doc, i + |StartMarker|).Some?) {
        FindMatchPrefix(doc, p, i + 1);
      }
    }
  }

  /** The search resumes after a match on a clean cut. */
  lemma CleanCutAfterMatch(doc: string, i: nat, m: Match)
    requires FindMatch(doc, i) == Some(m)
    ensures m.endLine + |EndMarker| <= |doc| && CleanCut(doc, m.endLine + |EndMarker|)
  {
    MatchFound(doc, i, m);
    CleanCutAfterEnd(doc, m.endLine);
  }

  /** From a clean cut on, the document parses as the text after the cut parses on its own. */
  lemma RestParsesAlone(doc: string, next: nat)
    requires next <= |doc| && CleanCut(doc, next)
    ensures ParseFrom(doc, next) == Parse(doc[next..])
  {
    ParseSuffix(doc, next, next);
  }
}
