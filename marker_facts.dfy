/**
 Facts about where the two marker patterns can sit relative to each other and
 how they read inside a slice of a document. Neither marker contains a newline
 before its last character, so two markers that are both anchored at a line
 start cannot overlap.
 */
module MarkerFacts {
  import opened Preprocessor

  /** A start marker and an end marker never overlap. */
  lemma StartEndDisjoint(doc: string, p: nat, q: nat)
    requires IsStart(doc, p) && IsEnd(doc, q)
    ensures q + |EndMarker| <= p || p + |StartMarker| <= q
  {
  }

  lemma SliceOfWindow(doc: string, lo: nat, hi: nat, a: nat, b: nat)
    requires lo <= hi <= |doc| && a <= b <= hi - lo
    ensures doc[lo..hi][a..b] == doc[lo + a..lo + b]
  {
    forall k | 0 <= k < b - a
      ensures doc[lo..hi][a..b][k] == doc[lo + a..lo + b][k]
    {
      assert doc[lo..hi][a..b][k] == doc[lo..hi][a + k] == doc[lo + a + k];
    }
  }

  /** A start marker inside a window of the document reads the same as in the whole, when the window keeps its line start. */
  lemma StartInWindow(doc: string, lo: nat, hi: nat, a: nat)
    requires lo <= hi <= |doc| && a + |StartMarker| <= hi - lo
    requires a > 0 || lo == 0 || doc[lo - 1] == '\n'
    ensures IsStart(doc[lo..hi], a) <==> IsStart(doc, lo + a)
  {
    var w := doc[lo..hi];
    assert forall k :: 0 <= k < hi - lo ==> w[k] == doc[lo + k];
  }

  /** Likewise for an end marker, when the window also keeps its line end. */
  lemma EndInWindow(doc: string, lo: nat, hi: nat, b: nat)
    requires lo <= hi <= |doc| && b + |EndMarker| <= hi - lo
    requires b > 0 || lo == 0 || doc[lo - 1] == '\n'
    requires b + |EndMarker| < hi - lo || hi == |doc|
    ensures IsEnd(doc[lo..hi], b) <==> IsEnd(doc, lo + b)
  {
    var w := doc[lo..hi];
    assert forall k :: 0 <= k < hi - lo ==> w[k] == doc[lo + k];
  }

  /** No end marker covers a newline: its seven characters are all printable. */
  lemma NoEndAcrossNewline(doc: string, q: nat, x: nat)
    requires q <= x < q + |EndMarker| && x < |doc| && doc[x] == '\n'
    ensures !IsEnd(doc, q)
  {
  }

  /** No start marker covers a newline before its last character. */
  lemma NoStartAcrossNewline(doc: string, p: nat, x: nat)
    requires p <= x < p + |StartMarker| - 1 && x < |doc| && doc[x] == '\n'
    ensures !IsStart(doc, p)
  {
  }

  /** The converse of StartMarkerAt: the marker text at a line start is a start marker. */
  lemma StartFromText(doc: string, p: nat)
    requires p + |StartMarker| <= |doc| && doc[p..p + |StartMarker|] == StartMarker && LineStart(doc, p)
    ensures IsStart(doc, p)
  {
    var w := doc[p..p + |StartMarker|];
    assert forall t :: 0 <= t < |StartMarker| ==> w[t] == doc[p + t];
  }

  /** The converse of EndMarkerAt: the marker text alone on its line is an end marker. */
  lemma EndFromText(doc: string, q: nat)
    requires q + |EndMarker| <= |doc| && doc[q..q + |EndMarker|] == EndMarker
    requires LineStart(doc, q) && LineEnd(doc, q + |EndMarker|)
    ensures IsEnd(doc, q)
  {
    var w := doc[q..q + |EndMarker|];
    assert forall t :: 0 <= t < |EndMarker| ==> w[t] == doc[q + t];
  }

  /** `^\[\[aside\n` matches at p exactly when p starts a line and the start-marker text follows. */
  lemma StartMarkerLine(doc: string, p: nat)
    ensures IsStart(doc, p) <==>
      p + |StartMarker| <= |doc| && LineStart(doc, p) && doc[p..p + |StartMarker|] == StartMarker
  {
    if IsStart(doc, p) {
      StartMarkerAt(doc, p);
    } else if p + |StartMarker| <= |doc| && LineStart(doc, p) && doc[p..p + |StartMarker|] == StartMarker {
      StartFromText(doc, p);
    }
  }

  /** `^aside\]\]$` matches at q exactly when the end-marker text fills the line that starts at q. */
  lemma EndMarkerLine(doc: string, q: nat)
    ensures IsEnd(doc, q) <==>
      q + |EndMarker| <= |doc| && LineStart(doc, q) && doc[q..q + |EndMarker|] == EndMarker && LineEnd(doc, q + |EndMarker|)
  {
    if IsEnd(doc, q) {
      EndMarkerAt(doc, q);
    } else if q + |EndMarker| <= |doc| && LineStart(doc, q) && doc[q..q + |EndMarker|] == EndMarker && LineEnd(doc, q + |EndMarker|) {
      EndFromText(doc, q);
    }
  }
}
