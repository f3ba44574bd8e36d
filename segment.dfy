/** Page segmentation of the rendered document text (`yield_pages_as_bytes`):
    every non-overlapping match of `run[ ]*?date.*?\x0c`, compiled with
    DOTALL and IGNORECASE, scanned from left to right, is one page. */
module Segment {

  import opened Strings

  const FormFeed: char := 12 as char

  /** The end of `run[ ]*?date` anchored at `i`. The lazy run of spaces is
      followed by `d`, which is not a space, so the only way it can succeed is
      by taking every space that follows `run`. */
  function MarkerEnd(s: string, i: nat): Option<nat> {
    if !KeywordAt(s, i, "run") then None
    else
      var j := SkipWhile(s, i + 3, IsBlankChar);
      if KeywordAt(s, j, "date") then Some(j + 4) else None
  }

  /** The whole pattern anchored at `i`: the marker, then the lazy `.*?` up to
      and including the first form feed after it. */
  function MatchAt(s: string, i: nat): (r: Option<nat>)
    ensures r.Some? ==> i < r.value <= |s|
  {
    match MarkerEnd(s, i)
    case None => None
    case Some(j) =>
      match FindChar(s, FormFeed, j)
      case None => None
      case Some(k) => Some(k + 1)
  }

  /** The half-open range `[start, end)` of one page in the text. */
  datatype Span = Span(start: nat, end: nat)

  /** The spans `finditer` reports when it resumes scanning at `pos`: after a
      match it continues at the match's end, otherwise one position further. */
  function Spans(s: string, pos: nat): (r: seq<Span>)
    requires pos <= |s|
    ensures forall k :: 0 <= k < |r| ==> pos <= r[k].start < r[k].end <= |s|
    ensures forall k, l :: 0 <= k < l < |r| ==> r[k].end <= r[l].start
    decreases |s| - pos
  {
    if pos == |s| then []
    else match MatchAt(s, pos)
      case None => Spans(s, pos + 1)
      case Some(e) => [Span(pos, e)] + Spans(s, e)
  }

  /** The page chunks of the text, in the order they are yielded. */
  function Pages(s: string): seq<string> {
    var sp := Spans(s, 0);
    seq(|sp|, k requires 0 <= k < |sp| => s[sp[k].start..sp[k].end])
  }

  /** A chunk opens with `run`, `gap` spaces and `date`, ignoring case. */
  ghost predicate OpensWithMarker(c: string, gap: nat) {
    7 + gap <= |c| &&
    Lower(c[..3]) == "run" &&
    (forall m :: 3 <= m < 3 + gap ==> c[m] == ' ') &&
    Lower(c[3 + gap..7 + gap]) == "date"
  }

  /** What one page of the segmented text looks like: it opens with the
      marker, ends with a form feed and holds no earlier form feed. */
  ghost predicate IsPageChunk(c: string) {
    |c| > 0 &&
    c[|c| - 1] == FormFeed &&
    (forall m :: 0 <= m < |c| - 1 ==> c[m] != FormFeed) &&
    exists gap :: OpensWithMarker(c, gap)
  }

  /** The scanner finds a match at `i` ending at `e` exactly when `s[i..e]` is
      a page chunk. */
  lemma MatchAtIff(s: string, i: nat, e: nat)
    ensures MatchAt(s, i) == Some(e) <==> i < e <= |s| && IsPageChunk(s[i..e])
  {
    if MatchAt(s, i) == Some(e) {
      MatchIsChunk(s, i);
    }
    if i < e <= |s| && IsPageChunk(s[i..e]) {
      ChunkIsMatch(s, i, e);
    }
  }

  lemma MatchIsChunk(s: string, i: nat)
    requires MatchAt(s, i).Some?
    ensures IsPageChunk(s[i..MatchAt(s, i).value])
  {
    var j := SkipWhile(s, i + 3, IsBlankChar);
    var k := FindChar(s, FormFeed, j + 4).value;
    var c := s[i..k + 1];
    var gap := j - i - 3;
    assert c[..3] == s[i..i + 3];
    var w := c[3 + gap..7 + gap];
    forall m | 0 <= m < 4 ensures w[m] == s[j..j + 4][m] {
      assert w[m] == c[3 + gap + m] == s[j + m];
    }
    assert w == s[j..j + 4];
    forall m | 3 <= m < 3 + gap ensures c[m] == ' ' {
      assert c[m] == s[i + m];
    }
    assert OpensWithMarker(c, gap);
    forall m | 0 <= m < |c| - 1 ensures c[m] != FormFeed {
      if m < 3 {
        assert Lower(c[..3])[m] == LowerChar(c[m]);
      } else if m < 3 + gap {
      } else if m < 7 + gap {
        assert Lower(c[3 + gap..7 + gap])[m - 3 - gap] == LowerChar(c[m]);
      } else {
        assert c[m] == s[i + m];
      }
    }
  }

  lemma ChunkIsMatch(s: string, i: nat, e: nat)
    requires i < e <= |s| && IsPageChunk(s[i..e])
    ensures MatchAt(s, i) == Some(e)
  {
    var c := s[i..e];
    var gap: nat :| OpensWithMarker(c, gap);
    assert s[i..i + 3] == c[..3];
    var j := SkipWhile(s, i + 3, IsBlankChar);
    var w := c[3 + gap..7 + gap];
    forall m | 0 <= m < 4 ensures w[m] == s[i + 3 + gap + m] {
      assert w[m] == c[3 + gap + m];
    }
    assert Lower(w)[0] == LowerChar(w[0]) == 'd';
    assert Lower(w)[3] == LowerChar(w[3]) == 'e';
    assert 7 + gap < |c|;
    forall m | i + 3 <= m < i + 3 + gap ensures IsBlankChar(s[m]) {
      assert s[m] == c[m - i];
    }
    SkipWhileExact(s, i + 3, gap, IsBlankChar);
    assert w == s[j..j + 4];
    assert MarkerEnd(s, i) == Some(j + 4);
    assert s[e - 1] == c[|c| - 1];
    forall m | j + 4 <= m < e - 1 ensures s[m] != FormFeed {
      assert s[m] == c[m - i];
    }
  }

  /** Every span in `sp` lies within `s` and delimits a page chunk. */
  ghost predicate AllChunks(s: string, sp: seq<Span>) {
    forall k :: 0 <= k < |sp| ==>
      sp[k].start <= sp[k].end <= |s| && IsPageChunk(s[sp[k].start..sp[k].end])
  }

  /** Position `i` lies inside one of the spans in `sp`. */
  ghost predicate Covered(sp: seq<Span>, i: nat) {
    exists k :: 0 <= k < |sp| && sp[k].start <= i < sp[k].end
  }

  /** Every span the scan reports delimits a page chunk. */
  lemma {:induction false} SpansAreChunks(s: string, pos: nat)
    requires pos <= |s|
    ensures AllChunks(s, Spans(s, pos))
    decreases |s| - pos
  {
    if pos < |s| {
      match MatchAt(s, pos)
      case None =>
        SpansAreChunks(s, pos + 1);
      case Some(e0) =>
        var rest := Spans(s, e0);
        SpansAreChunks(s, e0);
        MatchAtIff(s, pos, e0);
        var sp := [Span(pos, e0)] + rest;
        assert Spans(s, pos) == sp;
        forall k | 0 <= k < |sp|
          ensures sp[k].start <= sp[k].end <= |s| && IsPageChunk(s[sp[k].start..sp[k].end])
        {
          if k > 0 { assert sp[k] == rest[k - 1]; }
        }
    }
  }

  /** Every position where the anchored pattern matches is a reported span's
      start or lies inside a reported span. */
  lemma {:induction false} SpansCoverMatches(s: string, pos: nat, i: nat)
    requires pos <= i < |s| && MatchAt(s, i).Some?
    ensures Covered(Spans(s, pos), i)
    decreases |s| - pos
  {
    match MatchAt(s, pos)
    case None =>
      SpansCoverMatches(s, pos + 1, i);
    case Some(e0) =>
      var rest := Spans(s, e0);
      var sp := [Span(pos, e0)] + rest;
      assert Spans(s, pos) == sp;
      if i < e0 {
        assert sp[0].start <= i < sp[0].end;
      } else {
        SpansCoverMatches(s, e0, i);
        var k :| 0 <= k < |rest| && rest[k].start <= i < rest[k].end;
        assert sp[k + 1] == rest[k];
      }
  }

  /** The scan skips no page: wherever a page chunk `s[i..e]` could be cut
      out of the text, `i` starts one of the yielded pages or lies inside one. */
  lemma PagesCoverChunks(s: string, i: nat, e: nat)
    requires i < e <= |s| && IsPageChunk(s[i..e])
    ensures Covered(Spans(s, 0), i)
  {
    MatchAtIff(s, i, e);
    SpansCoverMatches(s, 0, i);
  }

  /** Pages in order: each is a page chunk, each is the text between its span's
      bounds, and the spans are disjoint and increasing. */
  lemma PagesAreChunks(s: string)
    ensures |Pages(s)| == |Spans(s, 0)|
    ensures forall k :: 0 <= k < |Pages(s)| ==> IsPageChunk(Pages(s)[k])
    ensures forall k :: 0 <= k < |Pages(s)| ==>
              Pages(s)[k] == s[Spans(s, 0)[k].start..Spans(s, 0)[k].end]
    ensures forall k, l :: 0 <= k < l < |Pages(s)| ==> Spans(s, 0)[k].end <= Spans(s, 0)[l].start
  {
    SpansAreChunks(s, 0);
  }

  /** The generator loop of `yield_pages_as_bytes`: scan the text, emit the
      slice of each match, resume after it. */
  method SplitPages(text: string) returns (pages: seq<string>)
    ensures pages == Pages(text)
  {
    pages := [];
    var pos := 0;
    ghost var done: seq<Span> := [];
    while pos < |text|
      invariant pos <= |text|
      invariant done + Spans(text, pos) == Spans(text, 0)
      invariant forall k :: 0 <= k < |done| ==> done[k].start < done[k].end <= |text|
      invariant |pages| == |done|
      invariant forall k :: 0 <= k < |done| ==> pages[k] == text[done[k].start..done[k].end]
      decreases |text| - pos
    {
      var m := MatchAt(text, pos);
      if m.Some? {
        pages := pages + [text[pos..m.value]];
        done := done + [Span(pos, m.value)];
        pos := m.value;
      } else {
        pos := pos + 1;
      }
    }
  }
}
