/**
 * Article segmentation (`parse_html_by_article_sections` in kr_statute.py):
 * the ordered paragraph nodes of a statute are cut into one chunk per
 * article, each running from an article's first node up to the next
 * article's first node, and the cross-references of every chunk are
 * collected.
 */
module ArticleSegmenter {
  import opened Wrappers
  import opened TextNormalizer
  import opened ReferenceExtractor

  /**
   * A `<p>` node as the HTML parser hands it over: its `id` attribute, if
   * any, its text with every piece stripped (`get_text(strip=True)`), and
   * its text with the stripped pieces joined by spaces
   * (`get_text(separator=" ", strip=True)`).
   */
  datatype Node = Node(id: Option<string>, strippedText: string, sepText: string)

  /** One article of the statute. */
  datatype ArticleChunk = ArticleChunk(
    articleId: string,
    startId: string,
    endId: string,
    content: string,
    paragraphIds: seq<string>,
    relationParts: seq<string>)

  /** An article boundary: the position of the article's first node and its name. */
  datatype Marker = Marker(index: nat, articleId: string)

  const UnknownId: string := "unknown"
  const BreakTag: string := "<br />"

  /** `tag.get("id", "unknown")` */
  function IdOf(n: Node): (id: string)
    ensures n.id.Some? ==> id == n.id.value
    ensures n.id.None? ==> id == UnknownId
  {
    n.id.GetOr(UnknownId)
  }

  /** The text kept for a node: its separator-joined text without literal `<br />`. */
  function ContentOf(n: Node): string {
    RemoveAll(n.sepText, BreakTag)
  }

  /** The references found in one node: those of its cleaned content. */
  function NodeRefs(n: Node): seq<string> {
    RelationParts(Clean(ContentOf(n)))
  }

  /**
   * `re.match(r"^(제\d+조(?:의\d+)?)", text)`: the article name the text
   * starts with, if it starts with one.
   */
  function ArticleLabel(text: string): (name: Option<string>)
    ensures name.Some? <==> ArticleAt(text, 0).Some?
    ensures name.Some? ==> name.value <= text
  {
    match ArticleAt(text, 0)
    case None => None
    case Some(a) => Some(text[..SubArticleAt(text, a)])
  }

  /** An article name has the shape 제<digits>조 or 제<digits>조의<digits>. */
  lemma ArticleLabelShape(text: string)
    requires ArticleLabel(text).Some?
    ensures exists sh: Shape :: sh.Valid() && sh.para.None? && sh.Text() == ArticleLabel(text).value
  {
    var sh := MatchedLabel(text, 0);
    var b := SubArticleAt(text, ArticleAt(text, 0).value);
    assert ArticleLabel(text).value == text[0..b];
  }

  /**
   * The name is the greedy capture: no article name that the text starts
   * with is longer, so 제5조의2 is never cut back to 제5조.
   */
  lemma ArticleLabelLongest(text: string, sh: Shape)
    requires sh.Valid() && sh.para.None? && sh.Text() <= text
    ensures ArticleLabel(text).Some?
    ensures |sh.Text()| <= |ArticleLabel(text).value|
  {
    assert text[0..|sh.Text()|] == sh.Text();
    SplitThree(text, 0, sh.Head(), sh.Mid(), sh.Tail());
    HeadMatches(text, 0, sh);
    MidMatches(text, |sh.Head()|, sh);
  }

  /**
   * The first pass: the article boundaries among `nodes[..n]`, in order,
   * one per node whose stripped text starts with an article name.
   */
  function Markers(nodes: seq<Node>, n: nat): (ms: seq<Marker>)
    requires n <= |nodes|
    ensures forall k :: 0 <= k < |ms| ==> ms[k].index < n
    ensures forall j, k :: 0 <= j < k < |ms| ==> ms[j].index < ms[k].index
    ensures forall k :: 0 <= k < |ms| ==>
      ArticleLabel(nodes[ms[k].index].strippedText) == Some(ms[k].articleId)
  {
    if n == 0 then []
    else
      var prev := Markers(nodes, n - 1);
      match ArticleLabel(nodes[n - 1].strippedText)
      case Some(name) => prev + [Marker(n - 1, name)]
      case None => prev
  }

  /** Where the span of the k-th article ends: the next boundary, or the end of the document. */
  function SpanEnd(ms: seq<Marker>, k: nat, n: nat): nat
    requires k < |ms|
  {
    if k + 1 < |ms| then ms[k + 1].index else n
  }

  /** The ids of `nodes[lo..hi]`, with "unknown" for a missing one. */
  function SpanIds(nodes: seq<Node>, lo: nat, hi: nat): (ids: seq<string>)
    requires lo <= hi <= |nodes|
    ensures |ids| == hi - lo
    ensures forall j :: 0 <= j < hi - lo ==> ids[j] == IdOf(nodes[lo + j])
    decreases hi
  {
    if hi == lo then [] else SpanIds(nodes, lo, hi - 1) + [IdOf(nodes[hi - 1])]
  }

  /** The text parts of `nodes[lo..hi]`, one per node. */
  function SpanContents(nodes: seq<Node>, lo: nat, hi: nat): (parts: seq<string>)
    requires lo <= hi <= |nodes|
    ensures |parts| == hi - lo
    ensures forall j :: 0 <= j < hi - lo ==> parts[j] == ContentOf(nodes[lo + j])
    decreases hi
  {
    if hi == lo then [] else SpanContents(nodes, lo, hi - 1) + [ContentOf(nodes[hi - 1])]
  }

  /** The references of each node of `nodes[lo..hi]`. */
  function RefsPerNode(nodes: seq<Node>, lo: nat, hi: nat): (rs: seq<seq<string>>)
    requires lo <= hi <= |nodes|
    ensures |rs| == hi - lo
    ensures forall j :: 0 <= j < hi - lo ==> rs[j] == NodeRefs(nodes[lo + j])
    decreases hi
  {
    if hi == lo then [] else RefsPerNode(nodes, lo, hi - 1) + [NodeRefs(nodes[hi - 1])]
  }

  /** The lists of `xss` one after another. */
  function Flatten(xss: seq<seq<string>>): seq<string> {
    if xss == [] then [] else Flatten(xss[..|xss| - 1]) + xss[|xss| - 1]
  }

  /** The references of `nodes[lo..hi]`, node after node. */
  function SpanRefs(nodes: seq<Node>, lo: nat, hi: nat): seq<string>
    requires lo <= hi <= |nodes|
  {
    Flatten(RefsPerNode(nodes, lo, hi))
  }

  lemma {:induction false} FlattenFirst(xss: seq<seq<string>>)
    requires xss != []
    ensures Flatten(xss) == xss[0] + Flatten(xss[1..])
  {
    if |xss| > 1 {
      FlattenFirst(xss[..|xss| - 1]);
      assert xss[..|xss| - 1][1..] == xss[1..][..|xss| - 2];
    }
  }

  /** Python's `xs[1:]`: everything but the first element; empty when there is none. */
  function DropFirst(xs: seq<string>): (r: seq<string>)
    ensures |r| == if |xs| == 0 then 0 else |xs| - 1
    ensures forall j :: 0 <= j < |r| ==> r[j] == xs[j + 1]
  {
    if |xs| == 0 then [] else xs[1..]
  }

  /** `"\n".join(parts)` */
  function JoinLines(parts: seq<string>): string {
    if |parts| == 0 then ""
    else if |parts| == 1 then parts[0]
    else parts[0] + "\n" + JoinLines(parts[1..])
  }

  /** `s.split("\n")` */
  function SplitLines(s: string): (parts: seq<string>)
    ensures |parts| > 0
    decreases |s|
  {
    if '\n' !in s then [s]
    else
      var i := IndexOfNewline(s);
      [s[..i]] + SplitLines(s[i + 1..])
  }

  /** The position of the first newline of `s`. */
  function IndexOfNewline(s: string): (i: nat)
    requires '\n' in s
    ensures i < |s| && s[i] == '\n' && '\n' !in s[..i]
  {
    if s[0] == '\n' then 0
    else
      assert '\n' in s[1..] by { var k :| 0 <= k < |s| && s[k] == '\n'; assert s[1..][k - 1] == '\n'; }
      var i := 1 + IndexOfNewline(s[1..]);
      assert s[..i] == [s[0]] + s[1..][..i - 1];
      i
  }

  /** Extending a span by one node extends its parts, ids and references by that node's. */
  lemma SpanStep(nodes: seq<Node>, lo: nat, hi: nat)
    requires lo <= hi < |nodes|
    ensures SpanContents(nodes, lo, hi + 1) == SpanContents(nodes, lo, hi) + [ContentOf(nodes[hi])]
    ensures SpanIds(nodes, lo, hi + 1) == SpanIds(nodes, lo, hi) + [IdOf(nodes[hi])]
    ensures SpanRefs(nodes, lo, hi + 1) == SpanRefs(nodes, lo, hi) + NodeRefs(nodes[hi])
  {
    var rs := RefsPerNode(nodes, lo, hi + 1);
    assert rs[..|rs| - 1] == RefsPerNode(nodes, lo, hi);
  }

  /** The chunk built from the span `nodes[lo..hi]` of the article labelled `name`. */
  function ChunkOf(nodes: seq<Node>, lo: nat, hi: nat, name: string): ArticleChunk
    requires lo < hi <= |nodes|
  {
    ArticleChunk(
      name,
      IdOf(nodes[lo]),
      IdOf(nodes[hi - 1]),
      JoinLines(SpanContents(nodes, lo, hi)),
      SpanIds(nodes, lo, hi),
      DropFirst(SpanRefs(nodes, lo, hi)))
  }

  /**
   * The body of the second pass for one article (kr_statute.py, lines
   * 82-101): walks the span node by node, collecting text parts, ids and
   * references, then builds the chunk.
   */
  method BuildChunk(nodes: seq<Node>, start: nat, end: nat, articleId: string)
    returns (chunk: ArticleChunk)
    requires start < end <= |nodes|
    ensures chunk == ChunkOf(nodes, start, end, articleId)
  {
    var contentParts: seq<string> := [];
    var idList: seq<string> := [];
    var relationParts: seq<string> := [];
    var j := start;
    while j < end
      invariant start <= j <= end
      invariant contentParts == SpanContents(nodes, start, j)
      invariant idList == SpanIds(nodes, start, j)
      invariant relationParts == SpanRefs(nodes, start, j)
    {
      SpanStep(nodes, start, j);
      var content := ContentOf(nodes[j]);
      contentParts := contentParts + [content];
      var cleanContent := Clean(content);
      idList := idList + [IdOf(nodes[j])];
      var found := GetRelationParts(cleanContent);
      relationParts := relationParts + found;
      j := j + 1;
    }
    chunk := ArticleChunk(
      articleId,
      IdOf(nodes[start]),
      IdOf(nodes[end - 1]),
      JoinLines(contentParts),
      idList,
      DropFirst(relationParts));
  }

  /**
   * The first pass of `parse_html_by_article_sections` (kr_statute.py,
   * lines 71-76): records every node whose stripped text starts with an
   * article name, with that name.
   */
  method CollectMarkers(nodes: seq<Node>) returns (markers: seq<Marker>)
    ensures markers == Markers(nodes, |nodes|)
  {
    markers := [];
    var i := 0;
    while i < |nodes|
      invariant i <= |nodes|
      invariant markers == Markers(nodes, i)
    {
      var name := ArticleLabel(nodes[i].strippedText);
      if name.Some? {
        markers := markers + [Marker(i, name.value)];
      }
      i := i + 1;
    }
  }

  /**
   * `parse_html_by_article_sections`: one chunk per article boundary, built
   * from the nodes between that boundary and the next.
   */
  method ParseArticleSections(nodes: seq<Node>) returns (chunks: seq<ArticleChunk>)
    ensures var ms := Markers(nodes, |nodes|);
      |chunks| == |ms| &&
      forall k :: 0 <= k < |ms| ==>
        chunks[k] == ChunkOf(nodes, ms[k].index, SpanEnd(ms, k, |nodes|), ms[k].articleId)
  {
    var markers := CollectMarkers(nodes);
    chunks := [];
    var idx := 0;
    while idx < |markers|
      invariant idx <= |markers|
      invariant |chunks| == idx
      invariant forall k :: 0 <= k < idx ==>
        chunks[k] == ChunkOf(nodes, markers[k].index, SpanEnd(markers, k, |nodes|), markers[k].articleId)
    {
      var start := markers[idx].index;
      var end := SpanEnd(markers, idx, |nodes|);
      var chunk := BuildChunk(nodes, start, end, markers[idx].articleId);
      chunks := chunks + [chunk];
      idx := idx + 1;
    }
  }

  /** Whether one of the boundaries `ms` is at node `p`. */
  ghost predicate IsBoundary(ms: seq<Marker>, p: nat) {
    exists k :: 0 <= k < |ms| && ms[k].index == p
  }

  /** A node opens an article exactly when its stripped text starts with an article name. */
  lemma {:induction false} MarkersComplete(nodes: seq<Node>, n: nat, p: nat)
    requires p < n <= |nodes|
    ensures ArticleLabel(nodes[p].strippedText).Some? <==> IsBoundary(Markers(nodes, n), p)
  {
    var ms := Markers(nodes, n);
    var prev := Markers(nodes, n - 1);
    var last := ArticleLabel(nodes[n - 1].strippedText);
    if last.Some? {
      var m := Marker(n - 1, last.value);
      assert ms == prev + [m];
      if p == n - 1 {
        assert ms[|ms| - 1].index == p;
      } else {
        MarkersComplete(nodes, n - 1, p);
        MarkersExtend(prev, m, p);
      }
    } else {
      assert ms == prev;
      if p < n - 1 {
        MarkersComplete(nodes, n - 1, p);
      } else {
        assert !IsBoundary(ms, p);
      }
    }
  }

  /** Appending a boundary at another position does not change whether `p` is one. */
  lemma MarkersExtend(prev: seq<Marker>, m: Marker, p: nat)
    requires m.index != p
    ensures IsBoundary(prev + [m], p) <==> IsBoundary(prev, p)
  {
    var ms := prev + [m];
    if IsBoundary(ms, p) {
      var k :| 0 <= k < |ms| && ms[k].index == p;
      assert prev[k] == ms[k];
    }
    if IsBoundary(prev, p) {
      var k :| 0 <= k < |prev| && prev[k].index == p;
      assert ms[k] == prev[k];
    }
  }

  /** Boundaries that are strictly increasing and below `n`. */
  ghost predicate Boundaries(ms: seq<Marker>, n: nat) {
    (forall k :: 0 <= k < |ms| ==> ms[k].index < n) &&
    (forall j, k :: 0 <= j < k < |ms| ==> ms[j].index < ms[k].index)
  }

  /**
   * The spans tile the nodes from the first boundary on: a node lies in
   * some article's span exactly when it is at or after the first boundary,
   * and then in only one. Nodes before the first article belong to no chunk.
   */
  lemma SpanPartition(ms: seq<Marker>, n: nat, p: nat)
    requires Boundaries(ms, n) && p < n
    ensures (exists k :: 0 <= k < |ms| && ms[k].index <= p < SpanEnd(ms, k, n)) <==>
      (|ms| > 0 && ms[0].index <= p)
    ensures forall j, k ::
      (0 <= j < |ms| && 0 <= k < |ms| &&
       ms[j].index <= p < SpanEnd(ms, j, n) && ms[k].index <= p < SpanEnd(ms, k, n)) ==> j == k
  {
    if |ms| > 0 && ms[0].index <= p {
      var k := 0;
      while k + 1 < |ms| && ms[k + 1].index <= p
        invariant k < |ms| && ms[k].index <= p
      {
        k := k + 1;
      }
      assert ms[k].index <= p < SpanEnd(ms, k, n);
    }
    forall j, k | 0 <= j < |ms| && 0 <= k < |ms| &&
      ms[j].index <= p < SpanEnd(ms, j, n) && ms[k].index <= p < SpanEnd(ms, k, n)
      ensures j == k
    {
      SpansOrdered(ms, n, j, k);
      SpansOrdered(ms, n, k, j);
    }
  }

  /** An earlier span ends no later than a later one starts. */
  lemma SpansOrdered(ms: seq<Marker>, n: nat, j: nat, k: nat)
    requires Boundaries(ms, n) && j < |ms| && k < |ms|
    ensures j < k ==> SpanEnd(ms, j, n) <= ms[k].index
  {
    if j + 1 < k {
      assert ms[j + 1].index < ms[k].index;
    }
  }

  /** The references of a span are those of its first node followed by those of the rest. */
  lemma SpanRefsFirst(nodes: seq<Node>, lo: nat, hi: nat)
    requires lo < hi <= |nodes|
    ensures SpanRefs(nodes, lo, hi) == NodeRefs(nodes[lo]) + SpanRefs(nodes, lo + 1, hi)
  {
    var rs := RefsPerNode(nodes, lo, hi);
    FlattenFirst(rs);
    assert rs[1..] == RefsPerNode(nodes, lo + 1, hi);
  }

  /** Every reference collected over a span is a reference token. */
  lemma {:induction false} SpanRefsAreTokens(nodes: seq<Node>, lo: nat, hi: nat)
    requires lo <= hi <= |nodes|
    ensures forall t :: t in SpanRefs(nodes, lo, hi) ==> IsReferenceToken(t)
    decreases hi
  {
    if hi > lo {
      SpanRefsAreTokens(nodes, lo, hi - 1);
      RelationPartsAreTokens(Clean(ContentOf(nodes[hi - 1])));
    }
  }

  /**
   * What a chunk holds: the name of its boundary, one id per node of its
   * span in order with the first and last as start and end ids, the node
   * texts as its lines, and every collected reference but the first.
   * Each kept reference is a reference token.
   */
  lemma ChunkFields(nodes: seq<Node>, lo: nat, hi: nat, name: string)
    requires lo < hi <= |nodes|
    ensures var c := ChunkOf(nodes, lo, hi, name);
      c.articleId == name &&
      |c.paragraphIds| == hi - lo &&
      (forall j :: 0 <= j < hi - lo ==> c.paragraphIds[j] == IdOf(nodes[lo + j])) &&
      c.startId == c.paragraphIds[0] && c.endId == c.paragraphIds[hi - lo - 1] &&
      c.relationParts == DropFirst(SpanRefs(nodes, lo, hi)) &&
      forall t :: t in c.relationParts ==> IsReferenceToken(t)
  {
    SpanRefsAreTokens(nodes, lo, hi);
    var r := SpanRefs(nodes, lo, hi);
    forall t | t in DropFirst(r) ensures t in r {
      var j :| 0 <= j < |DropFirst(r)| && DropFirst(r)[j] == t;
    }
  }

  /**
   * When an article's name begins a text, the first reference found in it
   * begins with that name: the first match is the heading itself, possibly
   * extended by digits or a paragraph part.
   */
  lemma LabelStartsFirstReference(u: string, t: string)
    requires ArticleLabel(u).Some? && ArticleLabel(u).value <= t
    ensures RelationParts(t) != [] && ArticleLabel(u).value <= RelationParts(t)[0]
  {
    var b := |ArticleLabel(u).value|;
    LabelPrefixMatches(u, t);
    var e := ReferenceAt(t, 0).value;
    assert RelationParts(t)[0] == t[0..e];
    assert t[0..e][..b] == t[..b];
  }

  /** A text that starts with an article name matches at least that name at its start. */
  lemma LabelPrefixMatches(u: string, t: string)
    requires ArticleLabel(u).Some? && ArticleLabel(u).value <= t
    ensures ReferenceAt(t, 0).Some? && |ArticleLabel(u).value| <= ReferenceAt(t, 0).value
  {
    var a := ArticleAt(u, 0).value;
    var b := SubArticleAt(u, a);
    assert b == |ArticleLabel(u).value|;
    var d := DigitRun(u, 1);
    assert forall k :: 0 <= k < b ==> t[k] == u[k] by {
      forall k | 0 <= k < b ensures t[k] == u[k] {
        assert t[k] == u[..b][k];
      }
    }
    DigitRunAtLeast(t, 1, d);
    assert t[1 + d] == Jo;
    assert DigitRun(t, 1) == d;
    assert ArticleAt(t, 0) == Some(a);
    if b > a {
      DigitRunAtLeast(t, a + 1, b - a - 1);
    }
  }

  /**
   * The element `relation_parts[1:]` drops is the article's own heading
   * when the first node's cleaned text starts with the article name; the
   * references kept are then all those found after it.
   */
  lemma DroppedReferenceIsHeading(nodes: seq<Node>, lo: nat, hi: nat)
    requires lo < hi <= |nodes|
    requires ArticleLabel(nodes[lo].strippedText).Some?
    requires ArticleLabel(nodes[lo].strippedText).value <= Clean(ContentOf(nodes[lo]))
    ensures var name := ArticleLabel(nodes[lo].strippedText).value;
      var refs := SpanRefs(nodes, lo, hi);
      refs != [] && name <= refs[0] &&
      ChunkOf(nodes, lo, hi, name).relationParts == refs[1..]
  {
    var name := ArticleLabel(nodes[lo].strippedText).value;
    LabelStartsFirstReference(nodes[lo].strippedText, Clean(ContentOf(nodes[lo])));
    SpanRefsFirst(nodes, lo, hi);
  }

  /**
   * When the first node of a span yields no reference, `relation_parts[1:]`
   * drops a genuine cross-reference instead: the first one of a later node.
   */
  lemma HeadingWithoutReference(nodes: seq<Node>, lo: nat, hi: nat, name: string)
    requires lo < hi <= |nodes| && NodeRefs(nodes[lo]) == []
    ensures ChunkOf(nodes, lo, hi, name).relationParts == DropFirst(SpanRefs(nodes, lo + 1, hi))
  {
    SpanRefsFirst(nodes, lo, hi);
  }

  /** `"\n".join` undoes `split("\n")`. */
  lemma {:induction false} JoinSplitLines(s: string)
    ensures JoinLines(SplitLines(s)) == s
    decreases |s|
  {
    if '\n' in s {
      var i := IndexOfNewline(s);
      var head, tail := s[..i], s[i + 1..];
      var rest := SplitLines(tail);
      JoinSplitLines(tail);
      var parts := [head] + rest;
      assert SplitLines(s) == parts;
      assert parts[0] == head && parts[1..] == rest;
      assert JoinLines(parts) == head + "\n" + JoinLines(rest);
      assert s == head + [s[i]] + tail;
    }
  }

  /**
   * A chunk's content splits back into its node texts exactly when no
   * node text holds a newline of its own.
   */
  lemma {:induction false} SplitJoinLines(parts: seq<string>)
    requires parts != []
    requires forall k :: 0 <= k < |parts| ==> '\n' !in parts[k]
    ensures SplitLines(JoinLines(parts)) == parts
  {
    if |parts| > 1 {
      var s := JoinLines(parts);
      var p0 := parts[0];
      assert s == p0 + "\n" + JoinLines(parts[1..]);
      assert s[|p0|] == '\n';
      var i := IndexOfNewline(s);
      assert forall m :: 0 <= m < |p0| ==> s[m] == p0[m];
      assert forall m :: 0 <= m < i ==> s[..i][m] == s[m];
      assert i == |p0|;
      assert s[..i] == p0;
      assert s[i + 1..] == JoinLines(parts[1..]);
      SplitJoinLines(parts[1..]);
      assert parts == [p0] + parts[1..];
    }
  }

  /** A node text that holds a newline comes back from the content as two lines. */
  lemma SplitJoinLinesNeedsNoNewline()
    ensures SplitLines(JoinLines(["a\nb"])) == ["a", "b"]
  {
    var s := "a\nb";
    assert '\n' in s;
    assert IndexOfNewline(s) == 1;
    assert s[..1] == "a" && s[2..] == "b";
    assert '\n' !in "b";
  }
}
