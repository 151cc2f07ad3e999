/**
 * Cross-reference extraction (`get_relation_parts` in kr_statute.py): every
 * leftmost, non-overlapping match of the pattern 제<digits>조, optionally
 * followed by 의<digits>, optionally followed by 제<digits>항, written out as a
 * hand-made matcher instead of a general regular-expression engine.
 */
module ReferenceExtractor {
  import opened Wrappers

  const Je: char := '\U{C81C}'    // 제 ("article"/"paragraph" ordinal prefix)
  const Jo: char := '\U{C870}'    // 조 ("article")
  const Ui: char := '\U{C758}'    // 의 (sub-article "-of-")
  const Hang: char := '\U{D56D}'  // 항 ("paragraph")

  /** `\d`, restricted to the ASCII digits. */
  predicate IsDigit(c: char) {
    '0' <= c <= '9'
  }

  predicate IsDigits(d: string) {
    |d| > 0 && forall c :: c in d ==> IsDigit(c)
  }

  /**
   * The shape of a reference token, independent of any matcher:
   * 제<article>조, then 의<sub> when `sub` is present, then 제<para>항 when
   * `para` is present.
   */
  datatype Shape = Shape(article: string, sub: Option<string>, para: Option<string>) {

    predicate Valid() {
      IsDigits(article) &&
      (sub.Some? ==> IsDigits(sub.value)) &&
      (para.Some? ==> IsDigits(para.value))
    }

    function Text(): string {
      Head() + Mid() + Tail()
    }

    /** 제<article>조 */
    function Head(): string {
      [Je] + article + [Jo]
    }

    /** 의<sub>, or nothing */
    function Mid(): string {
      if sub.Some? then [Ui] + sub.value else []
    }

    /** 제<para>항, or nothing */
    function Tail(): string {
      if para.Some? then [Je] + para.value + [Hang] else []
    }
  }

  /** A string that is exactly one reference token. */
  ghost predicate IsReferenceToken(t: string) {
    exists sh: Shape :: sh.Valid() && sh.Text() == t
  }

  /** Greedy `\d+`/`\d*`: the length of the run of digits starting at `i`. */
  function DigitRun(s: string, i: nat): (n: nat)
    requires i <= |s|
    ensures i + n <= |s|
    ensures forall k :: i <= k < i + n ==> IsDigit(s[k])
    ensures i + n == |s| || !IsDigit(s[i + n])
    decreases |s| - i
  {
    if i < |s| && IsDigit(s[i]) then 1 + DigitRun(s, i + 1) else 0
  }

  /** 제\d+조 at `i`: the end of that match, if any. */
  function ArticleAt(s: string, i: nat): (e: Option<nat>)
    requires i <= |s|
    ensures e.Some? ==> i + 3 <= e.value <= |s|
  {
    if i < |s| && s[i] == Je then
      var d := DigitRun(s, i + 1);
      if d > 0 && i + 1 + d < |s| && s[i + 1 + d] == Jo then Some(i + 2 + d) else None
    else None
  }

  /** The optional group (?:의\d+) at `j`: where the match continues. */
  function SubArticleAt(s: string, j: nat): (e: nat)
    requires j <= |s|
    ensures j <= e <= |s|
  {
    if j < |s| && s[j] == Ui && DigitRun(s, j + 1) > 0 then j + 1 + DigitRun(s, j + 1) else j
  }

  /** The optional group (?:제\d+항) at `j`: where the match continues. */
  function ParagraphAt(s: string, j: nat): (e: nat)
    requires j <= |s|
    ensures j <= e <= |s|
  {
    if j < |s| && s[j] == Je then
      var d := DigitRun(s, j + 1);
      if d > 0 && j + 1 + d < |s| && s[j + 1 + d] == Hang then j + 2 + d else j
    else j
  }

  /** The whole pattern at `i`: the end of the match, if one starts there. */
  function ReferenceAt(s: string, i: nat): (e: Option<nat>)
    requires i <= |s|
    ensures e.Some? ==> i < e.value <= |s|
    ensures e.Some? <==> ArticleAt(s, i).Some?
  {
    match ArticleAt(s, i)
    case None => None
    case Some(a) => Some(ParagraphAt(s, SubArticleAt(s, a)))
  }

  /** The text that `shape` gives when it is found in `s` at `i`. */
  ghost predicate ShapeAt(s: string, i: nat, sh: Shape) {
    i + |sh.Text()| <= |s| && s[i..i + |sh.Text()|] == sh.Text()
  }

  lemma DigitsSlice(s: string, j: nat, n: nat)
    requires 0 < n && j + n <= |s|
    requires forall k :: j <= k < j + n ==> IsDigit(s[k])
    ensures IsDigits(s[j..j + n])
  {
    forall c | c in s[j..j + n] ensures IsDigit(c) {
      var k :| 0 <= k < n && s[j..j + n][k] == c;
      assert s[j + k] == c;
    }
  }

  /** A slice that spells `x + y` splits into a slice spelling `x` and one spelling `y`. */
  lemma SplitAt(s: string, i: nat, x: string, y: string)
    requires i + |x| + |y| <= |s| && s[i..i + |x| + |y|] == x + y
    ensures s[i..i + |x|] == x
    ensures s[i + |x|..i + |x| + |y|] == y
  {
    forall k | 0 <= k < |x| ensures s[i..i + |x|][k] == x[k] {
      assert s[i + k] == s[i..i + |x| + |y|][k] == (x + y)[k];
    }
    forall k | 0 <= k < |y| ensures s[i + |x|..i + |x| + |y|][k] == y[k] {
      assert s[i + |x| + k] == s[i..i + |x| + |y|][|x| + k] == (x + y)[|x| + k];
    }
  }

  /** Two adjacent slices that spell `x` and `y` together spell `x + y`. */
  lemma JoinAt(s: string, i: nat, x: string, y: string)
    requires i + |x| + |y| <= |s|
    requires s[i..i + |x|] == x && s[i + |x|..i + |x| + |y|] == y
    ensures s[i..i + |x| + |y|] == x + y
  {
    assert s[i..i + |x| + |y|] == s[i..i + |x|] + s[i + |x|..i + |x| + |y|];
  }

  /** The shape read off a match at `i`. */
  function MatchedShape(s: string, i: nat): (sh: Shape)
    requires i <= |s| && ReferenceAt(s, i).Some?
  {
    var a := ArticleAt(s, i).value;
    var b := SubArticleAt(s, a);
    var e := ParagraphAt(s, b);
    Shape(s[i + 1..a - 1],
          if b > a then Some(s[a + 1..b]) else None,
          if e > b then Some(s[b + 1..e - 1]) else None)
  }

  /** Three adjacent slices spelling `h`, `m` and `t` together spell `h + m + t`. */
  lemma JoinThree(s: string, i: nat, h: string, m: string, t: string)
    requires i + |h| + |m| + |t| <= |s|
    requires s[i..i + |h|] == h
    requires s[i + |h|..i + |h| + |m|] == m
    requires s[i + |h| + |m|..i + |h| + |m| + |t|] == t
    ensures s[i..i + |h| + |m| + |t|] == h + m + t
  {
    JoinAt(s, i, h, m);
    JoinAt(s, i, h + m, t);
  }

  lemma MatchedShapeValid(s: string, i: nat)
    requires i <= |s| && ReferenceAt(s, i).Some?
    ensures MatchedShape(s, i).Valid()
  {
    var a := ArticleAt(s, i).value;
    var b := SubArticleAt(s, a);
    var e := ParagraphAt(s, b);
    DigitsSlice(s, i + 1, a - 1 - (i + 1));
    if b > a {
      DigitsSlice(s, a + 1, b - (a + 1));
    }
    if e > b {
      DigitsSlice(s, b + 1, e - 1 - (b + 1));
    }
  }

  lemma MatchedHead(s: string, i: nat)
    requires i <= |s| && ReferenceAt(s, i).Some?
    ensures ArticleAt(s, i).value == i + |MatchedShape(s, i).Head()|
    ensures s[i..ArticleAt(s, i).value] == MatchedShape(s, i).Head()
  {
    JoinThree(s, i, [Je], MatchedShape(s, i).article, [Jo]);
  }

  lemma MatchedMid(s: string, i: nat)
    requires i <= |s| && ReferenceAt(s, i).Some?
    ensures var a := ArticleAt(s, i).value;
      SubArticleAt(s, a) == a + |MatchedShape(s, i).Mid()| &&
      s[a..SubArticleAt(s, a)] == MatchedShape(s, i).Mid()
  {
    var a := ArticleAt(s, i).value;
    var b := SubArticleAt(s, a);
    if b > a {
      JoinAt(s, a, [Ui], s[a + 1..b]);
    }
  }

  lemma MatchedTail(s: string, i: nat)
    requires i <= |s| && ReferenceAt(s, i).Some?
    ensures var b := SubArticleAt(s, ArticleAt(s, i).value);
      ReferenceAt(s, i).value == b + |MatchedShape(s, i).Tail()| &&
      s[b..ReferenceAt(s, i).value] == MatchedShape(s, i).Tail()
  {
    var b := SubArticleAt(s, ArticleAt(s, i).value);
    var e := ParagraphAt(s, b);
    if e > b {
      JoinThree(s, b, [Je], s[b + 1..e - 1], [Hang]);
    }
  }

  /** The part 제<digits>조 or 제<digits>조의<digits> of a match, as a shape without paragraph. */
  lemma MatchedLabel(s: string, i: nat) returns (sh: Shape)
    requires i <= |s| && ReferenceAt(s, i).Some?
    ensures sh.Valid() && sh.para.None?
    ensures sh.Text() == s[i..SubArticleAt(s, ArticleAt(s, i).value)]
  {
    var m := MatchedShape(s, i);
    MatchedShapeValid(s, i);
    MatchedHead(s, i);
    MatchedMid(s, i);
    var h, mid := m.Head(), m.Mid();
    JoinAt(s, i, h, mid);
    sh := Shape(m.article, m.sub, None);
    assert sh.Head() == h && sh.Mid() == mid && sh.Tail() == [];
    assert sh.Text() == h + mid;
  }

  /** A match is a reference token: the text of the shape it reads off. */
  lemma ReferenceAtIsToken(s: string, i: nat)
    requires i <= |s| && ReferenceAt(s, i).Some?
    ensures MatchedShape(s, i).Valid()
    ensures MatchedShape(s, i).Text() == s[i..ReferenceAt(s, i).value]
    ensures IsReferenceToken(s[i..ReferenceAt(s, i).value])
  {
    var sh := MatchedShape(s, i);
    MatchedShapeValid(s, i);
    MatchedHead(s, i);
    MatchedMid(s, i);
    MatchedTail(s, i);
    JoinThree(s, i, sh.Head(), sh.Mid(), sh.Tail());
  }

  /** A run of digits of at least `m` characters starts at `i` when `m` digits do. */
  lemma {:induction false} DigitRunAtLeast(s: string, i: nat, m: nat)
    requires i + m <= |s|
    requires forall k :: i <= k < i + m ==> IsDigit(s[k])
    ensures DigitRun(s, i) >= m
    decreases m
  {
    if m > 0 {
      DigitRunAtLeast(s, i + 1, m - 1);
    }
  }

  /** The digits `d` found at `i` and followed by a non-digit are the whole run there. */
  lemma DigitRunExact(s: string, i: nat, d: string)
    requires IsDigits(d) && i + |d| < |s| && s[i..i + |d|] == d && !IsDigit(s[i + |d|])
    ensures DigitRun(s, i) == |d|
  {
    DigitsAt(s, i, d);
  }

  lemma DigitsAt(s: string, i: nat, d: string)
    requires IsDigits(d) && i + |d| <= |s| && s[i..i + |d|] == d
    ensures DigitRun(s, i) >= |d|
  {
    forall k | i <= k < i + |d| ensures IsDigit(s[k]) {
      assert s[k] == d[k - i];
    }
    DigitRunAtLeast(s, i, |d|);
  }

  /** A slice that spells `h + m + t` splits into three slices. */
  lemma SplitThree(s: string, i: nat, h: string, m: string, t: string)
    requires i + |h + m + t| <= |s| && s[i..i + |h + m + t|] == h + m + t
    ensures s[i..i + |h|] == h
    ensures s[i + |h|..i + |h| + |m|] == m
    ensures s[i + |h| + |m|..i + |h + m + t|] == t
  {
    assert h + m + t == h + (m + t);
    SplitAt(s, i, h, m + t);
    SplitAt(s, i + |h|, m, t);
  }

  /** The characters of 제<d><c> spelled at `i`. */
  lemma FramedChars(s: string, i: nat, d: string, c: char)
    requires i + |d| + 2 <= |s| && s[i..i + |d| + 2] == [Je] + d + [c]
    ensures s[i] == Je && s[i + 1..i + 1 + |d|] == d && s[i + 1 + |d|] == c
  {
    assert [Je] + d + [c] == [Je] + (d + [c]);
    SplitAt(s, i, [Je], d + [c]);
    assert s[i] == s[i..i + 1][0];
    SplitAt(s, i + 1, d, [c]);
    assert s[i + 1 + |d|] == s[i + 1 + |d|..i + 2 + |d|][0];
  }

  /** The characters of 의<d> spelled at `i`. */
  lemma SubChars(s: string, i: nat, d: string)
    requires i + |d| + 1 <= |s| && s[i..i + |d| + 1] == [Ui] + d
    ensures s[i] == Ui && s[i + 1..i + 1 + |d|] == d
  {
    SplitAt(s, i, [Ui], d);
    assert s[i] == s[i..i + 1][0];
  }

  /** The mandatory part 제<digits>조 of a shape found at `i` is matched exactly. */
  lemma HeadMatches(s: string, i: nat, sh: Shape)
    requires sh.Valid() && i + |sh.Head()| <= |s| && s[i..i + |sh.Head()|] == sh.Head()
    ensures ArticleAt(s, i) == Some(i + |sh.Head()|)
  {
    FramedChars(s, i, sh.article, Jo);
    DigitRunExact(s, i + 1, sh.article);
  }

  /**
   * The group (?:의\d+) at `a` reaches at least past a shape's 의<sub>, and
   * exactly there when a 제<para>항 follows.
   */
  lemma MidMatches(s: string, a: nat, sh: Shape)
    requires sh.Valid() && a + |sh.Mid()| + |sh.Tail()| <= |s|
    requires s[a..a + |sh.Mid()|] == sh.Mid()
    requires s[a + |sh.Mid()|..a + |sh.Mid()| + |sh.Tail()|] == sh.Tail()
    ensures SubArticleAt(s, a) >= a + |sh.Mid()|
    ensures sh.para.Some? ==> SubArticleAt(s, a) == a + |sh.Mid()|
  {
    if sh.sub.Some? {
      SubChars(s, a, sh.sub.value);
      DigitsAt(s, a + 1, sh.sub.value);
      if sh.para.Some? {
        FramedChars(s, a + |sh.Mid()|, sh.para.value, Hang);
        DigitRunExact(s, a + 1, sh.sub.value);
      }
    } else if sh.para.Some? {
      FramedChars(s, a, sh.para.value, Hang);
    }
  }

  /** The group (?:제\d+항) at `b` matches a shape's 제<para>항 exactly. */
  lemma TailMatches(s: string, b: nat, sh: Shape)
    requires sh.Valid() && sh.para.Some? && b + |sh.Tail()| <= |s|
    requires s[b..b + |sh.Tail()|] == sh.Tail()
    ensures ParagraphAt(s, b) == b + |sh.Tail()|
  {
    FramedChars(s, b, sh.para.value, Hang);
    DigitRunExact(s, b + 1, sh.para.value);
  }

  /**
   * Greedy matching gives the longest token: whenever some token occurs at
   * `i`, a match starts at `i` and reaches at least as far.
   */
  lemma ReferenceAtLongest(s: string, i: nat, sh: Shape)
    requires i <= |s| && sh.Valid() && ShapeAt(s, i, sh)
    ensures ReferenceAt(s, i).Some?
    ensures i + |sh.Text()| <= ReferenceAt(s, i).value
  {
    SplitThree(s, i, sh.Head(), sh.Mid(), sh.Tail());
    var a := i + |sh.Head()|;
    HeadMatches(s, i, sh);
    MidMatches(s, a, sh);
    var b := SubArticleAt(s, a);
    if sh.para.Some? {
      TailMatches(s, b, sh);
    }
  }

  /** Where a match was found: `s[start..end]`. */
  datatype Span = Span(start: nat, end: nat)

  /** No match of the pattern starts at any position in [lo, hi). */
  ghost predicate NoMatchIn(s: string, lo: nat, hi: nat)
    requires hi <= |s|
  {
    forall p: nat :: lo <= p < hi ==> ArticleAt(s, p).None?
  }

  /** The spans are matches found at or after `from`, in order and without overlap. */
  ghost predicate OrderedMatches(s: string, from: nat, ms: seq<Span>) {
    (forall k :: 0 <= k < |ms| ==>
       from <= ms[k].start < |s| && ReferenceAt(s, ms[k].start) == Some(ms[k].end)) &&
    (forall j, k :: 0 <= j < k < |ms| ==> ms[j].end <= ms[k].start)
  }

  /** Every occurrence of 제<digits>조 at or after `from` lies inside one of the spans. */
  ghost predicate Covers(s: string, from: nat, ms: seq<Span>) {
    forall p: nat :: from <= p < |s| && ArticleAt(s, p).Some? ==>
      exists k :: 0 <= k < |ms| && ms[k].start <= p < ms[k].end
  }

  /**
   * What a left-to-right, non-overlapping scan from `from` finds: ordered
   * matches that leave no occurrence of the pattern uncovered.
   */
  ghost predicate IsLeftmostScan(s: string, from: nat, ms: seq<Span>) {
    OrderedMatches(s, from, ms) && Covers(s, from, ms)
  }

  /** `findall` from position `from`: every leftmost, non-overlapping match. */
  function FindAll(s: string, from: nat): (ms: seq<Span>)
    requires from <= |s|
    ensures forall k :: 0 <= k < |ms| ==> from <= ms[k].start < ms[k].end <= |s|
    ensures forall j, k :: 0 <= j < k < |ms| ==> ms[j].end <= ms[k].start
    decreases |s| - from
  {
    if from == |s| then []
    else match ReferenceAt(s, from)
      case Some(e) =>
        var rest := FindAll(s, e);
        assert forall k :: 0 < k <= |rest| ==> ([Span(from, e)] + rest)[k] == rest[k - 1];
        [Span(from, e)] + rest
      case None => FindAll(s, from + 1)
  }

  /** The matched substrings, in order. */
  function TokensOf(s: string, ms: seq<Span>): (ts: seq<string>)
    requires forall k :: 0 <= k < |ms| ==> ms[k].start <= ms[k].end <= |s|
    ensures |ts| == |ms|
    ensures forall k :: 0 <= k < |ms| ==> ts[k] == s[ms[k].start..ms[k].end]
  {
    if ms == [] then [] else [s[ms[0].start..ms[0].end]] + TokensOf(s, ms[1..])
  }

  /** `get_relation_parts`: the substrings `findall` matches, in order. */
  function RelationParts(s: string): seq<string> {
    TokensOf(s, FindAll(s, 0))
  }

  /** A span from `from` to `e` followed by spans covering from `e` covers from `from`. */
  lemma CoversPrepend(s: string, from: nat, e: nat, rest: seq<Span>)
    requires from < e && Covers(s, e, rest)
    ensures Covers(s, from, [Span(from, e)] + rest)
  {
    var ms := [Span(from, e)] + rest;
    forall p: nat | from <= p < |s| && ArticleAt(s, p).Some?
      ensures exists k :: 0 <= k < |ms| && ms[k].start <= p < ms[k].end
    {
      if p < e {
        assert ms[0].start <= p < ms[0].end;
      } else {
        var k :| 0 <= k < |rest| && rest[k].start <= p < rest[k].end;
        assert ms[k + 1] == rest[k];
      }
    }
  }

  /**
   * No occurrence of 제<digits>조 is missed: each one lies inside some
   * reported match (it starts one, or an earlier match swallowed it).
   */
  lemma {:induction false} FindAllCovers(s: string, from: nat)
    requires from <= |s|
    ensures Covers(s, from, FindAll(s, from))
    decreases |s| - from
  {
    if from < |s| {
      match ReferenceAt(s, from)
      case Some(e) =>
        FindAllCovers(s, e);
        CoversPrepend(s, from, e, FindAll(s, e));
        assert FindAll(s, from) == [Span(from, e)] + FindAll(s, e);
      case None =>
        FindAllCovers(s, from + 1);
    }
  }

  /** Each span FindAll reports is a match of the pattern. */
  lemma {:induction false} FindAllMatches(s: string, from: nat)
    requires from <= |s|
    ensures forall k :: 0 <= k < |FindAll(s, from)| ==>
      ReferenceAt(s, FindAll(s, from)[k].start) == Some(FindAll(s, from)[k].end)
    decreases |s| - from
  {
    if from < |s| {
      match ReferenceAt(s, from)
      case Some(e) =>
        FindAllMatches(s, e);
        var rest := FindAll(s, e);
        assert FindAll(s, from) == [Span(from, e)] + rest;
        assert forall k :: 0 < k < |rest| + 1 ==> ([Span(from, e)] + rest)[k] == rest[k - 1];
      case None =>
        FindAllMatches(s, from + 1);
    }
  }

  /** FindAll is a leftmost scan. */
  lemma FindAllIsLeftmostScan(s: string, from: nat)
    requires from <= |s|
    ensures IsLeftmostScan(s, from, FindAll(s, from))
  {
    FindAllMatches(s, from);
    FindAllCovers(s, from);
  }

  /** A leftmost scan from `from` that finds a match at `from` reports it first. */
  lemma ScanHead(s: string, from: nat, e: nat, ms: seq<Span>)
    requires from < |s| && ReferenceAt(s, from) == Some(e)
    requires IsLeftmostScan(s, from, ms)
    ensures ms != [] && ms[0] == Span(from, e)
  {
    assert ArticleAt(s, from).Some?;
    var k :| 0 <= k < |ms| && ms[k].start <= from < ms[k].end;
    assert k == 0;
  }

  /** After its first span, a scan that covers from `from` covers from that span's end. */
  lemma CoversRest(s: string, from: nat, ms: seq<Span>)
    requires ms != [] && Covers(s, from, ms) && from <= ms[0].end
    requires forall j, k :: 0 <= j < k < |ms| ==> ms[j].end <= ms[k].start
    ensures Covers(s, ms[0].end, ms[1..])
  {
    var rest := ms[1..];
    forall p: nat | ms[0].end <= p < |s| && ArticleAt(s, p).Some?
      ensures exists j :: 0 <= j < |rest| && rest[j].start <= p < rest[j].end
    {
      var j :| 0 <= j < |ms| && ms[j].start <= p < ms[j].end;
      assert j != 0;
      assert rest[j - 1] == ms[j];
    }
  }

  /** The spans after the first are ordered matches from the first one's end. */
  lemma OrderedRest(s: string, from: nat, ms: seq<Span>)
    requires ms != [] && OrderedMatches(s, from, ms)
    ensures OrderedMatches(s, ms[0].end, ms[1..])
  {
    var rest := ms[1..];
    forall j | 0 <= j < |rest| ensures ms[0].end <= rest[j].start {
      assert ms[0].end <= ms[j + 1].start;
    }
  }

  /** A leftmost scan from `from` that finds a match at `from` goes on as a leftmost scan from its end. */
  lemma ScanTail(s: string, from: nat, e: nat, ms: seq<Span>)
    requires from < |s| && ReferenceAt(s, from) == Some(e)
    requires IsLeftmostScan(s, from, ms)
    ensures ms != [] && ms[0] == Span(from, e)
    ensures IsLeftmostScan(s, e, ms[1..])
  {
    ScanHead(s, from, e, ms);
    assert ReferenceAt(s, ms[0].start) == Some(ms[0].end);
    OrderedRest(s, from, ms);
    CoversRest(s, from, ms);
  }

  /** A leftmost scan from a position where nothing matches is one from the next position. */
  lemma ScanSkip(s: string, from: nat, ms: seq<Span>)
    requires from < |s| && ArticleAt(s, from).None?
    requires IsLeftmostScan(s, from, ms)
    ensures IsLeftmostScan(s, from + 1, ms)
  {
    forall j | 0 <= j < |ms| ensures from + 1 <= ms[j].start {
      assert ms[j].start != from;
    }
  }

  /** One step of FindAll. */
  lemma FindAllStep(s: string, from: nat)
    requires from < |s|
    ensures ReferenceAt(s, from).Some? ==>
      FindAll(s, from) == [Span(from, ReferenceAt(s, from).value)] + FindAll(s, ReferenceAt(s, from).value)
    ensures ReferenceAt(s, from).None? ==> FindAll(s, from) == FindAll(s, from + 1)
  {
  }

  lemma PrependFound(s: string, from: nat, e: nat, ms: seq<Span>)
    requires from < |s| && ReferenceAt(s, from) == Some(e)
    requires ms != [] && ms[0] == Span(from, e) && ms[1..] == FindAll(s, e)
    ensures ms == FindAll(s, from)
  {
    FindAllStep(s, from);
    Uncons(ms);
  }

  /** A non-empty list is its head followed by its tail. */
  lemma Uncons(ms: seq<Span>)
    requires ms != []
    ensures ms == [ms[0]] + ms[1..]
  {
  }

  /** Nothing is found from the end of the text. */
  lemma ScanAtEnd(s: string, ms: seq<Span>)
    requires OrderedMatches(s, |s|, ms)
    ensures ms == [] == FindAll(s, |s|)
  {
    if ms != [] {
      FirstSpanBound(s, |s|, ms);
      assert false;
    }
  }

  lemma FirstSpanBound(s: string, from: nat, ms: seq<Span>)
    requires ms != [] && OrderedMatches(s, from, ms)
    ensures from <= ms[0].start < |s|
  {
  }

  /** There is only one leftmost scan: FindAll is determined by its specification. */
  lemma {:induction false} LeftmostScanUnique(s: string, from: nat, ms: seq<Span>)
    requires from <= |s| && IsLeftmostScan(s, from, ms)
    ensures ms == FindAll(s, from)
    decreases |s| - from
  {
    if from == |s| {
      ScanAtEnd(s, ms);
    } else if ReferenceAt(s, from).Some? {
      var e := ReferenceAt(s, from).value;
      ScanTail(s, from, e, ms);
      LeftmostScanUnique(s, e, ms[1..]);
      PrependFound(s, from, e, ms);
    } else {
      ScanSkip(s, from, ms);
      LeftmostScanUnique(s, from + 1, ms);
      FindAllStep(s, from);
    }
  }

  /** Every element of the result is a reference token of the documented form. */
  lemma RelationPartsAreTokens(s: string)
    ensures forall t :: t in RelationParts(s) ==> IsReferenceToken(t)
  {
    var ms := FindAll(s, 0);
    FindAllMatches(s, 0);
    forall t | t in RelationParts(s) ensures IsReferenceToken(t) {
      var k :| 0 <= k < |ms| && RelationParts(s)[k] == t;
      ReferenceAtIsToken(s, ms[k].start);
    }
  }

  /** A reference token holds no circled numeral. */
  lemma TokenHasNoCircledNumeral(t: string)
    requires IsReferenceToken(t)
    ensures forall c :: c in t ==> !('\U{2460}' <= c <= '\U{2473}')
  {
    var sh: Shape :| sh.Valid() && sh.Text() == t;
    assert t == sh.Head() + sh.Mid() + sh.Tail();
  }

  /**
   * The result is empty exactly when no 제<digits>조 occurs anywhere in the
   * text (in particular for the empty text).
   */
  lemma RelationPartsEmpty(s: string)
    ensures RelationParts(s) == [] <==> NoMatchIn(s, 0, |s|)
  {
    FindAllCovers(s, 0);
    FindAllMatches(s, 0);
    var ms := FindAll(s, 0);
    if ms != [] {
      assert ArticleAt(s, ms[0].start).Some?;
    }
  }

  lemma TokensOfCons(s: string, x: Span, rest: seq<Span>)
    requires x.start <= x.end <= |s|
    requires forall k :: 0 <= k < |rest| ==> rest[k].start <= rest[k].end <= |s|
    ensures TokensOf(s, [x] + rest) == [s[x.start..x.end]] + TokensOf(s, rest)
  {
    assert ([x] + rest)[1..] == rest;
  }

  lemma AppendAssoc(a: seq<string>, b: seq<string>, c: seq<string>)
    ensures a + (b + c) == (a + b) + c
  {
  }

  /** One step of the scan, stated on the matched texts. */
  lemma TokensStep(s: string, i: nat)
    requires i < |s|
    ensures ReferenceAt(s, i).Some? ==>
      TokensOf(s, FindAll(s, i)) == [s[i..ReferenceAt(s, i).value]] + TokensOf(s, FindAll(s, ReferenceAt(s, i).value))
    ensures ReferenceAt(s, i).None? ==> TokensOf(s, FindAll(s, i)) == TokensOf(s, FindAll(s, i + 1))
  {
    FindAllStep(s, i);
    if ReferenceAt(s, i).Some? {
      var e := ReferenceAt(s, i).value;
      TokensOfCons(s, Span(i, e), FindAll(s, e));
    }
  }

  /** The scan's invariant survives one step, with or without a match at `i`. */
  lemma AdvanceScan(s: string, parts: seq<string>, i: nat)
    requires i < |s|
    requires parts + TokensOf(s, FindAll(s, i)) == RelationParts(s)
    ensures ReferenceAt(s, i).Some? ==>
      (parts + [s[i..ReferenceAt(s, i).value]]) + TokensOf(s, FindAll(s, ReferenceAt(s, i).value)) == RelationParts(s)
    ensures ReferenceAt(s, i).None? ==> parts + TokensOf(s, FindAll(s, i + 1)) == RelationParts(s)
  {
    TokensStep(s, i);
    if ReferenceAt(s, i).Some? {
      var e := ReferenceAt(s, i).value;
      AppendAssoc(parts, [s[i..e]], TokensOf(s, FindAll(s, e)));
    }
  }

  /**
   * `get_relation_parts`: scans the text left to right and appends each
   * match found; after a match the scan resumes at its end, elsewhere one
   * character on.
   */
  method GetRelationParts(text: string) returns (parts: seq<string>)
    ensures parts == RelationParts(text)
  {
    parts := [];
    var i := 0;
    while i < |text|
      invariant i <= |text|
      invariant parts + TokensOf(text, FindAll(text, i)) == RelationParts(text)
    {
      AdvanceScan(text, parts, i);
      var found := ReferenceAt(text, i);
      if found.Some? {
        parts := parts + [text[i..found.value]];
        i := found.value;
      } else {
        i := i + 1;
      }
    }
  }
}
