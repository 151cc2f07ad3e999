# Korean statute article segmentation, modelled in Dafny

This project models the core of `kr_statute.py`. That script cuts a Korean statute, given as
an ordered list of HTML `<p>` nodes, into one chunk per article (조문). Each chunk records:

- the article's name (제N조 or 제N조의M);
- the ids of the nodes it spans;
- the nodes' text, joined by newlines;
- the cross-references (제N조, 제N조의M, 제N조제K항, …) found in that text.

The model has four modules:

- `Wrappers`: an `Option` type.
- `TextNormalizer`:
  - `clean_text` as three passes over the string: newlines become spaces, circled numerals
    ①–⑳ are deleted, and whitespace runs collapse to one space;
  - the literal `<br />` removal applied to each node's text.
- `ReferenceExtractor`: `get_relation_parts`.
  - A hand-written matcher for the pattern `제\d+조(?:의\d+)?(?:제\d+항)?` (`ReferenceAt`).
  - `FindAll`, a reference definition of `findall`'s leftmost, non-overlapping scan.
  - `GetRelationParts`, the scanning loop, proved equal to `RelationParts`.
  - Lemmas showing that `FindAll` is the unique scan that is ordered and leaves no
    occurrence uncovered, and that each result is a token of the pattern.
- `ArticleSegmenter`: `parse_html_by_article_sections` as a method with the source's two
  loops.
  - The first loop collects the article boundaries (`CollectMarkers`, specified by `Markers`).
  - The second loop builds one chunk per boundary. Its per-article body (lines 82-101) is the
    method `BuildChunk`.
  - Both are proved against specification functions (`Markers`, `SpanIds`, `SpanContents`,
    `SpanRefs`, `ChunkOf`). The lemmas state what a chunk holds.

A `<p>` node is the value `Node(id, strippedText, sepText)`. `strippedText` and `sepText` are the
results of BeautifulSoup's `get_text(strip=True)` and `get_text(separator=" ", strip=True)`. The
model takes both as given (see Left out).

Two behaviours of the code are worth stating:

- The comment at kr_statute.py:100 says that the first reference is dropped because it is not a
  related article, meaning it is the article's own heading. The code drops whatever reference
  was found first. `DroppedReferenceIsHeading` proves when the
  two agree, and `HeadingWithoutReference` shows what is lost when they do not.
- `relation_parts[1:]` on an empty list is the empty list in Python. No guard is needed and
  none is modelled (`DropFirst`).

## Model

| member | source | states |
|---|---|---|
| TextNormalizer.NewlinesToSpaces | kr_statute.py:34 | no contract of its own; its properties are NewlinesToSpacesSpec and NewlinesToSpacesFixpoint |
| TextNormalizer.NewlinesToSpacesSpec | kr_statute.py:34 | the first pass keeps the length, leaves no newline, turns each newline into a space and keeps every other character in place |
| TextNormalizer.RemoveCircled | kr_statute.py:35 | no contract of its own; its properties are RemoveCircledSpec, RemoveCircledFilter and RemoveCircledChar |
| TextNormalizer.RemoveCircledSpec | kr_statute.py:35 | which characters survive the second pass: exactly those that are not circled numerals U+2460–U+2473; the text never gets longer |
| TextNormalizer.RemoveCircledFilter | kr_statute.py:35 | the second pass on `a + b` is the second pass on `a` followed by that on `b` |
| TextNormalizer.RemoveCircledChar | kr_statute.py:35 | on one character, the second pass deletes a circled numeral and keeps anything else; with RemoveCircledFilter, this makes the pass the in-order filter that keeps order and multiplicity |
| TextNormalizer.Collapse | kr_statute.py:36 | no contract of its own; its properties are CollapseSpec, CollapseAppend, CollapseRun and CollapseFixpoint |
| TextNormalizer.CollapseSpec | kr_statute.py:36 | after the third pass every whitespace character is a plain space, and no whitespace character follows it (a trailing space is allowed); the non-space characters are kept in order; the result is empty only for empty input; it starts with a space exactly when the input starts with whitespace |
| TextNormalizer.CollapseAppend | kr_statute.py:36 | the third pass works in place: on `a + b` it gives the pass on `a` followed by the pass on `b`, provided the split does not cut a whitespace run in two |
| TextNormalizer.CollapseRun | kr_statute.py:36 | a non-empty run of whitespace becomes exactly one space, and a single non-space character is kept; with CollapseAppend this fixes the result of the pass on every input |
| TextNormalizer.CollapseFixpoint | kr_statute.py:36 | the third pass leaves a text unchanged if and only if the text is already collapsed |
| TextNormalizer.Clean | kr_statute.py:26-37 | no contract of its own; the three passes in order; its properties are CleanSpec, CleanKeepsText and CleanIdempotent |
| TextNormalizer.CleanSpec | kr_statute.py:26-37 | `clean_text`'s result has no newline, no circled numeral and no two whitespace characters in a row |
| TextNormalizer.CleanKeepsText | kr_statute.py:33-36 | apart from whitespace, `clean_text` only deletes circled numerals: the other characters survive in order |
| TextNormalizer.CleanIdempotent | kr_statute.py:26-37 | cleaning a cleaned text changes nothing |
| TextNormalizer.RemoveAll | kr_statute.py:87 | no contract of its own; its properties are RemoveAllSpec, RemoveAllFirst and RemoveAllSinglePass |
| TextNormalizer.RemoveAllSpec | kr_statute.py:87 | `.replace("<br />", "")` never lengthens the text and invents no character; it is the identity when the pattern does not occur and shortens the text when it does |
| TextNormalizer.RemoveAllFirst | kr_statute.py:87 | when the pattern first occurs at `p`, the result is the text before `p` followed by the replacement applied to the text after that occurrence; with RemoveAllSpec this fixes the result on every input |
| TextNormalizer.RemoveAllSinglePass | kr_statute.py:87 | the replacement is a single left-to-right pass: `"<br<br /> />"` becomes `"<br />"` |
| ReferenceExtractor.ReferenceAt | kr_statute.py:49 | a match at `i` exists exactly when 제\d+조 starts at `i`, and it ends inside the text after `i`; ReferenceAtIsToken and ReferenceAtLongest state what it matches |
| ReferenceExtractor.ReferenceAtIsToken | kr_statute.py:49 | a match of the reference pattern spells 제, digits, 조, optionally 의 and digits, optionally 제, digits and 항 |
| ReferenceExtractor.ReferenceAtLongest | kr_statute.py:49 | the greedy matcher finds a match wherever a reference token starts, and that match is at least as long as the token |
| ReferenceExtractor.FindAll | kr_statute.py:50 | the spans lie at or after the scan's start, inside the text, and do not overlap; FindAllIsLeftmostScan and LeftmostScanUnique characterise it fully |
| ReferenceExtractor.FindAllIsLeftmostScan | kr_statute.py:50 | `findall`'s matches are ordered, non-overlapping pattern matches, and every occurrence of 제\d+조 lies inside one of them |
| ReferenceExtractor.LeftmostScanUnique | kr_statute.py:50 | any list of spans with those properties is exactly `findall`'s |
| ReferenceExtractor.RelationParts | kr_statute.py:50-54 | no contract of its own; the text of each `findall` span, in order; its properties are RelationPartsAreTokens and RelationPartsEmpty |
| ReferenceExtractor.RelationPartsAreTokens | kr_statute.py:49-54 | every returned string is a reference token |
| ReferenceExtractor.RelationPartsEmpty | kr_statute.py:49-54 | the result is empty exactly when no 제\d+조 occurs in the text |
| ReferenceExtractor.TokenHasNoCircledNumeral | kr_statute.py:35 | a reference token contains no circled numeral, so cleaning never deletes part of one |
| ReferenceExtractor.GetRelationParts | kr_statute.py:39-54 | the scanning loop returns exactly the leftmost, non-overlapping matches of the pattern |
| ArticleSegmenter.IdOf | kr_statute.py:90 | a node's id, or "unknown" when it has none |
| ArticleSegmenter.ContentOf | kr_statute.py:87 | no contract of its own; a node's separator-joined text with `<br />` removed (RemoveAll) |
| ArticleSegmenter.NodeRefs | kr_statute.py:89-91 | no contract of its own; the references of a node's cleaned content |
| ArticleSegmenter.ArticleLabel | kr_statute.py:74-75 | an article name exists exactly when the stripped text starts with 제\d+조, and it is a prefix of that text |
| ArticleSegmenter.ArticleLabelShape | kr_statute.py:75 | the captured name is 제<digits>조, optionally followed by 의<digits> |
| ArticleSegmenter.ArticleLabelLongest | kr_statute.py:75 | the captured name is the greedy one: no 제<digits>조 or 제<digits>조의<digits> that the text starts with is longer |
| ArticleSegmenter.Markers | kr_statute.py:69-76 | boundaries are strictly increasing positions below the node count, each with the name its node's stripped text starts with |
| ArticleSegmenter.MarkersComplete | kr_statute.py:72-76 | a node is a boundary if and only if its stripped text starts with an article name |
| ArticleSegmenter.CollectMarkers | kr_statute.py:69-76 | the first loop returns exactly the boundaries `Markers` specifies: every node whose stripped text starts with an article name, in order, with that name |
| ArticleSegmenter.SpanEnd | kr_statute.py:81 | no contract of its own; the next boundary's position, or the node count for the last article |
| ArticleSegmenter.SpanPartition | kr_statute.py:80-81 | a node lies in some article's span exactly when it is at or after the first boundary, and then in only one span; nodes before the first article are dropped |
| ArticleSegmenter.SpanContents | kr_statute.py:87-88 | one text part per node of the span, in order, each the node's content |
| ArticleSegmenter.SpanIds | kr_statute.py:90 | one id per node of the span, in order |
| ArticleSegmenter.SpanRefs | kr_statute.py:91 | no contract of its own; the references of the span's nodes, node after node; its properties are SpanStep, SpanRefsFirst and SpanRefsAreTokens |
| ArticleSegmenter.SpanStep | kr_statute.py:86-91 | one more node of the span adds its text part, its id and its references at the end |
| ArticleSegmenter.DropFirst | kr_statute.py:100 | `xs[1:]` is every element but the first, and empty when `xs` is empty |
| ArticleSegmenter.BuildChunk | kr_statute.py:82-101 | the per-article loop yields the chunk for that span: name, first and last id, node texts joined by newlines, ids, and all references but the first |
| ArticleSegmenter.ParseArticleSections | kr_statute.py:57-103 | one chunk per boundary, in order; chunk k covers the nodes from boundary k up to the next boundary or the end |
| ArticleSegmenter.ChunkOf | kr_statute.py:94-101 | no contract of its own; the chunk of a span; its properties are ChunkFields, DroppedReferenceIsHeading and HeadingWithoutReference |
| ArticleSegmenter.ChunkFields | kr_statute.py:94-101 | a chunk has one id per node of its span, in order; its start and end ids are the first and last of them; its references are those of the span minus the first, and each one is a reference token |
| ArticleSegmenter.SpanRefsFirst | kr_statute.py:91 | a span's references are its first node's followed by the rest's |
| ArticleSegmenter.SpanRefsAreTokens | kr_statute.py:91 | every reference collected over a span is a reference token |
| ArticleSegmenter.LabelStartsFirstReference | kr_statute.py:74-75 | when a text starts with an article name, the first reference found in it exists and starts with that name |
| ArticleSegmenter.DroppedReferenceIsHeading | kr_statute.py:100 | when the first node's cleaned text starts with the article name, the dropped reference is that heading and the kept ones are all the others |
| ArticleSegmenter.HeadingWithoutReference | kr_statute.py:100 | when the first node yields no reference, the chunk loses the first genuine reference of a later node |
| ArticleSegmenter.JoinLines | kr_statute.py:98 | no contract of its own; `"\n".join`; its properties are JoinSplitLines and SplitJoinLines |
| ArticleSegmenter.JoinSplitLines | kr_statute.py:98 | joining the lines of a text with newlines gives the text back |
| ArticleSegmenter.SplitJoinLines | kr_statute.py:98 | a chunk's content splits back into its node texts when no node text contains a newline |
| ArticleSegmenter.SplitJoinLinesNeedsNoNewline | kr_statute.py:98 | a node text containing a newline comes back as two lines |

## Left out

- Reading `test.html` and parsing it with BeautifulSoup (kr_statute.py:20-23, 68) are not modelled. The model's input is the sequence of `<p>` nodes.
- `get_text` (kr_statute.py:73, 87) is not modelled: each node carries its two extracted texts. Whether the two texts start the same way depends on the HTML. `DroppedReferenceIsHeading` therefore takes it as a hypothesis.
- The sentence-embedding model, the faiss index and the search test (kr_statute.py:109-140) are left out. They are I/O and floating point.
- The `print` calls (kr_statute.py:114-117, 137-140) are left out.
- The regular-expression engine is not modelled in general. Each pattern the source uses is written as its own matcher.
- `\d` is restricted to the ASCII digits 0-9. Python's `\d` on `str` also accepts other Unicode decimal digits.
- `\s` is modelled as the characters Python's `str.isspace` accepts.
- `ReferenceExtractor.GetRelationParts` merges `findall` and the copying loop (kr_statute.py:50-53) into a single scan. The copy is the identity on the list of matches.
- `ArticleSegmenter.CollectMarkers` is the first loop of `parse_html_by_article_sections` (kr_statute.py:72-76), taken out as its own method. The source has it inline.
- `ArticleSegmenter.BuildChunk` is the body of the outer loop of `parse_html_by_article_sections`, taken out as its own method. The source has it inline.
