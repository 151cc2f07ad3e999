/**
 * Text normalisation applied to a node's text before cross-references are
 * searched for (`clean_text` in kr_statute.py), and the literal-substring
 * removal the segmenter applies to every node's text.
 */
module TextNormalizer {

  /**
   * Python's `\s` on a `str` pattern: exactly the characters for which
   * `str.isspace()` holds.
   */
  predicate IsSpace(c: char) {
    c == ' ' || ('\t' <= c <= '\r') || ('\U{1C}' <= c <= '\U{1F}') ||
    c == '\U{85}' || c == '\U{A0}' || c == '\U{1680}' ||
    ('\U{2000}' <= c <= '\U{200A}') || c == '\U{2028}' || c == '\U{2029}' ||
    c == '\U{202F}' || c == '\U{205F}' || c == '\U{3000}'
  }

  /** The circled numerals ① .. ⑳ (U+2460 .. U+2473) that number paragraphs. */
  predicate IsCircledNumeral(c: char) {
    '\U{2460}' <= c <= '\U{2473}'
  }

  /** No whitespace but the plain space, and never two whitespace characters in a row. */
  ghost predicate IsCollapsed(s: string) {
    forall i :: 0 <= i < |s| && IsSpace(s[i]) ==>
      s[i] == ' ' && (i + 1 == |s| || !IsSpace(s[i + 1]))
  }

  /** The non-whitespace characters of `s`, in order. */
  function NonSpace(s: string): string {
    if s == [] then []
    else if IsSpace(s[0]) then NonSpace(s[1..])
    else [s[0]] + NonSpace(s[1..])
  }

  /** Step 1: every newline becomes a space (`text.replace("\n", " ")`). */
  function NewlinesToSpaces(s: string): string {
    if s == [] then []
    else [if s[0] == '\n' then ' ' else s[0]] + NewlinesToSpaces(s[1..])
  }

  /** Step 2: every circled numeral is deleted (`re.sub(r"[\u2460-\u2473]", "", text)`). */
  function RemoveCircled(s: string): string {
    if s == [] then []
    else if IsCircledNumeral(s[0]) then RemoveCircled(s[1..])
    else [s[0]] + RemoveCircled(s[1..])
  }

  /** `s` without its leading run of whitespace. */
  function DropSpaces(s: string): (r: string)
    ensures |r| <= |s|
  {
    if s != [] && IsSpace(s[0]) then DropSpaces(s[1..]) else s
  }

  /**
   * Step 3: every maximal run of whitespace becomes one space
   * (`re.sub(r"\s+", " ", text)`).
   */
  function Collapse(s: string): string
    decreases |s|
  {
    if s == [] then []
    else if IsSpace(s[0]) then [' '] + Collapse(DropSpaces(s[1..]))
    else [s[0]] + Collapse(s[1..])
  }

  /** `clean_text`: the three steps in order. */
  function Clean(s: string): string {
    Collapse(RemoveCircled(NewlinesToSpaces(s)))
  }

  lemma {:induction false} NonSpaceChars(s: string)
    ensures forall c :: c in NonSpace(s) <==> c in s && !IsSpace(c)
  {
    if s != [] {
      NonSpaceChars(s[1..]);
      assert s == [s[0]] + s[1..];
    }
  }

  /** Step 1 leaves no newline and changes nothing else. */
  lemma {:induction false} NewlinesToSpacesSpec(s: string)
    ensures |NewlinesToSpaces(s)| == |s| && '\n' !in NewlinesToSpaces(s)
    ensures forall i :: 0 <= i < |s| && s[i] != '\n' ==> NewlinesToSpaces(s)[i] == s[i]
    ensures forall i :: 0 <= i < |s| && s[i] == '\n' ==> NewlinesToSpaces(s)[i] == ' '
  {
    if s != [] {
      NewlinesToSpacesSpec(s[1..]);
      var r := NewlinesToSpaces(s);
      assert r[1..] == NewlinesToSpaces(s[1..]);
      forall i | 0 < i < |s| ensures r[i] == r[1..][i - 1] && s[i] == s[1..][i - 1] { }
    }
  }

  /** Step 2 deletes exactly the circled numerals. */
  lemma {:induction false} RemoveCircledSpec(s: string)
    ensures forall c :: c in RemoveCircled(s) <==> c in s && !IsCircledNumeral(c)
    ensures |RemoveCircled(s)| <= |s|
  {
    if s != [] {
      RemoveCircledSpec(s[1..]);
      assert s == [s[0]] + s[1..];
    }
  }

  /** Dropping leading whitespace loses only whitespace and stops at a non-space. */
  lemma {:induction false} DropSpacesSpec(s: string)
    ensures var r := DropSpaces(s); (r == [] || !IsSpace(r[0])) && NonSpace(r) == NonSpace(s)
  {
    if s != [] && IsSpace(s[0]) {
      DropSpacesSpec(s[1..]);
    }
  }

  /**
   * Step 3 leaves only single plain spaces between non-space characters,
   * keeps every non-space character in order, and starts with a space
   * exactly when its input starts with whitespace.
   */
  lemma {:induction false} CollapseSpec(s: string)
    ensures IsCollapsed(Collapse(s))
    ensures NonSpace(Collapse(s)) == NonSpace(s)
    ensures Collapse(s) == [] <==> s == []
    ensures Collapse(s) != [] ==> (IsSpace(Collapse(s)[0]) <==> IsSpace(s[0]))
    decreases |s|
  {
    if s != [] {
      var r := Collapse(s);
      if IsSpace(s[0]) {
        var t := DropSpaces(s[1..]);
        DropSpacesSpec(s[1..]);
        CollapseSpec(t);
        assert r == [' '] + Collapse(t);
        assert r[1..] == Collapse(t);
        assert NonSpace(r) == NonSpace(Collapse(t));
        assert NonSpace(s) == NonSpace(s[1..]);
      } else {
        CollapseSpec(s[1..]);
        assert r[1..] == Collapse(s[1..]);
      }
    }
  }

  /**
   * `clean_text`'s result holds no newline, no circled numeral, and never
   * two whitespace characters in a row.
   */
  lemma CleanSpec(s: string)
    ensures '\n' !in Clean(s)
    ensures forall c :: c in Clean(s) ==> !IsCircledNumeral(c)
    ensures IsCollapsed(Clean(s))
  {
    var t := RemoveCircled(NewlinesToSpaces(s));
    var r := Clean(s);
    RemoveCircledSpec(NewlinesToSpaces(s));
    CollapseSpec(t);
    NonSpaceChars(r);
    NonSpaceChars(t);
    forall c | c in r ensures c == ' ' || c in t {
      var i :| 0 <= i < |r| && r[i] == c;
    }
  }

  /**
   * Step 2 is the in-order filter: it works piece by piece, keeps every
   * other character and deletes every circled numeral.
   */
  lemma {:induction false} RemoveCircledFilter(a: string, b: string)
    ensures RemoveCircled(a + b) == RemoveCircled(a) + RemoveCircled(b)
  {
    if a != [] {
      RemoveCircledFilter(a[1..], b);
      assert (a + b)[1..] == a[1..] + b;
    } else {
      assert a + b == b;
    }
  }

  /** On one character, step 2 deletes a circled numeral and keeps anything else. */
  lemma RemoveCircledChar(c: char)
    ensures RemoveCircled([c]) == if IsCircledNumeral(c) then [] else [c]
  {
    assert [c][1..] == [];
  }

  /** Whether `w` is made of whitespace only. */
  predicate AllSpace(w: string) {
    forall i :: 0 <= i < |w| ==> IsSpace(w[i])
  }

  /** Dropping the leading whitespace of `x + b`. */
  lemma {:induction false} DropSpacesAppend(x: string, b: string)
    ensures AllSpace(x) ==> DropSpaces(x + b) == DropSpaces(b) && DropSpaces(x) == []
    ensures !AllSpace(x) ==> DropSpaces(x + b) == DropSpaces(x) + b && DropSpaces(x) != []
    ensures DropSpaces(x) == x[|x| - |DropSpaces(x)|..]
  {
    if x != [] {
      if IsSpace(x[0]) {
        DropSpacesAppend(x[1..], b);
        assert (x + b)[1..] == x[1..] + b;
        assert AllSpace(x) <==> AllSpace(x[1..]) by {
          assert forall i :: 0 < i < |x| ==> x[i] == x[1..][i - 1];
        }
      } else {
        assert !AllSpace(x) by { assert !IsSpace(x[0]); }
      }
    } else {
      assert x + b == b;
    }
  }

  /** A whitespace run collapses to a single space; a non-space character is kept. */
  lemma CollapseRun(w: string)
    requires w != [] && AllSpace(w)
    ensures Collapse(w) == " "
    ensures forall c :: !IsSpace(c) ==> Collapse([c]) == [c]
  {
    DropSpacesAppend(w[1..], []);
    assert AllSpace(w[1..]) by {
      assert forall i :: 0 <= i < |w[1..]| ==> w[1..][i] == w[i + 1];
    }
  }

  /**
   * Step 3 works run by run: collapsing a concatenation that does not cut
   * a whitespace run in two collapses each side in its place. With
   * CollapseRun this fixes the result: each run becomes one space where
   * it stood, and every other character stays where it was.
   */
  lemma {:induction false} CollapseAppend(a: string, b: string)
    requires a == [] || b == [] || !IsSpace(a[|a| - 1]) || !IsSpace(b[0])
    ensures Collapse(a + b) == Collapse(a) + Collapse(b)
    decreases |a|
  {
    if a == [] {
      assert a + b == b;
    } else if b == [] {
      assert a + b == a;
    } else if !IsSpace(a[0]) {
      assert (a + b)[1..] == a[1..] + b;
      CollapseAppend(a[1..], b);
    } else {
      var x := a[1..];
      assert (a + b)[1..] == x + b;
      DropSpacesAppend(x, b);
      if AllSpace(x) {
        assert IsSpace(a[|a| - 1]) by {
          if |a| > 1 { assert a[|a| - 1] == x[|x| - 1]; }
        }
        DropSpacesAppend(b, []);
        assert DropSpaces(b) == b;
      } else {
        var a' := DropSpaces(x);
        assert a'[|a'| - 1] == a[|a| - 1];
        CollapseAppend(a', b);
      }
    }
  }

  lemma {:induction false} NewlinesToSpacesFixpoint(s: string)
    requires '\n' !in s
    ensures NewlinesToSpaces(s) == s
  {
    if s != [] {
      NewlinesToSpacesFixpoint(s[1..]);
    }
  }

  lemma {:induction false} RemoveCircledFixpoint(s: string)
    requires forall c :: c in s ==> !IsCircledNumeral(c)
    ensures RemoveCircled(s) == s
  {
    if s != [] {
      RemoveCircledFixpoint(s[1..]);
    }
  }

  /** A collapsed string is left alone by Collapse, and only a collapsed one. */
  lemma {:induction false} CollapseFixpoint(s: string)
    ensures Collapse(s) == s <==> IsCollapsed(s)
  {
    CollapseSpec(s);
    if IsCollapsed(s) && s != [] {
      assert IsCollapsed(s[1..]) by {
        forall i | 0 <= i < |s[1..]| && IsSpace(s[1..][i])
          ensures s[1..][i] == ' ' && (i + 1 == |s[1..]| || !IsSpace(s[1..][i + 1]))
        {
          assert s[1..][i] == s[i + 1];
        }
      }
      CollapseFixpoint(s[1..]);
      if IsSpace(s[0]) {
        assert DropSpaces(s[1..]) == s[1..] by {
          assert s[1..] == [] || !IsSpace(s[1]);
        }
        assert Collapse(s) == [' '] + s[1..];
      }
    }
  }

  /**
   * Apart from whitespace, cleaning only deletes the circled numerals: the
   * remaining characters are kept, in order.
   */
  lemma CleanKeepsText(s: string)
    ensures NonSpace(Clean(s)) == NonSpace(RemoveCircled(s))
  {
    CollapseSpec(RemoveCircled(NewlinesToSpaces(s)));
    CircledNewlinesCommute(s);
  }

  lemma {:induction false} CircledNewlinesCommute(s: string)
    ensures NonSpace(RemoveCircled(NewlinesToSpaces(s))) == NonSpace(RemoveCircled(s))
  {
    if s != [] {
      CircledNewlinesCommute(s[1..]);
      var n := NewlinesToSpaces(s);
      assert n[1..] == NewlinesToSpaces(s[1..]);
    }
  }

  /** Cleaning is idempotent. */
  lemma CleanIdempotent(s: string)
    ensures Clean(Clean(s)) == Clean(s)
  {
    var t := Clean(s);
    CleanSpec(s);
    NewlinesToSpacesFixpoint(t);
    RemoveCircledFixpoint(t);
    CollapseFixpoint(t);
  }

  /** Whether `pat` occurs in `s` starting at position `p`. */
  predicate OccursAt(s: string, pat: string, p: nat) {
    p + |pat| <= |s| && s[p..p + |pat|] == pat
  }

  /**
   * `s.replace(pat, "")`: scanning left to right, each occurrence of `pat`
   * is deleted and the scan resumes after it; the output is not rescanned.
   */
  function RemoveAll(s: string, pat: string): string
    requires pat != []
    decreases |s|
  {
    if |s| < |pat| then s
    else if s[..|pat|] == pat then RemoveAll(s[|pat|..], pat)
    else [s[0]] + RemoveAll(s[1..], pat)
  }

  /**
   * The deletion only removes characters: the result is no longer than the
   * input, and invents nothing. It is the input itself when the pattern
   * does not occur, and strictly shorter when it does.
   */
  lemma {:induction false} RemoveAllSpec(s: string, pat: string)
    requires pat != []
    ensures |RemoveAll(s, pat)| <= |s|
    ensures forall c :: c in RemoveAll(s, pat) ==> c in s
    ensures (forall p: nat :: !OccursAt(s, pat, p)) ==> RemoveAll(s, pat) == s
    ensures (exists p: nat :: OccursAt(s, pat, p)) ==> |RemoveAll(s, pat)| < |s|
    decreases |s|
  {
    if |s| < |pat| {
      assert forall p: nat :: !OccursAt(s, pat, p);
    } else if s[..|pat|] == pat {
      assert OccursAt(s, pat, 0);
      RemoveAllSpec(s[|pat|..], pat);
    } else {
      RemoveAllSpec(s[1..], pat);
      assert forall p: nat :: OccursAt(s[1..], pat, p) ==> OccursAt(s, pat, p + 1) by {
        forall p: nat | OccursAt(s[1..], pat, p) ensures OccursAt(s, pat, p + 1) {
          assert s[p + 1..p + 1 + |pat|] == s[1..][p..p + |pat|];
        }
      }
      if exists p: nat :: OccursAt(s, pat, p) {
        var p: nat :| OccursAt(s, pat, p);
        assert p != 0;
        assert s[1..][p - 1..p - 1 + |pat|] == s[p..p + |pat|];
        assert OccursAt(s[1..], pat, p - 1);
      }
    }
  }

  /**
   * What the deletion keeps: everything before the first occurrence of the
   * pattern, then the deletion applied to what follows that occurrence.
   * With RemoveAllSpec (no occurrence: the text itself) this fixes the
   * result.
   */
  lemma RemoveAllFirst(s: string, pat: string, p: nat)
    requires pat != [] && OccursAt(s, pat, p)
    requires forall q: nat :: q < p ==> !OccursAt(s, pat, q)
    ensures RemoveAll(s, pat) == s[..p] + RemoveAll(s[p + |pat|..], pat)
  {
    var k := 0;
    while k < p
      invariant k <= p
      invariant RemoveAll(s, pat) == s[..k] + RemoveAll(s[k..], pat)
    {
      RemoveAllSkip(s, pat, k);
      k := k + 1;
    }
    RemoveAllAt(s, pat, p);
  }

  /** Where the pattern does not start, the deletion keeps that character. */
  lemma RemoveAllSkip(s: string, pat: string, k: nat)
    requires pat != [] && k + |pat| < |s| && !OccursAt(s, pat, k)
    ensures RemoveAll(s[k..], pat) == [s[k]] + RemoveAll(s[k + 1..], pat)
  {
    assert s[k..][..|pat|] == s[k..k + |pat|];
    assert s[k..][1..] == s[k + 1..];
  }

  /** Where the pattern starts, the deletion drops it and goes on after it. */
  lemma RemoveAllAt(s: string, pat: string, p: nat)
    requires pat != [] && OccursAt(s, pat, p)
    ensures RemoveAll(s[p..], pat) == RemoveAll(s[p + |pat|..], pat)
  {
    assert s[p..][..|pat|] == s[p..p + |pat|];
    assert s[p..][|pat|..] == s[p + |pat|..];
  }

  /**
   * The deletion is a single pass: a pattern that the deletion itself
   * brings together is left in the output.
   */
  lemma RemoveAllSinglePass()
    ensures RemoveAll("<br<br /> />", "<br />") == "<br />"
  {
    var pat := "<br />";
    var s := "<br<br /> />";
    assert s[..|pat|][3] != pat[3];
    assert s[1..][..|pat|][0] != pat[0];
    assert s[2..][..|pat|][0] != pat[0];
    assert s[3..][..|pat|] == pat;
    assert s[1..][1..] == s[2..] && s[2..][1..] == s[3..];
    assert s[3..][|pat|..] == " />";
    assert RemoveAll(" />", pat) == " />";
    calc {
      RemoveAll(s, pat);
      [s[0]] + RemoveAll(s[1..], pat);
      [s[0], s[1]] + RemoveAll(s[2..], pat);
      [s[0], s[1], s[2]] + RemoveAll(s[3..], pat);
      [s[0], s[1], s[2]] + RemoveAll(" />", pat);
    }
  }
}
