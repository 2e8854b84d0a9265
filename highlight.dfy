/** `highlight_text` of Resume4.py: the terms are sorted by decreasing
    length (a stable sort), then each term in turn is substituted into the
    output of the previous pass with `re.sub`, wrapping every whole-word,
    case-insensitive occurrence in a `<mark>` element that keeps the
    occurrence's own spelling (the `\1` back-reference). */
module Highlight {
  import opened Subsequences
  import opened Scoring

  /** What a replacement puts before and after the matched text. */
  datatype Tag = Tag(open: string, close: string)

  /** The replacement of highlight_text:
      `<mark style='...'>\1</mark>`. */
  const MARK := Tag("<mark style='background:#fee2e2; padding:0.1rem 0.2rem; border-radius:0.2rem;'>", "</mark>")

  /** The replacement of one occurrence, `tag.open + \1 + tag.close`,
      followed by the rest of the output. */
  function Wrap(tag: Tag, span: string, rest: string): string {
    tag.open + span + tag.close + rest
  }

  /** A match of n characters at p, among the positions `occ` accepts. */
  predicate MatchAt(text: string, n: nat, occ: nat -> bool, p: nat) {
    p + n <= |text| && occ(p)
  }

  /** The scan of `re.sub` for a pattern that always matches n characters,
      producing the output from position p on. The scan resumes after each
      match; an empty match (n = 0) copies the next character before the
      scan goes on. */
  function Replace(text: string, n: nat, occ: nat -> bool, tag: Tag, p: nat): string
    requires p <= |text|
    decreases |text| - p
  {
    if MatchAt(text, n, occ, p) then
      if n > 0 then Wrap(tag, text[p..p + n], Replace(text, n, occ, tag, p + n))
      else if p < |text| then Wrap(tag, text[p..p], [text[p]] + Replace(text, n, occ, tag, p + 1))
      else Wrap(tag, text[p..p], [])
    else if p < |text| then [text[p]] + Replace(text, n, occ, tag, p + 1)
    else []
  }

  /** One pass of highlight_text: `re.sub(rf"\b({re.escape(skill)})\b",
      tag.open + r"\1" + tag.close, text, flags=re.IGNORECASE)`. */
  function Substitute(text: string, skill: string, tag: Tag): string {
    Replace(text, |skill|, Occurs(text, skill), tag, 0)
  }

  /** Start positions, in increasing order and at least n apart, of spans of
      length n that start at or after `from` and end inside the text. */
  predicate Chain(spans: seq<nat>, n: nat, from: nat, len: nat) {
    spans == [] || (from <= spans[0] && spans[0] + n <= len && Chain(spans[1..], n, spans[0] + n, len))
  }

  /** The matches the scan of Replace takes from p on: the leftmost one,
      then the leftmost one not overlapping it, and so on. */
  function Spans(text: string, n: nat, occ: nat -> bool, p: nat): (r: seq<nat>)
    requires p <= |text|
    ensures Chain(r, n, p, |text|)
    ensures forall i :: 0 <= i < |r| ==> occ(r[i])
    decreases |text| - p
  {
    if MatchAt(text, n, occ, p) then
      if n > 0 then [p] + Spans(text, n, occ, p + n)
      else if p < |text| then [p] + Spans(text, n, occ, p + 1)
      else [p]
    else if p < |text| then Spans(text, n, occ, p + 1)
    else []
  }

  /** The occurrences of the skill that one pass replaces. */
  function Replaced(text: string, skill: string): (r: seq<nat>)
    ensures Chain(r, |skill|, 0, |text|)
    ensures forall i :: 0 <= i < |r| ==> OccursAt(text, skill, r[i])
  {
    var r := Spans(text, |skill|, Occurs(text, skill), 0);
    assert forall i :: 0 <= i < |r| ==> Occurs(text, skill)(r[i]);
    r
  }

  /** An occurrence at q is covered by a span starting at s. */
  predicate Covers(s: nat, n: nat, q: nat) {
    s == q || s < q < s + n
  }

  /** The text from `from` on, with tag.open and tag.close put around
      each given span: a reference rendering that copies the text verbatim. */
  function Render(text: string, tag: Tag, n: nat, spans: seq<nat>, from: nat): (r: string)
    requires from <= |text| && Chain(spans, n, from, |text|)
    ensures |r| >= |text| - from
    ensures tag.open + tag.close != [] ==> (|r| == |text| - from <==> spans == [])
    decreases spans
  {
    if spans == [] then text[from..]
    else
      var s := spans[0];
      text[from..s] + Wrap(tag, text[s..s + n], Render(text, tag, n, spans[1..], s + n))
  }

  lemma RenderStep(text: string, tag: Tag, n: nat, spans: seq<nat>, p: nat)
    requires p < |text| && Chain(spans, n, p + 1, |text|)
    ensures Render(text, tag, n, spans, p) == [text[p]] + Render(text, tag, n, spans, p + 1)
  {
    if spans == [] {
      assert text[p..] == [text[p]] + text[p + 1..];
    } else {
      var s := spans[0];
      assert text[p..s] == [text[p]] + text[p + 1..s];
    }
  }

  lemma RenderFirst(text: string, tag: Tag, n: nat, rest: seq<nat>, p: nat)
    requires p + n <= |text| && Chain(rest, n, p + n, |text|)
    ensures Chain([p] + rest, n, p, |text|)
    ensures Render(text, tag, n, [p] + rest, p) == Wrap(tag, text[p..p + n], Render(text, tag, n, rest, p + n))
  {
    assert ([p] + rest)[1..] == rest;
    assert text[p..p] == [];
  }

  /** Where the scan of Replace goes on after position p. */
  function Next(text: string, n: nat, occ: nat -> bool, p: nat): (r: nat)
    requires p < |text|
    ensures p < r <= |text|
  {
    if MatchAt(text, n, occ, p) && n > 0 then p + n else p + 1
  }

  /** The scan of re.sub is the text with exactly the chosen spans wrapped,
      each wrapped span being the text's own characters. */
  lemma {:induction false} ReplaceIsRender(text: string, n: nat, occ: nat -> bool, tag: Tag, p: nat)
    requires p <= |text|
    ensures Replace(text, n, occ, tag, p) == Render(text, tag, n, Spans(text, n, occ, p), p)
    decreases |text| - p
  {
    if p == |text| {
      RenderAtEnd(text, n, occ, tag);
    } else {
      ReplaceIsRender(text, n, occ, tag, Next(text, n, occ, p));
      RenderAfterStep(text, n, occ, tag, p);
    }
  }

  /** One step of ReplaceIsRender, in each of the three cases of the scan. */
  lemma RenderAfterStep(text: string, n: nat, occ: nat -> bool, tag: Tag, p: nat)
    requires p < |text|
    requires Replace(text, n, occ, tag, Next(text, n, occ, p))
      == Render(text, tag, n, Spans(text, n, occ, Next(text, n, occ, p)), Next(text, n, occ, p))
    ensures Replace(text, n, occ, tag, p) == Render(text, tag, n, Spans(text, n, occ, p), p)
  {
    if MatchAt(text, n, occ, p) && n > 0 {
      RenderAfterMatch(text, n, occ, tag, p);
    } else if MatchAt(text, n, occ, p) {
      RenderAfterEmptyMatch(text, n, occ, tag, p);
    } else {
      RenderAfterMiss(text, n, occ, tag, p);
    }
  }

  lemma RenderAtEnd(text: string, n: nat, occ: nat -> bool, tag: Tag)
    ensures Replace(text, n, occ, tag, |text|) == Render(text, tag, n, Spans(text, n, occ, |text|), |text|)
  {
    var p := |text|;
    if MatchAt(text, n, occ, p) {
      assert Spans(text, n, occ, p) == [p];
      RenderFirst(text, tag, n, [], p);
    }
  }

  /** One step of the scan of Replace, in each of its three cases. */
  lemma ReplaceUnfold(text: string, n: nat, occ: nat -> bool, tag: Tag, p: nat)
    requires p < |text| || MatchAt(text, n, occ, p)
    ensures MatchAt(text, n, occ, p) && n > 0 ==>
      Replace(text, n, occ, tag, p) == Wrap(tag, text[p..p + n], Replace(text, n, occ, tag, p + n))
    ensures MatchAt(text, n, occ, p) && n == 0 && p < |text| ==>
      Replace(text, n, occ, tag, p) == Wrap(tag, text[p..p], [text[p]] + Replace(text, n, occ, tag, p + 1))
    ensures !MatchAt(text, n, occ, p) ==>
      Replace(text, n, occ, tag, p) == [text[p]] + Replace(text, n, occ, tag, p + 1)
  {
  }

  /** One step of the scan that chooses the spans. */
  lemma SpansUnfold(text: string, n: nat, occ: nat -> bool, p: nat)
    requires p < |text| || MatchAt(text, n, occ, p)
    ensures MatchAt(text, n, occ, p) && n > 0 ==> Spans(text, n, occ, p) == [p] + Spans(text, n, occ, p + n)
    ensures MatchAt(text, n, occ, p) && n == 0 && p < |text| ==> Spans(text, n, occ, p) == [p] + Spans(text, n, occ, p + 1)
    ensures !MatchAt(text, n, occ, p) ==> Spans(text, n, occ, p) == Spans(text, n, occ, p + 1)
  {
  }

  lemma RenderAfterMatch(text: string, n: nat, occ: nat -> bool, tag: Tag, p: nat)
    requires MatchAt(text, n, occ, p) && n > 0
    requires Replace(text, n, occ, tag, p + n) == Render(text, tag, n, Spans(text, n, occ, p + n), p + n)
    ensures Replace(text, n, occ, tag, p) == Render(text, tag, n, Spans(text, n, occ, p), p)
  {
    var rest := Spans(text, n, occ, p + n);
    SpansUnfold(text, n, occ, p);
    RenderFirst(text, tag, n, rest, p);
    ReplaceUnfold(text, n, occ, tag, p);
  }

  lemma RenderAfterEmptyMatch(text: string, n: nat, occ: nat -> bool, tag: Tag, p: nat)
    requires MatchAt(text, n, occ, p) && n == 0 && p < |text|
    requires Replace(text, n, occ, tag, p + 1) == Render(text, tag, 0, Spans(text, n, occ, p + 1), p + 1)
    ensures Replace(text, n, occ, tag, p) == Render(text, tag, 0, Spans(text, n, occ, p), p)
  {
    var rest := Spans(text, n, occ, p + 1);
    SpansUnfold(text, n, occ, p);
    RenderStep(text, tag, 0, rest, p);
    RenderFirst(text, tag, 0, rest, p);
    ReplaceUnfold(text, n, occ, tag, p);
  }

  lemma RenderAfterMiss(text: string, n: nat, occ: nat -> bool, tag: Tag, p: nat)
    requires !MatchAt(text, n, occ, p) && p < |text|
    requires Replace(text, n, occ, tag, p + 1) == Render(text, tag, n, Spans(text, n, occ, p + 1), p + 1)
    ensures Replace(text, n, occ, tag, p) == Render(text, tag, n, Spans(text, n, occ, p), p)
  {
    SpansUnfold(text, n, occ, p);
    RenderStep(text, tag, n, Spans(text, n, occ, p + 1), p);
    ReplaceUnfold(text, n, occ, tag, p);
  }

  /** Every match from p on is taken or lies inside a taken one: the scan
      leaves no match it could have taken. */
  lemma {:induction false} SpansCoverMatches(text: string, n: nat, occ: nat -> bool, p: nat, q: nat)
    requires p <= q && MatchAt(text, n, occ, q)
    ensures exists i :: 0 <= i < |Spans(text, n, occ, p)| && Covers(Spans(text, n, occ, p)[i], n, q)
    decreases |text| - p
  {
    var sp := Spans(text, n, occ, p);
    assert p < |text| || MatchAt(text, n, occ, p) by {
      if p == |text| { assert q == p; }
    }
    SpansUnfold(text, n, occ, p);
    if MatchAt(text, n, occ, p) && (q == p || q < p + n) {
      assert Covers(sp[0], n, q);
    } else {
      var next := if MatchAt(text, n, occ, p) && n > 0 then p + n else p + 1;
      var rest := Spans(text, n, occ, next);
      SpansCoverMatches(text, n, occ, next, q);
      var i :| 0 <= i < |rest| && Covers(rest[i], n, q);
      if MatchAt(text, n, occ, p) {
        assert sp == [p] + rest;
        assert Covers(sp[i + 1], n, q);
      } else {
        assert sp == rest;
        assert Covers(sp[i], n, q);
      }
    }
  }

  /** re.sub leaves no occurrence of the skill it could have replaced:
      each one is replaced or lies inside a replaced one. */
  lemma ReplacedCoverOccurrences(text: string, skill: string, q: nat)
    requires OccursAt(text, skill, q)
    ensures exists i :: 0 <= i < |Replaced(text, skill)| && Covers(Replaced(text, skill)[i], |skill|, q)
  {
    assert MatchAt(text, |skill|, Occurs(text, skill), q);
    SpansCoverMatches(text, |skill|, Occurs(text, skill), 0, q);
    assert Replaced(text, skill) == Spans(text, |skill|, Occurs(text, skill), 0);
  }

  /** A wrapped span keeps the span and what follows as a subsequence. */
  lemma WrapKeeps(tag: Tag, span: string, a: string, b: string)
    requires IsSubseq(a, b)
    ensures IsSubseq(span + a, Wrap(tag, span, b))
  {
    SubseqPrependRight(a, tag.close, b);
    SubseqPrependBoth(span, a, tag.close + b);
    SubseqPrependRight(span + a, tag.open, span + (tag.close + b));
    assert tag.open + (span + (tag.close + b)) == Wrap(tag, span, b);
  }

  /** Rendering only inserts: the text is a subsequence of the result. */
  lemma {:induction false} RenderKeepsText(text: string, tag: Tag, n: nat, spans: seq<nat>, from: nat)
    requires from <= |text| && Chain(spans, n, from, |text|)
    ensures IsSubseq(text[from..], Render(text, tag, n, spans, from))
    decreases spans
  {
    if spans == [] {
      SubseqRefl(text[from..]);
    } else {
      var s := spans[0];
      RenderKeepsText(text, tag, n, spans[1..], s + n);
      KeepAroundSpan(text, tag, from, s, n, Render(text, tag, n, spans[1..], s + n));
    }
  }

  /** The text before a span, the wrapped span and a rendering of the rest
      keep text[from..] as a subsequence. */
  lemma KeepAroundSpan(text: string, tag: Tag, from: nat, s: nat, n: nat, tail: string)
    requires from <= s && s + n <= |text| && IsSubseq(text[s + n..], tail)
    ensures IsSubseq(text[from..], text[from..s] + Wrap(tag, text[s..s + n], tail))
  {
    WrapKeeps(tag, text[s..s + n], text[s + n..], tail);
    assert text[s..s + n] + text[s + n..] == text[s..];
    SubseqPrependBoth(text[from..s], text[s..], Wrap(tag, text[s..s + n], tail));
    assert text[from..s] + text[s..] == text[from..];
  }

  /** w occurs in r as a contiguous block. */
  ghost predicate Contains(r: string, w: string) {
    exists before: string, after: string :: r == before + w + after
  }

  lemma ContainsWrapped(pre: string, tag: Tag, span: string, tail: string)
    ensures Contains(pre + Wrap(tag, span, tail), tag.open + span + tag.close)
  {
    assert pre + Wrap(tag, span, tail) == pre + (tag.open + span + tag.close) + tail;
  }

  lemma ContainsAfterWrap(pre: string, tag: Tag, span: string, tail: string, w: string)
    requires Contains(tail, w)
    ensures Contains(pre + Wrap(tag, span, tail), w)
  {
    var before: string, after: string :| tail == before + w + after;
    assert pre + Wrap(tag, span, tail) == (pre + tag.open + span + tag.close + before) + w + after;
  }

  /** Every span is wrapped in the rendering with its own spelling from
      the text: this is what the `\1` back-reference puts back. */
  lemma {:induction false} RenderWrapsSpan(text: string, tag: Tag, n: nat, spans: seq<nat>, from: nat, i: nat)
    requires from <= |text| && Chain(spans, n, from, |text|) && i < |spans|
    ensures spans[i] + n <= |text|
    ensures Contains(Render(text, tag, n, spans, from), tag.open + text[spans[i]..spans[i] + n] + tag.close)
    decreases spans
  {
    var s := spans[0];
    var tail := Render(text, tag, n, spans[1..], s + n);
    if i == 0 {
      ContainsWrapped(text[from..s], tag, text[s..s + n], tail);
    } else {
      RenderWrapsSpan(text, tag, n, spans[1..], s + n, i - 1);
      assert spans[1..][i - 1] == spans[i];
      ContainsAfterWrap(text[from..s], tag, text[s..s + n], tail, tag.open + text[spans[i]..spans[i] + n] + tag.close);
    }
  }

  /** In one pass, each replaced occurrence comes back between the tags
      exactly as the text spells it, whatever the case of the skill. */
  lemma SubstituteKeepsSpelling(text: string, skill: string, tag: Tag, i: nat)
    requires i < |Replaced(text, skill)|
    ensures OccursAt(text, skill, Replaced(text, skill)[i])
    ensures Contains(Substitute(text, skill, tag),
      tag.open + text[Replaced(text, skill)[i]..Replaced(text, skill)[i] + |skill|] + tag.close)
  {
    ReplaceIsRender(text, |skill|, Occurs(text, skill), tag, 0);
    RenderWrapsSpan(text, tag, |skill|, Replaced(text, skill), 0, i);
  }

  /** One pass never shortens the text, keeps it as a subsequence, and
      changes it exactly when the term matches. */
  lemma SubstituteSpec(text: string, skill: string, tag: Tag)
    requires tag.open + tag.close != []
    ensures IsSubseq(text, Substitute(text, skill, tag))
    ensures |Substitute(text, skill, tag)| >= |text|
    ensures Substitute(text, skill, tag) == text <==> !Matches(text, skill)
    ensures |Substitute(text, skill, tag)| == |text| <==> !Matches(text, skill)
  {
    var sp := Replaced(text, skill);
    ReplaceIsRender(text, |skill|, Occurs(text, skill), tag, 0);
    RenderKeepsText(text, tag, |skill|, sp, 0);
    assert text[0..] == text;
    MatchesIff(text, skill);
    if Matches(text, skill) {
      var q: nat :| OccursAt(text, skill, q);
      ReplacedCoverOccurrences(text, skill, q);
    }
  }

  /** `sorted(skills, key=len, reverse=True)`: Python's sort is stable, so
      terms of equal length keep their input order. */
  function ByLengthDesc(terms: seq<string>): (r: seq<string>)
    ensures multiset(r) == multiset(terms)
  {
    if terms == [] then []
    else
      assert terms == [terms[0]] + terms[1..];
      InsertByLength(terms[0], ByLengthDesc(terms[1..]))
  }

  /** Put x in front of the first element that is not longer than it. */
  function InsertByLength(x: string, s: seq<string>): (r: seq<string>)
    ensures multiset(r) == multiset(s) + multiset{x}
  {
    if s == [] || |x| >= |s[0]| then [x] + s
    else
      assert s == [s[0]] + s[1..];
      [s[0]] + InsertByLength(x, s[1..])
  }

  lemma {:induction false} InsertKeepsOrder(x: string, s: seq<string>)
    requires NonIncreasing(s)
    ensures NonIncreasing(InsertByLength(x, s))
  {
    if s != [] && |x| < |s[0]| {
      var r := InsertByLength(x, s[1..]);
      InsertKeepsOrder(x, s[1..]);
      forall j | 0 <= j < |r| ensures |s[0]| >= |r[j]| {
        assert r[j] in multiset(r);
        if r[j] != x {
          assert r[j] in multiset(s[1..]);
          assert r[j] in s[1..];
        }
      }
    }
  }

  /** The sorted terms are in non-increasing order of length. */
  lemma {:induction false} ByLengthDescOrdered(terms: seq<string>)
    ensures NonIncreasing(ByLengthDesc(terms))
  {
    if terms != [] {
      ByLengthDescOrdered(terms[1..]);
      InsertKeepsOrder(terms[0], ByLengthDesc(terms[1..]));
    }
  }

  predicate NonIncreasing(s: seq<string>) {
    forall i, j :: 0 <= i < j < |s| ==> |s[i]| >= |s[j]|
  }

  /** The terms of length n, in order. */
  function WithLength(s: seq<string>, n: nat): seq<string> {
    if s == [] then [] else (if |s[0]| == n then [s[0]] else []) + WithLength(s[1..], n)
  }

  lemma WithLengthCons(x: string, s: seq<string>, n: nat)
    ensures WithLength([x] + s, n) == (if |x| == n then [x] else []) + WithLength(s, n)
  {
    assert ([x] + s)[1..] == s;
  }

  lemma {:induction false} InsertWithLength(x: string, s: seq<string>, n: nat)
    ensures WithLength(InsertByLength(x, s), n) == (if |x| == n then [x] else []) + WithLength(s, n)
  {
    if s == [] || |x| >= |s[0]| {
      WithLengthCons(x, s, n);
    } else {
      InsertWithLength(x, s[1..], n);
      WithLengthCons(s[0], InsertByLength(x, s[1..]), n);
      if |x| == n {
        assert WithLength(InsertByLength(x, s), n) == [x] + WithLength(s[1..], n);
      } else {
        assert WithLength(InsertByLength(x, s), n) == WithLength(s, n);
      }
    }
  }

  /** The sort is stable: for every length, the terms of that length appear
      in the same order as in the input. */
  lemma {:induction false} ByLengthDescStable(terms: seq<string>, n: nat)
    ensures WithLength(ByLengthDesc(terms), n) == WithLength(terms, n)
  {
    if terms != [] {
      ByLengthDescStable(terms[1..], n);
      InsertWithLength(terms[0], ByLengthDesc(terms[1..]), n);
    }
  }

  /** The passes of the loop: each term is substituted into the previous
      pass's output, in the given order. */
  function Passes(text: string, terms: seq<string>, tag: Tag): string
    decreases |terms|
  {
    if terms == [] then text
    else Substitute(Passes(text, terms[..|terms| - 1], tag), terms[|terms| - 1], tag)
  }

  /** `highlight_text(text, skills)` */
  method Highlight(text: string, terms: seq<string>) returns (out: string)
    ensures out == Passes(text, ByLengthDesc(terms), MARK)
  {
    var order := ByLengthDesc(terms);
    out := text;
    for i := 0 to |order|
      invariant out == Passes(text, order[..i], MARK)
    {
      assert order[..i + 1][..i] == order[..i];
      out := Substitute(out, order[i], MARK);
    }
    assert order[..|order|] == order;
  }

  /** With no terms the text comes back unchanged. */
  lemma HighlightNoTerms(text: string)
    ensures Passes(text, ByLengthDesc([]), MARK) == text
  {
  }

  /** The passes only insert: the original text is a subsequence of the
      result, and the result is at least as long. */
  lemma {:induction false} PassesKeepText(text: string, terms: seq<string>, tag: Tag)
    requires tag.open + tag.close != []
    ensures IsSubseq(text, Passes(text, terms, tag))
    ensures |Passes(text, terms, tag)| >= |text|
    decreases |terms|
  {
    if terms == [] {
      SubseqRefl(text);
    } else {
      var prev := Passes(text, terms[..|terms| - 1], tag);
      PassesKeepText(text, terms[..|terms| - 1], tag);
      SubstituteSpec(prev, terms[|terms| - 1], tag);
      SubseqTrans(text, prev, Passes(text, terms, tag));
    }
  }

  /** The passes leave the text unchanged exactly when no term occurs in it. */
  lemma {:induction false} PassesUnchangedIff(text: string, terms: seq<string>, tag: Tag)
    requires tag.open + tag.close != []
    ensures |Passes(text, terms, tag)| >= |text|
    ensures Passes(text, terms, tag) == text <==> forall i :: 0 <= i < |terms| ==> !Matches(text, terms[i])
    ensures |Passes(text, terms, tag)| == |text| <==> Passes(text, terms, tag) == text
    decreases |terms|
  {
    if terms != [] {
      var init := terms[..|terms| - 1];
      var last := terms[|terms| - 1];
      var prev := Passes(text, init, tag);
      PassesUnchangedIff(text, init, tag);
      SubstituteSpec(prev, last, tag);
      assert forall i :: 0 <= i < |init| ==> init[i] == terms[i];
      assert Passes(text, terms, tag) == Substitute(prev, last, tag);
      if prev == text {
        assert (forall i :: 0 <= i < |terms| ==> !Matches(text, terms[i])) <==> !Matches(text, last);
      } else {
        assert |Passes(text, terms, tag)| > |text|;
      }
    }
  }

  /** What `highlight_text` promises: the resume text survives, in order and
      with its own casing, and nothing changes unless some term occurs. */
  lemma HighlightSpec(text: string, terms: seq<string>)
    ensures IsSubseq(text, Passes(text, ByLengthDesc(terms), MARK))
    ensures Passes(text, ByLengthDesc(terms), MARK) == text <==> forall t :: t in terms ==> !Matches(text, t)
  {
    var order := ByLengthDesc(terms);
    assert MARK.close[0] == '<';
    PassesKeepText(text, order, MARK);
    PassesUnchangedIff(text, order, MARK);
    assert forall t :: t in terms <==> t in order by {
      assert forall t :: t in terms <==> t in multiset(terms);
      assert forall t :: t in order <==> t in multiset(order);
    }
  }
}
