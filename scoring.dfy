/** Whole-word, case-insensitive skill matching and the match score
    (`score_resume` and the `matched_skills` filter of Resume4.py).
    A skill is searched with the pattern `\b` + re.escape(skill) + `\b`
    under re.IGNORECASE: the skill's characters match only themselves,
    up to the case of letters, and both ends must sit on a word boundary. */
module Scoring {
  import opened Chars
  import opened Search
  import opened Subsequences

  /** `\b` holds at position p: exactly one of text[p-1] and text[p] is a
      word character, a position outside the text counting as non-word. */
  predicate AtBoundary(text: string, p: nat) {
    (0 < p <= |text| && IsWordChar(text[p - 1])) != (p < |text| && IsWordChar(text[p]))
  }

  /** The skill's pattern matches text at p. */
  predicate OccursAt(text: string, skill: string, p: nat) {
    && p + |skill| <= |text|
    && AtBoundary(text, p)
    && SameIgnoringCase(text[p..p + |skill|], skill)
    && AtBoundary(text, p + |skill|)
  }

  /** The positions at which `\b(<escaped skill>)\b` matches. */
  function Occurs(text: string, skill: string): nat -> bool {
    (q: nat) => OccursAt(text, skill, q)
  }

  /** The outcome of trying the skill's pattern at each start position: the
      end of the match where `Occurs` accepts the start. */
  function Occurrence(text: string, skill: string): nat -> Option<nat> {
    (q: nat) => if Occurs(text, skill)(q) then Some(q + |skill|) else None
  }

  /** `re.search(rf"\b{re.escape(skill)}\b", text, re.IGNORECASE)`: the
      leftmost occurrence, as (start, end). */
  function SearchSkill(text: string, skill: string): (r: Option<(nat, nat)>)
    ensures r.Some? ==> OccursAt(text, skill, r.value.0) && r.value.1 == r.value.0 + |skill|
    ensures r.Some? ==> forall q: nat :: q < r.value.0 ==> !OccursAt(text, skill, q)
    ensures r.None? ==> forall q: nat :: !OccursAt(text, skill, q)
  {
    var r := FirstHit(0, |text|, Occurrence(text, skill));
    assert forall q: nat :: Occurs(text, skill)(q) == OccursAt(text, skill, q);
    assert forall q: nat :: Occurrence(text, skill)(q).None? <==> !OccursAt(text, skill, q);
    r
  }

  /** The test both the score and the matched-skills list apply. */
  predicate Matches(text: string, skill: string) {
    SearchSkill(text, skill).Some?
  }

  /** `sum(1 for skill in skills if ...)`: the numerator of the score. */
  function CountMatched(text: string, skills: seq<string>): (n: nat)
    ensures n <= |skills|
    ensures n == |skills| <==> forall s :: s in skills ==> Matches(text, s)
    ensures n == 0 <==> forall s :: s in skills ==> !Matches(text, s)
  {
    if skills == [] then 0
    else (if Matches(text, skills[0]) then 1 else 0) + CountMatched(text, skills[1..])
  }

  /** `[s for s in skills if re.search(...)]` */
  function MatchedSkills(text: string, skills: seq<string>): (m: seq<string>)
  {
    if skills == [] then []
    else (if Matches(text, skills[0]) then [skills[0]] else []) + MatchedSkills(text, skills[1..])
  }

  /** `score_resume`: `matches / len(skills) * 100 if skills else 0`. */
  function Score(text: string, skills: seq<string>): (r: real)
    ensures 0.0 <= r <= 100.0
  {
    if skills == [] then 0.0 else Percent(CountMatched(text, skills), |skills|)
  }

  /** `m / n * 100` in exact arithmetic: the percentage of n that m is. */
  function Percent(m: nat, n: nat): (r: real)
    requires m <= n && 0 < n
    ensures 0.0 <= r <= 100.0
    ensures r * n as real == 100.0 * m as real
    ensures r == 100.0 <==> m == n
    ensures r == 0.0 <==> m == 0
  {
    var q := m as real / n as real;
    QuotientBounds(m as real, n as real);
    assert q * 100.0 * n as real == 100.0 * (q * n as real);
    q * 100.0
  }

  /** The quotient of a part by a positive whole lies in [0, 1], is 1 only
      for the whole and 0 only for nothing. */
  lemma QuotientBounds(x: real, y: real)
    requires 0.0 <= x <= y && 0.0 < y
    ensures (x / y) * y == x
    ensures 0.0 <= x / y <= 1.0
    ensures x / y == 1.0 <==> x == y
    ensures x / y == 0.0 <==> x == 0.0
  {
    var q := x / y;
    assert q * y == x;
    if x == y {
      assert q == 1.0;
    } else if x == 0.0 {
      assert q == 0.0;
    } else {
      assert 0.0 < q * y;
      assert 0.0 < q;
      var d := 1.0 - q;
      assert d * y == y - q * y;
      assert x < y;
      assert d * y == y - x;
      assert 0.0 < d * y;
      assert 0.0 < d;
    }
  }

  /** A skill matches iff its pattern occurs somewhere in the text. */
  lemma MatchesIff(text: string, skill: string)
    ensures Matches(text, skill) <==> exists p: nat :: OccursAt(text, skill, p)
  {
    if !Matches(text, skill) {
      assert forall p: nat :: !OccursAt(text, skill, p);
    }
  }

  /** With no skills the score is 0, whatever the resume says. */
  lemma ScoreNoSkills(text: string)
    ensures Score(text, []) == 0.0
  {
  }

  /** The score is 100 exactly when every skill occurs. */
  lemma ScoreFullIff(text: string, skills: seq<string>)
    requires skills != []
    ensures Score(text, skills) == 100.0 <==> forall s :: s in skills ==> Matches(text, s)
  {
  }

  /** The score is 0 exactly when no skill occurs. */
  lemma ScoreZeroIff(text: string, skills: seq<string>)
    ensures Score(text, skills) == 0.0 <==> forall s :: s in skills ==> !Matches(text, s)
  {
  }

  /** `matched_skills` keeps, in order, exactly the skills the score counts. */
  lemma {:induction false} MatchedSkillsSpec(text: string, skills: seq<string>)
    ensures IsSubseq(MatchedSkills(text, skills), skills)
    ensures |MatchedSkills(text, skills)| == CountMatched(text, skills)
    ensures forall s :: s in MatchedSkills(text, skills) <==> s in skills && Matches(text, s)
  {
    if skills == [] {
    } else {
      var rest := MatchedSkills(text, skills[1..]);
      MatchedSkillsSpec(text, skills[1..]);
      if Matches(text, skills[0]) {
        assert MatchedSkills(text, skills) == [skills[0]] + rest;
        assert IsSubseq(([skills[0]] + rest)[1..], skills[1..]);
      } else {
        assert MatchedSkills(text, skills) == rest;
        assert IsSubseq(rest, skills[1..]);
      }
      assert forall s :: s in skills <==> s == skills[0] || s in skills[1..];
    }
  }

  /** The score is 100 times the share of skills in `matched_skills`. */
  lemma ScoreFormula(text: string, skills: seq<string>)
    requires skills != []
    ensures |MatchedSkills(text, skills)| <= |skills|
    ensures Score(text, skills) == Percent(|MatchedSkills(text, skills)|, |skills|)
  {
    MatchedSkillsSpec(text, skills);
  }

  /** Case of letters in the text does not affect whether the pattern
      occurs at a given position. */
  lemma OccursAtIgnoresTextCase(t1: string, t2: string, skill: string, p: nat)
    requires SameIgnoringCase(t1, t2)
    ensures OccursAt(t1, skill, p) == OccursAt(t2, skill, p)
  {
    assert forall i :: 0 <= i < |t1| ==> IsWordChar(t1[i]) == IsWordChar(t2[i]) by {
      forall i | 0 <= i < |t1| ensures IsWordChar(t1[i]) == IsWordChar(t2[i]) {
        assert ToLower(t1[i]) == ToLower(t2[i]);
      }
    }
    if p + |skill| <= |t1| {
      var n := |skill|;
      var w1, w2 := t1[p..p + n], t2[p..p + n];
      forall i | 0 <= i < n ensures ToLower(w1[i]) == ToLower(w2[i]) {
        assert w1[i] == t1[p + i] && w2[i] == t2[p + i];
      }
    }
  }

  /** Changing the case of letters in the resume does not change whether
      a skill matches. */
  lemma MatchesIgnoresTextCase(t1: string, t2: string, skill: string)
    requires SameIgnoringCase(t1, t2)
    ensures Matches(t1, skill) == Matches(t2, skill)
  {
    MatchesIff(t1, skill);
    MatchesIff(t2, skill);
    forall p: nat ensures OccursAt(t1, skill, p) == OccursAt(t2, skill, p) {
      OccursAtIgnoresTextCase(t1, t2, skill, p);
    }
  }

  /** Changing the case of letters in a skill does not change whether it
      matches. */
  lemma MatchesIgnoresSkillCase(text: string, s1: string, s2: string)
    requires SameIgnoringCase(s1, s2)
    ensures Matches(text, s1) == Matches(text, s2)
  {
    MatchesIff(text, s1);
    MatchesIff(text, s2);
    forall p: nat ensures OccursAt(text, s1, p) == OccursAt(text, s2, p) {
      if p + |s1| <= |text| {
        var w := text[p..p + |s1|];
        assert SameIgnoringCase(w, s1) == SameIgnoringCase(w, s2);
      }
    }
  }

  /** The score does not depend on the case of letters in the resume. */
  lemma {:induction false} ScoreIgnoresTextCase(t1: string, t2: string, skills: seq<string>)
    requires SameIgnoringCase(t1, t2)
    ensures CountMatched(t1, skills) == CountMatched(t2, skills)
    ensures Score(t1, skills) == Score(t2, skills)
  {
    if skills != [] {
      MatchesIgnoresTextCase(t1, t2, skills[0]);
      ScoreIgnoresTextCase(t1, t2, skills[1..]);
    }
  }

  /** Because the skill is escaped, its non-letter characters (regex
      metacharacters among them) match only themselves. */
  lemma SymbolsMatchLiterally(text: string, skill: string, p: nat)
    requires OccursAt(text, skill, p)
    ensures forall i :: 0 <= i < |skill| && !IsLetter(skill[i]) ==> text[p + i] == skill[i]
  {
    forall i | 0 <= i < |skill| && !IsLetter(skill[i]) ensures text[p + i] == skill[i] {
      assert text[p..p + |skill|][i] == text[p + i];
    }
  }

  /** `\b` is applied even when the skill begins or ends with a non-word
      character: such a skill (`c++`, `.net`) only matches where a word
      character stands next to it. */
  lemma SymbolEdgesNeedWordNeighbours(text: string, skill: string, p: nat)
    requires OccursAt(text, skill, p) && skill != []
    ensures !IsWordChar(skill[|skill| - 1]) ==> p + |skill| < |text| && IsWordChar(text[p + |skill|])
    ensures !IsWordChar(skill[0]) ==> 0 < p && IsWordChar(text[p - 1])
  {
    var n := |skill|;
    assert text[p..p + n][n - 1] == text[p + n - 1] && text[p..p + n][0] == text[p];
    assert ToLower(text[p + n - 1]) == ToLower(skill[n - 1]);
    assert ToLower(text[p]) == ToLower(skill[0]);
  }

  /** Consequently `c++` is never found when followed by a space. */
  lemma CPlusPlusBeforeSpace()
    ensures !Matches("I know c++ well", "c++")
  {
    var text := "I know c++ well";
    MatchesIff(text, "c++");
    forall p: nat ensures !OccursAt(text, "c++", p) {
      if OccursAt(text, "c++", p) {
        SymbolEdgesNeedWordNeighbours(text, "c++", p);
        SymbolsMatchLiterally(text, "c++", p);
        assert false;
      }
    }
  }
}
