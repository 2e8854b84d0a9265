# Resume screener: text-matching core

A Dafny model of the text-matching pipeline of the resume screening app
(`Resume4.py`). Once the resume text and the skills from the job description
are available, the app:

- scores the resume: the percentage of skills that occur in it as whole
  words, case-insensitively, matched literally (`score_resume`);
- keeps the skills that occur, in their original order (`matched_skills`);
- highlights those skills in a preview by wrapping every occurrence in a
  `<mark …>` element, longest skill first (`highlight_text`);
- extracts the first email address and the first phone number, or
  `"Not found"` (`extract_email`, `extract_phone`);
- assembles the row written to the screening log, with the total skill count
  and the matched skill count.

Modules:

- `Chars` (`chars.dfy`): the ASCII character classes behind `\w`, `\d` and
  `\s`, and the case folding of `re.IGNORECASE`.
- `Search` (`search.dfy`): the three regex engine behaviours the patterns rely
  on. `FirstHit` is the leftmost start of `re.search` / `re.findall`.
  `RunEnd` is a greedy character-class run. `LastHit` is a greedy quantifier
  backing off from its longest extent.
- `Subsequences` (`subsequences.dfy`): the "is a subsequence of" relation,
  used to say that highlighting only inserts.
- `Scoring` (`scoring.dfy`): the `\b<escaped skill>\b` match, the count,
  the score and the matched-skills filter.
- `Highlight` (`highlight.dfy`): the `re.sub` scan for a pattern of fixed
  length (`Replace`), one pass of `highlight_text` built on it (`Substitute`),
  a reference rendering from the list of replaced spans (`Render`), the stable sort by
  decreasing length (`ByLengthDesc`), the left fold of passes (`Passes`), and
  the method `Highlight`, whose loop applies the passes.
- `Contact` (`contact.dfy`): both extractors, each written twice. `EmailAt` and
  `PhoneAt` run the pattern as the backtracking engine does. `EmailSplit` and
  `PhoneSplit` describe the shape of a match declaratively.
- `Screening` (`screening.dfy`): the processing step that produces the log
  row and the preview.

Regex semantics, as modelled:

- Position `p` is a word boundary when exactly one of `text[p-1]` and
  `text[p]` is a word character. A position outside the text counts as a
  non-word character.
- `re.escape` makes every character of a skill match only itself, up to ASCII
  case.
- The `\b` anchors stay on both sides of a skill even when the skill begins or
  ends with a symbol. So `c++` matches only when a word character follows it
  (`Scoring.CPlusPlusBeforeSpace`).
- A `re.sub` pass resumes scanning after each replaced occurrence. An empty
  skill matches, as an empty string, at every boundary.

## Model

| member | source | states |
|---|---|---|
| Chars.ToLower | Resume4.py:60 | IGNORECASE folding: a capital becomes the lower-case letter at the same place in the alphabet, the result is never upper case, letters stay letters, word characters stay word characters, and non-letters are unchanged |
| Chars.ToLowerSameIff | Resume4.py:60 | two characters fold alike exactly when they are equal or are the two cases of one letter, 32 code points apart |
| Search.FirstHit | Resume4.py:60 | the scan of `re.search`: the reported start matches, every earlier start fails, and nothing is reported only when no start in range matches |
| Search.RunEnd | Resume4.py:74 | a greedy class run: every character consumed is in the class and the run stops at the end of the text or at a character outside it |
| Search.RunEndCovers | Resume4.py:74 | a greedy run reaches at least as far as any stretch of class characters from its start |
| Search.RunEndStops | Resume4.py:74 | a greedy run ends exactly at the first character outside the class |
| Search.LastHit | Resume4.py:74 | greedy backtracking: the position found is accepted and no larger position in range is; none is found only when no position in range is accepted |
| Scoring.AtBoundary | Resume4.py:60 | the `\b` anchor: exactly one side of the position is a word character; its consequences for skills are stated by `Scoring.SymbolEdgesNeedWordNeighbours` and `Scoring.CPlusPlusBeforeSpace` |
| Scoring.OccursAt | Resume4.py:60 | `\b<escaped skill>\b` under IGNORECASE at one position; its case and literal-symbol behaviour is stated by `Scoring.OccursAtIgnoresTextCase` and `Scoring.SymbolsMatchLiterally` |
| Scoring.Occurs | Resume4.py:60 | the set of start positions where the skill's pattern matches, as `re.search` and `re.sub` try them; `Scoring.Occurrence` derives the match end from it |
| Scoring.SearchSkill | Resume4.py:60 | `re.search` of `\b<skill>\b`: a hit is an occurrence and ends one skill length later, no occurrence starts earlier, and there is no hit only when there is no occurrence anywhere |
| Scoring.Matches | Resume4.py:60 | the test shared by the score and the matched-skills filter; `Scoring.MatchesIff` states it as the existence of an occurrence |
| Scoring.MatchedSkills | Resume4.py:96 | the list comprehension that keeps the matching skills; its contract is stated by `Scoring.MatchedSkillsSpec` |
| Scoring.MatchesIff | Resume4.py:60 | a skill matches exactly when some position holds a boundary-delimited, case-insensitive copy of it |
| Scoring.CountMatched | Resume4.py:60 | the number of matching skills is at most the number of skills, equals it exactly when every skill matches, and is 0 exactly when none does |
| Scoring.Score | Resume4.py:59-61 | the score lies between 0 and 100 |
| Scoring.Percent | Resume4.py:61 | `100 * m / n`: the result times n is 100 times m, it is 100 exactly when m = n and 0 exactly when m = 0 |
| Scoring.QuotientBounds | Resume4.py:61 | a part divided by a positive whole lies in [0, 1], is 1 exactly for the whole and 0 exactly for nothing |
| Scoring.ScoreNoSkills | Resume4.py:61 | with no skills the score is 0, whatever the resume |
| Scoring.ScoreFullIff | Resume4.py:60-61 | with at least one skill, the score is 100 exactly when every skill matches |
| Scoring.ScoreZeroIff | Resume4.py:60-61 | the score is 0 exactly when no skill matches |
| Scoring.MatchedSkillsSpec | Resume4.py:96 | the matched skills are an order-preserving sublist of the skills, their number is the score's numerator, and a skill is in it exactly when it is a skill that matches |
| Scoring.ScoreFormula | Resume4.py:95-96 | with at least one skill, there are at most as many matched skills as skills and the score is 100 × matched / total |
| Scoring.OccursAtIgnoresTextCase | Resume4.py:60 | two resumes that differ only in letter case have the same occurrences of any skill |
| Scoring.MatchesIgnoresTextCase | Resume4.py:60 | changing the letter case of the resume does not change whether a skill matches |
| Scoring.MatchesIgnoresSkillCase | Resume4.py:60 | changing the letter case of a skill does not change whether it matches |
| Scoring.ScoreIgnoresTextCase | Resume4.py:59-61 | changing the letter case of the resume changes neither the count nor the score |
| Scoring.SymbolsMatchLiterally | Resume4.py:60 | in an occurrence, each non-letter character of the skill, such as a regex metacharacter, is matched by exactly that character |
| Scoring.SymbolEdgesNeedWordNeighbours | Resume4.py:60 | a skill that ends (or begins) with a non-word character occurs only where a word character follows (or precedes) it |
| Scoring.CPlusPlusBeforeSpace | Resume4.py:60 | `c++` does not match in "I know c++ well" |
| Highlight.Spans | Resume4.py:65-70 | the matches the `re.sub` scan takes are accepted positions, in increasing order, non-overlapping and inside the text |
| Highlight.Replace | Resume4.py:65-70 | the `re.sub` scan for a fixed-length pattern; `Highlight.ReplaceIsRender` proves it equal to the reference rendering of `Highlight.Spans` |
| Highlight.Substitute | Resume4.py:65-70 | one pass of `highlight_text` for one term; its contract is stated by `Highlight.SubstituteSpec` and `Highlight.SubstituteKeepsSpelling` |
| Highlight.Replaced | Resume4.py:65-70 | the occurrences one pass of `highlight_text` replaces are whole-word, case-insensitive occurrences of the skill, in increasing order and non-overlapping |
| Highlight.Render | Resume4.py:65-70 | wrapping spans never shortens the text, and with non-empty tags the length is unchanged exactly when there is no span |
| Highlight.ReplaceIsRender | Resume4.py:65-70 | the `re.sub` scan equals copying the text and wrapping, in place, exactly the matches the scan takes |
| Highlight.SpansCoverMatches | Resume4.py:65-70 | every match from the scan's start on is taken or lies inside a taken match |
| Highlight.ReplacedCoverOccurrences | Resume4.py:65-70 | every occurrence of the skill is replaced or lies inside a replaced occurrence |
| Highlight.RenderKeepsText | Resume4.py:65-70 | the text is a subsequence of its rendering |
| Highlight.RenderWrapsSpan | Resume4.py:67 | each span appears in the rendering between the opening and closing tags, spelled as in the text |
| Highlight.SubstituteKeepsSpelling | Resume4.py:65-70 | in one pass, each replaced occurrence appears between the tags with the text's own spelling (the `\1` back-reference), whatever the case of the skill |
| Highlight.SubstituteSpec | Resume4.py:65-70 | one pass keeps the text as a subsequence, never shortens it, and changes it (equivalently, lengthens it) exactly when the term matches |
| Highlight.ByLengthDesc | Resume4.py:64 | the sorted terms are a permutation of the terms |
| Highlight.ByLengthDescOrdered | Resume4.py:64 | the sorted terms are in non-increasing order of length |
| Highlight.ByLengthDescStable | Resume4.py:64 | the sort is stable: the terms of each length keep their input order |
| Highlight.Passes | Resume4.py:64-70 | the left fold of passes over the sorted terms; its contract is stated by `Highlight.PassesKeepText` and `Highlight.PassesUnchangedIff` |
| Highlight.Highlight | Resume4.py:63-71 | the loop's output is the left fold of passes over the sorted terms, each pass applied to the previous pass's output |
| Highlight.HighlightNoTerms | Resume4.py:63-71 | with no terms the text comes back unchanged |
| Highlight.PassesKeepText | Resume4.py:64-70 | after any sequence of passes the original text is a subsequence of the output, which is at least as long |
| Highlight.PassesUnchangedIff | Resume4.py:64-70 | a sequence of passes leaves the text unchanged exactly when no term matches the original text, and its length is unchanged exactly when the text is |
| Highlight.HighlightSpec | Resume4.py:63-71 | the highlighted text contains the original as a subsequence and equals it exactly when no term occurs in it |
| Contact.EmailAt | Resume4.py:74 | a match found at a start ends after it and within the text |
| Contact.EmailDot | Resume4.py:74 | the domain's backtracking to the last dot followed by two or more letters; `Contact.EmailAtParts` places the dot it returns |
| Contact.EmailAtParts | Resume4.py:74 | a match found at a start has its '@' where the local-part run stops and its final dot where the domain backtracking stops, with the declared shape in between |
| Contact.EmailAtSound | Resume4.py:74 | what the engine matches at a start is a local part, '@', a domain and a dot followed by two or more letters, and contains '@' |
| Contact.EmailAtComplete | Resume4.py:74 | every email-shaped substring starting at a position is found there, and the engine's match is at least as long |
| Contact.EmailLeftmostLongest | Resume4.py:74-75 | no email-shaped substring starts before the first match, and none starting at the same place is longer |
| Contact.ExtractEmailFound | Resume4.py:74-75 | when a match exists, the result is that substring of the text, is email-shaped, and differs from "Not found" |
| Contact.ExtractEmailSpec | Resume4.py:73-75 | the result is "Not found" exactly when no substring is email-shaped; otherwise it is the leftmost, then longest, email-shaped substring |
| Contact.ExtractEmailShape | Resume4.py:74-75 | a found email has exactly one '@', after a non-empty local part drawn from `[a-zA-Z0-9._%+-]`, and ends in a dot and at least two letters |
| Contact.NoAtSignNoEmail | Resume4.py:73-75 | a text without '@' yields "Not found" |
| Contact.ExtractEmail | Resume4.py:73-75 | `emails[0]` or "Not found"; its contract is stated by `Contact.ExtractEmailSpec` and `Contact.ExtractEmailShape` |
| Contact.PhoneAt | Resume4.py:78 | a match found at a start ends after it and within the text |
| Contact.PhoneAtSound | Resume4.py:78 | what the engine matches at a start is an optional '+', a digit, seven or more digits, whitespace or hyphens, and a digit |
| Contact.PhoneAtComplete | Resume4.py:78 | every phone-shaped substring starting at a position is found there, and the engine's match is at least as long |
| Contact.PhoneLeftmostLongest | Resume4.py:78-79 | no phone-shaped substring starts before the first match, and none starting at the same place is longer |
| Contact.ExtractPhoneFound | Resume4.py:78-79 | when a match exists, the result is that substring, is phone-shaped, is at least nine characters long and differs from "Not found" |
| Contact.ExtractPhoneSpec | Resume4.py:77-79 | the result is "Not found" exactly when no substring is phone-shaped; otherwise it is the leftmost, then longest, phone-shaped substring |
| Contact.NoDigitNoPhone | Resume4.py:77-79 | a text without a digit yields "Not found" |
| Contact.ExtractPhone | Resume4.py:77-79 | `phones[0]` or "Not found"; its contract is stated by `Contact.ExtractPhoneSpec` and `Contact.ExtractPhoneFound` |
| Screening.Screen | Resume4.py:95-139 | the log row holds the extracted contacts (each "Not found" or well-shaped), the total skill count, and the matched skills, an ordered sublist of the skills holding exactly those that match, with the matched count ≤ the total; the score is 100 × matched / total, or 0 with no skills; the preview keeps the resume as a subsequence and differs from it exactly when some skill matched |

## Left out

- The Streamlit page is not modelled: configuration, styling, sidebar, columns, metrics and the records view are presentation only.
- `extract_skills` and the spaCy model are an external language tagger. The skills are a parameter, and the model relies on no property of the tagger's output.
- `read_pdf` and `read_docx` call foreign document libraries. The resume text is a parameter, and the temporary file and the extension dispatch are not modelled.
- The Excel log is not modelled: reading, appending and writing the file through pandas is I/O.
- The row's timestamp (a clock read) and its file name are not part of `Screening.ScreeningRecord`.
- The `Matched_Skills` cell joins the skills with `", "`. The row keeps the list itself.
- `round(score, 2)` and the `:.2f` display format are not modelled. The score is the exact rational value as a `real`, without floating-point rounding.
- Scoring.Score: on an empty skill list the source returns the integer 0. The model returns the real 0.0.
- Python's `re` on `str` is Unicode-aware. The model restricts `\w` and `\d` to ASCII and `\s` to ASCII whitespace, and `re.IGNORECASE` to ASCII case folding. Non-ASCII letters, digits, spaces and case pairs (for example `ß`, or the Kelvin sign folding to `k`) behave differently in the source.
- Concrete examples, such as the email and phone found in one sample line of text, are not stated as lemmas. Evaluating the extractors on a literal string is beyond what the verifier does cheaply; the general leftmost-longest lemmas cover those cases.
