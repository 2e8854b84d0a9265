/** The processing step of Resume4.py that runs once a resume and a job
    description are in: score the resume against the skills, keep the
    skills it mentions, extract the contact details, build the highlighted
    preview, and assemble the row appended to the screening log. */
module Screening {
  import opened Subsequences
  import opened Scoring
  import opened Highlight
  import opened Contact

  /** One row of the screening log, without the timestamp and file name. */
  datatype ScreeningRecord = ScreeningRecord(
    email: string,
    contactNumber: string,
    matchScore: real,
    matchedSkills: seq<string>,
    totalSkills: nat,
    matchedSkillsCount: nat)

  /** Process a resume against the skills taken from the job description:
      the log row and the highlighted preview. */
  method Screen(resumeText: string, skills: seq<string>) returns (row: ScreeningRecord, preview: string)
    ensures row.email == ExtractEmail(resumeText) && row.contactNumber == ExtractPhone(resumeText)
    ensures row.email == NOT_FOUND || IsEmail(row.email)
    ensures row.contactNumber == NOT_FOUND || IsPhone(row.contactNumber)
    ensures row.totalSkills == |skills|
    ensures row.matchedSkillsCount == |row.matchedSkills| <= row.totalSkills
    ensures IsSubseq(row.matchedSkills, skills)
    ensures forall s :: s in row.matchedSkills <==> s in skills && Matches(resumeText, s)
    ensures skills == [] ==> row.matchScore == 0.0
    ensures skills != [] ==> row.matchScore == Percent(row.matchedSkillsCount, row.totalSkills)
    ensures preview == Passes(resumeText, ByLengthDesc(row.matchedSkills), MARK)
    ensures IsSubseq(resumeText, preview)
    ensures preview == resumeText <==> row.matchedSkills == []
  {
    var score := Score(resumeText, skills);
    var matched := MatchedSkills(resumeText, skills);
    MatchedSkillsSpec(resumeText, skills);
    if skills != [] {
      ScoreFormula(resumeText, skills);
    }
    var email := ExtractEmail(resumeText);
    ExtractEmailSpec(resumeText);
    var phone := ExtractPhone(resumeText);
    ExtractPhoneSpec(resumeText);
    preview := Highlight.Highlight(resumeText, matched);
    HighlightSpec(resumeText, matched);
    if matched != [] {
      assert matched[0] in matched;
    }
    row := ScreeningRecord(email, phone, score, matched, |skills|, |matched|);
  }
}
