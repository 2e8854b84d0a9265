/** `extract_email` and `extract_phone` of Resume4.py: the first
    `re.findall` hit of a fixed pattern, or "Not found".

    Email pattern: `[a-zA-Z0-9._%+-]+@[a-zA-Z0-9.-]+\.[a-zA-Z]{2,}`.
    Phone pattern: `(\+?\d[\d\s-]{7,}\d)`.

    Each pattern is modelled as the regex engine runs it: at a start
    position, every greedy quantifier takes its longest run and then gives
    characters back one at a time until the rest of the pattern matches.
    Each is also described declaratively (EmailSplit, PhoneSplit), and the
    lemmas show that the extractors return the leftmost, and from there the
    longest, substring of that shape. */
module Contact {
  import opened Chars
  import opened Search

  const NOT_FOUND := "Not found"

  /** `[a-zA-Z0-9._%+-]` */
  predicate IsLocalChar(c: char) {
    IsLetter(c) || IsDigit(c) || c == '.' || c == '_' || c == '%' || c == '+' || c == '-'
  }

  /** `[a-zA-Z0-9.-]` */
  predicate IsDomainChar(c: char) {
    IsLetter(c) || IsDigit(c) || c == '.' || c == '-'
  }

  /** `[\d\s-]` */
  predicate IsPhoneChar(c: char) {
    IsDigit(c) || IsSpace(c) || c == '-'
  }

  // ---------------------------------------------------------------- email

  /** `\.[a-zA-Z]{2,}` can match at d. */
  predicate TldAt(text: string, d: nat) {
    d < |text| && text[d] == '.' && RunEnd(text, d + 1, IsLetter) >= d + 3
  }

  /** The candidate dots of `\.[a-zA-Z]{2,}`, as the backtracking sees them. */
  function TldHit(text: string): nat -> bool {
    (d: nat) => TldAt(text, d)
  }

  /** `[a-zA-Z0-9.-]+` after the '@' at `at` takes its whole run, then
      backs off until `\.[a-zA-Z]{2,}` matches; the domain keeps at least
      one character. The result is the position of that dot. */
  function EmailDot(text: string, at: nat): Option<nat>
    requires at < |text|
  {
    LastHit(at + 2, RunEnd(text, at + 1, IsDomainChar), TldHit(text))
  }

  /** The end of the email match that starts at s, if there is one. */
  function EmailAt(text: string, s: nat): (r: Option<nat>)
    ensures r.Some? ==> s < r.value <= |text|
  {
    if |text| <= s then None
    else
      // `[a-zA-Z0-9._%+-]+@`: '@' is not a local character, so the run
      // must stop exactly at the '@'.
      var at := RunEnd(text, s, IsLocalChar);
      if at == s || at == |text| || text[at] != '@' then None
      else
        match EmailDot(text, at)
        case None => None
        case Some(dot) => Some(RunEnd(text, dot + 1, IsLetter))
  }

  /** m is local-part '@' domain '.' top-level-domain, with '@' at index
      `at` and the final dot at index `dot`. */
  ghost predicate EmailSplit(m: string, at: nat, dot: nat) {
    && 0 < at && at + 1 < dot && dot + 3 <= |m|
    && (forall i :: 0 <= i < at ==> IsLocalChar(m[i]))
    && m[at] == '@'
    && (forall i :: at < i < dot ==> IsDomainChar(m[i]))
    && m[dot] == '.'
    && (forall i :: dot < i < |m| ==> IsLetter(m[i]))
  }

  /** m matches the email pattern as a whole. */
  ghost predicate IsEmail(m: string) {
    exists at: nat, dot: nat :: EmailSplit(m, at, dot)
  }

  function EmailHit(text: string): nat -> Option<nat> {
    (s: nat) => EmailAt(text, s)
  }

  /** The scan of `re.findall`: the first start at which the pattern
      matches, with the end of that match. */
  function FirstEmail(text: string): Option<(nat, nat)> {
    FirstHit(0, |text|, EmailHit(text))
  }

  /** `extract_email` */
  function ExtractEmail(text: string): string {
    match FirstEmail(text)
    case None => NOT_FOUND
    case Some((s, e)) => text[s..e]
  }

  /** The parts of a match found at s, in the text's own positions. */
  lemma EmailAtParts(text: string, s: nat)
    requires EmailAt(text, s).Some?
    ensures RunEnd(text, s, IsLocalChar) < |text|
    ensures EmailDot(text, RunEnd(text, s, IsLocalChar)).Some?
    ensures EmailSplitIn(text, s, EmailAt(text, s).value, RunEnd(text, s, IsLocalChar),
                         EmailDot(text, RunEnd(text, s, IsLocalChar)).value)
  {
    var at := RunEnd(text, s, IsLocalChar);
    assert TldAt(text, EmailDot(text, at).value);
  }

  /** A match found at s is an email substring. */
  lemma EmailAtSound(text: string, s: nat)
    requires EmailAt(text, s).Some?
    ensures IsEmail(text[s..EmailAt(text, s).value])
    ensures '@' in text[s..EmailAt(text, s).value]
  {
    EmailAtParts(text, s);
    var at := RunEnd(text, s, IsLocalChar);
    var dot := EmailDot(text, at).value;
    var e := EmailAt(text, s).value;
    EmailSplitSlice(text, s, e, at - s, dot - s);
    assert text[s..e][at - s] == '@';
  }

  /** Any email substring starting at s is found by the engine at s, and
      the engine's match is at least as long: it is the longest one. */
  lemma EmailAtComplete(text: string, s: nat, j: nat, at: nat, dot: nat)
    requires s <= j <= |text| && EmailSplit(text[s..j], at, dot)
    ensures EmailAt(text, s).Some? && j <= EmailAt(text, s).value
  {
    EmailSplitSlice(text, s, j, at, dot);
    RunEndStops(text, s, s + at, IsLocalChar);
    RunEndCovers(text, s + at + 1, j, IsDomainChar);
    RunEndCovers(text, s + dot + 1, j, IsLetter);
    EmailAtFromDot(text, s, j, s + at, s + dot);
  }

  /** EmailSplit of text[s..j], with '@' at `at` and the final dot at
      `dot`, stated in the text's own positions. */
  ghost predicate EmailSplitIn(text: string, s: nat, j: nat, at: nat, dot: nat) {
    && s < at && at + 1 < dot && dot + 3 <= j <= |text|
    && (forall k :: s <= k < at ==> IsLocalChar(text[k]))
    && text[at] == '@'
    && (forall k :: at < k < dot ==> IsDomainChar(text[k]))
    && text[dot] == '.'
    && (forall k :: dot < k < j ==> IsLetter(text[k]))
  }

  lemma EmailSplitSlice(text: string, s: nat, j: nat, at: nat, dot: nat)
    requires s <= j <= |text|
    ensures EmailSplit(text[s..j], at, dot) <==> EmailSplitIn(text, s, j, s + at, s + dot)
  {
    var m := text[s..j];
    assert forall k :: s <= k < j ==> text[k] == m[k - s];
  }

  /** The last step of EmailAtComplete: the backtracking finds the dot of
      the given split, or a later one, and the letters run to j at least. */
  lemma EmailAtFromDot(text: string, s: nat, j: nat, at: nat, dot: nat)
    requires s < at && at + 1 < dot && dot + 3 <= j <= |text|
    requires RunEnd(text, s, IsLocalChar) == at && text[at] == '@'
    requires RunEnd(text, at + 1, IsDomainChar) >= j
    requires text[dot] == '.' && RunEnd(text, dot + 1, IsLetter) >= j
    requires forall k :: dot < k < j ==> IsLetter(text[k])
    ensures EmailAt(text, s).Some? && j <= EmailAt(text, s).value
  {
    assert TldHit(text)(dot);
    var d := EmailDot(text, at).value;
    assert d >= dot;
    assert d < j ==> d == dot;
  }

  /** Every email substring starts no earlier than the one `re.findall`
      reports first, and one starting at the same place is no longer. */
  lemma EmailLeftmostLongest(text: string, i: nat, j: nat, at: nat, dot: nat)
    requires i <= j <= |text| && EmailSplit(text[i..j], at, dot)
    ensures FirstEmail(text).Some?
    ensures FirstEmail(text).value.0 <= i
    ensures FirstEmail(text).value.0 == i ==> j <= FirstEmail(text).value.1
  {
    EmailAtComplete(text, i, j, at, dot);
    assert EmailHit(text)(i).Some?;
  }

  lemma NotFoundHasNoAtSign(m: string)
    requires '@' in m
    ensures m != NOT_FOUND
  {
    assert '@' !in NOT_FOUND;
  }

  /** What `extract_email` returns when the scan finds a match. */
  lemma ExtractEmailFound(text: string)
    requires FirstEmail(text).Some?
    ensures var (s, e) := FirstEmail(text).value;
      && s < e <= |text|
      && ExtractEmail(text) == text[s..e]
      && IsEmail(text[s..e])
      && ExtractEmail(text) != NOT_FOUND
  {
    var (s, e) := FirstEmail(text).value;
    assert EmailHit(text)(s) == Some(e);
    EmailAtSound(text, s);
    NotFoundHasNoAtSign(text[s..e]);
  }

  /** `extract_email` returns "Not found" exactly when no substring of the
      text matches the email pattern; otherwise it returns the leftmost
      match, and of those starting there the longest. */
  lemma ExtractEmailSpec(text: string)
    ensures ExtractEmail(text) == NOT_FOUND <==>
      forall i: nat, j: nat, at: nat, dot: nat :: i <= j <= |text| ==> !EmailSplit(text[i..j], at, dot)
    ensures FirstEmail(text).Some? ==>
      var (s, e) := FirstEmail(text).value;
      && IsEmail(ExtractEmail(text))
      && ExtractEmail(text) == text[s..e]
      && (forall i: nat, j: nat, at: nat, dot: nat :: i < s && i <= j <= |text| ==> !EmailSplit(text[i..j], at, dot))
      && (forall j: nat, at: nat, dot: nat :: e < j <= |text| ==> !EmailSplit(text[s..j], at, dot))
  {
    forall i: nat, j: nat, at: nat, dot: nat | i <= j <= |text| && EmailSplit(text[i..j], at, dot)
      ensures FirstEmail(text).Some? && FirstEmail(text).value.0 <= i
      ensures FirstEmail(text).Some? && FirstEmail(text).value.0 == i ==> j <= FirstEmail(text).value.1
    {
      EmailLeftmostLongest(text, i, j, at, dot);
    }
    if FirstEmail(text).Some? {
      ExtractEmailFound(text);
    }
  }

  /** The shape an email split forces on the match. */
  lemma EmailShape(m: string, at: nat, dot: nat)
    requires EmailSplit(m, at, dot)
    ensures forall i :: 0 <= i < |m| && m[i] == '@' ==> i == at
    ensures forall i :: 0 <= i < at ==> IsLocalChar(m[i])
    ensures m[dot] == '.' && forall i :: dot < i < |m| ==> IsLetter(m[i])
  {
  }

  /** A found email has one '@', after a non-empty local part drawn from
      `[a-zA-Z0-9._%+-]`, and ends in a dot and at least two letters. */
  lemma ExtractEmailShape(text: string)
    requires ExtractEmail(text) != NOT_FOUND
    ensures var m := ExtractEmail(text);
      exists at: nat :: 0 < at < |m| && m[at] == '@'
        && (forall i :: 0 <= i < |m| && m[i] == '@' ==> i == at)
        && (forall i :: 0 <= i < at ==> IsLocalChar(m[i]))
    ensures var m := ExtractEmail(text);
      exists dot: nat :: dot + 3 <= |m| && m[dot] == '.' && forall i :: dot < i < |m| ==> IsLetter(m[i])
  {
    ExtractEmailFound(text);
    var m := ExtractEmail(text);
    var at: nat, dot: nat :| EmailSplit(m, at, dot);
    EmailShape(m, at, dot);
  }

  /** Without an '@' in the text there is no email. */
  lemma NoAtSignNoEmail(text: string)
    requires forall i :: 0 <= i < |text| ==> text[i] != '@'
    ensures ExtractEmail(text) == NOT_FOUND
  {
    ExtractEmailSpec(text);
    forall i: nat, j: nat, at: nat, dot: nat | i <= j <= |text|
      ensures !EmailSplit(text[i..j], at, dot)
    {
      if at < j - i {
        assert text[i..j][at] == text[i + at];
      }
    }
  }

  // ---------------------------------------------------------------- phone

  /** The candidate positions of the final `\d`. */
  function DigitHit(text: string): nat -> bool {
    (d: nat) => d < |text| && IsDigit(text[d])
  }

  /** The end of the phone match that starts at s, if there is one. */
  function PhoneAt(text: string, s: nat): (r: Option<nat>)
    ensures r.Some? ==> s < r.value <= |text|
  {
    if |text| <= s then None
    else
      // `\+?` takes the '+' when there is one; without it the next `\d`
      // would have to match the '+', so giving it back never helps.
      var b := if text[s] == '+' then s + 1 else s;
      if |text| <= b || !IsDigit(text[b]) then None
      else
        // `[\d\s-]{7,}` takes the whole run, then backs off until the
        // final `\d` matches, keeping at least seven characters.
        var runEnd := RunEnd(text, b + 1, IsPhoneChar);
        match LastHit(b + 8, runEnd, DigitHit(text))
        case None => None
        case Some(d) => Some(d + 1)
  }

  /** m is an optional '+' (when plus is 1), a digit, at least seven
      digits, spaces or hyphens, and a digit. */
  ghost predicate PhoneSplit(m: string, plus: nat) {
    && plus <= 1
    && plus + 9 <= |m|
    && (plus == 1 ==> m[0] == '+')
    && IsDigit(m[plus])
    && (forall i :: plus < i < |m| - 1 ==> IsPhoneChar(m[i]))
    && IsDigit(m[|m| - 1])
  }

  ghost predicate IsPhone(m: string) {
    PhoneSplit(m, 0) || PhoneSplit(m, 1)
  }

  function PhoneHit(text: string): nat -> Option<nat> {
    (s: nat) => PhoneAt(text, s)
  }

  function FirstPhone(text: string): Option<(nat, nat)> {
    FirstHit(0, |text|, PhoneHit(text))
  }

  /** `extract_phone` */
  function ExtractPhone(text: string): string {
    match FirstPhone(text)
    case None => NOT_FOUND
    case Some((s, e)) => text[s..e]
  }

  /** PhoneSplit of text[s..j], stated in the text's own positions; b is
      the position of the first digit. */
  ghost predicate PhoneSplitIn(text: string, s: nat, j: nat, b: nat) {
    && s <= b <= s + 1
    && b + 9 <= j <= |text|
    && (b == s + 1 ==> text[s] == '+')
    && IsDigit(text[b])
    && (forall k :: b < k < j - 1 ==> IsPhoneChar(text[k]))
    && IsDigit(text[j - 1])
  }

  lemma PhoneSplitSlice(text: string, s: nat, j: nat, plus: nat)
    requires s <= j <= |text|
    ensures PhoneSplit(text[s..j], plus) <==> PhoneSplitIn(text, s, j, s + plus)
  {
    var m := text[s..j];
    assert forall k :: s <= k < j ==> text[k] == m[k - s];
  }

  /** A match found at s is a phone substring. */
  lemma PhoneAtSound(text: string, s: nat)
    requires PhoneAt(text, s).Some?
    ensures IsPhone(text[s..PhoneAt(text, s).value])
  {
    var b := if text[s] == '+' then s + 1 else s;
    var e := PhoneAt(text, s).value;
    assert PhoneSplitIn(text, s, e, b);
    PhoneSplitSlice(text, s, e, b - s);
  }

  /** Any phone substring starting at s is found by the engine at s, and
      the engine's match is at least as long. */
  lemma PhoneAtComplete(text: string, s: nat, j: nat, plus: nat)
    requires s <= j <= |text| && PhoneSplit(text[s..j], plus)
    ensures PhoneAt(text, s).Some? && j <= PhoneAt(text, s).value
  {
    PhoneSplitSlice(text, s, j, plus);
    var b := s + plus;
    RunEndCovers(text, b + 1, j - 1, IsPhoneChar);
    PhoneAtFromDigit(text, s, j, b);
  }

  /** The last step of PhoneAtComplete: the backtracking finds the final
      digit at j - 1 or later. */
  lemma PhoneAtFromDigit(text: string, s: nat, j: nat, b: nat)
    requires PhoneSplitIn(text, s, j, b)
    requires RunEnd(text, b + 1, IsPhoneChar) >= j - 1
    ensures PhoneAt(text, s).Some? && j <= PhoneAt(text, s).value
  {
    assert DigitHit(text)(j - 1);
  }

  /** Every phone substring starts no earlier than the one `re.findall`
      reports first, and one starting at the same place is no longer. */
  lemma PhoneLeftmostLongest(text: string, i: nat, j: nat, plus: nat)
    requires i <= j <= |text| && PhoneSplit(text[i..j], plus)
    ensures FirstPhone(text).Some?
    ensures FirstPhone(text).value.0 <= i
    ensures FirstPhone(text).value.0 == i ==> j <= FirstPhone(text).value.1
  {
    PhoneAtComplete(text, i, j, plus);
    assert PhoneHit(text)(i).Some?;
  }

  lemma NotFoundEndsInLetter(m: string)
    requires m != [] && IsDigit(m[|m| - 1])
    ensures m != NOT_FOUND
  {
    assert !IsDigit(NOT_FOUND[|NOT_FOUND| - 1]);
  }

  /** What `extract_phone` returns when the scan finds a match: at least
      nine characters, ending in a digit. */
  lemma ExtractPhoneFound(text: string)
    requires FirstPhone(text).Some?
    ensures var (s, e) := FirstPhone(text).value;
      && s + 9 <= e <= |text|
      && ExtractPhone(text) == text[s..e]
      && IsPhone(text[s..e])
      && ExtractPhone(text) != NOT_FOUND
  {
    var (s, e) := FirstPhone(text).value;
    assert PhoneHit(text)(s) == Some(e);
    PhoneAtSound(text, s);
    var m := text[s..e];
    assert IsDigit(m[|m| - 1]);
    NotFoundEndsInLetter(m);
  }

  /** `extract_phone` returns "Not found" exactly when no substring of the
      text matches the phone pattern; otherwise the leftmost match, and of
      those starting there the longest. */
  lemma ExtractPhoneSpec(text: string)
    ensures ExtractPhone(text) == NOT_FOUND <==>
      forall i: nat, j: nat, plus: nat :: i <= j <= |text| ==> !PhoneSplit(text[i..j], plus)
    ensures FirstPhone(text).Some? ==>
      var (s, e) := FirstPhone(text).value;
      && IsPhone(ExtractPhone(text))
      && ExtractPhone(text) == text[s..e]
      && (forall i: nat, j: nat, plus: nat :: i < s && i <= j <= |text| ==> !PhoneSplit(text[i..j], plus))
      && (forall j: nat, plus: nat :: e < j <= |text| ==> !PhoneSplit(text[s..j], plus))
  {
    forall i: nat, j: nat, plus: nat | i <= j <= |text| && PhoneSplit(text[i..j], plus)
      ensures FirstPhone(text).Some? && FirstPhone(text).value.0 <= i
      ensures FirstPhone(text).Some? && FirstPhone(text).value.0 == i ==> j <= FirstPhone(text).value.1
    {
      PhoneLeftmostLongest(text, i, j, plus);
    }
    if FirstPhone(text).Some? {
      ExtractPhoneFound(text);
    }
  }

  /** Without a digit in the text there is no phone number. */
  lemma NoDigitNoPhone(text: string)
    requires forall i :: 0 <= i < |text| ==> !IsDigit(text[i])
    ensures ExtractPhone(text) == NOT_FOUND
  {
    ExtractPhoneSpec(text);
    forall i: nat, j: nat, plus: nat | i <= j <= |text|
      ensures !PhoneSplit(text[i..j], plus)
    {
      if plus < j - i {
        assert text[i..j][plus] == text[i + plus];
      }
    }
  }
}
