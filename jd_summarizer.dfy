/** `JDSummarizer`: the qualification tests, the experience requirement, and
    the summary of a job description. Normalisation and skills come from
    `Normalizer`. */
module JdSummarizer {
  import opened TextUtil
  import opened Normalizer

  // ---------------------------------------------------------------------
  // Qualifications
  // ---------------------------------------------------------------------

  /** The labels `extract_qualifications` can report, in the order it tests them. */
  const Labels: seq<string> := ["Bachelor's Degree", "Master's Degree", "PhD"]

  predicate WantsBachelor(text: string) {
    Contains(Lower(text), "bachelor")
  }

  predicate WantsMaster(text: string) {
    Contains(Lower(text), "master")
  }

  predicate WantsDoctorate(text: string) {
    Contains(Lower(text), "phd") || Contains(Lower(text), "doctorate")
  }

  /** `extract_qualifications`: the labels whose substring test holds on the
      lower-cased text, each at most once and in the fixed order. */
  function Qualifications(text: string): (r: seq<string>)
    ensures "Bachelor's Degree" in r <==> WantsBachelor(text)
    ensures "Master's Degree" in r <==> WantsMaster(text)
    ensures "PhD" in r <==> WantsDoctorate(text)
    ensures forall x :: x in r ==> x in Labels
    ensures |r| <= |Labels|
  {
    (if WantsBachelor(text) then [Labels[0]] else [])
    + (if WantsMaster(text) then [Labels[1]] else [])
    + (if WantsDoctorate(text) then [Labels[2]] else [])
  }

  /** Position of a label in `Labels`. */
  function LabelRank(x: string): int {
    if x == Labels[0] then 0 else if x == Labels[1] then 1 else if x == Labels[2] then 2 else 3
  }

  /** The labels come in the fixed order, so none is repeated: `phd`,
      `doctorate` or both yield one `PhD`. */
  lemma QualificationsOrdered(text: string)
    ensures forall i, j :: 0 <= i < j < |Qualifications(text)| ==>
              LabelRank(Qualifications(text)[i]) < LabelRank(Qualifications(text)[j])
    ensures forall i, j :: 0 <= i < j < |Qualifications(text)| ==> Qualifications(text)[i] != Qualifications(text)[j]
  {
    var r := Qualifications(text);
    assert LabelRank(Labels[0]) == 0 && LabelRank(Labels[1]) == 1 && LabelRank(Labels[2]) == 2;
    forall i, j | 0 <= i < j < |r| ensures LabelRank(r[i]) < LabelRank(r[j]) {
      var b := if WantsBachelor(text) then 1 else 0;
      var m := if WantsMaster(text) then 1 else 0;
      assert forall k :: 0 <= k < |r| ==>
        r[k] == (if k < b then Labels[0] else if k < b + m then Labels[1] else Labels[2]);
    }
  }

  /** "Master's degree required" asks for a master's degree and no PhD. */
  lemma MastersExample()
    ensures "Master's Degree" in Qualifications("Master's degree required")
    ensures "PhD" !in Qualifications("Master's degree required")
  {
    MastersTests();
  }

  lemma MastersTests()
    ensures WantsMaster("Master's degree required")
    ensures !WantsDoctorate("Master's degree required")
  {
    LowerMasters();
    assert OccursAt("master's degree required", "master", 0);
    NoDoctorate();
  }

  lemma LowerMasters()
    ensures Lower("Master's degree required") == "master's degree required"
  {
  }

  lemma NoDoctorate()
    ensures !Contains("master's degree required", "phd") && !Contains("master's degree required", "doctorate")
  {
    var t := "master's degree required";
    assert 'p' !in t && 'c' !in t;
    NotContainsMissingChar(t, "phd", 'p');
    NotContainsMissingChar(t, "doctorate", 'c');
  }

  /** `extract_qualifications`, appending label by label. */
  method ExtractQualifications(text: string) returns (qualifications: seq<string>)
    ensures qualifications == Qualifications(text)
  {
    var lower := Lower(text);
    qualifications := [];
    if Contains(lower, "bachelor") {
      qualifications := qualifications + ["Bachelor's Degree"];
    }
    if Contains(lower, "master") {
      qualifications := qualifications + ["Master's Degree"];
    }
    if Contains(lower, "phd") || Contains(lower, "doctorate") {
      qualifications := qualifications + ["PhD"];
    }
  }

  // ---------------------------------------------------------------------
  // Experience: the pattern `(\d+)[\+]?\s*(?:year|yr)s?` and a scanner for it
  // ---------------------------------------------------------------------

  /** `t[p..e]` is a non-empty run of digits. */
  ghost predicate DigitsBetween(t: string, p: int, e: int) {
    0 <= p < e <= |t| && forall x :: p <= x < e ==> IsDigit(t[x])
  }

  /** `t[a..b]` is whitespace. */
  ghost predicate SpacesBetween(t: string, a: int, b: int) {
    0 <= a <= b <= |t| && forall x :: a <= x < b ==> IsSpace(t[x])
  }

  /** `[\+]?` takes `t[e..a]`. */
  ghost predicate PlusPart(t: string, e: int, a: int) {
    a == e || (a == e + 1 && 0 <= e < |t| && t[e] == '+')
  }

  /** `(?:year|yr)` takes `t[b..c]`. */
  ghost predicate WordPart(t: string, b: int, c: int) {
    0 <= b && ((c == b + 4 && OccursAt(t, "year", b)) || (c == b + 2 && OccursAt(t, "yr", b)))
  }

  /** `s?` takes `t[c..m]`. */
  ghost predicate PluralPart(t: string, c: int, m: int) {
    m == c || (m == c + 1 && 0 <= c < |t| && t[c] == 's')
  }

  /** `[\+]?\s*(?:year|yr)s?` can match `t[e..m]`. */
  ghost predicate UnitBetween(t: string, e: int, m: int) {
    exists a, b, c :: PlusPart(t, e, a) && SpacesBetween(t, a, b) && WordPart(t, b, c) && PluralPart(t, c, m)
  }

  /** The first pattern matches at `p` with group `t[p..e]`. */
  ghost predicate Match1(t: string, p: int, e: int) {
    DigitsBetween(t, p, e) && exists m :: UnitBetween(t, e, m)
  }

  /** `\s*of\s*experience` can match from `m`. */
  ghost predicate OfExperienceFrom(t: string, m: int) {
    exists a, b :: SpacesBetween(t, m, a) && OccursAt(t, "of", a) && SpacesBetween(t, a + 2, b) && OccursAt(t, "experience", b)
  }

  /** `experience\s*of\s*` can match `t[q..p]`. */
  ghost predicate ExperienceOfBetween(t: string, q: int, p: int) {
    exists a :: 0 <= q && OccursAt(t, "experience", q) && SpacesBetween(t, q + 10, a) && OccursAt(t, "of", a) && SpacesBetween(t, a + 2, p)
  }

  /** The second pattern, `(\d+)[\+]?\s*(?:year|yr)s?\s*of\s*experience`,
      matches at `p` with group `t[p..e]`. */
  ghost predicate Match2(t: string, p: int, e: int) {
    DigitsBetween(t, p, e) && exists m :: UnitBetween(t, e, m) && OfExperienceFrom(t, m)
  }

  /** The third pattern, `experience\s*of\s*(\d+)[\+]?\s*(?:year|yr)s?`,
      matches from `q` with group `t[p..e]`. */
  ghost predicate Match3(t: string, q: int, p: int, e: int) {
    ExperienceOfBetween(t, q, p) && DigitsBetween(t, p, e) && exists m :: UnitBetween(t, e, m)
  }

  /** The later patterns never decide `extract_experience`: whatever they
      match, the first pattern matches too, with the same group, so the
      cascade stops at the first pattern whenever any pattern matches. */
  lemma LaterPatternsNeverDecide(t: string)
    ensures forall p, e :: Match2(t, p, e) ==> Match1(t, p, e)
    ensures forall q, p, e :: Match3(t, q, p, e) ==> Match1(t, p, e)
  {
    forall p, e | Match2(t, p, e) ensures Match1(t, p, e) {
      var m :| UnitBetween(t, e, m) && OfExperienceFrom(t, m);
    }
  }

  /** The end of the digit run that starts at `i`. */
  function RunEnd(t: string, i: nat): (r: nat)
    requires i <= |t|
    ensures i <= r <= |t|
    ensures forall x :: i <= x < r ==> IsDigit(t[x])
    ensures r == |t| || !IsDigit(t[r])
    decreases |t| - i
  {
    if i < |t| && IsDigit(t[i]) then RunEnd(t, i + 1) else i
  }

  /** The end of the whitespace that starts at `k`. */
  function SkipSpaces(t: string, k: nat): (r: nat)
    requires k <= |t|
    ensures k <= r <= |t|
    ensures forall x :: k <= x < r ==> IsSpace(t[x])
    ensures r == |t| || !IsSpace(t[r])
    decreases |t| - k
  {
    if k < |t| && IsSpace(t[k]) then SkipSpaces(t, k + 1) else k
  }

  /** The greedy test for `[\+]?\s*(?:year|yr)` after a digit run. */
  predicate UnitAfter(t: string, e: nat)
    requires e <= |t|
  {
    var a := if e < |t| && t[e] == '+' then e + 1 else e;
    var b := SkipSpaces(t, a);
    OccursAt(t, "year", b) || OccursAt(t, "yr", b)
  }

  /** Whitespace followed by `year` or `yr`: the word starts where the
      whitespace ends, and the first character is whitespace or `y`. */
  lemma WordAfterSpaces(t: string, a: int, b: int, c: int)
    requires SpacesBetween(t, a, b) && WordPart(t, b, c)
    ensures b < |t| && t[b] == 'y' && SkipSpaces(t, a) == b
    ensures IsSpace(t[a]) || t[a] == 'y'
  {
    if c == b + 4 && OccursAt(t, "year", b) {
      assert t[b..b + 4][0] == t[b];
    } else {
      assert t[b..b + 2][0] == t[b];
    }
    SkipSpacesStopsAt(t, a, b);
  }

  lemma {:induction false} SkipSpacesStopsAt(t: string, a: int, b: int)
    requires SpacesBetween(t, a, b) && b < |t| && !IsSpace(t[b])
    ensures SkipSpaces(t, a) == b
    decreases b - a
  {
    if a < b {
      SkipSpacesStopsAt(t, a + 1, b);
    }
  }

  lemma {:induction false} RunEndStopsAt(t: string, i: int, e: int)
    requires 0 <= i <= e < |t| && !IsDigit(t[e])
    requires forall x :: i <= x < e ==> IsDigit(t[x])
    ensures RunEnd(t, i) == e
    decreases e - i
  {
    if i < e {
      RunEndStopsAt(t, i + 1, e);
    }
  }

  /** Backtracking cannot help: the greedy test succeeds exactly when the
      pattern tail can match. */
  lemma UnitAfterExact(t: string, e: nat)
    requires e <= |t|
    ensures UnitAfter(t, e) <==> exists m :: UnitBetween(t, e, m)
  {
    var a0 := if e < |t| && t[e] == '+' then e + 1 else e;
    var b0 := SkipSpaces(t, a0);
    if UnitAfter(t, e) {
      var c := if OccursAt(t, "year", b0) then b0 + 4 else b0 + 2;
      assert PlusPart(t, e, a0) && SpacesBetween(t, a0, b0) && WordPart(t, b0, c) && PluralPart(t, c, c);
      assert UnitBetween(t, e, c);
    }
    if exists m :: UnitBetween(t, e, m) {
      var m :| UnitBetween(t, e, m);
      var a, b, c :| PlusPart(t, e, a) && SpacesBetween(t, a, b) && WordPart(t, b, c) && PluralPart(t, c, m);
      WordAfterSpaces(t, a, b, c);
      assert a == a0;
    }
  }

  /** A match that starts inside a run must end where the run ends. */
  lemma MatchEndsAtRunEnd(t: string, i: nat, p: int, e: int)
    requires i <= p && Match1(t, p, e)
    requires forall x :: i <= x <= p ==> IsDigit(t[x])
    ensures e == RunEnd(t, i)
  {
    var m :| UnitBetween(t, e, m);
    var a, b, c :| PlusPart(t, e, a) && SpacesBetween(t, a, b) && WordPart(t, b, c) && PluralPart(t, c, m);
    WordAfterSpaces(t, a, b, c);
    assert e < |t| && (t[e] == '+' || IsSpace(t[e]) || t[e] == 'y');
    RunEndStopsAt(t, i, e);
  }

  /** `i` does not split a digit run. */
  predicate Boundary(t: string, i: nat) {
    i == 0 || i >= |t| || !IsDigit(t[i - 1]) || !IsDigit(t[i])
  }

  /** The scanner: the start and end of the first digit run at or after `i`
      that the unit follows. */
  function FindYears(t: string, i: nat): Option<(nat, nat)>
    requires i <= |t|
    decreases |t| - i
  {
    if i == |t| then None
    else if !IsDigit(t[i]) then FindYears(t, i + 1)
    else
      var e := RunEnd(t, i);
      if UnitAfter(t, e) then Some((i, e)) else FindYears(t, e)
  }

  /** The scanner finds the leftmost match of the first pattern at or after
      `i`, and finds nothing exactly when there is no match there. */
  lemma {:induction false} FindYearsLeftmost(t: string, i: nat)
    requires i <= |t| && Boundary(t, i)
    ensures FindYears(t, i).None? ==> forall p, e :: i <= p ==> !Match1(t, p, e)
    ensures FindYears(t, i).Some? ==>
              var (p, e) := FindYears(t, i).value;
              && i <= p && Match1(t, p, e)
              && forall p', e' :: i <= p' < p ==> !Match1(t, p', e')
    decreases |t| - i
  {
    if i == |t| {
      forall p, e | i <= p ensures !Match1(t, p, e) {
      }
    } else if !IsDigit(t[i]) {
      FindYearsLeftmost(t, i + 1);
      forall e ensures !Match1(t, i, e) {
      }
    } else {
      var r := RunEnd(t, i);
      UnitAfterExact(t, r);
      forall p, e | i <= p < r && Match1(t, p, e) ensures UnitAfter(t, r) {
        MatchEndsAtRunEnd(t, i, p, e);
      }
      if !UnitAfter(t, r) {
        FindYearsLeftmost(t, r);
      }
    }
  }

  /** The group of a match is fixed by where it starts. */
  lemma MatchGroupUnique(t: string, p: int, e: int, e': int)
    requires Match1(t, p, e) && Match1(t, p, e')
    ensures e == e'
  {
    MatchEndsAtRunEnd(t, p, p, e);
    MatchEndsAtRunEnd(t, p, p, e');
  }

  const NotSpecified: string := "Not specified"

  /** `extract_experience`: the digits of the leftmost match followed by
      `+ years`, or `Not specified`. */
  function Experience(text: string): string {
    var t := Lower(text);
    match FindYears(t, 0)
    case Some((p, e)) => if p <= e <= |t| then t[p..e] + "+ years" else NotSpecified
    case None => NotSpecified
  }

  /** The result of `extract_experience` is the group of the leftmost match
      of the first pattern on the lower-cased text, followed by `+ years`;
      it is `Not specified` exactly when no pattern matches. */
  lemma ExperienceSpec(text: string)
    ensures var t := Lower(text);
            && (Experience(text) == NotSpecified <==> forall p, e :: !Match1(t, p, e))
            && (Experience(text) == NotSpecified ==> forall p, e :: !Match2(t, p, e))
            && (Experience(text) == NotSpecified ==> forall q, p, e :: !Match3(t, q, p, e))
            && (Experience(text) != NotSpecified ==>
                  exists p, e :: && Match1(t, p, e)
                                 && (forall p', e' :: p' < p ==> !Match1(t, p', e'))
                                 && Experience(text) == t[p..e] + "+ years")
  {
    var t := Lower(text);
    FindYearsLeftmost(t, 0);
    LaterPatternsNeverDecide(t);
    match FindYears(t, 0)
    case Some((p, e)) =>
      assert Experience(text) == t[p..e] + "+ years";
      assert Experience(text)[0] == t[p];
      assert NotSpecified[0] == 'N';
      assert Match1(t, p, e);
      forall p', e' | p' < p ensures !Match1(t, p', e') {
        if p' < 0 {
          assert !DigitsBetween(t, p', e');
        }
      }
    case None =>
      forall p, e ensures !Match1(t, p, e) {
        if p < 0 {
          assert !DigitsBetween(t, p, e);
        }
      }
  }

  /** `extract_experience` reports a digit string followed by `+ years`, or
      `Not specified`. */
  lemma ExperienceShape(text: string)
    ensures Experience(text) == NotSpecified ||
            exists n: string :: |n| > 0 && (forall k :: 0 <= k < |n| ==> IsDigit(n[k])) && Experience(text) == n + "+ years"
  {
    var t := Lower(text);
    FindYearsLeftmost(t, 0);
    match FindYears(t, 0)
    case Some((p, e)) =>
      assert DigitsBetween(t, p, e);
      var n := t[p..e];
      forall k | 0 <= k < |n| ensures IsDigit(n[k]) {
        assert n[k] == t[p + k];
      }
      assert Experience(text) == n + "+ years";
    case None =>
  }

  /** A text without digits specifies no experience. */
  lemma NoDigitsNotSpecified(text: string)
    requires forall k :: 0 <= k < |text| ==> !IsDigit(text[k])
    ensures Experience(text) == NotSpecified
  {
    var t := Lower(text);
    FindYearsLeftmost(t, 0);
    forall p, e ensures !Match1(t, p, e) {
      if 0 <= p < |t| {
        assert t[p] == LowerChar(text[p]);
      }
    }
  }

  /** "5 years of experience" asks for `5+ years`. */
  lemma FiveYearsExample()
    ensures Experience("5 years of experience") == "5+ years"
  {
    var t := "5 years of experience";
    assert NoUpper(t);
    assert Lower(t) == t;
    assert RunEnd(t, 1) == 1;
    assert SkipSpaces(t, 2) == 2;
    assert SkipSpaces(t, 1) == 2;
    assert t[2..6] == "year";
    assert UnitAfter(t, 1);
  }

  /** "3+ YEARS" asks for `3+ years`: the test is case-insensitive and the
      `+` is optional. */
  lemma ThreePlusYearsExample()
    ensures Experience("3+ YEARS") == "3+ years"
  {
    var t := "3+ years";
    assert Lower("3+ YEARS") == t;
    assert RunEnd(t, 1) == 1;
    assert SkipSpaces(t, 3) == 3;
    assert SkipSpaces(t, 2) == 3;
    assert t[3..7] == "year";
    assert UnitAfter(t, 1);
  }

  /** `extract_experience` with the scanner written as the loop it is. */
  method ExtractExperience(text: string) returns (r: string)
    ensures r == Experience(text)
  {
    var t := Lower(text);
    var i := 0;
    while i < |t|
      invariant 0 <= i <= |t|
      invariant FindYears(t, i) == FindYears(t, 0)
    {
      if IsDigit(t[i]) {
        var e := RunEnd(t, i);
        if UnitAfter(t, e) {
          return t[i..e] + "+ years";
        }
        i := e;
      } else {
        i := i + 1;
      }
    }
    return NotSpecified;
  }

  // ---------------------------------------------------------------------
  // Summary
  // ---------------------------------------------------------------------

  /** The dictionary `summarize` serialises. */
  datatype JdSummary = JdSummary(
    skills: set<string>,
    qualifications: seq<string>,
    experience: string,
    processedText: string)

  /** `summarize`. `jd` is `None` when the description is `None`: then
      `text.lower()` raises and `process_text` maps `None` to "". `failed`
      says that the description is some other non-string value `x` (a number
      or a list from the request body), passed here as the text `str(x)`:
      `extract_qualifications` raises on it and the fallback keeps
      `process_text(str(x))`. Either way the fallback empties the rest. */
  function Summarize(tk: Toolkit, jd: Option<string>, failed: bool): JdSummary {
    match jd
    case None => JdSummary({}, [], NotSpecified, "")
    case Some(text) =>
      if failed then JdSummary({}, [], NotSpecified, ProcessText(tk, text))
      else JdSummary(ExtractSkills(tk, text), Qualifications(text), Experience(text), ProcessText(tk, text))
  }

  /** What a summary guarantees: single-word vocabulary skills, known labels
      in order, an experience string of the two forms, lower-case processed
      text; and on failure empty skills and qualifications and `Not specified`. */
  lemma SummaryShape(tk: Toolkit, jd: Option<string>, failed: bool)
    requires Sound(tk)
    ensures var r := Summarize(tk, jd, failed);
            && r.skills <= Vocabulary - UnreachableSkills
            && (forall x :: x in r.qualifications ==> x in Labels)
            && (forall i, j :: 0 <= i < j < |r.qualifications| ==> LabelRank(r.qualifications[i]) < LabelRank(r.qualifications[j]))
            && NoUpper(r.processedText)
            && (jd.None? || failed ==> r.skills == {} && r.qualifications == [] && r.experience == NotSpecified)
            && (jd.Some? ==> r.processedText == ProcessText(tk, jd.value))
            && (r.experience == NotSpecified ||
                exists n: string :: |n| > 0 && (forall k :: 0 <= k < |n| ==> IsDigit(n[k])) && r.experience == n + "+ years")
  {
    if jd.Some? {
      ExperienceShape(jd.value);
      SkillsAreSingleWords(tk, jd.value);
      ProcessTextCharset(tk, jd.value);
      QualificationsOrdered(jd.value);
    }
  }
}
