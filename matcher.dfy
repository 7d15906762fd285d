/** `Matcher`: the classifier input, the score with its fallbacks, and the
    comparison of a job summary with a parsed resume. */
module Matcher {
  import opened TextUtil
  import opened Normalizer
  import ResumeParser
  import JdSummarizer

  /** A decoded summary, as the matcher reads it: each key may be absent.
      `get_match_details` reads the lists only through `set(...)`, so the
      skills are kept as a set. */
  datatype Doc = Doc(
    processedText: Option<string>,
    skills: Option<set<string>>,
    qualifications: Option<seq<string>>,
    education: Option<seq<string>>)

  /** `d.get(key, [])` turned into a set. */
  function Elements(list: Option<seq<string>>): (r: set<string>)
    ensures forall x :: x in r <==> list.Some? && x in list.value
  {
    if list.Some? then set x | x in list.value else {}
  }

  // ---------------------------------------------------------------------
  // prepare_input
  // ---------------------------------------------------------------------

  /** The text `prepare_input` hands to the tokenizer: a missing
      `processed_text` counts as the empty string. */
  function PrepareInput(jd: Doc, resume: Doc): string {
    "[CLS] " + jd.processedText.GetOr("") + " [SEP] " + resume.processedText.GetOr("") + " [SEP]"
  }

  /** The index of the first `c` in `s`, if any. */
  function IndexOf(s: string, c: char): (r: Option<nat>)
    ensures r.Some? ==> r.value < |s| && s[r.value] == c && c !in s[..r.value]
    ensures r.None? ==> c !in s
  {
    if s == [] then None
    else if s[0] == c then Some(0)
    else
      var r := IndexOf(s[1..], c);
      if r.Some? then
        assert s[..r.value + 1] == [s[0]] + s[1..][..r.value];
        Some(r.value + 1)
      else None
  }

  /** Reads the two texts back out of a classifier input, cutting at the
      first `[` after the `[CLS] ` marker. */
  function SplitInput(s: string): Option<(string, string)> {
    if |s| < 12 || s[..6] != "[CLS] " || s[|s| - 6..] != " [SEP]" then None
    else
      var body := s[6..|s| - 6];
      match IndexOf(body, '[')
      case None => None
      case Some(k) =>
        if 1 <= k && k + 6 <= |body| && body[k - 1..k + 6] == " [SEP] " then Some((body[..k - 1], body[k + 6..]))
        else None
  }

  /** Searching past a prefix that lacks `c` shifts the index by its length. */
  lemma {:induction false} IndexOfAfter(a: string, x: string, c: char)
    requires c !in a
    ensures IndexOf(a + x, c) == if IndexOf(x, c).Some? then Some(|a| + IndexOf(x, c).value) else None
  {
    if a != [] {
      assert (a + x)[1..] == a[1..] + x;
      IndexOfAfter(a[1..], x, c);
    } else {
      assert a + x == x;
    }
  }

  /** The pieces of a classifier input. */
  lemma PrepareInputParts(a: string, b: string)
    ensures var s := "[CLS] " + a + " [SEP] " + b + " [SEP]";
            && |s| >= 12
            && s[..6] == "[CLS] "
            && s[|s| - 6..] == " [SEP]"
            && s[6..|s| - 6] == a + (" [SEP] " + b)
  {
  }

  /** Where the job text ends inside the body of a classifier input. */
  lemma BodyCut(a: string, b: string)
    requires '[' !in a
    ensures var body := a + (" [SEP] " + b);
            && IndexOf(body, '[') == Some(|a| + 1)
            && body[|a|..|a| + 7] == " [SEP] "
            && body[..|a|] == a
            && body[|a| + 7..] == b
  {
    var tail := " [SEP] " + b;
    var body := a + tail;
    assert IndexOf(tail, '[') == Some(1) by {
      assert tail[0] == ' ' && tail[1] == '[';
      assert tail[1..][0] == '[';
    }
    IndexOfAfter(a, tail, '[');
    assert body[|a|..|a| + 7] == tail[..7];
  }

  /** The classifier input keeps both texts apart: the job text is read
      back whenever it holds no `[`. */
  lemma SplitPrepareInput(jd: Doc, resume: Doc)
    requires '[' !in jd.processedText.GetOr("")
    ensures SplitInput(PrepareInput(jd, resume)) == Some((jd.processedText.GetOr(""), resume.processedText.GetOr("")))
  {
    var a := jd.processedText.GetOr("");
    var b := resume.processedText.GetOr("");
    PrepareInputParts(a, b);
    BodyCut(a, b);
  }

  /** Normalised text never holds `[`, so the classifier input of two
      processed texts always splits back into them. */
  lemma ProcessedTextSplits(tk: Toolkit, jdText: string, resume: Doc)
    requires Sound(tk)
    ensures var jd := Doc(Some(ProcessText(tk, jdText)), None, None, None);
            SplitInput(PrepareInput(jd, resume)) == Some((ProcessText(tk, jdText), resume.processedText.GetOr("")))
  {
    var p := ProcessText(tk, jdText);
    ProcessTextCharset(tk, jdText);
    assert '[' !in p by {
      assert forall i :: 0 <= i < |p| ==> p[i] == ' ' || TokenChar(p[i]);
    }
    SplitPrepareInput(Doc(Some(p), None, None, None), resume);
  }

  // ---------------------------------------------------------------------
  // compute_match
  // ---------------------------------------------------------------------

  /** The classifier behind `compute_match`: the probability of the positive
      class for a formatted input, or `None` when tokenising or inference
      raises. */
  type Classifier = string -> Option<real>

  /** `compute_match`: `None` stands for a summary that is not valid JSON,
      and a classifier result `None` for `prepare_input` or inference
      raising. Every failure scores 0.0. */
  function ComputeMatch(classify: Classifier, jd: Option<Doc>, resume: Option<Doc>): (r: real)
    ensures jd.None? || resume.None? ==> r == 0.0
    ensures jd.Some? && resume.Some? && classify(PrepareInput(jd.value, resume.value)).None? ==> r == 0.0
  {
    if jd.None? || resume.None? then 0.0
    else classify(PrepareInput(jd.value, resume.value)).GetOr(0.0)
  }

  /** The classifier yields probabilities. */
  ghost predicate Probabilities(classify: Classifier) {
    forall s :: classify(s).Some? ==> 0.0 <= classify(s).value <= 1.0
  }

  /** The score lies in [0, 1] whenever the classifier yields probabilities,
      failures included. */
  lemma ScoreInUnitRange(classify: Classifier, jd: Option<Doc>, resume: Option<Doc>)
    requires Probabilities(classify)
    ensures 0.0 <= ComputeMatch(classify, jd, resume) <= 1.0
  {
    if jd.Some? && resume.Some? {
      var s := PrepareInput(jd.value, resume.value);
      if classify(s).Some? {
        assert 0.0 <= classify(s).value <= 1.0;
      }
    }
  }

  // ---------------------------------------------------------------------
  // get_match_details
  // ---------------------------------------------------------------------

  /** The dictionary `get_match_details` returns; `list(set)` has no
      defined order, so the lists are kept as sets. */
  datatype MatchDetails = MatchDetails(
    score: real,
    matchingSkills: set<string>,
    missingSkills: set<string>,
    matchingEducation: set<string>,
    missingEducation: set<string>)

  const NoMatch := MatchDetails(0.0, {}, {}, {}, {})

  /** Splits what the job asks for into what the resume has and what it
      lacks. */
  function Compare(wanted: set<string>, held: set<string>): (r: (set<string>, set<string>))
    ensures r.0 !! r.1
    ensures r.0 + r.1 == wanted
    ensures r.0 <= held
    ensures r.1 !! held
  {
    (wanted * held, wanted - held)
  }

  /** `get_match_details`: `None` stands for a summary that is not valid
      JSON, which yields the zero result. */
  function GetMatchDetails(classify: Classifier, jd: Option<Doc>, resume: Option<Doc>): (r: MatchDetails)
    ensures jd.None? || resume.None? ==> r == NoMatch
    ensures jd.Some? && resume.Some? ==> r.score == ComputeMatch(classify, jd, resume)
  {
    if jd.None? || resume.None? then NoMatch
    else
      var skills := Compare(jd.value.skills.GetOr({}), resume.value.skills.GetOr({}));
      var education := Compare(Elements(jd.value.qualifications), Elements(resume.value.education));
      MatchDetails(ComputeMatch(classify, jd, resume), skills.0, skills.1, education.0, education.1)
  }

  /** Each job skill is either matching (the resume has it) or missing (the
      resume lacks it), never both; likewise each required qualification
      against the resume's education lines. A failed decode gives score 0.0
      and empty sets. */
  lemma MatchDetailsPartition(classify: Classifier, jd: Option<Doc>, resume: Option<Doc>)
    ensures var d := GetMatchDetails(classify, jd, resume);
            && (jd.None? || resume.None? ==> d == NoMatch)
            && (jd.Some? && resume.Some? ==>
                  var wanted := jd.value.skills.GetOr({});
                  var held := resume.value.skills.GetOr({});
                  && d.score == ComputeMatch(classify, jd, resume)
                  && (forall x :: x in d.matchingSkills <==> x in wanted && x in held)
                  && (forall x :: x in d.missingSkills <==> x in wanted && x !in held)
                  && (forall x :: x in d.matchingEducation <==>
                        x in Elements(jd.value.qualifications) && x in Elements(resume.value.education))
                  && (forall x :: x in d.missingEducation <==>
                        x in Elements(jd.value.qualifications) && x !in Elements(resume.value.education)))
  {
    if jd.Some? && resume.Some? {
      var wanted := jd.value.skills.GetOr({});
      var held := resume.value.skills.GetOr({});
      var q := Elements(jd.value.qualifications);
      var e := Elements(resume.value.education);
      var d := GetMatchDetails(classify, jd, resume);
      assert d.matchingSkills == Compare(wanted, held).0;
      assert d.missingEducation == Compare(q, e).1;
    }
  }

  /** The summary of a job as the matcher decodes it. */
  function JdDoc(s: JdSummarizer.JdSummary): Doc {
    Doc(Some(s.processedText), Some(s.skills), Some(s.qualifications), None)
  }

  /** The parse of a resume as the matcher decodes it. */
  function ResumeDoc(r: ResumeParser.ResumeData): Doc {
    Doc(Some(r.processedText), Some(r.skills), None, Some(r.education))
  }

  /** Every qualification label holds an upper-case letter. */
  lemma LabelsHaveUpper()
    ensures forall x :: x in JdSummarizer.Labels ==> !NoUpper(x)
  {
    assert JdSummarizer.Labels[0][0] == 'B';
    assert JdSummarizer.Labels[1][0] == 'M';
    assert JdSummarizer.Labels[2][0] == 'P';
  }

  /** A qualification spelled with a capital never equals a lower-case
      education line, so none matches and all are missing. */
  lemma CaseMismatchNeverMatches(classify: Classifier, jd: Doc, resume: Doc)
    requires jd.qualifications.Some? && resume.education.Some?
    requires forall x :: x in jd.qualifications.value ==> !NoUpper(x)
    requires forall l :: l in resume.education.value ==> NoUpper(l)
    ensures GetMatchDetails(classify, Some(jd), Some(resume)).matchingEducation == {}
    ensures GetMatchDetails(classify, Some(jd), Some(resume)).missingEducation == Elements(jd.qualifications)
  {
    MatchDetailsPartition(classify, Some(jd), Some(resume));
  }

  /** For summaries the two agents produce, no qualification ever matches:
      the labels are capitalised while resume education lines are
      lower-cased, so every required qualification is reported missing. */
  lemma EducationNeverMatches(tk: Toolkit, classify: Classifier, jdText: Option<string>, failed: bool,
                              document: Option<seq<Option<string>>>)
    requires Sound(tk)
    ensures var s := JdSummarizer.Summarize(tk, jdText, failed);
            var d := GetMatchDetails(classify, Some(JdDoc(s)), Some(ResumeDoc(ResumeParser.ParseDocument(tk, document))));
            && d.matchingEducation == {}
            && d.missingEducation == Elements(Some(s.qualifications))
  {
    var s := JdSummarizer.Summarize(tk, jdText, failed);
    var r := ResumeParser.ParseDocument(tk, document);
    JdSummarizer.SummaryShape(tk, jdText, failed);
    ResumeParser.ParsedResume(tk, document);
    LabelsHaveUpper();
    assert forall x :: x in s.qualifications ==> !NoUpper(x);
    assert forall l :: l in r.education ==> NoUpper(l);
    CaseMismatchNeverMatches(classify, JdDoc(s), ResumeDoc(r));
  }
}
