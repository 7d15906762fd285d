/** `ResumeParserAgent`: cuts a resume's text into labelled sections, picks
    the degree lines out of the education section, and assembles the parse
    result. */
module ResumeParser {
  import opened TextUtil
  import opened Normalizer

  /** The keys of `section_headers`. */
  datatype Section = Education | Experience | Skills | Projects

  /** Declaration order of `section_headers`, which is its iteration order. */
  const SectionOrder: seq<Section> := [Education, Experience, Skills, Projects]

  function Rank(s: Section): (r: nat)
    ensures r < |SectionOrder| && SectionOrder[r] == s
  {
    match s
    case Education => 0
    case Experience => 1
    case Skills => 2
    case Projects => 3
  }

  function Keywords(s: Section): seq<string> {
    match s
    case Education => ["education", "academic", "qualification"]
    case Experience => ["experience", "work", "employment", "professional"]
    case Skills => ["skills", "technical skills", "competencies"]
    case Projects => ["projects", "project experience"]
  }

  /** `any(header in line for header in headers)`. */
  predicate HasKeyword(line: string, s: Section) {
    exists k | k in Keywords(s) :: Contains(line, k)
  }

  /** The section a line opens: the first section, in declaration order, one
      of whose keywords occurs in the line. */
  function Header(line: string): (r: Option<Section>)
    ensures r.Some? ==> HasKeyword(line, r.value)
    ensures forall s :: HasKeyword(line, s) ==> r.Some? && Rank(r.value) <= Rank(s)
  {
    if HasKeyword(line, Education) then Some(Education)
    else if HasKeyword(line, Experience) then Some(Experience)
    else if HasKeyword(line, Skills) then Some(Skills)
    else if HasKeyword(line, Projects) then Some(Projects)
    else None
  }

  /** The inner loop of `extract_sections` over `section_headers.items()`,
      which stops at the first section that matches. */
  method MatchHeader(line: string) returns (r: Option<Section>)
    ensures r == Header(line)
  {
    var i := 0;
    while i < |SectionOrder|
      invariant 0 <= i <= |SectionOrder|
      invariant forall j :: 0 <= j < i ==> !HasKeyword(line, SectionOrder[j])
    {
      var s := SectionOrder[i];
      if HasKeyword(line, s) {
        assert Rank(s) == i;
        return Some(s);
      }
      i := i + 1;
    }
    assert forall s :: Rank(s) < 4 && SectionOrder[Rank(s)] == s;
    return None;
  }

  /** A line that holds "project experience" also holds "experience", and
      `experience` is declared before `projects`; likewise "technical skills"
      holds "skills". So `projects` is only ever opened through "projects",
      and `skills` never through "technical skills". */
  lemma ShadowedKeywords(line: string)
    ensures Header(line) == Some(Projects) ==> Contains(line, "projects")
    ensures Header(line) == Some(Skills) ==> Contains(line, "skills") || Contains(line, "competencies")
  {
    if Contains(line, "project experience") {
      var i :| 0 <= i <= |line| - 18 && OccursAt(line, "project experience", i);
      assert line[i + 8..i + 18] == line[i..i + 18][8..];
      assert OccursAt(line, "experience", i + 8);
      assert Contains(line, "experience");
      assert Keywords(Experience)[0] == "experience";
      assert HasKeyword(line, Experience);
    }
    if Contains(line, "technical skills") {
      var i :| 0 <= i <= |line| - 16 && OccursAt(line, "technical skills", i);
      assert line[i + 10..i + 16] == line[i..i + 16][10..];
      assert OccursAt(line, "skills", i + 10);
      assert Contains(line, "skills");
    }
    if Header(line) == Some(Projects) {
      var k :| k in Keywords(Projects) && Contains(line, k);
    }
  }

  /** `line.strip().lower()`. */
  function CleanLine(line: string): string {
    Lower(Strip(line))
  }

  /** A line as `extract_sections` stores it: non-empty, lower-case, and
      without leading or trailing whitespace. */
  predicate IsCleanLine(l: string) {
    |l| > 0 && NoUpper(l) && !IsSpace(l[0]) && !IsSpace(l[|l| - 1])
  }

  /** The non-blank lines, stripped and lower-cased, in input order. */
  function Clean(lines: seq<string>): seq<string> {
    if lines == [] then []
    else
      var l := CleanLine(lines[|lines| - 1]);
      Clean(lines[..|lines| - 1]) + (if l == [] then [] else [l])
  }

  /** A stripped, lower-cased line is blank exactly when the raw line is all
      whitespace, and otherwise has no whitespace at either end. */
  lemma CleanLineShape(line: string)
    ensures CleanLine(line) == [] <==> forall k :: 0 <= k < |line| ==> IsSpace(line[k])
    ensures CleanLine(line) != [] ==> IsCleanLine(CleanLine(line))
  {
    var t := Strip(line);
    StripEnds(line);
    var l := Lower(t);
    assert |l| == |t|;
    if l != [] {
      assert !IsSpace(t[0]) && !IsSpace(t[|t| - 1]);
      assert l[0] == LowerChar(t[0]);
      assert l[|l| - 1] == LowerChar(t[|t| - 1]);
      assert !IsSpace(l[0]) && !IsSpace(l[|l| - 1]);
      assert IsCleanLine(l);
    }
  }

  /** Blank lines are dropped and every kept line is stripped and lower-case. */
  lemma {:induction false} CleanLinesAreClean(lines: seq<string>)
    ensures forall j :: 0 <= j < |Clean(lines)| ==> IsCleanLine(Clean(lines)[j])
    ensures |Clean(lines)| <= |lines|
  {
    if lines != [] {
      var q := lines[..|lines| - 1];
      var l := CleanLine(lines[|lines| - 1]);
      CleanLinesAreClean(q);
      CleanLineShape(lines[|lines| - 1]);
      var c := Clean(lines);
      assert c == Clean(q) + (if l == [] then [] else [l]);
      forall j | 0 <= j < |c| ensures IsCleanLine(c[j]) {
        if j < |Clean(q)| {
          assert c[j] == Clean(q)[j];
        }
      }
    }
  }

  /** The state of the loop in `extract_sections`. */
  datatype Scan = Scan(current: Option<Section>, sections: map<Section, seq<string>>)

  /** The test of header lines the loop uses. */
  type HeaderTest = string -> Option<Section>

  /** One non-blank line: a header line re-opens its section with itself as
      the only line; any other line is appended to the current section. */
  function Step(header: HeaderTest, st: Scan, line: string): Scan {
    match header(line)
    case Some(h) => Scan(Some(h), st.sections[h := [line]])
    case None =>
      if st.current.Some? && st.current.value in st.sections then
        Scan(st.current, st.sections[st.current.value := st.sections[st.current.value] + [line]])
      else st
  }

  /** The state after the given cleaned lines. */
  function Run(header: HeaderTest, lines: seq<string>): Scan {
    if lines == [] then Scan(None, map[])
    else Step(header, Run(header, lines[..|lines| - 1]), lines[|lines| - 1])
  }

  /** The dictionary `extract_sections` returns. */
  function Sections(text: string): map<Section, seq<string>> {
    Run(Header, Clean(Split(text, '\n'))).sections
  }

  /** The body of the loop of `extract_sections` for one non-blank line. */
  method FeedLine(current: Option<Section>, sections: map<Section, seq<string>>, line: string)
    returns (current': Option<Section>, sections': map<Section, seq<string>>)
    requires current.Some? ==> current.value in sections
    ensures current'.Some? ==> current'.value in sections'
    ensures Scan(current', sections') == Step(Header, Scan(current, sections), line)
  {
    current', sections' := current, sections;
    var h := MatchHeader(line);
    if h.Some? {
      current' := h;
      sections' := sections'[h.value := []];
    }
    if current'.Some? {
      sections' := sections'[current'.value := sections'[current'.value] + [line]];
    }
    assert h.Some? ==> sections'[h.value] == [line];
  }

  lemma CleanSnoc(lines: seq<string>, i: nat)
    requires i < |lines|
    ensures Clean(lines[..i + 1]) == Clean(lines[..i]) + (if CleanLine(lines[i]) == [] then [] else [CleanLine(lines[i])])
  {
    assert lines[..i + 1][..i] == lines[..i];
  }

  lemma RunSnoc(header: HeaderTest, lines: seq<string>, x: string)
    ensures Run(header, lines + [x]) == Step(header, Run(header, lines), x)
  {
    assert (lines + [x])[..|lines|] == lines;
  }

  /** `extract_sections`. */
  method ExtractSections(text: string) returns (sections: map<Section, seq<string>>)
    ensures sections == Sections(text)
  {
    var lines := Split(text, '\n');
    sections := ScanLines(lines);
  }

  /** The loop of `extract_sections` over the lines of the text. */
  method ScanLines(lines: seq<string>) returns (sections: map<Section, seq<string>>)
    ensures sections == Run(Header, Clean(lines)).sections
  {
    sections := map[];
    var current: Option<Section> := None;
    ghost var done: seq<string> := [];
    var i := 0;
    while i < |lines|
      invariant 0 <= i <= |lines|
      invariant done == Clean(lines[..i])
      invariant current.Some? ==> current.value in sections
      invariant Scan(current, sections) == Run(Header, done)
    {
      var line := CleanLine(lines[i]);
      CleanSnoc(lines, i);
      if line != [] {
        RunSnoc(Header, done, line);
        current, sections := FeedLine(current, sections, line);
        done := done + [line];
      }
      i := i + 1;
    }
    assert lines[..i] == lines;
  }

  ghost predicate HeaderAt(header: HeaderTest, lines: seq<string>, s: Section, i: int) {
    0 <= i < |lines| && header(lines[i]) == Some(s)
  }

  /** Line `i` is the last header line of all. */
  ghost predicate IsLastHeader(header: HeaderTest, lines: seq<string>, s: Section, i: int) {
    && HeaderAt(header, lines, s, i)
    && forall k :: i < k < |lines| ==> header(lines[k]).None?
  }

  /** `lines[i..j]` runs from the last header line of `s` up to the next
      header line or the end. */
  ghost predicate IsLastRun(header: HeaderTest, lines: seq<string>, s: Section, i: int, j: int) {
    && HeaderAt(header, lines, s, i)
    && i < j <= |lines|
    && (forall k :: i < k < j ==> header(lines[k]).None?)
    && (j < |lines| ==> header(lines[j]).Some?)
    && (forall k :: i < k < |lines| ==> header(lines[k]) != Some(s))
  }

  /** Which sections the loop has opened, and where it stands: a section is
      present exactly when some line opens it, and the current section is the
      one opened by the last header line. */
  lemma {:induction false} RunKeys(header: HeaderTest, lines: seq<string>)
    ensures Run(header, lines).current.None? ==> forall k :: 0 <= k < |lines| ==> header(lines[k]).None?
    ensures Run(header, lines).current.Some? ==> exists i :: IsLastHeader(header, lines, Run(header, lines).current.value, i)
    ensures forall s :: s in Run(header, lines).sections <==> exists i :: HeaderAt(header, lines, s, i)
  {
    if lines == [] {
      return;
    }
    var q := lines[..|lines| - 1];
    var x := lines[|lines| - 1];
    RunKeys(header, q);
    var st := Run(header, q);
    assert forall k :: 0 <= k < |q| ==> lines[k] == q[k];
    forall s, i | HeaderAt(header, q, s, i) ensures HeaderAt(header, lines, s, i) {
    }
    match header(x)
    case Some(h) =>
      assert IsLastHeader(header, lines, h, |q|);
      forall s, i | HeaderAt(header, lines, s, i) && s != h ensures HeaderAt(header, q, s, i) {
      }
    case None =>
      forall s, i | HeaderAt(header, lines, s, i) ensures HeaderAt(header, q, s, i) {
      }
      if st.current.Some? {
        var ic :| IsLastHeader(header, q, st.current.value, ic);
        assert IsLastHeader(header, lines, st.current.value, ic);
      }
  }

  /** Section `s` holds the lines from its last header line up to the next
      header line. */
  ghost predicate HoldsLastRun(header: HeaderTest, lines: seq<string>, s: Section) {
    s in Run(header, lines).sections ==>
      exists i, j :: IsLastRun(header, lines, s, i, j) && Run(header, lines).sections[s] == lines[i..j]
  }

  /** A header line for `h` leaves `h` holding just itself and keeps every
      other section's run. */
  lemma HeaderStepKeepsRuns(header: HeaderTest, q: seq<string>, x: string, s: Section)
    requires header(x).Some?
    requires HoldsLastRun(header, q, s)
    ensures HoldsLastRun(header, q + [x], s)
  {
    var lines := q + [x];
    var h := header(x).value;
    RunSnoc(header, q, x);
    assert forall k :: 0 <= k < |q| ==> lines[k] == q[k];
    if s == h {
      assert IsLastRun(header, lines, h, |q|, |lines|);
      assert lines[|q|..|lines|] == [x];
    } else if s in Run(header, lines).sections {
      var i, j :| IsLastRun(header, q, s, i, j) && Run(header, q).sections[s] == q[i..j];
      assert IsLastRun(header, lines, s, i, j);
      assert lines[i..j] == q[i..j];
    }
  }

  /** A plain line extends the current section's run and keeps the others. */
  lemma PlainStepKeepsRuns(header: HeaderTest, q: seq<string>, x: string, s: Section)
    requires header(x).None?
    requires HoldsLastRun(header, q, s)
    ensures HoldsLastRun(header, q + [x], s)
  {
    RunSnoc(header, q, x);
    var st := Run(header, q);
    if s in st.sections {
      var i, j :| IsLastRun(header, q, s, i, j) && st.sections[s] == q[i..j];
      CurrentRunReachesEnd(header, q, s, i, j);
      if st.current == Some(s) {
        PlainStepExtends(header, q, x, s, i);
      } else {
        PlainStepKeeps(header, q, x, s, i, j);
      }
    }
  }

  /** The run of the current section is the one that reaches the end; every
      other run stops at a later header line. */
  lemma CurrentRunReachesEnd(header: HeaderTest, q: seq<string>, s: Section, i: int, j: int)
    requires IsLastRun(header, q, s, i, j)
    ensures Run(header, q).current == Some(s) ==> j == |q|
    ensures Run(header, q).current != Some(s) ==> j < |q|
  {
    RunKeys(header, q);
    var st := Run(header, q);
    if st.current.Some? {
      var ic :| IsLastHeader(header, q, st.current.value, ic);
      if st.current == Some(s) {
        assert i == ic;
      } else {
        assert i != ic;
      }
    }
  }

  lemma PlainStepExtends(header: HeaderTest, q: seq<string>, x: string, s: Section, i: int)
    requires header(x).None?
    requires IsLastRun(header, q, s, i, |q|)
    ensures IsLastRun(header, q + [x], s, i, |q| + 1) && (q + [x])[i..] == q[i..] + [x]
  {
    var lines := q + [x];
    assert forall k :: 0 <= k < |q| ==> lines[k] == q[k];
  }

  lemma PlainStepKeeps(header: HeaderTest, q: seq<string>, x: string, s: Section, i: int, j: int)
    requires header(x).None?
    requires IsLastRun(header, q, s, i, j) && j < |q|
    ensures IsLastRun(header, q + [x], s, i, j) && (q + [x])[i..j] == q[i..j]
  {
    var lines := q + [x];
    assert forall k :: 0 <= k < |q| ==> lines[k] == q[k];
  }

  /** What the loop computes, stated without the loop: each present section
      holds the lines from its LAST header line up to the next header line,
      so that a repeated header discards what the section held before. */
  lemma {:induction false} RunCharacterised(header: HeaderTest, lines: seq<string>)
    ensures forall s :: s in Run(header, lines).sections ==>
              exists i, j :: IsLastRun(header, lines, s, i, j) && Run(header, lines).sections[s] == lines[i..j]
  {
    if lines == [] {
      return;
    }
    var q := lines[..|lines| - 1];
    var x := lines[|lines| - 1];
    assert lines == q + [x];
    RunCharacterised(header, q);
    forall s | s in Run(header, lines).sections
      ensures exists i, j :: IsLastRun(header, lines, s, i, j) && Run(header, lines).sections[s] == lines[i..j]
    {
      assert HoldsLastRun(header, q, s);
      if header(x).Some? {
        HeaderStepKeepsRuns(header, q, x, s);
      } else {
        PlainStepKeepsRuns(header, q, x, s);
      }
      assert HoldsLastRun(header, lines, s);
    }
  }

  /** The cleaned lines of a resume text, in order. */
  function CleanedLines(text: string): seq<string> {
    Clean(Split(text, '\n'))
  }

  /** A section of the loop's result starts with a header line opening it,
      continues with non-header lines, and is made of lines of the input. */
  lemma RunSectionShape(header: HeaderTest, lines: seq<string>, s: Section)
    requires s in Run(header, lines).sections
    ensures var sec := Run(header, lines).sections[s];
            && |sec| > 0
            && header(sec[0]) == Some(s)
            && (forall k :: 0 < k < |sec| ==> header(sec[k]).None?)
            && (forall k :: 0 <= k < |sec| ==> sec[k] in lines)
  {
    RunCharacterised(header, lines);
    var i, j :| IsLastRun(header, lines, s, i, j) && Run(header, lines).sections[s] == lines[i..j];
    var sec := Run(header, lines).sections[s];
    assert forall k :: 0 <= k < |sec| ==> sec[k] == lines[i + k];
  }

  /** A section is present exactly when one of the lines opens it. */
  lemma RunSectionPresent(header: HeaderTest, lines: seq<string>, s: Section)
    ensures s in Run(header, lines).sections <==> exists k :: 0 <= k < |lines| && header(lines[k]) == Some(s)
  {
    RunKeys(header, lines);
    if exists k :: 0 <= k < |lines| && header(lines[k]) == Some(s) {
      var k :| 0 <= k < |lines| && header(lines[k]) == Some(s);
      assert HeaderAt(header, lines, s, k);
    }
  }

  /** `extract_sections` on a text: a section is present exactly when one of
      the cleaned lines opens it. */
  lemma SectionsPresent(text: string, s: Section)
    ensures s in Sections(text) <==> exists k :: 0 <= k < |CleanedLines(text)| && Header(CleanedLines(text)[k]) == Some(s)
  {
    RunSectionPresent(Header, CleanedLines(text), s);
  }

  /** A section of `extract_sections` holds the header line that opened it
      followed by the non-header lines after it, all stripped, non-blank and
      lower-case. */
  lemma SectionsShape(text: string, s: Section)
    requires s in Sections(text)
    ensures var sec := Sections(text)[s];
            && |sec| > 0
            && Header(sec[0]) == Some(s)
            && (forall k :: 0 < k < |sec| ==> Header(sec[k]).None?)
            && (forall k :: 0 <= k < |sec| ==> IsCleanLine(sec[k]))
  {
    var lines := CleanedLines(text);
    RunSectionShape(Header, lines, s);
    SectionLinesClean(Split(text, '\n'), Run(Header, lines).sections[s]);
  }

  lemma SectionLinesClean(raw: seq<string>, sec: seq<string>)
    requires forall k :: 0 <= k < |sec| ==> sec[k] in Clean(raw)
    ensures forall k :: 0 <= k < |sec| ==> IsCleanLine(sec[k])
  {
    CleanLinesAreClean(raw);
    forall k | 0 <= k < |sec| ensures IsCleanLine(sec[k]) {
      var j :| 0 <= j < |Clean(raw)| && Clean(raw)[j] == sec[k];
    }
  }

  /** The words of `extract_education` that mark a degree line. */
  const DegreeWords: seq<string> := ["bachelor", "master", "phd", "bs", "ms", "mba"]

  /** `any(degree in line.lower() for degree in [...])`. */
  predicate MentionsDegree(line: string) {
    exists d | d in DegreeWords :: Contains(Lower(line), d)
  }

  /** The lines that mention a degree, in their original order. */
  function DegreeLines(lines: seq<string>): seq<string> {
    if lines == [] then []
    else DegreeLines(lines[..|lines| - 1]) + (if MentionsDegree(lines[|lines| - 1]) then [lines[|lines| - 1]] else [])
  }

  /** A line is kept exactly when it is one of the input lines and mentions
      a degree. */
  lemma {:induction false} DegreeLinesMembers(lines: seq<string>)
    ensures |DegreeLines(lines)| <= |lines|
    ensures forall l :: l in DegreeLines(lines) <==> l in lines && MentionsDegree(l)
  {
    if lines != [] {
      var q := lines[..|lines| - 1];
      DegreeLinesMembers(q);
      assert lines == q + [lines[|lines| - 1]];
    }
  }

  /** The positions of the lines that mention a degree, in increasing order. */
  ghost function DegreePositions(lines: seq<string>): seq<int> {
    if lines == [] then []
    else DegreePositions(lines[..|lines| - 1]) + (if MentionsDegree(lines[|lines| - 1]) then [|lines| - 1] else [])
  }

  /** Keeping the degree lines keeps them in order and keeps repeats: the
      result is the input read at the increasing positions of all its degree
      lines. */
  lemma {:induction false} DegreeLinesInOrder(lines: seq<string>)
    ensures |DegreePositions(lines)| == |DegreeLines(lines)|
    ensures forall k :: 0 <= k < |DegreePositions(lines)| ==>
              0 <= DegreePositions(lines)[k] < |lines| && lines[DegreePositions(lines)[k]] == DegreeLines(lines)[k]
    ensures forall k, m :: 0 <= k < m < |DegreePositions(lines)| ==> DegreePositions(lines)[k] < DegreePositions(lines)[m]
    ensures forall j :: 0 <= j < |lines| && MentionsDegree(lines[j]) ==> j in DegreePositions(lines)
  {
    if lines != [] {
      var q := lines[..|lines| - 1];
      var l := lines[|lines| - 1];
      DegreeLinesInOrder(q);
      var pq := DegreePositions(q);
      var p := DegreePositions(lines);
      var out := DegreeLines(lines);
      assert p == pq + (if MentionsDegree(l) then [|q|] else []);
      assert out == DegreeLines(q) + (if MentionsDegree(l) then [l] else []);
      forall k | 0 <= k < |p| ensures 0 <= p[k] < |lines| && lines[p[k]] == out[k] {
        if k < |pq| {
          assert lines[pq[k]] == q[pq[k]];
        }
      }
      forall j | 0 <= j < |lines| && MentionsDegree(lines[j]) ensures j in p {
        if j < |q| {
          assert q[j] == lines[j];
        }
      }
    }
  }

  /** `extract_education`: the degree lines of the education section, or none
      when the resume has no education section. */
  function EducationLines(sections: map<Section, seq<string>>): (r: seq<string>)
    ensures Education !in sections ==> r == []
    ensures Education in sections ==> forall l :: l in r <==> l in sections[Education] && MentionsDegree(l)
  {
    if Education in sections then
      DegreeLinesMembers(sections[Education]);
      DegreeLines(sections[Education])
    else []
  }

  /** The degree test of `extract_education`, a loop over the six words. */
  method FindDegree(line: string) returns (found: bool)
    ensures found == MentionsDegree(line)
  {
    var lower := Lower(line);
    found := false;
    var i := 0;
    while i < |DegreeWords|
      invariant 0 <= i <= |DegreeWords|
      invariant found <==> exists j :: 0 <= j < i && Contains(lower, DegreeWords[j])
    {
      if Contains(lower, DegreeWords[i]) {
        found := true;
      }
      i := i + 1;
    }
  }

  /** `extract_education`, appending the degree lines one by one. */
  method ExtractEducation(sections: map<Section, seq<string>>) returns (education: seq<string>)
    ensures education == EducationLines(sections)
  {
    education := [];
    if Education in sections {
      var lines := sections[Education];
      var i := 0;
      while i < |lines|
        invariant 0 <= i <= |lines|
        invariant education == DegreeLines(lines[..i])
      {
        assert lines[..i + 1][..i] == lines[..i];
        var degree := FindDegree(lines[i]);
        if degree {
          education := education + [lines[i]];
        }
        i := i + 1;
      }
      assert lines[..i] == lines;
    }
  }

  /** The dictionary `parse` serialises. */
  datatype ResumeData = ResumeData(
    skills: set<string>,
    education: seq<string>,
    processedText: string,
    sections: map<Section, seq<string>>)

  /** The result `parse` returns when anything goes wrong. */
  const EmptyResume := ResumeData({}, [], "", map[])

  /** The text of a PDF: each page's extracted text in turn, a page without
      text contributing nothing. */
  function PdfText(pages: seq<Option<string>>): string {
    if pages == [] then ""
    else PdfText(pages[..|pages| - 1]) + pages[|pages| - 1].GetOr("")
  }

  /** The page texts appear in page order: each page's text sits in the
      document text right after the text of the pages before it. */
  lemma PdfTextPages(pages: seq<Option<string>>, n: nat)
    requires n < |pages|
    ensures OccursAt(PdfText(pages[..n + 1]), pages[n].GetOr(""), |PdfText(pages[..n])|)
    ensures PdfText(pages[..n]) <= PdfText(pages)
  {
    assert pages[..n + 1][..n] == pages[..n];
    PdfTextPrefix(pages, n);
  }

  lemma {:induction false} PdfTextPrefix(pages: seq<Option<string>>, n: nat)
    requires n <= |pages|
    ensures PdfText(pages[..n]) <= PdfText(pages)
  {
    if n < |pages| {
      var q := pages[..|pages| - 1];
      assert pages[..n] == q[..n];
      PdfTextPrefix(q, n);
      assert PdfText(pages) == PdfText(q) + pages[|pages| - 1].GetOr("");
    } else {
      assert pages[..n] == pages;
    }
  }

  /** `parse` on a document that opened (`Some(pages)`, one entry per page,
      `None` where `extract_text()` found nothing) or that is missing or
      unreadable (`None`). */
  function ParseDocument(tk: Toolkit, document: Option<seq<Option<string>>>): ResumeData {
    match document
    case None => EmptyResume
    case Some(pages) =>
      var text := PdfText(pages);
      var sections := Sections(text);
      ResumeData(ExtractSkills(tk, text), EducationLines(sections), ProcessText(tk, text), sections)
  }

  /** `parse`: concatenates the page texts, then extracts. */
  method Parse(tk: Toolkit, document: Option<seq<Option<string>>>) returns (r: ResumeData)
    ensures r == ParseDocument(tk, document)
  {
    if document.None? {
      return EmptyResume;
    }
    var pages := document.value;
    var text := "";
    var i := 0;
    while i < |pages|
      invariant 0 <= i <= |pages|
      invariant text == PdfText(pages[..i])
    {
      assert pages[..i + 1][..i] == pages[..i];
      text := text + pages[i].GetOr("");
      i := i + 1;
    }
    assert pages[..i] == pages;
    var sections := ExtractSections(text);
    var education := ExtractEducation(sections);
    r := ResumeData(ExtractSkills(tk, text), education, ProcessText(tk, text), sections);
  }

  /** What a parse result guarantees: skills are single-word vocabulary
      terms, every education line is a degree line of the education section
      and every such line is listed, the processed text is lower-case, and a
      failed parse is the empty result. */
  lemma ParsedResume(tk: Toolkit, document: Option<seq<Option<string>>>)
    requires Sound(tk)
    ensures var r := ParseDocument(tk, document);
            && r.skills <= Vocabulary - UnreachableSkills
            && (Education !in r.sections ==> r.education == [])
            && (Education in r.sections ==> forall l :: l in r.education <==> l in r.sections[Education] && MentionsDegree(l))
            && (forall l :: l in r.education ==> IsCleanLine(l))
            && NoUpper(r.processedText)
            && (document.None? ==> r == EmptyResume)
  {
    if document.Some? {
      var text := PdfText(document.value);
      SkillsAreSingleWords(tk, text);
      ProcessTextCharset(tk, text);
      if Education in Sections(text) {
        SectionsShape(text, Education);
      }
    }
  }
}
