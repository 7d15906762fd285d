# RecruitIQ agents in Dafny

RecruitIQ is a recruitment service. Its four agents hold the deterministic
text and set logic underneath the web, database and machine-learning layers.
This project models those four agents and proves what they promise:

- **Resume parser** (`ResumeParserAgent`). It normalises resume text with
  `process_text` and finds vocabulary skills with `extract_skills`. It cuts
  the text into sections with `extract_sections`, a line-driven state
  machine. It keeps the education lines that name a degree with
  `extract_education`. `parse` puts these together, with an empty fallback
  result.
- **Job-description summariser** (`JDSummarizer`). It uses the same
  normaliser and skill extractor. It tests for three qualification labels
  with `extract_qualifications` and extracts the years of experience with
  `extract_experience`, a cascade of three regular expressions. `summarize`
  builds the summary and has its own fallback.
- **Matcher**. It formats the classifier input with `prepare_input`,
  scores with `compute_match` (0.0 on every failure), and splits skills and
  qualifications into matching and missing with `get_match_details`.
- **Scheduler**. It builds a grid of eight hourly slots per day with
  `generate_interview_slots`. `schedule` takes the first slot and reports
  one of three outcomes: scheduled, failed or error.

Modules, one file each:

| file | module | what it holds |
|---|---|---|
| `text_util.dfy` | `TextUtil` | the Python `str` built-ins the agents use: ASCII `lower`, `strip` over CPython's whitespace set, `in` on strings, `split('\n')`, `' '.join` |
| `normalizer.dfy` | `Normalizer` | `process_text` and `extract_skills`, modelled once because both agents carry identical copies |
| `resume_parser.dfy` | `ResumeParser` | section headers, the segmenting loop, education extraction, `parse` |
| `jd_summarizer.dfy` | `JdSummarizer` | qualifications, the experience patterns and their scanner, `summarize` |
| `matcher.dfy` | `Matcher` | the classifier input, the score fallbacks, the match details |
| `scheduler.dfy` | `Scheduler` | the slot grid and `schedule` |

Modelling choices:

- NLTK's `word_tokenize` and English stop-word list form one parameter, a
  `Toolkit`. The model relies on two facts about the tokenizer. Under
  `Sound`, every token of text the character filter has already cleaned is
  non-empty, holds no whitespace, and is made of characters of that text.
  The agents tokenize nothing else. On raw text the fact would be false:
  `word_tokenize` rewrites `"` as two backticks or two quotes, but the filter
  removes `"` first. Under `ResplitsJoins`, a space-joined list of such
  tokens splits back into that list; only idempotence needs this.
- A JSON summary is a datatype. An undecodable JSON string is `None`.
- A Python `list(set(...))` has no defined order, so it is kept as a set.
  This makes every list of skills and every `get_match_details` list
  duplicate-free by construction.
- Loops stay loops:
  - `extract_sections`, `extract_education`, the experience scan, the page
    loop of `parse` and `generate_interview_slots` are methods with loop
    invariants.
  - `extract_qualifications` has no loop. It is a method of three
    conditional appends.
  - Each of these methods is proved equal to a specification function.
  - Each specification function's properties are proved as lemmas.
- A `datetime` is a record of integers. `day` is the proleptic Gregorian
  ordinal, and 3652059 is 9999-12-31.

Three facts about the code are worth stating outright:

- Only the first experience pattern ever decides `extract_experience`.
  Whatever pattern 2 or pattern 3 matches, pattern 1 also matches, with the
  same group (`JdSummarizer.LaterPatternsNeverDecide`).
- `matching_education` is always empty for summaries and parses the agents
  produce themselves (`Matcher.EducationNeverMatches`). Qualification labels
  are capitalised (`Bachelor's Degree`), while resume education lines are
  lower-cased.
- `schedule` reports `error` only on the `OverflowError` of stepping a date
  past 9999-12-31 (`Scheduler.Schedule`). `send_interview_invitation`
  catches its own errors and returns `False`, and five days always yield a
  first slot.

## Model

| member | source | states |
|---|---|---|
| TextUtil.LowerChar | recruitment_system/agents/resume_parser.py:41 | lower-casing a character leaves no ASCII capital and keeps whitespace as whitespace |
| TextUtil.Lower | recruitment_system/agents/resume_parser.py:41 | `str.lower` keeps the length, leaves no ASCII capital, and is the identity on text without capitals |
| TextUtil.NotContainsMissingChar | recruitment_system/agents/resume_parser.py:47 | `sub in s` is false when `sub` has a character `s` lacks |
| TextUtil.Contains | recruitment_system/agents/resume_parser.py:47 | Python's `sub in s`: some position of `s` starts an occurrence of `sub` |
| TextUtil.SkipLeading | recruitment_system/agents/resume_parser.py:41 | the first non-whitespace index at or after `i`, with only whitespace skipped |
| TextUtil.SkipTrailing | recruitment_system/agents/resume_parser.py:41 | the end of the text once trailing whitespace is dropped, with only whitespace dropped |
| TextUtil.Strip | recruitment_system/agents/resume_parser.py:41 | `strip()`: the slice between the leading and the trailing whitespace; StripIsSlice and StripEnds state what it keeps |
| TextUtil.StripIsSlice | recruitment_system/agents/resume_parser.py:41 | `strip()` returns a slice of its input with only whitespace before and after it |
| TextUtil.StripEnds | recruitment_system/agents/resume_parser.py:41-43 | a stripped line has no whitespace at either end, and it is empty exactly when the line is all whitespace |
| TextUtil.JoinChars | recruitment_system/agents/resume_parser.py:32 | every character of `' '.join(parts)` comes from the separator or from a part |
| TextUtil.Join | recruitment_system/agents/resume_parser.py:32 | `sep.join(parts)`: the parts with `sep` between neighbours; Split is its inverse for newlines, and JoinChars bounds its characters |
| TextUtil.Split | recruitment_system/agents/resume_parser.py:37 | `split('\n')` gives at least one piece, no piece holds a newline, and joining the pieces with newlines gives back the text |
| Normalizer.StopWords | recruitment_system/agents/resume_parser.py:12 | the stop set holds every NLTK stop word except `not`, `and`, `or`, and none of those three |
| Normalizer.StripPunctuation | recruitment_system/agents/resume_parser.py:29 | the character filter keeps exactly the letters, digits, whitespace, `-` and `+`, and changes nothing in text made only of those |
| Normalizer.CleanChars | recruitment_system/agents/resume_parser.py:28-29 | after lower-casing and filtering, every character is a kept character and none is a capital |
| Normalizer.RemoveStopWords | recruitment_system/agents/resume_parser.py:31 | a token survives exactly when it is not a stop word; the list only shrinks; nothing changes when no token is a stop word |
| Normalizer.KeptTokens | recruitment_system/agents/resume_parser.py:28-31 | the tokens of the lower-cased, filtered text that are not stop words; KeptTokensAreNotStopWords and KeptTokenChars state what they are |
| Normalizer.ProcessText | recruitment_system/agents/resume_parser.py:24-32 | `process_text`: the kept tokens joined by single spaces; ProcessTextCharset and ProcessTextIdempotent state its properties |
| Normalizer.KeptTokensAreNotStopWords | recruitment_system/agents/resume_parser.py:12-31 | no kept token is a stop word, and a token is kept exactly when NLTK does not list it or it is `not`, `and` or `or` |
| Normalizer.KeptTokenChars | recruitment_system/agents/resume_parser.py:24-32 | every kept token is non-empty, holds no whitespace, and is made of lower-case letters, digits, `-` and `+` |
| Normalizer.ProcessTextCharset | recruitment_system/agents/resume_parser.py:24-32 | `process_text` output is lower-case and holds only letters, digits, `-`, `+` and spaces |
| Normalizer.ProcessTextIdempotent | recruitment_system/agents/jd_summarizer.py:18-26 | normalising normalised text changes nothing, given a tokenizer that splits a space-joined token list back into it |
| Normalizer.ExtractSkills | recruitment_system/agents/resume_parser.py:57-67 | the skills found are a set of vocabulary terms |
| Normalizer.SkillsAreSingleWords | recruitment_system/agents/jd_summarizer.py:28-38 | `machine learning`, `data science` and `node.js` are never found, because no token holds a space and `.` is filtered out first |
| ResumeParser.Rank | recruitment_system/agents/resume_parser.py:17-22 | each section has its position in the declaration order of `section_headers` |
| ResumeParser.Header | recruitment_system/agents/resume_parser.py:46-50 | a line opens a section whose keyword it contains, and that section is the first in declaration order with such a keyword |
| ResumeParser.MatchHeader | recruitment_system/agents/resume_parser.py:46-50 | the loop over sections and keywords stops at the section `Header` specifies |
| ResumeParser.ShadowedKeywords | recruitment_system/agents/resume_parser.py:17-22 | `projects` opens only through the word `projects`, and `skills` only through `skills` or `competencies`; `project experience` is shadowed by the earlier section `experience`, and `technical skills` is subsumed by its own keyword `skills` |
| ResumeParser.Step | recruitment_system/agents/resume_parser.py:46-53 | one iteration for a non-blank line: a header line maps its section to just itself and makes it current; another line is appended to the current section, or dropped before any header; FeedLine computes it |
| ResumeParser.Run | recruitment_system/agents/resume_parser.py:40-53 | the loop state after a sequence of cleaned lines, one Step per line; RunKeys and RunCharacterised characterise it |
| ResumeParser.Sections | recruitment_system/agents/resume_parser.py:34-55 | the dictionary `extract_sections` returns: the run over the stripped, lower-cased, non-blank lines; ExtractSections computes it, SectionsPresent and SectionsShape state what it holds |
| ResumeParser.CleanLineShape | recruitment_system/agents/resume_parser.py:41-43 | a stripped, lower-cased line is skipped exactly when the raw line is all whitespace, and otherwise it is non-empty, lower-case and stripped |
| ResumeParser.CleanLinesAreClean | recruitment_system/agents/resume_parser.py:40-43 | every line that reaches the header test is non-empty, lower-case and stripped, and there are no more of them than raw lines |
| ResumeParser.FeedLine | recruitment_system/agents/resume_parser.py:46-53 | one loop body: a header line opens or reopens its section with itself, any other line is appended to the current section, and a line before any header is dropped |
| ResumeParser.CleanSnoc | recruitment_system/agents/resume_parser.py:40-43 | cleaning one more raw line appends its cleaned form, or nothing when it is blank |
| ResumeParser.RunSnoc | recruitment_system/agents/resume_parser.py:40-53 | the state after one more line is one loop step from the state before it |
| ResumeParser.ExtractSections | recruitment_system/agents/resume_parser.py:34-55 | `extract_sections` returns the dictionary that `Sections` specifies |
| ResumeParser.ScanLines | recruitment_system/agents/resume_parser.py:37-55 | the loop over the split lines ends with the sections of the line-by-line run over the cleaned lines |
| ResumeParser.RunKeys | recruitment_system/agents/resume_parser.py:46-53 | a section is a key exactly when some line opens it; the current section is the one opened by the last header line; with no header there is no current section |
| ResumeParser.HeaderStepKeepsRuns | recruitment_system/agents/resume_parser.py:47-49 | after a header line, each section still holds its last run: the reopened section restarts with the header line alone |
| ResumeParser.PlainStepKeepsRuns | recruitment_system/agents/resume_parser.py:52-53 | after a non-header line, each section still holds its last run |
| ResumeParser.CurrentRunReachesEnd | recruitment_system/agents/resume_parser.py:48-53 | the current section's last run reaches the last line, and every other section's run stops before it |
| ResumeParser.PlainStepExtends | recruitment_system/agents/resume_parser.py:52-53 | a non-header line extends the run that reaches the end |
| ResumeParser.PlainStepKeeps | recruitment_system/agents/resume_parser.py:52-53 | a non-header line leaves a closed run unchanged |
| ResumeParser.RunCharacterised | recruitment_system/agents/resume_parser.py:40-53 | each stored section is exactly the slice of lines from the LAST line that opens it up to the next header line or the end, in input order; earlier runs are discarded |
| ResumeParser.RunSectionShape | recruitment_system/agents/resume_parser.py:47-53 | a stored section is non-empty, starts with a line that opens it, continues with non-header lines, and holds only input lines |
| ResumeParser.RunSectionPresent | recruitment_system/agents/resume_parser.py:46-49 | a section is a key exactly when some line opens it |
| ResumeParser.SectionsPresent | recruitment_system/agents/resume_parser.py:34-55 | a section is in the result exactly when some cleaned line opens it; every key is one of the four sections by type |
| ResumeParser.SectionsShape | recruitment_system/agents/resume_parser.py:34-55 | each stored section starts with its header line, continues with non-header lines, and every stored line is non-empty, lower-case and stripped |
| ResumeParser.SectionLinesClean | recruitment_system/agents/resume_parser.py:41-53 | lines taken from the cleaned lines are non-empty, lower-case and stripped |
| ResumeParser.DegreeLines | recruitment_system/agents/resume_parser.py:72-75 | the lines that name a degree, in input order; DegreeLinesMembers and DegreeLinesInOrder state what it keeps |
| ResumeParser.DegreeLinesMembers | recruitment_system/agents/resume_parser.py:73-75 | a line is kept exactly when it is an input line naming `bachelor`, `master`, `phd`, `bs`, `ms` or `mba`; the list never grows |
| ResumeParser.DegreeLinesInOrder | recruitment_system/agents/resume_parser.py:73-75 | the kept lines are the input read at the increasing positions of all its degree lines, so order and repeats are kept |
| ResumeParser.EducationLines | recruitment_system/agents/resume_parser.py:69-76 | `[]` without an education section; otherwise exactly the education lines that name a degree |
| ResumeParser.FindDegree | recruitment_system/agents/resume_parser.py:74 | the loop over the degree words decides whether the lower-cased line names a degree |
| ResumeParser.ExtractEducation | recruitment_system/agents/resume_parser.py:69-76 | `extract_education` returns the lines `EducationLines` specifies |
| ResumeParser.PdfText | recruitment_system/agents/resume_parser.py:86-88 | the page texts concatenated, `''` for a page without text; PdfTextPages and PdfTextPrefix state the order |
| ResumeParser.ParseDocument | recruitment_system/agents/resume_parser.py:78-111 | the result of `parse`: the empty shape for a missing or unreadable file, otherwise skills, education lines, processed text and sections of the document text; Parse computes it and ParsedResume states its properties |
| ResumeParser.PdfTextPages | recruitment_system/agents/resume_parser.py:86-88 | each page's text, or nothing for a page without text, follows the text of the pages before it |
| ResumeParser.PdfTextPrefix | recruitment_system/agents/resume_parser.py:86-88 | the text of the first pages is a prefix of the document text |
| ResumeParser.Parse | recruitment_system/agents/resume_parser.py:78-111 | `parse` concatenates the pages and returns the result `ParseDocument` specifies, or the empty shape when the file is missing or unreadable |
| ResumeParser.ParsedResume | recruitment_system/agents/resume_parser.py:78-111 | a parse has single-word vocabulary skills, education lines that name a degree in the education section (none without one), lower-case stripped education lines and lower-case processed text; a failure gives empty skills, education, text and sections |
| JdSummarizer.Qualifications | recruitment_system/agents/jd_summarizer.py:40-49 | each label is present exactly when its case-insensitive substring test holds; only the three labels occur, at most three entries |
| JdSummarizer.QualificationsOrdered | recruitment_system/agents/jd_summarizer.py:40-49 | labels come in the fixed order Bachelor's, Master's, PhD, so none repeats and `phd` with `doctorate` still gives one `PhD` |
| JdSummarizer.MastersExample | recruitment_system/agents/jd_summarizer.py:45-48 | `Master's degree required` yields `Master's Degree` and no `PhD` |
| JdSummarizer.MastersTests | recruitment_system/agents/jd_summarizer.py:45-47 | that text passes the `master` test and fails the `phd` and `doctorate` tests |
| JdSummarizer.LowerMasters | recruitment_system/agents/jd_summarizer.py:45 | the lower-cased form of that text |
| JdSummarizer.NoDoctorate | recruitment_system/agents/jd_summarizer.py:47 | `master's degree required` contains neither `phd` nor `doctorate` |
| JdSummarizer.ExtractQualifications | recruitment_system/agents/jd_summarizer.py:40-49 | the conditional appends build the list `Qualifications` specifies |
| JdSummarizer.LaterPatternsNeverDecide | recruitment_system/agents/jd_summarizer.py:53-62 | whatever the second or third pattern matches, the first matches with the same group, so the cascade never reaches them |
| JdSummarizer.RunEnd | recruitment_system/agents/jd_summarizer.py:54 | the end of the digit run `\d+` starting at `i` |
| JdSummarizer.SkipSpaces | recruitment_system/agents/jd_summarizer.py:54 | the end of the greedy whitespace run `\s*` starting at `k` |
| JdSummarizer.WordAfterSpaces | recruitment_system/agents/jd_summarizer.py:54 | `year` or `yr` after `\s*` starts at the first non-whitespace character |
| JdSummarizer.SkipSpacesStopsAt | recruitment_system/agents/jd_summarizer.py:54 | a whitespace run ending at a non-whitespace character is what the scanner skips |
| JdSummarizer.RunEndStopsAt | recruitment_system/agents/jd_summarizer.py:54 | a digit run ending at a non-digit is what the scanner reads as `\d+` |
| JdSummarizer.UnitAfterExact | recruitment_system/agents/jd_summarizer.py:54 | the scanner's unit test holds exactly when the pattern's `+`, whitespace, `year` or `yr` and plural `s` can match after the digits |
| JdSummarizer.MatchEndsAtRunEnd | recruitment_system/agents/jd_summarizer.py:54 | a match of the first pattern takes the whole digit run, since the next character must be `+`, whitespace or `y` |
| JdSummarizer.FindYearsLeftmost | recruitment_system/agents/jd_summarizer.py:59-62 | the scanner finds the leftmost match of the first pattern at or after a digit-run boundary, or reports that none exists |
| JdSummarizer.MatchGroupUnique | recruitment_system/agents/jd_summarizer.py:54 | a match of the first pattern at a position has one group |
| JdSummarizer.FindYears | recruitment_system/agents/jd_summarizer.py:59-62 | the scanner over digit-run boundaries for the first match of the first pattern; FindYearsLeftmost proves it leftmost |
| JdSummarizer.Experience | recruitment_system/agents/jd_summarizer.py:51-63 | `extract_experience`: the group of the scanner's match followed by `+ years`, else `Not specified`; ExperienceSpec relates it to the three patterns |
| JdSummarizer.ExperienceSpec | recruitment_system/agents/jd_summarizer.py:51-63 | `Not specified` exactly when no pattern matches the lower-cased text; otherwise the group of the leftmost match of the first pattern followed by `+ years` |
| JdSummarizer.ExperienceShape | recruitment_system/agents/jd_summarizer.py:51-63 | the result is `Not specified` or a non-empty digit string followed by `+ years` |
| JdSummarizer.NoDigitsNotSpecified | recruitment_system/agents/jd_summarizer.py:51-63 | text without a digit gives `Not specified` |
| JdSummarizer.FiveYearsExample | recruitment_system/agents/jd_summarizer.py:51-63 | `5 years of experience` gives `5+ years` |
| JdSummarizer.ThreePlusYearsExample | recruitment_system/agents/jd_summarizer.py:51-63 | `3+ YEARS` gives `3+ years` |
| JdSummarizer.ExtractExperience | recruitment_system/agents/jd_summarizer.py:51-63 | the scanning loop returns what `Experience` specifies |
| JdSummarizer.Summarize | recruitment_system/agents/jd_summarizer.py:65-82 | `summarize`: the four fields from the extractors, or on failure empty skills and qualifications, `Not specified` and the processed text; SummaryShape states its properties |
| JdSummarizer.SummaryShape | recruitment_system/agents/jd_summarizer.py:65-82 | a summary has single-word vocabulary skills, known labels in order, an experience that is `Not specified` or a non-empty digit string followed by `+ years`, and lower-case processed text; on failure, or for a missing description, skills and qualifications are empty and experience is `Not specified` |
| Matcher.Elements | recruitment_system/agents/matcher.py:113-114 | `set(d.get(key, []))` holds exactly the list's elements, or nothing for a missing key |
| Matcher.PrepareInput | recruitment_system/agents/matcher.py:50-54 | the classifier input `[CLS] jd [SEP] resume [SEP]`, a missing `processed_text` read as `""`; SplitPrepareInput reads both texts back |
| Matcher.IndexOf | recruitment_system/agents/matcher.py:54 | the first occurrence of a character, or none when it is absent |
| Matcher.IndexOfAfter | recruitment_system/agents/matcher.py:54 | searching past a prefix that lacks the character shifts the index by the prefix length |
| Matcher.PrepareInputParts | recruitment_system/agents/matcher.py:54 | the classifier input starts with `[CLS] `, ends with ` [SEP]`, and has the two texts around ` [SEP] ` between them |
| Matcher.BodyCut | recruitment_system/agents/matcher.py:54 | in that body the first `[` comes right after the job text when the job text has none |
| Matcher.SplitPrepareInput | recruitment_system/agents/matcher.py:50-54 | the formatted input gives back both texts, a missing `processed_text` read as `""`, whenever the job text has no `[` |
| Matcher.ProcessedTextSplits | recruitment_system/agents/matcher.py:50-54 | a normalised job text never holds `[`, so the input always splits back into the two texts |
| Matcher.ComputeMatch | recruitment_system/agents/matcher.py:74-92 | an undecodable summary scores 0.0, and so does a failure of `prepare_input` or of inference (the classifier yields `None`) |
| Matcher.ScoreInUnitRange | recruitment_system/agents/matcher.py:77-92 | the score lies in [0, 1], failures included, when the classifier yields probabilities |
| Matcher.Compare | recruitment_system/agents/matcher.py:107-116 | matching and missing are disjoint and make up what the job asks for; matching items are held, missing items are not |
| Matcher.GetMatchDetails | recruitment_system/agents/matcher.py:94-134 | an undecodable summary gives score 0.0 and four empty sets; otherwise the score is `compute_match`'s; MatchDetailsPartition states the four sets |
| Matcher.MatchDetailsPartition | recruitment_system/agents/matcher.py:94-134 | an item is matching exactly when the job asks for it and the resume has it, and missing exactly when the job asks for it and the resume lacks it, for skills and for education; a failed decode gives score 0.0 and four empty sets |
| Matcher.LabelsHaveUpper | recruitment_system/agents/jd_summarizer.py:44-48 | every qualification label holds a capital letter |
| Matcher.CaseMismatchNeverMatches | recruitment_system/agents/matcher.py:113-116 | capitalised qualifications never equal lower-case education lines, so none matches and all are missing |
| Matcher.EducationNeverMatches | recruitment_system/agents/matcher.py:113-116 | for any summary and parse the agents produce, `matching_education` is empty and `missing_education` is every qualification |
| Scheduler.Slot | recruitment_system/agents/scheduler.py:57-58 | slot `k` is on the hour from 9 to 16, with zero minutes, seconds and microseconds, on or after the start date |
| Scheduler.Overflows | recruitment_system/agents/scheduler.py:55-60 | `OverflowError` is raised when at least one day is asked for and the date after the last day would pass 9999-12-31 |
| Scheduler.GenerateSlots | recruitment_system/agents/scheduler.py:47-62 | 8 slots per day for `days` days, none for `days <= 0`; slot `k` is at hour `9 + k % 8` on day `start + k / 8` with the time below the hour zero; an overflow error exactly when a date steps past 9999-12-31 |
| Scheduler.SlotsIncrease | recruitment_system/agents/scheduler.py:55-60 | slots come in strictly increasing time, so no two coincide |
| Scheduler.SlotInGrid | recruitment_system/agents/scheduler.py:55-60 | every slot is a valid time on the hour from 9 to 16, on one of the `days` dates from the start |
| Scheduler.FirstSlotMayBePast | recruitment_system/agents/scheduler.py:118-122 | the chosen slot is 09:00 on the start date, earlier than the start exactly when the start is after 09:00:00.000000 |
| Scheduler.Schedule | recruitment_system/agents/scheduler.py:114-141 | `error` exactly when generating slots overflows; `scheduled` exactly when it does not and the invitation is sent, with 09:00 on the start date as the time; otherwise `failed`; no time unless scheduled |

## Left out

- NLTK (`word_tokenize`, `stopwords`, the downloads) is a foreign library. It is a `Toolkit` parameter with the assumptions `Sound` and `ResplitsJoins`.
- Normalizer.ProcessTextIdempotent: holds only for tokenizers that satisfy `ResplitsJoins`. Nothing guarantees that `word_tokenize` splits its own space-joined output back into the same tokens.
- The regular-expression engine is not modelled. The filter of `process_text` is specified by hand (`KeepChar`). The three experience patterns are specified by hand as match predicates, and only the first pattern is scanned.
- Lower-casing covers ASCII letters only. `\d` and the digit test cover ASCII digits only. Other Unicode letters and digits are not modelled.
- The `str()` conversion of `process_text` is not modelled. `summarize` can receive any JSON value as the description (app.py passes `data["description"]`). `None` gives the fallback summary with empty processed text. Any other non-string `x` makes `extract_qualifications` raise, and the fallback keeps `process_text(str(x))`. That case is modelled as `Summarize(tk, Some(str(x)), true)`, with `str(x)` supplied by the caller.
- Exceptions raised by the tokenizer are not modelled: `Toolkit.tokenize` is total. A missing NLTK resource makes `word_tokenize` raise `LookupError`. In `parse` that would send a readable document to the empty result, which `ParseDocument` never returns for a document that is present. In `summarize` the exception would escape, since the fallback calls `process_text` again.
- pdfplumber extraction and the file-existence check in `parse` are I/O. The document is an `Option` of page texts: `None` for a missing or unreadable file, and `None` for a page without text.
- JSON `dumps` and `loads` are replaced by datatypes. An undecodable summary is `None`. A summary whose `processed_text` is not a string is not modelled.
- DistilBERT loading, tokenisation and softmax in `Matcher.__init__` and `compute_match` are a foreign library and floating point. The classifier is a function parameter that may fail (`None`).
- Output lists built with `list(set(...))` (skills, matching and missing) are sets, because their order is undefined.
- Gmail and OAuth (`authenticate`, `send_interview_invitation`, `_create_message`) are network, credential files and MIME encoding. The outcome of sending is a boolean parameter. `candidate_email`, `job_title` and `application_id` only feed the email, so they are not modelled.
- `datetime.now()` is a clock: the start is a parameter. `isoformat()` is not modelled, so the scheduled time is kept as a `DateTime`. Time zones are not modelled.
- Logging is not modelled.
- `Matcher.__init__`, model-path handling and device selection only configure the classifier, which is a parameter here.
