/** The text normaliser and the skill extractor. `ResumeParserAgent` and
    `JDSummarizer` carry identical copies of `process_text` and
    `extract_skills`; both are modelled once, here. */
module Normalizer {
  import opened TextUtil

  /** The two NLTK services the agents call: `word_tokenize` and the
      English entries of `stopwords`. */
  datatype Toolkit = Toolkit(tokenize: string -> seq<string>, nltkStopWords: set<string>)

  /** `t` can be a token cut from `s`: non-empty, free of whitespace, and
      made of characters that occur in `s`. */
  ghost predicate TokenOf(t: string, s: string) {
    |t| > 0 && forall i :: 0 <= i < |t| ==> !IsSpace(t[i]) && t[i] in s
  }

  /** What the model relies on from `word_tokenize`, on text the character
      filter has already cleaned, the only text the agents tokenize. (On raw
      text it does not hold: `word_tokenize` rewrites `"` as two backticks or
      two quotes, but the filter removes `"` first.) */
  ghost predicate Sound(tk: Toolkit) {
    forall s, t {:trigger t in tk.tokenize(s)} ::
      (forall i :: 0 <= i < |s| ==> KeepChar(s[i])) && t in tk.tokenize(s) ==> TokenOf(t, s)
  }

  /** `word_tokenize` splits a space-joined list of whitespace-free tokens back
      into that list (true of whitespace splitting). */
  ghost predicate ResplitsJoins(tk: Toolkit) {
    forall ts: seq<string> {:trigger Join(" ", ts)} ::
      (forall j :: 0 <= j < |ts| ==> TokenOf(ts[j], ts[j])) ==> tk.tokenize(Join(" ", ts)) == ts
  }

  /** The words the agents take out of NLTK's stop-word list. */
  const Connectives: set<string> := {"not", "and", "or"}

  function StopWords(tk: Toolkit): (r: set<string>)
    ensures r !! Connectives
    ensures forall w :: w in tk.nltkStopWords && w !in Connectives ==> w in r
  {
    tk.nltkStopWords - Connectives
  }

  /** The characters the class `[^a-zA-Z0-9\s\-\+]` does not remove. */
  predicate KeepChar(c: char) {
    'a' <= c <= 'z' || IsUpper(c) || IsDigit(c) || IsSpace(c) || c == '-' || c == '+'
  }

  /** A character that can appear in a token of normalised text. */
  predicate TokenChar(c: char) {
    'a' <= c <= 'z' || IsDigit(c) || c == '-' || c == '+'
  }

  /** `re.sub(r'[^a-zA-Z0-9\s\-\+]', '', s)`. */
  function StripPunctuation(s: string): (r: string)
    ensures forall c :: c in r <==> c in s && KeepChar(c)
    ensures (forall i :: 0 <= i < |s| ==> KeepChar(s[i])) ==> r == s
  {
    if s == [] then []
    else
      assert s == [s[0]] + s[1..];
      (if KeepChar(s[0]) then [s[0]] else []) + StripPunctuation(s[1..])
  }

  /** The character stage of `process_text`: lower-case, then drop punctuation. */
  function CleanChars(text: string): (r: string)
    ensures forall c :: c in r ==> KeepChar(c) && !IsUpper(c)
  {
    var r := StripPunctuation(Lower(text));
    assert forall c :: c in Lower(text) ==> !IsUpper(c);
    r
  }

  /** `[t for t in tokens if t not in stop]`. */
  function RemoveStopWords(tokens: seq<string>, stop: set<string>): (r: seq<string>)
    ensures forall t :: t in r <==> t in tokens && t !in stop
    ensures |r| <= |tokens|
    ensures (forall j :: 0 <= j < |tokens| ==> tokens[j] !in stop) ==> r == tokens
  {
    if tokens == [] then []
    else
      assert tokens == [tokens[0]] + tokens[1..];
      (if tokens[0] in stop then [] else [tokens[0]]) + RemoveStopWords(tokens[1..], stop)
  }

  /** The tokens `process_text` keeps. */
  function KeptTokens(tk: Toolkit, text: string): seq<string> {
    RemoveStopWords(tk.tokenize(CleanChars(text)), StopWords(tk))
  }

  /** `process_text`: lower-case, drop punctuation, tokenise, drop stop
      words, join with single spaces. */
  function ProcessText(tk: Toolkit, text: string): string {
    Join(" ", KeptTokens(tk, text))
  }

  /** No stop word survives, and the connectives `not`, `and`, `or` are never
      dropped: a token is kept exactly when it is not a stop word. */
  lemma KeptTokensAreNotStopWords(tk: Toolkit, text: string)
    ensures forall t :: t in KeptTokens(tk, text) ==> t !in StopWords(tk)
    ensures forall t :: t in tk.tokenize(CleanChars(text)) ==>
              (t in KeptTokens(tk, text) <==> t !in tk.nltkStopWords || t in Connectives)
  {
  }

  /** Every token `process_text` keeps is made of lower-case letters, digits,
      `-` and `+`. */
  lemma {:induction false} KeptTokenChars(tk: Toolkit, text: string)
    requires Sound(tk)
    ensures forall j :: 0 <= j < |KeptTokens(tk, text)| ==>
              TokenOf(KeptTokens(tk, text)[j], KeptTokens(tk, text)[j]) && AllChars(KeptTokens(tk, text)[j], TokenChar)
  {
    var kept := KeptTokens(tk, text);
    var clean := CleanChars(text);
    assert forall i :: 0 <= i < |clean| ==> KeepChar(clean[i]);
    forall j | 0 <= j < |kept|
      ensures TokenOf(kept[j], kept[j]) && AllChars(kept[j], TokenChar)
    {
      var t := kept[j];
      assert t in tk.tokenize(clean);
      assert TokenOf(t, clean);
      forall i | 0 <= i < |t| ensures TokenChar(t[i]) {
        assert t[i] in clean;
      }
    }
  }

  /** `process_text` yields lower-case text made only of letters, digits, `-`,
      `+` and single spaces between tokens. */
  lemma ProcessTextCharset(tk: Toolkit, text: string)
    requires Sound(tk)
    ensures AllChars(ProcessText(tk, text), c => c == ' ' || TokenChar(c))
    ensures NoUpper(ProcessText(tk, text))
  {
    KeptTokenChars(tk, text);
    var p := (c: char) => c == ' ' || TokenChar(c);
    var kept := KeptTokens(tk, text);
    forall j | 0 <= j < |kept| ensures AllChars(kept[j], p) {
      assert AllChars(kept[j], TokenChar);
    }
    JoinChars(" ", kept, p);
  }

  /** Normalising already normalised text changes nothing, provided the
      tokenizer splits a space-joined token list back into that list. */
  lemma ProcessTextIdempotent(tk: Toolkit, text: string)
    requires Sound(tk) && ResplitsJoins(tk)
    ensures ProcessText(tk, ProcessText(tk, text)) == ProcessText(tk, text)
  {
    var kept := KeptTokens(tk, text);
    var out := ProcessText(tk, text);
    ProcessTextCharset(tk, text);
    KeptTokenChars(tk, text);
    assert Lower(out) == out;
    assert forall i :: 0 <= i < |out| ==> KeepChar(out[i]);
    assert CleanChars(out) == out;
    assert tk.tokenize(out) == kept;
    KeptTokensAreNotStopWords(tk, text);
  }

  /** The fixed skill vocabulary of `extract_skills`. */
  const Vocabulary: set<string> := {
    "python", "java", "javascript", "sql", "aws", "docker", "kubernetes",
    "machine learning", "ai", "data science", "react", "node.js",
    "tensorflow", "pytorch", "scikit-learn", "pandas", "numpy"
  }

  /** The vocabulary terms that hold a space or a `.`. */
  const UnreachableSkills: set<string> := {"machine learning", "data science", "node.js"}

  /** `extract_skills`: the vocabulary terms among the tokens of the
      normalised text. Python returns `list(set)`, whose order is
      unspecified, so the model keeps the set. */
  function ExtractSkills(tk: Toolkit, text: string): (r: set<string>)
    ensures r <= Vocabulary
  {
    var tokens := tk.tokenize(ProcessText(tk, text));
    set t | t in tokens && t in Vocabulary
  }

  /** `machine learning`, `data science` and `node.js` are never found: no
      token holds a space, and `.` is removed before tokenising. */
  lemma SkillsAreSingleWords(tk: Toolkit, text: string)
    requires Sound(tk)
    ensures ExtractSkills(tk, text) <= Vocabulary - UnreachableSkills
  {
    var p := ProcessText(tk, text);
    ProcessTextCharset(tk, text);
    var tokens := tk.tokenize(p);
    assert forall i :: 0 <= i < |p| ==> KeepChar(p[i]);
    forall t | t in tokens ensures t !in UnreachableSkills {
      assert TokenOf(t, p);
      forall i | 0 <= i < |t| ensures t[i] != '.' && t[i] != ' ' {
        assert t[i] in p;
      }
      assert "node.js"[4] == '.' && "machine learning"[7] == ' ' && "data science"[4] == ' ';
    }
  }
}
