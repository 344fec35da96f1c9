/**
 * The keyword extractors of jobmatcher/utils/utils.py: skills,
 * education, title, responsibilities and experience, each a scan of a
 * fixed vocabulary over the document text. Each extractor's loop is a
 * method proved against a specification function or stated outright.
 */
module Extractors {
  import opened Results
  import opened Sequences
  import opened Strings

  /** The sentinel of extract_education, extract_responsibilities and extract_experience when nothing matched. */
  const NotSpecified: string := "Not specified"
  const TitleNotSpecified: string := "Job Title Not Specified"

  const BachelorsDegree: string := "Bachelor's Degree"
  const MastersDegree: string := "Master's Degree"
  const PhD: string := "Ph.D."
  const DegreeOrCertification: string := "Degree/Certification"

  const SkillKeywords: seq<string> := [
    "python", "django", "aws", "javascript", "html", "css", "sql", "mongodb", "docker", "git",
    "linux", "flask", "fastapi", "java", "typescript", "node.js", "react", "vue", "kubernetes", "cloud"
  ]

  const EducationKeywords: seq<string> := ["bachelor", "master", "phd", "degree", "graduation", "certification"]

  const TitleKeywords: seq<string> := ["developer", "engineer", "designer", "manager", "lead", "specialist", "architect", "analyst"]

  const ResponsibilityKeywords: seq<string> := [
    "responsible for", "design", "designing", "develop", "developing", "maintain", "maintaining", "manage", "managing",
    "collaborate", "collaborating", "lead", "coordinate", "coordinating", "optimize", "ship", "write", "test", "debug"
  ]

  const ExperienceKeywords: seq<string> := [
    "years of experience", "experience", "worked as", "worked in", "responsible for",
    "developed", "managed", "led", "engineer", "developer"
  ]

  /** The alternatives `(?:year|yrs|experience)` of the years-of-experience pattern. */
  const YearWords: seq<string> := ["year", "yrs", "experience"]

  // ---------------------------------------------------------------------
  // Vocabulary filters
  // ---------------------------------------------------------------------

  /** The keywords of ks that occur in text as whole words, case-insensitively, in the order of ks. */
  function WordsFound(text: string, ks: seq<string>): (found: seq<string>)
    ensures forall k :: k in found <==> k in ks && HasWholeWord(text, k)
    ensures IsSubsequence(found, ks)
  {
    if ks == [] then []
    else
      var k := ks[|ks| - 1];
      var before := WordsFound(text, ks[..|ks| - 1]);
      assert ks == ks[..|ks| - 1] + [k];
      if HasWholeWord(text, k) then
        assert (before + [k])[..|before|] == before;
        before + [k]
      else
        before
  }

  /** Nothing is found exactly when no keyword of ks occurs as a whole word. */
  lemma WordsFoundEmpty(text: string, ks: seq<string>)
    ensures WordsFound(text, ks) == [] <==> forall j :: 0 <= j < |ks| ==> !HasWholeWord(text, ks[j])
  {
    var found := WordsFound(text, ks);
    if found != [] {
      assert found[0] in found;
    } else {
      forall j | 0 <= j < |ks| ensures !HasWholeWord(text, ks[j]) {
        assert ks[j] !in found;
      }
    }
  }

  /** Filtering a duplicate-free vocabulary yields a duplicate-free list. */
  lemma {:induction false} WordsFoundNoDuplicates(text: string, ks: seq<string>)
    requires NoDuplicates(ks)
    ensures NoDuplicates(WordsFound(text, ks))
  {
    if ks != [] {
      var init, k := ks[..|ks| - 1], ks[|ks| - 1];
      var before := WordsFound(text, init);
      assert NoDuplicates(init) by {
        forall i, j | 0 <= i < j < |init| ensures init[i] != init[j] {
          assert init[i] == ks[i] && init[j] == ks[j];
        }
      }
      WordsFoundNoDuplicates(text, init);
      if HasWholeWord(text, k) {
        assert k !in init by {
          forall i | 0 <= i < |init| ensures init[i] != k {
            assert init[i] == ks[i];
          }
        }
        var found := before + [k];
        forall i, j | 0 <= i < j < |found| ensures found[i] != found[j] {
          if j < |before| {
            assert found[i] == before[i] && found[j] == before[j];
          } else {
            assert found[i] == before[i] && before[i] in init;
          }
        }
      }
    }
  }

  /** The keywords of ks that are substrings of s, in the order of ks. */
  function SubstringsFound(s: string, ks: seq<string>): (found: seq<string>)
    ensures forall k :: k in found <==> k in ks && Contains(s, k)
    ensures found == [] <==> forall j :: 0 <= j < |ks| ==> !Contains(s, ks[j])
  {
    if ks == [] then []
    else
      var k := ks[|ks| - 1];
      assert ks == ks[..|ks| - 1] + [k];
      SubstringsFound(s, ks[..|ks| - 1]) + (if Contains(s, k) then [k] else [])
  }

  /** Filtering one more keyword of a prefix adds it exactly when it is found. */
  lemma WordsFoundStep(text: string, ks: seq<string>, i: nat)
    requires i < |ks|
    ensures WordsFound(text, ks[..i + 1])
      == WordsFound(text, ks[..i]) + (if HasWholeWord(text, ks[i]) then [ks[i]] else [])
  {
    assert ks[..i + 1][..i] == ks[..i];
  }

  /** Substring-filtering one more keyword of a prefix adds it exactly when it is a substring. */
  lemma SubstringsFoundStep(s: string, ks: seq<string>, i: nat)
    requires i < |ks|
    ensures SubstringsFound(s, ks[..i + 1])
      == SubstringsFound(s, ks[..i]) + (if Contains(s, ks[i]) then [ks[i]] else [])
  {
    assert ks[..i + 1][..i] == ks[..i];
  }

  /** Case-insensitive matching: texts equal up to case have the same whole-word keywords. */
  lemma {:induction false} WordsFoundIgnoresCase(s: string, t: string, ks: seq<string>)
    requires LowerStr(s) == LowerStr(t)
    ensures WordsFound(s, ks) == WordsFound(t, ks)
  {
    if ks != [] {
      WordsFoundIgnoresCase(s, t, ks[..|ks| - 1]);
      WholeWordIgnoresCase(s, t, ks[|ks| - 1]);
    }
  }

  /** The skill vocabulary lists each term once (no two terms agree in length, first and last letter). */
  lemma SkillKeywordsDistinct()
    ensures NoDuplicates(SkillKeywords)
  {
    var s := SkillKeywords;
    forall i, j | 0 <= i < j < |s| ensures s[i] != s[j] {
      assert (|s[i]|, s[i][0], s[i][|s[i]| - 1]) != (|s[j]|, s[j][0], s[j][|s[j]| - 1]);
    }
  }

  // ---------------------------------------------------------------------
  // extract_skills
  // ---------------------------------------------------------------------

  /** extract_skills: the vocabulary terms found as whole words, duplicate-free and in vocabulary order. */
  method ExtractSkills(text: string) returns (skills: seq<string>)
    ensures skills == WordsFound(text, SkillKeywords)
    ensures forall k :: k in skills <==> k in SkillKeywords && HasWholeWord(text, k)
    ensures IsSubsequence(skills, SkillKeywords) && NoDuplicates(skills)
  {
    skills := [];
    for i := 0 to |SkillKeywords|
      invariant skills == WordsFound(text, SkillKeywords[..i])
    {
      var skill := SkillKeywords[i];
      WordsFoundStep(text, SkillKeywords, i);
      if HasWholeWord(text, skill) {
        skills := skills + [skill];
      }
    }
    assert SkillKeywords[..|SkillKeywords|] == SkillKeywords;
    SkillKeywordsDistinct();
    WordsFoundNoDuplicates(text, SkillKeywords);
  }

  // ---------------------------------------------------------------------
  // extract_education
  // ---------------------------------------------------------------------

  /** Some education keyword is a substring of the lower-cased text. */
  predicate MentionsEducation(lower: string) {
    exists j :: 0 <= j < |EducationKeywords| && Contains(lower, EducationKeywords[j])
  }

  /** The education label: once any keyword occurs, bachelor beats master beats phd beats the generic label. */
  function Education(text: string): (r: string)
    ensures r in {NotSpecified, BachelorsDegree, MastersDegree, PhD, DegreeOrCertification}
    ensures r == NotSpecified <==> !MentionsEducation(LowerStr(text))
  {
    var lower := LowerStr(text);
    if !MentionsEducation(lower) then NotSpecified
    else if Contains(lower, "bachelor") then BachelorsDegree
    else if Contains(lower, "master") then MastersDegree
    else if Contains(lower, "phd") then PhD
    else DegreeOrCertification
  }

  /** The five possible labels, and the text condition under which each is returned. */
  lemma EducationLabels(text: string)
    ensures var lower, r := LowerStr(text), Education(text);
      && r in {NotSpecified, BachelorsDegree, MastersDegree, PhD, DegreeOrCertification}
      && (r == NotSpecified <==> forall j :: 0 <= j < |EducationKeywords| ==> !Contains(lower, EducationKeywords[j]))
      && (r == BachelorsDegree <==> Contains(lower, "bachelor"))
      && (r == MastersDegree <==> !Contains(lower, "bachelor") && Contains(lower, "master"))
      && (r == PhD <==> !Contains(lower, "bachelor") && !Contains(lower, "master") && Contains(lower, "phd"))
      && (r == DegreeOrCertification <==>
            && !Contains(lower, "bachelor") && !Contains(lower, "master") && !Contains(lower, "phd")
            && (Contains(lower, "degree") || Contains(lower, "graduation") || Contains(lower, "certification")))
  {
    var lower := LowerStr(text);
    if Contains(lower, "bachelor") {
      assert Contains(lower, EducationKeywords[0]);
    } else if Contains(lower, "master") {
      assert Contains(lower, EducationKeywords[1]);
    } else if Contains(lower, "phd") {
      assert Contains(lower, EducationKeywords[2]);
    } else if Contains(lower, "degree") {
      assert Contains(lower, EducationKeywords[3]);
    } else if Contains(lower, "graduation") {
      assert Contains(lower, EducationKeywords[4]);
    } else if Contains(lower, "certification") {
      assert Contains(lower, EducationKeywords[5]);
    }
  }

  /** extract_education: scan the keywords; at the first one present, return the highest-priority degree named anywhere. */
  method ExtractEducation(text: string) returns (education: string)
    ensures education == Education(text)
  {
    var lower := LowerStr(text);
    for i := 0 to |EducationKeywords|
      invariant forall j :: 0 <= j < i ==> !Contains(lower, EducationKeywords[j])
    {
      if Contains(lower, EducationKeywords[i]) {
        if Contains(lower, "bachelor") {
          return BachelorsDegree;
        } else if Contains(lower, "master") {
          return MastersDegree;
        } else if Contains(lower, "phd") {
          return PhD;
        } else {
          return DegreeOrCertification;
        }
      }
    }
    return NotSpecified;
  }

  // ---------------------------------------------------------------------
  // extract_title
  // ---------------------------------------------------------------------

  /** TitleKeywords[i] is the first title keyword, in list order, that is a substring of lower. */
  predicate FirstTitleKeyword(lower: string, i: int) {
    && 0 <= i < |TitleKeywords|
    && Contains(lower, TitleKeywords[i])
    && forall j :: 0 <= j < i ==> !Contains(lower, TitleKeywords[j])
  }

  /** extract_title: the title-cased first keyword found, or the title sentinel. */
  method ExtractTitle(text: string) returns (title: string)
    ensures title == TitleNotSpecified <==>
      forall j :: 0 <= j < |TitleKeywords| ==> !Contains(LowerStr(text), TitleKeywords[j])
    ensures title != TitleNotSpecified ==>
      exists i :: FirstTitleKeyword(LowerStr(text), i) && title == TitleCase(TitleKeywords[i]) == TitleLabels[i]
  {
    var lower := LowerStr(text);
    for i := 0 to |TitleKeywords|
      invariant forall j :: 0 <= j < i ==> !Contains(lower, TitleKeywords[j])
    {
      if Contains(lower, TitleKeywords[i]) {
        title := TitleCase(TitleKeywords[i]);
        TitleCaseKeyword(i);
        assert FirstTitleKeyword(lower, i);
        return;
      }
    }
    return TitleNotSpecified;
  }

  /** What extract_title returns for each keyword, in keyword order. */
  const TitleLabels: seq<string> := ["Developer", "Engineer", "Designer", "Manager", "Lead", "Specialist", "Architect", "Analyst"]

  /** Title-casing a keyword upper-cases its first letter and keeps the rest. */
  lemma TitleCaseOfKeywords()
    ensures forall i :: 0 <= i < |TitleKeywords| ==> TitleCase(TitleKeywords[i]) == TitleLabels[i]
  {
    forall i | 0 <= i < |TitleKeywords| ensures TitleCase(TitleKeywords[i]) == TitleLabels[i] {
      TitleCaseKeyword(i);
    }
  }

  /** `keyword.title()` for the keyword at index i is its label; the two halves of the index range are proved apart to keep each proof small. */
  lemma TitleCaseKeyword(i: nat)
    requires i < |TitleKeywords|
    ensures TitleCase(TitleKeywords[i]) == TitleLabels[i]
  {
    if i < 4 {
      TitleCaseFirstKeywords(i);
    } else {
      TitleCaseLastKeywords(i);
    }
  }

  /** TitleCaseKeyword for indices 0-3 (same proof as TitleCaseLastKeywords, split off only to keep each proof small). */
  lemma TitleCaseFirstKeywords(i: nat)
    requires i < 4
    ensures TitleCase(TitleKeywords[i]) == TitleLabels[i]
  {
    var w, t := TitleKeywords[i], TitleLabels[i];
    TitleCaseWord(w);
    assert t == [Upper(w[0])] + w[1..];
  }

  /** TitleCaseKeyword for indices 4-7 (same proof as TitleCaseFirstKeywords, split off only to keep each proof small). */
  lemma TitleCaseLastKeywords(i: nat)
    requires 4 <= i < |TitleKeywords|
    ensures TitleCase(TitleKeywords[i]) == TitleLabels[i]
  {
    var w, t := TitleKeywords[i], TitleLabels[i];
    TitleCaseWord(w);
    assert t == [Upper(w[0])] + w[1..];
  }

  // ---------------------------------------------------------------------
  // extract_responsibilities
  // ---------------------------------------------------------------------

  /** A list of found keywords as one descriptor: joined by ", ", or the sentinel when empty. */
  function Descriptor(found: seq<string>): string {
    if found == [] then NotSpecified else Join(found, ", ")
  }

  /**
   * The responsibilities descriptor of a text: the keywords found as whole
   * words, joined by ", ". It is the sentinel exactly when none is found.
   */
  function Responsibilities(text: string): (r: string)
    ensures r == NotSpecified <==>
      forall j :: 0 <= j < |ResponsibilityKeywords| ==> !HasWholeWord(text, ResponsibilityKeywords[j])
  {
    var found := WordsFound(text, ResponsibilityKeywords);
    WordsFoundEmpty(text, ResponsibilityKeywords);
    FoundPhrases(text, found);
    DescriptorSentinel(found);
    Descriptor(found)
  }

  /** A descriptor of lower-case phrases is the sentinel only when the list is empty. */
  lemma DescriptorSentinel(found: seq<string>)
    requires forall i :: 0 <= i < |found| ==> IsLowerPhrase(found[i])
    ensures Descriptor(found) == NotSpecified <==> found == []
  {
    if found != [] {
      JoinHead(found, ", ");
      assert Join(found, ", ")[0] != NotSpecified[0];
    }
  }

  /** Non-empty, lower-case letters and blanks only, a letter at both ends. */
  predicate IsLowerPhrase(k: string) {
    && |k| > 0 && 'a' <= k[0] <= 'z' && 'a' <= k[|k| - 1] <= 'z'
    && forall i :: 0 <= i < |k| ==> ('a' <= k[i] <= 'z' || k[i] == ' ')
  }

  /** Every responsibility keyword is a lower-case phrase: no comma, no capital, no blank at either end. */
  lemma ResponsibilityKeywordsLowercase()
    ensures forall k :: k in ResponsibilityKeywords ==> IsLowerPhrase(k)
  {
    forall i | 0 <= i < |ResponsibilityKeywords| ensures IsLowerPhrase(ResponsibilityKeywords[i]) {
      ResponsibilityKeywordLowercase(i);
    }
  }

  /** The responsibility keyword at index i is a lower-case phrase; the index range is split in three only to keep each proof small. */
  lemma ResponsibilityKeywordLowercase(i: nat)
    requires i < |ResponsibilityKeywords|
    ensures IsLowerPhrase(ResponsibilityKeywords[i])
  {
    if i < 7 {
      FirstResponsibilityKeywordsLowercase(i);
    } else if i < 13 {
      MiddleResponsibilityKeywordsLowercase(i);
    } else {
      LastResponsibilityKeywordsLowercase(i);
    }
  }

  /** ResponsibilityKeywordLowercase for indices 0-6. */
  lemma FirstResponsibilityKeywordsLowercase(i: nat)
    requires i < 7
    ensures IsLowerPhrase(ResponsibilityKeywords[i])
  {
  }

  /** ResponsibilityKeywordLowercase for indices 7-12. */
  lemma MiddleResponsibilityKeywordsLowercase(i: nat)
    requires 7 <= i < 13
    ensures IsLowerPhrase(ResponsibilityKeywords[i])
  {
  }

  /** ResponsibilityKeywordLowercase for indices 13-18. */
  lemma LastResponsibilityKeywordsLowercase(i: nat)
    requires 13 <= i < |ResponsibilityKeywords|
    ensures IsLowerPhrase(ResponsibilityKeywords[i])
  {
  }

  /** Every keyword extract_responsibilities finds is a lower-case phrase. */
  lemma FoundPhrases(text: string, found: seq<string>)
    requires found == WordsFound(text, ResponsibilityKeywords)
    ensures forall i :: 0 <= i < |found| ==> IsLowerPhrase(found[i])
  {
    ResponsibilityKeywordsLowercase();
    forall i | 0 <= i < |found| ensures IsLowerPhrase(found[i]) {
      assert found[i] in ResponsibilityKeywords;
    }
  }

  /** Whole words only: "test" is not found inside "testing", since no word boundary falls between "test" and "ing". */
  lemma TestNotFoundInTesting()
    ensures !HasWholeWord("testing", "test")
    ensures HasWholeWord("unit test", "test")
  {
    var s := "testing";
    forall i | 0 <= i <= 3 ensures !WholeWordAt(s, "test", i) {
      if i == 0 {
        assert !IsBoundary(s, 4);
      } else {
        assert !IsBoundary(s, i);
      }
    }
    assert WholeWordAt("unit test", "test", 5);
  }

  /** extract_responsibilities: collect the keywords found, then join them or return the sentinel. */
  method ExtractResponsibilities(text: string) returns (responsibilities: string)
    ensures responsibilities == Responsibilities(text)
  {
    var found: seq<string> := [];
    for i := 0 to |ResponsibilityKeywords|
      invariant found == WordsFound(text, ResponsibilityKeywords[..i])
    {
      var keyword := ResponsibilityKeywords[i];
      WordsFoundStep(text, ResponsibilityKeywords, i);
      if HasWholeWord(text, keyword) {
        found := found + [keyword];
      }
    }
    assert ResponsibilityKeywords[..|ResponsibilityKeywords|] == ResponsibilityKeywords;
    if |found| > 0 {
      responsibilities := Join(found, ", ");
    } else {
      responsibilities := NotSpecified;
    }
    assert responsibilities == Descriptor(found);
  }

  // ---------------------------------------------------------------------
  // extract_experience
  // ---------------------------------------------------------------------

  predicate IsDigitOrPlus(c: char) {
    IsDigit(c) || c == '+'
  }

  /** The end of the longest run of digits and '+' starting at p. */
  function RunEnd(s: string, p: nat): (q: nat)
    requires p <= |s|
    ensures p <= q <= |s|
    ensures forall k :: p <= k < q ==> IsDigitOrPlus(s[k])
    ensures q < |s| ==> !IsDigitOrPlus(s[q])
    decreases |s| - p
  {
    if p < |s| && IsDigitOrPlus(s[p]) then RunEnd(s, p + 1) else p
  }

  /** The end of the longest run of whitespace starting at p. */
  function SpaceEnd(s: string, p: nat): (q: nat)
    requires p <= |s|
    ensures p <= q <= |s|
    ensures forall k :: p <= k < q ==> IsSpace(s[k])
    ensures q < |s| ==> !IsSpace(s[q])
    decreases |s| - p
  {
    if p < |s| && IsSpace(s[p]) then SpaceEnd(s, p + 1) else p
  }

  /** One of "year", "yrs", "experience" starts at index r of s, ignoring case. */
  predicate YearWordAt(s: string, r: nat) {
    exists j :: 0 <= j < |YearWords| && r + |YearWords[j]| <= |s| && LowerStr(s[r..r + |YearWords[j]|]) == YearWords[j]
  }

  /**
   * What group 1 of `(\d+[\+\d]*)\s*(?:year|yrs|experience)` (IGNORECASE)
   * captures when the match starts at p, or None when no match starts there.
   * The group must start with a digit. Both repetitions and `\s*` are greedy,
   * and backtracking cannot rescue a failed attempt: a shorter group leaves a
   * digit or '+' next, a shorter blank run leaves a blank next, and neither
   * can begin "year", "yrs" or "experience". So the group is the whole run
   * of digits and '+' from p, and the alternatives are tried after the
   * whole blank run that follows it.
   */
  function YearsGroupAt(s: string, p: nat): (g: Option<string>)
    ensures g.Some? ==> |g.value| > 0 && IsDigit(g.value[0]) && forall k :: 0 <= k < |g.value| ==> IsDigitOrPlus(g.value[k])
  {
    if p < |s| && IsDigit(s[p]) then
      var q := RunEnd(s, p);
      if YearWordAt(s, SpaceEnd(s, q)) then Some(s[p..q]) else None
    else None
  }

  /**
   * The pattern `(\d+[\+\d]*)\s*(?:year|yrs|experience)` matches s with the
   * group at [p, q), the blanks at [q, e) and an alternative starting at e,
   * for any split allowed by the repetitions, greedy or not.
   */
  predicate RegexMatchAt(s: string, p: int, q: int, e: int) {
    && 0 <= p < q <= e <= |s|
    && IsDigit(s[p])
    && (forall k :: p < k < q ==> IsDigitOrPlus(s[k]))
    && (forall k :: q <= k < e ==> IsSpace(s[k]))
    && YearWordAt(s, e)
  }

  /** Each alternative begins with 'y' or 'e', ignoring case. */
  lemma YearWordStart(s: string, r: nat)
    requires YearWordAt(s, r)
    ensures r < |s| && (Lower(s[r]) == 'y' || Lower(s[r]) == 'e')
  {
    var j :| 0 <= j < |YearWords| && r + |YearWords[j]| <= |s| && LowerStr(s[r..r + |YearWords[j]|]) == YearWords[j];
    assert LowerStr(s[r..r + |YearWords[j]|])[0] == Lower(s[r]);
  }

  /**
   * Every way the pattern can match at p is the greedy one: the group runs
   * to RunEnd, the blanks to SpaceEnd, and the captured group is what
   * YearsGroupAt returns.
   */
  lemma RegexMatchIsGreedy(s: string, p: int, q: int, e: int)
    requires RegexMatchAt(s, p, q, e)
    ensures q == RunEnd(s, p) && e == SpaceEnd(s, q)
    ensures YearsGroupAt(s, p) == Some(s[p..q])
  {
    YearWordStart(s, e);
    var run := RunEnd(s, p);
    assert q <= run;
    assert IsSpace(s[q]) || Lower(s[q]) == 'y' || Lower(s[q]) == 'e';
    assert !IsDigitOrPlus(s[q]);
    assert run <= q;
    var blank := SpaceEnd(s, q);
    assert e <= blank;
    assert !IsSpace(s[e]);
    assert blank <= e;
  }

  /** Conversely, a group YearsGroupAt returns comes from a match of the pattern. */
  lemma YearsGroupIsRegexMatch(s: string, p: nat)
    requires YearsGroupAt(s, p).Some?
    ensures var q := RunEnd(s, p);
      RegexMatchAt(s, p, q, SpaceEnd(s, q)) && YearsGroupAt(s, p).value == s[p..q]
  {
    assert IsDigitOrPlus(s[p]);
  }

  /** The pattern matches somewhere in s exactly when YearsFigure finds a figure. */
  lemma YearsFigureIsRegexSearch(s: string)
    ensures YearsFigure(s).Some? <==> exists p, q, e :: RegexMatchAt(s, p, q, e)
  {
    if YearsFigure(s).Some? {
      var p: nat :| YearsGroupAt(s, p).Some?;
      YearsGroupIsRegexMatch(s, p);
      var q := RunEnd(s, p);
      assert RegexMatchAt(s, p, q, SpaceEnd(s, q));
    }
    if exists p, q, e :: RegexMatchAt(s, p, q, e) {
      var p, q, e :| RegexMatchAt(s, p, q, e);
      RegexMatchIsGreedy(s, p, q, e);
    }
  }

  /** `re.search`: the leftmost index at or after from where the years pattern matches. */
  function SearchYears(s: string, from: nat): (r: Option<nat>)
    ensures r.Some? ==>
      && from <= r.value < |s| && YearsGroupAt(s, r.value).Some?
      && forall p :: from <= p < r.value ==> YearsGroupAt(s, p).None?
    ensures r.None? ==> forall p :: from <= p ==> YearsGroupAt(s, p).None?
    decreases |s| - from
  {
    if from >= |s| then None
    else if YearsGroupAt(s, from).Some? then Some(from)
    else SearchYears(s, from + 1)
  }

  /** The first figure the years pattern captures anywhere in s, if any. */
  function YearsFigure(s: string): (g: Option<string>)
    ensures g.Some? <==> exists p :: YearsGroupAt(s, p).Some?
  {
    match SearchYears(s, 0)
    case Some(p) => YearsGroupAt(s, p)
    case None => None
  }

  /** The experience descriptor: gated by a keyword anywhere in the lower-cased text, then the first years figure. */
  function Experience(text: string): (r: string)
    ensures r == NotSpecified || EndsWith(r, " years")
  {
    if SubstringsFound(LowerStr(text), ExperienceKeywords) == [] then NotSpecified
    else
      match YearsFigure(text)
      case Some(g) => g + " years"
      case None => NotSpecified
  }

  /** The keyword gate: without any experience keyword the sentinel comes back, whatever digits and "years" the text holds. */
  lemma ExperienceGate(text: string)
    requires forall j :: 0 <= j < |ExperienceKeywords| ==> !Contains(LowerStr(text), ExperienceKeywords[j])
    ensures Experience(text) == NotSpecified
  {
  }

  /** A descriptor other than the sentinel is a run of digits and '+' that begins with a digit, followed by " years". */
  lemma ExperienceShape(text: string)
    ensures var r := Experience(text);
      r != NotSpecified ==>
        && |r| > 6 && r[|r| - 6..] == " years" && IsDigit(r[0])
        && forall k :: 0 <= k < |r| - 6 ==> IsDigitOrPlus(r[k])
  {
    var r := Experience(text);
    if r != NotSpecified {
      var g := YearsFigure(text).value;
      assert r == g + " years";
      assert r[|r| - 6..] == " years";
    }
  }

  /** The descriptor is not the sentinel exactly when some keyword occurs and the years pattern matches somewhere. */
  lemma ExperienceFound(text: string)
    ensures Experience(text) != NotSpecified <==>
      && (exists j :: 0 <= j < |ExperienceKeywords| && Contains(LowerStr(text), ExperienceKeywords[j]))
      && YearsFigure(text).Some?
  {
    var found := SubstringsFound(LowerStr(text), ExperienceKeywords);
    if found != [] && YearsFigure(text).Some? {
      var g := YearsFigure(text).value;
      assert Experience(text)[0] == g[0];
      assert !IsDigit(NotSpecified[0]);
    }
  }

  /** extract_experience: collect the keywords present, then return the first years figure or the sentinel. */
  method ExtractExperience(text: string) returns (experience: string)
    ensures experience == Experience(text)
  {
    var lower := LowerStr(text);
    var found: seq<string> := [];
    for i := 0 to |ExperienceKeywords|
      invariant found == SubstringsFound(lower, ExperienceKeywords[..i])
    {
      var keyword := ExperienceKeywords[i];
      SubstringsFoundStep(lower, ExperienceKeywords, i);
      if Contains(lower, keyword) {
        found := found + [keyword];
      }
    }
    assert ExperienceKeywords[..|ExperienceKeywords|] == ExperienceKeywords;
    if |found| == 0 {
      return NotSpecified;
    }
    var years := YearsFigure(text);
    if years.Some? {
      return years.value + " years";
    }
    return NotSpecified;
  }
}
