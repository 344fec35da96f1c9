/**
 * The comparison logic of MatchView.post in jobmatcher/match/views.py:
 * look up a job description and a resume, score them, and report which
 * skills and responsibilities overlap and whether the education levels
 * agree. The document store is outside the model: lookups arrive as
 * Option values, and the embedding similarity as a parameter.
 */
module MatchView {
  import opened Results
  import opened Sequences
  import opened Strings
  import opened Extractors
  import opened Scoring

  /** A stored job description, as the upload endpoint writes it. */
  datatype JobDescription = JobDescription(
    title: string,
    description: string,
    requiredSkills: seq<string>,
    education: string,
    responsibilities: string,
    yearsOfExperience: string,
    file: string)

  /** A stored resume, as the upload endpoint writes it; it keeps no raw text. */
  datatype Resume = Resume(
    skills: seq<string>,
    education: string,
    responsibilities: string,
    experience: string,
    file: string)

  /** The match record returned to the caller (and inserted in the store). */
  datatype MatchRecord = MatchRecord(
    jobDescId: string,
    resumeId: string,
    matchScore: real,
    matchedSkills: set<string>,
    missingSkills: set<string>,
    matchedResponsibilities: set<string>,
    missingResponsibilities: set<string>,
    jobEducation: string,
    resumeEducation: string,
    educationMatch: bool,
    feedback: string)

  /** "Invalid job description or resume ID", answered with HTTP 404. */
  datatype MatchError = NotFound

  const PlaceholderFeedback: string :=
    "Feedback will be generated based on missing skills, responsibilities, and education"

  /** What the job side has that the resume side has and lacks, as Python sets. */
  datatype Overlap = Overlap(matched: set<string>, missing: set<string>)

  /** set(job) & set(resume) and set(job) - set(resume): a partition of the job's items by presence in the resume. */
  function Compare(job: seq<string>, resume: seq<string>): (o: Overlap)
    ensures o.matched + o.missing == Elems(job)
    ensures o.matched !! o.missing
    ensures o.matched <= Elems(resume)
    ensures o.missing !! Elems(resume)
  {
    Overlap(Elems(job) * Elems(resume), Elems(job) - Elems(resume))
  }

  // ---------------------------------------------------------------------
  // Responsibility-string parsing
  // ---------------------------------------------------------------------

  /** A parsed responsibility: non-empty, stripped of blanks at both ends, lower-case, without commas. */
  predicate IsToken(t: string) {
    && t != []
    && !IsSpace(t[0]) && !IsSpace(t[|t| - 1])
    && ',' !in t
    && LowerStr(t) == t
  }

  /** `[x.strip().lower() for x in pieces if x.strip()]`. */
  function ParseTokens(pieces: seq<string>): (tokens: seq<string>)
    ensures (forall k :: 0 <= k < |pieces| ==> ',' !in pieces[k]) ==> forall t :: t in tokens ==> IsToken(t)
  {
    if pieces == [] then []
    else
      var stripped := Strip(pieces[0]);
      StripLowerIsToken(pieces[0]);
      (if stripped != [] then [LowerStr(stripped)] else []) + ParseTokens(pieces[1..])
  }

  /** A comma-free piece that is not blank strips and lower-cases to a token. */
  lemma StripLowerIsToken(piece: string)
    ensures ',' !in piece && Strip(piece) != [] ==> IsToken(LowerStr(Strip(piece)))
  {
    if ',' !in piece && Strip(piece) != [] {
      var s := Strip(piece);
      var t := LowerStr(s);
      assert |t| == |s| && t[0] == Lower(s[0]) && t[|t| - 1] == Lower(s[|s| - 1]);
      LowerStrIdempotent(s);
      TrimmedInside(piece);
      forall i | 0 <= i < |t| ensures t[i] != ',' {
        assert s[i] in piece;
      }
    }
  }

  /** Every character of the stripped string comes from the original. */
  lemma TrimmedInside(s: string)
    ensures forall c :: c in Strip(s) ==> c in s
  {
    var a := TrimStart(s);
    assert forall c :: c in a ==> c in s;
    assert forall c :: c in TrimEnd(a) ==> c in a;
  }

  /**
   * The responsibilities list of a descriptor: the sentinel means none;
   * otherwise the comma-separated pieces, stripped and lower-cased, blanks dropped.
   */
  function ParseResponsibilities(s: string): (tokens: seq<string>)
    ensures s == NotSpecified ==> tokens == []
    ensures forall t :: t in tokens ==> IsToken(t)
  {
    if s != NotSpecified then ParseTokens(Split(s, ',')) else []
  }

  /** Each item of xs behind one blank, as ", ".join leaves all but the first after splitting on ','. */
  function Spaced(xs: seq<string>): (ys: seq<string>)
    ensures |ys| == |xs|
    ensures forall i :: 0 <= i < |xs| ==> ys[i] == " " + xs[i]
  {
    if xs == [] then [] else [" " + xs[0]] + Spaced(xs[1..])
  }

  /** Splitting ", ".join(xs) on ',' yields the first item and then every other item behind a blank. */
  lemma {:induction false} SplitJoinedList(xs: seq<string>)
    requires |xs| >= 1
    requires forall k :: 0 <= k < |xs| ==> ',' !in xs[k]
    ensures Split(Join(xs, ", "), ',') == [xs[0]] + Spaced(xs[1..])
  {
    if |xs| > 1 {
      var rest := Join(xs[1..], ", ");
      SplitJoinedList(xs[1..]);
      assert Join(xs, ", ") == xs[0] + [','] + (" " + rest);
      SplitAfterPiece(xs[0], " " + rest, ',');
      assert (" " + rest)[1..] == rest;
      assert Spaced(xs[1..]) == [" " + xs[1]] + Spaced(xs[2..]) by {
        assert xs[1..][1..] == xs[2..];
      }
    } else {
      SplitNoSeparator(xs[0], ',');
    }
  }

  /** Pieces that strip to tokens parse back to exactly those tokens. */
  lemma {:induction false} ParseStrippedTokens(pieces: seq<string>, xs: seq<string>)
    requires |pieces| == |xs|
    requires forall i :: 0 <= i < |xs| ==> IsToken(xs[i]) && Strip(pieces[i]) == xs[i]
    ensures ParseTokens(pieces) == xs
  {
    if pieces != [] {
      ParseStrippedTokens(pieces[1..], xs[1..]);
      assert xs == [xs[0]] + xs[1..];
    }
  }

  /** A blank in front of a token strips away. */
  lemma StripBlankToken(t: string)
    requires IsToken(t)
    ensures Strip(" " + t) == t
  {
    assert (" " + t)[1..] == t;
  }

  /** Lower-case words separated by blanks make a token. */
  lemma PhraseIsToken(k: string)
    requires IsLowerPhrase(k)
    ensures IsToken(k)
  {
    LowerOfLowercase(k);
    assert ',' !in k by {
      forall i | 0 <= i < |k| ensures k[i] != ',' {
      }
    }
  }

  /** Round trip: parsing ", ".join(xs) gives back xs, for tokens xs. */
  lemma ParseJoined(xs: seq<string>)
    requires |xs| >= 1
    requires forall k :: 0 <= k < |xs| ==> IsToken(xs[k])
    ensures ParseTokens(Split(Join(xs, ", "), ',')) == xs
  {
    SplitJoinedList(xs);
    var pieces := [xs[0]] + Spaced(xs[1..]);
    forall i | 0 <= i < |xs| ensures Strip(pieces[i]) == xs[i] {
      if i > 0 {
        assert pieces[i] == Spaced(xs[1..])[i - 1] == " " + xs[i];
        StripBlankToken(xs[i]);
      } else {
        assert pieces[0] == xs[0];
      }
    }
    ParseStrippedTokens(pieces, xs);
  }

  /** Parsing the descriptor of a list of lower-case phrases gives back the list, sentinel included. */
  lemma DescriptorRoundTrip(found: seq<string>)
    requires forall i :: 0 <= i < |found| ==> IsLowerPhrase(found[i])
    ensures ParseResponsibilities(Descriptor(found)) == found
  {
    if found != [] {
      DescriptorSentinel(found);
      forall i | 0 <= i < |found| ensures IsToken(found[i]) {
        PhraseIsToken(found[i]);
      }
      ParseJoined(found);
    }
  }

  /**
   * Round trip with extract_responsibilities: parsing its descriptor gives
   * back exactly the keywords it found, in vocabulary order, in both the
   * sentinel and the joined case.
   */
  lemma ResponsibilitiesRoundTrip(text: string)
    ensures ParseResponsibilities(Responsibilities(text)) == WordsFound(text, ResponsibilityKeywords)
  {
    var found := WordsFound(text, ResponsibilityKeywords);
    FoundPhrases(text, found);
    DescriptorRoundTrip(found);
  }

  // ---------------------------------------------------------------------
  // Education comparison
  // ---------------------------------------------------------------------

  /** `job_education.lower() == resume_education.lower()`. */
  function EducationMatch(jobEducation: string, resumeEducation: string): (m: bool)
    ensures jobEducation == resumeEducation ==> m
    ensures m ==> |jobEducation| == |resumeEducation|
  {
    LowerStr(jobEducation) == LowerStr(resumeEducation)
  }

  /** Reflexive, symmetric, and blind to the casing of either side. */
  lemma EducationMatchIsCaseInsensitiveEquality(a: string, b: string, a': string, b': string)
    requires LowerStr(a') == LowerStr(a) && LowerStr(b') == LowerStr(b)
    ensures EducationMatch(a, a)
    ensures EducationMatch(a, b) == EducationMatch(b, a)
    ensures EducationMatch(a', b') == EducationMatch(a, b)
  {
  }

  /** On labels produced by extract_education, the case-insensitive comparison is plain equality. */
  lemma EducationMatchOfLabels(jobText: string, resumeText: string)
    ensures EducationMatch(Education(jobText), Education(resumeText)) <==> Education(jobText) == Education(resumeText)
  {
    EducationLabels(jobText);
    EducationLabels(resumeText);
    var a, b := Education(jobText), Education(resumeText);
    if EducationMatch(a, b) {
      assert |a| == |LowerStr(a)| == |LowerStr(b)| == |b|;
    }
  }

  // ---------------------------------------------------------------------
  // The endpoint
  // ---------------------------------------------------------------------

  /**
   * MatchView.post after the two lookups: NotFound when either record is
   * missing; otherwise the score (whose "resume text" is the resume's
   * experience descriptor), the skill and responsibility overlaps, and
   * the education comparison.
   */
  function MatchPost(
    jobDescId: string, resumeId: string,
    job: Option<JobDescription>, resume: Option<Resume>,
    similarity: Similarity): (r: Result<MatchRecord, MatchError>)
    ensures r.Err? <==> job.None? || resume.None?
    ensures r.Err? ==> r.error == NotFound
    ensures r.Ok? ==>
      var m, jd, cv := r.value, job.value, resume.value;
      && m.jobDescId == jobDescId && m.resumeId == resumeId
      && m.matchScore == AnalyzeMatch(jd.description, cv.experience, jd.requiredSkills, cv.skills,
                                      jd.responsibilities, cv.responsibilities, similarity)
      && m.matchedSkills + m.missingSkills == Elems(jd.requiredSkills)
      && m.matchedSkills !! m.missingSkills
      && m.matchedSkills <= Elems(cv.skills) && m.missingSkills !! Elems(cv.skills)
      && m.matchedResponsibilities + m.missingResponsibilities == Elems(ParseResponsibilities(jd.responsibilities))
      && m.matchedResponsibilities !! m.missingResponsibilities
      && m.matchedResponsibilities <= Elems(ParseResponsibilities(cv.responsibilities))
      && m.missingResponsibilities !! Elems(ParseResponsibilities(cv.responsibilities))
      && m.jobEducation == jd.education && m.resumeEducation == cv.education
      && (m.educationMatch <==> LowerStr(jd.education) == LowerStr(cv.education))
      && m.feedback == PlaceholderFeedback
  {
    if job.None? || resume.None? then Err(NotFound)
    else
      var jd, cv := job.value, resume.value;
      var score := AnalyzeMatch(jd.description, cv.experience, jd.requiredSkills, cv.skills,
                                jd.responsibilities, cv.responsibilities, similarity);
      var skills := Compare(jd.requiredSkills, cv.skills);
      var responsibilities := Compare(ParseResponsibilities(jd.responsibilities), ParseResponsibilities(cv.responsibilities));
      Ok(MatchRecord(
        jobDescId, resumeId, score,
        skills.matched, skills.missing,
        responsibilities.matched, responsibilities.missing,
        jd.education, cv.education,
        EducationMatch(jd.education, cv.education),
        PlaceholderFeedback))
  }

  /**
   * For records whose responsibilities descriptors are those
   * extract_responsibilities makes of two texts, the matched responsibilities are the keywords
   * found in both texts and the missing ones those found only in the job's.
   */
  lemma MatchedResponsibilitiesOfExtracted(
    jobDescId: string, resumeId: string, jd: JobDescription, cv: Resume,
    jobText: string, resumeText: string, similarity: Similarity)
    ensures var job := jd.(responsibilities := Responsibilities(jobText));
      var resume := cv.(responsibilities := Responsibilities(resumeText));
      var m := MatchPost(jobDescId, resumeId, Some(job), Some(resume), similarity).value;
      && (forall k :: k in m.matchedResponsibilities <==>
            k in ResponsibilityKeywords && HasWholeWord(jobText, k) && HasWholeWord(resumeText, k))
      && (forall k :: k in m.missingResponsibilities <==>
            k in ResponsibilityKeywords && HasWholeWord(jobText, k) && !HasWholeWord(resumeText, k))
  {
    ResponsibilitiesRoundTrip(jobText);
    ResponsibilitiesRoundTrip(resumeText);
  }

  /** The worked example: python and aws required, python and java offered: python matched, aws missing. */
  lemma SkillOverlapExample()
    ensures Compare(["python", "aws"], ["python", "java"]) == Overlap({"python"}, {"aws"})
  {
    assert "aws" != "python" && "aws" != "java";
  }
}
