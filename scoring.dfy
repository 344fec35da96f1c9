/**
 * The similarity scorer of jobmatcher/utils/utils.py: the skill-overlap
 * percentage (calculate_skill_match) and the weighted combination of
 * analyze_match. Arithmetic is over `real`; the embedding model is a
 * parameter.
 */
module Scoring {
  import opened Sequences

  /**
   * The cosine similarity of the sentence embeddings of two texts. The
   * embedding model is outside the model, so callers supply this function;
   * nothing is assumed about its values.
   */
  type Similarity = (string, string) -> real

  /** calculate_skill_match: the share of the job's skill list that the resume covers, as a percentage. */
  function SkillMatch(jobSkills: seq<string>, resumeSkills: seq<string>): (pct: real)
    ensures jobSkills == [] ==> pct == 0.0
    ensures 0.0 <= pct <= 100.0
    ensures pct == 0.0 <==> forall s :: s in jobSkills ==> s !in resumeSkills
    ensures pct == 100.0 <==>
      jobSkills != [] && NoDuplicates(jobSkills) && forall s :: s in jobSkills ==> s in resumeSkills
  {
    if jobSkills == [] then 0.0
    else
      var matched := Elems(jobSkills) * Elems(resumeSkills);
      CoveredSkills(jobSkills, resumeSkills);
      Percentage(|matched|, |jobSkills|);
      (|matched| as real) / (|jobSkills| as real) * 100.0
  }

  /**
   * The number of distinct matched skills is at most the length of the job
   * list; it is zero exactly when nothing overlaps, and equals the length
   * exactly when the job list has no duplicates and every entry is covered.
   */
  lemma CoveredSkills(jobSkills: seq<string>, resumeSkills: seq<string>)
    ensures var m := |Elems(jobSkills) * Elems(resumeSkills)|;
      && m <= |jobSkills|
      && (m == 0 <==> forall s :: s in jobSkills ==> s !in resumeSkills)
      && (m == |jobSkills| <==> NoDuplicates(jobSkills) && forall s :: s in jobSkills ==> s in resumeSkills)
  {
    var job, matched := Elems(jobSkills), Elems(jobSkills) * Elems(resumeSkills);
    CardElems(jobSkills);
    assert |job| == |matched| + |job - matched| by {
      assert job == matched + (job - matched);
    }
    if forall s :: s in jobSkills ==> s in resumeSkills {
      assert job - matched == {};
    } else {
      var s :| s in jobSkills && s !in resumeSkills;
      assert s in job - matched;
    }
    if matched != {} {
      var s :| s in matched;
      assert s in jobSkills && s in resumeSkills;
    } else {
      forall s | s in jobSkills ensures s !in resumeSkills {
        assert s in job;
      }
    }
  }

  /** For 0 <= m <= n and n > 0, m / n * 100 lies in [0, 100], is 0 only for m = 0 and 100 only for m = n. */
  lemma Percentage(m: nat, n: nat)
    requires 0 < n && m <= n
    ensures var pct := (m as real) / (n as real) * 100.0;
      && 0.0 <= pct <= 100.0
      && (pct == 0.0 <==> m == 0)
      && (pct == 100.0 <==> m == n)
  {
    var ratio := (m as real) / (n as real);
    assert ratio * (n as real) == m as real;
    if m < n {
      assert ratio < 1.0;
    }
  }

  /** The responsibilities term of analyze_match: their similarity as a percentage when both descriptors are non-empty, else 0. */
  function ResponsibilitiesSimilarity(jobResponsibilities: string, resumeResponsibilities: string, similarity: Similarity): (pct: real)
    ensures jobResponsibilities == "" || resumeResponsibilities == "" ==> pct == 0.0
    ensures jobResponsibilities != "" && resumeResponsibilities != "" ==>
      pct == similarity(jobResponsibilities, resumeResponsibilities) * 100.0
    ensures 0.0 <= similarity(jobResponsibilities, resumeResponsibilities) <= 1.0 ==> 0.0 <= pct <= 100.0
  {
    if jobResponsibilities != "" && resumeResponsibilities != "" then
      similarity(jobResponsibilities, resumeResponsibilities) * 100.0
    else 0.0
  }

  /**
   * analyze_match: 50% text similarity, 30% skill match and 20%
   * responsibilities similarity, all as percentages, with no clamp.
   */
  function AnalyzeMatch(
    jobText: string, resumeText: string,
    jobSkills: seq<string>, resumeSkills: seq<string>,
    jobResponsibilities: string, resumeResponsibilities: string,
    similarity: Similarity): (score: real)
    ensures var rest := score - similarity(jobText, resumeText) * 50.0
                              - ResponsibilitiesSimilarity(jobResponsibilities, resumeResponsibilities, similarity) * 0.2;
      0.0 <= rest <= 30.0 && (rest == 0.0 <==> forall s :: s in jobSkills ==> s !in resumeSkills)
    ensures jobResponsibilities == "" || resumeResponsibilities == "" ==>
      score == similarity(jobText, resumeText) * 50.0 + SkillMatch(jobSkills, resumeSkills) * 0.3
  {
    var textSimilarity := similarity(jobText, resumeText) * 100.0;
    var skillMatchPercentage := SkillMatch(jobSkills, resumeSkills);
    var responsibilitiesSimilarity := ResponsibilitiesSimilarity(jobResponsibilities, resumeResponsibilities, similarity);
    textSimilarity * 0.5 + skillMatchPercentage * 0.3 + responsibilitiesSimilarity * 0.2
  }

  /**
   * The score lies in [0, 100] whenever the similarities it uses do (that
   * is, when the embeddings never point apart); nothing enforces this.
   */
  lemma ScoreInRange(
    jobText: string, resumeText: string,
    jobSkills: seq<string>, resumeSkills: seq<string>,
    jobResponsibilities: string, resumeResponsibilities: string,
    similarity: Similarity)
    requires 0.0 <= similarity(jobText, resumeText) <= 1.0
    requires 0.0 <= similarity(jobResponsibilities, resumeResponsibilities) <= 1.0
    ensures 0.0 <= AnalyzeMatch(jobText, resumeText, jobSkills, resumeSkills,
                                jobResponsibilities, resumeResponsibilities, similarity) <= 100.0
  {
  }

  /**
   * No clamp: cosine similarity can be negative, and then so can the score.
   * Two texts whose embeddings point in opposite directions and a job with no
   * skills give -70.
   */
  lemma ScoreNotClamped(jobText: string, resumeText: string, jobResponsibilities: string, resumeResponsibilities: string)
    requires jobResponsibilities != "" && resumeResponsibilities != ""
    ensures AnalyzeMatch(jobText, resumeText, [], [], jobResponsibilities, resumeResponsibilities, (a, b) => -1.0) == -70.0
  {
  }

  /** When either responsibilities descriptor is empty, their similarity never influences the score. */
  lemma ScoreIgnoresResponsibilitySimilarity(
    jobText: string, resumeText: string,
    jobSkills: seq<string>, resumeSkills: seq<string>,
    jobResponsibilities: string, resumeResponsibilities: string,
    similarity: Similarity, other: Similarity)
    requires jobResponsibilities == "" || resumeResponsibilities == ""
    requires similarity(jobText, resumeText) == other(jobText, resumeText)
    ensures AnalyzeMatch(jobText, resumeText, jobSkills, resumeSkills, jobResponsibilities, resumeResponsibilities, similarity)
         == AnalyzeMatch(jobText, resumeText, jobSkills, resumeSkills, jobResponsibilities, resumeResponsibilities, other)
  {
  }

  /** The worked example: a job needing python and aws against a resume with python and java matches 50%. */
  lemma SkillMatchExample()
    ensures SkillMatch(["python", "aws"], ["python", "java"]) == 50.0
  {
    var job, resume := ["python", "aws"], ["python", "java"];
    assert "aws" != "python" && "aws" != "java";
    assert Elems(job) * Elems(resume) == {"python"};
  }
}
