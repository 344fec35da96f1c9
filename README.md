# careerkitty job matcher: a verified model of the matching core

The job matcher takes a job description and a resume (both uploaded as PDF
files), pulls structured attributes out of each text with fixed keyword
vocabularies, and answers a match request with a weighted score plus
diagnostics: which required skills and responsibilities the resume covers
or misses, and whether the education levels agree.

This project models the deterministic part of that pipeline in Dafny.

- `results.dfy` (`Results`): `Option` and `Result`.
- `sequences.dfy` (`Sequences`): Python lists seen as sets. It defines
  `set(xs)` and duplicate-freedom, and proves that `len(set(xs)) <= len(xs)`.
- `strings.dfy` (`Strings`): the Python string operations the core uses,
  over ASCII:
  - `lower`, `title`, `strip`, `split`, `join` and `endswith`;
  - the substring test `sub in s`;
  - the case-insensitive whole-word search `re.search(r"\b" + re.escape(w) + r"\b", s, re.IGNORECASE)`,
    with `\b` modelled exactly: the characters on its two sides differ in
    being word characters, and the ends of the string count as non-word.
- `extractors.dfy` (`Extractors`): `extract_skills`, `extract_education`,
  `extract_title`, `extract_responsibilities` and `extract_experience`.
  - Each extractor's loop is a method.
  - It is proved against a specification function (a filter of the
    vocabulary), or its result is stated outright.
  - The properties of those functions are lemmas.
- `scoring.dfy` (`Scoring`): `calculate_skill_match`, and the weighted
  combination of `analyze_match`. The sentence-embedding similarity is a
  caller-supplied function.
- `loader.dfy` (`Loader`): `extract_text_from_file`:
  - only names ending in `.pdf` are read;
  - the pages' texts are concatenated in order;
  - anything else is an `UnsupportedFileType` error.
- `match_view.dfy` (`MatchView`): the comparison logic of `MatchView.post`,
  as a function from the two optional stored records to `NotFound` or a
  match record. It covers:
  - skill overlap;
  - responsibility parsing and overlap;
  - education comparison.

  Its key result is a round trip: parsing the descriptor that
  `extract_responsibilities` produces gives back exactly the keywords it
  found.

### Behaviour worth noting

- **Resume text in the score.** The second text given to the score is the
  resume record's `experience` descriptor, such as `"5 years"`
  (jobmatcher/match/views.py:104). The resume record keeps no raw text.
- **Raw responsibility strings.** The responsibilities similarity compares
  the two stored descriptors as they are (jobmatcher/utils/utils.py:38-41).
  The sentinel `"Not specified"` is a non-empty string, so it takes part in
  that similarity.
- **No clamp on the score.** Cosine similarity can be negative, and the
  weighted sum is returned as is, so the score can be negative
  (`Scoring.ScoreNotClamped` reaches -70).
- **Whole words only.** A keyword counts only between word boundaries, so
  `test` is not found in `testing` (`Extractors.TestNotFoundInTesting` proves
  this case). By the same rule, `responsible for developing and testing
  software` yields `"responsible for, developing"`; no lemma states that
  whole example.
- **The years figure.** The figure `extract_experience` captures is any run
  of digits and `+` that starts with a digit, for example `3+5`.

## Model

| member | source | states |
|---|---|---|
| Sequences.CardElems | jobmatcher/utils/utils.py:59-60 | `set(xs)` has at most `len(xs)` elements, and exactly that many iff `xs` has no duplicates |
| Strings.Contains | jobmatcher/utils/utils.py:91 | `sub in s` holds iff some index of `s` starts an occurrence of `sub` |
| Strings.HasWholeWord | jobmatcher/utils/utils.py:76 | the `\b`-delimited case-insensitive search succeeds iff some index has a boundary before it, the word (ignoring case) at it, and a boundary after it |
| Strings.WholeWordIgnoresCase | jobmatcher/utils/utils.py:76 | IGNORECASE: texts equal once lower-cased contain the same whole words |
| Strings.TitleCaseWord | jobmatcher/utils/utils.py:114 | `str.title()` of a lower-case word upper-cases its first letter and keeps the rest |
| Strings.LowerStr | jobmatcher/utils/utils.py:91 | `s.lower()`: same length, each character lower-cased, no upper-case letter left |
| Strings.TitleCase | jobmatcher/utils/utils.py:114 | `s.title()`: same length; a character after a non-letter (or first) is not lower-case, one after a letter is not upper-case |
| Strings.Join | jobmatcher/utils/utils.py:155 | `sep.join(xs)`: empty for no items, the item itself for one, and always starts with the first item |
| Strings.EndsWith | jobmatcher/utils/utils.py:126 | `s.endswith(suffix)` holds iff `s` is some string followed by `suffix` |
| Strings.Strip | jobmatcher/match/views.py:123 | `str.strip()` returns a slice of the input that starts and ends with a non-blank character, and removes only blanks |
| Strings.Split | jobmatcher/match/views.py:123 | `str.split(sep)` yields at least one piece, and no piece contains the separator |
| Strings.JoinSplit | jobmatcher/match/views.py:123 | joining the pieces of `s.split(sep)` with `sep` gives back `s` |
| Strings.SplitJoin | jobmatcher/match/views.py:123 | splitting a join of separator-free pieces gives back the pieces |
| Extractors.WordsFound | jobmatcher/utils/utils.py:148-151 | the vocabulary filter: a keyword is kept iff it is in the vocabulary and occurs as a whole word; the result keeps vocabulary order (a subsequence) |
| Extractors.WordsFoundEmpty | jobmatcher/utils/utils.py:154-157 | the filter is empty iff no keyword occurs as a whole word |
| Extractors.WordsFoundNoDuplicates | jobmatcher/utils/utils.py:75-77 | filtering a duplicate-free vocabulary gives a duplicate-free list |
| Extractors.WordsFoundIgnoresCase | jobmatcher/utils/utils.py:76 | texts equal up to case give the same keywords |
| Extractors.SubstringsFound | jobmatcher/utils/utils.py:172-174 | the substring filter keeps a keyword iff it is a substring of the text; it is empty iff no keyword is |
| Extractors.SkillKeywordsDistinct | jobmatcher/utils/utils.py:68-71 | the 20-term skill vocabulary has no duplicates |
| Extractors.ExtractSkills | jobmatcher/utils/utils.py:63-80 | the result is the vocabulary filter of the text. A term is in it iff it occurs as a whole word, ignoring case. It is in vocabulary order with no duplicates. It is a function of the text, so two runs agree |
| Extractors.Education | jobmatcher/utils/utils.py:87-101 | the priority label; it is one of the five labels, and "Not specified" iff no education keyword is a substring |
| Extractors.EducationLabels | jobmatcher/utils/utils.py:87-101 | one of five labels. "Not specified" iff none of the six keywords is a substring. Otherwise bachelor, then master, then phd take priority, each an iff, and the generic label covers the rest |
| Extractors.ExtractEducation | jobmatcher/utils/utils.py:82-101 | the early-return scan returns the label the priority rule defines |
| Extractors.ExtractTitle | jobmatcher/utils/utils.py:103-117 | the sentinel iff no title keyword is a substring of the lower-cased text; otherwise the title-cased first keyword found, in list order |
| Extractors.TitleCaseOfKeywords | jobmatcher/utils/utils.py:109-114 | `keyword.title()` for each of the eight keywords is the capitalised word ("Developer", …, "Analyst") |
| Extractors.TitleCaseKeyword | jobmatcher/utils/utils.py:114 | `keyword.title()` for one given keyword is its capitalised label |
| Extractors.ResponsibilityKeywordsLowercase | jobmatcher/utils/utils.py:142-145 | every responsibility keyword is non-empty lower-case letters and blanks, with a letter at both ends; none holds a comma or a capital |
| Extractors.FoundPhrases | jobmatcher/utils/utils.py:148-151 | every keyword `extract_responsibilities` collects is such a lower-case phrase |
| Extractors.DescriptorSentinel | jobmatcher/utils/utils.py:154-157 | joining a non-empty list of lower-case phrases never yields "Not specified" |
| Extractors.Responsibilities | jobmatcher/utils/utils.py:148-157 | the descriptor: the whole-word keywords in vocabulary order joined by ", ", and "Not specified" iff no responsibility keyword occurs as a whole word |
| Extractors.TestNotFoundInTesting | jobmatcher/utils/utils.py:150 | "test" is not a whole word of "testing", but is one of "unit test" |
| Extractors.ExtractResponsibilities | jobmatcher/utils/utils.py:136-157 | the result is the keywords found as whole words, in vocabulary order, joined by ", ", or the sentinel when none is found |
| Extractors.RunEnd | jobmatcher/utils/utils.py:180 | the greedy `\d+[\+\d]*` run: every character up to the end is a digit or '+', and the next one is not |
| Extractors.SpaceEnd | jobmatcher/utils/utils.py:180 | the greedy `\s*` run: blanks up to the end, then a non-blank |
| Extractors.YearsGroupAt | jobmatcher/utils/utils.py:180 | group 1 of a match at a position is non-empty, starts with a digit, and holds only digits and '+' |
| Extractors.RegexMatchIsGreedy | jobmatcher/utils/utils.py:180 | every match of the years pattern (digit-led group of digits and '+', blanks, then "year", "yrs" or "experience", ignoring case) at a position, with any split of group and blanks, is the greedy one, and its group is what `YearsGroupAt` returns |
| Extractors.YearsGroupIsRegexMatch | jobmatcher/utils/utils.py:180 | conversely, a group `YearsGroupAt` returns comes from a match of the pattern at that position |
| Extractors.YearsFigureIsRegexSearch | jobmatcher/utils/utils.py:180-181 | `YearsFigure` finds a figure iff the pattern matches somewhere in the text |
| Extractors.SearchYears | jobmatcher/utils/utils.py:180 | `re.search` finds the leftmost position where the pattern matches, and no position before it matches |
| Extractors.YearsFigure | jobmatcher/utils/utils.py:180-181 | a figure is found iff the pattern matches at some position |
| Extractors.Experience | jobmatcher/utils/utils.py:165-184 | the descriptor: the keyword gate, then the first years figure plus " years"; it is the sentinel or ends in " years" |
| Extractors.ExperienceGate | jobmatcher/utils/utils.py:172-177 | with none of the ten keywords present, the result is "Not specified", whatever years pattern the text holds |
| Extractors.ExperienceShape | jobmatcher/utils/utils.py:180-184 | a result other than the sentinel starts with a digit, continues with digits and '+', and ends in " years" |
| Extractors.ExperienceFound | jobmatcher/utils/utils.py:172-184 | the result is not the sentinel iff some keyword is present and the years pattern matches |
| Extractors.ExtractExperience | jobmatcher/utils/utils.py:160-184 | the keyword-collecting loop and the regex step compute the gated first years figure plus " years", or the sentinel |
| Scoring.SkillMatch | jobmatcher/utils/utils.py:52-61 | 0 for an empty job list whatever the resume holds; always in [0, 100]; 0 iff no job skill is in the resume; 100 iff the job list is non-empty, duplicate-free and fully covered |
| Scoring.CoveredSkills | jobmatcher/utils/utils.py:59-60 | the number of distinct matched skills is at most `len(job_skills)`, is 0 iff nothing overlaps, and equals it iff the job list is duplicate-free and covered |
| Scoring.ResponsibilitiesSimilarity | jobmatcher/utils/utils.py:37-43 | the responsibilities term: 0 when either string is empty, otherwise their similarity times 100, hence within [0, 100] when the similarity is within [0, 1] |
| Scoring.AnalyzeMatch | jobmatcher/utils/utils.py:22-49 | the skill term contributes between 0 and 30 points, and 0 exactly when nothing overlaps. With either responsibilities string empty, the score is 50 × text similarity + 0.3 × skill match |
| Scoring.ScoreInRange | jobmatcher/utils/utils.py:47 | the score lies in [0, 100] when both similarities lie in [0, 1] |
| Scoring.ScoreNotClamped | jobmatcher/utils/utils.py:32-47 | no clamp: with both responsibility strings non-empty, similarity -1 and no skills, the score is -70 |
| Scoring.ScoreIgnoresResponsibilitySimilarity | jobmatcher/utils/utils.py:38-43 | with either responsibilities string empty, their similarity does not affect the score |
| Scoring.SkillMatchExample | jobmatcher/utils/utils.py:56-61 | python and aws required, python and java offered: 50 |
| Loader.ExtractTextFromFile | jobmatcher/utils/utils.py:119-133 | a name ending in ".pdf" gives the pages' texts concatenated in order; any other name is the unsupported-file-type error |
| Loader.Concat | jobmatcher/utils/utils.py:128-130 | the text after appending every page in order: empty for no pages, and it ends with the last page |
| Loader.ConcatIsJoin | jobmatcher/utils/utils.py:128-130 | appending page texts one by one equals joining them with the empty separator |
| Loader.UpperCasePdfRefused | jobmatcher/utils/utils.py:126 | the suffix test is case-sensitive: "resume.PDF" is refused, "resume.pdf" accepted |
| MatchView.Compare | jobmatcher/match/views.py:113-116 | matched and missing partition `set(job)`; matched ⊆ `set(resume)`; missing is disjoint from `set(resume)` |
| MatchView.ParseTokens | jobmatcher/match/views.py:123 | comma-free pieces parse to tokens: non-empty, stripped, lower-case, comma-free |
| MatchView.StripLowerIsToken | jobmatcher/match/views.py:123 | a comma-free piece that does not strip to nothing strips and lower-cases to such a token |
| MatchView.ParseResponsibilities | jobmatcher/match/views.py:120-129 | "Not specified" parses to the empty list; every parsed item is a token |
| MatchView.SplitJoinedList | jobmatcher/match/views.py:123 | splitting `", ".join(xs)` on ',' yields the first item and then every other item behind one blank |
| MatchView.ParseJoined | jobmatcher/match/views.py:123 | parsing `", ".join(xs)` gives back `xs`, for tokens `xs` |
| MatchView.DescriptorRoundTrip | jobmatcher/match/views.py:120-129 | parsing the descriptor of a list of lower-case phrases gives back that list, the empty list included |
| MatchView.ResponsibilitiesRoundTrip | jobmatcher/match/views.py:120-129 | parsing the output of `extract_responsibilities` gives back exactly the keywords it found, in vocabulary order |
| MatchView.EducationMatch | jobmatcher/match/views.py:137 | `job_education.lower() == resume_education.lower()`: equal values match, and matching values have equal length |
| MatchView.EducationMatchIsCaseInsensitiveEquality | jobmatcher/match/views.py:133-137 | the education flag is reflexive, symmetric, and unchanged by recasing either side |
| MatchView.EducationMatchOfLabels | jobmatcher/match/views.py:137 | on labels from `extract_education`, the case-insensitive comparison is plain equality |
| MatchView.MatchPost | jobmatcher/match/views.py:97-152 | NotFound iff either record is missing. Otherwise the record carries the request ids and the weighted score of (description, resume experience, skill lists, raw responsibility strings). It also carries the skill and responsibility partitions, both education values and their case-insensitive match, and the placeholder feedback |
| MatchView.MatchedResponsibilitiesOfExtracted | jobmatcher/match/views.py:118-131 | for descriptors made by `extract_responsibilities`, matched responsibilities are the keywords found in both texts and missing ones those found only in the job text |
| MatchView.SkillOverlapExample | jobmatcher/match/views.py:113-116 | python and aws required, python and java offered: python matched, aws missing |

## Left out

- Unicode. Python's `lower`, `strip`, `title`, `\w`, `\s`, `\d` and IGNORECASE follow Unicode rules. The model restricts all of them to ASCII:
  - word characters are letters, digits and `_`;
  - blanks are code points 9-13 and 28-32;
  - digits are 0-9;
  - only A-Z change case.
- The sentence-embedding model and cosine similarity (jobmatcher/utils/utils.py:20, 30-32, 39-41) are a floating-point library. They are a caller-supplied `Similarity` function, and nothing is assumed about its values.
- Floating point. Scores are `real`, with no rounding, and `float(match_score)` is the identity.
- PDF decoding by the fitz library (jobmatcher/utils/utils.py:127-131). The per-page texts are an input of `Loader.ExtractTextFromFile`.
- MongoDB. The `find_one` lookups are `Option` inputs of `MatchView.MatchPost`. The `insert_one` of the match record and the `_id` it adds are left out.
- The `ObjectId` parse failure that answers HTTP 400 (jobmatcher/match/views.py:91-95) is left out. It depends on the bson library's id format.
- HTTP plumbing is left out: reading the request body, status codes and serializers.
- JWT decoding (jobmatcher/utils/utils.py:10-17) is a wrapper around a library.
- The upload views (jobmatcher/match/views.py:17-83) only call the modelled extractors and store the results.
- Records are modelled with every field present. The `.get(key, default)` defaults for documents missing a field are not modelled.
- MatchView.MatchPost: matched and missing skills and responsibilities are sets. The source turns them into lists whose order Python leaves unspecified.
- The `ValueError("Unsupported file type")` exception becomes the `UnsupportedFileType` error value of `Loader.ExtractTextFromFile`; exceptions are not modelled.
