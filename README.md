# Job-Portal recommender core, in Dafny

This project models the deterministic text and ranking logic of the job
recommender in `model.py`. That logic runs once a résumé or a model's reply is
available as text:

- **Free-text course parser** (`JobRecommendationSystem._extract_courses_from_text`).
  - It cuts a reply into sections at the header lines. A header line is one whose
    stripped text starts with `1.`, `2.`, `3.`, `Course 1:`, `Course 2:` or `Course 3:`.
  - It reads five course fields from each section through an if/elif keyword
    priority chain. Each field takes the stripped text after the first `:`.
  - It keeps at most three courses.
  - Module `CourseParser`. The three loops are the methods `SplitIntoSections`,
    `ParseSections` and `ParseSection`, and each is proved equal to a specification
    function.
- **Keyword fallback recommender** (`FallbackSystem.process_resume_file`, after the
  text has been extracted from the file).
  - Each of five jobs is scored by the occurrences of its terms in the lower-cased
    résumé.
  - The jobs are ranked by score, highest first, and equal scores keep the table order.
  - The first three each get a confidence clamped to [0.5, 0.95] and one templated
    "Fundamentals" course.
  - The résumé preview is cut at 500 characters, with an ellipsis after it.
  - Module `FallbackRecommender`. The scoring and recommendation loops are the methods
    `ScoreJobs` and `RecommendWith`. Confidences are integer hundredths, which is exact
    because the score is a natural number.
- **JSON candidate of a reply** (the bracket-slice step of `get_training_courses`).
  - The candidate runs from the first `[` to the last `]`.
  - When it exists and decodes, it is the answer. Otherwise the free-text parser reads
    the whole reply.
  - Module `TrainingCourses`. The JSON decoder is a parameter.
- **Job-title naming** (the default mapping `{str(i): "Job Category {i+1}"}` and the
  per-index fallback of `job_titles.get`). Module `JobTitles`.

The Python string built-ins these rely on are modelled with Python's semantics in
module `PyStrings`: `strip`, `lower`, `in`, `count`, `split`, `join`, `find`,
`rfind` and `str` of an integer. `Wrappers` holds the `Option` type.

Some consequences of the source as written are stated as lemmas. A line that
mentions "course" or "name" can only ever set the course name, for example
"Description: this course covers …". A bare link line `https://…` that mentions
none of "course", "name", "provider" or "description" is routed to the url field,
and stores its url without the `https:`, because the line is split at its first
colon. A link such as `https://www.coursera.org/learn/…` contains "course", so it
sets the course name instead.

## Model

| member | source | states |
|---|---|---|
| CourseParser.ExtractCourses | model.py:248-310 | the result is the course read from each section, in section order, cut to the first three; there are exactly min(3, number of header lines) of them |
| CourseParser.CourseCount | model.py:261-310 | the parser returns exactly min(3, number of header lines) courses, so never more than three |
| CourseParser.ExtractedCourses | model.py:261-310 | the specification of the parser: min(3, number of sections) courses, the k-th being the course read from the k-th section |
| CourseParser.IsHeader | model.py:265 | a header line has at least the two characters of its marker |
| CourseParser.SplitIntoSections | model.py:259-273 | the section loop yields one text per header line: the header followed by the non-header lines up to the next header, joined with "\n"; lines before the first header are dropped |
| CourseParser.SectionLinesShape | model.py:264-273 | there is one section per header line, each opens with its header and holds no other, and the sections laid end to end are exactly the input lines from the first header on |
| CourseParser.SectionCount | model.py:264-273 | there are exactly as many sections as header lines |
| CourseParser.SectionsWellFormed | model.py:265-270 | every section opens with a header line and holds no other header line |
| CourseParser.SectionsFlatten | model.py:264-273 | the sections laid end to end are exactly the input lines from the first header on |
| CourseParser.LoopStateSnoc | model.py:264-270 | one turn of the section loop takes the (sections, current section) pair for the lines read so far to the pair for one more line |
| CourseParser.LoopStateFinish | model.py:272-273 | appending the open section after the loop gives exactly the sections |
| CourseParser.FirstHeaderSpec | model.py:264-270 | every line before the first header index is not a header, and the line at that index is one |
| CourseParser.SectionsRejoin | model.py:264-273 | joining the sections with "\n" gives back exactly the input lines from the first header on, joined with "\n" |
| CourseParser.SectionTextSplitsBack | model.py:261-285 | for lines cut from a text, each section text starts with its header line, and splitting it at "\n" gives back exactly the lines phase 1 put in it |
| CourseParser.SectionTextNonEmpty | model.py:265-273 | a section opened by a header is non-empty, so `if current_section` holds from the first header on |
| CourseParser.ParseSections | model.py:276-308 | the loop over the sections yields the course read from each section, in section order |
| CourseParser.ParseSection | model.py:276-308 | the line loop over a section gives exactly the course read from it, by "last assignment wins" over its lines from the defaults ("Unknown Course", "Unknown Provider", the whole section, "", "") |
| CourseParser.CourseOf | model.py:276-306 | each field of a section's course is either its default or the value written by one of the section's lines that assigns it |
| CourseParser.Route | model.py:287-304 | the field a line is routed to follows the keyword priority: course name iff "course" or "name" occurs; provider iff neither does and "provider" does; and so on down to relevance iff only "relevan" occurs; no field otherwise |
| CourseParser.Assignment | model.py:286-306 | a line writes a value exactly when it is routed to a field and its stripped text holds a ':'; the field written is the routed one |
| CourseParser.AssignedValueFollowsFirstColon | model.py:286-306 | the value written is the stripped text after the first ':' of the stripped line |
| CourseParser.ApplyLine | model.py:285-306 | one line through the priority chain "course"/"name", "provider", "description", "url"/"http", "relevan" on the lower-cased stripped line; only the routed field changes, to the stripped text after the first ':' |
| CourseParser.CourseFromLinesSnoc | model.py:285-306 | reading one more line updates the record read so far exactly as that line's assignment says |
| CourseParser.NameLineSetsOnlyName | model.py:287-290 | a line containing "course" or "name" leaves every field except the course name unchanged, whatever else it mentions |
| CourseParser.LineWithoutColonChangesNothing | model.py:288-306 | a line with no ':' changes no field |
| CourseParser.BareLinkLosesScheme | model.py:299-302 | a line `https:<rest>` routed to the url field sets the url to the stripped `<rest>`, without the scheme |
| CourseParser.LastAssignmentWins | model.py:285-306 | a field assigned by a line keeps that line's value when no later line assigns it |
| CourseParser.UnassignedFieldKeepsDefault | model.py:277-283 | a field no line assigns keeps its default, so the description is then the whole section text |
| TrainingCourses.JsonCandidate | model.py:215-218 | there is a JSON candidate exactly when the reply contains both '[' and ']' |
| TrainingCourses.CandidateSpansOuterBrackets | model.py:215-218 | with the first '[' at i and the last ']' at j, the candidate is the reply from i to j inclusive, or "" when j < i |
| TrainingCourses.CoursesFromReply | model.py:213-223 | the answer is the decoded candidate when a candidate exists and decodes; otherwise it is the free-text parser's result on the whole reply, in particular when the last ']' comes before the first '[' (the candidate is then "", which the decoder rejects) |
| JobTitles.DefaultTitles | model.py:72 | the default mapping holds the key str(i) exactly for i < n and no other key, so it has exactly n entries, and maps str(i) to "Job Category {i+1}" |
| JobTitles.CategoryName | model.py:72 | the name of index i is "Job Category " followed by decimal digits that read back as i + 1 |
| JobTitles.TitleFor | model.py:155 | the title of an index is the mapping's entry for str(idx) when there is one, and "Job Category {idx+1}" otherwise |
| JobTitles.CategoryNamesDistinct | model.py:72 | different indices get different category names |
| JobTitles.DefaultTitleAgreesWithFallback | model.py:155 | with the default mapping, the title of every index is "Job Category {idx+1}", whether the mapping holds it or the fallback supplies it |
| FallbackRecommender.ScoreJobs | model.py:477-482 | the scores are every job of the table in table order, each with the sum over its terms of the non-overlapping occurrences of the lower-cased term in the lower-cased résumé |
| FallbackRecommender.TermScore | model.py:481 | a job's score is at least the number of occurrences of each one of its terms |
| FallbackRecommender.Scores | model.py:477-482 | there is one score per job of the table, with the jobs in table order |
| FallbackRecommender.TermScorePositiveIffSomeTermOccurs | model.py:481 | a job scores above zero exactly when one of its lower-cased terms occurs in the lower-cased résumé |
| FallbackRecommender.RankByScore | model.py:485 | the ranking is a permutation of the scores |
| FallbackRecommender.RankDescending | model.py:485 | the ranking is in non-increasing score order |
| FallbackRecommender.InsertDescending | model.py:485 | inserting an entry into a ranking keeps it in non-increasing score order |
| FallbackRecommender.RankIsStable | model.py:485 | the entries with any one score appear in the ranking in the same order as in the table |
| FallbackRecommender.TiesKeepTableOrder | model.py:485 | when all scores are equal the ranking is the table order |
| FallbackRecommender.ConfidenceHundredths | model.py:491 | the confidence lies between 0.50 and 0.95 |
| FallbackRecommender.ConfidenceSteps | model.py:491 | the confidence is 0.5 + score/10 for scores up to 4 and 0.95 from 5 on |
| FallbackRecommender.ConfidenceMonotone | model.py:491 | a higher score never gives a lower confidence |
| FallbackRecommender.Preview | model.py:508 | the preview is the text when it has at most 500 characters, and otherwise its first 500 characters followed by "..."; it never exceeds 503 characters |
| FallbackRecommender.FundamentalsCourse | model.py:495-502 | the fallback course of a job is "{job} Fundamentals" from "Coursera" |
| FallbackRecommender.FundamentalsCourseInjective | model.py:495-502 | different jobs get different fallback courses |
| FallbackRecommender.RecommendationFor | model.py:489-503 | a recommendation names its job, has a confidence in [0.5, 0.95] and carries exactly that job's Fundamentals course |
| FallbackRecommender.FallbackResultOf | model.py:485-510 | the result holds the résumé preview and min(3, number of jobs) recommendations |
| FallbackRecommender.RecommendWith | model.py:477-510 | for a keyword table with distinct job names, the result is the preview and one recommendation for each of the first three ranked jobs |
| FallbackRecommender.ProcessResumeText | model.py:465-510 | the result is the preview and one recommendation for each of the first three ranked jobs |
| FallbackRecommender.FallbackShape | model.py:487-505 | there are min(3, number of jobs) recommendations; each names a job of the table with its own score's confidence in [0.5, 0.95] and one course "{job} Fundamentals" from "Coursera" |
| FallbackRecommender.FallbackConfidenceOrder | model.py:485-495 | the recommendations come best first: their confidences never increase |
| FallbackRecommender.TopThreeOutscoreTheRest | model.py:485-489 | no job left out of the top three scores above a recommended one |
| FallbackRecommender.NoMatchesGivesTableOrder | model.py:477-505 | when no term occurs there are min(3, number of jobs) recommendations: the first jobs of the table in table order, each at confidence 0.5 with its Fundamentals course |
| FallbackRecommender.KeywordTermsNonEmpty | model.py:469-475 | the keyword table has five jobs and none of its terms is empty |
| FallbackRecommender.FallbackGivesThree | model.py:469-489 | with the five-job table there are always exactly three recommendations |
| FallbackRecommender.EmptyResumeScoresNothing | model.py:469-482 | on an empty résumé every job scores zero |
| FallbackRecommender.FirstThreeJobs | model.py:469-472 | the table has five jobs, and its first three are Data Scientist, Software Engineer and Product Manager |
| FallbackRecommender.NoMatchRecommendsFirstThreeJobs | model.py:465-505 | a résumé with none of the terms gets exactly the first three jobs of the table, in table order, each at 0.5 with its Fundamentals course |
| PyStrings.CountPositiveIffContains | model.py:481 | `count(sub)` of a non-empty sub is positive exactly when sub occurs in the text |
| PyStrings.Count | model.py:481 | the non-overlapping occurrences of a non-empty sub fit in the text: count × len(sub) ≤ len(text) |
| PyStrings.Contains | model.py:287 | a string only contains subs no longer than itself |
| PyStrings.ContainsSpec | model.py:287 | `sub in s` holds exactly when sub occurs at some index of s |
| PyStrings.Strip | model.py:286 | `strip()` never lengthens the text |
| PyStrings.Lower | model.py:287 | `lower()` keeps the length |
| PyStrings.LowerSpec | model.py:287 | `lower()` leaves no capital letter, maps each capital to its small letter and keeps every other character |
| PyStrings.Split | model.py:261 | `split(sep)` always yields at least one piece |
| PyStrings.StripSpec | model.py:286 | `strip()` returns a slice of the line with only whitespace around it, and the result neither starts nor ends with whitespace |
| PyStrings.TrimStartSpec | model.py:265 | the leading half of `strip()` removes exactly the leading whitespace |
| PyStrings.TrimEndSpec | model.py:265 | the trailing half of `strip()` removes exactly the trailing whitespace |
| PyStrings.SplitPiecesLackSeparator | model.py:261 | no piece of `split(sep)` contains the separator |
| PyStrings.JoinSplit | model.py:261 | joining the pieces of `split(sep)` with the separator gives back the text |
| PyStrings.SplitJoin | model.py:285 | splitting a join of separator-free pieces gives back the pieces |
| PyStrings.JoinStartsWithFirst | model.py:268-270 | a join of pieces starts with its first piece |
| PyStrings.Find | model.py:215 | `find` returns the first index holding the character, and -1 exactly when it does not occur |
| PyStrings.RFind | model.py:216 | `rfind` returns the last index holding the character, and -1 exactly when it does not occur |
| PyStrings.ParseDecimalString | model.py:72 | `int(str(n)) == n` for every natural n |
| PyStrings.DecimalStringInjective | model.py:72 | different numbers have different decimal strings, so the keys str(i) are distinct |

## Left out

- Loading and running the TensorFlow/Keras model, and `np.argsort` over its float predictions: foreign numerics.
- Loading the pickled vectorizer and its TF-IDF transform: opaque library calls.
- Text extraction from PDF, DOCX and TXT files, and the extension dispatch: file I/O. The fallback is modelled from the extracted text on. An extraction error message reaches it as résumé text, like any other text.
- The Gemini HTTP request, its status check, and the "API Error" and "Exception" records: network I/O.
- `json.loads`: a library parser. It is the `decode` parameter of `CoursesFromReply`, which returns course records or nothing. A payload that decodes to something other than a list of course records is not modelled.
- Reading the job-title mapping from `job_titles.json`, and the size `model.output_shape[1]`: the mapping is built for a given number of outputs `n`.
- Environment variables and the API key lookup: process environment.
- The interactive command-line driver in `__main__`: console and filesystem.
- Lower: `str.lower()` is modelled on the ASCII letters only. Python also lower-cases other Unicode letters.
- ConfidenceHundredths: the float confidence `round(…, 2)` is modelled as integer hundredths. For a natural score the two agree exactly.
- The course and recommendation dicts are datatype values. Each is a fresh local that is filled in before it is appended, so nothing observes its updates in place.
- The `job_scores` dict is a sequence of (job, score) pairs in insertion order. The table's job names are distinct, so the two agree.
- RecommendWith: the keyword table is a list of pairs. A repeated job name, which the source's dict literal would merge into one entry, stays twice in the list, so the model agrees with the source only on tables with distinct job names, such as the source's five-job table.
- CoursesFromReply: requires that `decode` rejects the empty text, as `json.loads("")` does; the free-text path after a reversed bracket pair depends on it.
