/**
 * The keyword fallback recommender (`FallbackSystem.process_resume_file`,
 * used when the trained model cannot be loaded): every job of a fixed table
 * is scored by how often its terms occur in the lower-cased résumé, the jobs
 * are ranked by score, highest first and ties in table order, and the top
 * three each get a confidence and one templated course.
 */
module FallbackRecommender {
  import opened PyStrings
  import opened CourseParser

  /** The jobs and the terms that score them, in the order of the table. */
  const Keywords: seq<(string, seq<string>)> := [
    ("Data Scientist", ["data science", "machine learning", "python", "statistics", "analytics", "data analysis", "pandas", "numpy", "sklearn"]),
    ("Software Engineer", ["software", "programming", "development", "java", "python", "javascript", "code", "algorithm", "api"]),
    ("Product Manager", ["product", "management", "strategy", "roadmap", "agile", "scrum", "user experience", "prioritization"]),
    ("UX Designer", ["design", "user experience", "ux", "ui", "wireframe", "prototype", "usability", "sketch", "figma"]),
    ("DevOps Engineer", ["devops", "ci/cd", "pipeline", "aws", "cloud", "docker", "kubernetes", "infrastructure"])
  ]

  /** A job title with its keyword score. */
  type Scored = (string, nat)

  /** One recommendation; the confidence is in hundredths (0.87 is 87). */
  datatype Recommendation = Recommendation(jobTitle: string, confidence: nat, trainingCourses: seq<Course>)

  /** The fallback's answer: the résumé preview and the recommendations. */
  datatype FallbackResult = FallbackResult(resumeText: string, recommendations: seq<Recommendation>)

  function Max(a: int, b: int): int { if a >= b then a else b }

  // ---------------------------------------------------------------------------
  // Scoring

  /** `sum(resume_text_lower.count(term.lower()) for term in terms)` */
  function TermScore(textLower: string, terms: seq<string>): (r: nat)
    ensures forall k :: 0 <= k < |terms| ==> Count(textLower, Lower(terms[k])) <= r
    decreases |terms|
  {
    if terms == [] then 0
    else
      assert forall k :: 1 <= k < |terms| ==> terms[k] == terms[1..][k - 1];
      Count(textLower, Lower(terms[0])) + TermScore(textLower, terms[1..])
  }

  /** A job scores above zero exactly when one of its terms occurs in the text. */
  lemma {:induction false} TermScorePositiveIffSomeTermOccurs(textLower: string, terms: seq<string>)
    ensures TermScore(textLower, terms) > 0 <==>
      exists k :: 0 <= k < |terms| && Contains(textLower, Lower(terms[k]))
    decreases |terms|
  {
    if terms != [] {
      CountPositiveIffContains(textLower, Lower(terms[0]));
      TermScorePositiveIffSomeTermOccurs(textLower, terms[1..]);
      assert forall k :: 1 <= k < |terms| ==> terms[k] == terms[1..][k - 1];
    }
  }

  /** The `job_scores` dict: every job of the table with its score, in table order. */
  function Scores(table: seq<(string, seq<string>)>, resumeText: string): (r: seq<Scored>)
    ensures |r| == |table|
    ensures forall k :: 0 <= k < |r| ==> r[k].0 == table[k].0
  {
    var low := Lower(resumeText);
    seq(|table|, k requires 0 <= k < |table| => (table[k].0, TermScore(low, table[k].1)))
  }

  // ---------------------------------------------------------------------------
  // Ranking: `sorted(job_scores.items(), key=lambda x: x[1], reverse=True)`

  /** Scores never increase along the sequence. */
  predicate Descending(s: seq<Scored>) {
    forall i, j :: 0 <= i < j < |s| ==> s[i].1 >= s[j].1
  }

  /** Puts `x` before the first entry whose score is not above its own. */
  function Insert(x: Scored, s: seq<Scored>): (r: seq<Scored>)
    ensures |r| == |s| + 1
    ensures multiset(r) == multiset(s) + multiset{x}
    decreases |s|
  {
    if s == [] || s[0].1 <= x.1 then [x] + s
    else
      assert s == [s[0]] + s[1..];
      [s[0]] + Insert(x, s[1..])
  }

  /** The entry `Insert` puts first. */
  lemma InsertHead(x: Scored, s: seq<Scored>)
    ensures Insert(x, s)[0] == x || (s != [] && Insert(x, s)[0] == s[0])
  {
  }

  /** Inserting into a descending sequence keeps it descending. */
  lemma {:induction false} InsertDescending(x: Scored, s: seq<Scored>)
    requires Descending(s)
    ensures Descending(Insert(x, s))
    decreases |s|
  {
    if s == [] || s[0].1 <= x.1 {
      var r := [x] + s;
      forall a, b | 0 <= a < b < |r|
        ensures r[a].1 >= r[b].1
      {
        assert r[b] == s[b - 1];
        if a > 0 {
          assert r[a] == s[a - 1];
        } else {
          assert s[0].1 >= s[b - 1].1;
        }
      }
    } else {
      var rest := Insert(x, s[1..]);
      InsertDescending(x, s[1..]);
      InsertHead(x, s[1..]);
      assert rest[0].1 <= s[0].1 by {
        if rest[0] != x {
          assert rest[0] == s[1];
        }
      }
      var r := [s[0]] + rest;
      forall a, b | 0 <= a < b < |r|
        ensures r[a].1 >= r[b].1
      {
        assert r[b] == rest[b - 1];
        if a > 0 {
          assert r[a] == rest[a - 1];
        } else {
          assert rest[0].1 >= rest[b - 1].1;
        }
      }
    }
  }

  /** A stable sort by score, highest first (see RankDescending). */
  function RankByScore(s: seq<Scored>): (r: seq<Scored>)
    ensures multiset(r) == multiset(s)
    ensures |r| == |s|
    decreases |s|
  {
    if s == [] then []
    else
      assert s == [s[0]] + s[1..];
      Insert(s[0], RankByScore(s[1..]))
  }

  /** The ranking puts the scores in non-increasing order. */
  lemma {:induction false} RankDescending(s: seq<Scored>)
    ensures Descending(RankByScore(s))
    decreases |s|
  {
    if s != [] {
      RankDescending(s[1..]);
      InsertDescending(s[0], RankByScore(s[1..]));
    }
  }

  /** The entries that have score `v`, in order. */
  function WithScore(s: seq<Scored>, v: nat): seq<Scored>
    decreases |s|
  {
    if s == [] then [] else (if s[0].1 == v then [s[0]] else []) + WithScore(s[1..], v)
  }

  lemma {:induction false} InsertKeepsTies(x: Scored, s: seq<Scored>, v: nat)
    ensures WithScore(Insert(x, s), v) == (if x.1 == v then [x] else []) + WithScore(s, v)
    decreases |s|
  {
    if s == [] || s[0].1 <= x.1 {
      assert ([x] + s)[1..] == s;
    } else {
      InsertKeepsTies(x, s[1..], v);
      assert ([s[0]] + Insert(x, s[1..]))[1..] == Insert(x, s[1..]);
    }
  }

  /** The ranking is stable: the jobs with any one score keep their table order. */
  lemma {:induction false} RankIsStable(s: seq<Scored>, v: nat)
    ensures WithScore(RankByScore(s), v) == WithScore(s, v)
    decreases |s|
  {
    if s != [] {
      RankIsStable(s[1..], v);
      InsertKeepsTies(s[0], RankByScore(s[1..]), v);
    }
  }

  /** When every job has the same score the ranking is the table order. */
  lemma TiesKeepTableOrder(s: seq<Scored>, v: nat)
    requires forall k :: 0 <= k < |s| ==> s[k].1 == v
    ensures RankByScore(s) == s
  {
    AllOfScore(s, v);
    var r := RankByScore(s);
    forall k | 0 <= k < |r|
      ensures r[k].1 == v
    {
      assert r[k] in multiset(s);
    }
    AllOfScore(r, v);
    RankIsStable(s, v);
  }

  lemma {:induction false} AllOfScore(s: seq<Scored>, v: nat)
    requires forall k :: 0 <= k < |s| ==> s[k].1 == v
    ensures WithScore(s, v) == s
    decreases |s|
  {
    if s != [] {
      AllOfScore(s[1..], v);
    }
  }

  // ---------------------------------------------------------------------------
  // Confidence, course template, preview

  /** `round(min(0.95, max(0.5, 0.5 + score / 10)), 2)`, in hundredths. */
  function ConfidenceHundredths(score: nat): (c: nat)
    ensures 50 <= c <= 95
  {
    Min(95, Max(50, 50 + 10 * score))
  }

  /** The confidence rises by a tenth per occurrence from one half, and stays at 0.95 from a score of five. */
  lemma ConfidenceSteps(score: nat)
    ensures score <= 4 ==> ConfidenceHundredths(score) == 50 + 10 * score
    ensures score >= 5 ==> ConfidenceHundredths(score) == 95
  {
  }

  /** A higher score never gives a lower confidence. */
  lemma ConfidenceMonotone(a: nat, b: nat)
    requires a <= b
    ensures ConfidenceHundredths(a) <= ConfidenceHundredths(b)
  {
  }

  /** The one course each fallback recommendation carries. */
  function FundamentalsCourse(job: string): (c: Course)
    ensures c.courseName == job + " Fundamentals" && c.provider == "Coursera"
  {
    Course(job + " Fundamentals", "Coursera", "Comprehensive training for " + job + " roles",
           "https://www.coursera.org", "Core professional skills")
  }

  /** Distinct jobs get distinct fallback courses. */
  lemma FundamentalsCourseInjective(a: string, b: string)
    requires FundamentalsCourse(a) == FundamentalsCourse(b)
    ensures a == b
  {
    var na, nb := a + " Fundamentals", b + " Fundamentals";
    assert |a| == |b|;
    assert a == na[..|a|] && b == nb[..|b|];
  }

  function RecommendationFor(p: Scored): (r: Recommendation)
    ensures r.jobTitle == p.0 && 50 <= r.confidence <= 95
    ensures r.trainingCourses == [FundamentalsCourse(p.0)]
  {
    Recommendation(p.0, ConfidenceHundredths(p.1), [FundamentalsCourse(p.0)])
  }

  /** `resume_text[:500] + ("..." if len(resume_text) > 500 else "")` */
  function Preview(text: string): (r: string)
    ensures |r| <= 503
    ensures StartsWith(r, text[..Min(500, |text|)])
    ensures |text| <= 500 ==> r == text
    ensures |text| > 500 ==> |r| == 503 && r[500..] == "..."
  {
    text[..Min(500, |text|)] + (if |text| > 500 then "..." else "")
  }

  // ---------------------------------------------------------------------------
  // The whole fallback

  /** The ranked jobs, best first. */
  function RankedJobs(table: seq<(string, seq<string>)>, resumeText: string): (r: seq<Scored>)
    ensures |r| == |table|
  {
    RankByScore(Scores(table, resumeText))
  }

  /** The answer of the fallback for a résumé text, with a given keyword table. */
  function FallbackResultOf(table: seq<(string, seq<string>)>, resumeText: string): (r: FallbackResult)
    ensures r.resumeText == Preview(resumeText)
    ensures |r.recommendations| == Min(3, |table|)
  {
    var ranked := RankedJobs(table, resumeText);
    var top := if |ranked| <= 3 then ranked else ranked[..3];
    FallbackResult(Preview(resumeText), seq(|top|, k requires 0 <= k < |top| => RecommendationFor(top[k])))
  }

  /** The scoring loop of the fallback: fills `job_scores` in table order. */
  method ScoreJobs(keywords: seq<(string, seq<string>)>, resumeText: string) returns (jobScores: seq<Scored>)
    ensures jobScores == Scores(keywords, resumeText)
  {
    var resumeTextLower := Lower(resumeText);
    jobScores := [];
    for k := 0 to |keywords|
      invariant jobScores == Scores(keywords, resumeText)[..k]
    {
      var job := keywords[k].0;
      var score := TermScore(resumeTextLower, keywords[k].1);
      jobScores := jobScores + [(job, score)];
    }
  }

  /** `FallbackSystem.process_resume_file`, after the text has been extracted from the file. */
  method ProcessResumeText(resumeText: string) returns (result: FallbackResult)
    ensures result == FallbackResultOf(Keywords, resumeText)
  {
    result := RecommendWith(Keywords, resumeText);
  }

  /** The body of `process_resume_file` for a given keyword table. */
  method RecommendWith(keywords: seq<(string, seq<string>)>, resumeText: string) returns (result: FallbackResult)
    ensures result == FallbackResultOf(keywords, resumeText)
  {
    var jobScores := ScoreJobs(keywords, resumeText);
    var sortedJobs := RankByScore(jobScores);
    var top := if |sortedJobs| <= 3 then sortedJobs else sortedJobs[..3];
    var recommendations: seq<Recommendation> := [];
    for k := 0 to |top|
      invariant |recommendations| == k
      invariant forall i :: 0 <= i < k ==> recommendations[i] == RecommendationFor(top[i])
    {
      var job := top[k].0;
      var score := top[k].1;
      var confidence := ConfidenceHundredths(score);
      recommendations := recommendations + [Recommendation(job, confidence, [FundamentalsCourse(job)])];
    }
    result := FallbackResult(Preview(resumeText), recommendations);
  }

  /**
   * At most three recommendations (exactly three for a table of three jobs or
   * more), each for a job of the table with its own score's confidence in
   * [0.5, 0.95] and one "{job} Fundamentals" course from Coursera.
   */
  lemma FallbackShape(table: seq<(string, seq<string>)>, resumeText: string)
    ensures var recs := FallbackResultOf(table, resumeText).recommendations;
      && |recs| == Min(3, |table|)
      && forall k :: 0 <= k < |recs| ==>
        && (exists p :: p in Scores(table, resumeText) && p.0 == recs[k].jobTitle && recs[k].confidence == ConfidenceHundredths(p.1))
        && 50 <= recs[k].confidence <= 95
        && |recs[k].trainingCourses| == 1
        && recs[k].trainingCourses[0].courseName == recs[k].jobTitle + " Fundamentals"
        && recs[k].trainingCourses[0].provider == "Coursera"
  {
    var ranked := RankedJobs(table, resumeText);
    var recs := FallbackResultOf(table, resumeText).recommendations;
    assert |recs| == Min(3, |table|);
    forall k | 0 <= k < |recs|
      ensures exists p :: p in Scores(table, resumeText) && p.0 == recs[k].jobTitle && recs[k].confidence == ConfidenceHundredths(p.1)
      ensures 50 <= recs[k].confidence <= 95
      ensures |recs[k].trainingCourses| == 1
      ensures recs[k].trainingCourses[0].courseName == recs[k].jobTitle + " Fundamentals"
      ensures recs[k].trainingCourses[0].provider == "Coursera"
    {
      assert recs[k] == RecommendationFor(ranked[k]);
      assert ranked[k] in multiset(Scores(table, resumeText));
    }
  }

  /** The recommendations come best first: their confidences never increase. */
  lemma FallbackConfidenceOrder(table: seq<(string, seq<string>)>, resumeText: string)
    ensures var recs := FallbackResultOf(table, resumeText).recommendations;
      forall a, b :: 0 <= a < b < |recs| ==> recs[a].confidence >= recs[b].confidence
  {
    var ranked := RankedJobs(table, resumeText);
    var recs := FallbackResultOf(table, resumeText).recommendations;
    RankDescending(Scores(table, resumeText));
    forall a, b | 0 <= a < b < |recs|
      ensures recs[a].confidence >= recs[b].confidence
    {
      assert recs[a] == RecommendationFor(ranked[a]) && recs[b] == RecommendationFor(ranked[b]);
      ConfidenceMonotone(ranked[b].1, ranked[a].1);
    }
  }

  /** No job left out of the recommendations scores above a recommended one. */
  lemma TopThreeOutscoreTheRest(table: seq<(string, seq<string>)>, resumeText: string)
    requires |table| >= 3
    ensures var ranked := RankedJobs(table, resumeText);
      forall p, k :: p in Scores(table, resumeText) && p !in ranked[..3] && 0 <= k < 3 ==> p.1 <= ranked[k].1
  {
    var ranked := RankedJobs(table, resumeText);
    RankDescending(Scores(table, resumeText));
    assert forall i :: 0 <= i < 3 ==> ranked[..3][i] == ranked[i];
    forall p, k | p in Scores(table, resumeText) && p !in ranked[..3] && 0 <= k < 3
      ensures p.1 <= ranked[k].1
    {
      assert p in multiset(ranked);
      var i :| 0 <= i < |ranked| && ranked[i] == p;
    }
  }

  /** A résumé with none of the terms keeps the table order, every job at 0.5. */
  lemma NoMatchesGivesTableOrder(table: seq<(string, seq<string>)>, resumeText: string)
    requires forall k :: 0 <= k < |table| ==> TermScore(Lower(resumeText), table[k].1) == 0
    ensures var recs := FallbackResultOf(table, resumeText).recommendations;
      && |recs| == Min(3, |table|)
      && forall k :: 0 <= k < |recs| ==> recs[k] == Recommendation(table[k].0, 50, [FundamentalsCourse(table[k].0)])
  {
    var ranked := RankedJobs(table, resumeText);
    var recs := FallbackResultOf(table, resumeText).recommendations;
    TiesKeepTableOrder(Scores(table, resumeText), 0);
    forall k | 0 <= k < |recs|
      ensures recs[k] == Recommendation(table[k].0, 50, [FundamentalsCourse(table[k].0)])
    {
      assert recs[k] == RecommendationFor(ranked[k]);
    }
  }

  /** Every term of the keyword table is non-empty, so each one counts real occurrences. */
  lemma KeywordTermsNonEmpty()
    ensures |Keywords| == 5
    ensures forall k, j :: 0 <= k < |Keywords| && 0 <= j < |Keywords[k].1| ==> Keywords[k].1[j] != []
  {
  }

  lemma {:induction false} TermScoreOfEmpty(terms: seq<string>)
    requires forall j :: 0 <= j < |terms| ==> terms[j] != []
    ensures TermScore("", terms) == 0
    decreases |terms|
  {
    if terms != [] {
      TermScoreOfEmpty(terms[1..]);
    }
  }

  /** The fallback always recommends exactly three of its five jobs. */
  lemma FallbackGivesThree(resumeText: string)
    ensures |FallbackResultOf(Keywords, resumeText).recommendations| == 3
  {
    KeywordTermsNonEmpty();
    FallbackShape(Keywords, resumeText);
  }

  /** No job scores anything on an empty résumé. */
  lemma EmptyResumeScoresNothing()
    ensures forall k :: 0 <= k < |Keywords| ==> TermScore(Lower(""), Keywords[k].1) == 0
  {
    KeywordTermsNonEmpty();
    forall k | 0 <= k < |Keywords|
      ensures TermScore(Lower(""), Keywords[k].1) == 0
    {
      TermScoreOfEmpty(Keywords[k].1);
    }
  }

  /** The first three jobs of the table. */
  lemma FirstThreeJobs()
    ensures |Keywords| == 5
    ensures Keywords[0].0 == "Data Scientist" && Keywords[1].0 == "Software Engineer" && Keywords[2].0 == "Product Manager"
  {
  }

  /**
   * A résumé with none of the terms, such as the empty one (see
   * EmptyResumeScoresNothing), gets the first three jobs of the table, Data
   * Scientist, Software Engineer and Product Manager (see FirstThreeJobs),
   * each at 0.5.
   */
  lemma NoMatchRecommendsFirstThreeJobs(resumeText: string)
    requires forall k :: 0 <= k < |Keywords| ==> TermScore(Lower(resumeText), Keywords[k].1) == 0
    ensures var recs := FallbackResultOf(Keywords, resumeText).recommendations;
      && |recs| == 3
      && forall k :: 0 <= k < 3 ==> recs[k] == Recommendation(Keywords[k].0, 50, [FundamentalsCourse(Keywords[k].0)])
  {
    NoMatchesGivesTableOrder(Keywords, resumeText);
    FirstThreeJobs();
  }
}
