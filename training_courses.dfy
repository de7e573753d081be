/**
 * How `JobRecommendationSystem.get_training_courses` reads the text of a
 * model's reply: the span from the first '[' to the last ']' is tried as
 * JSON, and the free-text course parser takes over when there is no such
 * span or it does not decode.
 */
module TrainingCourses {
  import opened Wrappers
  import opened PyStrings
  import opened CourseParser

  /** Python's `s[i:j]` for indices within `s`: empty when `j <= i`. */
  function Slice(s: string, i: nat, j: nat): string
    requires i <= |s| && j <= |s|
  {
    if i <= j then s[i..j] else ""
  }

  /**
   * The JSON candidate of a reply, `reply[reply.find('['):reply.rfind(']') + 1]`,
   * taken only when `find` returns an index and `rfind(']') + 1` is positive.
   */
  function JsonCandidate(reply: string): (r: Option<string>)
    ensures r.Some? <==> '[' in reply && ']' in reply
  {
    var start := Find(reply, '[');
    var end := RFind(reply, ']') + 1;
    if start >= 0 && end > 0 then Some(Slice(reply, start, end)) else None
  }

  /**
   * With the first '[' at `i` and the last ']' at `j`, the candidate is the
   * text from `i` to `j` inclusive, or empty when that ']' comes before that '['.
   */
  lemma CandidateSpansOuterBrackets(reply: string, i: nat, j: nat)
    requires i < |reply| && reply[i] == '[' && '[' !in reply[..i]
    requires j < |reply| && reply[j] == ']' && ']' !in reply[j + 1..]
    ensures JsonCandidate(reply) == Some(if i <= j then reply[i..j + 1] else "")
  {
    var start := Find(reply, '[');
    var last := RFind(reply, ']');
    assert reply[i] in reply && reply[j] in reply;
    assert forall k :: 0 <= k < i ==> reply[..i][k] == reply[k];
    assert forall k :: 0 <= k < start ==> reply[..start][k] == reply[k];
    assert forall k :: j < k < |reply| ==> reply[j + 1..][k - j - 1] == reply[k];
    assert forall k :: last < k < |reply| ==> reply[last + 1..][k - last - 1] == reply[k];
    assert start == i && last == j;
    assert i == j + 1 ==> reply[i..j + 1] == "";
  }

  /**
   * The courses `get_training_courses` returns once the reply text is in hand:
   * the decoded JSON candidate when there is one and it decodes, otherwise
   * what the free-text parser reads from the whole reply. `decode` stands for
   * `json.loads`, which rejects the empty text, so a reply whose last ']' comes
   * before its first '[' always falls back to the free-text parser.
   */
  method CoursesFromReply(reply: string, decode: string -> Option<seq<Course>>) returns (courses: seq<Course>)
    requires decode("") == None
    ensures Find(reply, '[') >= 0 && 0 <= RFind(reply, ']') < Find(reply, '[') ==> courses == ExtractedCourses(reply)
    ensures JsonCandidate(reply).Some? && decode(JsonCandidate(reply).value).Some? ==>
      courses == decode(JsonCandidate(reply).value).value
    ensures JsonCandidate(reply).None? || decode(JsonCandidate(reply).value).None? ==>
      courses == ExtractedCourses(reply)
  {
    var jsonStart := Find(reply, '[');
    var jsonEnd := RFind(reply, ']') + 1;
    if jsonStart >= 0 && jsonEnd > 0 {
      var jsonContent := Slice(reply, jsonStart, jsonEnd);
      assert jsonEnd <= jsonStart ==> jsonContent == "";
      var decoded := decode(jsonContent);
      if decoded.Some? {
        return decoded.value;
      }
      // json.JSONDecodeError
      courses := ExtractCourses(reply);
    } else {
      courses := ExtractCourses(reply);
    }
  }
}
