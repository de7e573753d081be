/**
 * The job-title names of the recommender: the default mapping built when no
 * mapping file can be read, `{str(i): f"Job Category {i+1}"}`, and the
 * per-index fallback of `job_titles.get(str(idx), f"Job Category {idx+1}")`.
 */
module JobTitles {
  import opened PyStrings

  /** `f"Job Category {idx+1}"` */
  function CategoryName(idx: nat): (r: string)
    ensures StartsWith(r, "Job Category ")
    ensures var digits := r[|"Job Category "|..];
      (forall i :: 0 <= i < |digits| ==> '0' <= digits[i] <= '9') && ParseDecimal(digits) == idx + 1
  {
    var r := "Job Category " + DecimalString(idx + 1);
    assert r[|"Job Category "|..] == DecimalString(idx + 1);
    ParseDecimalString(idx + 1);
    r
  }

  /** Different indices get different category names. */
  lemma CategoryNamesDistinct(a: nat, b: nat)
    ensures CategoryName(a) == CategoryName(b) ==> a == b
  {
    if CategoryName(a) == CategoryName(b) {
      var p := "Job Category ";
      assert DecimalString(a + 1) == CategoryName(a)[|p|..];
      assert DecimalString(b + 1) == CategoryName(b)[|p|..];
      DecimalStringInjective();
    }
  }

  /**
   * The default mapping for a model with `n` outputs, keys `"0"` to `str(n-1)`,
   * built in the order of `range(n)`.
   */
  function DefaultTitles(n: nat): (m: map<string, string>)
    ensures forall idx: nat :: DecimalString(idx) in m <==> idx < n
    ensures forall idx: nat :: idx < n ==> m[DecimalString(idx)] == CategoryName(idx)
    ensures |m| == n
    decreases n
  {
    if n == 0 then map[]
    else
      var prev, key := DefaultTitles(n - 1), DecimalString(n - 1);
      assert key !in prev;
      DecimalStringInjective();
      prev[key := CategoryName(n - 1)]
  }

  /** `job_titles.get(str(idx), f"Job Category {idx+1}")` */
  function TitleFor(titles: map<string, string>, idx: nat): (r: string)
    ensures DecimalString(idx) in titles ==> r == titles[DecimalString(idx)]
    ensures DecimalString(idx) !in titles ==> r == CategoryName(idx)
  {
    var key := DecimalString(idx);
    if key in titles then titles[key] else CategoryName(idx)
  }

  /**
   * With the default mapping every index is named "Job Category {idx+1}",
   * whether the mapping holds it or the fallback supplies it.
   */
  lemma DefaultTitleAgreesWithFallback(n: nat, idx: nat)
    ensures TitleFor(DefaultTitles(n), idx) == CategoryName(idx)
  {
  }
}
