/**
 * `summarize_data`, the helper that shortens the text sent in the prompt:
 * a text longer than the limit is cut to its first `limit` characters and
 * marked with `"..."`. Converting the data to text with `str` is left out;
 * the text is given.
 */
module Summarize {

  /** The limit `send_to_gpt` uses. */
  const DefaultLimit: int := 1000

  /**
   * Python's `s[:n]`: the first `n` characters; a negative `n` counts from
   * the end, and an `n` past either end stops there.
   */
  function Prefix(s: string, n: int): (r: string)
    ensures r <= s
  {
    if n >= |s| then s
    else if n >= 0 then s[..n]
    else if |s| + n >= 0 then s[..|s| + n]
    else []
  }

  /** `summarize_data(data, limit)` on the text `str(data)`. */
  function SummarizeData(text: string, limit: int): (r: string)
    ensures |text| <= limit ==> r == text
    ensures 0 <= limit < |text| ==> |r| == limit + 3 && r[..limit] == text[..limit] && r[limit..] == "..."
    ensures limit < 0 ==> (
      |r| == (if |text| + limit < 0 then 0 else |text| + limit) + 3 &&
      r[..|r| - 3] == text[..|r| - 3] && r[|r| - 3..] == "...")
    ensures r == text || (|r| >= 3 && r[|r| - 3..] == "..." && r[..|r| - 3] <= text)
    ensures limit >= 0 ==> |r| <= limit + 3
  {
    if |text| > limit then Prefix(text, limit) + "..." else text
  }

  /**
   * Summarizing a summary with the same non-negative limit changes nothing:
   * a cut summary is `limit + 3` long, so it is cut again at the same place.
   */
  lemma {:induction false} SummarizeIdempotent(text: string, limit: int)
    requires limit >= 0
    ensures SummarizeData(SummarizeData(text, limit), limit) == SummarizeData(text, limit)
  {
    var r := SummarizeData(text, limit);
    if |text| > limit {
      assert r == r[..limit] + r[limit..];
    }
  }

  /** `summarize_data(data)` with its default limit. */
  function SummarizeDefault(text: string): (r: string)
    ensures |text| <= 1000 ==> r == text
    ensures |text| > 1000 ==> |r| == 1003 && r[..1000] == text[..1000] && r[1000..] == "..."
  {
    SummarizeData(text, DefaultLimit)
  }
}
