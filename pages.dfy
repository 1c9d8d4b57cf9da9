/**
  * Fetching a page (app.py:14-21) and the substring test the crawler applies
  * to its text (app.py:69).
  */
module Pages {
  import opened Wrappers

  /** What the HTTP client's GET (redirects followed) gives for a URL: a
      response with its status code and decoded text, or an exception
      (timeout, connection or TLS failure). */
  datatype Response = Response(status: int, text: string) | Failed

  /** `fetch`: the page text on status 200, nothing on any other status or on
      an exception. */
  function Fetch(r: Response): (text: Option<string>)
    ensures text.Some? <==> r.Response? && r.status == 200
    ensures text.Some? ==> text.value == r.text
  {
    match r
    case Response(status, body) => if status == 200 then Some(body) else None
    case Failed => None
  }

  /** `pat` occurs in `text` starting at position `i`. */
  predicate OccursAt(text: string, pat: string, i: int)
  {
    0 <= i && i + |pat| <= |text| && text[i..i + |pat|] == pat
  }

  /** Python's `pat in text`, scanning left to right. */
  function Contains(text: string, pat: string): (r: bool)
    ensures r <==> exists i :: OccursAt(text, pat, i)
    decreases |text|
  {
    if |pat| <= |text| && text[..|pat|] == pat then
      assert OccursAt(text, pat, 0);
      true
    else if text == [] then
      assert forall i :: !OccursAt(text, pat, i);
      false
    else
      var r := Contains(text[1..], pat);
      assert forall i :: OccursAt(text[1..], pat, i) <==> OccursAt(text, pat, i + 1);
      assert !OccursAt(text, pat, 0);
      assert forall i :: OccursAt(text, pat, i) ==> OccursAt(text[1..], pat, i - 1);
      r
  }

  /** The empty pattern is in every text. */
  lemma ContainsEmpty(text: string)
    ensures Contains(text, "")
  {
    assert OccursAt(text, "", 0);
  }
}
