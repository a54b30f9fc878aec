/**
  The page slice: the part of a downloaded dictionary page between the
  site's two (malformed) comment markers, wrapped as a document for the
  HTML parser. The add-on finds it with a regular-expression search whose
  greedy group, allowed to cross newlines, sits between the two markers.
 */
module Page {
  import opened Wrappers

  const StartMarker: string := "<!-- Start text --!>"
  const EndMarker: string := "<!-- End text --!>"

  /** Calling `.group(1)` on the `None` that a failed search returns. */
  datatype PageError = NoMarkedText

  predicate OccursAt(s: string, pat: string, i: int) {
    0 <= i && i + |pat| <= |s| && s[i..i + |pat|] == pat
  }

  /** The first occurrence of `pat` at or after `from`. */
  function FindFrom(s: string, pat: string, from: nat): (r: Option<nat>)
    ensures r.Some? ==> from <= r.value && OccursAt(s, pat, r.value)
    ensures r.Some? ==> forall j :: from <= j < r.value ==> !OccursAt(s, pat, j)
    ensures r.None? ==> forall j :: from <= j ==> !OccursAt(s, pat, j)
    decreases |s| - from
  {
    if from + |pat| > |s| then None
    else if s[from..from + |pat|] == pat then Some(from)
    else FindFrom(s, pat, from + 1)
  }

  /** The last occurrence of `pat` that starts before `before`. */
  function FindLastBefore(s: string, pat: string, before: nat): (r: Option<nat>)
    ensures r.Some? ==> r.value < before && OccursAt(s, pat, r.value)
    ensures r.Some? ==> forall j :: r.value < j < before ==> !OccursAt(s, pat, j)
    ensures r.None? ==> forall j :: 0 <= j < before ==> !OccursAt(s, pat, j)
    decreases before
  {
    if before == 0 then None
    else if OccursAt(s, pat, before - 1) then Some(before - 1)
    else FindLastBefore(s, pat, before - 1)
  }

  /**
    A match of the pattern: a start marker at `i` and an end marker at `e`
    with at least one character (of any kind, newlines included) between.
   */
  ghost predicate Match(html: string, i: int, e: int) {
    OccursAt(html, StartMarker, i) && OccursAt(html, EndMarker, e) && i + |StartMarker| + 1 <= e
  }

  /**
    `group(1)` of the search: the leftmost start marker that some end marker
    follows, then the greedy group up to the last end marker after it.
   */
  function MarkedText(html: string): (r: Option<string>)
    ensures r.Some? <==> exists i, e :: Match(html, i, e)
    ensures r.Some? ==> |r.value| >= 1
    ensures r.Some? ==>
              exists i, e :: Match(html, i, e) && r.value == html[i + |StartMarker|..e]
                          && forall i', e' :: Match(html, i', e') ==> i <= i' && e' <= e
  {
    match FindFrom(html, StartMarker, 0)
    case None => None
    case Some(i) =>
      match FindLastBefore(html, EndMarker, |html| + 1)
      case None => None
      case Some(e) =>
        if i + |StartMarker| + 1 <= e then
          assert Match(html, i, e);
          Some(html[i + |StartMarker|..e])
        else
          None
  }

  /** The text handed to the HTML parser: the slice wrapped as a whole document. */
  function ParserInput(html: string): (r: Result<string, PageError>)
    ensures r.Success? <==> exists i, e :: Match(html, i, e)
    ensures r.Failure? ==> r.error == NoMarkedText
    ensures r.Success? ==>
              exists slice :: MarkedText(html) == Some(slice) && r.value == "<html><body>" + slice + "</body></html>"
  {
    match MarkedText(html)
    case None => Failure(NoMarkedText)
    case Some(slice) => Success("<html><body>" + slice + "</body></html>")
  }

  /** The group is greedy and spans newlines: it runs to the last end marker. */
  lemma GreedyAcrossNewlines()
    ensures MarkedText(StartMarker + "a\nb" + EndMarker + "c" + EndMarker) == Some("a\nb" + EndMarker + "c")
  {
    var html := StartMarker + "a\nb" + EndMarker + "c" + EndMarker;
    var last := |html| - |EndMarker|;
    assert html[..|StartMarker|] == StartMarker;
    assert html[last..] == EndMarker;
    assert Match(html, 0, last);
    var i, e :| Match(html, i, e) && MarkedText(html).value == html[i + |StartMarker|..e]
                && forall i', e' :: Match(html, i', e') ==> i <= i' && e' <= e;
    assert i <= 0 && last <= e;
    assert Match(html, i, e);
    assert e + |EndMarker| <= |html|;
    assert html[|StartMarker|..last] == "a\nb" + EndMarker + "c";
  }

  /** Markers with nothing between them do not match: the group needs one character. */
  lemma EmptyGroupFails()
    ensures ParserInput(StartMarker + EndMarker) == Failure(NoMarkedText)
  {
  }
}
