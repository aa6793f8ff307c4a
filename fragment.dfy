/** `parseBody`: the fragment of a page that the pattern `(?i)(?s)<main>.*</main>`
    selects. Go's matcher is leftmost-first with a greedy `.*`, so the selected region
    starts at the first `<main>` (in any letter case) and ends with the last `</main>`
    that begins after it; `(?s)` lets the region span lines. The model states that
    directly as a search over the characters of the body. */
module Fragment {
  import opened Wrappers

  const OpenTag := "<main>"
  const CloseTag := "</main>"

  /** ASCII lower case; the tags contain no letter whose Unicode case folding
      differs from its ASCII one. */
  function ToLower(c: char): char {
    if 'A' <= c <= 'Z' then (c as int + 32) as char else c
  }

  /** The lower-case pattern `pat` occurs at index `i` of `s`, ignoring case. */
  predicate MatchesAt(s: string, i: int, pat: string) {
    0 <= i && i + |pat| <= |s| &&
    forall k :: 0 <= k < |pat| ==> ToLower(s[i + k]) == pat[k]
  }

  predicate OpenAt(s: string, i: int) { MatchesAt(s, i, OpenTag) }

  predicate CloseAt(s: string, j: int) { MatchesAt(s, j, CloseTag) }

  /** Some `<main>` is followed, possibly after nothing at all, by a `</main>`. */
  ghost predicate HasMainMatch(s: string) {
    exists i, j :: OpenAt(s, i) && CloseAt(s, j) && i + |OpenTag| <= j
  }

  /** `s[lo..hi]` is the region the pattern selects: it opens with the first `<main>`
      of `s` and closes with the last `</main>` of `s`, which begins after that tag. */
  ghost predicate IsMainMatch(s: string, lo: int, hi: int) {
    OpenAt(s, lo) && CloseAt(s, hi - |CloseTag|) && lo + |OpenTag| <= hi - |CloseTag| &&
    (forall i :: 0 <= i < lo ==> !OpenAt(s, i)) &&
    (forall j :: hi - |CloseTag| < j ==> !CloseAt(s, j))
  }

  /** The first occurrence of `pat` at or after `from`. */
  function FindFirst(s: string, pat: string, from: nat): (r: Option<nat>)
    requires pat != ""
    ensures r.Some? ==> from <= r.value && MatchesAt(s, r.value, pat) &&
                        forall k :: from <= k < r.value ==> !MatchesAt(s, k, pat)
    ensures r.None? ==> forall k :: from <= k ==> !MatchesAt(s, k, pat)
    decreases |s| - from
  {
    if |s| < from + |pat| then None
    else if MatchesAt(s, from, pat) then Some(from)
    else FindFirst(s, pat, from + 1)
  }

  /** The last occurrence of `pat` that begins in `[lo, hi)`. */
  function FindLast(s: string, pat: string, lo: nat, hi: int): (r: Option<nat>)
    ensures r.Some? ==> lo <= r.value < hi && MatchesAt(s, r.value, pat) &&
                        forall k :: r.value < k < hi ==> !MatchesAt(s, k, pat)
    ensures r.None? ==> forall k :: lo <= k < hi ==> !MatchesAt(s, k, pat)
    decreases hi - lo
  {
    if hi <= lo then None
    else if MatchesAt(s, hi - 1, pat) then Some(hi - 1)
    else FindLast(s, pat, lo, hi - 1)
  }

  /** The bounds of the selected region, if the pattern matches at all. */
  function MainSpan(s: string): (r: Option<(nat, nat)>)
    ensures r.Some? <==> HasMainMatch(s)
    ensures r.Some? ==> IsMainMatch(s, r.value.0, r.value.1)
  {
    var first := FindFirst(s, OpenTag, 0);
    if first.None? then None
    else
      var lo := first.value;
      var last := FindLast(s, CloseTag, lo + |OpenTag|, |s|);
      if last.None? then None
      else
        assert OpenAt(s, lo) && CloseAt(s, last.value);
        Some((lo, last.value + |CloseTag|))
  }

  /** `parseBody` on a body that was read successfully: the selected region, or the
      whole body when the pattern does not match. */
  function ParseBody(body: string): (r: string)
    ensures HasMainMatch(body) ==> exists lo, hi :: IsMainMatch(body, lo, hi) && r == body[lo..hi]
    ensures !HasMainMatch(body) ==> r == body
  {
    match MainSpan(body)
    case None => body
    case Some((lo, hi)) => body[lo..hi]
  }

  /** The selected region is determined by the body: at most one region qualifies. */
  lemma MainMatchUnique(s: string, lo: int, hi: int, lo': int, hi': int)
    requires IsMainMatch(s, lo, hi) && IsMainMatch(s, lo', hi')
    ensures lo == lo' && hi == hi'
  {
  }

  /** The selected region, taken on its own, is selected whole. */
  lemma MatchOfMatch(body: string, lo: int, hi: int)
    requires IsMainMatch(body, lo, hi)
    ensures IsMainMatch(body[lo..hi], 0, hi - lo)
  {
  }

  /** Whatever region satisfies the description is the one extracted. */
  lemma ParseBodySelects(body: string, lo: int, hi: int)
    requires IsMainMatch(body, lo, hi)
    ensures ParseBody(body) == body[lo..hi]
  {
    assert HasMainMatch(body) by {
      assert OpenAt(body, lo) && CloseAt(body, hi - |CloseTag|);
    }
    var span := MainSpan(body).value;
    MainMatchUnique(body, lo, hi, span.0, span.1);
  }

  /** The extracted fragment is a fixed point: extracting again changes nothing. */
  lemma ParseBodyIdempotent(body: string)
    ensures ParseBody(ParseBody(body)) == ParseBody(body)
  {
    var span := MainSpan(body);
    if span.Some? {
      var (lo, hi) := span.value;
      var r := body[lo..hi];
      assert ParseBody(body) == r;
      MatchOfMatch(body, lo, hi);
      ParseBodySelects(r, 0, |r|);
      assert r[0..|r|] == r;
    }
  }

  /** The extracted fragment is a contiguous piece of the body. */
  lemma ParseBodyIsSlice(body: string)
    ensures exists lo, hi :: 0 <= lo <= hi <= |body| && ParseBody(body) == body[lo..hi]
  {
    var r := ParseBody(body);
    if HasMainMatch(body) {
      var lo, hi :| IsMainMatch(body, lo, hi) && r == body[lo..hi];
      assert 0 <= lo <= hi <= |body|;
    } else {
      assert r == body[0..|body|];
    }
  }

  /** One differing character rules an occurrence out. */
  lemma MismatchAt(s: string, i: int, pat: string, k: int)
    requires 0 <= k < |pat| && 0 <= i + k < |s|
    requires ToLower(s[i + k]) != pat[k]
    ensures !MatchesAt(s, i, pat)
  {
  }

  /** The page of the example below has its tags at indices 6 and 13. */
  lemma ExampleTags(page: string)
    requires page == "<html><main>X</main></html>"
    ensures OpenAt(page, 6) && CloseAt(page, 13)
  {
  }

  /** The page of the example below has no `<main>` before index 6. */
  lemma ExampleNoEarlierOpen(page: string)
    requires page == "<html><main>X</main></html>"
    ensures forall i :: 0 <= i < 6 ==> !OpenAt(page, i)
  {
    forall i | 0 <= i < 6 ensures !OpenAt(page, i) {
      if i == 0 {
        MismatchAt(page, 0, OpenTag, 1);
      } else if i == 1 {
        MismatchAt(page, 1, OpenTag, 0);
      } else if i == 2 {
        MismatchAt(page, 2, OpenTag, 0);
      } else if i == 3 {
        MismatchAt(page, 3, OpenTag, 0);
      } else if i == 4 {
        MismatchAt(page, 4, OpenTag, 0);
      } else {
        MismatchAt(page, 5, OpenTag, 0);
      }
    }
  }

  /** The page of the example below has no `</main>` after index 13. */
  lemma ExampleNoLaterClose(page: string)
    requires page == "<html><main>X</main></html>"
    ensures forall j :: 13 < j ==> !CloseAt(page, j)
  {
    forall j | 13 < j ensures !CloseAt(page, j) {
      if j == 14 {
        MismatchAt(page, 14, CloseTag, 0);
      } else if j == 15 {
        MismatchAt(page, 15, CloseTag, 0);
      } else if j == 16 {
        MismatchAt(page, 16, CloseTag, 0);
      } else if j == 17 {
        MismatchAt(page, 17, CloseTag, 0);
      } else if j == 18 {
        MismatchAt(page, 18, CloseTag, 0);
      } else if j == 19 {
        MismatchAt(page, 19, CloseTag, 0);
      } else if j == 20 {
        MismatchAt(page, 20, CloseTag, 2);
      } else {
        assert |page| < j + |CloseTag|;
      }
    }
  }

  /** In the page of the example below, the region from index 6 to 20 is selected. */
  lemma ExampleMatch(page: string)
    requires page == "<html><main>X</main></html>"
    ensures IsMainMatch(page, 6, 20) && page[6..20] == "<main>X</main>"
  {
    ExampleTags(page);
    ExampleNoEarlierOpen(page);
    ExampleNoLaterClose(page);
  }

  /** A page whose `<main>` element sits inside other markup yields that element. */
  lemma ParseBodyExample(page: string)
    requires page == "<html><main>X</main></html>"
    ensures ParseBody(page) == "<main>X</main>"
  {
    ExampleMatch(page);
    ParseBodySelects(page, 6, 20);
  }

  /** The tags are found in any letter case. */
  lemma ParseBodyIgnoresCase(page: string)
    requires page == "<MAIN>y</Main>!"
    ensures ParseBody(page) == "<MAIN>y</Main>"
  {
    assert OpenAt(page, 0) && CloseAt(page, 7);
    MismatchAt(page, 8, CloseTag, 0);
    ParseBodySelects(page, 0, 14);
    assert page[0..14] == "<MAIN>y</Main>";
  }
}
