/**
 * Repair of root-relative link URLs (src/core/gemini.py, lines 257-266):
 * the leftmost match of `https?://[^/]+` in the first 1000 characters of
 * the page text is put in front of a URL that starts with "/".
 */
module UrlRepair {
  import opened Strings
  import opened Responses

  /** How much of the page text the regular expression sees (`web_content[:1000]`). */
  const ScanLimit: nat := 1000

  function Window(page: string): (w: string)
    ensures |w| <= ScanLimit && w <= page
    ensures |page| <= ScanLimit ==> w == page
    ensures |page| > ScanLimit ==> |w| == ScanLimit
  {
    page[..if |page| < ScanLimit then |page| else ScanLimit]
  }

  /** Length of the `https?://` part at index `i` (8 or 7), or 0 when neither scheme is there. */
  function SchemeLength(s: string, i: nat): nat
    requires i <= |s|
  {
    if "https://" <= s[i..] then 8 else if "http://" <= s[i..] then 7 else 0
  }

  /** The pattern `https?://[^/]+` matches at index `i`: a scheme followed by at least one character other than '/'. */
  function MatchesAt(s: string, i: nat): (b: bool)
    requires i <= |s|
    ensures b <==>
      || ("https://" <= s[i..] && i + 8 < |s| && s[i + 8] != '/')
      || ("http://" <= s[i..] && i + 7 < |s| && s[i + 7] != '/')
  {
    var n := SchemeLength(s, i);
    n > 0 && i + n < |s| && s[i + n] != '/'
  }

  /** End of the run of characters other than '/' that starts at `j` (the greedy `[^/]+`). */
  function HostEnd(s: string, j: nat): (e: nat)
    requires j <= |s|
    ensures j <= e <= |s|
    ensures e == |s| || s[e] == '/'
    ensures forall m | j <= m < e :: s[m] != '/'
    decreases |s| - j
  {
    if j == |s| || s[j] == '/' then j else HostEnd(s, j + 1)
  }

  /** The leftmost index from `i` on where the pattern matches (`re.search`). */
  function FirstMatch(s: string, i: nat): (r: Option<nat>)
    requires i <= |s|
    ensures r.Some? ==> i <= r.value < |s| && MatchesAt(s, r.value)
    ensures r.Some? ==> forall m | i <= m < r.value :: !MatchesAt(s, m)
    ensures r.None? ==> forall m | i <= m <= |s| :: !MatchesAt(s, m)
    decreases |s| - i
  {
    if i == |s| then None
    else if MatchesAt(s, i) then Some(i)
    else FirstMatch(s, i + 1)
  }

  /** `m` is what `re.search` reports: the match at the leftmost matching index `i`, with the longest host. */
  ghost predicate LeftmostLongestAt(s: string, i: nat, m: string)
    requires i <= |s|
  {
    MatchesAt(s, i)
    && (forall j | 0 <= j < i :: !MatchesAt(s, j))
    && OccursAt(s, m, i)
    && SchemeLength(s, i) < |m|
    && (forall c | c in m[SchemeLength(s, i)..] :: c != '/')
    && (i + |m| == |s| || s[i + |m|] == '/')
  }

  /** An origin as the pattern captures it: a scheme followed by a host without '/'. */
  predicate IsOrigin(d: string)
  {
    ("http://" <= d && |d| > 7 && '/' !in d[7..]) || ("https://" <= d && |d| > 8 && '/' !in d[8..])
  }

  /** The text the pattern captures at a matching index: the scheme and the greedy host run. */
  function MatchText(s: string, i: nat): (m: string)
    requires i < |s| && MatchesAt(s, i)
    ensures OccursAt(s, m, i) && SchemeLength(s, i) < |m|
    ensures m[..SchemeLength(s, i)] == "https://" || m[..SchemeLength(s, i)] == "http://"
    ensures forall c | c in m[SchemeLength(s, i)..] :: c != '/'
    ensures i + |m| == |s| || s[i + |m|] == '/'
  {
    s[i..HostEnd(s, i + SchemeLength(s, i))]
  }

  /** The first match found by `FirstMatch` is the leftmost, longest one, and it is an origin. */
  lemma FirstMatchIsLeftmostLongest(s: string, i: nat)
    requires FirstMatch(s, 0) == Some(i)
    ensures LeftmostLongestAt(s, i, MatchText(s, i))
    ensures IsOrigin(MatchText(s, i))
  {
  }

  /** `re.search(r'(https?://[^/]+)', page[:1000])`, the captured group when there is a match. */
  function Domain(page: string): (d: Option<string>)
    ensures d.None? <==> forall i | 0 <= i <= |Window(page)| :: !MatchesAt(Window(page), i)
    ensures d.Some? ==> exists i | 0 <= i < |Window(page)| :: LeftmostLongestAt(Window(page), i, d.value)
    ensures d.Some? ==> IsOrigin(d.value)
  {
    var s := Window(page);
    match FirstMatch(s, 0)
    case None => None
    case Some(i) =>
      FirstMatchIsLeftmostLongest(s, i);
      Some(MatchText(s, i))
  }

  /**
   * Lines 259-266 for one link: a non-empty URL that starts with neither
   * "http://" nor "https://" but with "/" gets the origin `d` in front, when
   * the page text has one.
   */
  function Repaired(l: Link, d: Option<string>): (r: Link)
    requires d.Some? ==> IsOrigin(d.value)
    ensures r.title == l.title && r.relevance == l.relevance
    ensures r.url != l.url <==> l.url.Some? && "/" <= l.url.value && d.Some?
    ensures r.url != l.url ==> r.url == Some(d.value + l.url.value)
  {
    match l.url
    case None => l
    case Some(u) =>
      if u != "" && !("http://" <= u || "https://" <= u) && "/" <= u && d.Some? then
        assert |d.value + u| > |u|;
        l.(url := Some(d.value + u))
      else
        assert "/" <= u ==> u != "" && u[0] != 'h' && !("http://" <= u) && !("https://" <= u);
        l
  }

  /** The loop of lines 258-266 over a whole list. */
  function RepairAll(links: seq<Link>, d: Option<string>): (r: seq<Link>)
    requires d.Some? ==> IsOrigin(d.value)
    ensures |r| == |links|
    ensures forall i | 0 <= i < |r| :: r[i].title == links[i].title && r[i].relevance == links[i].relevance
    ensures forall i | 0 <= i < |r| :: r[i] == Repaired(links[i], d)
  {
    seq(|links|, i requires 0 <= i < |links| => Repaired(links[i], d))
  }

  /** The loop treats each link on its own, so repairing a concatenation repairs each part. */
  lemma RepairAllAppend(u: seq<Link>, v: seq<Link>, d: Option<string>)
    requires d.Some? ==> IsOrigin(d.value)
    ensures RepairAll(u + v, d) == RepairAll(u, d) + RepairAll(v, d)
  {
    var w := RepairAll(u, d) + RepairAll(v, d);
    assert forall i | 0 <= i < |u + v| :: RepairAll(u + v, d)[i] == w[i];
  }

  /** A repaired URL starts with a scheme, so a second pass leaves every link as it is. */
  lemma RepairedIsIdempotent(l: Link, d: Option<string>)
    requires d.Some? ==> IsOrigin(d.value)
    ensures Repaired(Repaired(l, d), d) == Repaired(l, d)
  {
  }

  /** The whole loop of lines 258-266 is idempotent as well. */
  lemma RepairAllIsIdempotent(links: seq<Link>, d: Option<string>)
    requires d.Some? ==> IsOrigin(d.value)
    ensures RepairAll(RepairAll(links, d), d) == RepairAll(links, d)
  {
  }
}
