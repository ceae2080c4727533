/**
 * The relevance ordering of `related_links` (src/core/gemini.py, lines
 * 249-255): Python's `sorted(..., key=..., reverse=True)`, which is stable,
 * modelled as an insertion sort on sequences.
 */
module LinkRanking {
  import opened Responses

  /** The key of line 253: 高 → 3, 中 → 2, 低 or no relevance → 1, anything else → 0. */
  function RelevanceKey(l: Link): nat
  {
    match l.relevance
    case None => 1
    case Some(r) =>
      if r == "高" then 3 else if r == "中" then 2 else if r == "低" then 1 else 0
  }

  /** The grades of line 253, highest first; a missing relevance ranks with 低 and any other value below all grades. */
  lemma RelevanceKeyGrades(l: Link)
    ensures RelevanceKey(l) <= 3
    ensures RelevanceKey(l) == 3 <==> l.relevance == Some("高")
    ensures RelevanceKey(l) == 2 <==> l.relevance == Some("中")
    ensures RelevanceKey(l) == 1 <==> l.relevance.None? || l.relevance == Some("低")
  {
  }

  /** Line 249: some link carries a `relevance` key. */
  predicate HasRelevance(links: seq<Link>)
  {
    exists l | l in links :: l.relevance.Some?
  }

  /** Keys never increase from left to right. */
  ghost predicate SortedByRelevance(s: seq<Link>)
  {
    forall i, j | 0 <= i < j < |s| :: RelevanceKey(s[i]) >= RelevanceKey(s[j])
  }

  /** The links of `s` whose key is `k`, in their order in `s`. */
  function WithKey(s: seq<Link>, k: nat): seq<Link>
  {
    if s == [] then []
    else (if RelevanceKey(s[0]) == k then [s[0]] else []) + WithKey(s[1..], k)
  }

  /** Puts `x` in front of every element whose key is not larger than its own. */
  function Insert(x: Link, s: seq<Link>): (r: seq<Link>)
    requires SortedByRelevance(s)
    ensures SortedByRelevance(r)
    ensures multiset(r) == multiset(s) + multiset{x}
    ensures forall e | e in r :: e == x || e in s
  {
    if s == [] || RelevanceKey(x) >= RelevanceKey(s[0]) then [x] + s
    else
      var rest := Insert(x, s[1..]);
      assert s == [s[0]] + s[1..];
      ConsKeepsOrder(s, x, rest);
      [s[0]] + rest
  }

  /** Putting the head of an ordered list back in front of the insertion into its tail keeps the order. */
  lemma ConsKeepsOrder(s: seq<Link>, x: Link, rest: seq<Link>)
    requires s != [] && SortedByRelevance(s) && RelevanceKey(x) < RelevanceKey(s[0])
    requires SortedByRelevance(rest) && forall e | e in rest :: e == x || e in s[1..]
    ensures SortedByRelevance([s[0]] + rest)
  {
    var r := [s[0]] + rest;
    forall i, j | 0 <= i < j < |r|
      ensures RelevanceKey(r[i]) >= RelevanceKey(r[j])
    {
      if i == 0 {
        var e := r[j];
        assert e in rest;
        if e != x {
          var k :| 0 <= k < |s[1..]| && s[1..][k] == e;
          assert s[k + 1] == e;
        }
      } else {
        assert r[i] == rest[i - 1] && r[j] == rest[j - 1];
      }
    }
  }

  /** `sorted(links, key=RelevanceKey, reverse=True)`. */
  function Sort(s: seq<Link>): (r: seq<Link>)
    ensures SortedByRelevance(r)
    ensures multiset(r) == multiset(s)
  {
    if s == [] then []
    else
      assert s == [s[0]] + s[1..];
      Insert(s[0], Sort(s[1..]))
  }

  /** Lines 249-255: the links are reordered only when some link is graded. */
  function Ranked(links: seq<Link>): (r: seq<Link>)
    ensures |r| == |links| && multiset(r) == multiset(links)
    ensures HasRelevance(links) ==> SortedByRelevance(r)
    ensures !HasRelevance(links) ==> r == links
  {
    if HasRelevance(links) then
      var sorted := Sort(links);
      assert |multiset(sorted)| == |sorted| && |multiset(links)| == |links|;
      sorted
    else links
  }

  lemma {:induction false} InsertWithKey(x: Link, s: seq<Link>, k: nat)
    requires SortedByRelevance(s)
    ensures WithKey(Insert(x, s), k) == (if RelevanceKey(x) == k then [x] else []) + WithKey(s, k)
    decreases s
  {
    if s == [] || RelevanceKey(x) >= RelevanceKey(s[0]) {
      assert ([x] + s)[1..] == s;
    } else {
      var rest := Insert(x, s[1..]);
      var head := if RelevanceKey(s[0]) == k then [s[0]] else [];
      var mine := if RelevanceKey(x) == k then [x] else [];
      assert Insert(x, s) == [s[0]] + rest;
      assert ([s[0]] + rest)[1..] == rest;
      InsertWithKey(x, s[1..], k);
      assert head == [] || mine == [];
      calc {
        WithKey(Insert(x, s), k);
        head + WithKey(rest, k);
        head + (mine + WithKey(s[1..], k));
        { SwapEmpty(head, mine, WithKey(s[1..], k)); }
        mine + (head + WithKey(s[1..], k));
        { assert s != [] && WithKey(s, k) == head + WithKey(s[1..], k); }
        mine + WithKey(s, k);
      }
    }
  }

  /** Two sequences of which one is empty can be put in front of a third in either order. */
  lemma SwapEmpty(a: seq<Link>, b: seq<Link>, w: seq<Link>)
    requires a == [] || b == []
    ensures a + (b + w) == b + (a + w)
  {
    if a == [] {
      assert a + (b + w) == b + w;
    } else {
      assert b + (a + w) == a + w;
    }
  }

  /**
   * Stability: for every key, the links with that key appear in the sorted
   * result in exactly their original order.
   */
  lemma {:induction false} SortIsStable(s: seq<Link>, k: nat)
    ensures WithKey(Sort(s), k) == WithKey(s, k)
    decreases s
  {
    if s != [] {
      SortIsStable(s[1..], k);
      InsertWithKey(s[0], Sort(s[1..]), k);
    }
  }

  /** Sorting an already ordered list changes nothing. */
  lemma {:induction false} SortOfSorted(s: seq<Link>)
    requires SortedByRelevance(s)
    ensures Sort(s) == s
    decreases s
  {
    if s != [] {
      SortOfSorted(s[1..]);
      assert s == [s[0]] + s[1..];
    }
  }

  /** Lines 249-255 together: the ranked list is a permutation, ordered when any link is graded, stable per key. */
  lemma RankedIsStableOrdering(links: seq<Link>, k: nat)
    ensures multiset(Ranked(links)) == multiset(links)
    ensures HasRelevance(links) ==> SortedByRelevance(Ranked(links))
    ensures WithKey(Ranked(links), k) == WithKey(links, k)
    ensures !HasRelevance(links) ==> Ranked(links) == links
  {
    SortIsStable(links, k);
  }

  /** Whether a list is graded and whether it is ordered depend on the grades alone. */
  lemma SameGradesSameRanking(a: seq<Link>, b: seq<Link>)
    requires |a| == |b|
    requires forall i | 0 <= i < |a| :: a[i].relevance == b[i].relevance
    ensures HasRelevance(a) <==> HasRelevance(b)
    ensures SortedByRelevance(a) <==> SortedByRelevance(b)
  {
  }

  /** Ranking neither adds nor removes graded links. */
  lemma RankedKeepsGrades(links: seq<Link>)
    ensures HasRelevance(Ranked(links)) <==> HasRelevance(links)
  {
    var r := Ranked(links);
    if HasRelevance(links) {
      var l :| l in links && l.relevance.Some?;
      assert l in multiset(r);
    }
    if HasRelevance(r) {
      var l :| l in r && l.relevance.Some?;
      assert l in multiset(links);
    }
  }
}
