/**
 * The adapter around the language-model call (src/core/gemini.py,
 * `gemini_response`). The model itself, `json.loads` and `json.dumps` are
 * parameters; the four instruction texts are represented by which of them
 * is selected.
 */
module Gemini {
  import opened Strings
  import opened Responses
  import opened LinkRanking
  import opened UrlRepair

  /** Marks a final-analysis query (lines 36, 101, 217, 239). */
  const FinalMarker: string := "請根據以上內容"
  /** Asks the final analysis for JSON output (line 36). */
  const JsonMarker: string := "JSON格式"
  /** The keywords of line 33, in their order there. */
  const CardKeywords: seq<string> := ["信用卡", "卡片", "信用卡優惠", "卡別", "credit card", "card"]

  /** Which of the four chat histories is started (lines 36-213). */
  datatype PromptVariant =
    | CardListJson   // final analysis returning a `cards` JSON object (line 36)
    | Summary        // final analysis as a summary (line 101)
    | CardLinks      // credit-card crawl step with graded links (line 146)
    | GeneralLinks   // generic crawl step: content plus related links (line 195)

  /** Stand-in for the fixed instructions put in front of a card query (lines 218-225); it ends with a blank line. */
  const CardPreamble: string := "<credit-card analysis instructions>\n\n"

  /** The three fixed pieces of the prompt of lines 228-234. */
  const PromptHead: string := "\n使用者需求：\n"
  const PromptMid: string := "\n\n網頁內容：\n"
  const PromptTail: string := "\n"

  /**
   * Line 33: the lower-cased query contains one of the keywords. Every
   * keyword holds "卡" or "card", and "card" on its own is one of them.
   */
  function IsCardQuery(q: string): (b: bool)
    ensures b ==> Contains(Lower(q), "卡") || Contains(Lower(q), "card")
    ensures Contains(Lower(q), "card") ==> b
  {
    var l := Lower(q);
    KeywordsMentionCard(l);
    assert CardKeywords[5] == "card";
    exists k | k in CardKeywords :: Contains(l, k)
  }

  /** Each keyword of line 33 contains "卡" or "card", so a text holding a keyword holds one of those. */
  lemma KeywordsMentionCard(l: string)
    ensures forall k | k in CardKeywords && Contains(l, k) :: Contains(l, "卡") || Contains(l, "card")
  {
    forall k | k in CardKeywords && Contains(l, k)
      ensures Contains(l, "卡") || Contains(l, "card")
    {
      if k == "信用卡" || k == "信用卡優惠" {
        assert OccursAt(k, "卡", 2);
        ContainsTransitive(l, k, "卡");
      } else if k == "卡片" || k == "卡別" {
        assert OccursAt(k, "卡", 0);
        ContainsTransitive(l, k, "卡");
      } else if k == "credit card" {
        assert OccursAt(k, "card", 7);
        ContainsTransitive(l, k, "card");
      }
    }
  }

  /** The card test ignores ASCII case: a query and its lower-cased form agree. */
  lemma CardQueryIgnoresCase(q: string)
    ensures IsCardQuery(Lower(q)) == IsCardQuery(q)
  {
    LowerIdempotent(q);
  }

  /**
   * Lines 217 and 239: a card query that is not a final analysis. These are
   * the queries that get the card instructions and whose answer is
   * post-processed.
   */
  function IsCardCrawlQuery(q: string): (b: bool)
    ensures b ==> Contains(Lower(q), "卡") || Contains(Lower(q), "card")
    ensures Contains(q, FinalMarker) ==> !b
    ensures !Contains(q, FinalMarker) && Contains(Lower(q), "card") ==> b
  {
    IsCardQuery(q) && !Contains(q, FinalMarker)
  }

  /**
   * Two of the six keywords are redundant: "信用卡優惠" contains "信用卡" and
   * "credit card" contains "card".
   */
  lemma CardKeywordsReduce(q: string)
    ensures IsCardQuery(q) <==>
      Contains(Lower(q), "信用卡") || Contains(Lower(q), "卡片") ||
      Contains(Lower(q), "卡別") || Contains(Lower(q), "card")
  {
    var l := Lower(q);
    assert CardKeywords[0] == "信用卡" && CardKeywords[1] == "卡片";
    assert CardKeywords[3] == "卡別" && CardKeywords[5] == "card";
    if Contains(l, "信用卡優惠") {
      assert OccursAt("信用卡優惠", "信用卡", 0);
      ContainsTransitive(l, "信用卡優惠", "信用卡");
    }
    if Contains(l, "credit card") {
      assert OccursAt("credit card", "card", 7);
      ContainsTransitive(l, "credit card", "card");
    }
  }

  /** Lines 36-213: exactly one variant, by priority final+JSON, final, card query, default. */
  function SelectVariant(q: string): (v: PromptVariant)
    ensures v == CardListJson <==> Contains(q, FinalMarker) && Contains(q, JsonMarker)
    ensures v == Summary <==> Contains(q, FinalMarker) && !Contains(q, JsonMarker)
    ensures v == CardLinks <==> IsCardCrawlQuery(q)
    ensures v == GeneralLinks <==> !Contains(q, FinalMarker) && !IsCardQuery(q)
  {
    if Contains(q, FinalMarker) && Contains(q, JsonMarker) then CardListJson
    else if Contains(q, FinalMarker) then Summary
    else if IsCardQuery(q) then CardLinks
    else GeneralLinks
  }

  /** Lines 216-226: the query, behind the card instructions exactly when the card-crawl prompt is used. */
  function EnhancedQuery(q: string): (r: string)
    ensures |q| <= |r| && r[|r| - |q|..] == q
    ensures r == q || r == CardPreamble + q
    ensures r != q <==> SelectVariant(q) == CardLinks
  {
    if IsCardCrawlQuery(q) then CardPreamble + q else q
  }

  /** Lines 228-234: the enhanced query, then the page text, between fixed labels. */
  function Prompt(enhanced: string, page: string): (p: string)
    ensures OccursAt(p, enhanced, |PromptHead|)
    ensures OccursAt(p, page, |PromptHead| + |enhanced| + |PromptMid|)
    ensures |p| == |PromptHead| + |enhanced| + |PromptMid| + |page| + |PromptTail|
  {
    PromptHead + enhanced + PromptMid + page + PromptTail
  }

  /** The prompt sent carries the user's own query, and after it the page text. */
  lemma PromptHasQueryThenPage(q: string, page: string)
    ensures var p := Prompt(EnhancedQuery(q), page);
      exists i: nat, j: nat :: OccursAt(p, q, i) && OccursAt(p, page, j) && i + |q| <= j
  {
    var e := EnhancedQuery(q);
    var p := Prompt(e, page);
    var i := |PromptHead| + |e| - |q|;
    var j := |PromptHead| + |e| + |PromptMid|;
    assert p[i..i + |q|] == e[|e| - |q|..];
    assert OccursAt(p, q, i) && OccursAt(p, page, j);
  }

  /** Lines 247-266 on a parsed answer: rank the links, then repair root-relative URLs. */
  function Postprocessed(reply: Reply, page: string): (r: Reply)
    ensures reply.relatedLinks.None? ==> r == reply
    ensures reply.relatedLinks.Some? ==>
      r.relatedLinks.Some? && |r.relatedLinks.value| == |reply.relatedLinks.value|
    ensures reply.relatedLinks.Some? && HasRelevance(reply.relatedLinks.value) ==>
      SortedByRelevance(r.relatedLinks.value)
    ensures reply.relatedLinks.Some? ==> forall i | 0 <= i < |r.relatedLinks.value| ::
      exists l | l in reply.relatedLinks.value :: r.relatedLinks.value[i] == Repaired(l, Domain(page))
  {
    match reply.relatedLinks
    case None => reply
    case Some(links) =>
      var repaired := RepairAll(Ranked(links), Domain(page));
      RankThenRepair(links, Domain(page));
      assert forall i | 0 <= i < |repaired| :: exists l | l in links :: repaired[i] == Repaired(l, Domain(page));
      Reply(Some(repaired))
  }

  lemma RankThenRepair(links: seq<Link>, d: Option<string>)
    requires d.Some? ==> IsOrigin(d.value)
    ensures HasRelevance(links) ==> SortedByRelevance(RepairAll(Ranked(links), d))
    ensures forall i | 0 <= i < |RepairAll(Ranked(links), d)| :: exists l | l in links :: RepairAll(Ranked(links), d)[i] == Repaired(l, d)
  {
    var ranked := Ranked(links);
    var repaired := RepairAll(ranked, d);
    SameGradesSameRanking(ranked, repaired);
    forall i | 0 <= i < |repaired|
      ensures exists l | l in links :: repaired[i] == Repaired(l, d)
    {
      assert ranked[i] in multiset(links);
      assert repaired[i] == Repaired(ranked[i], d);
    }
  }

  /**
   * Lines 249-266 on the list: an ungraded list keeps its order, and for every
   * grade the links with that grade come out repaired in their original order.
   * Together with the ordering stated by `Postprocessed`, this fixes the result.
   * It is a permutation of the repaired input.
   */
  lemma PostprocessedIsStableRepair(links: seq<Link>, page: string, k: nat)
    ensures var r := Postprocessed(Reply(Some(links)), page).relatedLinks.value;
      && (!HasRelevance(links) ==> r == RepairAll(links, Domain(page)))
      && WithKey(r, k) == RepairAll(WithKey(links, k), Domain(page))
      && multiset(r) == multiset(RepairAll(links, Domain(page)))
  {
    var d := Domain(page);
    var ranked := Ranked(links);
    var r := RepairAll(ranked, d);
    assert Postprocessed(Reply(Some(links)), page).relatedLinks.value == r;
    RankedIsStableOrdering(links, k);
    WithKeyRepairAll(ranked, d, k);
    RepairedPermutation(ranked, links, d);
  }

  /** Repair keeps every grade, so it commutes with picking the links of one grade. */
  lemma {:induction false} WithKeyRepairAll(s: seq<Link>, d: Option<string>, k: nat)
    requires d.Some? ==> IsOrigin(d.value)
    ensures WithKey(RepairAll(s, d), k) == RepairAll(WithKey(s, k), d)
    decreases s
  {
    if s != [] {
      var r := RepairAll(s, d);
      assert r[1..] == RepairAll(s[1..], d);
      WithKeyRepairAll(s[1..], d, k);
      var head := if RelevanceKey(s[0]) == k then [s[0]] else [];
      assert RelevanceKey(r[0]) == RelevanceKey(s[0]);
      assert RepairAll(head + WithKey(s[1..], k), d) == RepairAll(head, d) + RepairAll(WithKey(s[1..], k), d);
    }
  }

  /** Repairing two permutations of one list gives two permutations of one list. */
  lemma {:induction false} RepairedPermutation(a: seq<Link>, b: seq<Link>, d: Option<string>)
    requires d.Some? ==> IsOrigin(d.value)
    requires multiset(a) == multiset(b)
    ensures multiset(RepairAll(a, d)) == multiset(RepairAll(b, d))
    decreases |a|
  {
    if a == [] {
      assert |b| == |multiset(b)| == 0;
      assert RepairAll(a, d) == [] == RepairAll(b, d);
    } else {
      assert a[0] in multiset(b);
      var j :| 0 <= j < |b| && b[j] == a[0];
      var rest := b[..j] + b[j + 1..];
      RemoveMatched(a, b, j);
      RepairedPermutation(a[1..], rest, d);
      assert a == [a[0]] + a[1..];
      assert b == b[..j] + ([b[j]] + b[j + 1..]);
      RepairAllAppend([a[0]], a[1..], d);
      RepairAllAppend(b[..j], [b[j]] + b[j + 1..], d);
      RepairAllAppend([b[j]], b[j + 1..], d);
      RepairAllAppend(b[..j], b[j + 1..], d);
      assert RepairAll([a[0]], d) == [Repaired(a[0], d)];
      MovedToFront(RepairAll(a[1..], d), RepairAll(b[..j], d), RepairAll(b[j + 1..], d), Repaired(a[0], d));
    }
  }

  /** Taking one element off the front of a list and the same element out of a permutation of it leaves permutations. */
  lemma RemoveMatched(a: seq<Link>, b: seq<Link>, j: nat)
    requires a != [] && multiset(a) == multiset(b) && j < |b| && b[j] == a[0]
    ensures multiset(a[1..]) == multiset(b[..j] + b[j + 1..])
  {
    assert a == [a[0]] + a[1..];
    assert b == b[..j] + [b[j]] + b[j + 1..];
    assert multiset(a[1..]) == multiset(a) - multiset{a[0]};
  }

  /** An element in front of one list, or between the two parts of a permutation of it, gives permutations. */
  lemma MovedToFront(s: seq<Link>, p: seq<Link>, q: seq<Link>, y: Link)
    requires multiset(s) == multiset(p + q)
    ensures multiset([y] + s) == multiset(p + ([y] + q))
  {
  }

  /** Repair keeps every relevance grade, so ranking the repaired list again leaves it in place. */
  lemma RankingSurvivesRepair(links: seq<Link>, d: Option<string>)
    requires d.Some? ==> IsOrigin(d.value)
    ensures Ranked(RepairAll(Ranked(links), d)) == RepairAll(Ranked(links), d)
  {
    var ranked := Ranked(links);
    var once := RepairAll(ranked, d);
    SameGradesSameRanking(ranked, once);
    RankedKeepsGrades(links);
    if HasRelevance(once) {
      SortOfSorted(once);
    }
  }

  /** Running the post-processing on its own output changes nothing. */
  lemma PostprocessedIsIdempotent(reply: Reply, page: string)
    ensures Postprocessed(Postprocessed(reply, page), page) == Postprocessed(reply, page)
  {
    if reply.relatedLinks.Some? {
      var d := Domain(page);
      RankingSurvivesRepair(reply.relatedLinks.value, d);
      RepairAllIsIdempotent(Ranked(reply.relatedLinks.value), d);
    }
  }

  /**
   * `gemini_response`: select the chat variant, build the prompt, ask the
   * model; for a card-crawl query, parse the answer, rank and repair its
   * links and serialize it again, falling back to the raw text when it is
   * not JSON.
   */
  method GeminiResponse(userQuery: string, webContent: string,
                        model: (PromptVariant, string) -> string,
                        parse: string -> Parsed,
                        dump: Reply -> string)
    returns (text: string)
    ensures var raw := model(SelectVariant(userQuery), Prompt(EnhancedQuery(userQuery), webContent));
      text == if IsCardCrawlQuery(userQuery) && parse(raw).Json?
              then dump(Postprocessed(parse(raw).reply, webContent))
              else raw
  {
    var isCardQuery := IsCardQuery(userQuery);
    var variant := SelectVariant(userQuery);
    var enhancedQuery := EnhancedQuery(userQuery);
    var prompt := Prompt(enhancedQuery, webContent);
    var raw := model(variant, prompt);
    if isCardQuery && !Contains(userQuery, FinalMarker) {
      match parse(raw)
      case NotJson =>
        text := raw;
      case Json(reply) =>
        var response := reply;
        if response.relatedLinks.Some? {
          var links := response.relatedLinks.value;
          if HasRelevance(links) {
            links := Sort(links);
          }
          ghost var ranked := links;
          ghost var origin := Domain(webContent);
          var i := 0;
          while i < |links|
            invariant 0 <= i <= |links| == |ranked|
            invariant forall j | 0 <= j < i :: links[j] == Repaired(ranked[j], origin)
            invariant forall j | i <= j < |links| :: links[j] == ranked[j]
          {
            var link := links[i];
            if link.url.Some? && link.url.value != ""
               && !("http://" <= link.url.value || "https://" <= link.url.value)
            {
              if "/" <= link.url.value {
                var domainMatch := Domain(webContent);
                if domainMatch.Some? {
                  links := links[i := link.(url := Some(domainMatch.value + link.url.value))];
                }
              }
            }
            assert links[i] == Repaired(ranked[i], origin);
            i := i + 1;
          }
          assert links == RepairAll(ranked, origin);
          response := response.(relatedLinks := Some(links));
        }
        text := dump(response);
    } else {
      text := raw;
    }
  }
}
