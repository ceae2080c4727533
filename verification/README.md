# DeepCrawlAI crawl controller and model adapter, in Dafny

This project models the two sequential pieces of DeepCrawlAI's crawler.

- **The depth-bounded recursive crawl** (`crawl_with_depth` in `src/main.py`). It checks the depth bound and the shared visited set, marks the URL visited, fetches the page and asks the language model for related links. It then crawls, one after another and in list order, every link whose URL starts with `http` and is not yet visited. The result is a `{url, content, sub_pages}` tree. An answer that is not JSON still gives a node, with no children.
- **The adapter around the language-model call** (`gemini_response` in `src/core/gemini.py`). It classifies credit-card intent by keyword, picks one of four chat variants, wraps a card query in extra instructions and assembles the prompt. For card-crawl queries it also post-processes the parsed answer: a stable sort of `related_links` by relevance grade (高 > 中 > 低 = missing > other), then repair of root-relative URLs with the page's first `https?://[^/]+` origin.

The page fetcher (`crawler.url_to_markdown`), the model (`send_message`), `json.loads` and `json.dumps` are parameters of the model. They are function values supplied by the caller.

Files:

- `strings.dfy`, module `Strings`: Python's `in`, `startswith` (Dafny's prefix `<=`) and an ASCII `lower`.
- `responses.dfy`, module `Responses`: the parsed answer. A `Link` has optional `url`, `title` and `relevance`. A `Reply` has an optional `related_links`. `Parsed` is `NotJson | Json(reply)`.
- `ranking.dfy`, module `LinkRanking`: the relevance key and the stable descending sort.
- `repair.dfy`, module `UrlRepair`: the regular expression `https?://[^/]+` on the first 1000 characters, and the URL repair.
- `gemini.dfy`, module `Gemini`: intent, variant selection, enhanced query, prompt, post-processing, and the method `GeminiResponse`.
- `crawl.dfy`, module `CrawlController`: the specification functions `Crawl` and `CrawlLinks`, and the class `Crawler`.

`Crawl` and `CrawlLinks` thread a `CrawlState` through the recursion. The state holds the visited set and a log of the URLs handed to the fetcher. `Crawler` holds the visited set as a field that every recursive call updates in place, as the source's shared `set` is. Its method `CrawlWithDepth` mirrors the source's guards, the `for` loop and the recursive call, and is proved equal to `Crawl`. The fetch log is a ghost field, used only by the proofs.

`crawl_with_depth` calls `url_to_markdown` in its selenium mode (src/main.py:17). That mode returns `True` when an exception is raised once the browser has started (src/core/crawler.py:31-33). `crawl_with_depth` does not treat `True` as a failure. The model gives the fetcher three outcomes: `None`, `Some(Markdown(text))` and `Some(RaisedTrue)`. In `crawl_with_depth` the last proceeds like page text, as in src/main.py:17-46.

Three facts about the code shape the model:

- `crawl_with_depth` has no thread pool, cache, failure registry, retry, local keyword scoring or per-page link cap.
- Children are crawled one after another, in `related_links` order, and `sub_pages` keeps that order.
- The depth guard at entry (src/main.py:10-11) is the only depth check. A child call at `max_depth` returns at that guard, so a node built at `max_depth - 1` has no children and nothing is fetched at `max_depth`.

## Model

| member | source | states |
|---|---|---|
| `Strings.Lower` | src/core/gemini.py:33 | The `.lower()` of the query on ASCII letters: same length, no upper-case ASCII letter remains, each upper-case letter becomes its lower-case one, and every other character is kept. |
| `Strings.LowerIdempotent` | src/core/gemini.py:33 | Lower-casing twice is lower-casing once. |
| `Gemini.CardKeywordsReduce` | src/core/gemini.py:33 | A query is a card query iff its lower-cased form contains 信用卡, 卡片, 卡別 or card. The other two keywords of the list add nothing. |
| `Gemini.IsCardQuery` | src/core/gemini.py:33 | Every card query mentions "卡" or "card" after lower-casing, and every query that mentions "card" in any ASCII case is one. |
| `Gemini.CardQueryIgnoresCase` | src/core/gemini.py:33 | Because the test runs on the lower-cased query, a query and its lower-cased form are classified alike. |
| `Gemini.IsCardCrawlQuery` | src/core/gemini.py:217-239 | The condition shared by the card instructions and the post-processing: never true for a final-analysis query; when true, the query mentions "卡" or "card"; and any query that mentions "card" without the final marker satisfies it. |
| `Gemini.SelectVariant` | src/core/gemini.py:36-213 | Exactly one chat variant is chosen, in this priority: final marker with "JSON格式", then final marker alone, then card query, then the default. Each variant is given by an iff condition. |
| `Gemini.EnhancedQuery` | src/core/gemini.py:216-226 | The user query is always a suffix. The result is the query itself or the card preamble followed by it. It differs from the query exactly when the card-crawl variant is selected. |
| `Gemini.Prompt` | src/core/gemini.py:228-234 | The prompt holds the enhanced query and, after it, the page text, at fixed offsets. Its length is the sum of the parts. |
| `Gemini.PromptHasQueryThenPage` | src/core/gemini.py:216-234 | The prompt sent always contains the user's own query, and after it the page text. |
| `Gemini.Postprocessed` | src/core/gemini.py:247-266 | A reply without `related_links` is unchanged. Otherwise the list keeps its length, is ordered by grade when some link is graded, and each entry is the repair of a link of the input. |
| `Gemini.PostprocessedIsStableRepair` | src/core/gemini.py:249-266 | An ungraded list comes out as the repaired input, in its order. For every grade, the links with that grade come out repaired in their input order. The result is a permutation of the repaired input. |
| `Gemini.WithKeyRepairAll` | src/core/gemini.py:253-266 | Repair keeps every grade, so repairing and then taking the links of one grade gives the same list as the other order. |
| `Gemini.RepairedPermutation` | src/core/gemini.py:251-266 | Repairing two permutations of one list gives two permutations of one list. |
| `Gemini.RankingSurvivesRepair` | src/core/gemini.py:247-266 | Ranking the repaired list again leaves it unchanged, because URL repair keeps every grade. |
| `Gemini.PostprocessedIsIdempotent` | src/core/gemini.py:239-266 | Post-processing a reply that was already post-processed changes nothing. |
| `Gemini.GeminiResponse` | src/core/gemini.py:17-275 | The model is asked with the selected variant and the assembled prompt. The raw answer is returned unchanged, unless the query is a card-crawl query and the answer parses as JSON. In that case the result is the dump of the ranked and repaired reply. |
| `LinkRanking.RelevanceKeyGrades` | src/core/gemini.py:253 | The key is at most 3. It is 3 exactly for 高, 2 exactly for 中, and 1 exactly for 低 or a missing relevance; anything else gets 0. |
| `LinkRanking.Ranked` | src/core/gemini.py:249-255 | The result is a permutation of the input. It is ordered by key when some link has a relevance, and it is the input itself when none has. |
| `LinkRanking.Insert` | src/core/gemini.py:251-255 | Inserting into an ordered list keeps it ordered by key, adds exactly one element, and brings in nothing else. |
| `LinkRanking.Sort` | src/core/gemini.py:251-255 | The sorted list has keys that never increase, and it is a permutation of the input (same multiset). |
| `LinkRanking.InsertWithKey` | src/core/gemini.py:251-255 | Insertion puts the new link in front of the links with the same key. |
| `LinkRanking.SortIsStable` | src/core/gemini.py:251-255 | Stability: for every key, the links with that key appear in the sorted list in their original order. |
| `LinkRanking.SortOfSorted` | src/core/gemini.py:251-255 | Sorting a list whose keys already never increase returns it unchanged. |
| `LinkRanking.RankedIsStableOrdering` | src/core/gemini.py:249-255 | The ranked list is a permutation and stable per key. It is ordered when some link has a relevance, and it is the input itself when none has. |
| `LinkRanking.SameGradesSameRanking` | src/core/gemini.py:249-255 | Two lists with the same grades position by position agree on having a graded link and on being ordered. |
| `LinkRanking.RankedKeepsGrades` | src/core/gemini.py:249-255 | Ranking neither adds nor removes graded links. |
| `UrlRepair.Window` | src/core/gemini.py:264 | The scanned text is the prefix of the page text of length min(1000, its length). |
| `UrlRepair.HostEnd` | src/core/gemini.py:264 | Greedy `[^/]+`: the run stops at the first '/' or at the end of the text, and holds no '/'. |
| `UrlRepair.FirstMatch` | src/core/gemini.py:264 | `re.search`: the leftmost index where `https?://[^/]+` matches, and no match before it; or no match at all. |
| `UrlRepair.MatchesAt` | src/core/gemini.py:264 | `https?://[^/]+` matches at an index iff "https://" or "http://" starts there and is followed by a character other than '/'. |
| `UrlRepair.MatchText` | src/core/gemini.py:264 | The captured text occurs at the match index, starts with its scheme, has a non-empty host with no '/', and ends at a '/' or at the end of the text. |
| `UrlRepair.FirstMatchIsLeftmostLongest` | src/core/gemini.py:264 | The text captured at the first match is the leftmost, longest match of the pattern, and it is an origin. |
| `UrlRepair.Domain` | src/core/gemini.py:264 | There is no result iff the pattern matches nowhere in the first 1000 characters. A result is the leftmost, longest match. It is an origin: a scheme followed by a host without '/'. |
| `UrlRepair.Repaired` | src/core/gemini.py:258-266 | Only the URL can change. It changes iff it is present, starts with "/" and an origin was found. The new URL is the origin followed by the old one. |
| `UrlRepair.RepairAll` | src/core/gemini.py:258-266 | The loop keeps the list's length, and every title and relevance in place. Entry `i` of the result is `Repaired` applied to entry `i` of the input, so each URL is repaired exactly as `Repaired` states. |
| `UrlRepair.RepairAllAppend` | src/core/gemini.py:258-266 | The loop treats each link on its own: repairing a concatenation gives the concatenation of the repaired parts. |
| `UrlRepair.RepairedIsIdempotent` | src/core/gemini.py:258-266 | A repaired URL starts with a scheme, so repairing again leaves the link unchanged. |
| `UrlRepair.RepairAllIsIdempotent` | src/core/gemini.py:258-266 | Running the repair loop twice gives the same list as running it once. |
| `CrawlController.FollowsIsPrefixTest` | src/main.py:32-33 | A link is followed iff its URL is present, starts with "http" and is not visited. The non-empty test of line 33 is implied by the prefix test. |
| `CrawlController.TitleOf` | src/main.py:38 | `link.get('title', '')`: the title when present, "" otherwise. |
| `CrawlController.LinksOf` | src/main.py:27 | `result.get('related_links', [])`: the list when present, the empty list otherwise. |
| `CrawlController.Crawl` | src/main.py:6-54 | If the depth is at least `max_depth` or the URL is visited: None, and the state is unchanged (nothing fetched). Otherwise the URL is marked visited and is the next one fetched. A fetch of None gives None. An answer that is not JSON gives `{url, content, []}`. A node is returned iff both guards pass and the fetch gives a page. The visited set only grows, and every URL is fetched once. A node has its own URL and the fetched content, and so does every child. Its children follow the link filter and are distinct. Its height is at most `max_depth - depth`; at `max_depth - 1` it has no children. The children's (url, title) pairs are a subsequence of the answer's links in order. |
| `CrawlController.CrawlLinks` | src/main.py:27-40 | The loop keeps only children whose URL starts with "http" and was not visited at the start. Children are distinct, each entry names its own node, and each is visited afterwards. Every child's content is what the fetcher returned for its URL. Their height is bounded. Their (url, title) pairs follow `related_links` order, with the title defaulting to "". At `max_depth` the loop fetches nothing and changes nothing. |
| `CrawlController.CrawlLinksStep` | src/main.py:30-39 | One turn of the loop. A link that fails the filter against the visited set of that moment changes nothing: the children, the visited set and the fetch log stay as they were. A link that passes is crawled: the state afterwards is the child crawl's, and `{url, title, node}` is appended exactly when that crawl returns a node. |
| `CrawlController.CrawlLinksAppends` | src/main.py:29-39 | A later turn of the loop only appends to `sub_pages`: a child kept after `n - 1` links is still there after `n`. |
| `CrawlController.CrawlLinksKeeps` | src/main.py:30-39 | The converse of the filter: below `max_depth`, a link that passes the filter on its turn and whose page can be fetched is in `sub_pages`, with its URL, its title and the node crawled for it. |
| `CrawlController.TurnSkips` | src/main.py:30-39 | A turn that appends nothing keeps the loop's guarantees, with the link counted as read. |
| `CrawlController.TurnKeeps` | src/main.py:30-39 | A turn that appends the node crawled for a followed link keeps the loop's guarantees: followed, distinct, visited, bounded height, fetched content, and the order of `related_links`. |
| `CrawlController.CrawlKeeps` | src/main.py:25-39 | For a node whose answer is JSON and which is below `max_depth - 1`, every link that passes the filter on its turn and whose page can be fetched is a child, with that link's URL and title. |
| `CrawlController.SubsequenceDropLast` | src/main.py:30-40 | Leaving out the last kept child keeps the children a subsequence of the links. |
| `CrawlController.SubsequenceSnoc` | src/main.py:30-40 | A link that is skipped, or whose crawl returns None, keeps the children a subsequence of the links. |
| `CrawlController.ExtendsReflexive` | src/main.py:10-11 | A call that returns at a guard leaves the crawl state as it was. |
| `CrawlController.ExtendsTransitive` | src/main.py:13-34 | Successive calls compose: the visited set keeps growing and no URL is fetched twice across them. |
| `CrawlController.VisitExtends` | src/main.py:13-17 | Adding an unvisited URL to the visited set and then fetching it is a valid step of a crawl. |
| `CrawlController.ExtendsKeepsConsistent` | src/main.py:10-17 | If every visited URL was fetched exactly once before a crawl step, the same holds after it. |
| `CrawlController.FreshCrawlFetchesOnce` | src/main.py:6-17 | A crawl started with an empty visited set fetches each URL at most once, and fetches exactly the URLs it visits. |
| `CrawlController.Crawler.constructor` | src/main.py:7-8 | A new run starts with an empty visited set and nothing fetched. |
| `CrawlController.Crawler.CrawlWithDepth` | src/main.py:6-54 | The returned node and the new visited set and fetch log are exactly those of `Crawl` from the old state. The at-most-once fetch invariant is kept. |

## Left out

- `src/core/crawler.py` is not part of this model beyond its result type. Selenium, cloudscraper, BeautifulSoup and html2text are I/O or foreign libraries. The fetcher is a parameter `string -> Option<Page>`.
- The model SDK is left out: `genai.configure`, the generation settings, `GenerativeModel`, `start_chat` and `send_message` (src/core/gemini.py:15-30, 236). The model is a parameter from (variant, prompt) to the raw text.
- `json.loads` and `json.dumps` are parameters (`string -> Parsed` and `Reply -> string`). Crawl's oracle is one parameter standing for `json.loads(gemini_response(query, content))`.
- The four instruction texts are represented only by which `PromptVariant` is chosen. The card preamble of lines 218-225 is a placeholder constant ending in a blank line. No property depends on their wording.
- `Lower` lower-cases ASCII letters only. Python's `str.lower` also maps other Unicode letters.
- The model's `Parsed` covers only "not JSON" and "a JSON object". A `url`, `title` or `relevance` is either absent (`None`) or a string. What the source does with other JSON shapes:
  - A null or empty `url` is skipped in both places, like a missing one (src/main.py:32-33, src/core/gemini.py:259). The model's `None` and `""` cover these cases.
  - A null or other non-string `relevance` that can be hashed counts as present for `any()`, and it gets sort key 0 (src/core/gemini.py:249, 253). This is the same as an unrecognised string, so `Some(s)` with `s` not a grade covers it. A list or object `relevance` makes the key raise; line 270 catches that, and the raw text is returned. That case is not represented.
  - A null or non-string `title` is copied into `sub_pages` unchanged (src/main.py:38). The model's titles are strings, so this is not represented.
  - A truthy `url` that is not a string raises on `startswith`. In src/main.py:33 the exception is not caught (line 48 catches only `JSONDecodeError`). In src/core/gemini.py:259 it is caught at line 270, and the raw text is returned. Not represented.
  - A `related_links` that is not a list. Not represented: in the model `related_links` is either absent or a list. What the source does:
    - Null, a number or a boolean: src/main.py:31 raises a `TypeError` that is not caught. In src/core/gemini.py:249 the same error is raised inside the `try`, and line 273 returns the raw text.
    - An empty string or an empty object: src/main.py:31 iterates zero times, and the node is built with no `sub_pages`.
    - Any other string or object: src/main.py:32 calls `.get` on a character or a key, and the `AttributeError` is not caught.
    - In src/core/gemini.py a string or an object is iterated by character or key. `"relevance" in link` and `"url" in link` are then substring tests. When no character or key contains "relevance" or "url", nothing is changed, and line 269 returns `json.dumps` of the object.
    - A key containing "relevance" makes the sort call `.get` on a string. A key containing "url" makes line 259 index a string with a string. Either raises inside the `try`, and the raw text is returned.
  - For a top-level array, src/core/gemini.py:247 usually finds no `related_links`, and line 269 returns `json.dumps` of the array. src/main.py:27 calls `.get` on it, which raises an exception that is not caught. Not represented, and neither are other top-level values or links that are not objects.
- Keys other than `related_links`, `url`, `title` and `relevance` are not represented. Examples are `content`, `creditCards`, `description` and `imageUrl`. The dump of src/core/gemini.py:269 passes them through unchanged. The nodes built in src/main.py:36-46 keep only `url` and `title` of each link, so there they are dropped, as in the model.
- `Gemini.Postprocessed` looks up the origin once for the whole list. The source runs the regular expression again for each root-relative link, which gives the same value each time. The method `GeminiResponse` keeps the source's per-link evaluation.
- `sorted` is modelled by an insertion sort. Only its result is claimed: ordered, a permutation, stable.
- `print` logging and `main()` (src/main.py:56-79) are left out. `main()` is fixed input and printing.
- `GeminiResponse` on the fetch outcome `RaisedTrue` is not represented. src/main.py:22 hands the value `True` to `gemini_response` as `web_content`. The crawl's answer step is a parameter that receives the `Page`, `RaisedTrue` included, but `GeminiResponse` takes the page as a string. In the source the prompt then holds the text "True" (src/core/gemini.py:233). For a card-crawl query whose answer is JSON with a root-relative link, `web_content[:1000]` (line 264) raises a `TypeError` on the boolean. Line 273 then returns the raw text, and the ranking already done is lost.
- A fetcher that raises is not represented: the model's fetcher always returns. In selenium mode, when starting the browser fails (src/core/crawler.py:21), `driver` is never bound, the `finally` of line 35 raises, and the error escapes `crawl_with_depth` (src/main.py:17 is outside the `try`) and ends the whole crawl.
- A caller-supplied `visited_urls` is covered by the `st` argument of `Crawl`, which may hold any visited set. `Crawler` starts from an empty set, and its `Valid()` ties the visited set to the fetch log, so a set of URLs that were never fetched cannot be passed to `CrawlWithDepth`. Repeated calls on one `Crawler` share one visited set.
- `max_depth=2` and `current_depth=0` (src/main.py:6) are default arguments. Dafny has none, so callers pass both explicitly.
