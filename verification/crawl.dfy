/**
 * The depth-bounded recursive crawl of src/main.py (`crawl_with_depth`).
 * The page fetcher (`crawler.url_to_markdown`) and the oracle
 * (`gemini.gemini_response` followed by `json.loads`) are parameters.
 *
 * `Crawl` and `CrawlLinks` are the specification: they thread the visited
 * set, together with the log of URLs handed to the fetcher, through the
 * recursion. The class `Crawler` holds the mutable visited set and its
 * method `CrawlWithDepth` is the loop of the source, proved equal to `Crawl`.
 */
module CrawlController {
  import opened Responses

  /** What `url_to_markdown` returns when it does not return None: the text, or `True` after a caught exception. */
  datatype Page = Markdown(text: string) | RaisedTrue

  /** `{url, content, sub_pages}` (lines 42-46 and 50-54). */
  datatype CrawlNode = CrawlNode(url: string, content: Page, subPages: seq<SubPage>)

  /** `{url, title, content}`, one entry of `sub_pages` (lines 36-40). */
  datatype SubPage = SubPage(url: string, title: string, content: CrawlNode)

  /** The visited set, and the URLs handed to the fetcher so far, in call order. */
  datatype CrawlState = CrawlState(visited: set<string>, fetched: seq<string>)

  type Fetcher = string -> Option<Page>
  type Oracle = (string, Page) -> Parsed

  /** Line 33: a link is followed when its URL is non-empty, starts with "http" and is not visited yet. */
  predicate Follows(link: Link, visited: set<string>)
  {
    link.url.Some? && link.url.value != "" && "http" <= link.url.value && link.url.value !in visited
  }

  /** The truthiness test `url and ...` of line 33 is implied by the prefix test. */
  lemma FollowsIsPrefixTest(link: Link, visited: set<string>)
    ensures Follows(link, visited) <==> link.url.Some? && "http" <= link.url.value && link.url.value !in visited
  {
  }

  /** `link.get('title', '')` (line 38). */
  function TitleOf(link: Link): (t: string)
    ensures link.title.Some? ==> t == link.title.value
    ensures link.title.None? ==> t == ""
  {
    match link.title
    case Some(t) => t
    case None => ""
  }

  /** `result.get('related_links', [])` (line 27). */
  function LinksOf(reply: Reply): (links: seq<Link>)
    ensures reply.relatedLinks.Some? ==> links == reply.relatedLinks.value
    ensures reply.relatedLinks.None? ==> links == []
  {
    match reply.relatedLinks
    case Some(links) => links
    case None => []
  }

  ghost predicate Distinct(s: seq<string>)
  {
    forall i, j | 0 <= i < j < |s| :: s[i] != s[j]
  }

  /**
   * `st'` is a later state of the same crawl: the visited set only grows,
   * the fetch log only gets longer, and the URLs fetched in between are
   * exactly the newly visited ones, each fetched once.
   */
  ghost predicate Extends(st: CrawlState, st': CrawlState)
  {
    st.visited <= st'.visited
    && st.fetched <= st'.fetched
    && (forall u :: u in st'.visited - st.visited <==> u in st'.fetched[|st.fetched|..])
    && Distinct(st'.fetched[|st.fetched|..])
  }

  /** Every visited URL was fetched, every fetched URL is visited, and none was fetched twice. */
  ghost predicate Consistent(st: CrawlState)
  {
    Distinct(st.fetched) && forall u :: u in st.visited <==> u in st.fetched
  }

  /** The tree has at most `k` levels. */
  ghost predicate HeightAtMost(node: CrawlNode, k: int)
    decreases k
  {
    k >= 1 && forall sp | sp in node.subPages :: HeightAtMost(sp.content, k - 1)
  }

  /** The children are followed links: distinct, starting with "http", not in `visited`, each entry naming its own node. */
  ghost predicate ChildrenFollowed(subs: seq<SubPage>, visited: set<string>)
  {
    (forall sp | sp in subs :: sp.url == sp.content.url && "http" <= sp.url && sp.url !in visited)
    && (forall i, j | 0 <= i < j < |subs| :: subs[i].url != subs[j].url)
  }

  /** `xs` is `ys` with some elements left out, the rest in the same order. */
  ghost predicate Subsequence<T>(xs: seq<T>, ys: seq<T>)
    decreases |ys|
  {
    if xs == [] then true
    else if ys == [] then false
    else if xs[|xs| - 1] == ys[|ys| - 1] then Subsequence(xs[..|xs| - 1], ys[..|ys| - 1])
    else Subsequence(xs, ys[..|ys| - 1])
  }

  /** Leaving out the last element of a subsequence keeps it a subsequence. */
  lemma {:induction false} SubsequenceDropLast<T>(xs: seq<T>, ys: seq<T>)
    requires xs != [] && Subsequence(xs, ys)
    ensures Subsequence(xs[..|xs| - 1], ys)
    decreases |ys|, 0
  {
    var xs' := xs[..|xs| - 1];
    if xs' != [] {
      var ys', y := ys[..|ys| - 1], ys[|ys| - 1];
      assert ys == ys' + [y];
      if xs[|xs| - 1] != y {
        SubsequenceDropLast(xs, ys');
      }
      SubsequenceSnoc(xs', ys', y);
    }
  }

  /** Appending an element to the longer sequence keeps a subsequence one. */
  lemma {:induction false} SubsequenceSnoc<T>(xs: seq<T>, ys: seq<T>, y: T)
    requires Subsequence(xs, ys)
    ensures Subsequence(xs, ys + [y])
    decreases |ys|, 1
  {
    assert (ys + [y])[..|ys|] == ys;
    if xs != [] && xs[|xs| - 1] == y {
      SubsequenceDropLast(xs, ys);
    }
  }

  /** `(url, title)` of a link as the loop reads it. */
  function LinkLabels(links: seq<Link>): seq<(Option<string>, string)>
  {
    seq(|links|, i requires 0 <= i < |links| => (links[i].url, TitleOf(links[i])))
  }

  /** `(url, title)` of each entry of `sub_pages`. */
  function PageLabels(subs: seq<SubPage>): seq<(Option<string>, string)>
  {
    seq(|subs|, i requires 0 <= i < |subs| => (Some(subs[i].url), subs[i].title))
  }

  lemma ExtendsReflexive(st: CrawlState)
    ensures Extends(st, st)
  {
  }

  lemma {:induction false} ExtendsTransitive(a: CrawlState, b: CrawlState, c: CrawlState)
    requires Extends(a, b) && Extends(b, c)
    ensures Extends(a, c)
  {
    var s1, s2 := b.fetched[|a.fetched|..], c.fetched[|b.fetched|..];
    assert c.fetched[|a.fetched|..] == s1 + s2 by {
      assert b.fetched == c.fetched[..|b.fetched|];
    }
    forall i, j | 0 <= i < |s1| <= j < |s1| + |s2|
      ensures (s1 + s2)[i] != (s1 + s2)[j]
    {
      assert s1[i] in s1 && s2[j - |s1|] in s2;
    }
  }

  /** Marking a new URL visited and fetching it. */
  lemma VisitExtends(st: CrawlState, url: string)
    requires url !in st.visited
    ensures Extends(st, CrawlState(st.visited + {url}, st.fetched + [url]))
  {
  }

  /** Extending a consistent state keeps it consistent. */
  lemma {:induction false} ExtendsKeepsConsistent(st: CrawlState, st': CrawlState)
    requires Consistent(st) && Extends(st, st')
    ensures Consistent(st')
  {
    var old_, new_ := st.fetched, st'.fetched[|st.fetched|..];
    assert st'.fetched == old_ + new_;
    forall i, j | 0 <= i < |old_| <= j < |st'.fetched|
      ensures st'.fetched[i] != st'.fetched[j]
    {
      assert old_[i] in old_ && new_[j - |old_|] in new_;
    }
    forall u ensures u in st'.visited <==> u in st'.fetched {
      assert u in old_ ==> u in st'.fetched;
      assert u in new_ ==> u in st'.fetched;
      if u in st'.fetched {
        var k :| 0 <= k < |st'.fetched| && st'.fetched[k] == u;
        if k < |old_| { assert old_[k] in old_; } else { assert new_[k - |old_|] in new_; }
      }
    }
  }

  /**
   * `crawl_with_depth` (lines 6-54): the depth and visited guards, marking
   * `url` visited before fetching, the fetch, the oracle, and the tree built
   * from the children the loop of `CrawlLinks` collects. Returns the node
   * (or None) and the state afterwards.
   */
  function Crawl(query: string, url: string, maxDepth: int, depth: int, st: CrawlState,
                 fetch: Fetcher, ask: Oracle): (res: (Option<CrawlNode>, CrawlState))
    ensures depth >= maxDepth || url in st.visited ==> res == (None, st)
    ensures !(depth >= maxDepth || url in st.visited) ==>
      url in res.1.visited && |st.fetched| < |res.1.fetched| && res.1.fetched[|st.fetched|] == url
    ensures !(depth >= maxDepth || url in st.visited) && fetch(url).None? ==>
      res == (None, CrawlState(st.visited + {url}, st.fetched + [url]))
    ensures !(depth >= maxDepth || url in st.visited) && fetch(url).Some? && ask(query, fetch(url).value).NotJson? ==>
      res == (Some(CrawlNode(url, fetch(url).value, [])), CrawlState(st.visited + {url}, st.fetched + [url]))
    ensures Extends(st, res.1)
    ensures res.0.Some? <==> !(depth >= maxDepth || url in st.visited) && fetch(url).Some?
    ensures res.0.Some? ==>
      res.0.value.url == url && fetch(url) == Some(res.0.value.content)
      && ChildrenFollowed(res.0.value.subPages, st.visited + {url})
      && (forall sp | sp in res.0.value.subPages :: fetch(sp.url) == Some(sp.content.content))
      && HeightAtMost(res.0.value, maxDepth - depth)
      && (depth == maxDepth - 1 ==> res.0.value.subPages == [])
    ensures res.0.Some? && ask(query, res.0.value.content).Json? ==>
      Subsequence(PageLabels(res.0.value.subPages), LinkLabels(LinksOf(ask(query, res.0.value.content).reply)))
    decreases maxDepth - depth, 1, 0
  {
    if depth >= maxDepth || url in st.visited then
      ExtendsReflexive(st);
      (None, st)
    else
      var st1 := CrawlState(st.visited + {url}, st.fetched + [url]);
      VisitExtends(st, url);
      match fetch(url)
      case None => (None, st1)
      case Some(content) =>
        match ask(query, content)
        case NotJson => (Some(CrawlNode(url, content, [])), st1)
        case Json(reply) =>
          var links := LinksOf(reply);
          var (subs, st2) := CrawlLinks(query, links, |links|, maxDepth, depth + 1, st1, fetch, ask);
          ExtendsTransitive(st, st1, st2);
          assert links[..|links|] == links;
          (Some(CrawlNode(url, content, subs)), st2)
  }

  /**
   * The loop of lines 30-40 after its first `n` links: each link that passes
   * `Follows` against the visited set of that moment is crawled one level
   * deeper, and kept in `sub_pages` when the crawl returns a node.
   */
  function CrawlLinks(query: string, links: seq<Link>, n: nat, maxDepth: int, depth: int, st: CrawlState,
                      fetch: Fetcher, ask: Oracle): (res: (seq<SubPage>, CrawlState))
    requires n <= |links| && depth <= maxDepth
    ensures Extends(st, res.1)
    ensures ChildrenFollowed(res.0, st.visited)
    ensures forall sp | sp in res.0 :: sp.url in res.1.visited && HeightAtMost(sp.content, maxDepth - depth)
    ensures forall sp | sp in res.0 :: fetch(sp.url) == Some(sp.content.content)
    ensures Subsequence(PageLabels(res.0), LinkLabels(links[..n]))
    ensures depth == maxDepth ==> res == ([], st)
    decreases maxDepth - depth + 1, 0, n
  {
    if n == 0 then
      ExtendsReflexive(st);
      ([], st)
    else
      var (subs, st1) := CrawlLinks(query, links, n - 1, maxDepth, depth, st, fetch, ask);
      var link := links[n - 1];
      assert links[..n] == links[..n - 1] + [link];
      assert LoopPost(st, subs, st1, links[..n - 1], maxDepth - depth, fetch);
      if Follows(link, st1.visited) then
        var (child, st2) := Crawl(query, link.url.value, maxDepth, depth, st1, fetch, ask);
        match child
        case None =>
          TurnSkips(st, st1, st2, subs, links[..n - 1], link, maxDepth - depth, fetch);
          (subs, st2)
        case Some(node) =>
          TurnKeeps(st, st1, st2, subs, links[..n - 1], link, node, maxDepth - depth, fetch);
          (subs + [SubPage(link.url.value, TitleOf(link), node)], st2)
    else
      ExtendsReflexive(st1);
      TurnSkips(st, st1, st1, subs, links[..n - 1], link, maxDepth - depth, fetch);
      (subs, st1)
  }

  /**
   * What the loop of lines 30-40 guarantees after reading the links `read`,
   * from state `st` to `st'` with children `subs`: the state is a later one
   * of the same crawl; the children are followed links, distinct, each
   * visited, of height at most `height`, each holding the page the fetcher
   * returned for its URL; and their (url, title) pairs are a subsequence of
   * those of `read`.
   */
  ghost predicate LoopPost(st: CrawlState, subs: seq<SubPage>, st': CrawlState, read: seq<Link>, height: int, fetch: Fetcher)
  {
    && Extends(st, st')
    && ChildrenFollowed(subs, st.visited)
    && (forall sp | sp in subs :: sp.url in st'.visited && HeightAtMost(sp.content, height))
    && (forall sp | sp in subs :: fetch(sp.url) == Some(sp.content.content))
    && Subsequence(PageLabels(subs), LinkLabels(read))
  }

  /** A turn of the loop that appends nothing keeps `LoopPost`, with the link added to those read. */
  lemma TurnSkips(st: CrawlState, st1: CrawlState, st2: CrawlState, subs: seq<SubPage>, read: seq<Link>, link: Link,
                  height: int, fetch: Fetcher)
    requires LoopPost(st, subs, st1, read, height, fetch) && Extends(st1, st2)
    ensures LoopPost(st, subs, st2, read + [link], height, fetch)
  {
    ExtendsTransitive(st, st1, st2);
    assert LinkLabels(read + [link]) == LinkLabels(read) + [(link.url, TitleOf(link))];
    SubsequenceSnoc(PageLabels(subs), LinkLabels(read), (link.url, TitleOf(link)));
  }

  /** A turn of the loop that appends the node crawled for a followed link keeps `LoopPost`. */
  lemma TurnKeeps(st: CrawlState, st1: CrawlState, st2: CrawlState, subs: seq<SubPage>, read: seq<Link>, link: Link,
                  node: CrawlNode, height: int, fetch: Fetcher)
    requires LoopPost(st, subs, st1, read, height, fetch) && Extends(st1, st2)
    requires Follows(link, st1.visited) && link.url.value in st2.visited
    requires node.url == link.url.value && fetch(node.url) == Some(node.content) && HeightAtMost(node, height)
    ensures LoopPost(st, subs + [SubPage(link.url.value, TitleOf(link), node)], st2, read + [link], height, fetch)
  {
    ExtendsTransitive(st, st1, st2);
    var pair := (link.url, TitleOf(link));
    var subs' := subs + [SubPage(link.url.value, TitleOf(link), node)];
    assert LinkLabels(read + [link]) == LinkLabels(read) + [pair];
    assert PageLabels(subs') == PageLabels(subs) + [pair];
    assert (PageLabels(subs) + [pair])[..|subs|] == PageLabels(subs);
    assert (LinkLabels(read) + [pair])[..|read|] == LinkLabels(read);
    forall sp | sp in subs'
      ensures sp.url in st2.visited && HeightAtMost(sp.content, height)
      ensures fetch(sp.url) == Some(sp.content.content)
    {
    }
  }

  /**
   * The converse of `ChildrenFollowed`: a link that passes the filter on its
   * turn of the loop, below `max_depth`, and whose page the fetcher returns,
   * is kept in `sub_pages`, with its title and the node crawled for it.
   */
  lemma {:induction false} CrawlLinksKeeps(query: string, links: seq<Link>, n: nat, k: nat, maxDepth: int, depth: int,
                                           st: CrawlState, fetch: Fetcher, ask: Oracle)
    requires k < n <= |links| && depth < maxDepth
    requires Follows(links[k], CrawlLinks(query, links, k, maxDepth, depth, st, fetch, ask).1.visited)
    requires fetch(links[k].url.value).Some?
    ensures var turn := CrawlLinks(query, links, k, maxDepth, depth, st, fetch, ask).1;
      var node := Crawl(query, links[k].url.value, maxDepth, depth, turn, fetch, ask).0;
      node.Some? && SubPage(links[k].url.value, TitleOf(links[k]), node.value)
        in CrawlLinks(query, links, n, maxDepth, depth, st, fetch, ask).0
    decreases n
  {
    if n == k + 1 {
      KeptOnItsTurn(query, links, k, maxDepth, depth, st, fetch, ask);
    } else {
      CrawlLinksKeeps(query, links, n - 1, k, maxDepth, depth, st, fetch, ask);
      var turn := CrawlLinks(query, links, k, maxDepth, depth, st, fetch, ask).1;
      var node := Crawl(query, links[k].url.value, maxDepth, depth, turn, fetch, ask).0;
      CrawlLinksAppends(query, links, n, maxDepth, depth, st, fetch, ask,
                        SubPage(links[k].url.value, TitleOf(links[k]), node.value));
    }
  }

  /** `CrawlLinksKeeps` on the link's own turn. */
  lemma KeptOnItsTurn(query: string, links: seq<Link>, k: nat, maxDepth: int, depth: int,
                      st: CrawlState, fetch: Fetcher, ask: Oracle)
    requires k < |links| && depth < maxDepth
    requires Follows(links[k], CrawlLinks(query, links, k, maxDepth, depth, st, fetch, ask).1.visited)
    requires fetch(links[k].url.value).Some?
    ensures var turn := CrawlLinks(query, links, k, maxDepth, depth, st, fetch, ask).1;
      var node := Crawl(query, links[k].url.value, maxDepth, depth, turn, fetch, ask).0;
      node.Some? && SubPage(links[k].url.value, TitleOf(links[k]), node.value)
        in CrawlLinks(query, links, k + 1, maxDepth, depth, st, fetch, ask).0
  {
    CrawlLinksStep(query, links, k + 1, maxDepth, depth, st, fetch, ask);
    var kept := CrawlLinks(query, links, k + 1, maxDepth, depth, st, fetch, ask).0;
    assert kept[|kept| - 1] in kept;
  }

  /** A later turn of the loop only appends to `sub_pages`: what was kept stays kept. */
  lemma CrawlLinksAppends(query: string, links: seq<Link>, n: nat, maxDepth: int, depth: int, st: CrawlState,
                          fetch: Fetcher, ask: Oracle, sp: SubPage)
    requires 0 < n <= |links| && depth <= maxDepth
    requires sp in CrawlLinks(query, links, n - 1, maxDepth, depth, st, fetch, ask).0
    ensures sp in CrawlLinks(query, links, n, maxDepth, depth, st, fetch, ask).0
  {
  }

  /**
   * One turn of the loop. A link that fails the filter of line 33 is not
   * crawled: neither `sub_pages` nor the visited set nor the fetch log
   * changes. A link that passes it is crawled, and the state afterwards is
   * the child crawl's; `sub_pages` gains the child's node when there is one.
   */
  lemma CrawlLinksStep(query: string, links: seq<Link>, n: nat, maxDepth: int, depth: int, st: CrawlState,
                       fetch: Fetcher, ask: Oracle)
    requires 0 < n <= |links| && depth <= maxDepth
    ensures var prev := CrawlLinks(query, links, n - 1, maxDepth, depth, st, fetch, ask);
      var link := links[n - 1];
      var res := CrawlLinks(query, links, n, maxDepth, depth, st, fetch, ask);
      !Follows(link, prev.1.visited) ==> res == prev
    ensures var prev := CrawlLinks(query, links, n - 1, maxDepth, depth, st, fetch, ask);
      var link := links[n - 1];
      var res := CrawlLinks(query, links, n, maxDepth, depth, st, fetch, ask);
      Follows(link, prev.1.visited) ==>
        var child := Crawl(query, link.url.value, maxDepth, depth, prev.1, fetch, ask);
        res.1 == child.1
        && res.0 == prev.0 + (if child.0.Some? then [SubPage(link.url.value, TitleOf(link), child.0.value)] else [])
  {
  }

  /**
   * `CrawlLinksKeeps` for the loop of one node: when the model answers with
   * JSON, every link that passes the filter on its turn and whose page can
   * be fetched is a child of the node, unless the node is at `max_depth - 1`.
   */
  lemma CrawlKeeps(query: string, url: string, maxDepth: int, depth: int, st: CrawlState,
                   fetch: Fetcher, ask: Oracle, k: nat)
    requires depth + 1 < maxDepth && url !in st.visited && fetch(url).Some?
    requires ask(query, fetch(url).value).Json?
    requires k < |LinksOf(ask(query, fetch(url).value).reply)|
    requires var links := LinksOf(ask(query, fetch(url).value).reply);
      var turn := CrawlLinks(query, links, k, maxDepth, depth + 1,
                             CrawlState(st.visited + {url}, st.fetched + [url]), fetch, ask).1;
      Follows(links[k], turn.visited) && fetch(links[k].url.value).Some?
    ensures var links := LinksOf(ask(query, fetch(url).value).reply);
      var res := Crawl(query, url, maxDepth, depth, st, fetch, ask).0;
      res.Some? && exists sp | sp in res.value.subPages :: sp.url == links[k].url.value && sp.title == TitleOf(links[k])
  {
    var links := LinksOf(ask(query, fetch(url).value).reply);
    var st1 := CrawlState(st.visited + {url}, st.fetched + [url]);
    CrawlLinksKeeps(query, links, |links|, k, maxDepth, depth + 1, st1, fetch, ask);
    var turn := CrawlLinks(query, links, k, maxDepth, depth + 1, st1, fetch, ask).1;
    var node := Crawl(query, links[k].url.value, maxDepth, depth + 1, turn, fetch, ask).0;
    var sp := SubPage(links[k].url.value, TitleOf(links[k]), node.value);
    assert sp in Crawl(query, url, maxDepth, depth, st, fetch, ask).0.value.subPages;
  }

  /** A crawl started with an empty visited set hands each URL to the fetcher at most once. */
  lemma FreshCrawlFetchesOnce(query: string, url: string, maxDepth: int, fetch: Fetcher, ask: Oracle)
    ensures var st := Crawl(query, url, maxDepth, 0, CrawlState({}, []), fetch, ask).1;
      Distinct(st.fetched) && forall u :: u in st.visited <==> u in st.fetched
  {
  }

  /**
   * One crawl run: the fetcher and oracle it uses and the visited set that
   * every recursive call shares and updates in place (`visited_urls`).
   * `fetched` records, for the proofs only, every URL handed to the fetcher.
   */
  class Crawler {
    const fetch: Fetcher
    const ask: Oracle
    var visited: set<string>
    ghost var fetched: seq<string>

    ghost function State(): CrawlState
      reads this
    {
      CrawlState(visited, fetched)
    }

    ghost predicate Valid()
      reads this
    {
      Consistent(State())
    }

    /** Lines 7-8: a call without a visited set starts from an empty one. */
    constructor (fetch: Fetcher, ask: Oracle)
      ensures this.fetch == fetch && this.ask == ask
      ensures visited == {} && fetched == [] && Valid()
    {
      this.fetch := fetch;
      this.ask := ask;
      visited := {};
      fetched := [];
    }

    /**
     * `crawl_with_depth(user_query, base_url, max_depth, current_depth, visited_urls)`.
     * Dafny has no default arguments: the source's defaults `max_depth=2`
     * and `current_depth=0` (line 6), used by `main()`, are passed
     * explicitly as `CrawlWithDepth(q, url, 2, 0)`.
     */
    method CrawlWithDepth(userQuery: string, baseUrl: string, maxDepth: int, currentDepth: int)
      returns (result: Option<CrawlNode>)
      requires Valid()
      modifies this
      ensures Valid()
      ensures (result, State()) == Crawl(userQuery, baseUrl, maxDepth, currentDepth, old(State()), fetch, ask)
      decreases maxDepth - currentDepth
    {
      if currentDepth >= maxDepth || baseUrl in visited {
        return None;
      }
      ghost var st0 := State();
      visited := visited + {baseUrl};
      fetched := fetched + [baseUrl];
      VisitExtends(st0, baseUrl);
      ExtendsKeepsConsistent(st0, State());
      var content := fetch(baseUrl);
      if content.None? {
        return None;
      }
      var response := ask(userQuery, content.value);
      match response
      case NotJson =>
        result := Some(CrawlNode(baseUrl, content.value, []));
      case Json(reply) =>
        var relatedLinks := LinksOf(reply);
        ghost var st1 := State();
        var subPages: seq<SubPage> := [];
        var i := 0;
        while i < |relatedLinks|
          invariant 0 <= i <= |relatedLinks|
          invariant Valid()
          invariant (subPages, State()) == CrawlLinks(userQuery, relatedLinks, i, maxDepth, currentDepth + 1, st1, fetch, ask)
        {
          var link := relatedLinks[i];
          var url := link.url;
          if url.Some? && url.value != "" && "http" <= url.value && url.value !in visited {
            var subContent := CrawlWithDepth(userQuery, url.value, maxDepth, currentDepth + 1);
            if subContent.Some? {
              subPages := subPages + [SubPage(url.value, TitleOf(link), subContent.value)];
            }
          }
          i := i + 1;
        }
        assert relatedLinks[..|relatedLinks|] == relatedLinks;
        result := Some(CrawlNode(baseUrl, content.value, subPages));
    }
  }
}
