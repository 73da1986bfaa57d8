/**
 * The `Scraper` class: collecting the replies of a thread page by page,
 * extracting address-like and ENS-like candidates from their text, and
 * converting the candidates into addresses, with every step reported to the
 * `Logger`.
 *
 * The network is replaced by data. The search API's answers are a sequence
 * of `Page`s, consumed in order. The ENS subgraph is the oracle `graph`, from
 * the batch of names sent to the rows of `json.data.domains` it answers with.
 * `isAddress` from `@ethersproject/address` is the oracle `isAddress`.
 */
module Scraper {

  import opened Wrappers
  import opened Text
  import opened Logger
  import opened ArrayUtils
  import opened Patterns
  import opened EnsGraph

  /** A reply of the thread, `{id, text}`. */
  datatype Tweet = Tweet(id: string, text: string)

  /** `AddressInfo`: a candidate or accepted address with the tweet it came from. */
  datatype AddressInfo = AddressInfo(addr: string, tweet: string, ens: Option<string>)

  /** One answer of the search API: `data` (absent when the page is empty) and `meta.next_token`. */
  datatype Page = Page(data: Option<seq<Tweet>>, nextToken: Option<string>)

  /** The fields of a `Scraper` the pipeline reads and writes. */
  datatype State = State(
    conversationID: string,
    tweets: seq<Tweet>,
    addresses: seq<AddressInfo>,
    logs: Log)

  /**
   * Why a run stops. `MissingPageData`: a page had no `data`, and spreading
   * `undefined` into `push` throws. `PagesExhausted`: the last page given
   * still carried a next token, so the run would ask for a page this input
   * does not describe.
   */
  datatype ScrapeError = MissingPageData(page: nat) | PagesExhausted

  /** Classification of a candidate in `convertENS`. */
  datatype Bucket = Direct | EnsName | Rejected

  /** The outcome for one ENS candidate: the accepted entry, if any, and its log entry. */
  datatype Resolution = Resolution(found: Option<AddressInfo>, entry: Entry)

  const EndpointBase: string :=
    "https://dark-resonance.isiain.workers.dev/2/tweets/search/recent?query=conversation_id:"
  const MaxResultsParam: string := "&max_results=100"
  const NextTokenParam: string := "&next_token="
  /** Names sent to the subgraph per request. */
  const EnsBatchSize: nat := 25
  /** Length of `0x` followed by 40 hex digits. */
  const AddressLength: nat := 42

  /** `new Scraper(conversationID, ...)`: nothing collected, nothing logged. */
  function NewScraper(conversationID: string): (s: State)
  {
    State(conversationID, [], [], [])
  }

  // ---------------------------------------------------------------------
  // Endpoint and page collection
  // ---------------------------------------------------------------------

  /** A pagination token counts only when present and non-empty. */
  predicate Truthy(token: Option<string>) {
    token.Some? && token.value != ""
  }

  /** The endpoint without a pagination token. */
  function BaseEndpoint(conversationID: string): string {
    EndpointBase + conversationID + MaxResultsParam
  }

  /** `generateEndpoint(nextToken)` */
  function GenerateEndpoint(conversationID: string, nextToken: Option<string>): (url: string)
    ensures StartsWith(url, BaseEndpoint(conversationID))
    ensures !Truthy(nextToken) <==> url == BaseEndpoint(conversationID)
    ensures Truthy(nextToken) ==> url[|BaseEndpoint(conversationID)|..] == NextTokenParam + nextToken.value
  {
    var base := BaseEndpoint(conversationID);
    if Truthy(nextToken) then
      assert (base + NextTokenParam + nextToken.value)[..|base|] == base;
      base + NextTokenParam + nextToken.value
    else base
  }

  /** Reads the pagination token back out of an endpoint for the same thread. */
  function TokenOf(conversationID: string, url: string): (token: Option<string>)
  {
    var prefix := BaseEndpoint(conversationID) + NextTokenParam;
    if |url| > |prefix| && url[..|prefix|] == prefix then Some(url[|prefix|..]) else None
  }

  /** The endpoint carries exactly the token it was built from: a truthy one comes back, a falsy one as none. */
  lemma TokenRoundTrip(conversationID: string, nextToken: Option<string>)
    ensures TokenOf(conversationID, GenerateEndpoint(conversationID, nextToken)) ==
      (if Truthy(nextToken) then nextToken else None)
  {
    var prefix := BaseEndpoint(conversationID) + NextTokenParam;
    var url := GenerateEndpoint(conversationID, nextToken);
    if Truthy(nextToken) {
      assert url == prefix + nextToken.value;
      assert url[..|prefix|] == prefix;
      assert url[|prefix|..] == nextToken.value;
    } else {
      assert |url| < |prefix|;
    }
  }

  /** Different truthy tokens give different endpoints, so no page is asked for twice by mistake. */
  lemma EndpointInjective(conversationID: string, t1: Option<string>, t2: Option<string>)
    requires GenerateEndpoint(conversationID, t1) == GenerateEndpoint(conversationID, t2)
    ensures Truthy(t1) <==> Truthy(t2)
    ensures Truthy(t1) ==> t1 == t2
  {
    TokenRoundTrip(conversationID, t1);
    TokenRoundTrip(conversationID, t2);
  }

  /** The replies a page contributes. */
  function PageTweets(p: Page): seq<Tweet> {
    if p.data.Some? then p.data.value else []
  }

  function CollectedMessage(n: nat): string {
    "Collected " + NatToString(n) + " tweets"
  }

  /** All replies of the given pages, page after page. */
  function AllTweets(pages: seq<Page>): (r: seq<Tweet>)
  {
    if |pages| == 0 then [] else PageTweets(pages[0]) + AllTweets(pages[1..])
  }

  /** One info entry per page, reporting how many replies it held. */
  function PageLogs(pages: seq<Page>): (r: Log)
    ensures |r| == |pages|
  {
    if |pages| == 0 then [] else [Entry(InfoLevel, CollectedMessage(|PageTweets(pages[0])|))] + PageLogs(pages[1..])
  }

  /** Page j's log entry reports the number of replies page j held. */
  lemma {:induction false} PageLogsAt(pages: seq<Page>)
    ensures forall j :: 0 <= j < |pages| ==>
      PageLogs(pages)[j] == Entry(InfoLevel, CollectedMessage(|PageTweets(pages[j])|))
    decreases |pages|
  {
    if |pages| > 0 {
      PageLogsAt(pages[1..]);
    }
  }

  /** Index of the first page without a truthy token (the last one requested), or |pages|. */
  function FinalPage(pages: seq<Page>): (k: nat)
    ensures k <= |pages|
    ensures forall j :: 0 <= j < k ==> Truthy(pages[j].nextToken)
    ensures k < |pages| ==> !Truthy(pages[k].nextToken)
  {
    if |pages| == 0 then 0
    else if !Truthy(pages[0].nextToken) then 0
    else 1 + FinalPage(pages[1..])
  }

  /**
   * The result of a run of `collectTweets` and the pagination token each of
   * its requests carried, in order (`Endpoints` turns them into the URLs).
   */
  datatype Collection = Collection(result: Result<State, ScrapeError>, requested: seq<Option<string>>)

  /** A failure of the rest of the run, as seen one page earlier. */
  function Later(e: ScrapeError): ScrapeError {
    match e
    case MissingPageData(k) => MissingPageData(k + 1)
    case PagesExhausted => PagesExhausted
  }

  /**
   * `collectTweets(token)`: request the page for `token`, append its
   * replies, log their number, and, while the page's token is truthy,
   * continue with it on the remaining pages.
   */
  function CollectTweets(s: State, pages: seq<Page>, token: Option<string>): (c: Collection)
    ensures 1 <= |c.requested| <= |pages| + 1
    ensures c.requested[0] == token
    decreases |pages|
  {
    if |pages| == 0 then Collection(Failure(PagesExhausted), [token])
    else if pages[0].data.None? then Collection(Failure(MissingPageData(0)), [token])
    else
      var next := AfterPage(s, pages[0].data.value);
      if !Truthy(pages[0].nextToken) then Collection(Success(next), [token])
      else
        var rest := CollectTweets(next, pages[1..], pages[0].nextToken);
        var result := match rest.result
          case Success(st) => Success(st)
          case Failure(e) => Failure(Later(e));
        Collection(result, [token] + rest.requested)
  }

  /** The URLs `generateEndpoint` builds for a sequence of tokens. */
  function Endpoints(conversationID: string, tokens: seq<Option<string>>): (urls: seq<string>)
    ensures |urls| == |tokens|
    ensures forall j :: 0 <= j < |tokens| ==> urls[j] == GenerateEndpoint(conversationID, tokens[j])
  {
    seq(|tokens|, j requires 0 <= j < |tokens| => GenerateEndpoint(conversationID, tokens[j]))
  }

  /** The token the j-th request of a run carries: the starting one, then each page's `next_token`. */
  function RequestToken(pages: seq<Page>, token: Option<string>, j: nat): Option<string>
    requires j <= |pages|
  {
    if j == 0 then token else pages[j - 1].nextToken
  }

  /** The state after one page with `data`: its replies appended and their number logged. */
  function AfterPage(s: State, got: seq<Tweet>): State {
    s.(tweets := s.tweets + got, logs := Info(s.logs, CollectedMessage(|got|)))
  }

  /**
   * A run asks for one page per request: the first with the starting token,
   * each later one with the previous page's `next_token`.
   */
  lemma {:induction false} CollectTweetsRequests(s: State, pages: seq<Page>, token: Option<string>)
    ensures var c := CollectTweets(s, pages, token);
      forall j :: 0 <= j < |c.requested| ==>
        c.requested[j] == RequestToken(pages, token, j)
    decreases |pages|
  {
    var c := CollectTweets(s, pages, token);
    if |pages| > 0 && pages[0].data.Some? && Truthy(pages[0].nextToken) {
      var next := AfterPage(s, pages[0].data.value);
      var rest := CollectTweets(next, pages[1..], pages[0].nextToken);
      CollectTweetsRequests(next, pages[1..], pages[0].nextToken);
      assert c.requested == [token] + rest.requested;
      forall j | 1 <= j < |c.requested|
        ensures c.requested[j] == RequestToken(pages, token, j)
      {
        assert c.requested[j] == rest.requested[j - 1];
      }
    }
  }

  /**
   * A run succeeds exactly when it reaches a page without a truthy token and
   * every page up to it has `data`.
   */
  lemma {:induction false} CollectTweetsSucceeds(s: State, pages: seq<Page>, token: Option<string>)
    ensures CollectTweets(s, pages, token).result.Success? <==>
      FinalPage(pages) < |pages| && forall j :: 0 <= j <= FinalPage(pages) ==> pages[j].data.Some?
    decreases |pages|
  {
    if |pages| > 0 && pages[0].data.Some? && Truthy(pages[0].nextToken) {
      CollectTweetsSucceeds(AfterPage(s, pages[0].data.value), pages[1..], pages[0].nextToken);
      var k := FinalPage(pages[1..]);
      forall j | 1 <= j <= k + 1 && j < |pages|
        ensures pages[j].data == pages[1..][j - 1].data
      {
      }
    }
  }

  /** A page with `data` and a truthy token: the run is that page followed by the run on the rest. */
  lemma CollectTweetsStep(s: State, pages: seq<Page>, token: Option<string>)
    requires |pages| > 0 && pages[0].data.Some? && Truthy(pages[0].nextToken)
    ensures var c := CollectTweets(s, pages, token);
      var rest := CollectTweets(AfterPage(s, pages[0].data.value), pages[1..], pages[0].nextToken);
      && |c.requested| == |rest.requested| + 1
      && c.result.Success? == rest.result.Success?
      && (c.result.Success? ==> c.result.value == rest.result.value)
  {
  }

  /** A successful run has made FinalPage + 1 requests. */
  lemma {:induction false} CollectTweetsSuccessCount(s: State, pages: seq<Page>, token: Option<string>)
    ensures var c := CollectTweets(s, pages, token);
      c.result.Success? ==> FinalPage(pages) < |pages| && |c.requested| == FinalPage(pages) + 1
    decreases |pages|
  {
    if |pages| > 0 && pages[0].data.Some? && Truthy(pages[0].nextToken) {
      CollectTweetsStep(s, pages, token);
      CollectTweetsSuccessCount(AfterPage(s, pages[0].data.value), pages[1..], pages[0].nextToken);
    }
  }

  /** The state after consuming `pages` one after another, each as `AfterPage` does. */
  function Consume(s: State, pages: seq<Page>): State
    decreases |pages|
  {
    if |pages| == 0 then s else Consume(AfterPage(s, PageTweets(pages[0])), pages[1..])
  }

  /** Consuming pages appends their replies and one entry per page; nothing else in the state changes. */
  lemma {:induction false} ConsumeAppends(s: State, pages: seq<Page>)
    ensures Consume(s, pages) == s.(tweets := s.tweets + AllTweets(pages), logs := s.logs + PageLogs(pages))
    decreases |pages|
  {
    if |pages| > 0 {
      var got := PageTweets(pages[0]);
      var entry := Entry(InfoLevel, CollectedMessage(|got|));
      var next := AfterPage(s, got);
      ConsumeAppends(next, pages[1..]);
      assert Consume(s, pages) == Consume(next, pages[1..]);
      assert AllTweets(pages) == got + AllTweets(pages[1..]);
      AppendAssoc(s.tweets, got, AllTweets(pages[1..]));
      assert PageLogs(pages) == [entry] + PageLogs(pages[1..]);
      AppendAssoc(s.logs, [entry], PageLogs(pages[1..]));
    } else {
      assert s.tweets + [] == s.tweets && s.logs + [] == s.logs;
    }
  }

  /** A successful run has consumed exactly pages 0..FinalPage. */
  lemma {:induction false} CollectTweetsConsumes(s: State, pages: seq<Page>, token: Option<string>)
    ensures var c := CollectTweets(s, pages, token);
      c.result.Success? ==>
        FinalPage(pages) < |pages| && c.result.value == Consume(s, pages[..FinalPage(pages) + 1])
    decreases |pages|
  {
    CollectTweetsSuccessCount(s, pages, token);
    if |pages| > 0 && pages[0].data.Some? {
      var next := AfterPage(s, pages[0].data.value);
      if !Truthy(pages[0].nextToken) {
        assert pages[..1][1..] == [];
        assert Consume(s, pages[..1]) == Consume(next, []) == next;
      } else {
        CollectTweetsStep(s, pages, token);
        CollectTweetsConsumes(next, pages[1..], pages[0].nextToken);
        var n := FinalPage(pages) + 1;
        if n <= |pages| {
          assert pages[..n][1..] == pages[1..][..n - 1];
          assert Consume(s, pages[..n]) == Consume(next, pages[1..][..n - 1]);
        }
      }
    }
  }

  /**
   * A successful run has appended the replies of pages 0..FinalPage in order
   * and logged one entry per page; nothing else in the state changes.
   */
  lemma CollectTweetsSuccess(s: State, pages: seq<Page>, token: Option<string>)
    ensures var c := CollectTweets(s, pages, token);
      c.result.Success? ==>
        && FinalPage(pages) < |pages|
        && c.result.value == s.(
             tweets := s.tweets + AllTweets(pages[..FinalPage(pages) + 1]),
             logs := s.logs + PageLogs(pages[..FinalPage(pages) + 1]))
  {
    CollectTweetsConsumes(s, pages, token);
    if FinalPage(pages) < |pages| {
      ConsumeAppends(s, pages[..FinalPage(pages) + 1]);
    }
  }

  /**
   * A freshly constructed scraper that collects successfully holds exactly
   * the replies of the pages it requested, and its log is one entry per page.
   */
  lemma FreshCollect(conversationID: string, pages: seq<Page>)
    ensures var c := CollectTweets(NewScraper(conversationID), pages, None);
      c.result.Success? ==>
        && FinalPage(pages) < |pages|
        && c.result.value.conversationID == conversationID
        && c.result.value.addresses == []
        && c.result.value.tweets == AllTweets(pages[..FinalPage(pages) + 1])
        && c.result.value.logs == PageLogs(pages[..FinalPage(pages) + 1])
  {
    var s := NewScraper(conversationID);
    CollectTweetsSuccess(s, pages, None);
    if FinalPage(pages) < |pages| {
      var n := FinalPage(pages) + 1;
      assert s.tweets + AllTweets(pages[..n]) == AllTweets(pages[..n]);
      assert s.logs + PageLogs(pages[..n]) == PageLogs(pages[..n]);
    }
  }

  /**
   * A page without `data`, at or before the final page, stops the run at that
   * page; running out of pages while every token is truthy stops it after
   * one request more than there are pages.
   */
  lemma {:induction false} CollectTweetsFailure(s: State, pages: seq<Page>, token: Option<string>)
    ensures var c := CollectTweets(s, pages, token);
      && (c.result.Failure? && c.result.error.MissingPageData? ==>
            && c.result.error.page == |c.requested| - 1
            && c.result.error.page <= FinalPage(pages)
            && c.result.error.page < |pages|
            && pages[c.result.error.page].data.None?)
      && (c.result.Failure? && c.result.error.PagesExhausted? ==>
            |c.requested| == |pages| + 1 && FinalPage(pages) == |pages|)
    decreases |pages|
  {
    if |pages| > 0 && pages[0].data.Some? && Truthy(pages[0].nextToken) {
      var next := AfterPage(s, pages[0].data.value);
      CollectTweetsFailure(next, pages[1..], pages[0].nextToken);
      var rest := CollectTweets(next, pages[1..], pages[0].nextToken);
      if rest.result.Failure? && rest.result.error.MissingPageData? {
        assert pages[rest.result.error.page + 1] == pages[1..][rest.result.error.page];
      }
    }
  }

  /** The pages' replies, in order: a run's replies are exactly those of the pages it consumed. */
  lemma {:induction false} AllTweetsFlatten(pages: seq<Page>)
    ensures AllTweets(pages) == Flatten(seq(|pages|, j requires 0 <= j < |pages| => PageTweets(pages[j])))
    decreases |pages|
  {
    if |pages| > 0 {
      var all := seq(|pages|, j requires 0 <= j < |pages| => PageTweets(pages[j]));
      AllTweetsFlatten(pages[1..]);
      assert all[1..] == seq(|pages| - 1, j requires 0 <= j < |pages| - 1 => PageTweets(pages[1..][j]));
    }
  }

  // ---------------------------------------------------------------------
  // Candidate extraction
  // ---------------------------------------------------------------------

  /** `text.replace(/(\r\n|\n|\r)/gm, "")`: every carriage return and line feed removed. */
  function CleanText(text: string): (r: string)
    ensures |r| <= |text|
    ensures forall c :: c in r <==> c in text && c != '\r' && c != '\n'
  {
    if |text| == 0 then ""
    else
      assert text == [text[0]] + text[1..];
      (if text[0] == '\r' || text[0] == '\n' then "" else [text[0]]) + CleanText(text[1..])
  }

  /** Text without line breaks is left as it is, and cleaning twice is cleaning once. */
  lemma {:induction false} CleanTextIdentity(text: string)
    requires '\r' !in text && '\n' !in text
    ensures CleanText(text) == text
    decreases |text|
  {
    if |text| > 0 {
      CleanTextIdentity(text[1..]);
      assert text == [text[0]] + text[1..];
    }
  }

  lemma CleanTextIdempotent(text: string)
    ensures CleanText(CleanText(text)) == CleanText(text)
  {
    CleanTextIdentity(CleanText(text));
  }

  /** Cleaning works character by character: it distributes over concatenation. */
  lemma {:induction false} CleanTextAppend(a: string, b: string)
    ensures CleanText(a + b) == CleanText(a) + CleanText(b)
    decreases |a|
  {
    if |a| > 0 {
      var h: string := if a[0] == '\r' || a[0] == '\n' then "" else [a[0]];
      assert (a + b)[0] == a[0] && (a + b)[1..] == a[1..] + b;
      CleanTextAppend(a[1..], b);
      assert CleanText(a + b) == h + CleanText(a[1..] + b);
      assert CleanText(a) == h + CleanText(a[1..]);
    } else {
      assert a + b == b;
    }
  }

  /** A match beginning with `0x` keeps its first 42 characters; any other match is kept whole. */
  function Truncate(m: string): (r: string)
    ensures StartsWith(m, r)
    ensures StartsWith(m, "0x") ==> |r| == Min(|m|, AddressLength)
    ensures !StartsWith(m, "0x") || |m| <= AddressLength ==> r == m
  {
    if StartsWith(m, "0x") then m[..Min(|m|, AddressLength)] else m
  }

  lemma TruncateIdempotent(m: string)
    ensures Truncate(Truncate(m)) == Truncate(m)
  {
    if StartsWith(m, "0x") {
      assert Truncate(m)[..2] == m[..2];
    }
  }

  /** The entry a match yields for a tweet, or none when there is no match. */
  function MatchEntry(m: Option<string>, t: Tweet): (r: seq<AddressInfo>)
    ensures |r| <= 1
    ensures forall k :: 0 <= k < |r| ==> r[k].tweet == t.text && r[k].ens.None?
  {
    if m.Some? then [AddressInfo(Truncate(m.value), t.text, None)] else []
  }

  /** The candidates of one tweet: its address match, then its ENS match. */
  function TweetCandidates(t: Tweet): (r: seq<AddressInfo>)
    ensures |r| <= 2
    ensures forall k :: 0 <= k < |r| ==> r[k].tweet == t.text && r[k].ens.None?
  {
    var cleaned := CleanText(t.text);
    MatchEntry(AddressMatch(cleaned), t) + MatchEntry(EnsMatch(cleaned), t)
  }

  /**
   * A tweet yields one candidate per pattern that matches its cleaned text,
   * so none exactly when neither pattern matches (`AddressMatch` and `EnsMatch` are `None` exactly when no
   * span matches); otherwise the address match comes first and the ENS match
   * last, each truncated.
   */
  lemma TweetCandidatesMatches(t: Tweet)
    ensures var r := TweetCandidates(t);
      var cleaned := CleanText(t.text);
      && |r| == (if AddressMatch(cleaned).Some? then 1 else 0) + (if EnsMatch(cleaned).Some? then 1 else 0)
      && (|r| == 0 <==> AddressMatch(cleaned).None? && EnsMatch(cleaned).None?)
      && (AddressMatch(cleaned).Some? ==> r[0].addr == Truncate(AddressMatch(cleaned).value))
      && (EnsMatch(cleaned).Some? ==> r[|r| - 1].addr == Truncate(EnsMatch(cleaned).value))
  {
    var cleaned := CleanText(t.text);
    var am := AddressMatch(cleaned);
    var em := EnsMatch(cleaned);
    var a := MatchEntry(am, t);
    var n := MatchEntry(em, t);
    assert TweetCandidates(t) == a + n;
    if am.Some? {
      assert a == [AddressInfo(Truncate(am.value), t.text, None)];
    }
    if em.Some? {
      assert n == [AddressInfo(Truncate(em.value), t.text, None)];
    }
  }

  /**
   * The candidates are taken from the spans the regular expressions report:
   * the leftmost, longest address span comes first and the leftmost,
   * longest ENS span last, each cut by `Truncate`.
   */
  lemma TweetCandidatesSpans(t: Tweet)
    ensures var r := TweetCandidates(t);
      var cleaned := CleanText(t.text);
      && (FindAddress(cleaned).Some? ==>
            var m := FindAddress(cleaned).value;
            IsFirstAddressMatch(cleaned, m) && r[0].addr == Truncate(cleaned[m.start..m.end]))
      && (FindEns(cleaned).Some? ==>
            var m := FindEns(cleaned).value;
            IsFirstEnsMatch(cleaned, m) && r[|r| - 1].addr == Truncate(cleaned[m.start..m.end]))
  {
    var cleaned := CleanText(t.text);
    TweetCandidatesMatches(t);
    assert FindAddress(cleaned).Some? ==> AddressMatch(cleaned).Some?;
    assert FindEns(cleaned).Some? ==> EnsMatch(cleaned).Some?;
  }

  /** The candidates of all tweets, tweet after tweet. */
  function CleanTweets(tweets: seq<Tweet>): (r: seq<AddressInfo>)
    ensures |r| <= 2 * |tweets|
  {
    FlatMapBound(TweetCandidates, tweets, 2);
    FlatMap(TweetCandidates, tweets)
  }

  /** Extraction processes tweets in input order: it distributes over concatenation. */
  lemma CleanTweetsAppend(a: seq<Tweet>, b: seq<Tweet>)
    ensures CleanTweets(a + b) == CleanTweets(a) + CleanTweets(b)
  {
    FlatMapAppend(TweetCandidates, a, b);
  }

  /** Every candidate records the full, uncleaned text of a tweet it was found in. */
  lemma CleanTweetsSources(tweets: seq<Tweet>)
    ensures forall c :: c in CleanTweets(tweets) ==>
      c.ens.None? && exists t :: t in tweets && c.tweet == t.text
  {
    forall c | c in CleanTweets(tweets)
      ensures c.ens.None? && exists t :: t in tweets && c.tweet == t.text
    {
      FlatMapSource(TweetCandidates, tweets, c);
      var i :| 0 <= i < |tweets| && c in TweetCandidates(tweets[i]);
      assert tweets[i] in tweets;
    }
  }

  /** `cleanTweetsForAddresses()`: the tweets' candidates are appended to `addresses`. */
  function CleanTweetsForAddresses(s: State): (r: State)
    ensures r.tweets == s.tweets && r.logs == s.logs && r.conversationID == s.conversationID
    ensures |s.addresses| <= |r.addresses| <= |s.addresses| + 2 * |s.tweets|
    ensures r.addresses[..|s.addresses|] == s.addresses
    ensures r.addresses[|s.addresses|..] == CleanTweets(s.tweets)
  {
    var found := CleanTweets(s.tweets);
    assert (s.addresses + found)[..|s.addresses|] == s.addresses;
    s.(addresses := s.addresses + found)
  }

  // ---------------------------------------------------------------------
  // Classification and ENS resolution
  // ---------------------------------------------------------------------

  /** `isAddress(addr.toLowerCase())`, else `addr.includes(".eth")`, else rejected. */
  function Classify(a: AddressInfo, isAddress: string -> bool): Bucket
  {
    if isAddress(AsciiLower(a.addr)) then Direct
    else if Contains(a.addr, ".eth") then EnsName
    else Rejected
  }

  /** The candidates of one bucket, in input order. */
  function Filter(cands: seq<AddressInfo>, isAddress: string -> bool, b: Bucket): (r: seq<AddressInfo>)
    ensures |r| <= |cands|
    ensures forall k :: 0 <= k < |r| ==> r[k] in cands && Classify(r[k], isAddress) == b
  {
    Keep(a => Classify(a, isAddress) == b, cands)
  }

  /** Classification looks at one candidate at a time: it distributes over concatenation. */
  lemma FilterAppend(a: seq<AddressInfo>, c: seq<AddressInfo>, isAddress: string -> bool, b: Bucket)
    ensures Filter(a + c, isAddress, b) == Filter(a, isAddress, b) + Filter(c, isAddress, b)
  {
    KeepAppend(x => Classify(x, isAddress) == b, a, c);
  }

  /** A bucket holds every candidate of its kind as often as the input does, and nothing else. */
  lemma FilterMultiplicity(cands: seq<AddressInfo>, isAddress: string -> bool, b: Bucket, x: AddressInfo)
    ensures multiset(Filter(cands, isAddress, b))[x] ==
      if Classify(x, isAddress) == b then multiset(cands)[x] else 0
  {
    KeepMultiplicity(a => Classify(a, isAddress) == b, cands, x);
  }

  /** No candidate is lost: each one is in the bucket it is classified into. */
  lemma FilterComplete(cands: seq<AddressInfo>, isAddress: string -> bool, k: nat)
    requires k < |cands|
    ensures cands[k] in Filter(cands, isAddress, Classify(cands[k], isAddress))
  {
    FilterMultiplicity(cands, isAddress, Classify(cands[k], isAddress), cands[k]);
    assert cands[k] in multiset(cands);
  }

  /** Every candidate lands in exactly one bucket: the buckets together are the input, as a multiset. */
  lemma FilterPartition(cands: seq<AddressInfo>, isAddress: string -> bool)
    ensures multiset(Filter(cands, isAddress, Direct)) + multiset(Filter(cands, isAddress, EnsName))
      + multiset(Filter(cands, isAddress, Rejected)) == multiset(cands)
  {
    forall x
      ensures (multiset(Filter(cands, isAddress, Direct)) + multiset(Filter(cands, isAddress, EnsName))
        + multiset(Filter(cands, isAddress, Rejected)))[x] == multiset(cands)[x]
    {
      FilterMultiplicity(cands, isAddress, Direct, x);
      FilterMultiplicity(cands, isAddress, EnsName, x);
      FilterMultiplicity(cands, isAddress, Rejected, x);
    }
  }

  /** The log entry classification writes for one candidate (none for an ENS name). */
  function ClassifyEntry(a: AddressInfo, isAddress: string -> bool): Log
  {
    match Classify(a, isAddress)
    case Direct => [Entry(InfoLevel, "address-like " + a.addr + " valid")]
    case EnsName => []
    case Rejected => [Entry(ErrorLevel, "address-like " + a.addr + " invalid")]
  }

  /** The classification entries of the candidates, in order. */
  function ClassifyLogs(cands: seq<AddressInfo>, isAddress: string -> bool): (r: Log)
    ensures |r| <= |cands|
    ensures forall k :: 0 <= k < |r| ==> StartsWith(r[k].message, "address-like ")
  {
    if |cands| == 0 then [] else ClassifyEntry(cands[0], isAddress) + ClassifyLogs(cands[1..], isAddress)
  }

  /**
   * The classification log reports the candidates that are not ENS names, in
   * input order, one entry each: `address-like <addr> valid` at info level
   * for a direct address, `address-like <addr> invalid` at error level for a
   * rejected text.
   */
  lemma {:induction false} ClassifyLogsAt(cands: seq<AddressInfo>, isAddress: string -> bool)
    ensures var kept := Keep(c => Classify(c, isAddress) != EnsName, cands);
      && |ClassifyLogs(cands, isAddress)| == |kept|
      && forall k :: 0 <= k < |kept| ==>
           ClassifyLogs(cands, isAddress)[k] ==
             if Classify(kept[k], isAddress) == Direct
             then Entry(InfoLevel, "address-like " + kept[k].addr + " valid")
             else Entry(ErrorLevel, "address-like " + kept[k].addr + " invalid")
    decreases |cands|
  {
    if |cands| > 0 {
      ClassifyLogsAt(cands[1..], isAddress);
    }
  }

  /**
   * The three buckets partition the candidates, and classification logs one
   * info entry per direct address and one error entry per rejected text.
   */
  lemma {:induction false} ClassifyPartition(cands: seq<AddressInfo>, isAddress: string -> bool)
    ensures |Filter(cands, isAddress, Direct)| + |Filter(cands, isAddress, EnsName)|
      + |Filter(cands, isAddress, Rejected)| == |cands|
    ensures Count(ClassifyLogs(cands, isAddress), InfoLevel) == |Filter(cands, isAddress, Direct)|
    ensures Count(ClassifyLogs(cands, isAddress), ErrorLevel) == |Filter(cands, isAddress, Rejected)|
    ensures |ClassifyLogs(cands, isAddress)| ==
      |Filter(cands, isAddress, Direct)| + |Filter(cands, isAddress, Rejected)|
    decreases |cands|
  {
    if |cands| > 0 {
      var head := ClassifyEntry(cands[0], isAddress);
      var tail := ClassifyLogs(cands[1..], isAddress);
      ClassifyPartition(cands[1..], isAddress);
      CountAppend(head, tail, InfoLevel);
      CountAppend(head, tail, ErrorLevel);
      assert Count(head, InfoLevel) == (if Classify(cands[0], isAddress) == Direct then 1 else 0) by {
        assert |head| <= 1;
        if |head| == 1 {
          assert head[..0] == [];
        }
      }
      assert Count(head, ErrorLevel) == (if Classify(cands[0], isAddress) == Rejected then 1 else 0) by {
        if |head| == 1 {
          assert head[..0] == [];
        }
      }
    }
  }

  /**
   * The ENS test is case-sensitive although the pattern is not: a name
   * written `x.ETH` is neither an address nor routed to resolution. The
   * only assumption on `isAddress` is that it refuses the lower-cased name
   * itself (a dotted text is neither a hex address nor an ICAP form).
   */
  lemma UpperCaseEthRejected(name: string, tweet: string, isAddress: string -> bool)
    requires '.' !in name
    requires !isAddress(AsciiLower(name + ".ETH"))
    ensures Classify(AddressInfo(name + ".ETH", tweet, None), isAddress) == Rejected
  {
    var addr := name + ".ETH";
    forall i | 0 <= i <= |addr| - 4
      ensures !StartsWith(addr[i..], ".eth")
    {
      if i < |name| {
        assert addr[i] == name[i] != '.';
      } else {
        assert addr[i + 1] == 'E';
      }
    }
  }

  /**
   * The ENS pattern itself matches such a text whole, whatever the case of
   * `ETH`: a name that is `[a-zA-Z0-9]\w+` followed by `.ETH` is extracted as
   * a candidate, and only the classification then rejects it.
   */
  lemma UpperCaseEthMatched(name: string)
    requires |name| >= 2 && IsAlnum(name[0])
    requires forall k :: 1 <= k < |name| ==> IsWordChar(name[k])
    ensures EnsMatch(name + ".ETH") == Some(name + ".ETH")
  {
    var s := name + ".ETH";
    assert IsDotEthAt(s, |name|) by {
      assert s[|name|] == '.' && s[|name| + 1] == 'E' && s[|name| + 2] == 'T' && s[|name| + 3] == 'H';
    }
    assert IsEnsSpan(s, 0, |s|) by {
      forall j | 1 <= j < |s| - 4
        ensures IsWordChar(s[j])
      {
        assert s[j] == name[j];
      }
    }
    var m := FindEns(s).value;
    assert m.start == 0;
    assert s[m.start..m.end] == s;
  }

  /** Index of the first result whose `ens` equals `name` exactly. */
  function FirstMatchIndex(results: seq<GraphResult>, name: string): (r: Option<nat>)
    ensures r.Some? ==> r.value < |results| && results[r.value].ens == name
    ensures r.Some? ==> forall k :: 0 <= k < r.value ==> results[k].ens != name
    ensures r.None? ==> forall k :: 0 <= k < |results| ==> results[k].ens != name
  {
    if |results| == 0 then None
    else if results[0].ens == name then Some(0)
    else match FirstMatchIndex(results[1..], name)
      case Some(k) => Some(k + 1)
      case None => None
  }

  /** `graphResults.find(result => result.ens === addr)` and the entry logged for it. */
  function ResolveOne(c: AddressInfo, results: seq<GraphResult>): (r: Resolution)
    ensures r.found.Some? <==> exists k :: 0 <= k < |results| && results[k].ens == c.addr
    ensures r.found.Some? <==> r.entry.level == InfoLevel
    ensures r.found.Some? ==> r.found.value.ens == Some(c.addr) && r.found.value.tweet == c.tweet
    ensures r.found.Some? ==> GraphResult(r.found.value.addr, c.addr) in results
    ensures r.found.Some? ==>
      && FirstMatchIndex(results, c.addr).Some?
      && r.found.value.addr == results[FirstMatchIndex(results, c.addr).value].addr
      && r.entry.message == "Found address " + c.addr + " from " + c.addr
    ensures r.found.None? ==>
      r.entry.message == "Could not resolve " + c.addr + " -- " + ReplaceFirst(c.tweet, '\n', ' ')
  {
    match FirstMatchIndex(results, c.addr)
    case Some(k) =>
      var g := results[k];
      Resolution(
        Some(AddressInfo(g.addr, c.tweet, Some(g.ens))),
        Entry(InfoLevel, "Found address " + g.ens + " from " + c.addr))
    case None =>
      Resolution(
        None,
        Entry(ErrorLevel, "Could not resolve " + c.addr + " -- " + ReplaceFirst(c.tweet, '\n', ' ')))
  }

  /** The `addr` of each candidate of a batch: the names sent to the subgraph. */
  function Names(batch: seq<AddressInfo>): (names: seq<string>)
    ensures |names| == |batch|
    ensures forall k :: 0 <= k < |batch| ==> names[k] == batch[k].addr
    decreases |batch|
  {
    if |batch| == 0 then [] else [batch[0].addr] + Names(batch[1..])
  }

  /** How one candidate is matched against a subgraph answer (`ResolveOne` in the scraper). */
  type Resolver = (AddressInfo, seq<GraphResult>) -> Resolution

  /** Each candidate of a batch matched against the same subgraph answer, in order. */
  function ResolveAll(resolve: Resolver, batch: seq<AddressInfo>, results: seq<GraphResult>): (r: seq<Resolution>)
    ensures |r| == |batch|
    ensures forall k :: 0 <= k < |batch| ==> r[k] == resolve(batch[k], results)
    decreases |batch|
  {
    if |batch| == 0 then [] else [resolve(batch[0], results)] + ResolveAll(resolve, batch[1..], results)
  }

  /** One subgraph request for a batch, then each candidate matched against its answer. */
  function ResolveBatch(resolve: Resolver, batch: seq<AddressInfo>, graph: seq<string> -> seq<Domain>): (r: seq<Resolution>)
    ensures |r| == |batch|
    ensures forall k :: 0 <= k < |batch| ==> r[k] == resolve(batch[k], Shape(graph(Names(batch))))
  {
    ResolveAll(resolve, batch, Shape(graph(Names(batch))))
  }

  /** The batches, one after the other. */
  function ResolveBatches(resolve: Resolver, batches: seq<seq<AddressInfo>>, graph: seq<string> -> seq<Domain>): (r: seq<Resolution>)
    ensures |r| == |Flatten(batches)|
  {
    if |batches| == 0 then []
    else
      var n := |batches| - 1;
      FlattenAppend(batches[..n], [batches[n]]);
      assert batches[..n] + [batches[n]] == batches;
      ResolveBatches(resolve, batches[..n], graph) + ResolveBatch(resolve, batches[n], graph)
  }

  /** The subgraph answer candidate `j` of `ens` is matched against: that of the batch holding it. */
  function BatchResults(ens: seq<AddressInfo>, j: nat, graph: seq<string> -> seq<Domain>): seq<GraphResult>
    requires j < |ens|
  {
    BatchOf(ens, j);
    Shape(graph(Names(Chunk(ens, EnsBatchSize)[j / EnsBatchSize])))
  }

  /** Candidate `j` lies in batch `j / 25`, at position `j % 25`. */
  lemma BatchOf(ens: seq<AddressInfo>, j: nat)
    requires j < |ens|
    ensures j / EnsBatchSize < |Chunk(ens, EnsBatchSize)|
    ensures j % EnsBatchSize < |Chunk(ens, EnsBatchSize)[j / EnsBatchSize]|
    ensures Chunk(ens, EnsBatchSize)[j / EnsBatchSize][j % EnsBatchSize] == ens[j]
  {
    var b := j / EnsBatchSize;
    var c := Chunk(ens, EnsBatchSize);
    ChunkSizes(ens, EnsBatchSize);
    ChunkIndex(ens, EnsBatchSize, b);
    assert (b + 1) * EnsBatchSize == b * EnsBatchSize + EnsBatchSize;
  }

  /** The first b batches resolve the candidates before position min(25 b, |ens|), each against its batch's answer. */
  lemma {:induction false} ResolveBatchesPrefix(resolve: Resolver, ens: seq<AddressInfo>, graph: seq<string> -> seq<Domain>, b: nat)
    requires b <= |Chunk(ens, EnsBatchSize)|
    ensures |ResolveBatches(resolve, Chunk(ens, EnsBatchSize)[..b], graph)| == Min(b * EnsBatchSize, |ens|)
    ensures forall j :: 0 <= j < Min(b * EnsBatchSize, |ens|) ==>
      ResolveBatches(resolve, Chunk(ens, EnsBatchSize)[..b], graph)[j] == resolve(ens[j], BatchResults(ens, j, graph))
    decreases b
  {
    var c := Chunk(ens, EnsBatchSize);
    if b > 0 {
      ResolveBatchesPrefix(resolve, ens, graph, b - 1);
      assert c[..b][..b - 1] == c[..b - 1];
      var prev := ResolveBatches(resolve, c[..b - 1], graph);
      var last := ResolveBatch(resolve, c[b - 1], graph);
      assert ResolveBatches(resolve, c[..b], graph) == prev + last;
      ChunkIndex(ens, EnsBatchSize, b - 1);
      var lo := (b - 1) * EnsBatchSize;
      assert b * EnsBatchSize == lo + EnsBatchSize;
      assert |prev| == lo;
      forall j | lo <= j < Min(b * EnsBatchSize, |ens|)
        ensures (prev + last)[j] == resolve(ens[j], BatchResults(ens, j, graph))
      {
        LastBatchAt(resolve, ens, graph, b - 1, j);
        AppendIndexRight(prev, last, j);
      }
    }
  }

  /** Candidate j of batch i is resolved against that batch's answer. */
  lemma LastBatchAt(resolve: Resolver, ens: seq<AddressInfo>, graph: seq<string> -> seq<Domain>, i: nat, j: nat)
    requires i < |Chunk(ens, EnsBatchSize)|
    requires i * EnsBatchSize <= j < Min(i * EnsBatchSize + EnsBatchSize, |ens|)
    ensures j - i * EnsBatchSize < |ResolveBatch(resolve, Chunk(ens, EnsBatchSize)[i], graph)|
    ensures ResolveBatch(resolve, Chunk(ens, EnsBatchSize)[i], graph)[j - i * EnsBatchSize]
      == resolve(ens[j], BatchResults(ens, j, graph))
  {
    ChunkIndex(ens, EnsBatchSize, i);
    assert (i + 1) * EnsBatchSize == i * EnsBatchSize + EnsBatchSize;
    BatchOf(ens, j);
    assert j / EnsBatchSize == i;
    assert j % EnsBatchSize == j - i * EnsBatchSize;
  }

  /**
   * Batching does not change the outcome: resolving the ENS candidates in
   * batches of 25 yields, for each candidate in order, exactly one outcome,
   * matched against the answer for the batch holding it.
   */
  lemma ResolveInBatches(resolve: Resolver, ens: seq<AddressInfo>, graph: seq<string> -> seq<Domain>)
    ensures |ResolveBatches(resolve, Chunk(ens, EnsBatchSize), graph)| == |ens|
    ensures forall j :: 0 <= j < |ens| ==>
      ResolveBatches(resolve, Chunk(ens, EnsBatchSize), graph)[j] == resolve(ens[j], BatchResults(ens, j, graph))
  {
    var c := Chunk(ens, EnsBatchSize);
    ResolveBatchesPrefix(resolve, ens, graph, |c|);
    ChunkSizes(ens, EnsBatchSize);
    assert c[..|c|] == c;
  }

  /** The accepted entries of a list of outcomes, in order. */
  function Found(rs: seq<Resolution>): (r: seq<AddressInfo>)
    ensures |r| <= |rs|
  {
    if |rs| == 0 then []
    else (if rs[0].found.Some? then [rs[0].found.value] else []) + Found(rs[1..])
  }

  /** The log entries of a list of outcomes, in order. */
  function Entries(rs: seq<Resolution>): (r: Log)
    ensures |r| == |rs|
  {
    if |rs| == 0 then [] else [rs[0].entry] + Entries(rs[1..])
  }

  /** Info entries are exactly the accepted outcomes; error entries the others. */
  lemma {:induction false} EntriesCount(rs: seq<Resolution>)
    requires forall k :: 0 <= k < |rs| ==> (rs[k].found.Some? <==> rs[k].entry.level == InfoLevel)
    ensures Count(Entries(rs), InfoLevel) == |Found(rs)|
    ensures Count(Entries(rs), ErrorLevel) == |rs| - |Found(rs)|
    decreases |rs|
  {
    if |rs| > 0 {
      var e := rs[0].entry;
      EntriesCount(rs[1..]);
      CountAppend([e], Entries(rs[1..]), InfoLevel);
      CountAppend([e], Entries(rs[1..]), ErrorLevel);
      CountSingle(e, InfoLevel);
      CountSingle(e, ErrorLevel);
    }
  }

  /** The resolution outcomes of the ENS candidates, batch after batch. */
  function EnsOutcomes(cands: seq<AddressInfo>, isAddress: string -> bool, graph: seq<string> -> seq<Domain>): (rs: seq<Resolution>)
    ensures |rs| == |Filter(cands, isAddress, EnsName)|
  {
    ChunkFlatten(Filter(cands, isAddress, EnsName), EnsBatchSize);
    ResolveBatches(ResolveOne, Chunk(Filter(cands, isAddress, EnsName), EnsBatchSize), graph)
  }

  /**
   * Batching does not change the outcomes: there is exactly one per ENS
   * candidate, in order, each matched against the subgraph's answer for the
   * batch holding that candidate.
   */
  lemma EnsOutcomesAt(cands: seq<AddressInfo>, isAddress: string -> bool, graph: seq<string> -> seq<Domain>)
    ensures |EnsOutcomes(cands, isAddress, graph)| == |Filter(cands, isAddress, EnsName)|
    ensures forall j :: 0 <= j < |Filter(cands, isAddress, EnsName)| ==>
      EnsOutcomes(cands, isAddress, graph)[j]
        == ResolveOne(Filter(cands, isAddress, EnsName)[j], BatchResults(Filter(cands, isAddress, EnsName), j, graph))
  {
    ResolveInBatches(ResolveOne, Filter(cands, isAddress, EnsName), graph);
  }

  /**
   * `convertENS()`: the directly valid candidates, then the resolved ENS
   * candidates, replace `addresses`; classification entries and then
   * resolution entries are appended to the log.
   */
  function ConvertEns(s: State, isAddress: string -> bool, graph: seq<string> -> seq<Domain>): (r: State)
    ensures r.tweets == s.tweets && r.conversationID == s.conversationID
  {
    var cands := s.addresses;
    var rs := EnsOutcomes(cands, isAddress, graph);
    s.(addresses := Filter(cands, isAddress, Direct) + Found(rs),
       logs := s.logs + (ClassifyLogs(cands, isAddress) + Entries(rs)))
  }

  /** Appending to a log leaves its prefix in place and the appended part after it. */
  lemma LogTail(base: Log, added: Log)
    ensures |base + added| == |base| + |added|
    ensures (base + added)[..|base|] == base
    ensures (base + added)[|base|..] == added
  {
    assert (base + added)[|base|..] == added;
  }

  /** An outcome is accepted exactly when its log entry is an info entry. */
  lemma EnsOutcomesLevels(cands: seq<AddressInfo>, isAddress: string -> bool, graph: seq<string> -> seq<Domain>)
    ensures var rs := EnsOutcomes(cands, isAddress, graph);
      forall k :: 0 <= k < |rs| ==> (rs[k].found.Some? <==> rs[k].entry.level == InfoLevel)
  {
    EnsOutcomesAt(cands, isAddress, graph);
  }

  /** The accepted outcomes are counted by the info entries of the resolution log. */
  lemma ConvertEnsLogCounts(cands: seq<AddressInfo>, isAddress: string -> bool, graph: seq<string> -> seq<Domain>)
    ensures var rs := EnsOutcomes(cands, isAddress, graph);
      var added := ClassifyLogs(cands, isAddress) + Entries(rs);
      var kept := Filter(cands, isAddress, Direct) + Found(rs);
      && |kept| <= |cands|
      && |added| == |cands|
      && Count(added, InfoLevel) == |kept|
      && Count(added, ErrorLevel) == |cands| - |kept|
  {
    var rs := EnsOutcomes(cands, isAddress, graph);
    var cl := ClassifyLogs(cands, isAddress);
    ClassifyPartition(cands, isAddress);
    EnsOutcomesLevels(cands, isAddress, graph);
    EntriesCount(rs);
    CountAppend(cl, Entries(rs), InfoLevel);
    CountAppend(cl, Entries(rs), ErrorLevel);
  }

  /**
   * What `convertENS` keeps: the directly valid entries followed by the
   * resolved ones, so never more than it was given.
   */
  lemma ConvertEnsKeeps(s: State, isAddress: string -> bool, graph: seq<string> -> seq<Domain>)
    ensures var r := ConvertEns(s, isAddress, graph);
      && r.addresses == Filter(s.addresses, isAddress, Direct) + Found(EnsOutcomes(s.addresses, isAddress, graph))
      && |r.addresses| <= |s.addresses|
  {
    ConvertEnsLogCounts(s.addresses, isAddress, graph);
  }

  /**
   * What `convertENS` logs: exactly one entry per candidate after the
   * untouched earlier entries, info for an accepted one and error for a
   * dropped one.
   */
  lemma ConvertEnsLog(s: State, isAddress: string -> bool, graph: seq<string> -> seq<Domain>)
    ensures var r := ConvertEns(s, isAddress, graph);
      && |r.logs| == |s.logs| + |s.addresses|
      && r.logs[..|s.logs|] == s.logs
      && Count(r.logs[|s.logs|..], InfoLevel) == |r.addresses|
      && Count(r.logs[|s.logs|..], ErrorLevel) == |s.addresses| - |r.addresses|
  {
    var cands := s.addresses;
    var rs := EnsOutcomes(cands, isAddress, graph);
    var added := ClassifyLogs(cands, isAddress) + Entries(rs);
    var r := ConvertEns(s, isAddress, graph);
    assert r.logs == s.logs + added;
    assert r.addresses == Filter(cands, isAddress, Direct) + Found(rs);
    LogTail(s.logs, added);
    ConvertEnsLogCounts(cands, isAddress, graph);
  }

  /**
   * Each ENS candidate is resolved only by a subgraph row whose name equals
   * it exactly, and then carries that row's address, the name, and its tweet.
   */
  lemma ConvertEnsResolved(s: State, isAddress: string -> bool, graph: seq<string> -> seq<Domain>, j: nat)
    requires j < |Filter(s.addresses, isAddress, EnsName)|
    ensures var ens := Filter(s.addresses, isAddress, EnsName);
      var o := EnsOutcomes(s.addresses, isAddress, graph)[j];
      && (o.found.Some? <==> exists g :: g in BatchResults(ens, j, graph) && g.ens == ens[j].addr)
      && (o.found.Some? ==>
            o.found.value.ens == Some(ens[j].addr) && o.found.value.tweet == ens[j].tweet
            && GraphResult(o.found.value.addr, ens[j].addr) in BatchResults(ens, j, graph))
      && (o.found.Some? ==>
            var first := FirstMatchIndex(BatchResults(ens, j, graph), ens[j].addr);
            && first.Some?
            && o.found.value.addr == BatchResults(ens, j, graph)[first.value].addr
            && o.entry == Entry(InfoLevel, "Found address " + ens[j].addr + " from " + ens[j].addr))
      && (o.found.None? ==> o.entry.level == ErrorLevel)
  {
    EnsOutcomesAt(s.addresses, isAddress, graph);
    var ens := Filter(s.addresses, isAddress, EnsName);
    var results := BatchResults(ens, j, graph);
    var o := ResolveOne(ens[j], results);
    if o.found.Some? {
      var k :| 0 <= k < |results| && results[k].ens == ens[j].addr;
      assert results[k] in results;
    }
  }

  // ---------------------------------------------------------------------
  // The whole pipeline
  // ---------------------------------------------------------------------

  function TotalMessage(n: nat): string {
    "Collected " + NatToString(n) + " total tweets"
  }

  function AddressesMessage(n: nat): string {
    "Collected " + NatToString(n) + " addresses from tweets"
  }

  const ConvertedMessage: string := "Converted ENS names to addresses"

  /**
   * The steps of `scrape()` after the replies are collected: log their total,
   * extract candidates, log their number, convert them, and log the conversion.
   */
  function AfterCollect(st: State, isAddress: string -> bool, graph: seq<string> -> seq<Domain>): (r: State)
    ensures r.tweets == st.tweets && r.conversationID == st.conversationID
  {
    var counted := st.(logs := Info(st.logs, TotalMessage(|st.tweets|)));
    var cleaned := CleanTweetsForAddresses(counted);
    var listed := cleaned.(logs := Info(cleaned.logs, AddressesMessage(|cleaned.addresses|)));
    var converted := ConvertEns(listed, isAddress, graph);
    converted.(logs := Info(converted.logs, ConvertedMessage))
  }

  /** The candidates `convertENS` sees: the earlier addresses, then those found in the replies. */
  function Candidates(st: State): seq<AddressInfo> {
    st.addresses + CleanTweets(st.tweets)
  }

  /**
   * The entries `scrape()` writes after collection, in order: the tweet total,
   * the candidate count, one classification entry per valid or rejected
   * candidate, one resolution entry per ENS candidate, and the closing entry.
   */
  function AfterCollectLog(tweets: nat, cands: seq<AddressInfo>, isAddress: string -> bool, graph: seq<string> -> seq<Domain>): Log {
    [Entry(InfoLevel, TotalMessage(tweets)), Entry(InfoLevel, AddressesMessage(|cands|))]
      + (ClassifyLogs(cands, isAddress) + Entries(EnsOutcomes(cands, isAddress, graph)))
      + [Entry(InfoLevel, ConvertedMessage)]
  }

  /**
   * After collection, the result keeps the valid and the resolved candidates,
   * never more than there were; the log gains exactly the entries of
   * `AfterCollectLog` after the untouched earlier entries.
   */
  lemma AfterCollectAccounting(st: State, isAddress: string -> bool, graph: seq<string> -> seq<Domain>)
    ensures var r := AfterCollect(st, isAddress, graph);
      var cands := Candidates(st);
      && r.addresses == Filter(cands, isAddress, Direct) + Found(EnsOutcomes(cands, isAddress, graph))
      && |r.addresses| <= |cands|
      && r.logs == st.logs + AfterCollectLog(|st.tweets|, cands, isAddress, graph)
  {
    var e1 := Entry(InfoLevel, TotalMessage(|st.tweets|));
    var counted := st.(logs := Info(st.logs, TotalMessage(|st.tweets|)));
    var cleaned := CleanTweetsForAddresses(counted);
    var cands := cleaned.addresses;
    assert cands == Candidates(st) by {
      assert cands == cands[..|st.addresses|] + cands[|st.addresses|..];
    }
    var e2 := Entry(InfoLevel, AddressesMessage(|cands|));
    var listed := cleaned.(logs := Info(cleaned.logs, AddressesMessage(|cands|)));
    assert listed.logs == (st.logs + [e1]) + [e2];
    var converted := ConvertEns(listed, isAddress, graph);
    ConvertEnsKeeps(listed, isAddress, graph);
    var added := ClassifyLogs(cands, isAddress) + Entries(EnsOutcomes(cands, isAddress, graph));
    assert converted.logs == listed.logs + added;
    var e3 := Entry(InfoLevel, ConvertedMessage);
    var done := converted.(logs := Info(converted.logs, ConvertedMessage));
    assert done == AfterCollect(st, isAddress, graph);
    assert done.logs == (((st.logs + [e1]) + [e2]) + added) + [e3];
    assert AfterCollectLog(|st.tweets|, cands, isAddress, graph) == ([e1, e2] + added) + [e3];
    RegroupLog(st.logs, e1, e2, added, e3);
  }

  /** Appending two entries, a block and an entry one after another appends them all at once. */
  lemma RegroupLog(base: Log, e1: Entry, e2: Entry, block: Log, e3: Entry)
    ensures (((base + [e1]) + [e2]) + block) + [e3] == base + (([e1, e2] + block) + [e3])
  {
    assert (base + [e1]) + [e2] == base + [e1, e2];
  }

  /**
   * Of the entries for the candidates, the info entries count the addresses
   * kept and the error entries those dropped.
   */
  lemma AfterCollectLogCounts(st: State, isAddress: string -> bool, graph: seq<string> -> seq<Domain>)
    ensures var r := AfterCollect(st, isAddress, graph);
      var cands := Candidates(st);
      var added := ClassifyLogs(cands, isAddress) + Entries(EnsOutcomes(cands, isAddress, graph));
      && |added| == |cands|
      && Count(added, InfoLevel) == |r.addresses|
      && Count(added, ErrorLevel) == |cands| - |r.addresses|
  {
    AfterCollectAccounting(st, isAddress, graph);
    ConvertEnsLogCounts(Candidates(st), isAddress, graph);
  }

  /** `scrape()`: collect the replies, then run the remaining steps on them. */
  method Scrape(s: State, pages: seq<Page>, isAddress: string -> bool, graph: seq<string> -> seq<Domain>)
    returns (r: Result<State, ScrapeError>, requested: seq<string>)
    ensures r.Success? <==>
      FinalPage(pages) < |pages| && forall j :: 0 <= j <= FinalPage(pages) ==> pages[j].data.Some?
    ensures 1 <= |requested| <= |pages| + 1
    ensures forall j :: 0 <= j < |requested| ==>
      requested[j] == GenerateEndpoint(s.conversationID, RequestToken(pages, None, j))
    ensures r.Success? ==> |requested| == FinalPage(pages) + 1
    ensures r.Success? ==> r.value.tweets == s.tweets + AllTweets(pages[..|requested|])
    ensures r.Success? ==>
      var cands := s.addresses + CleanTweets(r.value.tweets);
      && r.value.addresses == Filter(cands, isAddress, Direct) + Found(EnsOutcomes(cands, isAddress, graph))
      && |r.value.addresses| <= |cands|
      && r.value.logs ==
           (s.logs + PageLogs(pages[..|requested|])) + AfterCollectLog(|r.value.tweets|, cands, isAddress, graph)
  {
    var collected := CollectTweets(s, pages, None);
    requested := Endpoints(s.conversationID, collected.requested);
    assert forall j :: 0 <= j < |requested| ==>
      requested[j] == GenerateEndpoint(s.conversationID, RequestToken(pages, None, j)) by {
      CollectTweetsRequests(s, pages, None);
    }
    assert collected.result.Success? <==>
      FinalPage(pages) < |pages| && forall j :: 0 <= j <= FinalPage(pages) ==> pages[j].data.Some? by {
      CollectTweetsSucceeds(s, pages, None);
    }
    if collected.result.Failure? {
      return Failure(collected.result.error), requested;
    }
    var st := collected.result.value;
    var n := FinalPage(pages) + 1;
    assert n <= |pages| && |requested| == n by {
      CollectTweetsSuccessCount(s, pages, None);
    }
    assert st == s.(tweets := s.tweets + AllTweets(pages[..n]), logs := s.logs + PageLogs(pages[..n])) by {
      CollectTweetsSuccess(s, pages, None);
    }
    var done := AfterCollect(st, isAddress, graph);
    AfterCollectAccounting(st, isAddress, graph);
    return Success(done), requested;
  }
}
