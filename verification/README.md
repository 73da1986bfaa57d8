# ens2airdrop scraper, modelled in Dafny

ens2airdrop builds airdrop lists from the replies to a tweet. It has three parts:

- The `Scraper` class pages through a thread's replies via the Twitter search API.
- It pulls the first address-like and the first ENS-like string out of each reply.
- It keeps the strings that `isAddress` accepts and resolves the `.eth` names through the ENS subgraph, 25 names per request.

The web page then takes the distinct addresses of the result. It shows them one per line; with a non-zero amount, every line is instead the literal text `addr,<amount>` and no address appears (see "## Findings"). It also shows them chunked into bracketed lines for Etherscan.

This project models that core as pure functions over immutable data, and proves what each step promises.

| file | module | what it holds |
|---|---|---|
| `wrappers.dfy` | `Wrappers` | `Option`, `Result` |
| `text.dfy` | `Text` | character classes of the two patterns; `join`, `split`, `includes`, `startsWith`, one-occurrence `replace`, ASCII `toLowerCase`; numbers as template literals render them |
| `logger.dfy` | `Logger` | the append-only `[level, message]` log and entry counting |
| `array_utils.dfy` | `ArrayUtils` | `chunk`, with its source formula and a recursive form proved equal |
| `patterns.dfy` | `Patterns` | the address and ENS regular expressions, as declarative span predicates plus scanners proved to return the leftmost, longest match; the ENS pattern with its dot escaped, for comparison |
| `ens_graph.dfy` | `EnsGraph` | the filter/map `ensGraphFetch` applies to the subgraph's rows |
| `scraper.dfy` | `Scraper` | `generateEndpoint`, `collectTweets`, `cleanTweetsForAddresses`, `convertENS`, `scrape` |
| `scraper_interface.dfy` | `ScraperInterface` | the page's `cleanedAddresses`, `addressChunks` and its two text renderings |

## External inputs

What the program obtains from the outside world is a parameter of the model:

- **Search API.** Its answers are a sequence of `Page`s (`data`, `meta.next_token`), consumed one per request.
- **ENS subgraph.** It is the function `graph`, from a batch of names to the rows of `json.data.domains`.
- **`isAddress`.** It is an arbitrary predicate, applied to the ASCII-lower-cased candidate.

A run that needs one page more than it is given ends in `PagesExhausted`. A page without `data` ends the run in `MissingPageData`, because `push(...undefined)` throws there.

## Behaviour worth knowing

The code, and therefore the model, behaves as follows:

- **No checksumming.** Addresses are kept exactly as written in the tweet, cut to 42 characters when they begin with `0x`.
- **Exact-string deduplication.** Case variants of one address stay separate entries.
- **Resolved ENS addresses are not validated.** A subgraph answer is accepted whatever its `resolvedAddress.id` looks like.
- **ENS is resolved only through the subgraph.** The constructor ignores its `rpcProvider` argument (scraper/scraper.ts:63-65 are commented out), and so does `scrape`.
- **ENS classification is case-sensitive.** The ENS pattern ignores case, but the `.eth` test in `convertENS` does not. So `name.ETH` is neither an address nor resolved (`Scraper.UpperCaseEthRejected`).
- **The first subgraph row wins.** When several rows carry a candidate's name, `find` takes the first, and its address is the one kept.
- **The ENS pattern's dot is a wildcard.** `ENSRegex` (scraper/scraper.ts:7) does not escape its `.`, so any word with at least three characters before an `eth` matches. In `together with vitalik.eth` the reported match is `togeth`; it is then rejected, and `vitalik.eth` is never resolved (`Patterns.EnsDotMatchesAnyChar`, and "## Findings").
- **Only the first line break is replaced.** The "Could not resolve" message replaces only the tweet's first `\n` (`Text.ReplaceFirstKeepsLater`).

## Model

| member | source | states |
|---|---|---|
| Text.ReplaceFirst | scraper/scraper.ts:180-183 | `replace("\n", " ")` changes exactly the first occurrence and keeps every other character and the length |
| Text.ReplaceFirstKeepsLater | scraper/scraper.ts:180-183 | a second line break in a tweet survives into the "Could not resolve" message |
| Text.NatToString | scraper/scraper.ts:102 | a count renders as decimal digits without a leading zero |
| Text.ParseNatToString | scraper/scraper.ts:198 | reading the rendered count back gives the count, so the rendering loses nothing |
| Text.SplitJoin | ui/ScraperInterface.tsx:87-89 | splitting `items.join(sep)` at `sep` gives the items back when none contains `sep` |
| Text.JoinSplit | ui/ScraperInterface.tsx:87-89 | joining the pieces of a split restores the text |
| Text.Join | ui/ScraperInterface.tsx:87-89 | a join begins with its first item |
| Logger.Info | scraper/scraper.ts:13-19 | `info` appends exactly one info entry with the message and leaves earlier entries untouched |
| Logger.Error | scraper/scraper.ts:20-26 | `error` appends exactly one error entry with the message and leaves earlier entries untouched |
| Logger.CountAppend | scraper/scraper.ts:10-27 | entry counts of a log distribute over appending |
| Logger.CountLevelsPartition | scraper/scraper.ts:11 | every entry is either info or error, so the two counts add up to the log's length |
| ArrayUtils.CeilDivIsCeiling | ui/array-utils.ts:2 | the number of chunks is `Math.ceil(length / size)`, the least q with q·size ≥ length |
| ArrayUtils.ChunkIsFormula | ui/array-utils.ts:1-4 | the recursive chunking equals the `Array.from` slicing formula, element for element |
| ArrayUtils.ChunkFormula | ui/array-utils.ts:1-4 | each slice of the `Array.from` formula holds 1 to size elements |
| ArrayUtils.ChunkFlatten | ui/array-utils.ts:1-4 | the chunks concatenated in order are the array |
| ArrayUtils.ChunkCount | ui/array-utils.ts:2 | there are ceil(length / size) chunks |
| ArrayUtils.ChunkAtIndex | ui/array-utils.ts:3 | chunk i is the slice from i·size to min(i·size + size, length) |
| ArrayUtils.ChunkIndex | ui/array-utils.ts:3 | chunk i is `arr.slice(i * size, i * size + size)` with the multiplication written out |
| ArrayUtils.ChunkSizes | ui/array-utils.ts:1-4 | every chunk but the last has exactly `size` elements, the last has 1 to `size`, none exist for an empty array |
| ArrayUtils.ChunkChecked | ui/array-utils.ts:1-4 | for any integer size: a negative size gives no chunks; zero with a non-empty array throws; a positive size gives chunks of 1 to size elements that concatenate back to the array |
| Patterns.AddressEndAt | scraper/scraper.ts:6 | at a given start the address pattern matches up to the end of the `\w` run and no further, or nowhere |
| Patterns.FindAddressFrom | scraper/scraper.ts:6 | the scan returns the first start with a match and the longest match there, or none when no later start matches |
| Patterns.FindAddress | scraper/scraper.ts:120-121 | `match` finds a span exactly when one exists, and it is the leftmost, longest one |
| Patterns.AddressMatch | scraper/scraper.ts:120-121 | the matched text exists exactly when a span matches, and then it is the text of the leftmost, longest span; it starts with `0x` and is followed by at least two word characters |
| Patterns.LastDotEth | scraper/scraper.ts:7 | backtracking the greedy `\w+` finds the last position where `.eth` follows, or proves there is none |
| Patterns.EnsEndAt | scraper/scraper.ts:7 | at a given start the ENS pattern matches up to the longest `.eth` ending, or nowhere |
| Patterns.FindEnsFrom | scraper/scraper.ts:7 | the scan returns the first start with a match and the longest match there, or none |
| Patterns.FindEns | scraper/scraper.ts:122 | `match` finds a span exactly when one exists, and it is the leftmost, longest one |
| Patterns.EnsMatch | scraper/scraper.ts:122 | the matched text exists exactly when a span matches, and then it is the text of the leftmost, longest span; it starts with an alphanumeric and ends in one wildcard character then `eth` in any case |
| Patterns.EnsDotMatchesAnyChar | scraper/scraper.ts:7 | in `together with vitalik.eth` the ENS pattern reports `togeth`, because its unescaped `.` matches the `g` |
| Patterns.EscapedEnsEndAt | scraper/scraper.ts:7 | with the dot escaped, a start position has at most one match, ending at a literal `.eth` right after the word |
| Patterns.EscapedEnsMatch | scraper/scraper.ts:7 | with the dot escaped, the match exists exactly when a span matches, is the leftmost span's text, and always ends in a literal `.` followed by `eth` in any case |
| Patterns.EscapedLeftmost | scraper/scraper.ts:7 | with the dot escaped, a span after a non-word character with no dot before it is the reported match |
| Patterns.EscapedEnsFindsName | scraper/scraper.ts:7 | with the dot escaped, `together with vitalik.eth` yields `vitalik.eth` |
| EnsGraph.Shape | scraper/fetch-ens-graph.ts:28-33 | the answer never has more entries than there are rows, and every kept name is non-empty |
| EnsGraph.ShapeMembers | scraper/fetch-ens-graph.ts:29-33 | an entry is in the answer exactly when some row with a resolved address and a name has that shape |
| EnsGraph.ShapeAppend | scraper/fetch-ens-graph.ts:28-33 | filtering and reshaping keep the rows' order |
| EnsGraph.ShapeLength | scraper/fetch-ens-graph.ts:29 | the answer has one entry per row that passes the filter |
| Scraper.GenerateEndpoint | scraper/scraper.ts:74-84 | the URL always starts with the base endpoint; it is the base alone exactly when the token is falsy; otherwise `&next_token=` and the token follow |
| Scraper.TokenRoundTrip | scraper/scraper.ts:83 | the token can be read back out of the URL: a truthy token comes back, a falsy one as none |
| Scraper.EndpointInjective | scraper/scraper.ts:74-84 | two tokens give the same URL only if both are falsy or they are equal |
| Scraper.CollectTweets | scraper/scraper.ts:90-110 | a run makes at least one and at most one more request than there are pages, and the first request carries the starting token |
| Scraper.PageLogsAt | scraper/scraper.ts:102 | the entry logged for page j reports the number of replies on page j |
| Scraper.FinalPage | scraper/scraper.ts:104-109 | the run stops at the first page without a truthy `next_token`; every earlier page has one |
| Scraper.CollectTweetsRequests | scraper/scraper.ts:92 | request j carries the starting token for j = 0 and page j-1's `next_token` afterwards |
| Scraper.CollectTweetsSucceeds | scraper/scraper.ts:99-110 | a run succeeds exactly when some page lacks a truthy token and every page up to the first such page has `data` |
| Scraper.CollectTweetsSuccessCount | scraper/scraper.ts:104-109 | a successful run made exactly FinalPage + 1 requests |
| Scraper.CollectTweetsSuccess | scraper/scraper.ts:99-102 | a successful run appended the replies of pages 0..FinalPage in order, logged one count per page, and changed nothing else |
| Scraper.FreshCollect | scraper/scraper.ts:53-110 | a run started from a new scraper, if it succeeds, holds no addresses, the replies of pages 0..FinalPage and one count entry per page, and keeps the conversation id |
| Scraper.ConsumeAppends | scraper/scraper.ts:101-102 | taking in pages one by one appends their replies and one count entry each |
| Scraper.CollectTweetsConsumes | scraper/scraper.ts:106-108 | a successful run has taken in exactly pages 0..FinalPage |
| Scraper.CollectTweetsFailure | scraper/scraper.ts:100-108 | a run fails at a missing page exactly at the last request, at or before the final page; it runs out of pages only after one request per page plus one, with every token truthy |
| Scraper.AllTweetsFlatten | scraper/scraper.ts:101 | the collected replies are the pages' replies concatenated in page order |
| Scraper.CleanText | scraper/scraper.ts:118 | cleaning removes every carriage return and line feed and nothing else |
| Scraper.CleanTextIdentity | scraper/scraper.ts:118 | text without line breaks is unchanged |
| Scraper.CleanTextIdempotent | scraper/scraper.ts:118 | cleaning twice is cleaning once |
| Scraper.CleanTextAppend | scraper/scraper.ts:118 | cleaning works character by character |
| Scraper.Truncate | scraper/scraper.ts:128-131 | a match beginning with `0x` keeps its first 42 characters; any other match is kept whole; the result is a prefix of the match |
| Scraper.TruncateIdempotent | scraper/scraper.ts:128-131 | truncating twice is truncating once |
| Scraper.TweetCandidates | scraper/scraper.ts:124-135 | a tweet yields at most two candidates, each recording the tweet's original text and no ENS name |
| Scraper.TweetCandidatesMatches | scraper/scraper.ts:120-135 | a tweet yields one candidate per pattern that matches its cleaned text, so none exactly when neither matches; the truncated address match comes first and the truncated ENS match last |
| Scraper.TweetCandidatesSpans | scraper/scraper.ts:118-131 | the first candidate is the truncated text of the leftmost, longest address span of the cleaned reply, the last that of the leftmost, longest ENS span |
| Scraper.CleanTweets | scraper/scraper.ts:116-137 | at most two candidates per tweet |
| Scraper.CleanTweetsAppend | scraper/scraper.ts:116 | extraction handles tweets in input order |
| Scraper.CleanTweetsSources | scraper/scraper.ts:134 | every candidate carries the full text of a tweet it came from |
| Scraper.CleanTweetsForAddresses | scraper/scraper.ts:115-138 | the earlier addresses stay in place, followed by the tweets' candidates; tweets and log are untouched |
| Scraper.Filter | scraper/scraper.ts:146-156 | a bucket holds only candidates of the input classified into it, and is never longer than the input |
| Scraper.FilterAppend | scraper/scraper.ts:146-156 | buckets are filled one candidate at a time in input order: filtering distributes over concatenation |
| Scraper.FilterMultiplicity | scraper/scraper.ts:146-156 | a bucket holds each candidate of its kind exactly as often as the input does, and no other candidate |
| Scraper.FilterComplete | scraper/scraper.ts:146-156 | no candidate is lost: each is in the bucket it is classified into |
| Scraper.FilterPartition | scraper/scraper.ts:146-156 | the three buckets together are the input, as a multiset |
| Scraper.ClassifyLogs | scraper/scraper.ts:148-155 | classification writes at most one entry per candidate, each beginning with `address-like ` |
| Scraper.ClassifyLogsAt | scraper/scraper.ts:146-156 | the classification log has one entry per candidate that is not an ENS name, in input order: info `address-like <addr> valid` for a valid address, error `address-like <addr> invalid` for a rejected text |
| Scraper.ClassifyPartition | scraper/scraper.ts:146-156 | the three bucket sizes add up to the number of candidates; classification logs one info entry per valid address, one error entry per rejected text and none for an ENS name |
| Scraper.UpperCaseEthMatched | scraper/scraper.ts:7 | the ENS pattern, ignoring case, matches a word-shaped name followed by `.ETH` whole, so the text is extracted as a candidate |
| Scraper.UpperCaseEthRejected | scraper/scraper.ts:148-155 | when `isAddress` refuses the lower-cased `name.eth`, the text `name.ETH` (with no dot in `name`) is rejected, because the `.eth` test is case-sensitive |
| Scraper.FirstMatchIndex | scraper/scraper.ts:165-167 | `find` returns the first result whose name equals the candidate, or none when no result does |
| Scraper.ResolveOne | scraper/scraper.ts:165-185 | a candidate is accepted exactly when some result has its exact name; the accepted entry carries the address of the first such result, the name and the tweet, and is logged as info `Found address <name> from <name>`; a refusal is logged as error `Could not resolve <name> -- <tweet>` with the tweet's first line break replaced |
| Scraper.BatchOf | scraper/scraper.ts:158 | candidate j lies in batch j / 25 at position j % 25 |
| Scraper.ResolveBatches | scraper/scraper.ts:158-187 | resolving batch after batch gives one outcome per candidate in the batches |
| Scraper.LastBatchAt | scraper/scraper.ts:158-167 | candidate j of batch i is resolved at position j - 25i of that batch's outcomes, against the answer for batch i |
| Scraper.ResolveBatchesPrefix | scraper/scraper.ts:158-187 | for any per-candidate matching, the first b batches resolve the candidates before position min(25b, n), each against the answer for its own batch |
| Scraper.ResolveInBatches | scraper/scraper.ts:158-187 | for any per-candidate matching, batching yields exactly one outcome per ENS candidate, in order, each matched against the answer for the batch holding it |
| Scraper.EnsOutcomes | scraper/scraper.ts:158-187 | there is one resolution outcome per ENS candidate |
| Scraper.EnsOutcomesAt | scraper/scraper.ts:158-187 | the outcome for ENS candidate j is its match against the answer for the batch holding j |
| Scraper.EntriesCount | scraper/scraper.ts:169-185 | resolution logs one info entry per accepted candidate and one error entry per dropped one |
| Scraper.EnsOutcomesLevels | scraper/scraper.ts:169-185 | an outcome is accepted exactly when its entry is at info level |
| Scraper.ConvertEnsLogCounts | scraper/scraper.ts:144-187 | `convertENS` logs one entry per candidate: info for each kept, error for each dropped |
| Scraper.ConvertEnsKeeps | scraper/scraper.ts:144-189 | the new addresses are the valid candidates followed by the resolved ones, never more than the candidates |
| Scraper.ConvertEnsLog | scraper/scraper.ts:146-187 | the log grows by one entry per candidate after the untouched earlier entries; info entries count the kept addresses and error entries the dropped ones |
| Scraper.ConvertEnsResolved | scraper/scraper.ts:163-185 | an ENS candidate is resolved only by a row with exactly its name; the result carries the address of the first such row and the original tweet; success is logged at info level as `Found address <name> from <name>`, failure as an error |
| Scraper.ConvertEns | scraper/scraper.ts:143-190 | conversion replaces only the addresses and the log: the replies and the conversation id stay as they were |
| Scraper.AfterCollect | scraper/scraper.ts:195-214 | the steps after collection keep the replies and the conversation id |
| Scraper.AfterCollectAccounting | scraper/scraper.ts:197-218 | after collection the candidates are the earlier addresses followed by those found; the result is the valid candidates followed by the resolved ENS ones, never more than the candidates; after the untouched earlier entries the log gains, in order, info `Collected <n> total tweets`, info `Collected <m> addresses from tweets`, the classification entries, the resolution entries and info `Converted ENS names to addresses` |
| Scraper.AfterCollectLogCounts | scraper/scraper.ts:146-187 | the classification and resolution entries number one per candidate: as many info entries as addresses kept, as many error entries as candidates dropped |
| Scraper.Scrape | scraper/scraper.ts:195-219 | end to end: success exactly when every page up to the final one has data; the requested URLs are the token chain, one per page up to the final one; the replies are the earlier ones followed by the pages'; the addresses are as `Scraper.AfterCollectAccounting` states; the log is the earlier entries, one `Collected <k> tweets` info entry per page, then the entries after collection |
| ScraperInterface.Dedup | ui/ScraperInterface.tsx:22 | `[...new Set(xs)]` holds exactly the strings of xs, each once |
| ScraperInterface.DedupFirstOccurrenceOrder | ui/ScraperInterface.tsx:22 | the distinct strings come in the order of their first occurrences |
| ScraperInterface.CleanedAddresses | ui/ScraperInterface.tsx:21-24 | `cleanedAddresses` holds each `addr` of the result exactly once |
| ScraperInterface.AddressChunks | ui/ScraperInterface.tsx:25-28 | there are no chunks exactly when the chunk size is 0 and there are addresses (the page's `chunk` throws then); a positive size gives chunks of 1 to size addresses that concatenate to the list |
| ScraperInterface.DefaultChunksCover | ui/ScraperInterface.tsx:17 | with the initial size of 100, the chunks exist, each holds 1 to 100 addresses, and they concatenate to the list |
| ScraperInterface.CollectedLine | ui/ScraperInterface.tsx:88 | with amount 0 a line is the address; otherwise it splits at its comma into the word `addr` and the amount |
| ScraperInterface.CollectedTextWithoutTokens | ui/ScraperInterface.tsx:87-89 | with the initial amount of 0, the text splits back at line breaks into the address list |
| ScraperInterface.CollectedTextWithTokens | ui/ScraperInterface.tsx:88 | with a non-zero amount every line is the literal `addr,<amount>`, so any two lists of one length render alike |
| ScraperInterface.DisperseTextRecoversAddresses | ui/ScraperInterface.tsx:88 | with the address interpolated, each line splits at its comma into the address and the amount |
| ScraperInterface.EtherscanText | ui/ScraperInterface.tsx:101-108 | the text is missing exactly when the chunk size is 0 and the list is non-empty; a negative size gives empty text |
| ScraperInterface.ChunkItems | ui/ScraperInterface.tsx:26 | every chunk is non-empty and holds only listed addresses |
| ScraperInterface.Bracketed | ui/ScraperInterface.tsx:107 | a chunk's line opens with `[` and closes with `]` |
| ScraperInterface.BracketedParse | ui/ScraperInterface.tsx:107 | a bracketed line is one line; stripping the brackets and splitting at commas gives the chunk back |
| ScraperInterface.BracketedLinesParse | ui/ScraperInterface.tsx:106-108 | the same for every chunk line of the list |
| ScraperInterface.EtherscanRoundTrip | ui/ScraperInterface.tsx:106-108 | for a positive size, the Etherscan text reads back as exactly the address list, provided no address contains a comma or line break |

## Left out

- HTTP requests, the bearer header and JSON decoding are not modelled. Pages and subgraph rows are inputs.
- Transport failures are not modelled. A failing `fetch`, a non-JSON body or a missing `json.data` in the subgraph call would reject the promise.
- A subgraph row whose `resolvedAddress` is present but has no `id` is not modelled. A row is either resolved with an id or not resolved.
- A page without `meta` is not modelled. Reading `data.meta.next_token` would throw; the model's `Page` always has a token field.
- Scraper.CollectTweets: a failed run returns no state. The source throws after having pushed the earlier pages' replies and log entries into the object.
- Scraper.Scrape: a failed run returns only the error and the requested URLs, not the partly updated scraper. The `scrapedStrings` callback is not modelled because it does not influence the result.
- `isAddress` is an arbitrary predicate. Its checksum rules belong to `@ethersproject/address`, which is not part of this model.
- Lower-casing is modelled on ASCII only. JavaScript's `toLowerCase` also maps non-ASCII letters before `isAddress` sees the text.
- The `console` output and the single logger `listener` are not modelled. They do not change the log.
- The constructor stores `conversationID`, the bearer token and `numTokens` (scraper/scraper.ts:53-67). The model keeps only `conversationID`: the bearer token goes into HTTP headers, which are not modelled, and `numTokens` is never read. The `rpcProvider` argument is ignored because the lines that would store it are commented out.
- The RPC-based resolution and `outputAddresses` are commented out in the source.
- React state, hooks, the polling interval and the rendering of the log text area are not modelled.
- ScraperInterface.CollectedTextWithTokens: the amount is written with all its decimal digits (`Text.IntToString`). A JavaScript number prints in exponent form from 1e21 upwards and loses integer precision above 2^53, so for such amounts the page's text differs from the model's.
- ScraperInterface.CollectedLine: the same digit-for-digit rendering of the amount, with the same gap for amounts of 1e21 and above or beyond 2^53.
- ScraperInterface.DisperseTextRecoversAddresses: the same digit-for-digit rendering of the amount, with the same gap.
- `parseInt` on the numeric inputs is not modelled. It can yield `NaN`, which the model does not represent. `NaN` is falsy like 0 for the amount and gives no chunks for the chunk size.
- The configuration page, the airdrop page and the Cloudflare proxy are not part of this model.
- Scraper.CleanTweets: extraction is stated over well-formed `Tweet` values. A reply without `text` would throw in `replace` and is not represented.

## Findings

| source | as written | input that shows it | evidently intended | confidence | as-written member | corrected member |
|---|---|---|---|---|---|---|
| scraper/scraper.ts:7 | `ENSRegex` leaves the `.` before `eth` unescaped, so it matches any character | `together with vitalik.eth` matches as `togeth`, which is rejected, and `vitalik.eth` is lost | `/([a-zA-Z0-9]\w+\.(eth))/i`, matching only names that end in a literal `.eth` | high, not executed | Patterns.EnsDotMatchesAnyChar | Patterns.EscapedEnsMatch |
| ui/ScraperInterface.tsx:88 | the template `addr,${numberOfTokens}` writes the word `addr`, not the address | addresses `["0xa…", "0xb…"]` with amount 5 render as `addr,5` twice | `${addr},${numberOfTokens}`, one `address,amount` line per address as disperse.app expects | high, not executed | ScraperInterface.CollectedTextWithTokens | ScraperInterface.DisperseTextRecoversAddresses |
