# VoxFlowAI news pipeline: deterministic core in Dafny

VoxFlowAI turns a list of news topics into a spoken broadcast. It fetches the
Google News RSS feed for each topic, summarises the headlines with a language
model, composes one broadcast script, and synthesises audio. Almost all of this
is network, model or file I/O. This project models the deterministic core that
sits between those calls:

- **Feed URLs** (`FeedUrls`): the RSS search URL for a keyword, built by plain
  concatenation with no escaping, and the keyword-to-URL dictionary.
- **Headline digest** (`Headlines`): from an already-parsed feed (its `bozo`
  malformed flag and its entry titles) to the newline-joined digest.
- **Topic coordinator** (`Coordinator`): the `scrape_news` loop. For every topic
  occurrence, in order, it looks up the URL, fetches, digests and summarises. It
  records the summary, or `"Error: " + message` when a call raises, in an
  insertion-ordered dictionary. The results are wrapped as `{"news_analysis": results}`.
  The fetch (HTTP request plus feed parsing) and the summariser are oracles.
  Each oracle receives the index of the topic occurrence being handled, so
  answers may differ between occurrences. A separate function gives the
  loop's trace of limiter, attempt and pause events, which does not depend on
  the oracles' answers.
- **Composer prompt** (`Composer`): the user prompt of `generate_broadcast_news`.
  It holds one labelled block per topic with non-empty content, in topic order,
  joined by a fixed separator after a fixed header.
- **Pipeline** (`Pipeline`): the coordinator's envelope fed to the composer.

Supporting modules: `Outcomes` (`Option`; `Outcome` = returned value or raised
message), `Text` (Python's `str.join` and `str.split`), `Seqs` (de-duplication
in first-occurrence order, first and last index), and `AssocList` (a Python
`dict` as a key/value list: assigning to a present key replaces its value in
place, and a new key is appended).

Four behaviours of the code shape the model:

- `@retry` wraps the whole `scrape_news` call (news_scraper.py:18-21), not
  each topic. Every per-topic exception is caught at news_scraper.py:36-37, so
  the trace attempts fetch and summarise exactly once per topic occurrence
  (`OneAttemptPerOccurrence`). The dictionary depends on the oracles only at
  the attempts the trace records (`ResultDependsOnlyOnAttempts`); it need not
  depend on all of them, since a repeated topic's later answer overwrites its
  earlier one.
- The one-second pause (news_scraper.py:38) is taken inside the
  `async with self._rate_limiter` block, after every topic including the last.
  `Events` records that order.
- Nothing rejects repeated topics. A repeated topic keeps its first position
  in the dictionary and gets the value of its last occurrence.
- The composer reads `news_data["news_analysis"]` inside the topic loop
  (utils.py:109-110). For non-empty news data without that key it therefore
  raises `KeyError` only when there is at least one topic.

## Model

| member | source | states |
|---|---|---|
| Text.Join | utils.py:44 | `"\n".join`: empty list gives `""`, one part gives itself, and the length is the parts' total plus one separator between each pair of neighbours |
| Text.SplitJoin | utils.py:37-44 | splitting a join of at least one separator-free part gives back exactly the parts |
| Seqs.Dedup | news_scraper.py:24-37 | the keys a dict ends with: every element of the list once, nothing else, no repeats |
| Seqs.DedupFirstOccurrenceOrder | news_scraper.py:24-37 | those keys come in the order of their first occurrence in the list |
| AssocList.Lookup | utils.py:110 | `dict.get`: a value is found exactly when the key is among the dictionary's keys, and the value found is one stored under that key |
| AssocList.LookupFindsFirst | utils.py:110 | the value found is the one stored at the key's first position |
| AssocList.LookupInDict | utils.py:110 | in a dictionary, where each key is held once, the lookup finds `v` exactly when the pair `(k, v)` is stored |
| AssocList.Put | news_scraper.py:35-37 | `d[k] = v`: `k` now maps to `v`, every other key's lookup is unchanged, and a new key is appended while a present key keeps its position |
| FeedUrls.GoogleNewsUrl | utils.py:16-19 | the URL is the fixed search prefix, the keyword verbatim (no escaping), then the fixed locale suffix |
| FeedUrls.KeywordOfUrl | utils.py:16-19 | the keyword can be read back from its URL |
| FeedUrls.UrlOfKeyword | utils.py:16-19 | every URL with the fixed prefix and suffix is the URL of the keyword read from it |
| FeedUrls.UrlInjective | utils.py:16-19 | two keywords give the same URL exactly when they are equal |
| FeedUrls.UrlsToScrape | utils.py:22-26 | the dictionary's key set is exactly the set of keywords, and each key maps to its own URL |
| FeedUrls.UrlsDependOnKeywordSet | utils.py:22-26 | repeated keywords collapse: lists with the same keyword set give the same dictionary |
| FeedUrls.UrlsSize | utils.py:22-26 | exactly one entry per distinct keyword, so at most one per keyword in the list |
| FeedUrls.SingleKeywordLookup | news_scraper.py:29-30 | `urls[topic]` on the one-topic dictionary never misses and yields the topic's URL |
| Headlines.Digest | utils.py:37-44 | a flagged feed gives `""`; a well-formed feed without entries gives `""`; otherwise the length is the titles' total plus one line break between each pair |
| Headlines.DigestSplitsIntoTitles | utils.py:37-44 | for a well-formed feed with at least one title and no title containing a line break, splitting the digest at line breaks gives back the titles in feed order, with none dropped or repeated |
| Headlines.MalformedFeedIgnoresEntries | utils.py:38-44 | a flagged feed yields `""` whatever its entries |
| Coordinator.FetchAndSummarize | news_scraper.py:29-34 | the feed is fetched from exactly the topic's search URL; a raise in the fetch is the outcome and the summariser is skipped; otherwise the outcome is the summariser's on the feed's digest |
| Coordinator.EntryOf | news_scraper.py:35-37 | a success is stored as the summary; a raise is stored as `"Error: "` followed by the message, so the message can be read back after the prefix |
| Coordinator.EntriesAgree | news_scraper.py:35-37 | two outcomes are stored alike exactly when they are equal, or one is a summary spelled like the other's error marker: a summary starting with `"Error: "` cannot be told apart from a failure |
| Coordinator.RunTopics | news_scraper.py:24-38 | the keys are the distinct topics in first-occurrence order; each topic's value is the entry of its last occurrence; topics that were not requested are absent |
| Coordinator.Events | news_scraper.py:26-38 | four events per topic occurrence, in request order: enter the limiter, attempt the topic, pause while still inside the limiter, leave the limiter |
| Coordinator.ScrapeNews | news_scraper.py:22-40 | the result is a single-key map under `"news_analysis"`; its keys are exactly the requested topics; no topics gives an empty result |
| Coordinator.FailureIsolation | news_scraper.py:26-37 | a topic's entry depends only on what the oracles answer at that topic's own occurrences, so no other topic's failure can change it |
| Coordinator.FailedTopicRecordsError | news_scraper.py:36-37 | a topic whose last attempt raised is recorded as `"Error: " + message` |
| Coordinator.SucceededTopicRecordsSummary | news_scraper.py:29-35 | a topic whose last attempt succeeded is recorded as its summary |
| Coordinator.KeysInRequestOrder | news_scraper.py:24-37 | result keys follow the order in which the topics first occur in the request |
| Coordinator.DistinctTopicsKeepOrder | news_scraper.py:24-37 | with no repeated topics, the result keys are the topics exactly, in request order |
| Coordinator.OneAttemptPerOccurrence | news_scraper.py:26-38 | the topics attempted over the whole trace are exactly the request's topics, in order, once per occurrence and with no retry |
| Coordinator.ResultDependsOnlyOnAttempts | news_scraper.py:26-37 | oracle pairs that give the same answers at the attempts the trace records build the same dictionary: the dictionary depends on the oracles only at the traced attempts |
| Coordinator.SameAnswersSameResults | news_scraper.py:26-37 | oracle pairs that agree at every topic occurrence build the same dictionary |
| Composer.ContentOf | utils.py:110 | a topic with an entry gets content that is stored under it; a topic without one gets `""` |
| Composer.BlockFor | utils.py:111-119 | a block is `"TOPIC: " + topic + "\n\n" + "OFFICIAL NEWS CONTENT:\n" + content`; joining the one-element context inserts no separator |
| Composer.TopicBlocks | utils.py:108-119 | no more blocks than topics; every topic with non-empty content has its block; when no topic has content there are no blocks |
| Composer.KeptIndices | utils.py:112-119 | the positions of the topics with non-empty content, strictly ascending, and no position is missed |
| Composer.BlocksFollowTopicOrder | utils.py:108-119 | the blocks are exactly the blocks of the kept topics, in topic order |
| Composer.ErrorMarkersAreContent | utils.py:110-119 | an `"Error: ..."` entry counts as content, so its topic gets a block |
| Composer.UserPrompt | utils.py:108-124 | it raises exactly when there is a topic and the news data is non-empty without `"news_analysis"`; a built prompt starts with the fixed header; empty news data gives exactly the header |
| Composer.PromptListsKeptTopics | utils.py:121-124 | a built prompt is the header followed by the kept topics' blocks, in topic order, joined by the topic separator |
| Pipeline.ComposerCoversScrapedTopics | utils.py:108-124 | on the coordinator's envelope the prompt is always built, and every topic with a non-empty recorded result has its block carrying that result |
| Pipeline.FailedTopicReachesComposer | news_scraper.py:36-40 | a topic whose last attempt raised reaches the composer as its `"Error: "` block |

## Left out

- HTTP fetch, the browser user-agent header and `feedparser` parsing (utils.py:29-35) are the fetch oracle. It returns a parsed feed or raises. The SSL-verification bypass (utils.py:14) is not modelled.
- Headlines.Digest: every feed entry is assumed to have a title. At utils.py:40 an entry without one raises `AttributeError`, which news_scraper.py:36-37 records as `"Error: ..."`. The model counts that raise as the fetch oracle raising, because `ParsedFeed` carries titles, not feedparser entries.
- The debugging `print` when a feed is flagged (utils.py:42) is console output.
- All language-model calls are left out: their prompts, model names, temperatures and token limits (utils.py:47-81, 87-105, 126-142). The per-topic summariser, including its API key read and its wrapping of errors, is the summarize oracle. The composer's model call that consumes the prompt is not modelled.
- Speech synthesis, directory creation, the timestamped file name and file writing (utils.py:145-190) are foreign I/O and depend on the clock.
- backend.py is request wiring, environment reads and file reads. Its one decision, passing `{}` when news was not requested, is covered by `Composer.UserPrompt` on empty news data.
- The `AsyncLimiter` token bucket and `asyncio.sleep` (news_scraper.py:16, 27, 38) are timing and concurrency. They appear only as trace events.
- The `tenacity` retry around the whole `scrape_news` call (news_scraper.py:18-21) is left out. Per-topic exceptions are caught inside the loop, so fetch and summarise failures never reach it.
- Exception messages are opaque strings. What `str(e)` renders for a given exception is not modelled.
