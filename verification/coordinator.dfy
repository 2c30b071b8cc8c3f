/** The per-topic loop of `NewsScraper.scrape_news`: for every topic, in
    order, fetch its feed, digest it and summarise the digest; record the
    summary, or `"Error: " + message` when either call raises; wrap the
    results under `"news_analysis"`.

    The network fetch (request plus feed parsing) and the summariser call are
    oracles. Each receives the position of the topic occurrence being handled,
    so the same topic may meet different answers at different occurrences. */
module Coordinator {
  import opened Outcomes
  import opened Seqs
  import opened AssocList
  import opened FeedUrls
  import opened Headlines

  /** Fetch and parse the feed at a URL, for the n-th topic occurrence. */
  type FetchOracle = (nat, string) -> Outcome<ParsedFeed>
  /** Summarise a headline digest, for the n-th topic occurrence. */
  type SummarizeOracle = (nat, string) -> Outcome<string>

  /** The key under which the results are returned. */
  const NewsAnalysisKey: string := "news_analysis"
  /** The prefix of a failed topic's entry. */
  const ErrorPrefix: string := "Error: "

  /** The topic-to-result dictionary, in insertion order. */
  type Results = Entries<string, string>
  /** The returned envelope `{"news_analysis": results}`; the composer also
      receives the empty dictionary when news was not requested. */
  type NewsData = map<string, Results>

  /** What happens around one topic occurrence: the rate limiter is entered,
      fetch and summarise are attempted once, the one-second pause is taken
      inside the limiter, and the limiter is left. */
  datatype Event = EnterLimiter | Attempt(topic: string) | Pause | LeaveLimiter

  /** Fetch and summarise one topic occurrence: look the topic up in its own
      URL dictionary, fetch that URL, digest the feed and summarise the digest.
      A raise in the fetch skips the summariser. */
  function FetchAndSummarize(n: nat, topic: string, fetch: FetchOracle, summarize: SummarizeOracle)
    : (o: Outcome<string>)
    ensures fetch(n, GoogleNewsUrl(topic)).Raised? ==> o == Raised(fetch(n, GoogleNewsUrl(topic)).message)
    ensures fetch(n, GoogleNewsUrl(topic)).Returned? ==>
              o == summarize(n, Digest(fetch(n, GoogleNewsUrl(topic)).value))
  {
    var urls := UrlsToScrape([topic]);
    assert topic in [topic];
    match fetch(n, urls[topic])
    case Raised(msg) => Raised(msg)
    case Returned(feed) => summarize(n, Digest(feed))
  }

  /** The value stored for a topic: the summary, or the error marker. */
  function EntryOf(o: Outcome<string>): (v: string)
    ensures o.Raised? ==> |v| >= |ErrorPrefix| && v[..|ErrorPrefix|] == ErrorPrefix
    ensures o.Raised? ==> v[|ErrorPrefix|..] == o.message
    ensures o.Returned? ==> v == o.value
  {
    match o
    case Returned(summary) => summary
    case Raised(msg) =>
      var v := ErrorPrefix + msg;
      assert v[..|ErrorPrefix|] == ErrorPrefix && v[|ErrorPrefix|..] == msg;
      v
  }

  /** Two outcomes are stored alike exactly when they are the same outcome, or
      when one is a summary that reads exactly like the other's error marker:
      the dictionary cannot tell a summary starting with `"Error: "` from a
      failure. */
  lemma EntriesAgree(o1: Outcome<string>, o2: Outcome<string>)
    ensures EntryOf(o1) == EntryOf(o2) <==>
              || o1 == o2
              || (o1.Returned? && o2.Raised? && o1.value == ErrorPrefix + o2.message)
              || (o2.Returned? && o1.Raised? && o2.value == ErrorPrefix + o1.message)
  {
    if o1.Raised? && o2.Raised? && EntryOf(o1) == EntryOf(o2) {
      assert o1.message == EntryOf(o1)[|ErrorPrefix|..] == EntryOf(o2)[|ErrorPrefix|..] == o2.message;
    }
  }

  /** The events of one topic occurrence. */
  function TopicEvents(topic: string): seq<Event>
  {
    [EnterLimiter, Attempt(topic), Pause, LeaveLimiter]
  }

  /** The dictionary built by the loop over `topics`: every topic gets an
      entry, keys keep the order of first occurrence, a topic's entry is the
      outcome of its LAST occurrence (a dictionary overwrite), and a topic that
      was not requested has no entry. */
  function RunTopics(topics: seq<string>, fetch: FetchOracle, summarize: SummarizeOracle): (results: Results)
    ensures Keys(results) == Dedup(topics)
    ensures forall t :: t in topics ==>
              Lookup(results, t) == Some(EntryOf(FetchAndSummarize(LastIndex(topics, t), t, fetch, summarize)))
    ensures forall t :: t !in topics ==> Lookup(results, t) == None
    decreases |topics|
  {
    if |topics| == 0 then []
    else
      var n := |topics| - 1;
      var prefix := topics[..n];
      var t := topics[n];
      assert topics == prefix + [t];
      var prev := RunTopics(prefix, fetch, summarize);
      LookupAfterAppend(prefix, prev, t, fetch, summarize);
      Put(prev, t, EntryOf(FetchAndSummarize(n, t, fetch, summarize)))
  }

  /** Appending `x` makes it the last occurrence of `x` and leaves the last
      occurrence of every other element where it was. */
  lemma LastIndexAfterAppend(s: seq<string>, x: string)
    ensures LastIndex(s + [x], x) == |s|
    ensures forall t :: t in s && t != x ==> t in s + [x] && LastIndex(s + [x], t) == LastIndex(s, t)
  {
    forall t | t in s && t != x
      ensures LastIndex(s + [x], t) == LastIndex(s, t)
    {
      var k := LastIndex(s + [x], t);
      var k' := LastIndex(s, t);
      assert (s + [x])[k'] == t;
      assert k < |s|;
      assert s[k] == t;
    }
  }

  /** One loop step keeps "each requested topic maps to the value of its last
      occurrence, no other key is present". */
  lemma LookupAfterAppend(prefix: seq<string>, results: Results, t: string,
                          fetch: FetchOracle, summarize: SummarizeOracle)
    requires Keys(results) == Dedup(prefix)
    requires forall u :: u in prefix ==>
               Lookup(results, u) == Some(EntryOf(FetchAndSummarize(LastIndex(prefix, u), u, fetch, summarize)))
    requires forall u :: u !in prefix ==> Lookup(results, u) == None
    ensures var r := Put(results, t, EntryOf(FetchAndSummarize(|prefix|, t, fetch, summarize)));
      && Keys(r) == Dedup(prefix + [t])
      && (forall u :: u in prefix + [t] ==>
            Lookup(r, u) == Some(EntryOf(FetchAndSummarize(LastIndex(prefix + [t], u), u, fetch, summarize))))
      && (forall u :: u !in prefix + [t] ==> Lookup(r, u) == None)
  {
    var s := prefix + [t];
    assert s[..|prefix|] == prefix;
    LastIndexAfterAppend(prefix, t);
    var r := Put(results, t, EntryOf(FetchAndSummarize(|prefix|, t, fetch, summarize)));
    forall u | u in s
      ensures Lookup(r, u) == Some(EntryOf(FetchAndSummarize(LastIndex(s, u), u, fetch, summarize)))
    {
      if u != t {
        assert u in prefix;
      }
    }
  }

  /** The events of the loop over `topics`: for every occurrence, in order,
      enter the limiter, attempt the topic, pause, leave the limiter. The
      oracles' answers do not change the events. */
  function Events(topics: seq<string>): (trace: seq<Event>)
    ensures |trace| == 4 * |topics|
    ensures forall k :: 0 <= k < |trace| ==> trace[k] == TopicEvents(topics[k / 4])[k % 4]
    decreases |topics|
  {
    if |topics| == 0 then []
    else
      var n := |topics| - 1;
      var prev := Events(topics[..n]);
      var trace := prev + TopicEvents(topics[n]);
      assert forall k :: 0 <= k < |prev| ==> trace[k] == prev[k] && topics[..n][k / 4] == topics[k / 4];
      trace
  }

  /** `scrape_news`: the results of the loop, wrapped as `{"news_analysis": results}`. */
  function ScrapeNews(topics: seq<string>, fetch: FetchOracle, summarize: SummarizeOracle)
    : (envelope: NewsData)
    ensures envelope.Keys == {NewsAnalysisKey}
    ensures |topics| == 0 ==> envelope[NewsAnalysisKey] == []
    ensures forall t :: t in topics <==> t in Keys(envelope[NewsAnalysisKey])
  {
    map[NewsAnalysisKey := RunTopics(topics, fetch, summarize)]
  }

  /** A topic's entry depends only on what the oracles answer at that topic's
      own occurrences: whatever happens to any other topic, its entry is the same. */
  lemma FailureIsolation(topics: seq<string>, t: string,
                         f1: FetchOracle, s1: SummarizeOracle, f2: FetchOracle, s2: SummarizeOracle)
    requires t in topics
    requires forall j :: 0 <= j < |topics| && topics[j] == t ==>
               FetchAndSummarize(j, t, f1, s1) == FetchAndSummarize(j, t, f2, s2)
    ensures Lookup(RunTopics(topics, f1, s1), t) == Lookup(RunTopics(topics, f2, s2), t)
  {
  }

  /** A topic whose last attempt raised is recorded as `"Error: " + message`. */
  lemma FailedTopicRecordsError(topics: seq<string>, t: string, fetch: FetchOracle, summarize: SummarizeOracle)
    requires t in topics
    requires FetchAndSummarize(LastIndex(topics, t), t, fetch, summarize).Raised?
    ensures Lookup(RunTopics(topics, fetch, summarize), t)
            == Some(ErrorPrefix + FetchAndSummarize(LastIndex(topics, t), t, fetch, summarize).message)
  {
  }

  /** A topic whose last attempt succeeded is recorded as the summary. */
  lemma SucceededTopicRecordsSummary(topics: seq<string>, t: string, fetch: FetchOracle, summarize: SummarizeOracle)
    requires t in topics
    requires FetchAndSummarize(LastIndex(topics, t), t, fetch, summarize).Returned?
    ensures Lookup(RunTopics(topics, fetch, summarize), t)
            == Some(FetchAndSummarize(LastIndex(topics, t), t, fetch, summarize).value)
  {
  }

  /** The result keys are in the order in which the topics first occur. */
  lemma KeysInRequestOrder(topics: seq<string>, fetch: FetchOracle, summarize: SummarizeOracle)
    ensures var ks := Keys(RunTopics(topics, fetch, summarize));
      forall i, j :: 0 <= i < j < |ks| ==> FirstIndex(topics, ks[i]) < FirstIndex(topics, ks[j])
  {
    DedupFirstOccurrenceOrder(topics);
  }

  /** A list without repeated topics is its own de-duplication. */
  lemma {:induction false} DedupOfDistinct(s: seq<string>)
    requires Distinct(s)
    ensures Dedup(s) == s
    decreases |s|
  {
    if |s| > 0 {
      var n := |s| - 1;
      assert Distinct(s[..n]);
      DedupOfDistinct(s[..n]);
      assert s[n] !in s[..n];
      assert s[..n] + [s[n]] == s;
    }
  }

  /** With distinct topics the result keys are exactly the topics, in request order. */
  lemma DistinctTopicsKeepOrder(topics: seq<string>, fetch: FetchOracle, summarize: SummarizeOracle)
    requires Distinct(topics)
    ensures Keys(RunTopics(topics, fetch, summarize)) == topics
  {
    DedupOfDistinct(topics);
  }

  /** The topics attempted, in trace order. */
  function Attempted(trace: seq<Event>): seq<string>
  {
    if |trace| == 0 then []
    else (if trace[0].Attempt? then [trace[0].topic] else []) + Attempted(trace[1..])
  }

  /** Appending traces appends their attempted topics. */
  lemma {:induction false} AttemptedAppend(a: seq<Event>, b: seq<Event>)
    ensures Attempted(a + b) == Attempted(a) + Attempted(b)
    decreases |a|
  {
    if |a| > 0 {
      assert (a + b)[1..] == a[1..] + b;
      AttemptedAppend(a[1..], b);
    } else {
      assert a + b == b;
    }
  }

  /** One occurrence's events attempt its topic once. */
  lemma AttemptedOfTopicEvents(t: string)
    ensures Attempted(TopicEvents(t)) == [t]
  {
    AttemptedAppend([Pause], [LeaveLimiter]);
    assert [Pause] + [LeaveLimiter] == [Pause, LeaveLimiter];
    AttemptedAppend([Attempt(t)], [Pause, LeaveLimiter]);
    assert [Attempt(t)] + [Pause, LeaveLimiter] == [Attempt(t), Pause, LeaveLimiter];
    AttemptedAppend([EnterLimiter], [Attempt(t), Pause, LeaveLimiter]);
    assert [EnterLimiter] + [Attempt(t), Pause, LeaveLimiter] == TopicEvents(t);
  }

  /** Fetch and summarise are attempted exactly once per topic occurrence, in
      request order, with no retry. */
  lemma {:induction false} OneAttemptPerOccurrence(topics: seq<string>)
    ensures Attempted(Events(topics)) == topics
    decreases |topics|
  {
    if |topics| > 0 {
      var n := |topics| - 1;
      assert topics[..n] + [topics[n]] == topics;
      var prev := Events(topics[..n]);
      var step := TopicEvents(topics[n]);
      assert Events(topics) == prev + step;
      OneAttemptPerOccurrence(topics[..n]);
      AttemptedAppend(prev, step);
      AttemptedOfTopicEvents(topics[n]);
    }
  }

  /** The dictionary is determined by what fetch and summarise answer at the
      attempts the trace records: two oracle pairs that agree on the n-th
      attempted topic, for every attempt n, produce the same dictionary. The
      dictionary depends on the oracles only at the attempts in the trace. */
  lemma {:induction false} ResultDependsOnlyOnAttempts(topics: seq<string>,
                                                       f1: FetchOracle, s1: SummarizeOracle,
                                                       f2: FetchOracle, s2: SummarizeOracle)
    requires forall n :: 0 <= n < |Attempted(Events(topics))| ==>
               FetchAndSummarize(n, Attempted(Events(topics))[n], f1, s1)
               == FetchAndSummarize(n, Attempted(Events(topics))[n], f2, s2)
    ensures RunTopics(topics, f1, s1) == RunTopics(topics, f2, s2)
    decreases |topics|
  {
    OneAttemptPerOccurrence(topics);
    SameAnswersSameResults(topics, f1, s1, f2, s2);
  }

  /** Two oracle pairs that agree at every topic occurrence build the same dictionary. */
  lemma {:induction false} SameAnswersSameResults(topics: seq<string>,
                                                  f1: FetchOracle, s1: SummarizeOracle,
                                                  f2: FetchOracle, s2: SummarizeOracle)
    requires forall n :: 0 <= n < |topics| ==>
               FetchAndSummarize(n, topics[n], f1, s1) == FetchAndSummarize(n, topics[n], f2, s2)
    ensures RunTopics(topics, f1, s1) == RunTopics(topics, f2, s2)
    decreases |topics|
  {
    if |topics| > 0 {
      var n := |topics| - 1;
      var p := topics[..n];
      assert forall i :: 0 <= i < n ==> p[i] == topics[i];
      SameAnswersSameResults(p, f1, s1, f2, s2);
      RunTopicsStep(topics, f1, s1);
      RunTopicsStep(topics, f2, s2);
    }
  }

  /** One loop step: the last occurrence's entry is put into the prefix's dictionary. */
  lemma RunTopicsStep(topics: seq<string>, fetch: FetchOracle, summarize: SummarizeOracle)
    requires |topics| > 0
    ensures var n := |topics| - 1;
      RunTopics(topics, fetch, summarize)
      == Put(RunTopics(topics[..n], fetch, summarize), topics[n], EntryOf(FetchAndSummarize(n, topics[n], fetch, summarize)))
  {
  }
}
