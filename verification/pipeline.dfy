/** The coordinator's envelope handed to the composer, as the request handler
    does when news is requested. */
module Pipeline {
  import opened Outcomes
  import opened Seqs
  import opened AssocList
  import opened Coordinator
  import opened Composer

  /** The composer never raises on the coordinator's envelope, and every topic
      whose recorded result is non-empty (every failed topic among them) gets
      its block with that result. */
  lemma ComposerCoversScrapedTopics(topics: seq<string>, fetch: FetchOracle, summarize: SummarizeOracle)
    ensures UserPrompt(ScrapeNews(topics, fetch, summarize), topics).Returned?
    ensures var analysis := AnalysisOf(ScrapeNews(topics, fetch, summarize));
      forall t :: t in topics && EntryOf(FetchAndSummarize(LastIndex(topics, t), t, fetch, summarize)) != "" ==>
        BlockFor(t, EntryOf(FetchAndSummarize(LastIndex(topics, t), t, fetch, summarize)))
          in TopicBlocks(analysis, topics)
  {
    var analysis := AnalysisOf(ScrapeNews(topics, fetch, summarize));
    forall t | t in topics && EntryOf(FetchAndSummarize(LastIndex(topics, t), t, fetch, summarize)) != ""
      ensures BlockFor(t, EntryOf(FetchAndSummarize(LastIndex(topics, t), t, fetch, summarize)))
                in TopicBlocks(analysis, topics)
    {
      var j := LastIndex(topics, t);
      assert ContentOf(analysis, topics[j]) == EntryOf(FetchAndSummarize(j, t, fetch, summarize));
    }
  }

  /** A topic whose last attempt raised reaches the composer as its error marker. */
  lemma FailedTopicReachesComposer(topics: seq<string>, t: string, fetch: FetchOracle, summarize: SummarizeOracle)
    requires t in topics
    requires FetchAndSummarize(LastIndex(topics, t), t, fetch, summarize).Raised?
    ensures BlockFor(t, ErrorPrefix + FetchAndSummarize(LastIndex(topics, t), t, fetch, summarize).message)
              in TopicBlocks(AnalysisOf(ScrapeNews(topics, fetch, summarize)), topics)
  {
    ComposerCoversScrapedTopics(topics, fetch, summarize);
  }
}
