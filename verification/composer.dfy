/** Assembly of the composer's user prompt in `generate_broadcast_news`: one
    labelled block per topic whose looked-up news content is non-empty, in
    topic order, joined with a fixed separator after a fixed header. The
    language-model call that consumes the prompt is not modelled. */
module Composer {
  import opened Outcomes
  import opened Text
  import opened AssocList
  import opened Seqs
  import opened Coordinator

  const Header: string := "Create broadcast segments for these topics using available sources:\n\n"
  const TopicSeparator: string := "\n\n--- NEW TOPIC ---\n\n"
  const TopicLabel: string := "TOPIC: "
  const NewsLabel: string := "OFFICIAL NEWS CONTENT:\n"
  /** `str(KeyError("news_analysis"))`. */
  const MissingAnalysisMessage: string := "'news_analysis'"

  /** The result dictionary inside the news data; the empty dictionary when the
      news data is empty, where every lookup behaves like a miss. */
  function AnalysisOf(data: NewsData): Results
  {
    if NewsAnalysisKey in data then data[NewsAnalysisKey] else []
  }

  /** The news content of a topic: an entry stored under it, or `""` (as falsy
      as a missing entry) when the topic has none. */
  function ContentOf(analysis: Results, topic: string): (c: string)
    ensures topic in Keys(analysis) ==> (topic, c) in analysis
    ensures topic !in Keys(analysis) ==> c == ""
  {
    match Lookup(analysis, topic)
    case None => ""
    case Some(content) => content
  }

  /** The topic has something to report. */
  predicate HasContent(analysis: Results, topic: string)
  {
    ContentOf(analysis, topic) != ""
  }

  /** The per-topic source list: the official-news section when there is content. */
  function Context(content: string): (ctx: seq<string>)
  {
    if content != "" then [NewsLabel + content] else []
  }

  /** A topic's block. The context list has a single element, so joining it
      inserts no separator. */
  function BlockFor(topic: string, content: string): (b: string)
    requires content != ""
    ensures b == TopicLabel + topic + "\n\n" + NewsLabel + content
  {
    TopicLabel + topic + "\n\n" + Join(Context(content), TopicSeparator)
  }

  /** The blocks built by the loop over `topics`, in order. */
  function TopicBlocks(analysis: Results, topics: seq<string>): (blocks: seq<string>)
    ensures |blocks| <= |topics|
    ensures forall j :: 0 <= j < |topics| && ContentOf(analysis, topics[j]) != "" ==>
              BlockFor(topics[j], ContentOf(analysis, topics[j])) in blocks
    ensures (forall j :: 0 <= j < |topics| ==> !HasContent(analysis, topics[j])) ==> blocks == []
    decreases |topics|
  {
    if |topics| == 0 then []
    else
      var n := |topics| - 1;
      assert topics == topics[..n] + [topics[n]];
      var prev := TopicBlocks(analysis, topics[..n]);
      var content := ContentOf(analysis, topics[n]);
      if |Context(content)| > 0 then prev + [BlockFor(topics[n], content)]
      else prev
  }

  /** The positions of the topics with non-empty content, ascending. */
  function KeptIndices(analysis: Results, topics: seq<string>): (idx: seq<nat>)
    ensures forall i :: 0 <= i < |idx| ==> idx[i] < |topics| && HasContent(analysis, topics[idx[i]])
    ensures forall i, j :: 0 <= i < j < |idx| ==> idx[i] < idx[j]
    ensures forall j :: 0 <= j < |topics| && HasContent(analysis, topics[j]) ==> j in idx
    decreases |topics|
  {
    if |topics| == 0 then []
    else
      var n := |topics| - 1;
      var p := topics[..n];
      var prev := KeptIndices(analysis, p);
      var idx := if HasContent(analysis, topics[n]) then prev + [n] else prev;
      var keep := t => HasContent(analysis, t);
      PositionsStep(keep, topics, prev, idx);
      idx
  }

  /** Adding one topic extends the kept positions by its position, if it has content. */
  lemma KeptIndicesStep(analysis: Results, topics: seq<string>)
    requires |topics| > 0
    ensures var n := |topics| - 1;
      KeptIndices(analysis, topics)
      == KeptIndices(analysis, topics[..n]) + (if HasContent(analysis, topics[n]) then [n] else [])
  {
  }

  /** The block of a topic, defined for the topics that have content. */
  function KeptBlock(analysis: Results): string --> string
  {
    t requires HasContent(analysis, t) => BlockFor(t, ContentOf(analysis, t))
  }

  /** Reference definition of the blocks: the block of every kept topic, in
      the order of the topics. */
  function KeptBlocks(analysis: Results, topics: seq<string>): (blocks: seq<string>)
  {
    Pick(KeptBlock(analysis), topics, KeptIndices(analysis, topics))
  }

  /** The loop emits exactly the blocks of the kept topics, in topic order:
      one block per topic occurrence with content, none for the others. */
  lemma {:induction false} BlocksFollowTopicOrder(analysis: Results, topics: seq<string>)
    ensures TopicBlocks(analysis, topics) == KeptBlocks(analysis, topics)
    decreases |topics|
  {
    if |topics| > 0 {
      var n := |topics| - 1;
      var p := topics[..n];
      var c := ContentOf(analysis, topics[n]);
      var last := if c != "" then [BlockFor(topics[n], c)] else [];
      BlocksFollowTopicOrder(analysis, p);
      TopicBlocksStep(analysis, topics);
      KeptBlocksStep(analysis, topics);
      assert TopicBlocks(analysis, topics) == TopicBlocks(analysis, p) + last;
      assert KeptBlocks(analysis, topics) == KeptBlocks(analysis, p) + last;
    }
  }

  /** Adding one topic extends the loop's blocks by that topic's block, if it has content. */
  lemma TopicBlocksStep(analysis: Results, topics: seq<string>)
    requires |topics| > 0
    ensures var n := |topics| - 1;
      var c := ContentOf(analysis, topics[n]);
      TopicBlocks(analysis, topics)
      == TopicBlocks(analysis, topics[..n]) + (if c != "" then [BlockFor(topics[n], c)] else [])
  {
  }

  /** Adding one topic extends the reference blocks by that topic's block, if it has content. */
  lemma KeptBlocksStep(analysis: Results, topics: seq<string>)
    requires |topics| > 0
    ensures var n := |topics| - 1;
      var c := ContentOf(analysis, topics[n]);
      KeptBlocks(analysis, topics)
      == KeptBlocks(analysis, topics[..n]) + (if c != "" then [BlockFor(topics[n], c)] else [])
  {
    var n := |topics| - 1;
    var p := topics[..n];
    var c := ContentOf(analysis, topics[n]);
    KeptIndicesStep(analysis, topics);
    PickStep(KeptBlock(analysis), topics, KeptIndices(analysis, p), c != "");
  }

  /** An error marker is content like any other: a topic whose entry is
      `"Error: " + message` gets its block. */
  lemma ErrorMarkersAreContent(analysis: Results, topics: seq<string>, t: string, message: string)
    requires t in topics
    requires Lookup(analysis, t) == Some(ErrorPrefix + message)
    ensures BlockFor(t, ErrorPrefix + message) in TopicBlocks(analysis, topics)
  {
    var j :| 0 <= j < |topics| && topics[j] == t;
  }

  /** The user prompt, or the KeyError raised when non-empty news data lacks
      the `"news_analysis"` key (only reached when there is a topic to look up). */
  function UserPrompt(data: NewsData, topics: seq<string>): (r: Outcome<string>)
    ensures r.Raised? <==> |topics| > 0 && data != map[] && NewsAnalysisKey !in data
    ensures r.Returned? ==> |Header| <= |r.value| && r.value[..|Header|] == Header
    ensures data == map[] ==> r == Returned(Header)
  {
    if |topics| > 0 && data != map[] && NewsAnalysisKey !in data then Raised(MissingAnalysisMessage)
    else
      var prompt := Header + Join(TopicBlocks(AnalysisOf(data), topics), TopicSeparator);
      assert prompt[..|Header|] == Header;
      assert data == map[] ==> Join(TopicBlocks(AnalysisOf(data), topics), TopicSeparator) == "";
      assert data == map[] ==> prompt == Header + "" == Header;
      Returned(prompt)
  }

  /** Whenever the prompt is built, it is the header followed by the blocks of
      the kept topics in topic order, joined with the separator. */
  lemma PromptListsKeptTopics(data: NewsData, topics: seq<string>)
    requires UserPrompt(data, topics).Returned?
    ensures UserPrompt(data, topics).value == Header + Join(KeptBlocks(AnalysisOf(data), topics), TopicSeparator)
  {
    BlocksFollowTopicOrder(AnalysisOf(data), topics);
  }
}
