/** Extraction of the headline digest from an already-parsed RSS feed. */
module Headlines {
  import opened Text

  /** The parts of a parsed feed the digest reads: the parser's malformed-input
      flag (`bozo`, zero when well formed) and the entry titles in feed order. */
  datatype ParsedFeed = ParsedFeed(bozo: int, titles: seq<string>)

  /** No title contains a line break. */
  predicate SingleLineTitles(titles: seq<string>)
  {
    forall i :: 0 <= i < |titles| ==> '\n' !in titles[i]
  }

  /** The headlines collected from the feed: every title, in order, when the
      feed is well formed; none when the parser flagged it. */
  function Collected(feed: ParsedFeed): seq<string>
  {
    if feed.bozo == 0 then feed.titles else []
  }

  /** The digest: the collected headlines joined by line breaks. */
  function Digest(feed: ParsedFeed): (d: string)
    ensures feed.bozo != 0 ==> d == ""
    ensures feed.bozo == 0 && |feed.titles| == 0 ==> d == ""
    ensures feed.bozo == 0 && |feed.titles| > 0 ==>
              |d| == TotalLength(feed.titles) + |feed.titles| - 1
  {
    Join(Collected(feed), "\n")
  }

  /** A well-formed feed with at least one single-line title: splitting the
      digest at line breaks gives back exactly the titles, in feed order, with
      none dropped, merged or repeated. */
  lemma DigestSplitsIntoTitles(feed: ParsedFeed)
    requires feed.bozo == 0 && |feed.titles| >= 1
    requires SingleLineTitles(feed.titles)
    ensures Split(Digest(feed), '\n') == feed.titles
  {
    SplitJoin(feed.titles, '\n');
  }

  /** A flagged feed yields the empty digest whatever its entries. */
  lemma MalformedFeedIgnoresEntries(bozo: int, t1: seq<string>, t2: seq<string>)
    requires bozo != 0
    ensures Digest(ParsedFeed(bozo, t1)) == Digest(ParsedFeed(bozo, t2)) == ""
  {
  }
}
