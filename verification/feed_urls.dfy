/** Construction of the Google News RSS search URL for a keyword, and of the
    keyword-to-URL dictionary. */
module FeedUrls {
  import opened Outcomes
  import opened Seqs

  const SearchPrefix: string := "https://news.google.com/rss/search?q="
  const SearchSuffix: string := "&hl=en-US&gl=US&ceid=US:en"

  /** The RSS search URL for `keyword`; the keyword is inserted verbatim, with
      no percent-encoding or other escaping. */
  function GoogleNewsUrl(keyword: string): (url: string)
    ensures |url| == |SearchPrefix| + |keyword| + |SearchSuffix|
    ensures url[..|SearchPrefix|] == SearchPrefix
    ensures url[|SearchPrefix|..|SearchPrefix| + |keyword|] == keyword
    ensures url[|SearchPrefix| + |keyword|..] == SearchSuffix
  {
    var url := SearchPrefix + keyword + SearchSuffix;
    assert url[..|SearchPrefix|] == SearchPrefix;
    assert url[|SearchPrefix|..|SearchPrefix| + |keyword|] == keyword;
    assert url[|SearchPrefix| + |keyword|..] == SearchSuffix;
    url
  }

  /** Reads the keyword back out of a search URL, or None when `url` does not
      have the search URL's fixed prefix and suffix. */
  function KeywordOf(url: string): (k: Option<string>)
  {
    if |url| >= |SearchPrefix| + |SearchSuffix|
       && url[..|SearchPrefix|] == SearchPrefix
       && url[|url| - |SearchSuffix|..] == SearchSuffix
    then Some(url[|SearchPrefix|..|url| - |SearchSuffix|])
    else None
  }

  /** The keyword can be read back from its URL. */
  lemma KeywordOfUrl(keyword: string)
    ensures KeywordOf(GoogleNewsUrl(keyword)) == Some(keyword)
  {
    var url := GoogleNewsUrl(keyword);
    assert url[|url| - |SearchSuffix|..] == SearchSuffix;
  }

  /** Every URL the keyword reader accepts is the search URL of what it reads. */
  lemma UrlOfKeyword(url: string)
    requires KeywordOf(url).Some?
    ensures GoogleNewsUrl(KeywordOf(url).value) == url
  {
    var k := KeywordOf(url).value;
    var p := |SearchPrefix|;
    var q := |url| - |SearchSuffix|;
    assert url == url[..p] + url[p..q] + url[q..];
  }

  /** Distinct keywords give distinct URLs. */
  lemma UrlInjective(a: string, b: string)
    ensures GoogleNewsUrl(a) == GoogleNewsUrl(b) <==> a == b
  {
    if GoogleNewsUrl(a) == GoogleNewsUrl(b) {
      KeywordOfUrl(a);
      KeywordOfUrl(b);
    }
  }

  /** The dictionary built by assigning `d[k] = GoogleNewsUrl(k)` for each
      keyword `k` of the list, in order. */
  function UrlsToScrape(keywords: seq<string>): (urls: map<string, string>)
    ensures urls.Keys == set k | k in keywords
    ensures forall k :: k in urls ==> urls[k] == GoogleNewsUrl(k)
    decreases |keywords|
  {
    if |keywords| == 0 then map[]
    else
      var n := |keywords| - 1;
      assert keywords == keywords[..n] + [keywords[n]];
      UrlsToScrape(keywords[..n])[keywords[n] := GoogleNewsUrl(keywords[n])]
  }

  /** Repeating a keyword adds nothing: the dictionary depends only on the set
      of keywords. */
  lemma UrlsDependOnKeywordSet(ks1: seq<string>, ks2: seq<string>)
    requires (set k | k in ks1) == (set k | k in ks2)
    ensures UrlsToScrape(ks1) == UrlsToScrape(ks2)
  {
  }

  /** There is exactly one entry per distinct keyword, so at most one per
      keyword occurrence. */
  lemma UrlsSize(keywords: seq<string>)
    ensures |UrlsToScrape(keywords)| == |set k | k in keywords|
    ensures |UrlsToScrape(keywords)| <= |keywords|
  {
    ElementsAtMostLength(keywords);
  }

  /** Looking up a topic in its own one-keyword dictionary never misses. */
  lemma SingleKeywordLookup(topic: string)
    ensures topic in UrlsToScrape([topic])
    ensures UrlsToScrape([topic])[topic] == GoogleNewsUrl(topic)
  {
  }
}
