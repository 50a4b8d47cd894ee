/** src/summarise_single_company.py: a company's pages with the fewest slashes in
    their URL, each summarised as one document. */
module SingleCompany {
  import opened Text
  import opened LanguageModel
  import opened Preprocess
  import opened SingleDocument

  predicate SortedBySlashes(rows: seq<Article>)
  {
    forall i, j :: 0 <= i < j < |rows| ==> rows[i].slashCount <= rows[j].slashCount
  }

  /** Every row of `rows` has at least slash count `n`. */
  predicate AtLeast(rows: seq<Article>, n: nat)
  {
    forall k :: 0 <= k < |rows| ==> n <= rows[k].slashCount
  }

  /** Insertion of one row into rows already in order. */
  function Insert(a: Article, sorted: seq<Article>): seq<Article>
  {
    if sorted == [] then [a]
    else if a.slashCount <= sorted[0].slashCount then [a] + sorted
    else [sorted[0]] + Insert(a, sorted[1..])
  }

  lemma {:induction false} InsertCount(a: Article, sorted: seq<Article>)
    ensures multiset(Insert(a, sorted)) == multiset(sorted) + multiset{a}
  {
    if sorted != [] && a.slashCount > sorted[0].slashCount {
      InsertCount(a, sorted[1..]);
      assert sorted == [sorted[0]] + sorted[1..];
    }
  }

  lemma {:induction false} InsertAtLeast(a: Article, sorted: seq<Article>, n: nat)
    requires AtLeast(sorted, n) && n <= a.slashCount
    ensures AtLeast(Insert(a, sorted), n)
  {
    if sorted != [] && a.slashCount > sorted[0].slashCount {
      InsertAtLeast(a, sorted[1..], n);
    }
  }

  lemma {:induction false} InsertSorted(a: Article, sorted: seq<Article>)
    requires SortedBySlashes(sorted)
    ensures SortedBySlashes(Insert(a, sorted))
  {
    if sorted != [] {
      var first := sorted[0];
      var rest := sorted[1..];
      if a.slashCount <= first.slashCount {
        assert AtLeast(sorted, a.slashCount);
      } else {
        InsertSorted(a, rest);
        assert AtLeast(rest, first.slashCount);
        InsertAtLeast(a, rest, first.slashCount);
        var tail := Insert(a, rest);
        assert Insert(a, sorted) == [first] + tail;
        assert forall j :: 0 <= j < |tail| ==> first.slashCount <= tail[j].slashCount;
      }
    }
  }

  /** `sort_values('slash_count')`: the rows in non-decreasing slash count. The
      order among equal counts is not promised (the default sort is not stable);
      this is one admissible order. */
  function SortBySlashCount(rows: seq<Article>): (sorted: seq<Article>)
    ensures SortedBySlashes(sorted)
    ensures multiset(sorted) == multiset(rows)
  {
    if rows == [] then []
    else
      var rest := SortBySlashCount(rows[1..]);
      InsertSorted(rows[0], rest);
      InsertCount(rows[0], rest);
      ConsDrop(rows);
      Insert(rows[0], rest)
  }

  /** `head(n)`: the first `n` rows; a negative `n` drops the last `-n` rows. */
  function Head(rows: seq<Article>, n: int): seq<Article>
  {
    if n >= 0 then rows[..if n <= |rows| then n else |rows|]
    else rows[..if -n <= |rows| then |rows| + n else 0]
  }

  /** `company_df.sort_values('slash_count').head(top_n_articles)`. */
  function TopArticles(rows: seq<Article>, topN: int): seq<Article>
  {
    Head(SortBySlashCount(rows), topN)
  }

  lemma SortedSplit(top: seq<Article>, rest: seq<Article>)
    requires SortedBySlashes(top + rest)
    ensures forall a, b :: a in top && b in rest ==> a.slashCount <= b.slashCount
  {
    forall a, b | a in top && b in rest
      ensures a.slashCount <= b.slashCount
    {
      var i :| 0 <= i < |top| && top[i] == a;
      var j :| 0 <= j < |rest| && rest[j] == b;
      assert (top + rest)[i] == a && (top + rest)[|top| + j] == b;
    }
  }

  /** Whatever order a sort puts equal slash counts in: the head of any ordering of
      the rows by slash count has `min(#rows, n)` rows for `n >= 0`, drawn from the
      rows, in order, and no row left out has a smaller slash count than a row taken. */
  lemma SortedHeadSelection(rows: seq<Article>, sorted: seq<Article>, n: int)
    requires SortedBySlashes(sorted) && multiset(sorted) == multiset(rows)
    ensures n >= 0 ==> |Head(sorted, n)| == (if n <= |rows| then n else |rows|)
    ensures multiset(Head(sorted, n)) <= multiset(rows)
    ensures SortedBySlashes(Head(sorted, n))
    ensures forall a, b ::
      a in Head(sorted, n) && b in multiset(rows) - multiset(Head(sorted, n)) ==> a.slashCount <= b.slashCount
  {
    var top := Head(sorted, n);
    var rest := sorted[|top|..];
    assert |sorted| == |rows| by {
      assert |multiset(sorted)| == |multiset(rows)|;
    }
    TakeDrop(sorted, |top|);
    SplitCounts(rows, top, rest);
    SortedSplit(top, rest);
  }

  /** Cutting a permutation of `rows` in two: what is left over after the first part
      is the second part. */
  lemma SplitCounts(rows: seq<Article>, top: seq<Article>, rest: seq<Article>)
    requires multiset(top + rest) == multiset(rows)
    ensures multiset(top) <= multiset(rows)
    ensures multiset(rows) - multiset(top) == multiset(rest)
  {
    assert multiset(top + rest) == multiset(top) + multiset(rest);
  }

  /** For a non-negative `top_n`: `min(#rows, top_n)` rows, taken from the company's
      rows, in non-decreasing slash count. */
  lemma TopArticlesShape(rows: seq<Article>, topN: int)
    ensures topN >= 0 ==> |TopArticles(rows, topN)| == (if topN <= |rows| then topN else |rows|)
    ensures multiset(TopArticles(rows, topN)) <= multiset(rows)
    ensures SortedBySlashes(TopArticles(rows, topN))
  {
    SortedHeadSelection(rows, SortBySlashCount(rows), topN);
  }

  /** No row left out has a smaller slash count than a row selected. */
  lemma TopArticlesSelection(rows: seq<Article>, topN: int)
    ensures forall a, b ::
      a in TopArticles(rows, topN) && b in multiset(rows) - multiset(TopArticles(rows, topN)) ==> a.slashCount <= b.slashCount
  {
    SortedHeadSelection(rows, SortBySlashCount(rows), topN);
  }

  /** What the list comprehension returns: one document summary per selected row,
      in order, with the caller's token limit and topic. */
  function ArticleSummaries(complete: string -> string, chunker: Chunker, tokenLimit: int, topic: string, articles: seq<Article>)
    : (summaries: seq<string>)
    ensures |summaries| == |articles|
    ensures forall i :: 0 <= i < |articles| ==>
      summaries[i] == DocumentSummary(complete, chunker, tokenLimit, topic, articles[i].text)
  {
    if articles == [] then []
    else
      ArticleSummaries(complete, chunker, tokenLimit, topic, articles[..|articles| - 1])
      + [DocumentSummary(complete, chunker, tokenLimit, topic, articles[|articles| - 1].text)]
  }

  /** The requests the list comprehension makes: each document's in turn. */
  function ArticleCalls(complete: string -> string, chunker: Chunker, tokenLimit: int, topic: string, articles: seq<Article>)
    : seq<Call>
  {
    if articles == [] then []
    else
      ArticleCalls(complete, chunker, tokenLimit, topic, articles[..|articles| - 1])
      + DocumentCalls(complete, chunker, tokenLimit, topic, articles[|articles| - 1].text)
  }

  lemma ArticlesSnoc(complete: string -> string, chunker: Chunker, tokenLimit: int, topic: string, articles: seq<Article>, i: nat)
    requires i < |articles|
    ensures ArticleSummaries(complete, chunker, tokenLimit, topic, articles[..i + 1])
      == ArticleSummaries(complete, chunker, tokenLimit, topic, articles[..i])
         + [DocumentSummary(complete, chunker, tokenLimit, topic, articles[i].text)]
    ensures ArticleCalls(complete, chunker, tokenLimit, topic, articles[..i + 1])
      == ArticleCalls(complete, chunker, tokenLimit, topic, articles[..i])
         + DocumentCalls(complete, chunker, tokenLimit, topic, articles[i].text)
  {
    assert articles[..i + 1][..i] == articles[..i];
  }

  /** For each article, one request per chunk and one reduction. */
  function CallTotal(chunker: Chunker, tokenLimit: int, articles: seq<Article>): nat
  {
    if articles == [] then 0
    else CallTotal(chunker, tokenLimit, articles[..|articles| - 1]) + |chunker(articles[|articles| - 1].text, tokenLimit)| + 1
  }

  lemma {:induction false} ArticleCallsCount(complete: string -> string, chunker: Chunker, tokenLimit: int, topic: string, articles: seq<Article>)
    ensures |ArticleCalls(complete, chunker, tokenLimit, topic, articles)| == CallTotal(chunker, tokenLimit, articles)
    decreases |articles|
  {
    if articles != [] {
      ArticleCallsCount(complete, chunker, tokenLimit, topic, articles[..|articles| - 1]);
      DocumentCallsShape(complete, chunker, tokenLimit, topic, articles[|articles| - 1].text);
    }
  }

  /** A company without rows gets no summaries and costs no request. */
  lemma NoRowsNoCalls(complete: string -> string, chunker: Chunker, tokenLimit: int, topic: string, topN: int)
    ensures ArticleSummaries(complete, chunker, tokenLimit, topic, TopArticles([], topN)) == []
    ensures ArticleCalls(complete, chunker, tokenLimit, topic, TopArticles([], topN)) == []
  {
  }

  /** `summarise_top_articles(company_df, language_model, token_limit, topic, top_n_articles)`. */
  method SummariseTopArticles(companyRows: seq<Article>, llm: Model, chunker: Chunker, tokenLimit: int, topic: string, topNArticles: int)
    returns (summaries: seq<string>)
    modifies llm
    ensures summaries == ArticleSummaries(llm.complete, chunker, tokenLimit, topic, TopArticles(companyRows, topNArticles))
    ensures llm.log == old(llm.log) + ArticleCalls(llm.complete, chunker, tokenLimit, topic, TopArticles(companyRows, topNArticles))
  {
    var topArticles := TopArticles(companyRows, topNArticles);
    summaries := [];
    for i := 0 to |topArticles|
      invariant summaries == ArticleSummaries(llm.complete, chunker, tokenLimit, topic, topArticles[..i])
      invariant llm.log == old(llm.log) + ArticleCalls(llm.complete, chunker, tokenLimit, topic, topArticles[..i])
    {
      var summary := SummariseSingleDocument(llm, chunker, tokenLimit, topic, topArticles[i].text);
      ArticlesSnoc(llm.complete, chunker, tokenLimit, topic, topArticles, i);
      AppendAssoc(old(llm.log), ArticleCalls(llm.complete, chunker, tokenLimit, topic, topArticles[..i]),
        DocumentCalls(llm.complete, chunker, tokenLimit, topic, topArticles[i].text));
      summaries := summaries + [summary];
    }
    assert topArticles[..|topArticles|] == topArticles;
  }
}
