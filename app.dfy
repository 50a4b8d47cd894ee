/** app.py, `summarise_companies`: for each of the first companies, in order of
    first appearance, and for each topic, the company's top pages are summarised
    one by one and their summaries reduced to one cell of the result table. */
module App {
  import opened Text
  import opened LanguageModel
  import opened Preprocess
  import opened SingleDocument
  import opened SingleCompany

  const TOP_N_ARTICLES: int := 5
  const SUBSAMPLE_COMPANIES: int := 3

  /** The result table: `summaries.loc[company, topic]`. */
  type Table = map<(string, string), string>

  predicate Distinct(xs: seq<string>)
  {
    forall i, j :: 0 <= i < j < |xs| ==> xs[i] != xs[j]
  }

  /** `Series.unique()`: every value once, in order of first appearance. */
  function Unique(xs: seq<string>): (u: seq<string>)
    ensures Distinct(u)
    ensures forall x :: x in u <==> x in xs
  {
    if xs == [] then []
    else
      var init := xs[..|xs| - 1];
      var last := xs[|xs| - 1];
      assert xs == init + [last];
      var u := Unique(init);
      if last in u then u
      else
        assert forall i :: 0 <= i < |u| ==> u[i] != last;
        u + [last]
  }

  /** Where `x` first appears in `xs`. */
  function FirstIndex(xs: seq<string>, x: string): (i: nat)
    requires x in xs
    ensures i < |xs| && xs[i] == x && x !in xs[..i]
  {
    if xs[0] == x then 0
    else
      var i := FirstIndex(xs[1..], x);
      assert xs[..i + 1] == [xs[0]] + xs[1..][..i];
      i + 1
  }

  lemma FirstIndexAppend(xs: seq<string>, y: string, x: string)
    requires x in xs
    ensures FirstIndex(xs + [y], x) == FirstIndex(xs, x)
  {
    var i := FirstIndex(xs, x);
    var j := FirstIndex(xs + [y], x);
    assert (xs + [y])[i] == x;
  }

  lemma FirstIndexLast(xs: seq<string>, y: string)
    requires y !in xs
    ensures FirstIndex(xs + [y], y) == |xs|
  {
    var j := FirstIndex(xs + [y], y);
  }

  /** `unique` keeps the order of first appearance. */
  lemma {:induction false} UniqueOrder(xs: seq<string>)
    ensures forall i, j :: 0 <= i < j < |Unique(xs)| ==>
      FirstIndex(xs, Unique(xs)[i]) < FirstIndex(xs, Unique(xs)[j])
    decreases |xs|
  {
    if xs != [] {
      var init := xs[..|xs| - 1];
      var last := xs[|xs| - 1];
      assert xs == init + [last];
      UniqueOrder(init);
      var u := Unique(init);
      forall x | x in u
        ensures FirstIndex(xs, x) == FirstIndex(init, x) < |init|
      {
        FirstIndexAppend(init, last, x);
      }
      if last !in u {
        FirstIndexLast(init, last);
      }
    }
  }

  /** `df['second_level_domain']`. */
  function Domains(rows: seq<Article>): seq<string>
  {
    seq(|rows|, i requires 0 <= i < |rows| => rows[i].secondLevelDomain)
  }

  /** `companies[0:SUBSAMPLE_COMPANIES + 1]`: the slice keeps at most the first four. */
  function Subsampled(rows: seq<Article>): seq<string>
  {
    var companies := Unique(Domains(rows));
    companies[..if SUBSAMPLE_COMPANIES + 1 <= |companies| then SUBSAMPLE_COMPANIES + 1 else |companies|]
  }

  /** The companies summarised: the first `SUBSAMPLE_COMPANIES + 1` distinct domains
      (or all of them when there are fewer), each a domain of some row, none twice. */
  lemma SubsampledShape(rows: seq<Article>)
    ensures var companies := Unique(Domains(rows));
      |Subsampled(rows)| == (if 4 <= |companies| then 4 else |companies|)
      && Subsampled(rows) == companies[..|Subsampled(rows)|]
      && Distinct(Subsampled(rows))
      && forall c :: c in Subsampled(rows) ==> exists i :: 0 <= i < |rows| && rows[i].secondLevelDomain == c
  {
    var companies := Unique(Domains(rows));
    var sub := Subsampled(rows);
    forall c | c in sub
      ensures exists i :: 0 <= i < |rows| && rows[i].secondLevelDomain == c
    {
      assert c in companies;
      assert c in Domains(rows);
      var i :| 0 <= i < |rows| && Domains(rows)[i] == c;
    }
  }

  /** Every distinct domain after the fourth gets no summary at all. */
  lemma LaterCompaniesSkipped(rows: seq<Article>, k: nat)
    requires SUBSAMPLE_COMPANIES + 1 <= k < |Unique(Domains(rows))|
    ensures Unique(Domains(rows))[k] !in Subsampled(rows)
  {
    var companies := Unique(Domains(rows));
    var sub := Subsampled(rows);
    assert forall i :: 0 <= i < |sub| ==> sub[i] == companies[i];
  }

  /** `df[df['second_level_domain'] == company]`: the company's rows, in order. */
  function CompanyRows(rows: seq<Article>, company: string): seq<Article>
  {
    if rows == [] then []
    else
      var last := rows[|rows| - 1];
      CompanyRows(rows[..|rows| - 1], company) + (if last.secondLevelDomain == company then [last] else [])
  }

  /** Every row of the company is selected as often as it occurs, and no other row. */
  lemma {:induction false} CompanyRowsCount(rows: seq<Article>, company: string)
    ensures forall a ::
      multiset(CompanyRows(rows, company))[a] == if a.secondLevelDomain == company then multiset(rows)[a] else 0
    decreases |rows|
  {
    if rows != [] {
      var init := rows[..|rows| - 1];
      CompanyRowsCount(init, company);
      assert rows == init + [rows[|rows| - 1]];
    }
  }

  /** The pages of one table cell: the company's top rows by slash count. */
  function CellArticles(rows: seq<Article>, company: string): seq<Article>
  {
    TopArticles(CompanyRows(rows, company), TOP_N_ARTICLES)
  }

  /** A summarised company has between one and five selected pages, all its own. */
  lemma CellArticlesShape(rows: seq<Article>, company: string)
    requires company in Subsampled(rows)
    ensures 1 <= |CellArticles(rows, company)| <= TOP_N_ARTICLES
    ensures forall a :: a in CellArticles(rows, company) ==> a in rows && a.secondLevelDomain == company
  {
    var own := CompanyRows(rows, company);
    var top := CellArticles(rows, company);
    SubsampledShape(rows);
    CompanyRowsCount(rows, company);
    TopArticlesShape(own, TOP_N_ARTICLES);
    var i :| 0 <= i < |rows| && rows[i].secondLevelDomain == company;
    assert multiset(own)[rows[i]] > 0;
    forall a | a in top
      ensures a in rows && a.secondLevelDomain == company
    {
      assert multiset(top)[a] > 0;
      assert multiset(own)[a] > 0;
    }
  }

  /** The value `summaries.loc[company, topic]` receives. */
  function CellSummary(complete: string -> string, chunker: Chunker, tokenLimit: int, rows: seq<Article>, company: string, topic: string)
    : string
  {
    Reduce(complete, ArticleSummaries(complete, chunker, tokenLimit, topic, CellArticles(rows, company)), topic)
  }

  /** The requests one cell costs: the pages' in turn, then the company reduction. */
  function CellCalls(complete: string -> string, chunker: Chunker, tokenLimit: int, rows: seq<Article>, company: string, topic: string)
    : seq<Call>
  {
    var articles := CellArticles(rows, company);
    ArticleCalls(complete, chunker, tokenLimit, topic, articles)
    + [ReductionCall(ArticleSummaries(complete, chunker, tokenLimit, topic, articles), topic)]
  }

  /** A cell costs one request per chunk of each page, one per page and one more,
      the last being the reduction over the page summaries. */
  lemma CellCallsShape(complete: string -> string, chunker: Chunker, tokenLimit: int, rows: seq<Article>, company: string, topic: string)
    ensures var calls := CellCalls(complete, chunker, tokenLimit, rows, company, topic);
      var articles := CellArticles(rows, company);
      |calls| == CallTotal(chunker, tokenLimit, articles) + 1
      && calls[|calls| - 1] == ReductionCall(ArticleSummaries(complete, chunker, tokenLimit, topic, articles), topic)
  {
    ArticleCallsCount(complete, chunker, tokenLimit, topic, CellArticles(rows, company));
  }

  /** The requests of one company, topic after topic. */
  function TopicCalls(complete: string -> string, chunker: Chunker, tokenLimit: int, rows: seq<Article>, company: string, topics: seq<string>)
    : seq<Call>
  {
    if topics == [] then []
    else
      TopicCalls(complete, chunker, tokenLimit, rows, company, topics[..|topics| - 1])
      + CellCalls(complete, chunker, tokenLimit, rows, company, topics[|topics| - 1])
  }

  /** The requests of the whole run, company after company. */
  function CompanyCalls(complete: string -> string, chunker: Chunker, tokenLimit: int, rows: seq<Article>, companies: seq<string>, topics: seq<string>)
    : seq<Call>
  {
    if companies == [] then []
    else
      CompanyCalls(complete, chunker, tokenLimit, rows, companies[..|companies| - 1], topics)
      + TopicCalls(complete, chunker, tokenLimit, rows, companies[|companies| - 1], topics)
  }

  lemma TopicCallsSnoc(complete: string -> string, chunker: Chunker, tokenLimit: int, rows: seq<Article>, company: string, topics: seq<string>, i: nat)
    requires i < |topics|
    ensures TopicCalls(complete, chunker, tokenLimit, rows, company, topics[..i + 1])
      == TopicCalls(complete, chunker, tokenLimit, rows, company, topics[..i])
         + CellCalls(complete, chunker, tokenLimit, rows, company, topics[i])
  {
    assert topics[..i + 1][..i] == topics[..i];
  }

  lemma CompanyCallsSnoc(complete: string -> string, chunker: Chunker, tokenLimit: int, rows: seq<Article>, companies: seq<string>, topics: seq<string>, i: nat)
    requires i < |companies|
    ensures CompanyCalls(complete, chunker, tokenLimit, rows, companies[..i + 1], topics)
      == CompanyCalls(complete, chunker, tokenLimit, rows, companies[..i], topics)
         + TopicCalls(complete, chunker, tokenLimit, rows, companies[i], topics)
  {
    assert companies[..i + 1][..i] == companies[..i];
  }

  /** Without topics there is nothing to ask. */
  lemma NoTopicsNoCalls(complete: string -> string, chunker: Chunker, tokenLimit: int, rows: seq<Article>, companies: seq<string>)
    ensures CompanyCalls(complete, chunker, tokenLimit, rows, companies, []) == []
    decreases |companies|
  {
    if companies != [] {
      NoTopicsNoCalls(complete, chunker, tokenLimit, rows, companies[..|companies| - 1]);
    }
  }

  /** Lines 42-44: one cell of the table. */
  method SummariseCell(rows: seq<Article>, llm: Model, chunker: Chunker, tokenLimit: int, company: string, topic: string)
    returns (summary: string)
    modifies llm
    ensures summary == CellSummary(llm.complete, chunker, tokenLimit, rows, company, topic)
    ensures llm.log == old(llm.log) + CellCalls(llm.complete, chunker, tokenLimit, rows, company, topic)
  {
    var filtered := CompanyRows(rows, company);
    var companySummaries := SummariseTopArticles(filtered, llm, chunker, tokenLimit, topic, TOP_N_ARTICLES);
    summary := SummariseSummaries(companySummaries, llm, topic);
    AppendAssoc(old(llm.log), ArticleCalls(llm.complete, chunker, tokenLimit, topic, CellArticles(rows, company)),
      [ReductionCall(companySummaries, topic)]);
  }

  /** `summarise_companies(df, llm, token_limit, investor_interest_topics)`. */
  method SummariseCompanies(rows: seq<Article>, llm: Model, chunker: Chunker, tokenLimit: int, topics: seq<string>)
    returns (summaries: Table)
    modifies llm
    ensures forall k :: k in summaries <==> k.0 in Subsampled(rows) && k.1 in topics
    ensures forall k :: k in summaries ==> summaries[k] == CellSummary(llm.complete, chunker, tokenLimit, rows, k.0, k.1)
    ensures llm.log == old(llm.log) + CompanyCalls(llm.complete, chunker, tokenLimit, rows, Subsampled(rows), topics)
  {
    var companies := Subsampled(rows);
    summaries := map[];
    for ci := 0 to |companies|
      invariant forall k :: k in summaries <==> k.0 in companies[..ci] && k.1 in topics
      invariant forall k :: k in summaries ==> summaries[k] == CellSummary(llm.complete, chunker, tokenLimit, rows, k.0, k.1)
      invariant llm.log == old(llm.log) + CompanyCalls(llm.complete, chunker, tokenLimit, rows, companies[..ci], topics)
    {
      var company := companies[ci];
      ghost var logBefore := llm.log;
      for ti := 0 to |topics|
        invariant forall k :: k in summaries <==>
          (k.0 in companies[..ci] && k.1 in topics) || (k.0 == company && k.1 in topics[..ti])
        invariant forall k :: k in summaries ==> summaries[k] == CellSummary(llm.complete, chunker, tokenLimit, rows, k.0, k.1)
        invariant llm.log == logBefore + TopicCalls(llm.complete, chunker, tokenLimit, rows, company, topics[..ti])
      {
        var topic := topics[ti];
        var summary := SummariseCell(rows, llm, chunker, tokenLimit, company, topic);
        TopicCallsSnoc(llm.complete, chunker, tokenLimit, rows, company, topics, ti);
        AppendAssoc(logBefore, TopicCalls(llm.complete, chunker, tokenLimit, rows, company, topics[..ti]),
          CellCalls(llm.complete, chunker, tokenLimit, rows, company, topic));
        TakeSnoc(topics, ti);
        summaries := summaries[(company, topic) := summary];
      }
      assert topics[..|topics|] == topics;
      TakeSnoc(companies, ci);
      CompanyCallsSnoc(llm.complete, chunker, tokenLimit, rows, companies, topics, ci);
      AppendAssoc(old(llm.log), CompanyCalls(llm.complete, chunker, tokenLimit, rows, companies[..ci], topics),
        TopicCalls(llm.complete, chunker, tokenLimit, rows, company, topics));
    }
    assert companies[..|companies|] == companies;
  }
}
