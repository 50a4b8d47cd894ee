/** Two-level summarisation of one document (src/summarise_single_document.py):
    one extraction request per chunk, then one reduction request over the joined
    chunk summaries. */
module SingleDocument {
  import opened Text
  import opened Prompt
  import opened LanguageModel

  /** `chunk_documents(text, token_limit)`. The splitter is foreign, so any function
      of the text and the limit will do; each chunk stands for the text the prompt
      interpolates for it. */
  type Chunker = (string, int) -> seq<string>

  /** The request `summarise_chunks` makes for one chunk. */
  function ExtractionCall(chunk: string, topic: string): Call
  {
    Call(ExtractHtmlInformationPrompt(chunk, topic), MAX_NEW_TOKENS, REPETITION_PENALTY)
  }

  /** The request `summarise_summaries` makes. */
  function ReductionCall(summaries: seq<string>, topic: string): Call
  {
    Call(SummaryPrompt(Join("\n", summaries), topic), MAX_NEW_TOKENS, REPETITION_PENALTY)
  }

  /** What `summarise_chunks` returns: one answer per chunk, in chunk order. */
  function ChunkSummaries(complete: string -> string, chunks: seq<string>, topic: string): (summaries: seq<string>)
    ensures |summaries| == |chunks|
    ensures forall i :: 0 <= i < |chunks| ==> summaries[i] == complete(ExtractHtmlInformationPrompt(chunks[i], topic))
  {
    if chunks == [] then []
    else
      ChunkSummaries(complete, chunks[..|chunks| - 1], topic)
      + [complete(ExtractionCall(chunks[|chunks| - 1], topic).prompt)]
  }

  /** The requests `summarise_chunks` makes, in order. */
  function ChunkCalls(chunks: seq<string>, topic: string): (calls: seq<Call>)
    ensures |calls| == |chunks|
    ensures forall i :: 0 <= i < |chunks| ==> calls[i] == ExtractionCall(chunks[i], topic)
  {
    if chunks == [] then []
    else ChunkCalls(chunks[..|chunks| - 1], topic) + [ExtractionCall(chunks[|chunks| - 1], topic)]
  }

  /** What `summarise_summaries` returns. */
  function Reduce(complete: string -> string, summaries: seq<string>, topic: string): string
  {
    complete(ReductionCall(summaries, topic).prompt)
  }

  lemma ChunksSnoc(complete: string -> string, chunks: seq<string>, topic: string, i: nat)
    requires i < |chunks|
    ensures ChunkSummaries(complete, chunks[..i + 1], topic)
      == ChunkSummaries(complete, chunks[..i], topic) + [complete(ExtractHtmlInformationPrompt(chunks[i], topic))]
    ensures ChunkCalls(chunks[..i + 1], topic) == ChunkCalls(chunks[..i], topic) + [ExtractionCall(chunks[i], topic)]
  {
    assert chunks[..i + 1][..i] == chunks[..i];
  }

  /** `summarise_chunks(text_chunks, llm, topic)`. */
  method SummariseChunks(chunks: seq<string>, llm: Model, topic: string) returns (summaries: seq<string>)
    modifies llm
    ensures summaries == ChunkSummaries(llm.complete, chunks, topic)
    ensures llm.log == old(llm.log) + ChunkCalls(chunks, topic)
  {
    summaries := [];
    for i := 0 to |chunks|
      invariant summaries == ChunkSummaries(llm.complete, chunks[..i], topic)
      invariant llm.log == old(llm.log) + ChunkCalls(chunks[..i], topic)
    {
      var prompt := ExtractHtmlInformationPrompt(chunks[i], topic);
      var summary := llm.Generate(prompt, MAX_NEW_TOKENS, REPETITION_PENALTY);
      ChunksSnoc(llm.complete, chunks, topic, i);
      AppendAssoc(old(llm.log), ChunkCalls(chunks[..i], topic), [ExtractionCall(chunks[i], topic)]);
      summaries := summaries + [summary];
    }
    assert chunks[..|chunks|] == chunks;
  }

  /** `summarise_summaries(summaries, llm, topic)`: exactly one request, even for an
      empty list. */
  method SummariseSummaries(summaries: seq<string>, llm: Model, topic: string) returns (finalSummary: string)
    modifies llm
    ensures finalSummary == Reduce(llm.complete, summaries, topic)
    ensures llm.log == old(llm.log) + [ReductionCall(summaries, topic)]
  {
    var combinedSummaries := Join("\n", summaries);
    var prompt := SummaryPrompt(combinedSummaries, topic);
    finalSummary := llm.Generate(prompt, MAX_NEW_TOKENS, REPETITION_PENALTY);
  }

  /** An empty list is not rejected: its reduction prompt frames the empty text. */
  lemma EmptyReduction(topic: string)
    ensures ReductionCall([], topic).prompt == SummaryPrompt("", topic)
    ensures |ReductionCall([], topic).prompt| == 394 + |topic|
  {
  }

  /** When no summary holds a line break, the reduction prompt determines the
      summaries: splitting the text between the topic line and the closing request
      on line breaks gives them back. */
  lemma ReductionRecoversSummaries(summaries: seq<string>, topic: string)
    requires |summaries| > 0
    requires forall k :: 0 <= k < |summaries| ==> '\n' !in summaries[k]
    ensures var p := ReductionCall(summaries, topic).prompt;
      |p| >= 394 + |topic|
      && Split(p[368 + |topic|..|p| - 26], "\n") == summaries
  {
    var text := Join("\n", summaries);
    SummaryPromptText(text, topic);
    SplitJoin(summaries, '\n');
  }

  /** What `summarise_single_document` returns. */
  function DocumentSummary(complete: string -> string, chunker: Chunker, tokenLimit: int, topic: string, text: string): string
  {
    Reduce(complete, ChunkSummaries(complete, chunker(text, tokenLimit), topic), topic)
  }

  /** The requests `summarise_single_document` makes, in order. */
  function DocumentCalls(complete: string -> string, chunker: Chunker, tokenLimit: int, topic: string, text: string): seq<Call>
  {
    var chunks := chunker(text, tokenLimit);
    ChunkCalls(chunks, topic) + [ReductionCall(ChunkSummaries(complete, chunks, topic), topic)]
  }

  /** A document cut into k chunks costs k extraction requests, one per chunk in
      order, then one reduction request over their answers. */
  lemma DocumentCallsShape(complete: string -> string, chunker: Chunker, tokenLimit: int, topic: string, text: string)
    ensures var chunks := chunker(text, tokenLimit);
      var calls := DocumentCalls(complete, chunker, tokenLimit, topic, text);
      |calls| == |chunks| + 1
      && (forall i :: 0 <= i < |chunks| ==> calls[i].prompt == ExtractHtmlInformationPrompt(chunks[i], topic))
      && calls[|chunks|].prompt == SummaryPrompt(Join("\n", ChunkSummaries(complete, chunks, topic)), topic)
  {
  }

  /** Every request of a document passes the same generation arguments. */
  lemma DocumentCallsArguments(complete: string -> string, chunker: Chunker, tokenLimit: int, topic: string, text: string)
    ensures var calls := DocumentCalls(complete, chunker, tokenLimit, topic, text);
      forall i :: 0 <= i < |calls| ==> calls[i].maxNewTokens == 2048 && calls[i].repetitionPenalty == 1.2
  {
    var chunks := chunker(text, tokenLimit);
    var extractions := ChunkCalls(chunks, topic);
    var reduction := ReductionCall(ChunkSummaries(complete, chunks, topic), topic);
    var calls := DocumentCalls(complete, chunker, tokenLimit, topic, text);
    forall i | 0 <= i < |calls|
      ensures calls[i].maxNewTokens == 2048 && calls[i].repetitionPenalty == 1.2
    {
      if i < |chunks| {
        assert calls[i] == ExtractionCall(chunks[i], topic);
      } else {
        assert calls[i] == reduction;
      }
    }
  }

  /** `summarise_single_document(llm, token_limit, topic, text)`. The token count it
      asks for is never used: the result and the requests depend on `complete` only. */
  method SummariseSingleDocument(llm: Model, chunker: Chunker, tokenLimit: int, topic: string, text: string)
    returns (finalSummary: string)
    modifies llm
    ensures finalSummary == DocumentSummary(llm.complete, chunker, tokenLimit, topic, text)
    ensures llm.log == old(llm.log) + DocumentCalls(llm.complete, chunker, tokenLimit, topic, text)
  {
    var totalTokensNeeded := llm.GetNumTokens(text);
    var chunkedTexts := chunker(text, tokenLimit);
    var summaries := SummariseChunks(chunkedTexts, llm, topic);
    finalSummary := SummariseSummaries(summaries, llm, topic);
    AppendAssoc(old(llm.log), ChunkCalls(chunkedTexts, topic), [ReductionCall(summaries, topic)]);
  }
}
