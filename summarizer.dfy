/** The hybrid clause summarizer `legal_summary` (app.py:137-158): the text
    is chunked five sentences at a time, each chunk is summarized
    extractively to two sentences, the summaries are joined with spaces,
    the model may rewrite the result in plain language, and the terminology
    normalizer is applied last, to whichever text was kept. */
module Summarizer {
  import opened Wrappers
  import opened Text
  import opened Chunking
  import opened Terminology
  import opened Flan

  /** `chunk_text`'s default `max_sentences`, which `legal_summary` uses. */
  const ChunkSize := 5

  /** The `num_sentences` that `legal_summary` asks of each chunk. */
  const SentencesPerChunk := 2

  const RewritePrompt := "Rewrite the following legal summary in simple, plain language:\n\n"

  /** `extractive_summary(text, num_sentences)`, a sumy LSA summarizer, is
      not modelled: it is a function the caller is given. */
  type Extractor = (string, nat) -> string

  /** `[extractive_summary(c, num_sentences=2) for c in chunks]`. */
  function ExtractEach(chunks: seq<string>, extract: Extractor): (r: seq<string>)
    ensures |r| == |chunks|
    ensures forall j :: 0 <= j < |chunks| ==> r[j] == extract(chunks[j], SentencesPerChunk)
  {
    seq(|chunks|, j requires 0 <= j < |chunks| => extract(chunks[j], SentencesPerChunk))
  }

  /** `combined_summary` for the sentences of the text. */
  function CombinedSummary(sentences: seq<string>, extract: Extractor): string
  {
    Join(" ", ExtractEach(JoinEach(Groups(sentences, ChunkSize)), extract))
  }

  /** The model output `legal_summary` accepts: non-empty once stripped,
      and not the combined summary again up to letter case. */
  predicate Accepted(output: string, combined: string)
  {
    output != [] && Lower(output) != Lower(combined)
  }

  /** The model's rewrite of `combined`, when there is a pipeline, the call
      does not raise and the stripped output is accepted. */
  function ModelRewrite(pipeline: Pipeline, combined: string): Option<string>
  {
    match pipeline
    case Unavailable => None
    case Loaded(run) =>
      match run(RewritePrompt + combined)
      case Raised => None
      case Generated(text) =>
        if Accepted(Strip(text), combined) then Some(Strip(text)) else None
  }

  /** `legal_summary(text)`, with `sentences` standing for the sentence
      split of `text`. */
  method LegalSummary(sentences: seq<string>, extract: Extractor, pipeline: Pipeline)
    returns (summary: string, usedModel: bool)
    ensures usedModel <==> ModelRewrite(pipeline, CombinedSummary(sentences, extract)).Some?
    ensures usedModel ==> summary == Normalize(ModelRewrite(pipeline, CombinedSummary(sentences, extract)).value)
    ensures !usedModel ==> summary == Normalize(CombinedSummary(sentences, extract))
    ensures pipeline == Unavailable ==> !usedModel
  {
    var result := ChunkText(sentences, ChunkSize);
    assert result.Chunks?;
    var summaries := ExtractEach(result.chunks, extract);
    var combined := Join(" ", summaries);
    assert combined == CombinedSummary(sentences, extract);
    var finalSummary := combined;
    usedModel := false;
    if pipeline.Loaded? {
      var response := pipeline.run(RewritePrompt + combined);
      if response.Generated? {
        var output := Strip(response.text);
        if output != [] && Lower(output) != Lower(combined) {
          finalSummary := output;
          usedModel := true;
        }
      }
    }
    assert usedModel ==> ModelRewrite(pipeline, combined) == Some(finalSummary);
    assert !usedModel ==> ModelRewrite(pipeline, combined) == None && finalSummary == combined;
    summary := ApplyFallbackReplacements(finalSummary);
  }

  /** An accepted rewrite is non-empty, has no surrounding whitespace and
      differs from the combined summary even ignoring letter case; in
      particular it is never the combined summary itself. */
  lemma RewriteDiffers(pipeline: Pipeline, combined: string)
    requires ModelRewrite(pipeline, combined).Some?
    ensures var out := ModelRewrite(pipeline, combined).value;
      out != [] && !IsSpace(out[0]) && !IsSpace(out[|out| - 1])
      && Lower(out) != Lower(combined) && out != combined
  {
  }

  /** A model that echoes the combined summary back, in any letter case and
      with any surrounding whitespace, is not used. */
  lemma EchoIsRejected(pipeline: Pipeline, combined: string, text: string)
    requires pipeline.Loaded? && pipeline.run(RewritePrompt + combined) == Generated(text)
    requires Lower(Strip(text)) == Lower(combined)
    ensures ModelRewrite(pipeline, combined) == None
  {
  }

  /** A raising or blank model is not used either. */
  lemma FailedModelIsIgnored(pipeline: Pipeline, combined: string)
    requires pipeline.Loaded?
    requires pipeline.run(RewritePrompt + combined) == Raised
          || AllSpace(pipeline.run(RewritePrompt + combined).text)
    ensures ModelRewrite(pipeline, combined) == None
  {
  }

  /** The combined summary is the space-join of ceil(n / 5) extracts, the
      j-th being the two-sentence extract of sentences 5j up to 5j + 5. */
  lemma CombinedSummaryParts(sentences: seq<string>, extract: Extractor)
    ensures var chunks := JoinEach(Groups(sentences, ChunkSize));
      |chunks| == CeilDiv(|sentences|, ChunkSize)
      && CombinedSummary(sentences, extract) == Join(" ", ExtractEach(chunks, extract))
      && forall j :: 0 <= j < |chunks| ==>
           ExtractEach(chunks, extract)[j]
           == extract(Join(" ", sentences[j * ChunkSize .. Min(j * ChunkSize + ChunkSize, |sentences|)]), SentencesPerChunk)
  {
    ChunkTextShape(sentences, ChunkSize);
  }
}
