/** The YouTube summarisation pipelines. The model call is a parameter: given
    a model name and a request it yields the reply text the HTTP layer
    extracted, or None when the call failed (non-200 status, exception, missing
    field). A reply counts as a success only when it is non-empty, as Python's
    `if result:` decides.

    Two versions exist side by side: the current plugin (single-pass or
    chunked by length, with configurable fallback model lists) and the older
    universal plugin (always chunked, one fixed model per stage). */
module Summarize {
  import opened PyText
  import opened Chunking

  type Model = string

  /** What a model is asked to do; the prompt text is built from these fields. */
  datatype Request =
    | SinglePass(title: string, transcript: string)
    | ChunkPart(title: string, chunk: string, num: nat, total: nat)
    | Merge(title: string, combined: string)

  type Call = (Model, Request) -> Option<string>

  /** Python truthiness of an optional string reply. */
  predicate Truthy(o: Option<string>) {
    o.Some? && o.value != ""
  }

  /** The outcome of a fallback loop: the winning reply, if any, and how many
      models of the list were called. */
  datatype Attempt = Attempt(result: Option<string>, tried: nat)

  /** The fallback loop of `_single_pass_summarize`, `_summarize_chunk` and
      `_create_final_summary`: the models are called in list order and the
      first truthy reply is returned; no model after the winner is called,
      and an empty list or a list of failures yields None after calling all. */
  function TryModels(models: seq<Model>, req: Request, call: Call): (a: Attempt)
    ensures a.tried <= |models|
    ensures a.result.Some? <==> exists k :: 0 <= k < |models| && Truthy(call(models[k], req))
    ensures a.result.Some? ==>
      && a.tried >= 1
      && call(models[a.tried - 1], req) == a.result
      && a.result.value != ""
    ensures forall k :: 0 <= k < |models| && k < a.tried - 1 ==> !Truthy(call(models[k], req))
    ensures a.result.None? ==> a.tried == |models|
  {
    if |models| == 0 then Attempt(None, 0)
    else if Truthy(call(models[0], req)) then Attempt(call(models[0], req), 1)
    else
      var rest := TryModels(models[1..], req, call);
      assert forall k :: 1 <= k < |models| ==> models[k] == models[1..][k - 1];
      Attempt(rest.result, rest.tried + 1)
  }

  /** Model `k` is the first of the list whose reply to `req` is truthy. */
  predicate FirstTruthy(models: seq<Model>, req: Request, call: Call, k: int) {
    && 0 <= k < |models|
    && Truthy(call(models[k], req))
    && forall j :: 0 <= j < k ==> !Truthy(call(models[j], req))
  }

  /** At most one model is the first truthy one, so naming its reply pins a
      fallback loop's result. */
  lemma FirstTruthyUnique(models: seq<Model>, req: Request, call: Call, k: int, l: int)
    requires FirstTruthy(models, req, call, k) && FirstTruthy(models, req, call, l)
    ensures k == l
  {
  }

  /** The winner of a fallback loop is the first truthy model. */
  lemma TryModelsFirst(models: seq<Model>, req: Request, call: Call)
    ensures var a := TryModels(models, req, call);
      a.result.Some? ==> FirstTruthy(models, req, call, a.tried - 1) && call(models[a.tried - 1], req) == a.result
  {
  }

  /** The summarisation settings read from the configuration. */
  datatype AiConfig = AiConfig(
    chunkModel: Model,
    finalModel: Model,
    /** `ai.fallback_models.chunk`, when configured */
    chunkFallbacks: Option<seq<Model>>,
    /** `ai.fallback_models.final`, when configured */
    finalFallbacks: Option<seq<Model>>,
    chunkSize: int,
    chunkOverlap: int,
    maxChunks: int)

  /** The chunk-stage model list: the configured fallbacks, else the one chunk model. */
  function ChunkModels(cfg: AiConfig): (ms: seq<Model>)
    ensures cfg.chunkFallbacks.None? ==> ms == [cfg.chunkModel]
    ensures cfg.chunkFallbacks.Some? ==> ms == cfg.chunkFallbacks.value
  {
    cfg.chunkFallbacks.GetOr([cfg.chunkModel])
  }

  /** The single-pass and merge model list: the configured fallbacks, else the one final model. */
  function FinalModels(cfg: AiConfig): (ms: seq<Model>)
    ensures cfg.finalFallbacks.None? ==> ms == [cfg.finalModel]
    ensures cfg.finalFallbacks.Some? ==> ms == cfg.finalFallbacks.value
  {
    cfg.finalFallbacks.GetOr([cfg.finalModel])
  }

  /** Transcripts up to this many characters are summarised in one call. */
  const MaxSinglePassLength := 25000

  const ChunkSeparator := "\n\n"

  /** The optional replies with the failures left out, in their original order. */
  function Somes(xs: seq<Option<string>>): (r: seq<string>)
    ensures |r| <= |xs|
    ensures |r| == 0 <==> forall i :: 0 <= i < |xs| ==> xs[i].None?
    ensures (forall i :: 0 <= i < |xs| ==> xs[i].Some? ==> xs[i].value != "") ==>
      forall j :: 0 <= j < |r| ==> r[j] != ""
  {
    if |xs| == 0 then []
    else
      var rest := Somes(xs[1..]);
      assert forall i :: 1 <= i < |xs| ==> xs[i] == xs[1..][i - 1];
      match xs[0]
      case Some(v) => [v] + rest
      case None => rest
  }

  /** Dropping failures commutes with concatenation, so survivors keep the
      order of the chunks they came from. */
  lemma {:induction false} SomesAppend(a: seq<Option<string>>, b: seq<Option<string>>)
    ensures Somes(a + b) == Somes(a) + Somes(b)
  {
    if |a| == 0 {
      assert a + b == b;
    } else {
      assert (a + b)[0] == a[0];
      assert (a + b)[1..] == a[1..] + b;
      SomesAppend(a[1..], b);
    }
  }

  /** When no reply failed, nothing is dropped and the order is kept. */
  lemma {:induction false} SomesAllPresent(xs: seq<Option<string>>)
    requires forall i :: 0 <= i < |xs| ==> xs[i].Some?
    ensures |Somes(xs)| == |xs|
    ensures forall i :: 0 <= i < |xs| ==> Somes(xs)[i] == xs[i].value
  {
    if |xs| > 0 {
      SomesAllPresent(xs[1..]);
    }
  }

  /** The first `maxChunks` chunks of the transcript (Python `chunks[:max_chunks]`). */
  function LimitedChunks(transcript: string, size: int, overlap: int, maxChunks: int): (cs: seq<string>)
    requires 0 <= overlap < size
    ensures |cs| <= |ChunkText(transcript, size, overlap)|
    ensures cs == ChunkText(transcript, size, overlap)[..|cs|]
    ensures 0 <= maxChunks ==> |cs| == Min(maxChunks, |ChunkText(transcript, size, overlap)|)
  {
    PyPrefix(ChunkText(transcript, size, overlap), maxChunks)
  }

  /** The reply for every chunk: chunk `i` is sent as part `i + 1` of `|chunks|`
      through the fallback loop over `models`. */
  function ChunkReplies(chunks: seq<string>, title: string, models: seq<Model>, call: Call): (rs: seq<Option<string>>)
    ensures |rs| == |chunks|
    ensures forall i :: 0 <= i < |chunks| ==>
      rs[i] == TryModels(models, ChunkPart(title, chunks[i], i + 1, |chunks|), call).result
  {
    seq(|chunks|, i requires 0 <= i < |chunks| =>
      TryModels(models, ChunkPart(title, chunks[i], i + 1, |chunks|), call).result)
  }

  /** `_single_pass_summarize`: the whole transcript through the final-model list. */
  function SinglePassSummarize(transcript: string, title: string, cfg: AiConfig, call: Call): (r: Option<string>)
    ensures r.Some? <==>
      exists k :: 0 <= k < |FinalModels(cfg)| && Truthy(call(FinalModels(cfg)[k], SinglePass(title, transcript)))
    ensures r.Some? ==> r.value != ""
    ensures r.Some? ==> exists k ::
      (FirstTruthy(FinalModels(cfg), SinglePass(title, transcript), call, k)
       && call(FinalModels(cfg)[k], SinglePass(title, transcript)) == r)
  {
    var a := TryModels(FinalModels(cfg), SinglePass(title, transcript), call);
    TryModelsFirst(FinalModels(cfg), SinglePass(title, transcript), call);
    a.result
  }

  /** `_create_final_summary`: the merge call through the final-model list,
      degrading to the combined chunk summaries when the API key is missing or
      every model fails; it never returns less than a non-empty text when given one. */
  function CreateFinalSummary(combined: string, title: string, apiKey: bool, cfg: AiConfig, call: Call): (r: string)
    ensures combined != "" ==> r != ""
    ensures !apiKey ==> r == combined
    ensures (forall k :: 0 <= k < |FinalModels(cfg)| ==> !Truthy(call(FinalModels(cfg)[k], Merge(title, combined))))
      ==> r == combined
    ensures r != combined ==> exists k :: 0 <= k < |FinalModels(cfg)| && call(FinalModels(cfg)[k], Merge(title, combined)) == Some(r)
    ensures apiKey && (exists k :: 0 <= k < |FinalModels(cfg)| && Truthy(call(FinalModels(cfg)[k], Merge(title, combined)))) ==>
      (var winner := TryModels(FinalModels(cfg), Merge(title, combined), call).tried - 1;
       FirstTruthy(FinalModels(cfg), Merge(title, combined), call, winner)
       && call(FinalModels(cfg)[winner], Merge(title, combined)) == Some(r))
  {
    if !apiKey then combined
    else
      var a := TryModels(FinalModels(cfg), Merge(title, combined), call);
      TryModelsFirst(FinalModels(cfg), Merge(title, combined), call);
      a.result.GetOr(combined)
  }

  /** The chunk summaries that survived, in chunk order. */
  function ChunkSummaries(transcript: string, title: string, cfg: AiConfig, call: Call): (sums: seq<string>)
    requires 0 <= cfg.chunkOverlap < cfg.chunkSize
    ensures |sums| <= |LimitedChunks(transcript, cfg.chunkSize, cfg.chunkOverlap, cfg.maxChunks)|
    ensures forall j :: 0 <= j < |sums| ==> sums[j] != ""
    ensures sums == Somes(ChunkReplies(LimitedChunks(transcript, cfg.chunkSize, cfg.chunkOverlap, cfg.maxChunks),
      title, ChunkModels(cfg), call))
  {
    var chunks := LimitedChunks(transcript, cfg.chunkSize, cfg.chunkOverlap, cfg.maxChunks);
    Somes(ChunkReplies(chunks, title, ChunkModels(cfg), call))
  }

  /** `_chunked_summarize` */
  function ChunkedSummarize(transcript: string, title: string, apiKey: bool, cfg: AiConfig, call: Call): (r: Option<string>)
    requires 0 <= cfg.chunkOverlap < cfg.chunkSize
    ensures r.Some? <==> |ChunkSummaries(transcript, title, cfg, call)| > 0
    ensures r.Some? ==> r.value != ""
    ensures |ChunkSummaries(transcript, title, cfg, call)| == 1 ==>
      r == Some(ChunkSummaries(transcript, title, cfg, call)[0])
    ensures |ChunkSummaries(transcript, title, cfg, call)| > 1 ==>
      r == Some(CreateFinalSummary(Join(ChunkSummaries(transcript, title, cfg, call), ChunkSeparator), title, apiKey, cfg, call))
    ensures var combined := Join(ChunkSummaries(transcript, title, cfg, call), ChunkSeparator);
      |ChunkSummaries(transcript, title, cfg, call)| > 1 &&
      (forall k :: 0 <= k < |FinalModels(cfg)| ==> !Truthy(call(FinalModels(cfg)[k], Merge(title, combined))))
      ==> r == Some(combined)
  {
    var sums := ChunkSummaries(transcript, title, cfg, call);
    if |sums| == 0 then None
    else if |sums| > 1 then
      var combined := Join(sums, ChunkSeparator);
      assert combined != "" by { JoinNonEmpty(sums, ChunkSeparator); }
      var final := CreateFinalSummary(combined, title, apiKey, cfg, call);
      if final != "" then Some(final) else None
    else Some(sums[0])
  }

  /** A join whose first piece is non-empty is non-empty. */
  lemma JoinNonEmpty(xs: seq<string>, sep: string)
    requires |xs| >= 1 && xs[0] != ""
    ensures Join(xs, sep) != ""
  {
    if |xs| > 1 {
      assert Join(xs, sep) == xs[0] + sep + Join(xs[1..], sep);
    }
  }

  /** `_summarize_with_ai`: without an API key nothing happens; a transcript of
      at most 25000 characters is summarised in a single pass over the final
      models, a longer one by chunks. The chunker's `overlap < size` is needed
      only on the chunked path. */
  function SummarizeWithAi(transcript: string, title: string, apiKey: bool, cfg: AiConfig, call: Call): (r: Option<string>)
    requires apiKey && |transcript| > MaxSinglePassLength ==> 0 <= cfg.chunkOverlap < cfg.chunkSize
    ensures !apiKey ==> r.None?
    ensures r.Some? ==> r.value != ""
    ensures apiKey && |transcript| <= MaxSinglePassLength ==>
      r == TryModels(FinalModels(cfg), SinglePass(title, transcript), call).result
    ensures apiKey && |transcript| > MaxSinglePassLength ==>
      (r.Some? <==> |ChunkSummaries(transcript, title, cfg, call)| > 0)
    ensures apiKey && |transcript| > MaxSinglePassLength ==>
      r == ChunkedSummarize(transcript, title, apiKey, cfg, call)
  {
    if !apiKey then None
    else if |transcript| <= MaxSinglePassLength then SinglePassSummarize(transcript, title, cfg, call)
    else ChunkedSummarize(transcript, title, apiKey, cfg, call)
  }

  /** On the chunked path a result exists exactly when some processed chunk got
      a truthy reply from some chunk model: one chunk failing entirely does not
      sink the summary, and a failed merge degrades instead of failing. */
  lemma ChunkedSucceedsIffSomeChunkSucceeds(transcript: string, title: string, apiKey: bool, cfg: AiConfig, call: Call)
    requires 0 <= cfg.chunkOverlap < cfg.chunkSize
    ensures var chunks := LimitedChunks(transcript, cfg.chunkSize, cfg.chunkOverlap, cfg.maxChunks);
      ChunkedSummarize(transcript, title, apiKey, cfg, call).Some? <==>
        exists i, k :: 0 <= i < |chunks| && 0 <= k < |ChunkModels(cfg)| &&
          Truthy(call(ChunkModels(cfg)[k], ChunkPart(title, chunks[i], i + 1, |chunks|)))
  {
    var chunks := LimitedChunks(transcript, cfg.chunkSize, cfg.chunkOverlap, cfg.maxChunks);
    var rs := ChunkReplies(chunks, title, ChunkModels(cfg), call);
    if ChunkedSummarize(transcript, title, apiKey, cfg, call).Some? {
      var i :| 0 <= i < |rs| && rs[i].Some?;
      var k :| 0 <= k < |ChunkModels(cfg)| &&
        Truthy(call(ChunkModels(cfg)[k], ChunkPart(title, chunks[i], i + 1, |chunks|)));
    }
  }

  // ---------------------------------------------------------------------------
  // The older universal plugin: fixed chunking, one model per stage.

  const UniversalChunkSize := 8000
  const UniversalChunkOverlap := 800
  const UniversalMaxChunks := 10
  const UniversalChunkModel: Model := "mistralai/mistral-small-3.2-24b-instruct:free"
  const UniversalFinalModel: Model := "openai/gpt-3.5-turbo"

  /** The universal `_create_final_summary`: one merge call; its reply is
      returned as it is, and any failure returns the combined input unchanged. */
  function UniversalCreateFinalSummary(combined: string, title: string, apiKey: bool, call: Call): (r: string)
    ensures !apiKey ==> r == combined
    ensures apiKey && call(UniversalFinalModel, Merge(title, combined)).None? ==> r == combined
    ensures apiKey && call(UniversalFinalModel, Merge(title, combined)).Some? ==>
      r == call(UniversalFinalModel, Merge(title, combined)).value
  {
    if !apiKey then combined
    else call(UniversalFinalModel, Merge(title, combined)).GetOr(combined)
  }

  /** The universal chunk summaries that survived, in chunk order; at most ten
      chunks are processed. */
  function UniversalChunkSummaries(transcript: string, title: string, call: Call): (sums: seq<string>)
    ensures |sums| <= UniversalMaxChunks
    ensures forall j :: 0 <= j < |sums| ==> sums[j] != ""
    ensures sums == Somes(ChunkReplies(LimitedChunks(transcript, UniversalChunkSize, UniversalChunkOverlap, UniversalMaxChunks),
      title, [UniversalChunkModel], call))
  {
    var chunks := LimitedChunks(transcript, UniversalChunkSize, UniversalChunkOverlap, UniversalMaxChunks);
    Somes(ChunkReplies(chunks, title, [UniversalChunkModel], call))
  }

  /** The universal `_summarize_with_ai`: always chunked, no single-pass branch. */
  function UniversalSummarizeWithAi(transcript: string, title: string, apiKey: bool, call: Call): (r: Option<string>)
    ensures !apiKey ==> r.None?
    ensures apiKey ==> (r.Some? <==> |UniversalChunkSummaries(transcript, title, call)| > 0)
    ensures apiKey && |UniversalChunkSummaries(transcript, title, call)| == 1 ==>
      r == Some(UniversalChunkSummaries(transcript, title, call)[0])
    ensures apiKey && |UniversalChunkSummaries(transcript, title, call)| > 1 ==>
      r == Some(UniversalCreateFinalSummary(Join(UniversalChunkSummaries(transcript, title, call), ChunkSeparator), title, apiKey, call))
  {
    if !apiKey then None
    else
      var sums := UniversalChunkSummaries(transcript, title, call);
      if |sums| == 0 then None
      else if |sums| > 1 then Some(UniversalCreateFinalSummary(Join(sums, ChunkSeparator), title, apiKey, call))
      else Some(sums[0])
  }

  /** A transcript that fits one universal chunk is summarised by a single
      chunk call whose reply is returned without a merge. */
  lemma UniversalShortTranscript(transcript: string, title: string, call: Call)
    requires |transcript| <= UniversalChunkSize
    ensures var reply := call(UniversalChunkModel, ChunkPart(title, transcript, 1, 1));
      UniversalSummarizeWithAi(transcript, title, true, call)
        == if Truthy(reply) then reply else None
  {
    var chunks := LimitedChunks(transcript, UniversalChunkSize, UniversalChunkOverlap, UniversalMaxChunks);
    assert chunks == [transcript];
    var rs := ChunkReplies(chunks, title, [UniversalChunkModel], call);
    assert Somes(rs) == Somes(rs[1..]) + (if rs[0].Some? then [rs[0].value] else []) by {
      assert rs[1..] == [];
    }
  }
}
