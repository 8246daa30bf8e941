/** The requests the service layer sends to the hosted model: the model id,
    the prompt and the optional system instruction of a text request, and the
    inline image of an image request, with the data-URL header stripped. */
module GeminiService {
  import opened JsLib

  const FlashModel := "gemini-2.5-flash"
  const ProModel := "gemini-3-pro-preview"
  const PlannerInstruction := "You are an expert logistics planner."
  /** The MIME type every inline image is declared with. */
  const ImageMimeType := "image/jpeg"

  /** What `generateText` hands to the hosted model; the reply is outside
      this model. */
  datatype TextRequest = TextRequest(model: string, contents: string, systemInstruction: Option<string>)

  /** What `analyzeImage` hands to the hosted model: a text part and an
      inline-data part. */
  datatype ImageRequest = ImageRequest(model: string, prompt: string, mimeType: string, data: string)

  /** `generateText(modelId, prompt, systemInstruction)`. */
  function GenerateText(modelId: string, prompt: string, systemInstruction: Option<string>): (q: TextRequest)
    ensures q.model == modelId && q.contents == prompt && q.systemInstruction == systemInstruction
  {
    TextRequest(modelId, prompt, systemInstruction)
  }

  // ---------------------------------------------------------------------------
  // Image analysis

  /** `base64Image.split(',')[1] || base64Image`: the text between the first
      and the second comma when that is not empty, and the whole input
      otherwise. */
  function StripDataUrlHeader(base64Image: string): (r: string)
    ensures ',' !in base64Image ==> r == base64Image
    ensures r == base64Image || (',' !in r && r != [])
    ensures var i := IndexOf(base64Image, ',');
            var rest := base64Image[if i < |base64Image| then i + 1 else i..];
            i < |base64Image| && rest[..IndexOf(rest, ',')] != [] ==> r == rest[..IndexOf(rest, ',')]
    ensures var i := IndexOf(base64Image, ',');
            var rest := base64Image[if i < |base64Image| then i + 1 else i..];
            i < |base64Image| && rest[..IndexOf(rest, ',')] == [] ==> r == base64Image
  {
    var parts := Split(base64Image, ',');
    if ',' in base64Image then
      SecondPiece(base64Image, ',');
      if parts[1] != [] then parts[1] else base64Image
    else base64Image
  }

  /** The second piece of a split is the text between the first separator and
      the next one, or the end. */
  lemma SecondPiece(s: string, sep: char)
    requires sep in s
    ensures var rest := s[IndexOf(s, sep) + 1..];
            |Split(s, sep)| >= 2 && Split(s, sep)[1] == rest[..IndexOf(rest, sep)]
  {
    SplitAtFirst(s, sep);
    FirstPiece(s[IndexOf(s, sep) + 1..], sep);
  }

  /** The stripped text is always a slice of the input. */
  lemma StripIsSlice(base64Image: string)
    ensures exists a, b :: 0 <= a <= b <= |base64Image| && StripDataUrlHeader(base64Image) == base64Image[a..b]
  {
    var r := StripDataUrlHeader(base64Image);
    var i := IndexOf(base64Image, ',');
    if i < |base64Image| {
      var rest := base64Image[i + 1..];
      var j := IndexOf(rest, ',');
      if rest[..j] != [] {
        assert r == base64Image[i + 1..i + 1 + j];
      } else {
        assert r == base64Image[0..|base64Image|];
      }
    } else {
      assert r == base64Image[0..|base64Image|];
    }
  }

  /** A data URL `data:<mediatype>;base64,<payload>` (section 3 of RFC 2397)
      with a comma-free media type and a non-empty comma-free payload gives
      back its payload. */
  lemma StripDataUrl(mediaType: string, payload: string)
    requires ',' !in mediaType && ',' !in payload && payload != []
    ensures StripDataUrlHeader("data:" + mediaType + ";base64," + payload) == payload
  {
    var header := "data:" + mediaType + ";base64";
    var url := "data:" + mediaType + ";base64," + payload;
    assert url == header + [','] + payload;
    assert ',' !in header;
    SplitConcat(header, payload, ',');
    JoinSplit(header, ',');
    JoinSplit(payload, ',');
  }

  lemma StripJpegExample()
    ensures StripDataUrlHeader("data:image/jpeg;base64,XYZ") == "XYZ"
  {
    var mediaType, payload := "image/jpeg", "XYZ";
    assert ',' !in mediaType by {
      assert forall i :: 0 <= i < |mediaType| ==> mediaType[i] != ',';
    }
    assert ',' !in payload;
    assert "data:" + mediaType + ";base64," + payload == "data:image/jpeg;base64,XYZ";
    StripDataUrl(mediaType, payload);
  }

  /** `analyzeImage(prompt, base64Image)`. */
  function AnalyzeImage(prompt: string, base64Image: string): (q: ImageRequest)
    ensures q.model == FlashModel && q.prompt == prompt && q.mimeType == ImageMimeType
    ensures q.data == StripDataUrlHeader(base64Image)
  {
    ImageRequest(FlashModel, prompt, ImageMimeType, StripDataUrlHeader(base64Image))
  }

  // ---------------------------------------------------------------------------
  // Data analysis and planning prompts

  /** The fixed pieces of the `analyzeData` template literal, indentation and
      line breaks included. */
  const DataHead := "\n      Data Context:\n      "
  const DataMiddle := "\n      \n      Query:\n      "
  const DataTail := "\n      \n      Provide a concise analysis.\n    "

  /** The prompt `analyzeData` builds. */
  function AnalyzeDataPrompt(dataContext: string, query: string): (p: string)
    ensures |p| == |DataHead| + |dataContext| + |DataMiddle| + |query| + |DataTail|
  {
    DataHead + dataContext + DataMiddle + query + DataTail
  }

  /** Reads the data context and the query back out of a prompt, given the
      length of the data context; `None` when the fixed text is not where the
      template puts it. */
  function PromptFields(p: string, contextLength: nat): (f: Option<(string, string)>)
    ensures f.Some? ==> AnalyzeDataPrompt(f.value.0, f.value.1) == p && |f.value.0| == contextLength
  {
    var fixedLength := |DataHead| + |DataMiddle| + |DataTail|;
    if |p| < fixedLength + contextLength then None
    else
      var queryStart := |DataHead| + contextLength + |DataMiddle|;
      var queryEnd := |p| - |DataTail|;
      if p[..|DataHead|] == DataHead
         && p[|DataHead| + contextLength..queryStart] == DataMiddle
         && p[queryEnd..] == DataTail
      then
        var context := p[|DataHead|..|DataHead| + contextLength];
        var query := p[queryStart..queryEnd];
        assert p == DataHead + context + DataMiddle + query + DataTail;
        Some((context, query))
      else None
  }

  /** The prompt carries the data context and then the query, each recoverable
      from it. */
  lemma PromptRoundTrip(dataContext: string, query: string)
    ensures PromptFields(AnalyzeDataPrompt(dataContext, query), |dataContext|) == Some((dataContext, query))
  {
    var p := AnalyzeDataPrompt(dataContext, query);
    var queryStart := |DataHead| + |dataContext| + |DataMiddle|;
    assert p[..|DataHead|] == DataHead;
    assert p[|DataHead|..|DataHead| + |dataContext|] == dataContext;
    assert p[|DataHead| + |dataContext|..queryStart] == DataMiddle;
    assert p[queryStart..|p| - |DataTail|] == query;
    assert p[|p| - |DataTail|..] == DataTail;
  }

  /** `analyzeData(dataContext, query)`: the template sent to the flash model
      with no system instruction. */
  function AnalyzeData(dataContext: string, query: string): (q: TextRequest)
    ensures q.model == FlashModel && q.systemInstruction == None
    ensures PromptFields(q.contents, |dataContext|) == Some((dataContext, query))
  {
    PromptRoundTrip(dataContext, query);
    GenerateText(FlashModel, AnalyzeDataPrompt(dataContext, query), None)
  }

  /** `generateComplexPlan(prompt)`: the prompt forwarded unchanged to the pro
      model under the logistics-planner instruction. */
  function GenerateComplexPlan(prompt: string): (q: TextRequest)
    ensures q.model == ProModel && q.contents == prompt && q.systemInstruction == Some(PlannerInstruction)
  {
    GenerateText(ProModel, prompt, Some(PlannerInstruction))
  }
}
