/**
 * The request side of the application: `get_summary`, which fetches a
 * transcript, asks the language model for a summary and formats the answer,
 * and the `/` route `index`. The transcript service and the model are
 * parameters: whatever they return, or the exception they raise, is an
 * `Outcome`.
 */
module RequestHandler {
  import opened Wrappers
  import opened PyStr
  import opened ResponseFormatter
  import opened UrlParser

  /** One transcript entry; the handler reads only its `text`. */
  datatype Segment = Segment(text: string)

  /** A candidate answer, by the texts of its content parts. */
  datatype Candidate = Candidate(parts: seq<string>)

  /** What `generate_content` returns. */
  datatype ModelResponse = ModelResponse(candidates: seq<Candidate>)

  /** `YouTubeTranscriptApi.get_transcript`: a video id to its entries. */
  type TranscriptService = string -> Outcome<seq<Segment>>

  /** `GenerativeModel(name).generate_content(prompt)`. */
  type ModelService = (string, string) -> Outcome<ModelResponse>

  const ModelName: string := "gemini-1.5-flash"
  const Newline: string := "\n"
  const Instruction: string :=
    "Summarize this text in 7-10 " + "detailed sentences. Then " + "create a 10-bullet point " + "list of the key points."

  /** `str(e)` of the IndexError that indexing an empty list raises. */
  const IndexErrorMessage: string := "list index out of range"

  /** The entries' texts, in order. */
  function Texts(entries: seq<Segment>): seq<string>
  {
    seq(|entries|, k requires 0 <= k < |entries| => entries[k].text)
  }

  /** The transcript's entries, one per line. */
  function TranscriptText(entries: seq<Segment>): string
  {
    Join(Newline, Texts(entries))
  }

  /** The transcript, a newline, then the instruction. */
  function Prompt(transcript: string): string
  {
    transcript + Newline + Instruction
  }

  /** `response.candidates[0].content.parts[0].text`, or the IndexError raised on the way. */
  function FirstText(response: ModelResponse): Outcome<string>
  {
    if |response.candidates| == 0 || |response.candidates[0].parts| == 0 then Error(IndexErrorMessage)
    else Ok(response.candidates[0].parts[0])
  }

  /**
   * `get_summary(video_id)`: the formatted answer of the model, or, when any
   * step raises, the exception's message as summary and no key points.
   */
  function GetSummary(videoId: string, fetchTranscript: TranscriptService, generate: ModelService): (r: SummaryResult)
    ensures WellShaped(r.keyPoints)
  {
    match fetchTranscript(videoId)
    case Error(e) => SummaryResult(e, [])
    case Ok(entries) =>
      match generate(ModelName, Prompt(TranscriptText(entries)))
      case Error(e) => SummaryResult(e, [])
      case Ok(response) =>
        match FirstText(response)
        case Error(e) => SummaryResult(e, [])
        case Ok(text) => FormattedShape(text); Formatted(text)
  }

  datatype HttpMethod = Get | Post

  /** A request by its method and its form fields. */
  datatype Request = Request(verb: HttpMethod, form: map<string, string>)

  /**
   * The reply: `index.html` rendered with the variables passed to it (None
   * for one not passed), or the server error Flask sends when the handler raises.
   */
  datatype Page =
    | Rendered(error: Option<string>, videoId: Option<string>, summary: Option<string>, keyPoints: Option<seq<string>>)
    | ServerError

  const UrlField: string := "url"
  const InvalidUrlMessage: string := "Invalid YouTube URL"

  /**
   * `index()`. A POST without a `url` field hands None to `re.match`, which
   * raises a TypeError.
   */
  function Index(request: Request, fetchTranscript: TranscriptService, generate: ModelService): (page: Page)
    ensures page.ServerError? <==> request.verb == Post && UrlField !in request.form
    ensures page.Rendered? && page.error.Some? ==>
      page.error.value == InvalidUrlMessage && page.videoId == page.summary == None && page.keyPoints == None
  {
    if request.verb == Post then
      if UrlField !in request.form then ServerError
      else
        var videoId := ExtractVideoId(request.form[UrlField]);
        if videoId.Some? && videoId.value != [] then
          var data := GetSummary(videoId.value, fetchTranscript, generate);
          Rendered(None, Some(videoId.value), Some(data.summary), Some(data.keyPoints))
        else
          Rendered(Some(InvalidUrlMessage), None, None, None)
    else
      Rendered(None, None, None, None)
  }

  // ---------------------------------------------------------------------------
  // get_summary

  /** Every failure, from the transcript service, the model or the indexing, ends as its message with no key points. */
  lemma SummaryOnFailure(videoId: string, fetchTranscript: TranscriptService, generate: ModelService)
    ensures fetchTranscript(videoId).Error? ==>
      GetSummary(videoId, fetchTranscript, generate) == SummaryResult(fetchTranscript(videoId).message, [])
    ensures fetchTranscript(videoId).Ok? ==>
      var answer := generate(ModelName, Prompt(TranscriptText(fetchTranscript(videoId).value)));
      (answer.Error? ==> GetSummary(videoId, fetchTranscript, generate) == SummaryResult(answer.message, []))
      && (answer.Ok? && FirstText(answer.value).Error? ==>
            GetSummary(videoId, fetchTranscript, generate) == SummaryResult(IndexErrorMessage, []))
  {
  }

  /** When every step succeeds the result is the formatter's, on the first part of the first candidate. */
  lemma SummaryOnSuccess(videoId: string, fetchTranscript: TranscriptService, generate: ModelService,
                         entries: seq<Segment>, response: ModelResponse)
    requires fetchTranscript(videoId) == Ok(entries)
    requires generate(ModelName, Prompt(TranscriptText(entries))) == Ok(response)
    requires |response.candidates| > 0 && |response.candidates[0].parts| > 0
    ensures GetSummary(videoId, fetchTranscript, generate) == Formatted(response.candidates[0].parts[0])
  {
  }

  /** The summary and the key points depend on the services only through what they return for this video. */
  lemma SummaryDependsOnAnswers(videoId: string, t1: TranscriptService, g1: ModelService, t2: TranscriptService, g2: ModelService)
    requires t1(videoId) == t2(videoId)
    requires t1(videoId).Ok? ==>
      var prompt := Prompt(TranscriptText(t1(videoId).value));
      g1(ModelName, prompt) == g2(ModelName, prompt)
    ensures GetSummary(videoId, t1, g1) == GetSummary(videoId, t2, g2)
  {
  }

  /** The instruction is a single line. */
  lemma InstructionLine()
    ensures Split(Instruction, Newline) == [Instruction]
  {
    assert Free("Summarize this text in 7-10 ", '\n');
    assert Free("detailed sentences. Then ", '\n');
    assert Free("create a 10-bullet point ", '\n');
    assert Free("list of the key points.", '\n');
    SplitFree(Instruction, '\n');
  }

  /**
   * The prompt's lines: one per transcript entry (a single empty line for an
   * empty transcript), then the instruction, as long as no entry spans lines.
   */
  lemma PromptLines(entries: seq<Segment>)
    requires forall k :: 0 <= k < |entries| ==> Free(entries[k].text, '\n')
    ensures Split(Prompt(TranscriptText(entries)), Newline)
      == (if entries == [] then [[]] else Texts(entries)) + [Instruction]
  {
    var lines := if entries == [] then [[]] else Texts(entries);
    assert Join(Newline, lines) == TranscriptText(entries);
    assert AllFree(lines, '\n') by {
      forall k | 0 <= k < |lines| ensures Free(lines[k], '\n') {
        if entries != [] {
          assert lines[k] == entries[k].text;
        }
      }
    }
    SplitJoinThen(lines, '\n', Instruction);
    InstructionLine();
  }

  // ---------------------------------------------------------------------------
  // index

  lemma IndexGet(form: map<string, string>, fetchTranscript: TranscriptService, generate: ModelService)
    ensures Index(Request(Get, form), fetchTranscript, generate) == Rendered(None, None, None, None)
  {
  }

  /** A POST whose `url` has no matching prefix renders only the error, whatever the services would do. */
  lemma IndexInvalidUrl(form: map<string, string>, fetchTranscript: TranscriptService, generate: ModelService)
    requires UrlField in form && forall ps :: !Matches(form[UrlField], ps)
    ensures Index(Request(Post, form), fetchTranscript, generate) == Rendered(Some(InvalidUrlMessage), None, None, None)
  {
    ExtractNoneIff(form[UrlField]);
  }

  /**
   * A POST whose `url` matches renders the extracted id, which is eleven
   * characters captured by group 6 of a match, with its summary.
   */
  lemma IndexValidUrl(form: map<string, string>, fetchTranscript: TranscriptService, generate: ModelService, ps: seq<string>)
    requires UrlField in form && Matches(form[UrlField], ps)
    ensures var id := ExtractVideoId(form[UrlField]);
      id.Some? && IsId(id.value)
      && (exists qs :: Matches(form[UrlField], qs) && qs[7] == id.value)
      && var data := GetSummary(id.value, fetchTranscript, generate);
      Index(Request(Post, form), fetchTranscript, generate)
        == Rendered(None, Some(id.value), Some(data.summary), Some(data.keyPoints))
  {
    ExtractComplete(form[UrlField], ps);
    ExtractSound(form[UrlField]);
  }

  /** A POST shows the error exactly when no prefix of its `url` matches. */
  lemma IndexErrorIff(form: map<string, string>, fetchTranscript: TranscriptService, generate: ModelService)
    requires UrlField in form
    ensures Index(Request(Post, form), fetchTranscript, generate).error.Some? <==> forall ps :: !Matches(form[UrlField], ps)
  {
    ExtractNoneIff(form[UrlField]);
  }

  /** End to end: a canonical link whose transcript cannot be fetched shows the id and the failure's message. */
  lemma WatchUrlTranscriptFailure(form: map<string, string>, id: string, rest: string,
                                  fetchTranscript: TranscriptService, generate: ModelService)
    requires IsId(id) && fetchTranscript(id).Error?
    requires UrlField in form
    requires form[UrlField] == Schemes[0] + Subdomains[0] + Hosts[0] + Dots[0] + Tlds[0] + Slashes[0] + PathLiterals[0] + id + rest
    ensures Index(Request(Post, form), fetchTranscript, generate)
      == Rendered(None, Some(id), Some(fetchTranscript(id).message), Some([]))
  {
    WatchUrl(id, rest);
  }
}
