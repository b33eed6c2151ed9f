/** The HTTP back end's two handlers. `process` checks the upload, extracts
    and tags the document, asks the model for a summary once (no retry),
    strips a code fence from the reply and parses it as JSON; `chat` checks
    the request, asks the model once and reports the tags the answer cites.
    The model's single reply is a parameter, and so is the JSON parser. */
module Server {
  import opened Extraction
  import Fences
  import Evidence
  import opened Retry

  const FileField: string := "file"
  const NoFileError: string := "No file uploaded"
  const NoSelectionError: string := "No file selected"
  const MissingContextError: string := "Missing question or context"
  const KeyMissingError: string :=
    "GOOGLE_API_KEY not found. Please create a .env file and set GOOGLE_API_KEY."

  /** An uploaded file: its name and its already-parsed pages. */
  datatype Upload = Upload(filename: string, pages: seq<Page>)

  /** What the JSON parser makes of a string. */
  datatype Parsed<J> = Parsed(value: J) | ParseError(message: string)

  datatype ProcessReply<J> =
    | ProcessFailure(error: string)
    | ProcessSuccess(filename: string, pageCount: nat, sourceMap: map<string, string>,
                     taggedText: string, data: J)

  datatype ChatReply = ChatFailure(error: string) | ChatSuccess(answer: string, evidence: string)

  /** The back end's extractor: the same tagged text and source map as the
      dashboard's, and the number of pages. */
  method ExtractAndTagWithCount(pages: seq<Page>)
    returns (taggedText: string, sourceMap: map<string, string>, pageCount: nat)
    ensures taggedText == Render(Segments(pages))
    ensures sourceMap == SourceMap(Segments(pages))
    ensures pageCount == |pages|
  {
    pageCount := |pages|;
    taggedText, sourceMap := ExtractAndTag(pages);
  }

  /** `process_document`. The upload is checked before anything else; a
      missing key, a failed model call and a parse failure become the error
      reply; otherwise the reply carries the extraction and the parsed,
      fence-stripped summary. */
  method ProcessDocument<J>(files: map<string, Upload>, apiKey: string, response: Outcome,
                            parse: string -> Parsed<J>)
    returns (reply: ProcessReply<J>)
    ensures FileField !in files ==> reply == ProcessFailure(NoFileError)
    ensures FileField in files && files[FileField].filename == "" ==>
      reply == ProcessFailure(NoSelectionError)
    ensures FileField in files && files[FileField].filename != "" && apiKey == "" ==>
      reply == ProcessFailure(KeyMissingError)
    ensures FileField in files && files[FileField].filename != "" && apiKey != "" && response.Err? ==>
      reply == ProcessFailure(response.message)
    ensures FileField in files && files[FileField].filename != "" && apiKey != "" && response.Ok? ==>
      var parsed := parse(Fences.CleanResponse(response.text));
      (parsed.ParseError? ==> reply == ProcessFailure(parsed.message)) &&
      (parsed.Parsed? ==>
        var file := files[FileField];
        var segs := Segments(file.pages);
        reply == ProcessSuccess(file.filename, |file.pages|, SourceMap(segs), Render(segs), parsed.value))
  {
    if FileField !in files {
      return ProcessFailure(NoFileError);
    }
    var file := files[FileField];
    if file.filename == "" {
      return ProcessFailure(NoSelectionError);
    }
    var taggedText, sourceMap, pageCount := ExtractAndTagWithCount(file.pages);
    if apiKey == "" {
      return ProcessFailure(KeyMissingError);
    }
    match response {
      case Err(e) =>
        reply := ProcessFailure(e);
      case Ok(text) =>
        var cleaned := Fences.CleanResponse(text);
        match parse(cleaned) {
          case ParseError(m) =>
            reply := ProcessFailure(m);
          case Parsed(data) =>
            reply := ProcessSuccess(file.filename, pageCount, sourceMap, taggedText, data);
        }
    }
  }

  /** `chat`. A request without a question or without tagged text is
      refused before the model is asked; otherwise a failed call becomes the
      error reply and an answer comes back with the tags it cites. */
  function Chat(question: string, taggedText: string, apiKey: string, response: Outcome): (r: ChatReply)
    ensures question == "" || taggedText == "" ==> r == ChatFailure(MissingContextError)
    ensures question != "" && taggedText != "" && apiKey == "" ==> r == ChatFailure(KeyMissingError)
    ensures question != "" && taggedText != "" && apiKey != "" && response.Err? ==>
      r == ChatFailure(response.message)
    ensures r.ChatSuccess? <==> question != "" && taggedText != "" && apiKey != "" && response.Ok?
    ensures r.ChatSuccess? ==>
      r.answer == response.text && r.evidence == Evidence.EvidenceOf(r.answer) &&
      Evidence.Scan(r.evidence) == Evidence.Scan(r.answer) &&
      (r.evidence == Evidence.Fallback <==> Evidence.Scan(r.answer) == [])
  {
    if question == "" || taggedText == "" then ChatFailure(MissingContextError)
    else if apiKey == "" then ChatFailure(KeyMissingError)
    else
      match response
      case Err(e) => ChatFailure(e)
      case Ok(t) => ChatSuccess(t, Evidence.EvidenceOf(t))
  }

  /** The tags a client finds by scanning the served tagged text are
      exactly the keys of the served source map, once each, when no block's
      text looks like a tag itself. */
  lemma ServedTagsAreMapKeys(pages: seq<Page>)
    requires forall k :: 0 <= k < |Segments(pages)| ==> Evidence.Scan(Segments(pages)[k].text) == []
    ensures var found := Evidence.Scan(Render(Segments(pages)));
      |found| == |SourceMap(Segments(pages))| &&
      (forall t :: t in found <==> t in SourceMap(Segments(pages))) &&
      (forall j, k :: 0 <= j < k < |found| ==> found[j] != found[k])
  {
    var ss := Segments(pages);
    Evidence.ScanTaggedText(ss);
    DocumentSourceMap(pages);
    TagsDistinct(pages);
    SameTags(Evidence.Scan(Render(ss)), ss, SourceMap(ss));
  }

  lemma SameTags(found: seq<string>, ss: seq<Segment>, m: map<string, string>)
    requires |found| == |ss| && forall k :: 0 <= k < |ss| ==> found[k] == TagOf(ss[k])
    requires |m| == |ss| && m.Keys == (set k | 0 <= k < |ss| :: TagOf(ss[k]))
    requires DistinctTags(ss)
    ensures |found| == |m|
    ensures forall t :: t in found <==> t in m
    ensures forall j, k :: 0 <= j < k < |found| ==> found[j] != found[k]
  {
    forall t
      ensures t in found <==> t in m
    {
      if t in found {
        var k :| 0 <= k < |found| && found[k] == t;
        assert TagOf(ss[k]) == t;
      }
      if t in m {
        var k :| 0 <= k < |ss| && TagOf(ss[k]) == t;
        assert found[k] == t;
      }
    }
  }
}
