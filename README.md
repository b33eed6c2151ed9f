# Traceable Context Engine — verified model of the citation core

The Traceable Context Engine reads a PDF and tags each paragraph block with a
source tag `[[P<page>_<block>]]`. It asks a language model for a structured
summary whose key points cite those tags. It then lets a reader trace every
cited claim back to the exact text it came from. The repository has two
front ends: a Streamlit dashboard (`app.py`) and a Flask back end
(`server.py`). Around the PDF library, the model API and the web
frameworks, they share a small deterministic core. This project models that
core in Dafny and proves what it promises.

Modules, one file each:

- `Text` (`text.dfy`): character helpers. `str.strip` is `Trim`, decimal
  rendering of page and block numbers is `Dec`, substring search is
  `Contains`, and `str.lower` is `Lower`.
- `Extraction` (`extraction.dfy`): `extract_and_tag_pdf`. The PDF is given
  as its pages, each a list of blocks `(kind, text)`. Blocks of kind 0
  whose stripped text is not empty become segments, tagged
  `[[P{page+1}_{i}]]`, where `i` is the block's position in the page's
  unfiltered list. `ExtractAndTag` is the accumulating loop, proved equal
  to the rendering `Render(Segments(pages))` and the dictionary
  `SourceMap(Segments(pages))`. The lemmas give the tag format, tag
  injectivity, the filter in both directions, page-then-block order, tag
  uniqueness (so no dictionary write overwrites another) and agreement
  between the text and the map.
- `Citations` (`citations.dfy`): the dashboard's `valid_sources` filter and
  the "SOURCE"/"NO SOURCE" control of a key point.
- `Evidence` (`evidence.dfy`): the back end's evidence extraction. It is a
  hand-written scanner for `\[\[P\d+_\d+\]\]` with the semantics of
  `re.findall`, followed by `", ".join` and the fixed fallback phrase.
- `Fences` (`fences.dfy`): the back end's code-fence clean-up of the
  summary reply. This is `re.sub` with `^```(json)?\s*|\s*```$` in
  multi-line mode, modelled as a left-to-right scan that deletes matches.
- `Retry` (`retry.dfy`): the bounded exponential-backoff loops of
  `summarize_with_gemini` and `answer_question`. The model's replies are
  an oracle `respond: nat -> Outcome`, giving the outcome of the k-th call.
  Sleeps are recorded as a list of delays.
- `Summary` (`summary.dfy`): the dashboard's risk count over the summary
  tree and its choice between `json_meta_analysis` and `meta_analysis`.
- `Server` (`server.dfy`): the back end's `process_document` and `chat`
  handlers with their request checks, and the extractor that also reports
  the page count.

A cited identifier that is not in the source map is dropped silently
(`app.py:513`), so nothing marks an invented citation on the page.
`Citations.ValidSourcesCount` states exactly what is dropped.

The back end serves the tagged text and the source map side by side. A
block whose own text holds a tag-shaped string adds citations to the served
text that the map does not have, so `Server.ServedTagsAreMapKeys` states
the agreement only for blocks whose text contains no tag.

## Model

| member | source | states |
|---|---|---|
| Extraction.ExtractAndTag | app.py:17-47 | the page/block loop builds exactly the rendering of the kept segments and the tag-to-text dictionary of those segments |
| Extraction.TagInjective | app.py:39 | two tags `[[P{p}_{i}]]` are equal only when their page and block numbers are equal |
| Extraction.SegmentsSound | app.py:32-39 | every segment comes from a block of kind 0 with non-empty stripped text, at its page and unfiltered index, and carries the stripped text |
| Extraction.SegmentsComplete | app.py:32-45 | every block of kind 0 with non-empty stripped text yields a segment |
| Extraction.SegmentIffKept | app.py:32-39 | a segment for page p and block i with text x exists if and only if that block is kept and x is its stripped text |
| Extraction.SegmentsOrdered | app.py:26-45 | segments come in page-then-block order and name no page beyond the document |
| Extraction.TagsDistinct | app.py:39-42 | all tags minted for one document are pairwise distinct |
| Extraction.DocumentSourceMap | app.py:42 | the dictionary has one entry per segment, its keys are exactly the segments' tags, and each tag maps to its segment's text, so no write is overwritten |
| Extraction.TaggedTextRoundTrip | app.py:42-45 | each segment's line in the tagged text is its tag, a space, the dictionary's text for that tag and a blank line, between the lines before it and after it |
| Extraction.RenderAppend | app.py:45 | appending lines distributes over concatenation of segment lists |
| Extraction.TwoPageText | app.py:39-45 | two pages of one block each render as `[[P1_0]] Alpha.\n\n[[P2_0]] Beta.\n\n` |
| Extraction.TwoPageSourceMap | app.py:42 | the same two pages give the dictionary `{[[P1_0]]: Alpha., [[P2_0]]: Beta.}` |
| Extraction.UnfilteredIndexExample | app.py:32-37 | a non-text block and a blank block are skipped but still consume indices, so the third block is tagged with index 2 |
| Text.Trim | app.py:36 | stripping leaves a text that neither starts nor ends with whitespace |
| Text.TrimOf | app.py:36 | stripping any whitespace padding off a text with no outer whitespace gives that text back |
| Text.Dec | app.py:39 | the decimal rendering is non-empty, all digits, without a leading zero, and reads back as the number |
| Citations.ValidSources | app.py:513 | the filtered list is no longer than the cited list, and an id is in it exactly when it is cited and known to the source map |
| Citations.ValidSourcesAppend | app.py:513 | filtering preserves citation order: it distributes over concatenation |
| Citations.ValidSourcesCount | app.py:513 | a known id is kept as many times as it is cited and an unknown id is dropped every time |
| Citations.ValidSourcesAllKnown | app.py:513 | when every cited id is known, nothing is dropped |
| Citations.ValidSourcesIdempotent | app.py:513 | filtering twice is filtering once |
| Citations.SourceViewOf | app.py:509-519 | a point citing nothing shows "NO SOURCE"; otherwise the view lists each known cited id with its mapped text, in citation order |
| Citations.ShownRefsAreBlocks | app.py:513-517 | against the document's own map, every shown reference is the tag of a kept block paired with that block's stripped text |
| Citations.ViewExample | app.py:509-519 | no citation gives "NO SOURCE"; an unknown `[[P9_9]]` is dropped and a known `[[P1_0]]` is shown with its text |
| Evidence.MatchLen | server.py:177 | a non-zero match length marks a well-formed tag at the start of the text |
| Evidence.Scan | server.py:177 | every match found is a well-formed tag `[[P<digits>_<digits>]]` |
| Evidence.ScanFindsEvery | server.py:177 | every well-formed tag in an answer is found, whatever text surrounds it, and the scan goes on right after it |
| Evidence.ScanOccurrences | server.py:177 | every tag found occurs in the answer, the tags found sit at increasing positions in the order found, and no two overlap |
| Evidence.MintedTagWellFormed | app.py:39 | every tag the extractor mints has the shape `[[P<digits>_<digits>]]` that the scanner looks for |
| Evidence.MintedTagRecognised | server.py:43 | every tag the extractor mints is found by the scanner, whole and alone |
| Evidence.ScanJoin | server.py:177 | scanning the comma-joined tags gives the tags back |
| Evidence.EvidenceOf | server.py:177-182 | the evidence string cites exactly the answer's tags in order, and is the fallback phrase exactly when the answer cites none |
| Evidence.ScanTaggedText | server.py:43-45 | scanning the tagged text finds exactly the segments' tags in order, when no block text contains a tag |
| Evidence.ScanExample | server.py:177 | `See [[P1_0]] and [[P2_5]].` yields the two tags in order |
| Evidence.EvidenceExample | server.py:177-182 | that answer's evidence is `[[P1_0]], [[P2_5]]` |
| Evidence.FallbackExample | server.py:182 | an answer with no tag gets "Based on document context" |
| Fences.CleanResponse | server.py:133-136 | a reply whose stripped form does not start with three backticks is passed on unchanged, and cleaning never lengthens a reply |
| Fences.SubFrom | server.py:136 | the substitution never lengthens the text it reads |
| Fences.CopyRun | server.py:136 | a stretch of text with no fence match is copied to the output unchanged |
| Fences.CleanFenced | server.py:133-136 | a fenced reply (optional `json`, whitespace, a body with no backtick, whitespace, closing fence, any surrounding whitespace) cleans to the body |
| Fences.CleanFencedIdempotent | server.py:133-136 | cleaning the cleaned fenced reply changes nothing |
| Fences.CleanPlain | server.py:134 | clean JSON text with no outer whitespace is left as it is |
| Fences.CleanExample | server.py:133-136 | a `json`-fenced object padded with newlines cleans to the object |
| Retry.RetryLoop | app.py:114-132 | the attempt loop ends, calls and sleeps exactly as the specification function `Retry` of the oracle says |
| Retry.RetryShape | app.py:111-132 | one to three calls, one sleep of `base * 2^k` before each retry, every call but the last met a quota error, a run shorter than three calls stopped at a non-quota outcome, and the last outcome decides the ending |
| Retry.TotalBackoff | app.py:122-124 | the total sleep is `base * (2^(calls-1) - 1)`, at most three times the base delay |
| Retry.QuotaThenSuccess | test_retry.py:16-27 | two "429" errors then a reply return the reply after 3 calls and sleeps of 5 and 10 seconds |
| Retry.SummarizeWithGemini | app.py:49-132 | with no key there is no call, no sleep and no summary; otherwise the run uses base delay 5 and the summary is present exactly when the run ended with a reply |
| Retry.AnswerQuestion | app.py:134-185 | with no key the reply is "API Key missing." and no call is made; otherwise the run uses base delay 10 and its ending becomes the reply text |
| Retry.AnswerStopsOnOtherError | app.py:184-185 | an error without "429" ends `answer_question` after one call, with no sleep and the error reply |
| Retry.AnswerQuotaExhausted | app.py:175-183 | "429" on all three calls gives sleeps of 10 and 20 and a reply quoting the last error |
| Summary.RiskCount | app.py:445-451 | the nested loop counts the risky key points of all sections |
| Summary.RiskCountMeaning | app.py:445-451 | the count is the number of key points, over all sections, whose lower-cased risk type contains a keyword, and it is zero exactly when no point is risky |
| Summary.IsRiskyIgnoresCase | app.py:449-450 | whether a risk type counts does not depend on the case of its letters |
| Summary.FinancialIsRisky | app.py:449-450 | "Financial" counts as a risk |
| Summary.NoneIsNotRisky | app.py:449-450 | "None" does not count |
| Summary.MediumIsNotRisky | app.py:449-450 | "Medium" does not count |
| Summary.MetaAnalysisOf | app.py:436 | `json_meta_analysis` wins when present, else `meta_analysis`, else the empty object |
| Server.ExtractAndTagWithCount | server.py:26-47 | the back end's extractor yields the dashboard extractor's tagged text and map, and a page count equal to the number of pages |
| Server.ProcessDocument | server.py:108-154 | no `file` part gives "No file uploaded"; an empty file name gives "No file selected"; a missing key, a failed call or a parse failure give their error message; otherwise the reply carries the name, page count, map, tagged text and the parse of the cleaned reply |
| Server.Chat | server.py:156-185 | a missing question or tagged text is refused with "Missing question or context"; otherwise a missing key gives the `get_model` message and a failed call its error message; success happens exactly when both are present, the key is set and the call succeeds, and then the reply carries the answer and its evidence string, which cites exactly the answer's tags |
| Server.ServedTagsAreMapKeys | server.py:41-47 | when no block text contains a tag, the tags found by scanning the served tagged text are exactly the served map's keys, each once |

## Left out

- PDF parsing (`fitz.open`, `page.get_text("blocks")`) is not modelled. A document is given as its pages of `(kind, text)` blocks, and a malformed PDF's failure belongs to that library.
- The model API (`genai.configure`, `GenerativeModel`, `generate_content`) and the prompt texts are not modelled. A call's outcome is an oracle parameter: a reply text or an error message.
- JSON parsing (`json.loads`) is a parameter of `Server.ProcessDocument` that returns a value or an error message. The dashboard's parse of the summary, and its session-state plumbing, are not modelled.
- The compression ratio (app.py:442) is floating-point division over a `json.dumps` length, and is left out.
- `time.sleep` is recorded as a list of delays, not performed.
- `st.warning`, `st.error` and every other Streamlit call are not modelled, including the risk badge colours and the "ALERT" listing of high and critical points.
- Flask routing, CORS, static files, `jsonify`, HTTP status codes and the `print`/traceback logging are not modelled. The handlers return the reply's fields only.
- Text.Trim: models `str.strip` on the six characters space, tab, line feed, vertical tab, form feed and carriage return only. Python also strips `\x1c` to `\x1f`, `\x85`, `\xa0` and the other Unicode space characters, and these are not modelled.
- Fences.CleanResponse: the regular expression's `\s` is modelled with the same six characters as `Text.Trim`, so the other Unicode whitespace is not removed around a fence.
- Text.Lower: models `str.lower` on ASCII letters only.
- Server.Chat: the question and tagged text are modelled as strings, absent meaning empty. A non-string JSON value, or a body that is not JSON at all, is not modelled.
- Server.ProcessDocument: the reading of the upload stream is not modelled, and neither is an exception raised by `fitz.open` or the rest of extraction (server.py:123). The missing-key failure is modelled; it comes from `get_model` (server.py:21-22), reached through `summarize_with_gemini`.
- `get_model` and `genai.configure` are not modelled beyond the missing-key check. An empty key and an absent key are the same: the empty string.
- Citations.ValidSources: a key point's `source_ids` is modelled as a list of strings. A plain string value, which the filter would walk character by character, is not modelled. Neither is a number entry, which is dropped, or a list or object entry, which raises `TypeError` in the map lookup.
- Summary.RiskCount: absent `sections`, `key_points` and `risk_type` keys are modelled by their defaults (empty list, empty list, empty string). A non-string risk type is not modelled.
- Fences.CleanFenced: proved only for a single fenced body that holds no backtick and has no whitespace at its ends. `re.sub` in multi-line mode also deletes fences at inner line starts and ends, and `Fences.CleanResponse` models that through its scan, but no lemma is stated about such bodies.
- Evidence.Scan: models only the one tag pattern, not a general regular-expression engine. `\d` in that pattern is modelled as ASCII digits only.
