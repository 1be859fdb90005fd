# youtube-ai: a Dafny model of the summariser's request path

youtube-ai is a small Flask application. A user posts a YouTube link, and the
application:

- pulls the eleven-character video id out of the link;
- fetches the video's transcript;
- sends the transcript and a fixed instruction to a Gemini model;
- cuts the model's free-text answer into a summary paragraph and a list of
  key points, and renders them on one page.

This project models that path in `app.py` and proves properties of the model.

| file | module | models |
|---|---|---|
| `wrappers.dfy` | `Wrappers` | `Option` (Python's `None` or a value); `Outcome` (a value or the `str(e)` of a raised exception) |
| `py_str.dfy` | `PyStr` | the Python string operations the core relies on: `split`, `"".join`/`"\n".join`, `replace(t, "")`, `strip()` |
| `url_parser.dfy` | `UrlParser` | `extract_video_id`: `re.match` of the URL pattern, written out as a backtracking search |
| `response_formatter.dfy` | `ResponseFormatter` | `format_summary`: the loop as an imperative method, proved against a specification function |
| `formatter_examples.dfy` | `FormatterExamples` | concrete texts that show edge cases of the marker parsing |
| `request_handler.dfy` | `RequestHandler` | `get_summary` and the `/` route `index`, with the transcript service and the model as parameters |

Modelling choices:

- **Strings.** Python's string operations are defined from scratch.
  - `split(sep)` cuts at every left-to-right, non-overlapping occurrence.
  - `replace(t, "")` is a single pass, so a removal can create a new
    occurrence of `t`.
  - `strip()` removes the 29 characters for which Python's `str.isspace` is true.
- **The URL pattern.** The search tries each part's alternatives in the same
  order as Python's regex engine:
  - the optional groups are first tried with their body, then without it;
  - `youtube` is tried before `youtu`, and `com` before `be`;
  - in group 5, the three literals come first, then `.+\?v=` with the longest
    `.+` first, then the empty alternative.
  - `.` matches anything but a newline.
  - `Matches(url, pieces)` is an independent, declarative reading of the
    pattern: eight texts, one per part, that concatenate to a prefix of the
    URL. The search is proved sound and complete against it.
- **Services.** The transcript service and the model are function parameters
  that return an `Outcome`. An exception is represented only by its message,
  which is what `get_summary` shows.
- **Pages.** A rendered page is the set of template variables `index` passes.
  A variable that is not passed is `None`.

Behaviour of the code that a quick reading might miss, each proved below:

- **The summary can contain the marker.** The label `**Summary**` is removed
  in one pass, which can join the text around it into a new `**Key Points:**`.
  See `FormatterExamples.SummaryMayHoldMarkerExample`.
- **The fallback needs non-overlapping markers.** A text with two overlapping
  markers splits into exactly two parts, so it is not returned unchanged:
  `**Key Points:**Key Points:**` has a second marker starting inside the first.
  The fallback is guaranteed only for two markers that do not overlap.
  See `ResponseFormatter.FallbackWithRepeatedMarker` and
  `FormatterExamples.OverlappingMarkersExample`.
- **Trailing text can change the id.** `re.match` anchors only at the start,
  so text after a valid link is allowed. That text can change which id is
  returned, because `.+\?v=` prefers the last `?v=` on the line that is
  followed by an id (the literal alternatives of group 5 are tried before
  it). Appending
  text never turns a match into no match.
  See `UrlParser.GreedyQueryLongest`, `UrlParser.GreedyPrefersLastQuery`,
  `UrlParser.LaterQueryWins` and `UrlParser.SuffixKeepsMatch`.
- **A missing `url` field raises.** A POST without it passes `None` to
  `re.match`, which raises a TypeError. Flask then answers with a server
  error instead of the invalid-URL banner.
- **The emptiness test is always passed.** `if video_id:` also rejects an
  empty string, but a returned id always has eleven characters.

## Model

| member | source | states |
|---|---|---|
| `PyStr.LStrip` | app.py:29 | definition of `lstrip()`: drops leading whitespace one character at a time; characterised by `PyStr.LStripShape` and `PyStr.LStripSpaces` |
| `PyStr.RStrip` | app.py:29 | definition of `rstrip()`: drops trailing whitespace; characterised by `PyStr.RStripShape` and `PyStr.RStripSpaces` |
| `PyStr.Strip` | app.py:29 | `strip()`: the result has no whitespace at either end. It is a contiguous slice of the input, and only whitespace lies outside it |
| `PyStr.StripUnique` | app.py:29 | whatever sits between two whitespace-only strings, with no whitespace at its own ends, is exactly what `strip()` returns |
| `PyStr.StripTrimmed` | app.py:37 | `strip()` leaves a string with no whitespace at its ends unchanged; in particular a second `strip()` changes nothing |
| `PyStr.LStripShape` | app.py:29 | stripping whitespace on the left removes only whitespace, and the result starts with a non-whitespace character or is empty |
| `PyStr.RStripShape` | app.py:29 | the same on the right |
| `PyStr.LStripSpaces` | app.py:29 | a whitespace prefix is removed exactly, up to the first non-whitespace character |
| `PyStr.RStripSpaces` | app.py:29 | a whitespace suffix is removed exactly |
| `PyStr.Split` | app.py:25 | `split` gives at least one piece, and the first piece is a prefix of the string |
| `PyStr.Join` | app.py:49 | definition of `sep.join(pieces)`; characterised by `PyStr.JoinSplit`, `PyStr.JoinSnoc` and `PyStr.SplitJoinThen` |
| `PyStr.JoinSplit` | app.py:25 | joining the pieces of a split with the separator gives back the original string |
| `PyStr.SplitPiecesFree` | app.py:25 | no piece of a split contains the separator |
| `PyStr.SplitAbsent` | app.py:25-27 | without an occurrence of the separator, the only piece is the whole string |
| `PyStr.SplitAtFirst` | app.py:25 | the split cuts at the leftmost occurrence and carries on with the rest after it |
| `PyStr.SplitOccurs` | app.py:25-27 | one occurrence of the separator gives at least two pieces |
| `PyStr.SplitSingleIff` | app.py:25-27 | exactly one piece comes back if and only if the separator does not occur |
| `PyStr.SplitCharCount` | app.py:32 | splitting on one character gives one piece more than the number of copies of that character |
| `PyStr.SplitCharFree` | app.py:32 | after a split on one character, no piece contains that character |
| `PyStr.SplitFree` | app.py:49-52 | a string without the separator character splits into itself alone |
| `PyStr.SplitAfterPiece` | app.py:49 | a first piece without the separator character is cut off at the separator that follows it |
| `PyStr.SplitJoinStep` | app.py:49 | with two or more pieces, the first of which holds no separator character, splitting the joined text (then the separator and a tail) cuts off the first piece and carries on with the joined rest |
| `PyStr.SplitJoinThen` | app.py:49-52 | splitting lines joined by `\n`, then `\n` and a tail, gives back the lines followed by the tail's own lines |
| `PyStr.JoinSnoc` | app.py:49-52 | joining one more piece adds the separator and then that piece |
| `PyStr.FirstFrom` | app.py:25 | gives the leftmost occurrence at or after a position, given that one occurs further on |
| `PyStr.RemoveAll` | app.py:29-37 | definition of `s.replace(t, "")` as one left-to-right pass; characterised by `PyStr.RemoveAllJoinsPieces`, `PyStr.RemoveAllAbsent` and `PyStr.RemoveAllAtFirst` |
| `PyStr.RemoveAllJoinsPieces` | app.py:29 | `s.replace(t, "")` equals `"".join(s.split(t))` |
| `PyStr.RemoveAllAbsent` | app.py:37 | removing a substring that does not occur changes nothing |
| `PyStr.RemoveAllAtFirst` | app.py:29 | removal drops the leftmost occurrence and carries on with the text after it |
| `ResponseFormatter.Formatted` | app.py:23-43 | the specification of `format_summary` as a value; `ResponseFormatter.FormatSummary` is proved to compute it, and `ResponseFormatter.FormattedShape`, `ResponseFormatter.SingleMarker` and the two fallback lemmas characterise it |
| `ResponseFormatter.PointOf` | app.py:34-38 | what one loop iteration appends for a fragment; characterised by `ResponseFormatter.PointOfFree` and `ResponseFormatter.KeyPointsReference` |
| `ResponseFormatter.FormatSummary` | app.py:23-43 | the loop over the fragments collects exactly the key points of the specification `Formatted`. Every key point is non-empty, has no whitespace at its ends and contains no `*` |
| `ResponseFormatter.KeyPointsOf` | app.py:31-38 | after visiting n fragments the loop has collected at most n points |
| `ResponseFormatter.KeyPointsAppend` | app.py:31-38 | the points of two runs of fragments are the points of the first run followed by those of the second |
| `ResponseFormatter.NonBlankStripped` | app.py:34-38 | the reference reading has only non-empty points with no whitespace at their ends |
| `ResponseFormatter.KeyPointsReference` | app.py:31-38 | on fragments without `*`, the loop's points are exactly the non-blank stripped fragments, in order. Removing `**` is then a no-op |
| `ResponseFormatter.StripFree` | app.py:34 | stripping does not introduce a character |
| `ResponseFormatter.PointOfFree` | app.py:34-38 | for a fragment without `*`, one iteration appends its stripped text if that is non-empty, and nothing otherwise |
| `ResponseFormatter.NonBlankStrippedFree` | app.py:34-38 | the reference reading introduces no `*` |
| `ResponseFormatter.FragmentsFree` | app.py:32 | no fragment after a split on `*` contains `*` |
| `ResponseFormatter.FormattedShape` | app.py:23-43 | every key point is non-empty, has no whitespace at its ends and contains no `*` |
| `ResponseFormatter.FallbackWithoutMarker` | app.py:25-27 | without the marker, the raw text is the summary and there are no key points |
| `ResponseFormatter.FallbackWithRepeatedMarker` | app.py:25-27 | two non-overlapping markers also give the raw text back, with no key points |
| `ResponseFormatter.SingleMarker` | app.py:25-38 | with exactly one marker: the summary is the text before it, with the label removed and then stripped; the key points are the non-blank stripped fragments after it that follow a `*` (each runs to the next `*` or to the end of the text), at most one per `*` |
| `FormatterExamples.OverlappingMarkersExample` | app.py:25-27 | a text holding the marker at 0 and again at 13 (overlapping) is not returned as the fallback; its summary is empty |
| `FormatterExamples.SummaryMayHoldMarkerExample` | app.py:29 | the text before the marker does not contain the marker, yet after the label is removed the summary is exactly the marker |
| `FormatterExamples.GluedMarkerFirst` | app.py:25 | in that text, no marker starts before the real one |
| `FormatterExamples.GluedRemoval` | app.py:29 | in that text, removing the label joins the pieces around it into the marker |
| `UrlParser.Matches` | app.py:16-18 | the pattern read declaratively: eight texts, one per part, drawn from that part's alternatives, whose concatenation is a prefix of the URL; `UrlParser.MatchSound` and `UrlParser.MatchComplete` tie the search to it |
| `UrlParser.Match` | app.py:20 | `re.match` as the backtracking search from the start of the URL; sound and complete by `UrlParser.MatchSound` and `UrlParser.MatchComplete` |
| `UrlParser.MatchParts` | app.py:16-20 | the backtracking over six leading parts, alternatives in the engine's order, then group 5 and the id; the parts are a parameter, and `Match` passes the pattern's own. Characterised by `UrlParser.MatchPartsSound` and `UrlParser.MatchPartsComplete` |
| `UrlParser.MatchPath` | app.py:18 | group 5 (literals, then `.+\?v=`, then the empty alternative) followed by the id; characterised by `UrlParser.MatchPathSound` and `UrlParser.MatchPathComplete` |
| `UrlParser.PathLiteral` | app.py:18 | the literal alternatives of group 5 in order; characterised by `UrlParser.PathLiteralSound` and `UrlParser.PathLiteralComplete` |
| `UrlParser.GreedyQuery` | app.py:18 | `.+\?v=` trying the longest `.+` first, each length followed by `?v=` and the id (`QueryIdAt`); characterised by `UrlParser.GreedyQuerySound`, `UrlParser.GreedyQueryComplete` and `UrlParser.GreedyQueryLongest` |
| `UrlParser.MatchId` | app.py:18 | definition: `[^&=%\?]{11}` at a position; characterised by `UrlParser.MatchPathSound` and by the `IsId` ensures of `UrlParser.ExtractVideoId` |
| `UrlParser.ExtractVideoId` | app.py:15-21 | a returned id is eleven characters, none of them `&`, `=`, `%` or `?` |
| `UrlParser.DotRun` | app.py:18 | `.` extends over the maximal run of characters that are not newlines |
| `UrlParser.ExtractSound` | app.py:15-21 | a returned id is the text of group 6 in some match of the pattern against a prefix of the URL |
| `UrlParser.ExtractComplete` | app.py:15-21 | if the pattern matches a prefix of the URL in any way, an id is returned |
| `UrlParser.ExtractNoneIff` | app.py:15-21 | None is returned if and only if no prefix of the URL matches the pattern |
| `UrlParser.MatchSound` | app.py:16-20 | every result of the search satisfies `Matches` |
| `UrlParser.MatchComplete` | app.py:16-20 | whenever some pieces satisfy `Matches`, the search succeeds |
| `UrlParser.MatchPartsSound` | app.py:16-20 | for any six leading parts, the backtracking returns only matches (`MatchesWith`) whose first pieces are the parts already matched |
| `UrlParser.AlternativeSound` | app.py:16-20 | trying one alternative of a part, then the later ones, returns only matches that extend the parts already matched |
| `UrlParser.MatchPartsComplete` | app.py:16-20 | for any six leading parts, the backtracking finds a match whenever one exists among the alternatives not yet tried |
| `UrlParser.FinishSound` | app.py:18-20 | after the six leading parts, the result is a match that extends them |
| `UrlParser.FinishComplete` | app.py:18-20 | after the six leading parts of a match, the search succeeds |
| `UrlParser.MatchPathSound` | app.py:18 | whatever group 5 and the id match lies at that position, is a valid group-5 text and a valid id |
| `UrlParser.MatchPathComplete` | app.py:18 | if a valid group-5 text and id lie at a position, matching there succeeds |
| `UrlParser.PathLiteralSound` | app.py:18 | a literal alternative matches only where it and an id lie |
| `UrlParser.PathLiteralComplete` | app.py:18 | a literal followed by an id is found, whatever alternatives come before it |
| `UrlParser.GreedyQuerySound` | app.py:18 | `.+\?v=` matches only a run of non-newlines ending in `?v=`, followed by an id |
| `UrlParser.GreedyQueryComplete` | app.py:18 | trying lengths from longest to shortest finds such a run whenever one exists |
| `UrlParser.GreedyQueryLongest` | app.py:18 | `.+` is greedy: a result ends at the last position within reach where `?v=` is followed by an id, with no such position between it and the reach of `.`; None only when there is no such position at all |
| `UrlParser.GreedyWithoutQuery` | app.py:18 | with no `?` left, `.+\?v=` never matches |
| `UrlParser.GreedyTooLong` | app.py:18 | a `.+` too long to leave room for `?v=` and an id is passed over |
| `UrlParser.MatchLength` | app.py:16-18 | a URL with a match has at least 20 characters |
| `UrlParser.ShortTextHasNoId` | app.py:15-21 | a text shorter than 20 characters gives None |
| `UrlParser.NotAUrl` | app.py:15-21 | `not a url` gives None |
| `UrlParser.SuffixKeepsMatch` | app.py:20 | a URL that gives an id still gives one, whatever is appended |
| `UrlParser.WatchUrl` | app.py:15-21 | `https://www.youtube.com/watch?v=` followed by an id, then anything, gives that id |
| `UrlParser.WatchUrlExample` | app.py:15-21 | `https://www.youtube.com/watch?v=dQw4w9WgXcQ` gives `dQw4w9WgXcQ` |
| `UrlParser.ShortUrl` | app.py:16-20 | on `https://youtu.be/...` the search backs out of `www.`, `youtube` and `com`, then returns the id that `MatchPath` finds at position 17 |
| `UrlParser.BareIdPath` | app.py:18 | right after the slash, any id with nothing after it is captured, through the empty alternative when a literal cannot be followed by an id (so `v/abcdefghi` is itself the id) |
| `UrlParser.QueryAfterIdPath` | app.py:18 | an id-like run, then `?v=`, then a second id: `.+\?v=` takes the first run, and the second id is captured |
| `UrlParser.ShortUrlId` | app.py:15-21 | `https://youtu.be/` followed by any id gives that id |
| `UrlParser.ShortUrlExample` | app.py:15-21 | `https://youtu.be/dQw4w9WgXcQ` gives `dQw4w9WgXcQ` |
| `UrlParser.LaterQueryWins` | app.py:18-21 | `https://youtu.be/` + id1 gives id1, while `https://youtu.be/` + id1 + `?v=` + id2 gives id2 |
| `UrlParser.LastQueryPath` | app.py:18 | after one character, `?v=`, an id-like run, `?v=` and a second id, group 5 runs to the second `?v=` and the second id is captured |
| `UrlParser.GreedyPrefersLastQuery` | app.py:18-21 | `https://youtu.be/` + c + `?v=` + id1 + `?v=` + id2 gives id2, not the id1 a lazy `.+` would give |
| `UrlParser.TwoQueriesExample` | app.py:15-21 | `https://youtu.be/x?v=AAAAAAAAAAA?v=BBBBBBBBBBB` gives `BBBBBBBBBBB` |
| `RequestHandler.GetSummary` | app.py:45-57 | whatever the services do, every key point is non-empty, has no whitespace at its ends and contains no `*` |
| `RequestHandler.SummaryOnFailure` | app.py:47-57 | a failed fetch, a failed model call, or a response without a candidate or without a part (`FirstText`, the IndexError of app.py:54) each give that exception's message as the summary, with no key points |
| `RequestHandler.SummaryOnSuccess` | app.py:47-55 | when every step succeeds, the result is the formatter's output on `candidates[0].parts[0]`, the text `FirstText` reads |
| `RequestHandler.SummaryDependsOnAnswers` | app.py:45-57 | the result depends on the services only through what they return for this video and this prompt |
| `RequestHandler.TranscriptText` | app.py:49 | definition: the entries' texts (`Texts`) joined by `\n`; characterised by `RequestHandler.PromptLines` |
| `RequestHandler.Prompt` | app.py:52 | definition: the transcript, `\n`, then the instruction; characterised by `RequestHandler.PromptLines` |
| `RequestHandler.PromptLines` | app.py:49-52 | the prompt's lines are the entries' texts (`Texts`), one per entry (one empty line for an empty transcript), then the instruction as one line, provided no entry spans lines |
| `RequestHandler.InstructionLine` | app.py:52 | the instruction holds no newline, so it is a single line of the prompt |
| `RequestHandler.Index` | app.py:59-71 | the handler raises exactly on a POST without `url`. An error banner is always "Invalid YouTube URL" and comes with no other variable |
| `RequestHandler.IndexGet` | app.py:71 | a GET renders the page with no variables |
| `RequestHandler.IndexInvalidUrl` | app.py:61-70 | a POST whose URL has no matching prefix renders only the error, whatever the services would return |
| `RequestHandler.IndexValidUrl` | app.py:61-69 | a POST whose URL matches renders the extracted id together with that id's summary and key points. The id is eleven characters, captured by group 6 of some match |
| `RequestHandler.IndexErrorIff` | app.py:63-70 | a POST shows the error banner if and only if no prefix of its URL matches |
| `RequestHandler.WatchUrlTranscriptFailure` | app.py:45-69 | end to end: a canonical watch link whose transcript cannot be fetched shows the id, the failure's message and no key points |

## Left out

- Flask itself is not modelled: routing, the `methods` list, request parsing and template rendering. A request is its method (GET or POST) and its form; a page is the set of variables passed to `index.html`.
- Loading the environment and configuring the Gemini client (app.py:8-12) are configuration, not behaviour.
- Writing `templates/index.html` at import time (app.py:74-154) and `app.run` are file I/O and server start-up.
- The transcript service and the model are network calls. They are parameters: the transcript service of type `string -> Outcome<seq<Segment>>` (video id to entries), the model of type `(string, string) -> Outcome<ModelResponse>` (model name and prompt). Their failures are represented only by `str(e)`.
- A transcript entry is modelled by its `text` only. Its start time and duration are never read.
- A model response is modelled as candidates, each a list of part texts. The other fields of the Gemini response are not read.
- `RequestHandler.IndexErrorMessage`: the message of the IndexError from `candidates[0]` or `parts[0]` is fixed to Python's list message. The message of the real response containers is not modelled.
- The exception raised when an entry has no `text` key, and the `str(e)` of the TypeError that a missing `url` field causes, are not modelled. The latter is a server error with no content.
- Python's handling of Unicode beyond code points (normalisation, surrogates) is not modelled. Strings are sequences of `char`.
- A worked example of `format_summary` on a complete model answer is not included, because evaluating long literal strings is too costly for the solver. `ResponseFormatter.SingleMarker` states the general case instead.
