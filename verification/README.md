# BeyondChats study companion: a Dafny model of its core logic

BeyondChats is a React/TypeScript study app. A student uploads PDF textbooks, chats about them,
takes AI-generated quizzes over a page range, and gets video recommendations. A dashboard tracks
progress. The app's own logic sits between the browser, pdf.js and the Gemini API. This project
models that logic as pure functions over immutable datatypes and proves what it promises:

- **Document text and page windows.** `pdf_text.dfy` assembles the page-tagged text. `page_window.dfy`
  and `window_facts.dfy` cut a quiz's context out of that text by page range.
- **The document registry.** `registry.dfy` covers add, remove, activate and the derived view of the
  active document.
- **Reading the model's replies.** `gemini.dfy` covers code-fence stripping, stamping generated
  questions, building grading tasks and coercing grading replies. It also covers the chat prompt and
  grounding sources.
- **Video-link verification.** `recommendations.dfy` reads YouTube ids out of links, with the
  regular-expression fallback. It then verifies them with an existence probe, filters them, and
  computes the view state of the recommendations page.
- **Session state machines.** `quiz.dfy` covers the quiz flow, `attempts.dfy` the attempt log in
  storage, `chat.dfy` the per-document chat transcript, and `dashboard.dfy` the summaries.

Supporting modules:

- `wrappers.dfy` holds `Option`/`Result`.
- `strings.dfy` holds JavaScript's `indexOf`, `substring`, `trim`, `includes`, `slice`,
  `split(c)[0]` and `join`. Strings are sequences of Unicode characters; where the app compares or
  cuts at a `length`, the model counts UTF-16 code units as JavaScript does.
- `numbers.dfy` holds a decimal `parseFloat` and division facts.
- `json.dfy` holds parsed JSON values with JavaScript truthiness.
- `storage.dfy` holds `localStorage` and a JSON codec.
- `types.dfy` holds the domain records.

Calls into code the app does not own are parameters:

- the Gemini model is a function from request to reply text, or `None` when the call fails;
- `JSON.parse` is a `Parser`, returning `None` where it throws;
- `new URL` is a `UrlParser`;
- the thumbnail `HEAD` request is a `Probe`;
- `JSON.stringify`/`JSON.parse` for stored lists is a `Codec`;
- pdf.js delivers each page's text items.

## Model

| member | source | states |
|---|---|---|
| Types.QuizQuestion.Type | types.ts:8-42 | the `type` tag is McqType, SaqType or LaqType exactly when the question is the MCQ, SAQ or LAQ variant; SAQ and LAQ carry the same payload |
| PdfText.ItemTexts | services/pdfService.ts:19 | one string per text item, a non-text item contributing "" |
| PdfText.PageTexts | services/pdfService.ts:16-19 | one text per page, in page order, each the page's joined items |
| PdfText.PageText | services/pdfService.ts:19 | a page with no items has text ""; a page of one item has that item's text; otherwise the length is the items' lengths plus one separating space between each pair |
| PdfText.PageTextSnoc | services/pdfService.ts:19 | a page's text is the text of all its items but the last, a space, and the last item's text |
| PdfText.PageTextConcat | services/pdfService.ts:19 | the text of two runs of items is the first run's text, a space, and the second run's text |
| Strings.JoinConcat | services/pdfService.ts:19 | `join` of two non-empty lists is the two joins with one separator between them |
| Strings.JoinLength | services/pdfService.ts:19 | joining k parts with a separator has the parts' total length plus k-1 separators |
| PdfText.BlocksSplit | services/pdfService.ts:16-20 | the page blocks of adjacent page ranges concatenate to the blocks of the joined range |
| PdfText.ProgressFacts | services/pdfService.ts:21 | `Math.round(i / n * 100)` lies in [0,100], never decreases in i, and is 100 at i = n |
| PdfText.ReportsFacts | services/pdfService.ts:21 | the m-th reported value is the rounded percentage of page m |
| PdfText.ExtractText | services/pdfService.ts:14-24 | the loop returns the blocks `[Page i]\n` + page text + `\n\n` for i = 1..n in order ("" for no pages) and one progress value per page, each in [0,100], non-decreasing, the last 100 |
| PageWindow.ClampedStart | components/QuizView.tsx:40 | the start page is raised to at least 1 and is otherwise unchanged |
| PageWindow.ClampedEnd | components/QuizView.tsx:41 | the end page is lowered to at most the page count and is otherwise unchanged |
| PageWindow.SelectPages | components/QuizView.tsx:40-53 | refused exactly when the clamped start exceeds the clamped end, so always for zero pages; otherwise a substring no longer than the text |
| PageWindow.QuizContext | components/QuizView.tsx:35-58 | no text is refused; a range refused by the window is refused, and a cleared page box never is; a window with fewer than 100 UTF-16 code units after trimming is refused; a window with at least 100 is accepted as it is, untrimmed |
| PageWindow.MarkerOf | components/QuizView.tsx:48 | for a page number of at least 0 the marker is the page marker `[Page k]` |
| PageWindow.StartIndex | components/QuizView.tsx:47-49 | the start search gives -1 or a position within the text |
| PageWindow.EndIndex | components/QuizView.tsx:48-51 | the end of the window is a position within the text, never -1 |
| PageWindow.SelectInput | components/QuizView.tsx:40-53 | page boxes as typed (`parseInt` of a cleared box is NaN): two numbers give the window of the clamped range; a cleared box is never refused, because NaN fails the `start > end` test, and gives a substring no longer than the text; refused exactly when both are numbers whose clamped start exceeds the clamped end |
| PageWindow.NanMarkerMissing | components/QuizView.tsx:49-50 | in assembled text the marker `[Page NaN]` is never found |
| PageWindow.NonNumericNotInBlocks | services/pdfService.ts:20 | no position inside the first m blocks starts a tag `[Page ` followed by a non-digit |
| PageWindow.NonNumericMissing | components/QuizView.tsx:49-50 | in assembled text the search for any tag `[Page ` followed by a non-digit finds nothing |
| PageWindow.NegativeMarkerMissing | components/QuizView.tsx:48-50 | the marker of a negative page, `[Page -k]`, is never found in assembled text |
| PageWindow.MarkerIndex | services/pdfService.ts:20 | in text assembled from pages with no "[Page " inside, the first `[Page k]` is where block k starts, and `[Page n+1]` is absent |
| PageWindow.MarkerPositions | services/pdfService.ts:20 | any page marker inside the first m blocks names one of pages 1..m |
| PageWindow.MarkerInBlock | services/pdfService.ts:20 | the only page marker that can start inside block k is `[Page k]`, at its start |
| PageWindow.MarkerFound | components/QuizView.tsx:49 | for a page k of the document, the search for `[Page k]` finds the start of page k's block |
| PageWindow.MarkerAbsent | components/QuizView.tsx:47-50 | in a document of n marker-free pages the marker of page 0, or of any page past n, is never found |
| PageWindow.MarkerMissing | components/QuizView.tsx:50 | the search for `[Page n+1]` past the last page finds nothing |
| PageWindow.BlocksSlice | components/QuizView.tsx:49-53 | the text between the start of block start and the end of block end is exactly those pages' blocks, the end being the text's end for the last page |
| PageWindow.WindowRoundTrip | components/QuizView.tsx:47-53 | for 1 <= start <= end <= n, the window of assembled text is exactly the blocks of pages start..end |
| PageWindow.WindowEndOfDocument | components/QuizView.tsx:48-51 | the window ends where `[Page end+1]` starts, or at the end of the text for the last page |
| PageWindow.SelectPagesIs | components/QuizView.tsx:49-53 | the window is `substring` between the two marker searches, the end defaulting to the text length |
| WindowFacts.WindowOfDocument | components/QuizView.tsx:40-53 | any requested range that survives clamping gives the blocks of the clamped pages |
| WindowFacts.QuizContextOfDocument | components/QuizView.tsx:40-58 | over a document and a range that survives clamping, the quiz context is the clamped pages' blocks when they hold at least 100 trimmed code units, and too little content otherwise |
| WindowFacts.SameClampedRange | components/QuizView.tsx:40-41 | only the clamped range decides the window |
| WindowFacts.AdjacentWindows | components/QuizView.tsx:47-53 | the window of a joined range is the window of the first part followed by that of the second |
| WindowFacts.ClearedBothBoxes | components/QuizView.tsx:40-53 | with both page boxes cleared the window is the whole document |
| WindowFacts.ClearedStartBox | components/QuizView.tsx:40-53 | for a clamped end of at least 1: with the start box cleared the search finds nothing, -1 reads as 0, and the window is pages 1 to the clamped end |
| WindowFacts.ClearedStartBoxEndZero | components/QuizView.tsx:40-53 | for a clamped end of 0: with the start box cleared the end marker `[Page 1]` opens the text, so the window is empty |
| WindowFacts.ClearedStartBoxEndNegative | components/QuizView.tsx:40-53 | for a clamped end below 0: with the start box cleared the end marker `[Page 0]` or `[Page -k]` is missing, so the window is the whole document |
| WindowFacts.ClearedEndBox | components/QuizView.tsx:40-53 | for a clamped start page m+1 at most n: with the end box cleared the window runs from page m+1 to the end of the document |
| WindowFacts.ClearedEndBoxStartPast | components/QuizView.tsx:40-53 | for a clamped start past the last page: with the end box cleared the start marker is missing, so `substring(-1, length)` is the whole document |
| WindowFacts.EndBoxCut | components/QuizView.tsx:47-53 | with the end box cleared the window is cut where the start page's block begins and runs to the text's end |
| WindowFacts.SuffixOfDocument | services/pdfService.ts:20 | cutting assembled text where page m+1 begins leaves the blocks of pages m+1 onwards |
| WindowFacts.MissingMarkersGiveWholeText | components/QuizView.tsx:49-53 | with neither marker present, the start index -1 reads as 0 and the window is the whole text, not an error |
| Strings.Substring | components/QuizView.tsx:53 | `substring` clamps both indices to [0, length] (a negative one to 0, one past the end to the length) and swaps them when reversed; the result is the slice between the clamped indices |
| Strings.IndexOf | components/QuizView.tsx:49-50 | -1 exactly when the pattern does not occur; otherwise the first position where it occurs |
| Strings.Trim | components/QuizView.tsx:55 | the result has no white space at either end, is no longer than the input, and is empty exactly when the input is all white space |
| Strings.TrimIsSlice | components/QuizView.tsx:55 | the result is the slice of the input left between a white prefix and a white suffix |
| Strings.Utf16Length | components/QuizView.tsx:55 | JavaScript's `length`: one code unit per character of the Basic Multilingual Plane, two for any other, so between the character count and twice it |
| Strings.Utf16LengthConcat | components/QuizView.tsx:55 | the code-unit length of a concatenation is the sum of the lengths |
| Strings.Utf16LengthBmp | components/RecommendationsView.tsx:31 | on text of the Basic Multilingual Plane the code-unit length is the character count |
| Strings.PrefixUnits | components/ChatView.tsx:80 | `substring(0, n)`: the longest prefix of at most n code units; the next character would exceed n |
| Strings.PrefixUnitsShort | components/ChatView.tsx:80 | text of at most n code units is kept whole |
| Strings.PrefixUnitsBmp | components/ChatView.tsx:80 | on text of the Basic Multilingual Plane the cut is the character `substring(0, n)` |
| Strings.BeforeFirst | components/RecommendationsView.tsx:15 | `split(c)[0]` is a prefix without c, followed in the input by c unless it is the whole input |
| Storage.GetItem | hooks/useQuizAttempts.ts:12 | `getItem` yields a value exactly when the key is stored, and then the stored value |
| Storage.SetItem | hooks/useQuizAttempts.ts:25 | `setItem` makes the key read as the value and leaves every other key as it was |
| Storage.RemoveItem | hooks/useQuizAttempts.ts:31 | `removeItem` makes the key absent and leaves every other key as it was |
| Json.Member | services/geminiService.ts:169-181 | a property read yields a value exactly when the value is an object with that key |
| Registry.Find | contexts/PdfContext.tsx:96 | `Map.get` finds nothing exactly when no document has the name, else a document with that name |
| Registry.Without | contexts/PdfContext.tsx:76-77 | `Map.delete` keeps exactly the documents with other names, the list never growing |
| Registry.WithoutConcat | contexts/PdfContext.tsx:76-77 | deletion distributes over concatenation, so the rest keep their insertion order |
| Registry.AddPdf | contexts/PdfContext.tsx:34-72 | a loaded name only becomes active; a successful extraction appends {file, name, text, pages} and activates it; a failed one keeps documents and active name; both end with loading false and progress 100 |
| Registry.Successor | contexts/PdfContext.tsx:80 | the first remaining key, an empty name counting as none |
| Registry.Remove | contexts/PdfContext.tsx:74-86 | removes only that name; removing the active name activates the first remaining key; otherwise the active name stays |
| Registry.Activate | contexts/PdfContext.tsx:88-92 | only a loaded name becomes active; an unknown name changes nothing |
| Registry.ViewOf | contexts/PdfContext.tsx:94-111 | the view lists the documents in insertion order and shows the active document's file, text, name and pages, or no file, "", "" and 0 |
| Registry.RemoveAbsent | contexts/PdfContext.tsx:75-77 | removing an absent name changes nothing |
| Registry.WithoutAbsent | contexts/PdfContext.tsx:76-77 | deleting an absent key leaves the documents identical |
| Registry.WithoutDistinct | contexts/PdfContext.tsx:76-77 | deletion keeps names distinct |
| Registry.WithoutHasName | contexts/PdfContext.tsx:76-77 | after deletion a name is present exactly when it was present and is not the deleted one |
| Registry.AddPdfValid | contexts/PdfContext.tsx:34-72 | adding keeps names distinct and the active name a key |
| Registry.RemoveValid | contexts/PdfContext.tsx:74-86 | removing keeps names distinct and the active name a key |
| Registry.ActivateValid | contexts/PdfContext.tsx:88-92 | activating keeps the active name a key |
| Registry.AddThenFind | contexts/PdfContext.tsx:50-63 | after a successful add of a new name, the active document is the new one with the assembled text and page count; an empty name, being falsy, leaves no active document |
| Registry.FindLast | contexts/PdfContext.tsx:57-61 | a document stored under a new name is what the lookup returns for it |
| Gemini.StripFences | services/geminiService.ts:156-158 | the cleaned reply is no longer than the trimmed reply |
| Gemini.FencedRoundTrip | services/geminiService.ts:156-158 | a body wrapped in an opening json fence, white space and a closing fence comes back exactly |
| Gemini.FencedIsTrimmed | services/geminiService.ts:156 | a fenced reply is unchanged by trimming |
| Gemini.OpenFenceOnly | services/geminiService.ts:156-158 | an opening json fence without a closing one: the body after the fence and its white space is kept |
| Gemini.CloseFenceOnly | services/geminiService.ts:156-158 | a closing fence without an opening one is removed on its own |
| Gemini.UnfencedIsTrim | services/geminiService.ts:261-263 | a reply without fences is only trimmed |
| Gemini.Stamp | services/geminiService.ts:88 | a generated element becomes a question of the requested type with its text, topic and explanation |
| Gemini.Text | services/geminiService.ts:88 | a string property is read as itself; a missing or non-string one as "" |
| Gemini.DecodeOptions | services/geminiService.ts:88 | an options array gives one option per element, in order; anything else gives no options |
| Gemini.StampRoundTrip | services/geminiService.ts:88 | a question laid out by the response schema and stamped with its own type is itself |
| Gemini.GenerateQuiz | services/geminiService.ts:84-93 | succeeds exactly when the trimmed reply parses to an array; yields one question per element, each with the requested type; any failure is the fixed quiz error |
| Gemini.GenerateQuizRoundTrip | services/geminiService.ts:84-88 | questions of the requested type sent back as a schema array are exactly what the quiz receives |
| Gemini.FirstCorrect | services/geminiService.ts:104 | no answer exactly when no option is correct; otherwise the text of the first correct option |
| Gemini.CorrectAnswer | services/geminiService.ts:102-107 | an MCQ's answer is its first correct option; an SAQ's or LAQ's is its stored answer |
| Gemini.AnswerOrDefault | services/geminiService.ts:112 | a missing or empty answer is sent as "Not answered" |
| Gemini.BuildTasks | services/geminiService.ts:101-114 | one task per question, in order, with its type, text, canonical answer and the user's answer or "Not answered" |
| Gemini.CoerceScore | services/geminiService.ts:169-177 | a missing or null score is 0; a value with a numeric prefix is that number, unclamped; any other present value (NaN to `parseFloat`) is 0 |
| Gemini.CoerceFeedback | services/geminiService.ts:181 | string feedback is kept; anything else becomes "No feedback provided." |
| Gemini.CoerceRoundTrip | services/geminiService.ts:168-183 | a schema-shaped grading item reads back as the result it encodes, any score included |
| Gemini.ScoreOfString | services/geminiService.ts:172-176 | a string score is read by `parseFloat`, NaN reading as 0 |
| Gemini.CoerceStringScore | services/geminiService.ts:172-176 | a whole-number string score is that number; a string without digits is 0 |
| Gemini.ValidateGrading | services/geminiService.ts:160-185 | accepted exactly when the parsed reply is an array of one item per question; each result is its item coerced |
| Gemini.GradeAnswers | services/geminiService.ts:96-195 | a success has one result per question; a failed model call or any validation failure is the fixed grading error; a reply is exactly the validation of its fence-stripped, parsed text against the question count |
| Gemini.GradeAnswersRoundTrip | services/geminiService.ts:156-185 | results sent back one per question in the schema's layout are exactly the graded results |
| Gemini.ValidateRoundTrip | services/geminiService.ts:163-185 | validation reads schema-shaped results back as themselves |
| Gemini.ChatPrompt | services/geminiService.ts:217 | the prompt is the last message's text; an empty history has none |
| Gemini.OrElse | services/geminiService.ts:276-277 | `v \|\| fallback`: a non-empty value, or the fallback |
| Gemini.Sources | services/geminiService.ts:273-279 | no metadata gives no sources; otherwise one source per chunk, in order, never with an empty uri or title |
| Gemini.SourceDefaults | services/geminiService.ts:276-277 | a chunk without a page gets uri '#' and title 'Unknown Source'; the uri is '#' exactly when it is missing, empty or '#' |
| Gemini.RecommendationContext | services/geminiService.ts:249 | `substring(0, 5000)`: the longest prefix of the context of at most 5000 UTF-16 code units; the whole context when it fits; the first 5000 characters on Basic-Multilingual-Plane text |
| Gemini.GetRecommendations | services/geminiService.ts:261-286 | succeeds exactly when the fence-stripped reply parses; it carries the parsed value and the sources; a failure is the fixed recommendation error |
| Numbers.ParseFloatOfNat | services/geminiService.ts:173 | `parseFloat` of a whole number's decimal form is that number |
| Numbers.ParseFloatNoDigits | services/geminiService.ts:173-174 | text without a digit is NaN to `parseFloat` |
| Recommendations.MarkerLength | components/RecommendationsView.tsx:28 | a marker alternative that matches at a position ends with '/' or '=' |
| Recommendations.LineEnd | components/RecommendationsView.tsx:28 | `^.*` covers exactly the characters before the first line terminator |
| Recommendations.RightmostMarker | components/RecommendationsView.tsx:28 | the greedy prefix leaves the rightmost marker position of the first line; none exactly when no marker starts there |
| Recommendations.RegexId | components/RecommendationsView.tsx:27-33 | a fallback id has exactly 11 code units, none of them '#', '&' or '?'; with no marker in the first line there is no id; otherwise the match is decided after the rightmost marker of the first line |
| Recommendations.IdAfter | components/RecommendationsView.tsx:28-31 | after a chosen marker the id is the capture that follows it when that is 11 code units long, and none otherwise |
| Recommendations.Capture | components/RecommendationsView.tsx:28 | `([^#\&\?]*)`: the slice from the marker's end up to the first '#', '&' or '?', or to the end |
| Recommendations.WatchLinkId | components/RecommendationsView.tsx:28-31 | the fallback reads a one-line `...watch?v=<id>` link, the id 11 characters of the Basic Multilingual Plane, as that id |
| Recommendations.YouTubeIdOfWatchLink | components/RecommendationsView.tsx:10-34 | such a watch link gives its id whether it is read through `new URL` on a youtube.com host or through the fallback |
| Recommendations.YouTubeId | components/RecommendationsView.tsx:10-34 | an absent or empty link has no id; a youtu.be link gives its path without the leading '/' cut at '?', with no length check; a youtube.com link with a non-empty `v` gives `v`; every other link, parseable or not, gets the regular-expression fallback |
| Recommendations.LinkOf | components/RecommendationsView.tsx:90 | reading a null element throws; an absent or falsy link gives no id |
| Recommendations.Verify | components/RecommendationsView.tsx:89-93 | an element is valid exactly when its id exists, is non-empty and passes the probe; no id means no probe |
| Recommendations.VerifyAll | components/RecommendationsView.tsx:89-95 | fails exactly when some element's link cannot be read; otherwise one verified item per element, in element order |
| Recommendations.KeepValid | components/RecommendationsView.tsx:96 | keeps exactly the valid items, never more items than given |
| Recommendations.KeepValidConcat | components/RecommendationsView.tsx:96 | the filter distributes over concatenation, so order is kept |
| Recommendations.KeepValidAll | components/RecommendationsView.tsx:96 | the filter keeps everything exactly when everything is valid |
| Recommendations.KeepValidNone | components/RecommendationsView.tsx:96-104 | the filter keeps nothing exactly when nothing is valid |
| Recommendations.Show | components/RecommendationsView.tsx:80-110 | every result shown is valid; not-found is set exactly when nothing is shown; a result that is not a non-empty array shows nothing and sets not-found |
| Recommendations.Generate | components/RecommendationsView.tsx:66-114 | without document text nothing changes and the model is not asked; otherwise the model is asked with the context cut to 5000 code units (services/geminiService.ts:249); a failed request shows nothing and sets not-found; otherwise the parsed result is shown |
| Recommendations.ShowsVerified | components/RecommendationsView.tsx:89-104 | the list shown is the verified list filtered, in order, with the sources; not-found exactly when no item was verified |
| Recommendations.EmptyResultNeedsNoProbe | components/RecommendationsView.tsx:80-85 | an empty result sets not-found whatever the probe, so no probe is made |
| Quiz.Start | components/QuizView.tsx:60-74 | after a successful generation there is one "" answer per question, index 0, score 0, no results and phase Taking; any failure leaves the state as it was |
| Quiz.Generate | components/QuizView.tsx:34-75 | page boxes as typed, a cleared box being NaN; no document text, a numeric range refused by clamping, or a window under 100 trimmed code units leaves the state unchanged; a window of at least 100 starts generation on that window |
| Quiz.GenerateStartsTaking | components/QuizView.tsx:62-68 | a generated quiz with questions is takeable |
| Quiz.EmptyQuizIsTaken | components/QuizView.tsx:62-68 | a reply of an empty array still moves to the Taking phase with no questions, a state that is not takeable and where the view reads `quizQuestions[0]` (lines 256-262) |
| Quiz.SetAnswer | components/QuizView.tsx:77-81 | only the entry at the index becomes the answer; all other entries are unchanged |
| Quiz.AnswerChange | components/QuizView.tsx:77-81 | the change touches only the answers |
| Quiz.Prev | components/QuizView.tsx:288 | the index moves down by one but not below 0; nothing else changes |
| Quiz.Next | components/QuizView.tsx:296 | the index moves up by one but not past the last question; nothing else changes |
| Quiz.TakingPreserved | components/QuizView.tsx:77-81 | editing and moving keep the index within [0, len-1] and one answer per question; an edit changes only the current answer |
| Quiz.TotalScoreBounds | components/QuizView.tsx:89 | rubric scores sum to between 0 and the number of results |
| Quiz.TotalScoreConcat | components/QuizView.tsx:89 | the `reduce` total of two runs of results is the sum of their totals |
| Quiz.Submit | components/QuizView.tsx:83-116 | on success the score is the results' total, one attempt with questions, answers, score, question count and results is appended, and the phase becomes Result; on failure neither the state nor the log changes |
| Quiz.SubmitRecordsAttempt | components/QuizView.tsx:88-106 | a successful submission from a takeable quiz appends exactly one aligned attempt scored with its total and keeps the earlier attempts |
| Quiz.NewQuiz | components/QuizView.tsx:246 | starting again returns to the configuration; nothing else changes |
| Attempts.Load | hooks/useQuizAttempts.ts:10-19 | an absent, empty or unparseable stored value gives no attempts; otherwise the parsed list |
| Attempts.Open | hooks/useQuizAttempts.ts:8-19 | a session starts with the loaded list |
| Attempts.Add | hooks/useQuizAttempts.ts:21-27 | the attempt goes at the end, earlier ones unchanged, and the full new list is stored under "quizAttempts"; no other key changes |
| Attempts.Clear | hooks/useQuizAttempts.ts:29-32 | the list empties and the key is removed; no other key changes |
| Attempts.AddPersists | hooks/useQuizAttempts.ts:10-27 | after an add, a later session loads exactly the list the add produced |
| Attempts.ClearPersists | hooks/useQuizAttempts.ts:10-32 | after a clear, a later session loads nothing |
| Attempts.AddAll | hooks/useQuizAttempts.ts:21-27 | successive adds append the attempts in order after the earlier ones |
| Attempts.AddAllPersists | hooks/useQuizAttempts.ts:10-27 | after any non-empty run of adds, a later session loads the whole list |
| Chat.HistoryKey | components/ChatView.tsx:10 | the key is "chatHistory_" followed by the document name |
| Chat.HistoryKeyInjective | components/ChatView.tsx:10 | two documents share a key exactly when they have the same name |
| Chat.Load | components/ChatView.tsx:30-42 | no name, nothing stored, an empty stored value or an unparseable one gives an empty transcript; a stored value that decodes gives the decoded transcript |
| Chat.Persist | components/ChatView.tsx:44-56 | with a name, a non-empty transcript is stored under its key and an empty one removes the key; no other key changes |
| Chat.PersistThenLoad | components/ChatView.tsx:30-56 | what is persisted for a document is what a later visit loads |
| Chat.PersistIsolated | components/ChatView.tsx:44-56 | persisting one document's transcript leaves every other document's transcript as it was |
| Chat.Send | components/ChatView.tsx:70-77 | a white-space-only input or a pending reply changes nothing; otherwise one user message with the untrimmed input is appended, the input clears and a reply is pending |
| Chat.ChatContext | components/ChatView.tsx:80 | `substring(0, 20000)`: the longest prefix of the document text of at most 20000 UTF-16 code units; the whole text when it fits; the first 20000 characters on Basic-Multilingual-Plane text |
| Chat.Finish | components/ChatView.tsx:81-90 | one model message is appended, the reply or the fixed apology, and nothing is pending |
| Chat.Exchange | components/ChatView.tsx:70-91 | a send the guard refuses changes nothing |
| Chat.ExchangeAppendsTwo | components/ChatView.tsx:70-91 | an accepted send adds exactly the user's input and then the model's answer to it (or the apology) |
| Chat.Clear | components/ChatView.tsx:58-62 | with a name and confirmation the transcript empties; otherwise nothing changes |
| Chat.ClearForgets | components/ChatView.tsx:44-62 | a confirmed clear, once persisted, leaves nothing to load |
| Dashboard.RatioSum | components/DashboardView.tsx:13 | the sum of score ratios is a number exactly when no attempt has total 0 |
| Dashboard.RatioSumConcat | components/DashboardView.tsx:13 | the sum over two logs is a number exactly when both are, and is then the sum of the two |
| Dashboard.RatioSumSingle | components/DashboardView.tsx:13 | one attempt contributes `score / total`, and no number when its total is 0 |
| Dashboard.OverallScore | components/DashboardView.tsx:12-14 | 0 with no attempts; a number exactly when no attempt has total 0; that number times the attempt count is 100 times the sum of the ratios |
| Dashboard.OverallScoreUniform | components/DashboardView.tsx:12-14 | attempts all with ratio x score 100 x overall |
| Dashboard.RatioSumUniform | components/DashboardView.tsx:13 | n attempts all with ratio x sum to n x |
| Dashboard.OverallScoreBounds | components/DashboardView.tsx:12-14 | attempts scored within their totals give an overall score between 0 and 100 |
| Dashboard.AttemptContributions | components/DashboardView.tsx:17-20 | one contribution per question with its topic and the score of the result at its index, 0 when missing |
| Dashboard.Contributions | components/DashboardView.tsx:16-20 | every question of every attempt contributes exactly once |
| Dashboard.ContributionsConcat | components/DashboardView.tsx:16-20 | the contributions of two logs are the first log's followed by the second's |
| Dashboard.ContributionsSingle | components/DashboardView.tsx:16-20 | a log of one attempt contributes that attempt's questions, in order |
| Dashboard.Accumulate | components/DashboardView.tsx:21-27 | a new topic starts at zero; the topic's total grows by the score and its count by one; other topics are unchanged |
| Dashboard.TopicStats | components/DashboardView.tsx:16-28 | a topic is present exactly when it has a contribution, and holds the sum and the number of its contributions |
| Dashboard.AccumulateAsWritten | components/DashboardView.tsx:21-27 | as written, a topic named like an inherited object member adds no entry |
| Dashboard.TopicStatsAsWrittenDropsInherited | components/DashboardView.tsx:21-28 | as written, the statistics are the intended ones without the inherited names |
| Dashboard.ConstructorTopicIsLost | components/DashboardView.tsx:22-26 | one question on the topic "constructor" appears in the intended statistics but not in the computed ones |
| Dashboard.Performance | components/DashboardView.tsx:31-34 | each topic's percentage is total score / count × 100 |
| Dashboard.LogPerformance | components/DashboardView.tsx:16-34 | corrected aggregation (see Findings): the performance data lists exactly the topics some question has, each at the sum of its scores over its question count × 100 |
| Dashboard.Strengths | components/DashboardView.tsx:36 | exactly the topics at 75 percent or more |
| Dashboard.Weaknesses | components/DashboardView.tsx:37 | exactly the topics below 50 percent |
| Dashboard.StrengthsAndWeaknessesDisjoint | components/DashboardView.tsx:36-37 | no topic is both; both are among the topics |
| Dashboard.FullMarksIsStrength | components/DashboardView.tsx:21-36 | a topic with full marks on every question scores 100 percent and is a strength |
| Dashboard.Recent | components/DashboardView.tsx:39 | the five newest attempts (all of them when fewer), newest first: entry i is the i-th last attempt of the log |
| Dashboard.Reverse | components/DashboardView.tsx:39 | the newest-first copy holds the i-th last attempt at position i |
| Dashboard.RecentAfterAdd | components/DashboardView.tsx:39 | a newly added attempt heads the recent list, followed by the previous recent ones |
| Dashboard.AttemptPercent | components/DashboardView.tsx:88-94 | a percentage is shown exactly when the attempt has questions; it is score / total × 100, banded at 70 and 40 |

## Left out

- The Gemini calls, their prompts, schemas and system instructions (services/geminiService.ts:63-82, 116-154, 198-233, 236-259). The model is a parameter returning reply text or failing.
- `JSON.parse` is a `Parser` parameter. No JSON grammar is modelled.
- Loading and rendering with pdf.js, and `getPdfPageCount`. The text items of each page arrive as input. The page count is taken to be the number of pages delivered.
- `new URL` (WHATWG parsing) is a `UrlParser` parameter. The `fetch` `HEAD` probe is a `Probe` that is false where the request throws or is not ok.
- `Promise.all` is modelled as an in-order map. Completion order does not affect the result, so concurrency is left out.
- React mechanics:
  - the order of effects when the document changes (ChatView.tsx:30-56);
  - stale closures;
  - separate hook instances per view;
  - the loading-message timer and the automatic first fetch of recommendations;
  - toasts and the layout.
- `window.confirm` is a `confirmed` flag.
- The `isGenerating`/`isGrading` flags of the quiz view are left out. The `loading`/`progress` pair of the registry and `generating` of the recommendations view are modelled.
- The difficulty and question count only shape the prompt. The number of questions is whatever the reply holds.
- Numbers:
  - `parseFloat` is modelled on decimal text (sign, digits, optional fraction). Exponents, `Infinity` and hexadecimal are left out.
  - Scores are exact `real`s: floating-point rounding and `toFixed` formatting are left out.
  - Progress uses `Math.round` on exact rationals.
- Answers are strings. The `string[]` answer form is not produced anywhere in the source and is left out.
- Attempt ids (`toISOString`) and dates (`Date.now`) are opaque parameters.
- A stored attempt list or transcript that parses to something other than a list (for example `null`) is treated like a parse failure.
- Citations on chat messages, `PdfSource`, and the presentation-only components are not modelled: App.tsx, Sidebar.tsx, SourceSelector.tsx, PdfViewer.tsx, AttemptDetailModal.tsx and constants.ts.
- Dashboard.Strengths: the source returns topic lists in `Object.entries` order; the model returns sets, so the order is not stated.
- Dashboard.OverallScore: a log containing an attempt with total 0 yields `NaN` or an infinity in the source. The model says only that no number results.
- Recommendations.LinkOf: a link given as a JSON array is treated as throwing. In the source, `new URL` may first read its string form.
- Recommendations.Show: the source spreads each element into the shown item. The model shows a `Recommendation` record of title, description and link, read with "" for missing strings.
- Chat.ChatContext: when character 20000 would split a surrogate pair, JavaScript keeps the lone high surrogate, which a Dafny `char` cannot hold; the model stops one code unit short there.
- Gemini.RecommendationContext: the same lone-surrogate cut at code unit 5000 is not modelled, for the same reason.
- Gemini.Stamp: the source spreads the raw element and only sets `type`; the model reads text, topic, options, answer and explanation with defaults ("" and no options). A malformed element therefore becomes a well-formed question here, where the source would keep the raw value and could fail later, for example an MCQ without options when grading.
- Storage.SetItem: `localStorage.setItem` can throw when the storage quota is exceeded. The model always stores. In ChatView the exception is caught and nothing is stored; in useQuizAttempts it would escape the state update.
- Chat.Exchange: its own contract states only the guard. The reply content is stated by Chat.ExchangeAppendsTwo.

## Findings

| source | as written | input that shows it | evidently intended | confidence | as-written member | corrected member |
|---|---|---|---|---|---|---|
| components/DashboardView.tsx:21-28 | the per-topic `reduce` uses a plain `{}` accumulator and tests `!acc[topic]`, so a topic named like an inherited `Object.prototype` member is never given an own entry | one attempt with one question whose topic is "constructor" | every topic that has a question appears in the per-topic performance | not executed; high | Dashboard.TopicStatsAsWritten | Dashboard.TopicStats |
