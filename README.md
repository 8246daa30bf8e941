# Demos-Hub core, modelled in Dafny

Demos-Hub is a React single-page showcase of "AI agents". This project models
the parts of it that hold logic, not layout:

- **The financial-crime panel** (`FinancialGraph`, `FinancialInput`). This is the live transaction graph:
  - fifteen seed nodes and twenty seed links;
  - a stream timer that appends one node and one link per tick until the graph holds more than fifty nodes;
  - the "Network Risk" anomaly score, which is the rounded percentage of suspicious nodes;
  - the drag handlers that pin a node and warm the layout.

  The panel also validates the pasted transaction text (`handleAnalyze`):
  - an empty or all-white-space input is refused;
  - a non-blank line must contain a comma (CSV) or, once trimmed, match `[a-zA-Z0-9-_]+`;
  - the error line reports how many lines are rejected;
  - an accepted input starts a simulated analysis.
- **The flower-market vision panel** (`FlowerMarket`). It holds the uploaded image and the parsed answer. Its reply clean-up removes every "```json" and "```" marker and trims the result before JSON parsing.
- **The service layer** (`GeminiService`). This layer builds:
  - the requests sent to the hosted model;
  - the data-URL header strip (`split(',')[1] || input`);
  - the `analyzeData` prompt template;
  - the planner request.
- **The application store** (`AppStore`). It holds the theme toggle, the sidebar toggle, and the most-recent-first history capped at fifty entries.
- **`JsLib`**: the JavaScript built-ins these rely on, with their JavaScript semantics:
  - `String.prototype.trim` and its white-space set;
  - `split` on one character;
  - `Array.prototype.filter`;
  - decimal rendering of a count in a template literal.

React state that a component updates in place becomes a Dafny `class` whose methods change its fields: `AnalyzerPanel`, `FlowerPanel`, `TransactionGraph`, `Node` and `Store`. Pure computations become functions with lemmas. Randomness (`Math.random`), clock readings (`Date.now`) and the canvas width are parameters.

The same financial and flower-market code appears twice in the repository: once in `components/agents/` and once inlined in `components/Agents.tsx`. The two copies agree line for line in everything modelled here, so they are modelled once and both are cited.

## Model

| member | source | states |
|---|---|---|
| JsLib.Filter | components/agents/FinancialAgent.tsx:123-129 | the result keeps exactly the elements satisfying the predicate, each taken from the input, and is never longer |
| JsLib.FilterMultiset | components/agents/FinancialAgent.tsx:124-132 | each element satisfying the predicate survives exactly as often as it occurs in the input and no other element survives, so the reported `invalidLines.length` counts every rejected line with its repetitions |
| JsLib.FilterConcat | components/agents/FinancialAgent.tsx:123-129 | filtering a concatenation is the concatenation of the filtered parts |
| JsLib.FilterEmptyIff | components/agents/FinancialAgent.tsx:131 | a filter comes out empty exactly when no element satisfies the predicate |
| JsLib.TrimStart | components/agents/FinancialAgent.tsx:118 | the result is a suffix of the input, all that is dropped is white space, and it does not start with white space |
| JsLib.TrimEnd | components/agents/FinancialAgent.tsx:118 | the result is a prefix of the input, all that is dropped is white space, and it does not end with white space |
| JsLib.LeadingSpace | components/agents/FinancialAgent.tsx:127 | the count of leading white-space characters never exceeds the length |
| JsLib.Trim | components/agents/FinancialAgent.tsx:118 | the trimmed text is the slice of the input between its leading and trailing white space, its ends are not white space, and it is empty exactly when the input is all white space |
| JsLib.TrimIdentity | components/agents/FinancialAgent.tsx:127 | text without white space at either end is unchanged by trimming |
| JsLib.TrimIdempotent | components/agents/FlowerMarketAgent.tsx:15 | trimming twice is trimming once |
| JsLib.TrimPadded | components/agents/FinancialAgent.tsx:127 | text padded on both sides with white space trims back to itself when it neither starts nor ends with white space |
| JsLib.TrimStartPadded | components/agents/FinancialAgent.tsx:127 | proof helper for TrimPadded: leading white space is removed up to the first other character |
| JsLib.TrimEndPadded | components/agents/FinancialAgent.tsx:127 | proof helper for TrimPadded: trailing white space is removed back to the last other character |
| JsLib.WhitespaceSet | components/agents/FinancialAgent.tsx:118 | `IsWhitespace`, the set `trim` removes, holds the no-break space, the byte-order mark and the ideographic space, and not the next-line control, the zero-width space or the Mongolian vowel separator |
| JsLib.Split | components/agents/FinancialAgent.tsx:123 | splitting gives at least one piece, no piece contains the separator, and there is exactly one piece when the separator is absent |
| JsLib.JoinSplit | components/agents/FinancialAgent.tsx:123 | joining the pieces with the separator gives the input back |
| JsLib.SplitJoin | services/geminiService.ts:29 | splitting a join of separator-free pieces gives the pieces back |
| JsLib.SplitConcat | components/agents/FinancialAgent.tsx:123 | the pieces of `a + sep + b` are the pieces of `a` followed by those of `b` |
| JsLib.IndexOf | services/geminiService.ts:29 | the first position of a character, or the length when it is absent: nothing before it is that character |
| JsLib.FirstPiece | services/geminiService.ts:29 | the first piece of a split is the text before the first separator |
| JsLib.SplitAtFirst | services/geminiService.ts:29 | the pieces after the first are the pieces of the text after the first separator |
| JsLib.DigitChar | components/agents/FinancialAgent.tsx:132 | a digit below ten renders as a decimal digit character |
| JsLib.DecimalString | components/agents/FinancialAgent.tsx:132 | a count renders as a non-empty string of decimal digits with no leading zero |
| JsLib.DigitValue | components/agents/FinancialAgent.tsx:132 | a digit character reads back as a value below ten |
| JsLib.DecimalRoundTrip | components/agents/FinancialAgent.tsx:132 | reading the rendered digits back gives the count |
| FinancialInput.Validate | components/agents/FinancialAgent.tsx:117-134 | the verdict is "empty" exactly when the input is all white space, and a reported count is positive and at most the number of lines |
| FinancialInput.LinesAreNonBlankPieces | components/agents/FinancialAgent.tsx:123 | `Lines` keeps exactly the non-blank pieces between line breaks, each as often as it occurs |
| FinancialInput.IdExamples | components/agents/FinancialAgent.tsx:127 | `IsId`, the regex `^[a-zA-Z0-9-_]+$`, accepts "TXN-12345" and "a_b-9" and refuses the empty text, "TXN 12345" and "TXN.1" |
| FinancialInput.CsvLineAccepted | components/agents/FinancialAgent.tsx:124-129 | `IsRejected` never holds of a line with a comma |
| FinancialInput.PaddedIdAccepted | components/agents/FinancialAgent.tsx:124-129 | `IsRejected` never holds of an identifier padded with white space, because the test trims the line first |
| FinancialInput.TextRejected | components/agents/FinancialAgent.tsx:124-129 | a comma-free line with no white space at its ends and a character outside the identifier class is rejected |
| FinancialInput.FreeTextRejected | components/agents/FinancialAgent.tsx:124-129 | "hello world" and "TXN#1" are rejected |
| FinancialInput.AcceptedIff | components/agents/FinancialAgent.tsx:117-137 | the input is accepted exactly when it is not blank and every non-blank line holds a comma or trims to an identifier |
| FinancialInput.CountRejected | components/Agents.tsx:429-435 | a one-pass count of the rejected non-blank lines never exceeds the number of lines |
| FinancialInput.CountRejectedIsFilter | components/Agents.tsx:429-435 | the one-pass count equals the length of the two chained filters |
| FinancialInput.RejectedCountIsExact | components/Agents.tsx:429-440 | for a non-blank input, the reported count is exactly the number of rejected non-blank lines, and the input is accepted when there are none |
| FinancialInput.BlankLineIgnored | components/agents/FinancialAgent.tsx:123 | appending a white-space-only line never changes the verdict |
| FinancialInput.BlankTailAddsNoLine | components/agents/FinancialAgent.tsx:123 | a white-space tail after a line break adds no non-blank line |
| FinancialInput.BlankTailKeepsBlankness | components/agents/FinancialAgent.tsx:118 | a white-space tail after a line break keeps an all-white-space input all white space and any other input not |
| FinancialInput.BlankPiece | components/agents/FinancialAgent.tsx:123 | every line of an all-white-space text is blank |
| FinancialInput.InvalidFormatMessage | components/agents/FinancialAgent.tsx:132 | the error line starts with "Invalid format in " and ends with " line(s). Use CSV or Alphanumeric IDs." |
| FinancialInput.MessageCarriesCount | components/agents/FinancialAgent.tsx:132 | the text between that prefix and suffix is all digits and reads back as the count |
| FinancialInput.AnalyzerPanel.constructor | components/agents/FinancialAgent.tsx:12-14 | the panel starts with an empty input, no error, not analysing |
| FinancialInput.AnalyzerPanel.Edit | components/agents/FinancialAgent.tsx:175-178 | editing stores the text and clears any error, leaving the analysing flag alone |
| FinancialInput.AnalyzerPanel.Analyze | components/agents/FinancialAgent.tsx:117-137 | an empty input shows "Input cannot be empty"; rejected lines show the count message; in both cases nothing starts; otherwise the error clears and analysis starts; the input is kept |
| FinancialInput.AnalyzerPanel.FinishAnalysis | components/agents/FinancialAgent.tsx:139 | the timer ends the analysis and changes nothing else |
| FinancialGraph.Node.constructor | components/agents/FinancialAgent.tsx:98 | a new node carries its id, group, label and position, and is unpinned |
| FinancialGraph.SuspiciousCount | components/agents/FinancialAgent.tsx:27 | the count of suspicious nodes is 0 exactly when none is suspicious and equals the node count exactly when all are |
| FinancialGraph.SuspiciousCountIsFilter | components/agents/FinancialAgent.tsx:27 | the suspicious count is the length of `nodes.filter(n => n.suspicious)` |
| FinancialGraph.RoundedPercent | components/agents/FinancialAgent.tsx:27 | the result is at most 100 and is the integer nearest to 100·part/total, halves rounded up |
| FinancialGraph.RoundingBounds | components/agents/FinancialAgent.tsx:27 | the integer quotient used for rounding lies within half a unit of the exact percentage and never exceeds 100 |
| FinancialGraph.MulAssoc | components/agents/FinancialAgent.tsx:27 | proof helper for RoundingBounds (regrouping of the rounding divisor); models nothing by itself |
| FinancialGraph.MulMono | components/agents/FinancialAgent.tsx:27 | proof helper for the rounding lemmas (multiplication preserves order); models nothing by itself |
| FinancialGraph.Score | components/Agents.tsx:332-334 | the anomaly score is at most 100 |
| FinancialGraph.PercentZeroIff | components/agents/FinancialAgent.tsx:27 | for up to 200 nodes the rounded percentage is 0 exactly when the part is 0 |
| FinancialGraph.PercentHundredIff | components/agents/FinancialAgent.tsx:27 | for fewer than 200 nodes the rounded percentage is 100 exactly when the part is the whole |
| FinancialGraph.ScoreZeroIff | components/agents/FinancialAgent.tsx:26-28 | the score is 0 exactly when no node is suspicious |
| FinancialGraph.ScoreHundredIff | components/agents/FinancialAgent.tsx:26-28 | the score is 100 exactly when every node is suspicious |
| FinancialGraph.TransactionGraph.constructor | components/agents/FinancialAgent.tsx:19-29 | fifteen fresh seed nodes with ids 0..14 sit less than 25 units from the canvas centre on each axis (the offsets are drawn in [-25, 25)), the twenty seed links are kept, and the score and counters agree with the nodes |
| FinancialGraph.TransactionGraph.Tick | components/agents/FinancialAgent.tsx:92-106 | above fifty nodes nothing changes; otherwise a fresh node with the next id is appended at the centre and linked to an older node; the counter and score are refreshed and the graph invariant is kept |
| FinancialGraph.TransactionGraph.DragStart | components/agents/FinancialAgent.tsx:56-59 | the node is pinned where it stands, and the layout target becomes 0.3 unless another gesture is active |
| FinancialGraph.TransactionGraph.DragMove | components/agents/FinancialAgent.tsx:60 | the pin follows the pointer |
| FinancialGraph.TransactionGraph.DragEnd | components/Agents.tsx:367-370 | the pin is released, and the layout target returns to 0 unless another gesture is active |
| FinancialGraph.IdsUnique | components/agents/FinancialAgent.tsx:95-99 | in a valid graph two nodes share an id exactly when they are the same node |
| FlowerMarket.StripFences | components/agents/FlowerMarketAgent.tsx:15 | removing the fences never lengthens the text |
| FlowerMarket.CleanReply | components/Agents.tsx:20 | the cleaned reply has no white space at either end and no three backticks in a row |
| FlowerMarket.StripKeepsFirst | components/agents/FlowerMarketAgent.tsx:15 | a character other than a backtick is kept |
| FlowerMarket.StripFencesLeavesNoFence | components/agents/FlowerMarketAgent.tsx:15 | no three consecutive backticks survive the replacement |
| FlowerMarket.NoFenceSlice | components/agents/FlowerMarketAgent.tsx:15 | a slice of fence-free text is fence-free |
| FlowerMarket.StripFencesIdentity | components/agents/FlowerMarketAgent.tsx:15 | fence-free text passes through the replacement unchanged |
| FlowerMarket.CleanReplyIdempotent | components/agents/FlowerMarketAgent.tsx:15 | cleaning a cleaned reply changes nothing |
| FlowerMarket.StripFencesNoBacktick | components/agents/FlowerMarketAgent.tsx:15 | a backtick-free prefix passes through unchanged |
| FlowerMarket.CleanReplyNoBacktick | components/agents/FlowerMarketAgent.tsx:15 | a reply without backticks is only trimmed |
| FlowerMarket.CleanReplyFenced | components/agents/FlowerMarketAgent.tsx:15 | "```json" + body + "```" cleans to the trimmed body |
| FlowerMarket.StripSplitsAt | components/agents/FlowerMarketAgent.tsx:15 | text not ending in a backtick and text starting with one are cleaned independently: no marker straddles that boundary |
| FlowerMarket.JsonFenceDroppedWhole | components/agents/FlowerMarketAgent.tsx:15 | a "```json" anywhere that does not follow a backtick is removed whole, including "json", and the text on each side is cleaned as if the marker were not there |
| FlowerMarket.CleanReplyTwoBlocks | components/agents/FlowerMarketAgent.tsx:15 | a reply with two fenced JSON blocks on separate lines loses all four markers and keeps both bodies and the line break |
| FlowerMarket.BacktickBeforeJsonFence | components/agents/FlowerMarketAgent.tsx:15 | "````json" becomes "`json", because the scan matches "```" first from the first backtick |
| FlowerMarket.SixBackticksJson | components/agents/FlowerMarketAgent.tsx:15 | "``````json" cleans to the empty text: "```" is dropped, then a whole "```json" |
| FlowerMarket.FlowerPanel.constructor | components/agents/FlowerMarketAgent.tsx:8-9 | the panel starts with no image and no answer |
| FlowerMarket.FlowerPanel.Upload | components/agents/FlowerMarketAgent.tsx:21-31 | when a file was chosen, what the reader produced (nothing, when the read failed) becomes the image and the previous answer is dropped; with no file nothing changes |
| FlowerMarket.FlowerPanel.Clear | components/agents/FlowerMarketAgent.tsx:49 | the image is forgotten and the answer kept |
| FlowerMarket.FlowerPanel.IdentifyRequest | components/agents/FlowerMarketAgent.tsx:12-14 | the request carries the fixed identification prompt, the flash model and the image with its data-URL header stripped |
| FlowerMarket.FlowerPanel.AnalysisSucceeded | components/agents/FlowerMarketAgent.tsx:18 | the parsed answer is shown and the image kept |
| GeminiService.GenerateText | services/geminiService.ts:9-17 | the request carries the given model id, prompt and optional system instruction unchanged |
| GeminiService.StripDataUrlHeader | services/geminiService.ts:29 | without a comma the input comes back; otherwise the text between the first and second comma, or the whole input when that text is empty; the result is either the input or non-empty and comma-free |
| GeminiService.SecondPiece | services/geminiService.ts:29 | `split(',')[1]` is the text after the first comma up to the next one |
| GeminiService.StripIsSlice | services/geminiService.ts:29 | the stripped data is always a contiguous slice of the input |
| GeminiService.StripDataUrl | services/geminiService.ts:28-29 | a data URL `data:<type>;base64,<payload>` (section 3 of RFC 2397) with a non-empty payload yields exactly its payload |
| GeminiService.StripJpegExample | services/geminiService.ts:28-29 | "data:image/jpeg;base64,XYZ" yields "XYZ" |
| GeminiService.AnalyzeImage | services/geminiService.ts:26-44 | the request goes to gemini-2.5-flash with the prompt, MIME type image/jpeg and the stripped data |
| GeminiService.AnalyzeDataPrompt | services/geminiService.ts:54-62 | the prompt's length is that of the fixed template plus the data context and the query |
| GeminiService.PromptFields | services/geminiService.ts:54-62 | a prompt it accepts is exactly the template around the fields it returns |
| GeminiService.PromptRoundTrip | services/geminiService.ts:54-62 | the data context and the query can be read back from the prompt in their places, after "Data Context:" and "Query:" and before "Provide a concise analysis." |
| GeminiService.AnalyzeData | services/geminiService.ts:53-64 | the request goes to gemini-2.5-flash with no system instruction, and its text carries the data context and query in template order |
| GeminiService.GenerateComplexPlan | services/geminiService.ts:67-69 | the prompt goes unchanged to gemini-3-pro-preview under "You are an expert logistics planner." |
| AppStore.Toggled | store.ts:19 | the toggled theme is the other theme |
| AppStore.ToggledTwice | store.ts:18-26 | toggling twice restores the theme |
| AppStore.Stamp | store.ts:30 | the stamped item keeps the entry's agent, action and status and carries the given id and timestamp |
| AppStore.Prepend | store.ts:28-32 | the new history is at most fifty long, starts with the new item, and continues with the old items in order |
| AppStore.AddAllKeepsNewest | store.ts:28-32 | after any run of additions the history is the added items newest first, then the old history, cut to fifty |
| AppStore.Reversed | store.ts:28-32 | specification helper used to state AddAllKeepsNewest (reversal keeps the length); models nothing by itself |
| AppStore.Store.constructor | store.ts:15-17 | the store starts light-themed, sidebar closed, with no history |
| AppStore.Store.ToggleTheme | store.ts:18-26 | the theme flips and nothing else changes |
| AppStore.Store.ToggleSidebar | store.ts:27 | the sidebar flag flips and nothing else changes |
| AppStore.Store.AddHistory | store.ts:28-33 | the stamped entry is prepended within the fifty-entry cap and nothing else changes |
| AppStore.Store.ClearHistory | store.ts:34 | the history empties and nothing else changes |

Notes on the code as written:

- Tick is modelled as written:
  - The stream check is `nodes.length > 50`, so one more node is added when the graph holds exactly fifty. The graph therefore grows to 51 nodes and 56 links, and the invariant allows 51.
  - Nodes are never evicted; there is no pause switch and no second link per tick.
  - A new node's id is the current node count. Its link goes to an older node chosen by the caller.
- A seed link may join a node to itself, because its two ends are drawn independently.
- The `analyzeData` template literal keeps its line breaks and indentation. After "Provide a concise analysis." it ends with a newline and four spaces, and `GeminiService.DataTail` is that exact text.
- A single backtick right before "```json", as in "````json", leaves "`json" behind, because the scan matches "```" at the first backtick; `FlowerMarket.BacktickBeforeJsonFence` shows this, and such a reply then fails JSON parsing. Whole runs of three backticks before "```json" are all removed: "``````json" cleans to the empty text (`FlowerMarket.SixBackticksJson`).

## Left out

- `FlowerMarket.StripFences`: its own contract only bounds the length. What the replacement means is stated by `StripFencesLeavesNoFence`, `StripFencesIdentity`, `JsonFenceDroppedWhole` and `BacktickBeforeJsonFence`.
- `GeminiService.AnalyzeDataPrompt`: its own contract only gives the length. Its content is stated by `PromptFields` and `PromptRoundTrip`.
- `FinancialGraph.RoundedPercent`: it rounds the exact rational 100·part/total half up. JavaScript computes `part / total * 100` in floating point before `Math.round`. The two agree except when the float error moves a value across a .5 boundary, and such cases occur in reachable graphs: with 23 suspicious nodes out of 40, JavaScript computes `23 / 40 * 100` as 57.49999999999999 and shows 57, where the model gives 58. Floating point is not modelled.
- `FinancialGraph.ScoreZeroIff` and `ScoreHundredIff` require at most 200 (or fewer than 200) nodes. Beyond that, one suspicious node can round to 0 percent, or one honest node to 100. The graph never exceeds 51 nodes.
- `FinancialGraph.TransactionGraph.Tick`: `Math.random` becomes parameters. Its group, suspicion label and link target are passed in, with the same ranges as the draws. The 2-second interval timer is not modelled: each call is one firing.
- The layout is not modelled. This covers:
  - the d3 force simulation (link distance, charge, centring, alpha decay and restart);
  - node positions after the mount;
  - rendering, transitions and the SVG cleanup on unmount;
  - `forceLink` replacing link endpoints by node objects (the model keeps ids).
- `FinancialGraph.TransactionGraph.DragStart` and `DragEnd` take the d3 `event.active` flag as a parameter. `alphaTarget` is modelled as a field, and `restart()` is not modelled.
- The JavaScript runtime is not modelled:
  - the network call and the reply text from the hosted model, the API key lookup, and error logging and rethrowing;
  - `JSON.parse` and the shape of its output;
  - `FileReader` and how a data URL is produced (`Upload` takes the read result, or its absence when the read fails, as a parameter);
  - `Math.random().toString(36)` ids and `Date.now()` (`AddHistory` takes both as parameters);
  - the React Query mutation's pending state and the disabled button;
  - the `dark` class on the document root that `toggleTheme` adds or removes.
- Strings are sequences of Unicode scalar values. JavaScript strings are UTF-16, so text with characters outside the Basic Multilingual Plane has different indices.
- Layout, routing, the other agent panels, the sidebar markup and the display-only cards hold no logic beyond what is listed here, so they are not modelled.
