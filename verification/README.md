# Social-media sentiment client, modelled in Dafny

This project models the browser client of the sentiment analysis tool (`scripts.js`). The
client turns pasted text or an uploaded CSV file into a list of posts. It caps the list at
500 posts and sends the posts to an analysis endpoint in batches of 25, one request after
another. From each reply it digs out a JSON object, collects the `post_analysis` arrays in
order and tallies the sentiment labels. The first batch that fails stops the whole run.

The model has one module per concern:

- `Strings` (`strings.dfy`): the JavaScript string operations the client relies on.
  - `trim` is modelled with the full ECMAScript whitespace set, the same set the `\s` class matches.
  - `indexOf`, `lastIndexOf`, `includes`, `endsWith` and `join` on arrays of strings.
  - ASCII case mapping.
- `PostSplitting` (`posts.dfy`): `getPostsFromInput`.
  - `split` with a regular expression is written out as the scan the ECMAScript `@@split` algorithm performs.
  - The two separators `/\n\s*\n+/` and `/\n|\r\n/` are written out as explicit matchers.
- `CsvImport` (`csv.dfy`): the `complete` callback of the CSV parser. It is a loop, proved against a row-by-row reference definition.
- `Batching` (`batching.dfy`): the 500-post cap and the slicing loop. It is proved against a functional partition `Chunks`.
- `ResponseExtraction` (`extraction.dfy`): locating the JSON text in a reply.
  - The regular expression `/```json\s*([\s\S]*?)\s*```/` is written out as a scan. The scan is proved to pick the match the backtracking matcher reports.
  - The fallback uses `substring` from the first '{' to the last '}'. It keeps `substring`'s argument swap.
- `SentimentLabels` (`labels.dfy`): label normalisation, the `sentimentCounts` loop and the zero-count guard of `renderInterpretation`.
- `Analysis` (`analysis.dfy`): the batch loop of `performAnalysis`, plus a `Session` class.
  - In the batch loop, the network and `JSON.parse` are function parameters.
  - `Session` holds `currentPosts` and the text box content. It also holds the event handlers that reassign them.
  - The text box is a text area. Its `value`, as a script reads it, has every "\r\n" and every lone '\r' turned into '\n' (the HTML standard's newline normalisation); `TextAreaValue` writes this out.

The code fixes these policies:

- A failed batch aborts the whole run; no batch is skipped.
- A reply's `post_analysis` array is not checked against the batch: an array of any length whose items are labelled is accepted, so the results can number more or fewer than the posts sent.
- Only Positive, Negative, Neutral and Mixed are counted. A "Failed" label is not.
- The brace fallback does not check that the braces are balanced or in order. When the last '}' comes before the first '{', `substring` swaps its arguments and returns the text between them.
- After a CSV import the text box shows the posts joined by blank lines, and the next `input` event splits what the box reads back. That gives the same posts only for non-empty trimmed posts without a blank line and without a carriage return inside, and even then not for a single post that contains a line break: that post comes back as several posts (`ShownPostsRoundTrip`, built on `JoinedPostsRoundTripIff`). Posts split from the text box are always clean (`PostsAreClean`), and the box's value holds no '\r' (`TextAreaValue`). A CSV cell may not, in two ways: a cell holding a blank line is read back as several posts, and a cell holding a '\r' (a spreadsheet line break) is read back with it turned into '\n', or split there.

## Model

| member | source | states |
|---|---|---|
| Strings.TrimSlice | scripts.js:58 | `trim` removes only a leading and a trailing whitespace run, and what remains neither starts nor ends with whitespace |
| Strings.TrimFixedPoints | scripts.js:58 | a string is unchanged by `trim` exactly when it is trimmed, and `trim` is idempotent |
| Strings.IndexOf | scripts.js:57 | `indexOf`/`includes` report the first occurrence at or after the start position, or that there is none |
| Strings.IndexOfChar | scripts.js:233 | `indexOf('{')` is absent exactly when there is no '{' and otherwise is the first '{' |
| Strings.LastIndexOf | scripts.js:234 | `lastIndexOf('}')` is absent exactly when there is no '}' and otherwise is the last '}' |
| Strings.DropEmpty | scripts.js:58 | `filter(p => p !== '')` keeps only non-empty members of the input, and changes nothing when none is empty |
| PostSplitting.LineBreakMatch | scripts.js:60 | `/\n\|\r\n/` matches exactly at a '\n' (length 1) or a "\r\n" (length 2), and nowhere else |
| PostSplitting.BlankLinesMatch | scripts.js:58 | `/\n\s*\n+/` matches exactly where a '\n' is followed by whitespace containing another '\n'; the match is whitespace, ends at a '\n', and is the longest such run (no '\n' follows within the whitespace after it) |
| PostSplitting.PostsAreClean | scripts.js:55-63 | every post is non-empty, equal to its own trim and contains no blank line |
| PostSplitting.NoBlankLineMeansSingleLinePosts | scripts.js:57-61 | when the text contains neither "\n\n" nor "\r\n\r\n", no post contains a '\n' |
| PostSplitting.PostsKeepContent | scripts.js:55-63 | splitting, trimming and filtering lose and reorder no non-whitespace character of the text |
| PostSplitting.NoPostsIffBlank | scripts.js:55-63 | the post list is empty exactly when the text is all whitespace |
| PostSplitting.PostsOfCleanPieces | scripts.js:55-63 | when the pieces of a split are already non-empty and trimmed, they are exactly the posts |
| PostSplitting.JoinedPostsRoundTrip | scripts.js:55-63 | non-empty trimmed posts without a blank line inside, joined by "\n\n", split back into the same posts, unless there is exactly one post and it spans lines |
| PostSplitting.SingleMultiLinePostIsReSplit | scripts.js:55-63 | a single non-empty trimmed post without a blank line that contains a line break, written as text, is not split back into itself |
| PostSplitting.JoinedPostsRoundTripIff | scripts.js:55-63 | for non-empty trimmed posts without a blank line inside, splitting their join by "\n\n" gives the same posts if and only if they are not a single post spanning lines |
| CsvImport.CollectCsvPosts | scripts.js:96-104 | the callback's loop yields, in row order, the trimmed first cell of every row that has a non-null first cell, minus the empty ones; no data yields no posts |
| CsvImport.CsvPostsShape | scripts.js:96-104 | the imported posts are non-empty and trimmed, and there are at most as many as rows |
| CsvImport.CsvPostsFromFirstCells | scripts.js:99-100 | every imported post is the trimmed first cell of some row |
| CsvImport.RowWithTextYieldsPost | scripts.js:99-104 | every row whose trimmed first cell is non-empty contributes that post |
| CsvImport.CsvPostsAppend | scripts.js:98-102 | rows contribute independently and in order |
| CsvImport.CsvPostsAround | scripts.js:98-102 | the posts are those of the rows before a row, then that row's own post if any, then those of the rows after it |
| Batching.LimitWarningMeansTruncation | scripts.js:67-69 | the post counter warns exactly when posts beyond the limit are ignored |
| Batching.MakeBatches | scripts.js:196-201 | the slicing loop produces exactly the partition of the capped posts into consecutive slices of 25 |
| Batching.ChunksConcat | scripts.js:199-201 | the batches concatenate back to the capped posts |
| Batching.ChunksShape | scripts.js:199-201 | every batch holds 1 to 25 posts, all but the last exactly 25, and there is no batch for no posts |
| Batching.BatchCount | scripts.js:199-201 | there are exactly ceil(n / 25) batches |
| Batching.ChunkAt | scripts.js:200 | batch i is the slice from i*25 to min(i*25 + 25, n) |
| Batching.ChunksPrefix | scripts.js:199-201 | the first r batches hold exactly the first min(25r, n) posts in order |
| Batching.AtMostTwentyBatches | scripts.js:196-201 | no input leads to more than 20 requests |
| ResponseExtraction.FindFenceIsRegexMatch | scripts.js:229 | the scan yields a match of the fence expression, the one the backtracking matcher prefers, and finds none only when the expression has no match |
| ResponseExtraction.ExtractionFailsIffBraceMissing | scripts.js:232-237 | without a usable fence, extraction fails exactly when a '{' or a '}' is missing |
| ResponseExtraction.BraceExtraction | scripts.js:233-238 | without a usable fence, the text from the first '{' through the last '}' inclusive is extracted |
| ResponseExtraction.ReversedBraces | scripts.js:238 | when the last '}' precedes the first '{', the swapped `substring` extracts the text between them |
| ResponseExtraction.FencedRoundTrip | scripts.js:229-231 | a non-empty trimmed JSON text without backticks, in a ```json fence after backtick-free prose, is recovered exactly, without the surrounding whitespace |
| ResponseExtraction.UnfencedRoundTrip | scripts.js:232-238 | an object text between brace-free prose, with no fence, is recovered exactly |
| SentimentLabels.NormalizeIdempotent | scripts.js:256 | normalising a normalised label changes nothing |
| SentimentLabels.SameLabelIffSameLowercase | scripts.js:256 | two labels normalise alike exactly when they agree ignoring case |
| SentimentLabels.TalliedIffCaseInsensitiveMatch | scripts.js:253-258 | a label is counted exactly when it is "positive", "negative", "neutral" or "mixed" in any casing |
| SentimentLabels.MissingLabelNeverCounted | scripts.js:255-258 | a missing or empty label becomes "N/a" and is never counted |
| SentimentLabels.TallySum | scripts.js:253-260 | the four counts sum to the number of results with a counted label, which is at most the number of results |
| SentimentLabels.TallyBounded | scripts.js:253-260 | a finished tally totals at most the number of analysed posts |
| SentimentLabels.TallySentiments | scripts.js:253-260 | the counting loop over the results yields each label's count, or fails where a label cannot be read |
| SentimentLabels.SharesAtMostWhole | scripts.js:322-328 | for a finished tally, no insights are given exactly when no post was analysed; otherwise the shares are the numbers of "Positive" and "Negative" labels over the number of analysed posts, and together they never exceed the whole |
| Analysis.AnalyzeBatch | scripts.js:214-247 | the loop body computes the reference step `BatchStep` for the batch |
| Analysis.FencedReplyAnalyzed | scripts.js:223-247 | an ok reply carrying a non-empty trimmed JSON text without backticks in a ```json fence, after backtick-free prose, and parsing to a `post_analysis` array, gets the batch through exactly when every item of the array has a readable label, and then contributes that array |
| Analysis.MissingBraceIsInvalid | scripts.js:223-236 | an ok reply without a usable fence is reported as an invalid response for its batch exactly when it lacks a '{' or a '}' |
| Analysis.SentPostsArePrefix | scripts.js:196-214 | the posts sent by a run are the first min(25 * requests, capped count) posts, in order |
| Analysis.LocateJson | scripts.js:228-239 | the reassignments of `jsonString` compute the extraction function |
| Analysis.RunBatches | scripts.js:210-264 | batches are sent in order; the run stops at the first failing batch with its error, after requests for exactly the batches up to it; otherwise results are all arrays in batch order, with their tally, which cannot fail because every collected item has been rendered |
| Analysis.RunBatchesWith | scripts.js:210-264 | the loop, given the outcome of every batch, makes a run that fits that description |
| Analysis.AllSucceededGivesResults | scripts.js:213-244 | when every batch so far gets through, the arrays of all of them have been collected |
| Analysis.AbandonedStaysAbandoned | scripts.js:213-248 | once a batch has failed, results are not collected again for any later number of batches |
| Analysis.NoResultsPastFailure | scripts.js:213-248 | results are never collected past a failed batch, so only one batch can be the first to fail |
| Analysis.RunIsDetermined | scripts.js:213-248 | the outcomes of the batches determine the outcome of the run and the number of requests |
| Analysis.TextAreaValue | scripts.js:122-123 | the value read back from the text box holds no carriage return, and text without one is read back unchanged |
| Analysis.TextAreaValueKeepsContent | scripts.js:122-123 | normalising line breaks keeps every non-whitespace character, in order |
| Analysis.TextAreaValueAppend | scripts.js:122-123 | two pieces of text that do not meet in a "\r\n" pair are read back independently, so the read-back works piece by piece |
| Analysis.TextAreaValueUnits | scripts.js:122-123 | the pieces: a "\r\n" pair becomes one '\n', a lone '\r' becomes '\n' (also before another character), and any other character is kept |
| Analysis.ShownPostsRoundTrip | scripts.js:107 | posts shown joined by blank lines and split again from the box's value when they are non-empty, trimmed and free of blank lines and of '\r', come back exactly when they are not a single post spanning lines |
| Analysis.Session.constructor | scripts.js:29-32 | the page starts with no text and no posts |
| Analysis.Session.OnTextInput | scripts.js:35-38 | typing re-splits the box's value, with line breaks normalised, into posts; the posts stay non-empty and trimmed and the value holds no carriage return |
| Analysis.Session.HandleFileUpload | scripts.js:84-135 | no file leaves the state alone; an unreadable file or a CSV error clears text and posts; a CSV file yields its first-column posts, and the box reads back their join by blank lines with line breaks normalised; any other file is written into the box and its posts are split from the normalised value |
| Analysis.Session.Reset | scripts.js:177-187 | reset clears text and posts |
| Analysis.Session.PerformAnalysis | scripts.js:190-264 | with no posts nothing is sent; otherwise the run goes over the batches of the capped posts, with at most 20 requests |

## Left out

- DOM work is left out: the HTML of `renderBatchResults`, the Chart.js chart, the texts of `renderInterpretation` and `renderTechnicalReport`, `clearOutputSections`, the loading indicator, the analysis-type radio buttons and `updateControlPanels`. It has no logic beyond what is modelled.
- `fetch`, `FileReader` and the `async`/`await` suspension are I/O. Each request's outcome is the function parameter `server`, and a file read is a `FileContent` value. A rejected `response.text()` is not modelled.
- The CSV parser's tokenising, including `skipEmptyLines`, is a foreign library. Its rows, or its error, are given values.
- `JSON.parse` is a foreign call. It is the function parameter `parse`, which classifies the value only by what the script reads from it.
- The percentages with `toFixed` are floating point. Only the zero-count guard is modelled.
- `console.error` and `alert` are left out.
- The error message text of the `Error` objects is left out. A `RunError` records the kind of failure and the batch number.
- The netlify proxy functions are a server-side wrapper around a remote model call, so they are not part of this model.
- `toUpperCase` and `toLowerCase` are modelled on ASCII letters only. Unicode special casing, where one character can map to several, is left out.
- SentimentLabels.NormalizeIdempotent: holds for the ASCII case mapping of the model. With full Unicode case mapping it can fail: "ßa" normalises to "SSa", which normalises to "Ssa".
- JavaScript strings are modelled as sequences of code points, not UTF-16 code units. Lengths and indices differ for characters outside the Basic Multilingual Plane.
- Analysis.AnalyzeBatch: the script appends a batch's array to `allResults` before rendering it. The model checks the rendering first, which cannot be told apart, because a render failure abandons the run and its results.
