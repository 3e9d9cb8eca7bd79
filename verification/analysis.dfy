/**
 * The analysis run of `performAnalysis` (scripts.js) and the page state the event handlers
 * keep. Each batch is sent to the analysis endpoint in turn; its response is checked, the JSON
 * text is located and parsed, and the batch's `post_analysis` array is appended to the
 * results and rendered. The first batch that fails stops the run; when every batch succeeds
 * the sentiment labels are tallied.
 *
 * The network and `JSON.parse` are parameters: `server(i, batch)` is what the request for
 * batch `i` resolves to, and `parse(text)` is what `JSON.parse(text)` gives.
 */
module Analysis {
  import opened Options
  import opened Strings
  import opened Sequences
  import opened PostSplitting
  import opened CsvImport
  import opened Batching
  import opened ResponseExtraction
  import opened SentimentLabels

  /** What `fetch` settles with: a rejected request, or a response with its status and body text. */
  datatype Response = NetworkFailure | Reply(status: int, body: string)

  /** `response.ok`: a status in the range 200-299. */
  predicate IsOk(status: int)
  {
    200 <= status <= 299
  }

  /** The `post_analysis` property of a parsed response: absent, falsy or not an array, or an array. */
  datatype PostAnalysis = NotAnArray | Items(items: seq<PostItem>)

  /**
   * What `JSON.parse` makes of the extracted text: a `SyntaxError`, the value `null` (reading a
   * property of which throws), or any other value, of which only `post_analysis` is read.
   */
  datatype Parsed = SyntaxError | NullValue | Value(postAnalysis: PostAnalysis)

  /**
   * Why a run stopped, with the 1-based number of the batch at which it did. The messages for
   * `BadStatus`, `InvalidResponse` and `MissingPostAnalysis` are the script's own and name the
   * batch; the others are the exceptions thrown by `fetch`, `JSON.parse` or a property read.
   */
  datatype RunError =
    | RequestFailed(batch: nat)
    | BadStatus(batch: nat, status: int)
    | InvalidResponse(batch: nat)
    | ParseFailure(batch: nat)
    | NullResult(batch: nat)
    | MissingPostAnalysis(batch: nat)
    | RenderFailure(batch: nat)

  /** The outcome of one batch: the error that stops the run, or the analysed posts it contributes. */
  datatype BatchOutcome = Failed(error: RunError) | Analyzed(items: seq<PostItem>)

  /** The outcome of `performAnalysis`. */
  datatype RunOutcome =
    | NothingToAnalyze
    | Aborted(error: RunError)
    | Completed(results: seq<PostItem>, tally: Tally)

  /** Reference definition of one iteration of the batch loop, batch `i` counting from 0. */
  function BatchStep(i: nat, batch: seq<string>, server: (nat, seq<string>) -> Response,
                     parse: string -> Parsed): BatchOutcome
  {
    match server(i, batch)
    case NetworkFailure => Failed(RequestFailed(i + 1))
    case Reply(status, body) =>
      if !IsOk(status) then Failed(BadStatus(i + 1, status))
      else
        match ExtractJson(body)
        case None => Failed(InvalidResponse(i + 1))
        case Some(json) =>
          match parse(json)
          case SyntaxError => Failed(ParseFailure(i + 1))
          case NullValue => Failed(NullResult(i + 1))
          case Value(NotAnArray) => Failed(MissingPostAnalysis(i + 1))
          case Value(Items(items)) =>
            if AllLabelled(items) then Analyzed(items) else Failed(RenderFailure(i + 1))
  }

  /**
   * The outcome of each batch by its index: what `BatchStep` gives for batch `k` of `batches`
   * (an index past the last batch is never requested; it is given a failed request).
   */
  function StepsOf(batches: seq<seq<string>>, server: (nat, seq<string>) -> Response,
                   parse: string -> Parsed): nat -> BatchOutcome
  {
    (k: nat) => if k < |batches| then BatchStep(k, batches[k], server, parse) else Failed(RequestFailed(k + 1))
  }

  /**
   * `allResults` after the first `n` batches, whose outcomes `step` gives: their `post_analysis`
   * arrays concatenated in batch order, or `None` once one of them has failed (the run has
   * then been abandoned).
   */
  function ResultsSoFar(step: nat -> BatchOutcome, n: nat): Option<seq<PostItem>>
  {
    if n == 0 then Some([])
    else match ResultsSoFar(step, n - 1)
      case None => None
      case Some(r) => if step(n - 1).Analyzed? then Some(r + step(n - 1).items) else None
  }

  /**
   * What a run over `count` batches, whose outcomes `step` gives, does: `requests` requests are
   * made; either every batch before the last one requested gets through and the last one fails
   * with the reported error, or all batches get through and the results are all the batches'
   * arrays in order, with their tally.
   */
  predicate IsRun(count: nat, step: nat -> BatchOutcome, outcome: RunOutcome, requests: nat)
  {
    && requests <= count
    && match outcome
       case NothingToAnalyze => false
       case Aborted(e) =>
         && 0 < requests
         && ResultsSoFar(step, requests - 1).Some?
         && step(requests - 1) == Failed(e)
       case Completed(results, tally) =>
         && requests == count
         && ResultsSoFar(step, count) == Some(results)
         && TallyOf(results) == Some(tally)
  }

  /** A run over `batches` whose requests `server` answers. */
  predicate IsRunOf(batches: seq<seq<string>>, server: (nat, seq<string>) -> Response,
                    parse: string -> Parsed, outcome: RunOutcome, requests: nat)
  {
    IsRun(|batches|, StepsOf(batches, server, parse), outcome, requests)
  }

  /** When every batch so far has got through, their results have all been collected. */
  lemma {:induction false} AllSucceededGivesResults(step: nat -> BatchOutcome, n: nat)
    requires forall k | 0 <= k < n :: step(k).Analyzed?
    ensures ResultsSoFar(step, n).Some?
  {
    if n > 0 {
      AllSucceededGivesResults(step, n - 1);
    }
  }

  /** Once a batch has failed, the results stay abandoned. */
  lemma {:induction false} AbandonedStaysAbandoned(step: nat -> BatchOutcome, n: nat, m: nat)
    requires n <= m && ResultsSoFar(step, m).Some?
    ensures ResultsSoFar(step, n).Some?
    decreases m - n
  {
    if n < m {
      assert ResultsSoFar(step, m - 1).Some?;
      AbandonedStaysAbandoned(step, n, m - 1);
    }
  }

  /** Results are never collected past a failed batch, so only one batch can be the first to fail. */
  lemma NoResultsPastFailure(step: nat -> BatchOutcome, i: nat, j: nat)
    requires step(i).Failed? && ResultsSoFar(step, j).Some?
    ensures j <= i
  {
    if i < j {
      AbandonedStaysAbandoned(step, i + 1, j);
    }
  }

  /** A run is determined by its batches' outcomes: two runs that fit the description agree. */
  lemma RunIsDetermined(count: nat, step: nat -> BatchOutcome, o1: RunOutcome, r1: nat,
                        o2: RunOutcome, r2: nat)
    requires IsRun(count, step, o1, r1) && IsRun(count, step, o2, r2)
    ensures o1 == o2 && r1 == r2
  {
    if o1.Aborted? {
      NoResultsPastFailure(step, r1 - 1, if o2.Aborted? then r2 - 1 else count);
    }
    if o2.Aborted? {
      NoResultsPastFailure(step, r2 - 1, if o1.Aborted? then r1 - 1 else count);
    }
  }

  /** A batch only gets through once every item of its array has been rendered. */
  lemma AnalyzedAreLabelled(i: nat, batch: seq<string>, server: (nat, seq<string>) -> Response,
                            parse: string -> Parsed)
    ensures BatchStep(i, batch, server, parse).Analyzed? ==> AllLabelled(BatchStep(i, batch, server, parse).items)
  {
  }

  lemma LabelledAppend(a: seq<PostItem>, b: seq<PostItem>)
    requires AllLabelled(a) && AllLabelled(b)
    ensures AllLabelled(a + b)
  {
    assert forall i | |a| <= i < |a| + |b| :: (a + b)[i] == b[i - |a|];
  }

  /**
   * The batch loop of `performAnalysis` and the tally after it: the batches are analysed in
   * order, each one's `post_analysis` array is appended to `allResults`, and the first batch
   * that fails ends the run.
   */
  method RunBatches(batches: seq<seq<string>>, server: (nat, seq<string>) -> Response,
                    parse: string -> Parsed) returns (outcome: RunOutcome, requests: nat)
    ensures IsRunOf(batches, server, parse, outcome, requests)
  {
    outcome, requests := RunBatchesWith(batches, server, parse, StepsOf(batches, server, parse));
  }

  /**
   * The loop of `RunBatches`, with the outcome of each batch named `steps` so that the proof
   * looks at one batch at a time.
   */
  method RunBatchesWith(batches: seq<seq<string>>, server: (nat, seq<string>) -> Response,
                        parse: string -> Parsed, ghost steps: nat -> BatchOutcome)
    returns (outcome: RunOutcome, requests: nat)
    requires forall k {:trigger BatchStep(k, batches[k], server, parse)} | 0 <= k < |batches| ::
               steps(k) == BatchStep(k, batches[k], server, parse)
    ensures IsRun(|batches|, steps, outcome, requests)
  {
    var allResults: seq<PostItem> := [];
    var i := 0;
    while i < |batches|
      invariant i <= |batches|
      invariant ResultsSoFar(steps, i) == Some(allResults)
      invariant AllLabelled(allResults)
    {
      var step := AnalyzeBatch(i, batches[i], server, parse);
      if step.Failed? {
        return Aborted(step.error), i + 1;
      }
      AnalyzedAreLabelled(i, batches[i], server, parse);
      LabelledAppend(allResults, step.items);
      allResults := allResults + step.items;
      i := i + 1;
    }
    var sentimentCounts := TallySentiments(allResults);
    outcome, requests := Completed(allResults, sentimentCounts.value), i;
  }

  /**
   * One iteration of the batch loop: request the batch, reject a failed request or a non-ok
   * status, take the fenced JSON or the brace span, parse it, require a `post_analysis` array
   * and render it. (The script appends the array to `allResults` before rendering it; when
   * rendering throws, the run is abandoned and the results with it.)
   */
  method AnalyzeBatch(i: nat, batch: seq<string>, server: (nat, seq<string>) -> Response,
                      parse: string -> Parsed) returns (r: BatchOutcome)
    ensures r == BatchStep(i, batch, server, parse)
  {
    var response := server(i, batch);
    if response.NetworkFailure? {
      return Failed(RequestFailed(i + 1));
    }
    if !IsOk(response.status) {
      return Failed(BadStatus(i + 1, response.status));
    }
    var jsonString := LocateJson(response.body);
    if jsonString.None? {
      return Failed(InvalidResponse(i + 1));
    }
    var resultJson := parse(jsonString.value);
    if resultJson.SyntaxError? {
      return Failed(ParseFailure(i + 1));
    }
    if resultJson.NullValue? {
      return Failed(NullResult(i + 1));
    }
    if resultJson.postAnalysis.NotAnArray? {
      return Failed(MissingPostAnalysis(i + 1));
    }
    var postAnalysis := resultJson.postAnalysis.items;
    if !AllLabelled(postAnalysis) {
      return Failed(RenderFailure(i + 1));
    }
    return Analyzed(postAnalysis);
  }

  /**
   * An ok reply whose body carries the JSON text in a ```json fence (prose before it without
   * backticks) gets through exactly when every item of its `post_analysis` array is labelled,
   * and then contributes that array.
   */
  lemma FencedReplyAnalyzed(i: nat, batch: seq<string>, server: (nat, seq<string>) -> Response,
                            parse: string -> Parsed, prose: string, w1: string, json: string,
                            w2: string, rest: string, items: seq<PostItem>)
    requires server(i, batch).Reply? && IsOk(server(i, batch).status)
    requires '`' !in prose && '`' !in json && AllSpace(w1) && AllSpace(w2)
    requires json != "" && IsTrimmed(json)
    requires server(i, batch).body == prose + FENCE_OPEN + w1 + json + w2 + FENCE_CLOSE + rest
    requires parse(json) == Value(Items(items))
    ensures BatchStep(i, batch, server, parse).Analyzed? <==> AllLabelled(items)
    ensures AllLabelled(items) ==> BatchStep(i, batch, server, parse) == Analyzed(items)
  {
    FencedRoundTrip(prose, w1, json, w2, rest, server(i, batch).body);
  }

  /**
   * An ok reply without a usable fence is reported as an invalid response for its batch exactly
   * when its body lacks a '{' or a '}'.
   */
  lemma MissingBraceIsInvalid(i: nat, batch: seq<string>, server: (nat, seq<string>) -> Response,
                              parse: string -> Parsed)
    requires server(i, batch).Reply? && IsOk(server(i, batch).status)
    requires NoUsableFence(server(i, batch).body)
    ensures var body := server(i, batch).body;
            BatchStep(i, batch, server, parse) == Failed(InvalidResponse(i + 1))
            <==> ('{' !in body || '}' !in body)
  {
    ExtractionFailsIffBraceMissing(server(i, batch).body);
  }

  /**
   * The reassignments of `jsonString` in `performAnalysis`: the non-empty fenced content if
   * there is one, otherwise `substring(indexOf('{'), lastIndexOf('}') + 1)`; `None` where the
   * script throws for a missing brace.
   */
  method LocateJson(resultText: string) returns (r: Option<string>)
    ensures r == ExtractJson(resultText)
  {
    var jsonString := resultText;
    var markdownMatch := FenceCapture(jsonString);
    if markdownMatch.Some? && markdownMatch.value != "" {
      jsonString := markdownMatch.value;
    } else {
      var jsonStartIndex := IndexOf(jsonString, "{", 0);
      var jsonEndIndex := LastIndexOf(jsonString, '}');
      if jsonStartIndex.None? || jsonEndIndex.None? {
        return None;
      }
      jsonString := Substring(jsonString, jsonStartIndex.value, jsonEndIndex.value + 1);
    }
    return Some(jsonString);
  }

  /**
   * The posts sent in a run over the capped list are its first `min(25 * requests, |capped|)`
   * posts, in order: a run that stops early has sent a prefix of the input and nothing else.
   */
  lemma SentPostsArePrefix(posts: seq<string>, server: (nat, seq<string>) -> Response,
                           parse: string -> Parsed, outcome: RunOutcome, requests: nat)
    requires IsRunOf(Chunks(Capped(posts), BATCH_SIZE), server, parse, outcome, requests)
    ensures Concat(Chunks(Capped(posts), BATCH_SIZE)[..requests])
            == posts[..Min(requests * BATCH_SIZE, Min(|posts|, MAX_POSTS))]
  {
    var capped := Capped(posts);
    ChunksPrefix(capped, BATCH_SIZE, requests);
    var m := Min(requests * BATCH_SIZE, |capped|);
    assert capped[..m] == posts[..m];
  }

  /** The file chosen in the upload control and what reading it as UTF-8 text gives. */
  datatype UploadedFile = UploadedFile(name: string, content: FileContent)
  datatype FileContent = Unreadable | Read(text: string)

  /** What the CSV parser reports: its `error` callback, or its `complete` callback with `results.data`. */
  datatype CsvResult = CsvError | CsvParsed(data: Option<seq<Row>>)

  /**
   * The text a script reads back from a text area's `value`: the HTML standard normalises every
   * "\r\n" pair and every remaining lone '\r' to '\n'.
   */
  function TextAreaValue(s: string): (r: string)
    ensures '\r' !in r
    ensures |r| <= |s|
    ensures '\r' !in s ==> r == s
  {
    if s == [] then []
    else if s[0] == '\r' then ['\n'] + TextAreaValue(if |s| >= 2 && s[1] == '\n' then s[2..] else s[1..])
    else [s[0]] + TextAreaValue(s[1..])
  }

  /** Only line breaks are rewritten, into line breaks: the non-whitespace content is kept in order. */
  lemma {:induction false} TextAreaValueKeepsContent(s: string)
    ensures NonSpace(TextAreaValue(s)) == NonSpace(s)
    decreases |s|
  {
    if s != [] {
      var t := if s[0] == '\r' && |s| >= 2 && s[1] == '\n' then s[2..] else s[1..];
      TextAreaValueKeepsContent(t);
      TextAreaValueKeepsContent(s[1..]);
      NonSpaceAppend([s[0]], s[1..]);
      if s[0] == '\r' {
        NonSpaceAppend(['\n'], t);
        if |s| >= 2 && s[1] == '\n' {
          assert s[1..] == [s[1]] + t;
          NonSpaceAppend([s[1]], t);
        } else {
          assert s[1..] == t;
        }
      } else {
        assert TextAreaValue(s) == [s[0]] + TextAreaValue(s[1..]);
        NonSpaceAppend([s[0]], TextAreaValue(s[1..]));
      }
    }
  }

  /** `a` and `b` do not meet in a "\r\n" pair that the join would create. */
  predicate NoPairAcross(a: string, b: string)
  {
    a == [] || a[|a| - 1] != '\r' || b == [] || b[0] != '\n'
  }

  /**
   * What the normalisation does, piece by piece: text is read back independently of what
   * follows it unless the two meet in a "\r\n" pair, a "\r\n" pair and a lone '\r' each become
   * one '\n', and every other character is kept.
   */
  lemma {:induction false} TextAreaValueAppend(a: string, b: string)
    requires NoPairAcross(a, b)
    ensures TextAreaValue(a + b) == TextAreaValue(a) + TextAreaValue(b)
    decreases |a|
  {
    if a != [] {
      var head, t := TextAreaValueStep(a, b);
      var rest := TextAreaValue(t);
      var tail := TextAreaValue(b);
      assert TextAreaValue(t + b) == rest + tail by {
        TextAreaValueAppend(t, b);
      }
      assert head + (rest + tail) == (head + rest) + tail;
    } else {
      assert a + b == b;
    }
  }

  /** One step of the normalisation on `a`, the same whether or not `b` follows it. */
  lemma TextAreaValueStep(a: string, b: string) returns (head: string, t: string)
    requires a != [] && NoPairAcross(a, b)
    ensures TextAreaValue(a) == head + TextAreaValue(t)
    ensures TextAreaValue(a + b) == head + TextAreaValue(t + b)
    ensures |t| < |a| && NoPairAcross(t, b)
  {
    var ab := a + b;
    var n := if a[0] == '\r' && |a| >= 2 && a[1] == '\n' then 2 else 1;
    t := a[n..];
    head := if a[0] == '\r' then ['\n'] else [a[0]];
    assert ab[0] == a[0];
    assert |a| >= 2 ==> ab[1] == a[1];
    assert |a| == 1 && |ab| >= 2 ==> ab[1] == b[0];
    assert ab[n..] == t + b;
    assert t == [] || t[|t| - 1] == a[|a| - 1];
  }

  lemma TextAreaValueUnits(c: char)
    ensures TextAreaValue("\r\n") == "\n" && TextAreaValue("\r") == "\n"
    ensures c != '\r' ==> TextAreaValue([c]) == [c]
    ensures c != '\r' && c != '\n' ==> TextAreaValue(['\r', c]) == ['\n', c]
  {
  }

  /**
   * Posts typed back in after a CSV import: the text box shows the posts joined by blank lines,
   * and the `input` listener splits what it reads back. Non-empty trimmed posts without a blank
   * line or a carriage return inside come back exactly, unless there is a single post that spans
   * lines.
   */
  lemma ShownPostsRoundTrip(posts: seq<string>)
    requires forall i | 0 <= i < |posts| :: IsCleanPost(posts[i]) && '\r' !in posts[i]
    ensures PostsFromInput(TextAreaValue(Join(posts, "\n\n"))) == posts
            <==> !(|posts| == 1 && '\n' in posts[0])
  {
    JoinAvoids(posts, "\n\n", '\r');
    JoinedPostsRoundTripIff(posts);
  }

  /** The posts the page holds and the text shown in the input box. */
  class Session {
    var inputText: string
    var currentPosts: seq<string>

    /**
     * Every post held is non-empty and trimmed, whichever handler produced it, and the text read
     * from the input box holds no carriage return.
     */
    predicate Valid()
      reads this
    {
      && (forall p | p in currentPosts :: p != "" && IsTrimmed(p))
      && '\r' !in inputText
    }

    /** The page as loaded: no text and no posts. */
    constructor()
      ensures inputText == "" && currentPosts == []
      ensures Valid()
    {
      inputText := "";
      currentPosts := [];
    }

    /** The `input` listener: the posts are re-split from the box's value after `text` was entered. */
    method OnTextInput(text: string)
      modifies this
      ensures inputText == TextAreaValue(text) && currentPosts == PostsFromInput(inputText)
      ensures Valid()
    {
      inputText := TextAreaValue(text);
      currentPosts := PostsFromInput(inputText);
      assert forall p | p in currentPosts :: p != "" && IsTrimmed(p) by {
        PostsAreClean(inputText);
      }
    }

    /**
     * `handleFileUpload`: nothing happens without a file; an unreadable file or a CSV parse
     * error clears text and posts; a `.csv` file yields its first-column posts, shown joined
     * by blank lines; any other file is written into the box and its posts are split from the
     * box's value, with its line breaks normalised.
     */
    method HandleFileUpload(file: Option<UploadedFile>, papa: string -> CsvResult)
      modifies this
      ensures file.None? ==> inputText == old(inputText) && currentPosts == old(currentPosts)
      ensures file.Some? && file.value.content.Unreadable? ==> inputText == "" && currentPosts == []
      ensures file.Some? && file.value.content.Read? && EndsWith(file.value.name, ".csv") ==>
                match papa(file.value.content.text)
                case CsvError => inputText == "" && currentPosts == []
                case CsvParsed(data) =>
                  && currentPosts == (if data.Some? then CsvPosts(data.value) else [])
                  && inputText == TextAreaValue(Join(currentPosts, "\n\n"))
      ensures file.Some? && file.value.content.Read? && !EndsWith(file.value.name, ".csv") ==>
                && inputText == TextAreaValue(file.value.content.text)
                && currentPosts == PostsFromInput(inputText)
      ensures old(Valid()) ==> Valid()
    {
      if file.None? {
        return;
      }
      var f := file.value;
      if f.content.Unreadable? {
        inputText := "";
        currentPosts := [];
        return;
      }
      var rawFileContent := f.content.text;
      if EndsWith(f.name, ".csv") {
        match papa(rawFileContent)
        case CsvError =>
          inputText := "";
          currentPosts := [];
        case CsvParsed(data) =>
          var parsedCsvPosts := CollectCsvPosts(data);
          if data.Some? {
            CsvPostsShape(data.value);
          }
          currentPosts := parsedCsvPosts;
          inputText := TextAreaValue(Join(currentPosts, "\n\n"));
      } else {
        inputText := TextAreaValue(rawFileContent);
        currentPosts := PostsFromInput(inputText);
        assert forall p | p in currentPosts :: p != "" && IsTrimmed(p) by {
          PostsAreClean(inputText);
        }
      }
    }

    /** `resetTool`: text and posts are cleared. */
    method Reset()
      modifies this
      ensures inputText == "" && currentPosts == []
      ensures Valid()
    {
      inputText := "";
      currentPosts := [];
    }

    /**
     * `performAnalysis`: with no posts nothing is sent; otherwise the first `MAX_POSTS` posts
     * are cut into batches of `BATCH_SIZE` and the batches are run in order.
     */
    method PerformAnalysis(server: (nat, seq<string>) -> Response, parse: string -> Parsed)
      returns (outcome: RunOutcome, requests: nat)
      ensures currentPosts == [] <==> outcome == NothingToAnalyze
      ensures currentPosts == [] ==> requests == 0
      ensures currentPosts != [] ==>
                IsRunOf(Chunks(Capped(currentPosts), BATCH_SIZE), server, parse, outcome, requests)
      ensures requests <= MAX_POSTS / BATCH_SIZE
    {
      if |currentPosts| == 0 {
        return NothingToAnalyze, 0;
      }
      var batches := MakeBatches(currentPosts);
      AtMostTwentyBatches(currentPosts);
      outcome, requests := RunBatches(batches, server, parse);
    }
  }
}
