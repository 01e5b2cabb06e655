/**
 * Chunk-aware prompting and the sequential stitching of chunk transcriptions
 * (src/transcriber.py). The remote model is a parameter: `service(path, prompt)`
 * is the streamed response the model gives for that audio and that prompt,
 * and `readable(path)` says whether reading and base64-encoding the file
 * succeeds (when it does not, `transcribe` raises).
 */
module Transcriber {
  import opened Wrappers
  import opened Text

  // ---------------------------------------------------------------- prompts

  const SinglePrompt := "Give a thorough description of the audio."
  const Intro := "Give a thorough description of the chunked audio. You are currently listening to "
  const FirstTail := " meaning it will abruptly end and may lack some context. The rest of the audio will be described in a later API request and "
  const FirstEnd := "concatenated to this response."
  const FinalOfTwoBody := "the final chunk meaning it will abruptly start and may lack some context. Continue from where the previous request left off and note that certain basic details (like initial audio quality) have already been described. "
  const FinalChunk := "the final chunk "
  const FinalRest := " meaning it will abruptly start and may lack some context. Continue from where the previous request left off and note that certain basic details have already been described. "
  const MiddleHead := " meaning it will abruptly start/end"
  const MiddleRest := " and may lack some context. Continue from where the previous request left off and note that certain basic details have already been described. "
  const ContextTag := "Full context: "

  /** How an f-string renders an `Optional[str]`: `None` becomes the text "None". */
  function Render(context: Option<string>): string {
    match context
    case None => "None"
    case Some(s) => s
  }

  /** `f"{k}/{n}"`. */
  function PartLabel(k: int, n: int): string {
    IntToString(k) + "/" + IntToString(n)
  }

  /** The closing `Full context: {previous_context}` of every prompt after the first. */
  function ContextLine(previousContext: Option<string>): string {
    ContextTag + Render(previousContext)
  }

  /**
   * `_build_chunk_prompt`: the instruction sent with chunk `chunkIndex` of
   * `totalChunks`, chosen by the chunk's position. Only a recording of one
   * chunk gets the generic instruction; every other prompt opens with the
   * chunked-audio introduction.
   */
  function BuildChunkPrompt(chunkIndex: int, totalChunks: int, previousContext: Option<string>): (prompt: string)
    ensures prompt == SinglePrompt <==> totalChunks == 1
    ensures totalChunks != 1 ==> StartsWith(prompt, Intro)
  {
    var chunkNumber := chunkIndex + 1;
    if totalChunks == 1 then
      SinglePrompt
    else if chunkIndex == 0 then
      var part := "part " + PartLabel(chunkNumber, totalChunks);
      StartsWithPrefix(Intro, part);
      StartsWithExtend(Intro + part, FirstTail, Intro);
      StartsWithExtend(Intro + part + FirstTail, FirstEnd, Intro);
      Intro + part + FirstTail + FirstEnd
    else if chunkIndex == totalChunks - 1 then
      if totalChunks == 2 then
        StartsWithPrefix(Intro, FinalOfTwoBody);
        StartsWithExtend(Intro + FinalOfTwoBody, ContextLine(previousContext), Intro);
        Intro + FinalOfTwoBody + ContextLine(previousContext)
      else
        var part := "(part " + PartLabel(chunkNumber, totalChunks) + ")";
        StartsWithPrefix(Intro, FinalChunk);
        StartsWithExtend(Intro + FinalChunk, part, Intro);
        StartsWithExtend(Intro + FinalChunk + part, FinalRest, Intro);
        StartsWithExtend(Intro + FinalChunk + part + FinalRest, ContextLine(previousContext), Intro);
        Intro + FinalChunk + part + FinalRest + ContextLine(previousContext)
    else
      var part := "part " + PartLabel(chunkNumber, totalChunks) + MiddleHead;
      StartsWithPrefix(Intro, part);
      StartsWithExtend(Intro + part, MiddleRest, Intro);
      StartsWithExtend(Intro + part + MiddleRest, ContextLine(previousContext), Intro);
      Intro + part + MiddleRest + ContextLine(previousContext)
  }

  /** A recording of one chunk gets the generic instruction, whatever the index and context. */
  lemma SingleChunkPrompt(chunkIndex: int, previousContext: Option<string>)
    ensures BuildChunkPrompt(chunkIndex, 1, previousContext) == SinglePrompt
  {
  }

  /**
   * The first of several chunks names part `1/N`, ends with the promise that
   * the rest follows, and is the same whatever context is passed.
   */
  lemma FirstChunkPrompt(totalChunks: int, previousContext: Option<string>, otherContext: Option<string>)
    requires totalChunks != 1
    ensures var prompt := BuildChunkPrompt(0, totalChunks, previousContext);
      StartsWith(prompt, Intro)
      && Contains(prompt, "part " + PartLabel(1, totalChunks))
      && EndsWith(prompt, FirstEnd)
      && prompt == BuildChunkPrompt(0, totalChunks, otherContext)
  {
    var part := "part " + PartLabel(1, totalChunks);
    StartsWithPrefix(Intro, part);
    StartsWithExtend(Intro + part, FirstTail, Intro);
    StartsWithExtend(Intro + part + FirstTail, FirstEnd, Intro);
    ContainsSuffix(Intro, part);
    ContainsExtend(Intro + part, FirstTail, part);
    ContainsExtend(Intro + part + FirstTail, FirstEnd, part);
    EndsWithSuffix(Intro + part + FirstTail, FirstEnd);
  }

  /** The final chunk of two: the wording without a part number, then the context. */
  lemma FinalOfTwoPrompt(previousContext: Option<string>)
    ensures var prompt := BuildChunkPrompt(1, 2, previousContext);
      StartsWith(prompt, Intro)
      && EndsWith(prompt, ContextLine(previousContext))
      && prompt == Intro + FinalOfTwoBody + ContextLine(previousContext)
  {
    var c := ContextLine(previousContext);
    StartsWithPrefix(Intro, FinalOfTwoBody);
    StartsWithExtend(Intro + FinalOfTwoBody, c, Intro);
    EndsWithSuffix(Intro + FinalOfTwoBody, c);
  }

  /** The final chunk of more than two names `(part N/N)` and ends with the context. */
  lemma FinalOfManyPrompt(totalChunks: int, previousContext: Option<string>)
    requires totalChunks != 1 && totalChunks != 2 && totalChunks != 0
    ensures var prompt := BuildChunkPrompt(totalChunks - 1, totalChunks, previousContext);
      StartsWith(prompt, Intro)
      && Contains(prompt, "(part " + PartLabel(totalChunks, totalChunks) + ")")
      && EndsWith(prompt, ContextLine(previousContext))
  {
    var c := ContextLine(previousContext);
    var part := "(part " + PartLabel(totalChunks, totalChunks) + ")";
    StartsWithPrefix(Intro, FinalChunk);
    StartsWithExtend(Intro + FinalChunk, part, Intro);
    StartsWithExtend(Intro + FinalChunk + part, FinalRest, Intro);
    StartsWithExtend(Intro + FinalChunk + part + FinalRest, c, Intro);
    ContainsSuffix(Intro + FinalChunk, part);
    ContainsExtend(Intro + FinalChunk + part, FinalRest, part);
    ContainsExtend(Intro + FinalChunk + part + FinalRest, c, part);
    EndsWithSuffix(Intro + FinalChunk + part + FinalRest, c);
  }

  /** A middle chunk names part `i+1/N`, says it starts and ends abruptly, and ends with the context. */
  lemma MiddleChunkPrompt(chunkIndex: int, totalChunks: int, previousContext: Option<string>)
    requires totalChunks != 1 && chunkIndex != 0 && chunkIndex != totalChunks - 1
    ensures var prompt := BuildChunkPrompt(chunkIndex, totalChunks, previousContext);
      StartsWith(prompt, Intro)
      && Contains(prompt, "part " + PartLabel(chunkIndex + 1, totalChunks) + MiddleHead)
      && EndsWith(prompt, ContextLine(previousContext))
  {
    var c := ContextLine(previousContext);
    var part := "part " + PartLabel(chunkIndex + 1, totalChunks) + MiddleHead;
    StartsWithPrefix(Intro, part);
    StartsWithExtend(Intro + part, MiddleRest, Intro);
    StartsWithExtend(Intro + part + MiddleRest, c, Intro);
    ContainsSuffix(Intro, part);
    ContainsExtend(Intro + part, MiddleRest, part);
    ContainsExtend(Intro + part + MiddleRest, c, part);
    EndsWithSuffix(Intro + part + MiddleRest, c);
  }

  // ------------------------------------------------------- one chunk: transcribe

  /** One streamed chunk of the reply: the delta content of each choice, if any. */
  datatype StreamChunk = StreamChunk(choices: seq<Option<string>>)

  /** How the request ended: the stream ran out, the timeout fired, or another exception was raised. */
  datatype StreamEnd = Finished | TimedOut | Failed

  /** What the model service does with one request. */
  datatype Response = Response(stream: seq<StreamChunk>, end: StreamEnd)

  /** What a call to `transcribe` does: return a string, or raise. */
  datatype CallResult = Returned(text: string) | Raised

  const TimeoutText := "[Transcription timeout]"

  /** The text one streamed chunk contributes: its first choice's delta content. */
  function DeltaText(c: StreamChunk): string {
    if |c.choices| > 0 && c.choices[0].Some? then c.choices[0].value else ""
  }

  /** The in-order concatenation of the streamed delta contents. */
  function Collected(stream: seq<StreamChunk>): string {
    if |stream| == 0 then "" else Collected(stream[..|stream| - 1]) + DeltaText(stream[|stream| - 1])
  }

  /** Collecting two stretches of a stream one after the other gives the collection of the whole. */
  lemma {:induction false} CollectedAppend(a: seq<StreamChunk>, b: seq<StreamChunk>)
    ensures Collected(a + b) == Collected(a) + Collected(b)
    decreases |b|
  {
    if |b| > 0 {
      assert (a + b)[..|a + b| - 1] == a + b[..|b| - 1];
      CollectedAppend(a, b[..|b| - 1]);
    } else {
      assert a + b == a;
    }
  }

  /** A stream collects to "" exactly when none of its chunks carried text. */
  lemma {:induction false} CollectedEmpty(stream: seq<StreamChunk>)
    ensures Collected(stream) == "" <==> forall i | 0 <= i < |stream| :: DeltaText(stream[i]) == ""
    decreases |stream|
  {
    if |stream| > 0 {
      var front := stream[..|stream| - 1];
      CollectedEmpty(front);
      assert forall i | 0 <= i < |front| :: front[i] == stream[i];
    }
  }

  /**
   * What `transcribe` yields for a given file readability and service
   * response: it raises exactly when the file cannot be read, a timeout
   * still counts as a transcription, and any other failure does not.
   */
  function CallOutcome(readable: bool, response: Response): (r: CallResult)
    ensures r.Raised? <==> !readable
    ensures readable && response.end == TimedOut ==> Succeeded(r)
    ensures readable && response.end == Failed ==> !Succeeded(r)
  {
    if !readable then Raised
    else match response.end
      case Finished => Returned(Collected(response.stream))
      case TimedOut => Returned(TimeoutText)
      case Failed => Returned("")
  }

  /**
   * `transcribe`: encodes the file (which raises when it cannot be read),
   * builds the prompt, sends it, and concatenates the streamed deltas. A
   * timeout yields the timeout text and any other failure the empty string,
   * discarding what had been collected.
   */
  method Transcribe(audioPath: string, chunkIndex: int, totalChunks: int, previousContext: Option<string>,
                    readable: string -> bool, service: (string, string) -> Response)
    returns (r: CallResult)
    ensures var response := service(audioPath, BuildChunkPrompt(chunkIndex, totalChunks, previousContext));
      r == CallOutcome(readable(audioPath), response)
    ensures r.Raised? <==> !readable(audioPath)
    ensures var response := service(audioPath, BuildChunkPrompt(chunkIndex, totalChunks, previousContext));
      readable(audioPath) && response.end == Finished ==> r == Returned(Collected(response.stream))
    ensures var response := service(audioPath, BuildChunkPrompt(chunkIndex, totalChunks, previousContext));
      readable(audioPath) && response.end == TimedOut ==> r == Returned(TimeoutText)
    ensures var response := service(audioPath, BuildChunkPrompt(chunkIndex, totalChunks, previousContext));
      readable(audioPath) && response.end == Failed ==> r == Returned("")
  {
    if !readable(audioPath) {
      return Raised;
    }
    var prompt := BuildChunkPrompt(chunkIndex, totalChunks, previousContext);
    var response := service(audioPath, prompt);
    var transcription := "";
    var i := 0;
    while i < |response.stream|
      invariant i <= |response.stream|
      invariant transcription == Collected(response.stream[..i])
    {
      var chunk := response.stream[i];
      if |chunk.choices| > 0 && chunk.choices[0].Some? && chunk.choices[0].value != "" {
        transcription := transcription + chunk.choices[0].value;
      }
      assert response.stream[..i + 1][..i] == response.stream[..i];
      i := i + 1;
    }
    assert response.stream[..i] == response.stream;
    match response.end
    case Finished => r := Returned(transcription);
    case TimedOut => r := Returned(TimeoutText);
    case Failed => r := Returned("");
  }

  // ------------------------------------------------- all chunks: transcribe_chunks

  /** The non-empty texts among the results, in order. */
  function Successes(results: seq<CallResult>): (texts: seq<string>)
    ensures forall k | 0 <= k < |texts| :: texts[k] != ""
    ensures |texts| <= |results|
  {
    if |results| == 0 then []
    else
      var last := results[|results| - 1];
      Successes(results[..|results| - 1]) + (if last.Returned? && last.text != "" then [last.text] else [])
  }

  /** The context accumulated from the results so far: the non-empty ones, joined by single spaces. */
  function Context(results: seq<CallResult>): string {
    Join(Successes(results), " ")
  }

  /** The `previous_context` argument: `None` when nothing has accumulated yet. */
  function ContextArg(accumulated: string): Option<string> {
    if accumulated == "" then None else Some(accumulated)
  }

  /** True when a result adds to the context: a returned, non-empty text. */
  predicate Succeeded(r: CallResult) {
    r.Returned? && r.text != ""
  }

  /**
   * How one more result moves the context: a non-empty text is appended
   * after a single space (or becomes the context when there was none);
   * an empty result or an exception leaves it as it was.
   */
  lemma ContextAppend(results: seq<CallResult>, x: CallResult)
    ensures Context(results + [x]) ==
      if !Succeeded(x) then Context(results)
      else if Context(results) == "" then x.text
      else Context(results) + " " + x.text
  {
    assert (results + [x])[..|results|] == results;
    var ss := Successes(results);
    JoinEmpty(ss, " ");
    if Succeeded(x) {
      assert Successes(results + [x]) == ss + [x.text];
      assert (ss + [x.text])[..|ss|] == ss;
    } else {
      assert Successes(results + [x]) == ss;
    }
  }

  /** The context is absent (`None`) exactly when no earlier chunk returned text. */
  lemma {:induction false} ContextNoneIffNoSuccess(results: seq<CallResult>)
    ensures ContextArg(Context(results)) == None <==> forall k | 0 <= k < |results| :: !Succeeded(results[k])
    decreases |results|
  {
    JoinEmpty(Successes(results), " ");
    if |results| > 0 {
      var front := results[..|results| - 1];
      ContextNoneIffNoSuccess(front);
      JoinEmpty(Successes(front), " ");
      assert forall k | 0 <= k < |front| :: front[k] == results[k];
    }
  }

  /** The timeout text is non-empty, so it enters the context like any other text. */
  lemma TimeoutEntersContext(results: seq<CallResult>)
    ensures var c := Context(results + [Returned(TimeoutText)]);
      c != "" && EndsWith(c, TimeoutText)
  {
    ContextAppend(results, Returned(TimeoutText));
    if Context(results) != "" {
      EndsWithSuffix(Context(results) + " ", TimeoutText);
    } else {
      EndsWithSuffix("", TimeoutText);
    }
  }

  /** The entry recorded for chunk `i`: its text, or a marker naming chunk `i + 1`. */
  function Entry(i: nat, r: CallResult): (entry: string)
    ensures entry != ""
    ensures Succeeded(r) ==> entry == r.text
    ensures r == Returned("") ==> entry == "[Empty transcription for chunk " + NatToString(i + 1) + "]"
    ensures r.Raised? ==> entry == "[Error in chunk " + NatToString(i + 1) + "]"
  {
    match r
    case Raised => "[Error in chunk " + NatToString(i + 1) + "]"
    case Returned(t) => if t != "" then t else "[Empty transcription for chunk " + NatToString(i + 1) + "]"
  }

  function Entries(results: seq<CallResult>): seq<string> {
    seq(|results|, i requires 0 <= i < |results| => Entry(i, results[i]))
  }

  /**
   * The numbered concatenation `"(k/N) " + entry + " "` for k = 1, 2, ...:
   * empty for no entries, and otherwise ending with the last entry and a space.
   */
  function Numbered(entries: seq<string>, total: nat): (text: string)
    ensures |entries| == 0 ==> text == ""
    ensures |entries| > 0 ==> EndsWith(text, entries[|entries| - 1] + " ")
  {
    if |entries| == 0 then "" else
      var k := |entries|;
      var front := Numbered(entries[..k - 1], total) + NumberTag(k, total);
      EndsWithSuffix(front, entries[k - 1] + " ");
      assert front + (entries[k - 1] + " ") == front + entries[k - 1] + " ";
      Numbered(entries[..k - 1], total) + NumberTag(k, total) + entries[k - 1] + " "
  }

  /** `f"({k}/{n}) "`. */
  function NumberTag(k: nat, total: nat): string {
    "(" + NatToString(k) + "/" + NatToString(total) + ") "
  }

  lemma EntriesAppend(results: seq<CallResult>, x: CallResult)
    ensures Entries(results + [x]) == Entries(results) + [Entry(|results|, x)]
  {
    var a, b := Entries(results + [x]), Entries(results) + [Entry(|results|, x)];
    assert |a| == |b|;
    forall k | 0 <= k < |a|
      ensures a[k] == b[k]
    {
      if k < |results| {
        assert (results + [x])[k] == results[k];
      }
    }
  }

  /** Appending a result leaves the earlier prefixes of the result list as they were. */
  lemma PrefixesKept(results: seq<CallResult>, x: CallResult)
    ensures forall k | 0 <= k <= |results| :: (results + [x])[..k] == results[..k]
  {
  }

  /** A non-empty numbered concatenation begins with the marker of chunk 1. */
  lemma {:induction false} NumberedStart(entries: seq<string>, total: nat)
    requires |entries| >= 1
    ensures StartsWith(Numbered(entries, total), "(1/" + NatToString(total) + ") ")
    decreases |entries|
  {
    var marker := "(1/" + NatToString(total) + ") ";
    if |entries| == 1 {
      assert entries[..0] == [];
      assert NatToString(1) == "1";
      StartsWithPrefix(marker, entries[0] + " ");
      assert Numbered(entries, total) == marker + (entries[0] + " ");
    } else {
      var front := entries[..|entries| - 1];
      NumberedStart(front, total);
      var rest := "(" + NatToString(|entries|) + "/" + NatToString(total) + ") " + entries[|entries| - 1] + " ";
      assert Numbered(entries, total) == Numbered(front, total) + rest;
      assert (Numbered(front, total) + rest)[..|marker|] == Numbered(front, total)[..|marker|];
    }
  }

  /**
   * The assembled transcript of several chunks: stripping removes only the
   * trailing whitespace, so it still begins with "(1/N) " and is a prefix of
   * the numbered concatenation followed by nothing but whitespace.
   */
  lemma AssembledShape(entries: seq<string>, total: nat)
    requires |entries| >= 1
    ensures var full := Numbered(entries, total);
      var r := Strip(full);
      StartsWith(r, "(1/" + NatToString(total) + ")")
      && r == full[..|r|] && AllSpace(full[|r|..])
  {
    var full := Numbered(entries, total);
    NumberedStart(entries, total);
    var marker := "(1/" + NatToString(total) + ") ";
    assert full[0] == marker[0] == '(';
    StripOnlyCutsTail(full);
    var r := Strip(full);
    var closed := "(1/" + NatToString(total) + ")";
    assert marker[..|closed|] == closed;
    assert !IsSpace(marker[|closed| - 1]);
    // the text before the marker's trailing space is not whitespace, so it survives the strip
    assert |r| >= |closed|;
    assert r[..|closed|] == full[..|closed|] == closed;
  }

  /**
   * The calls recorded so far follow the sequential protocol: call `k` got
   * as context the space-joined non-empty results of calls `0 .. k-1` (or
   * `None` when there were none), and returned what `transcribe` gives for
   * chunk `k` with that context.
   */
  ghost predicate FollowsProtocol(chunkPaths: seq<string>, readable: string -> bool,
                                  service: (string, string) -> Response,
                                  contexts: seq<Option<string>>, results: seq<CallResult>)
  {
    |contexts| == |results| <= |chunkPaths|
    && forall k | 0 <= k < |results| ::
         contexts[k] == ContextArg(Context(results[..k]))
         && results[k] == CallOutcome(readable(chunkPaths[k]),
                                      service(chunkPaths[k], BuildChunkPrompt(k, |chunkPaths|, contexts[k])))
  }

  /** One more call made with the accumulated context keeps the protocol. */
  lemma ProtocolStep(chunkPaths: seq<string>, readable: string -> bool, service: (string, string) -> Response,
                     contexts: seq<Option<string>>, results: seq<CallResult>, x: CallResult)
    requires FollowsProtocol(chunkPaths, readable, service, contexts, results)
    requires |results| < |chunkPaths|
    requires x == CallOutcome(readable(chunkPaths[|results|]),
                              service(chunkPaths[|results|],
                                      BuildChunkPrompt(|results|, |chunkPaths|, ContextArg(Context(results)))))
    ensures FollowsProtocol(chunkPaths, readable, service, contexts + [ContextArg(Context(results))], results + [x])
  {
    var contexts', results' := contexts + [ContextArg(Context(results))], results + [x];
    PrefixesKept(results, x);
    forall k | 0 <= k < |results'|
      ensures contexts'[k] == ContextArg(Context(results'[..k]))
      ensures results'[k] == CallOutcome(readable(chunkPaths[k]),
                                         service(chunkPaths[k], BuildChunkPrompt(k, |chunkPaths|, contexts'[k])))
    {
      if k < |results| {
        assert contexts'[k] == contexts[k] && results'[k] == results[k];
      } else {
        assert results'[..k] == results;
      }
    }
  }

  /**
   * One pass of the loop in `transcribe_chunks`: transcribes chunk `i` with
   * the accumulated context (absent when empty), and returns the call's
   * result, the entry recorded for the chunk, and the context carried on.
   */
  method TranscribeNext(chunkPaths: seq<string>, i: nat, accumulatedContext: string,
                        readable: string -> bool, service: (string, string) -> Response)
    returns (outcome: CallResult, entry: string, nextContext: string)
    requires i < |chunkPaths|
    ensures outcome == CallOutcome(readable(chunkPaths[i]),
                                   service(chunkPaths[i], BuildChunkPrompt(i, |chunkPaths|, ContextArg(accumulatedContext))))
    ensures entry == Entry(i, outcome)
    ensures !Succeeded(outcome) ==> nextContext == accumulatedContext
    ensures Succeeded(outcome) && accumulatedContext == "" ==> nextContext == outcome.text
    ensures Succeeded(outcome) && accumulatedContext != "" ==> nextContext == accumulatedContext + " " + outcome.text
  {
    var previousContext := if accumulatedContext != "" then Some(accumulatedContext) else None;
    outcome := Transcribe(chunkPaths[i], i, |chunkPaths|, previousContext, readable, service);
    nextContext := accumulatedContext;
    match outcome {
      case Returned(chunkTranscription) =>
        if chunkTranscription != "" {
          entry := chunkTranscription;
          if accumulatedContext != "" {
            nextContext := accumulatedContext + " " + chunkTranscription;
          } else {
            nextContext := chunkTranscription;
          }
        } else {
          entry := "[Empty transcription for chunk " + NatToString(i + 1) + "]";
        }
      case Raised =>
        entry := "[Error in chunk " + NatToString(i + 1) + "]";
    }
  }

  /**
   * The numbering loop of `transcribe_chunks`: each entry preceded by its
   * `(k/N) ` tag and followed by a space. (The loop's unnumbered branch serves
   * only a single entry, which never reaches it.)
   */
  method NumberEntries(entries: seq<string>, total: nat) returns (full: string)
    ensures full == Numbered(entries, total)
  {
    full := "";
    var j := 0;
    while j < |entries|
      invariant j <= |entries|
      invariant full == Numbered(entries[..j], total)
    {
      full := full + NumberTag(j + 1, total) + entries[j] + " ";
      assert entries[..j + 1][..j] == entries[..j];
      j := j + 1;
    }
    assert entries[..j] == entries;
  }

  /**
   * `transcribe_chunks`: transcribes the chunks strictly in order, passing each
   * the space-joined history of earlier non-empty results as its context.
   * One chunk: its `transcribe` result unchanged (an exception propagates).
   * Otherwise: the numbered entries joined into one string and stripped.
   * The ghost results record the context each call received and what it gave.
   */
  method TranscribeChunks(chunkPaths: seq<string>, readable: string -> bool, service: (string, string) -> Response)
    returns (r: CallResult, ghost contexts: seq<Option<string>>, ghost results: seq<CallResult>)
    ensures |results| == |chunkPaths|
    ensures FollowsProtocol(chunkPaths, readable, service, contexts, results)
    ensures |chunkPaths| == 1 ==> r == results[0]
    ensures |chunkPaths| != 1 ==> r == Returned(Strip(Numbered(Entries(results), |chunkPaths|)))
  {
    var totalChunks := |chunkPaths|;
    if totalChunks == 1 {
      r := Transcribe(chunkPaths[0], 0, 1, None, readable, service);
      contexts, results := [None], [r];
      assert results[..0] == [];
      return;
    }
    var chunkTranscriptions: seq<string> := [];
    var accumulatedContext := "";
    contexts, results := [], [];
    var i := 0;
    while i < totalChunks
      invariant i <= totalChunks && |results| == i
      invariant FollowsProtocol(chunkPaths, readable, service, contexts, results)
      invariant accumulatedContext == Context(results)
      invariant chunkTranscriptions == Entries(results)
    {
      var outcome, entry, nextContext := TranscribeNext(chunkPaths, i, accumulatedContext, readable, service);
      ContextAppend(results, outcome);
      EntriesAppend(results, outcome);
      ProtocolStep(chunkPaths, readable, service, contexts, results, outcome);
      chunkTranscriptions := chunkTranscriptions + [entry];
      contexts, results := contexts + [ContextArg(accumulatedContext)], results + [outcome];
      accumulatedContext := nextContext;
      i := i + 1;
    }
    var fullTranscription := NumberEntries(chunkTranscriptions, totalChunks);
    r := Returned(Strip(fullTranscription));
  }
}
