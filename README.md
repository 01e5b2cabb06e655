# Audio transcription bot: a Dafny model of its core

The system is a Discord bot. It takes the audio attachments posted in the
`#fodder` channel, cuts long recordings into 20-second WAV chunks, and
transcribes the chunks one after another with a remote speech model. Each
request carries a prompt that depends on the chunk's position and on the text
transcribed so far. The bot numbers the chunk transcriptions into one
transcript and posts it back in code blocks. A transcript longer than 2000
characters is first cut into messages of at most 2000 characters; the code
fence then adds 8 more, so a posted message can reach 2008 characters.

The model covers four modules:

- `text.dfy`: module `Wrappers` holds the `Option` type. Module `Text` holds
  the pieces of Python's `str` behaviour the source relies on:
  - `strip()` with Python's whitespace set;
  - `str()` of integers;
  - `join`;
  - prefix, suffix and substring tests.
- `audio_utils.dfy`: module `AudioUtils` models `get_audio_format` and
  `chunk_audio`:
  - the codec a file name selects;
  - the windows a recording is cut into, and the files they are written to;
  - what `chunk_audio` returns on each path, including its error fallbacks.

  Decoding and export belong to the audio library. They are parameters:
  `decode` gives the length in whole milliseconds or an error, and `exportOk`
  says whether writing a window succeeds.
- `transcriber.dfy`: module `Transcriber` models `_build_chunk_prompt`,
  `transcribe` and `transcribe_chunks`.
  - The remote model is an oracle `service(path, prompt)`. It returns the
    streamed deltas and how the stream ended: finished, timed out or failed.
  - `readable(path)` says whether reading and base64-encoding the file
    succeeds. `transcribe` raises when it does not.
  - `TranscribeChunks` returns the transcript together with a ghost record of
    every call. The record holds the context each call received and what the
    call returned. The contract ties the transcript and the whole protocol to
    that record.
- `discord_bot.dfy`: module `DiscordBot` models two parts of `on_message`:
  - the gate that chooses which attachments are processed;
  - the logic that cuts a finished transcript into messages.

  The splitting is modelled in full:
  - a regular-expression split at the `(k/N)` markers;
  - stripping and dropping blank pieces;
  - packing the pieces into messages of at most 2000 characters, exactly as
    the source's loop does: a piece joins the open message when it fits
    after a space, and otherwise starts a new one;
  - hard cuts of oversized pieces;
  - the character-slicing fallback;
  - the code-block fence.

  `PackStep` is one pass of that loop and `Packing` the whole loop with its
  final flush; `PackPieces` is proved to return exactly `Packing`.
  `SplitMessages` also returns a ghost `glue` list. For each message boundary
  it records whether a space was dropped there or the boundary is a hard cut.
  With it the contract proves that the messages reassemble exactly to the
  space-joined pieces.

Some behaviours of the code are easy to misread; the model keeps them as the
code has them:

- An unknown or missing extension maps to `"wav"`; it is not rejected.
- The context passed on is every non-empty result so far, joined by single
  spaces, not only the most recent one.
- The timeout text `[Transcription timeout]` is a non-empty result, so it
  enters the context like a real transcription.
- The numbered entries are joined by a single space and the whole transcript
  is then stripped; no blank line separates them.
- A recording of zero length is not an error. It is no longer than one chunk,
  so `[audio_path]` is returned.

## Model

| member | source | states |
|---|---|---|
| Text.Strip | src/discord_bot.py:100 | `strip()` gives "" exactly when the text is all whitespace; otherwise the result neither starts nor ends with whitespace, is the infix after the leading whitespace, and only whitespace follows it |
| Text.StripKeepsTrimmed | src/transcriber.py:256 | a text whose two ends are not whitespace is unchanged by `strip()` |
| Text.StripOnlyCutsTail | src/transcriber.py:256 | a text starting with a non-space loses only a whitespace tail under `strip()` |
| Text.NatToString | src/transcriber.py:251 | `str(n)` is a non-empty run of decimal digits with no leading zero |
| Text.NatToStringRoundTrip | src/transcriber.py:251 | reading the decimal rendering back gives the number |
| Text.NatToStringInjective | src/audio_utils.py:93 | distinct numbers render to distinct digit strings |
| Text.IntToString | src/transcriber.py:83 | `str(i)` is `str` of the magnitude, preceded by `-` exactly when `i` is negative |
| AudioUtils.LowerFolds | src/audio_utils.py:18 | `lower()` on ASCII: each upper-case ASCII letter becomes its lower-case letter, none is left, the length is kept, and every other character stays in place |
| AudioUtils.Extension | src/audio_utils.py:18 | `split(".")[-1]` is the dot-free suffix after the last dot, or the whole name when there is no dot |
| AudioUtils.GetAudioFormat | src/audio_utils.py:18-28 | the codec is always one of the seven map values; it is "mp4" exactly for the extension "m4a"; a self-named extension is its own codec; any other extension falls back to "wav" |
| AudioUtils.LoaderHint | src/audio_utils.py:57-69 | the loader is told the codec itself or nothing; of the codecs the format map yields, exactly "aac" and "wma" fall back to auto-detection |
| AudioUtils.CeilDivIndex | src/audio_utils.py:88 | `range(0, lenMs, chunkMs)` visits window `i` exactly when `i * chunkMs < lenMs` |
| AudioUtils.ChunkPath | src/audio_utils.py:93 | chunk `i` is written to a path that starts with `temp_chunks/chunk_`, ends with `.wav`, and holds the decimal `i` in between |
| AudioUtils.Window | src/audio_utils.py:88-93 | window `k` goes to chunk path `k`, starts at `k * chunkMs`, and ends a chunk length later or at the recording's end, whichever comes first |
| AudioUtils.PlanStarts | src/audio_utils.py:88-93 | the windows follow `enumerate(range(0, lenMs, chunkMs))`: window `k` starts at `k * chunkMs` inside the recording and is written to chunk path `k`, and the windows reach the recording's end |
| AudioUtils.ChunkPathInjective | src/audio_utils.py:93 | different windows are written to different files `temp_chunks/chunk_{i}.wav` |
| AudioUtils.WindowFacts | src/audio_utils.py:88-90 | each window is non-empty and at most `chunkMs` long; every window but the last is exactly `chunkMs` long and the next starts where it ends; the last ends at the recording's end |
| AudioUtils.PlanCount | src/audio_utils.py:75-88 | a recording longer than one chunk gets `ceil(lenMs / chunkMs) >= 2` windows |
| AudioUtils.PlanTiles | src/audio_utils.py:88-90 | the windows tile `[0, lenMs)`: they start at 0, have no gaps, and end at `lenMs` |
| AudioUtils.PlanLengths | src/audio_utils.py:88-90 | all windows but the last hold `chunkMs`; the last holds `lenMs mod chunkMs`, or `chunkMs` when that is 0 |
| AudioUtils.LastWindowLength | src/audio_utils.py:88-90 | the arithmetic of the last window: `lenMs - (n - 1) * chunkMs` is the remainder, or a whole chunk |
| AudioUtils.PlanCovers | src/audio_utils.py:88-90 | every millisecond lies in exactly one window, window `t / chunkMs` |
| AudioUtils.ChunkAudio | src/audio_utils.py:52-106 | a load error, a recording no longer than one chunk, or a zero chunk length returns `[audioPath]`; a negative chunk length returns `[]`; otherwise the windows are exported in plan order; all exports succeeding returns the chunk paths in order, and the first failing export returns `[audioPath]` |
| Transcriber.BuildChunkPrompt | src/transcriber.py:51-118 | the prompt is the generic instruction exactly when there is one chunk; every other prompt opens with the chunked-audio introduction |
| Transcriber.SingleChunkPrompt | src/transcriber.py:76-77 | a one-chunk recording gets the generic instruction, whatever the index and context |
| Transcriber.FirstChunkPrompt | src/transcriber.py:80-87 | the first of several chunks names `part 1/N`, ends with the promise that the rest follows, and does not depend on the context |
| Transcriber.FinalOfTwoPrompt | src/transcriber.py:90-99 | the last of two chunks uses the wording without a part number and ends with `Full context: ` and the rendered context |
| Transcriber.FinalOfManyPrompt | src/transcriber.py:100-108 | the last of more than two chunks names `(part N/N)` and ends with the rendered context |
| Transcriber.MiddleChunkPrompt | src/transcriber.py:110-118 | a middle chunk names `part i+1/N`, says it starts and ends abruptly, and ends with the rendered context |
| Transcriber.CollectedAppend | src/transcriber.py:173-176 | collecting a stream in two stretches gives the collection of the whole stream |
| Transcriber.CollectedEmpty | src/transcriber.py:173-178 | the collected text is empty exactly when no streamed chunk carried text |
| Transcriber.CallOutcome | src/transcriber.py:141-185 | the call raises exactly when the file cannot be read; a timeout still yields a usable text, and any other failure yields none |
| Transcriber.Transcribe | src/transcriber.py:141-185 | raises exactly when the file cannot be encoded; otherwise returns the in-order concatenation of the deltas when the stream finishes, the timeout text on a timeout, and "" on any other failure |
| Transcriber.Successes | src/transcriber.py:227-233 | the accumulated texts are all non-empty and no more numerous than the results |
| Transcriber.ContextAppend | src/transcriber.py:226-233 | a non-empty result is appended to the context after one space, or becomes the context when there was none; an empty result or an exception leaves the context unchanged |
| Transcriber.ContextNoneIffNoSuccess | src/transcriber.py:221-223 | the context passed is `None` exactly when no earlier chunk returned text |
| Transcriber.TimeoutEntersContext | src/transcriber.py:227-233 | after a timeout the context is non-empty and ends with the timeout text |
| Transcriber.Entry | src/transcriber.py:227-243 | the entry is never empty: the text when there is one, otherwise the empty-transcription or error marker naming chunk `i + 1` |
| Transcriber.EntriesAppend | src/transcriber.py:226-243 | each pass appends exactly the new chunk's entry to the list |
| Transcriber.Numbered | src/transcriber.py:246-252 | no entries give the empty text; otherwise the concatenation ends with the last entry and one space |
| Transcriber.NumberedStart | src/transcriber.py:246-252 | a non-empty numbered concatenation begins with `(1/N) ` |
| Transcriber.AssembledShape | src/transcriber.py:246-256 | the stripped transcript begins with `(1/N)`, is a prefix of the numbered concatenation, and only whitespace was cut |
| Transcriber.ProtocolStep | src/transcriber.py:214-224 | one more call made with the accumulated context keeps the sequential protocol |
| Transcriber.TranscribeNext | src/transcriber.py:215-243 | one loop pass calls `transcribe` for chunk `i` with the context (`None` when empty), records the chunk's entry, and carries the context on as `ContextAppend` says |
| Transcriber.NumberEntries | src/transcriber.py:246-252 | the numbering loop yields `(k/N) entry ` for k = 1 .. n in order |
| Transcriber.TranscribeChunks | src/transcriber.py:204-256 | chunks are transcribed in order, each call receiving the space-joined earlier non-empty results (or `None`); one chunk returns its `transcribe` result unchanged; otherwise the result is the stripped numbered concatenation of the entries |
| DiscordBot.AudioOnly | src/discord_bot.py:51-54 | the attachments kept are exactly those with a non-empty `audio/` content type, each as many times as it is attached |
| DiscordBot.AttachmentsToProcess | src/discord_bot.py:43-54 | an attachment is processed exactly when the author is not the bot, the channel is `fodder`, and its content type is audio, as many times as it is attached; the bot's own messages and other channels give nothing |
| DiscordBot.MarkerAt | src/discord_bot.py:97 | a marker takes at least five characters and opens with `(` and a digit |
| DiscordBot.MarkerAtIff | src/discord_bot.py:97 | the digit-run test matches exactly the texts `(`, digits, `/`, digits, `)` that `\(\d+/\d+\)` matches |
| DiscordBot.MarkersFrom | src/discord_bot.py:97-98 | the list holds exactly the positions where a marker begins, in increasing order |
| DiscordBot.Bounds | src/discord_bot.py:97-98 | the cut positions run from 0 to the text's end, in order |
| DiscordBot.BoundsAreMarkers | src/discord_bot.py:97-98 | the interior cut positions are exactly the marker positions |
| DiscordBot.RawPieces | src/discord_bot.py:98 | the split gives one piece more than there are markers |
| DiscordBot.RawPiecesConcat | src/discord_bot.py:98 | `re.split` loses and reorders nothing: the pieces concatenate back to the text |
| DiscordBot.RawPiecesStartAtMarkers | src/discord_bot.py:97-98 | every piece after the first starts at a marker, and no marker begins strictly inside a piece |
| DiscordBot.StrippedNonBlank | src/discord_bot.py:99-101 | the comprehension keeps at most as many pieces as it gets, and none of them is empty |
| DiscordBot.StrippedNonBlankEmpty | src/discord_bot.py:99-101 | nothing survives exactly when every piece is whitespace only |
| DiscordBot.StrippedNonBlankTrimmed | src/discord_bot.py:99-101 | every surviving piece neither starts nor ends with whitespace |
| DiscordBot.Pieces | src/discord_bot.py:97-101 | the pieces to pack are all non-empty |
| DiscordBot.PiecesEmptyIffBlank | src/discord_bot.py:97-103 | there are no pieces, so the fallback runs, exactly when the transcript is all whitespace |
| DiscordBot.TagIsMarker | src/discord_bot.py:97 | a `(k/N) ` tag written by the transcript assembly is a place where the bot cuts |
| DiscordBot.Slices | src/discord_bot.py:139-144 | slicing gives nothing exactly for the empty text; every slice has 1 to `width` characters; all but the last have exactly `width`; a text longer than `width` gives at least two |
| DiscordBot.SlicesConcat | src/discord_bot.py:139-144 | the slices concatenate back to the text |
| DiscordBot.SlicesAt | src/discord_bot.py:123-130 | slice `k` is `s[k*width : k*width + width]`, clipped at the end |
| DiscordBot.PackFirstCut | src/discord_bot.py:118-132 | a first piece that is too long is cut into slices, and its last slice stays open |
| DiscordBot.PackJoin | src/discord_bot.py:106-111 | a piece that fits joins the current message after one space, and the packing invariant is kept |
| DiscordBot.PackFlush | src/discord_bot.py:114-118 | a piece that does not fit flushes the current message and opens the next; the invariant is kept |
| DiscordBot.PackFlushCut | src/discord_bot.py:114-132 | an oversized piece flushes the current message and is hard-cut; its last slice stays open; the invariant is kept |
| DiscordBot.PackStep | src/discord_bot.py:106-132 | one pass of the packing loop never changes a message already flushed, and leaves an open message of 1 to `maxLen` characters after a non-empty piece |
| DiscordBot.PackStepPacked | src/discord_bot.py:106-132 | one pass keeps the packing invariant: the flushed and open messages are within the width, reassemble to the pieces seen so far, cut hard only after full messages, and never leave two space-separated messages that would fit in one |
| DiscordBot.PackAllPacked | src/discord_bot.py:103-132 | after any non-empty run of non-empty pieces the loop's state satisfies the packing invariant |
| DiscordBot.PackingShape | src/discord_bot.py:103-136 | the messages the loop and its final flush produce are at least one, each of 1 to `maxLen` characters; they reassemble exactly to the pieces joined by single spaces; a hard cut only follows a full message; no two messages separated by a dropped space would have fitted in one |
| DiscordBot.PackingJoinsWhenFits | src/discord_bot.py:105-118 | a piece joins the open message whenever it fits: the entries `(1/3) a`, `(2/3) b`, `(3/3) c` at width 16 give `(1/3) a (2/3) b` and `(3/3) c` |
| DiscordBot.PackPiece | src/discord_bot.py:106-132 | one pass of the loop: a piece that fits after a space joins the open message (or opens it); otherwise the open message, if any, is flushed and the piece opens the next one; a piece longer than `maxLen` is then cut into slices, all but the last flushed and the last left open |
| DiscordBot.PackPieces | src/discord_bot.py:103-136 | the loop over the pieces and the final flush return exactly `Packing`, the fold of `PackStep` over the pieces, whose shape `PackingShape` states |
| DiscordBot.SplitMessages | src/discord_bot.py:91-144 | the messages are the packed pieces, or the fixed-width slices of the text when there are no pieces; every message has 1 to `maxLen` characters and a non-empty text gives at least one; with pieces, the messages reassemble to the space-joined pieces, with hard cuts only after full messages and no two space-separated messages that would fit in one |
| DiscordBot.Fenced | src/discord_bot.py:148 | the fenced message starts with "```\n", ends with "\n```", and is 8 characters longer |
| DiscordBot.FenceAll | src/discord_bot.py:147-148 | each message is sent fenced, in order |
| DiscordBot.ReplyWith | src/discord_bot.py:89-151 | a transcript of at most `width` characters is sent as one fenced message; a longer one is sent as its split messages, each fenced, in order, at least one and each within `width + 8` characters |
| DiscordBot.Reply | src/discord_bot.py:89-151 | the bot's reply: one fenced message up to 2000 characters; otherwise the fenced messages of the split at 2000, each at most 2008 characters; a transcript of 1993 to 2000 characters goes out as one message over Discord's 2000-character limit |
| DiscordBot.FullLengthReplyOverflows | src/discord_bot.py:151 | a transcript of exactly 2000 characters goes out as a 2008-character message, over Discord's limit |
| DiscordBot.ReplyWithinLimit | src/discord_bot.py:89-151 | with the fence counted against the limit, no sent message exceeds 2000 characters; a transcript of up to 1992 characters is one fenced message, and a longer one is sent in full as the fenced messages of the split at 1992, at least one |

## Left out

- The remote client (`AsyncOpenAI`), the request's model options, `asyncio.timeout` and the streaming transport are not modelled. The service is an oracle that returns the streamed deltas and how the stream ended, which includes whether the timeout fired.
- `_encode_audio`: only whether it succeeds is modelled, through `readable`. The base64 payload is not modelled.
- `print` calls and the logged messages are left out.
- pydub decoding and WAV export are parameters. The length of a recording is taken in whole milliseconds, which is what `len(audio)` gives.
- The float comparison `len(audio) / 1000 <= chunk_length_s` is modelled as the exact integer test `lenMs <= chunkLengthS * 1000`. Float rounding for huge lengths is not modelled.
- Creating `temp_chunks` and `downloads` is assumed to succeed.
- AudioUtils.LowerFolds: only ASCII letters are case-folded, and every other character is kept, so the length never changes. Python also lower-cases letters outside ASCII (`É` becomes `é`, and `İ` becomes two characters). Of those, only U+212A and U+0130 lower-case into ASCII (`k` and `i` followed by a combining dot), and neither result occurs in the format map's keys, so the chosen codec is as in Python.
- DiscordBot.MarkerAtIff: `\d` is taken as the ASCII digits, while Python's `str` regular expressions match every Unicode decimal digit. The `(k/N)` tags the transcript assembly writes use ASCII digits, but an entry is the service's own text: a marker written with other decimal digits inside a transcription (such as `(١/٢)`) is a cut point in Python and not in the model, so `Pieces`, `Split` and the sent messages then differ from the source.
- In `on_message`, the download, writing the transcript to a timestamped file, the cleanup of temporary files and the event wiring are not modelled. `channel.send` becomes the list of sent texts. The error reply (src/discord_bot.py:153-158) and the exceptions Discord raises for an over-long message are not modelled.
- `main.py` (start-up and environment loading) is not part of this model.
- Transcriber.NumberEntries: the unnumbered branch of the numbering loop (src/transcriber.py:253-254) is not modelled. It runs only when there is at most one chunk, and then the loop is either skipped by the early return or has no entries.
- DiscordBot.PackPiece and Transcriber.TranscribeNext are the bodies of the source's loops, written as methods. Their callers run them in the same order as the source does.

## Findings

| source | as written | input that shows it | evidently intended | confidence | as-written member | corrected member |
|---|---|---|---|---|---|---|
| src/discord_bot.py:89-151 | The 2000-character limit is applied to the text before it is wrapped in a code fence, and the fence adds 8 characters. | Any transcript of 1993 to 2000 characters goes out as one message of 2001 to 2008 characters. A longer transcript packs messages of up to 2000 characters and sends each as up to 2008. | Count the fence against the limit, that is, pack to 1992 characters. | not executed | DiscordBot.Reply | DiscordBot.ReplyWithinLimit |
