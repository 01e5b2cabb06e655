/**
 * Format detection and the slicing of long recordings into fixed-length
 * windows (src/audio_utils.py). Decoding and WAV export belong to the audio
 * library; here they are parameters: `decode` says what loading the file
 * yields (its length in whole milliseconds, or an error), `exportOk` says
 * whether writing one window to its path succeeds.
 */
module AudioUtils {
  import opened Wrappers
  import opened Text

  /** The seven codec names the format map can produce. */
  const Codecs: set<string> := {"wav", "mp3", "ogg", "flac", "aac", "mp4", "wma"}

  /** Extensions recognised by the format map, and what each maps to. */
  const FormatMap: map<string, string> := map[
    "wav" := "wav", "mp3" := "mp3", "ogg" := "ogg", "flac" := "flac",
    "aac" := "aac", "m4a" := "mp4", "wma" := "wma"]

  /** Extensions that name their own codec. */
  const SelfNamed: set<string> := {"wav", "mp3", "ogg", "flac", "aac", "wma"}

  function LowerChar(c: char): char {
    if 'A' <= c <= 'Z' then ((c as int) + 32) as char else c
  }

  /** `str.lower()` on the ASCII letters; see README for the other characters. */
  function Lower(s: string): string {
    seq(|s|, i requires 0 <= i < |s| => LowerChar(s[i]))
  }

  /**
   * Lower-casing turns each upper-case ASCII letter into its lower-case
   * letter, leaves no upper-case ASCII letter, and keeps every other
   * character in place.
   */
  lemma LowerFolds(s: string)
    ensures |Lower(s)| == |s|
    ensures forall i | 0 <= i < |s| :: !('A' <= Lower(s)[i] <= 'Z')
    ensures forall i | 0 <= i < |s| :: !('A' <= s[i] <= 'Z') ==> Lower(s)[i] == s[i]
    ensures forall i | 0 <= i < |s| && 'A' <= s[i] <= 'Z' :: Lower(s)[i] == ((s[i] as int) + 32) as char
  {
  }

  /**
   * `name.split(".")[-1]`: the text after the last dot, or the whole name
   * when it has no dot.
   */
  function Extension(name: string): (ext: string)
    ensures '.' !in ext
    ensures |ext| <= |name| && ext == name[|name| - |ext|..]
    ensures |ext| < |name| ==> name[|name| - |ext| - 1] == '.'
    ensures |ext| == |name| <==> '.' !in name
  {
    if |name| == 0 then ""
    else if name[|name| - 1] == '.' then ""
    else
      var ext := Extension(name[..|name| - 1]) + [name[|name| - 1]];
      assert name[..|name| - 1] + [name[|name| - 1]] == name;
      ext
  }

  /**
   * The codec used to load a file, chosen by its case-folded extension;
   * an extension the map does not know falls back to "wav".
   */
  function GetAudioFormat(filename: string): (codec: string)
    ensures codec in Codecs
    ensures codec == "mp4" <==> Extension(Lower(filename)) == "m4a"
    ensures Extension(Lower(filename)) in SelfNamed ==> codec == Extension(Lower(filename))
    ensures Extension(Lower(filename)) !in FormatMap ==> codec == "wav"
  {
    var ext := Extension(Lower(filename));
    if ext in FormatMap then FormatMap[ext] else "wav"
  }

  /**
   * The loader the source picks for a codec: a format-specific loader for
   * wav, mp3, ogg, flac and mp4, auto-detection (no hint) for the rest.
   */
  function LoaderHint(codec: string): (hint: Option<string>)
    ensures hint.Some? ==> hint.value == codec
    ensures codec in Codecs ==> (hint == None <==> codec == "aac" || codec == "wma")
  {
    if codec in {"wav", "mp3", "ogg", "flac", "mp4"} then Some(codec) else None
  }

  /** What loading a file gives: its length in milliseconds, or an error. */
  datatype Decoded = Decoded(lengthMs: nat) | DecodeError

  /** One exported window: the file it is written to and the slice of the recording. */
  datatype Export = Export(path: string, startMs: nat, endMs: nat)

  function Min(a: int, b: int): int {
    if a <= b then a else b
  }

  /** `ceil(a / b)`. */
  function CeilDiv(a: nat, b: nat): nat
    requires b > 0
  {
    (a + b - 1) / b
  }

  /** Window `i` starts before `a` exactly when `i` is below `ceil(a / b)`. */
  lemma CeilDivIndex(a: nat, b: nat, i: nat)
    requires b > 0
    ensures i < CeilDiv(a, b) <==> i * b < a
  {
    var n := CeilDiv(a, b);
    var r := (a + b - 1) % b;
    assert a + b - 1 == n * b + r;
    if i < n {
      assert i * b <= (n - 1) * b by {
        assert (n - 1) * b - i * b == (n - 1 - i) * b;
      }
      assert (n - 1) * b == n * b - b;
    } else {
      assert i * b >= n * b by {
        assert i * b - n * b == (i - n) * b;
      }
    }
  }

  /** `range(0, a, b)` visits exactly the multiples of `b` below `a`, `ceil(a / b)` of them. */
  lemma CeilDivIndexAll(a: nat, b: nat)
    requires b > 0
    ensures forall i: nat :: i < CeilDiv(a, b) <==> i * b < a
  {
    forall i: nat
      ensures i < CeilDiv(a, b) <==> i * b < a
    {
      CeilDivIndex(a, b, i);
    }
  }

  /**
   * The windows follow `range(0, lenMs, chunkMs)`: window `k` is written to
   * the `k`-th chunk path and starts at `k * chunkMs`, every start lies
   * inside the recording, and the last window reaches its end.
   */
  lemma PlanStarts(lenMs: nat, chunkMs: nat)
    requires chunkMs > 0
    ensures var p := Plan(lenMs, chunkMs);
      (forall k | 0 <= k < |p| :: p[k].path == ChunkPath(k) && p[k].startMs == k * chunkMs < lenMs)
      && |p| * chunkMs >= lenMs
  {
    CeilDivIndexAll(lenMs, chunkMs);
  }

  /** `temp_chunks/chunk_{i}.wav`. */
  function ChunkPath(i: nat): (path: string)
    ensures StartsWith(path, "temp_chunks/chunk_") && EndsWith(path, ".wav")
    ensures |path| == 22 + |NatToString(i)| && path[18..|path| - 4] == NatToString(i)
  {
    StartsWithPrefix("temp_chunks/chunk_", NatToString(i));
    StartsWithExtend("temp_chunks/chunk_" + NatToString(i), ".wav", "temp_chunks/chunk_");
    EndsWithSuffix("temp_chunks/chunk_" + NatToString(i), ".wav");
    "temp_chunks/chunk_" + NatToString(i) + ".wav"
  }

  /** Different windows are written to different files. */
  lemma ChunkPathInjective(i: nat, j: nat)
    requires ChunkPath(i) == ChunkPath(j)
    ensures i == j
  {
    var pre := "temp_chunks/chunk_";
    var a, b := NatToString(i), NatToString(j);
    assert |a| == |b| by {
      assert |pre + a + ".wav"| == |pre + b + ".wav"|;
    }
    assert a == ChunkPath(i)[|pre|..|pre| + |a|];
    assert b == ChunkPath(j)[|pre|..|pre| + |b|];
    NatToStringInjective(i, j);
  }

  /** Window `k`: `[k * chunkMs, min((k + 1) * chunkMs, lenMs))`, written to `chunk_{k}.wav`. */
  function Window(k: nat, lenMs: nat, chunkMs: nat): (w: Export)
    ensures w.path == ChunkPath(k) && w.startMs == k * chunkMs
    ensures w.endMs <= w.startMs + chunkMs && w.endMs <= lenMs
    ensures w.endMs == w.startMs + chunkMs || w.endMs == lenMs
  {
    MulSucc(k, chunkMs);
    Export(ChunkPath(k), k * chunkMs, Min((k + 1) * chunkMs, lenMs))
  }

  /** The windows the slicing loop visits, in order. */
  function Plan(lenMs: nat, chunkMs: nat): seq<Export>
    requires chunkMs > 0
  {
    seq(CeilDiv(lenMs, chunkMs), k requires 0 <= k => Window(k, lenMs, chunkMs))
  }

  lemma MulSucc(k: nat, b: nat)
    ensures (k + 1) * b == k * b + b
  {
  }

  lemma MulMono(i: nat, j: nat, b: nat)
    requires i <= j
    ensures i * b <= j * b
  {
    assert j * b - i * b == (j - i) * b;
  }

  /**
   * Window `k` of a plan: not empty, at most `chunkMs` long, exactly
   * `chunkMs` long and followed without a gap when it is not the last,
   * ending at `lenMs` when it is the last.
   */
  lemma WindowFacts(k: nat, lenMs: nat, chunkMs: nat)
    requires chunkMs > 0 && k < CeilDiv(lenMs, chunkMs)
    ensures var w := Window(k, lenMs, chunkMs);
      w.startMs < w.endMs && w.endMs - w.startMs <= chunkMs
      && (k + 1 < CeilDiv(lenMs, chunkMs) ==>
            w.endMs - w.startMs == chunkMs && w.endMs == Window(k + 1, lenMs, chunkMs).startMs)
      && (k + 1 == CeilDiv(lenMs, chunkMs) ==> w.endMs == lenMs)
  {
    CeilDivIndex(lenMs, chunkMs, k);
    CeilDivIndex(lenMs, chunkMs, k + 1);
    MulSucc(k, chunkMs);
  }

  /** A recording longer than one window is cut into `ceil(lenMs / chunkMs) >= 2` windows. */
  lemma PlanCount(lenMs: nat, chunkMs: nat)
    requires 0 < chunkMs < lenMs
    ensures |Plan(lenMs, chunkMs)| >= 2
    ensures (|Plan(lenMs, chunkMs)| - 1) * chunkMs < lenMs <= |Plan(lenMs, chunkMs)| * chunkMs
  {
    var n := |Plan(lenMs, chunkMs)|;
    CeilDivIndex(lenMs, chunkMs, 1);
    CeilDivIndex(lenMs, chunkMs, n - 1);
    CeilDivIndex(lenMs, chunkMs, n);
  }

  /**
   * The windows tile `[0, lenMs)`: the first starts at 0, each starts where
   * the previous one ends, and the last ends at `lenMs`.
   */
  lemma PlanTiles(lenMs: nat, chunkMs: nat)
    requires chunkMs > 0 && lenMs > 0
    ensures var p := Plan(lenMs, chunkMs);
      |p| >= 1 && p[0].startMs == 0 && p[|p| - 1].endMs == lenMs
      && forall k | 0 <= k < |p| - 1 :: p[k].endMs == p[k + 1].startMs
  {
    var p := Plan(lenMs, chunkMs);
    var n := |p|;
    CeilDivIndex(lenMs, chunkMs, 0);
    WindowFacts(n - 1, lenMs, chunkMs);
    forall k | 0 <= k < n - 1
      ensures p[k].endMs == p[k + 1].startMs
    {
      WindowFacts(k, lenMs, chunkMs);
    }
  }

  /**
   * Every window but the last holds exactly `chunkMs`; the last is not empty,
   * holds at most `chunkMs`, and holds `lenMs mod chunkMs` unless that is 0.
   */
  lemma PlanLengths(lenMs: nat, chunkMs: nat)
    requires chunkMs > 0 && lenMs > 0
    ensures var p := Plan(lenMs, chunkMs);
      (forall k | 0 <= k < |p| - 1 :: p[k].endMs - p[k].startMs == chunkMs)
      && 0 < p[|p| - 1].endMs - p[|p| - 1].startMs <= chunkMs
      && p[|p| - 1].endMs - p[|p| - 1].startMs
         == if lenMs % chunkMs == 0 then chunkMs else lenMs % chunkMs
  {
    var p := Plan(lenMs, chunkMs);
    var n := |p|;
    CeilDivIndex(lenMs, chunkMs, 0);
    forall k | 0 <= k < n - 1
      ensures p[k].endMs - p[k].startMs == chunkMs
    {
      WindowFacts(k, lenMs, chunkMs);
    }
    WindowFacts(n - 1, lenMs, chunkMs);
    LastWindowLength(lenMs, chunkMs);
  }

  /** The last window holds `lenMs mod chunkMs`, or a whole `chunkMs` when that is 0. */
  lemma LastWindowLength(lenMs: nat, chunkMs: nat)
    requires chunkMs > 0 && lenMs > 0
    ensures CeilDiv(lenMs, chunkMs) >= 1
    ensures lenMs - (CeilDiv(lenMs, chunkMs) - 1) * chunkMs
      == if lenMs % chunkMs == 0 then chunkMs else lenMs % chunkMs
  {
    var n := CeilDiv(lenMs, chunkMs);
    CeilDivIndex(lenMs, chunkMs, 0);
    var q, r := lenMs / chunkMs, lenMs % chunkMs;
    assert lenMs == q * chunkMs + r;
    CeilDivIndex(lenMs, chunkMs, q);
    if r == 0 {
      assert q >= 1;
      CeilDivIndex(lenMs, chunkMs, q - 1);
      MulSucc(q - 1, chunkMs);
      assert n == q;
    } else {
      CeilDivIndex(lenMs, chunkMs, q + 1);
      MulSucc(q, chunkMs);
      assert n == q + 1;
    }
  }

  /** Each millisecond `t` of the recording lies in exactly one window, window `t / chunkMs`. */
  lemma PlanCovers(lenMs: nat, chunkMs: nat, t: nat)
    requires chunkMs > 0 && t < lenMs
    ensures var p := Plan(lenMs, chunkMs);
      t / chunkMs < |p| && p[t / chunkMs].startMs <= t < p[t / chunkMs].endMs
      && forall k | 0 <= k < |p| && p[k].startMs <= t < p[k].endMs :: k == t / chunkMs
  {
    var p := Plan(lenMs, chunkMs);
    var j := t / chunkMs;
    assert t == j * chunkMs + t % chunkMs;
    MulMono(0, j, chunkMs);
    CeilDivIndex(lenMs, chunkMs, j);
    MulSucc(j, chunkMs);
    forall k | 0 <= k < |p| && p[k].startMs <= t < p[k].endMs
      ensures k == j
    {
      if k < j {
        MulMono(k + 1, j, chunkMs);
      } else if k > j {
        MulMono(j + 1, k, chunkMs);
      }
    }
  }

  /** What loading `audioPath` yields with the loader its extension selects. */
  function Load(audioPath: string, decode: (string, Option<string>) -> Decoded): Decoded {
    decode(audioPath, LoaderHint(GetAudioFormat(audioPath)))
  }

  /**
   * `chunk_audio`: returns the paths to transcribe, and (second result) the
   * windows written to disk, in order. A recording no longer than the chunk
   * length, an error while loading, a zero chunk length (a zero `range` step)
   * or an export that fails all give back `[audioPath]`; a negative chunk
   * length makes the slicing range empty and gives back no path at all.
   */
  method ChunkAudio(audioPath: string, chunkLengthS: int,
                    decode: (string, Option<string>) -> Decoded, exportOk: Export -> bool)
    returns (chunks: seq<string>, exports: seq<Export>)
    ensures Load(audioPath, decode).DecodeError? ==> chunks == [audioPath] && exports == []
    ensures Load(audioPath, decode).Decoded? && Load(audioPath, decode).lengthMs <= chunkLengthS * 1000
      ==> chunks == [audioPath] && exports == []
    ensures (Load(audioPath, decode).Decoded? && Load(audioPath, decode).lengthMs > 0
             && chunkLengthS == 0) ==> chunks == [audioPath] && exports == []
    ensures Load(audioPath, decode).Decoded? && chunkLengthS < 0 ==> chunks == [] && exports == []
    ensures (Load(audioPath, decode).Decoded? && chunkLengthS > 0
             && Load(audioPath, decode).lengthMs > chunkLengthS * 1000) ==>
      var plan := Plan(Load(audioPath, decode).lengthMs, chunkLengthS * 1000);
      |exports| <= |plan| && exports == plan[..|exports|]
      && (forall k | 0 <= k < |exports| :: exportOk(exports[k]))
      && (|exports| == |plan| ==>
            |chunks| == |plan| && forall k | 0 <= k < |chunks| :: chunks[k] == ChunkPath(k))
      && (|exports| < |plan| ==> !exportOk(plan[|exports|]) && chunks == [audioPath])
  {
    var audio := decode(audioPath, LoaderHint(GetAudioFormat(audioPath)));
    if audio.DecodeError? {
      return [audioPath], [];
    }
    var lenMs := audio.lengthMs;
    if lenMs <= chunkLengthS * 1000 {
      return [audioPath], [];
    }
    var chunkMs := chunkLengthS * 1000;
    if chunkMs == 0 {
      // range() with a zero step raises, and the handler returns the input path
      return [audioPath], [];
    }
    if chunkMs < 0 {
      // range(0, lenMs, chunkMs) with a negative step and lenMs >= 0 is empty
      return [], [];
    }
    ghost var plan := Plan(lenMs, chunkMs);
    chunks, exports := [], [];
    var i: nat, startMs: nat := 0, 0;
    while startMs < lenMs
      invariant i <= |plan|
      invariant startMs == i * chunkMs
      invariant exports == plan[..i]
      invariant |chunks| == i && forall k | 0 <= k < i :: chunks[k] == ChunkPath(k)
      invariant forall k | 0 <= k < i :: exportOk(exports[k])
      decreases lenMs - startMs
    {
      CeilDivIndex(lenMs, chunkMs, i);
      var chunk := Export(ChunkPath(i), startMs, Min(startMs + chunkMs, lenMs));
      assert chunk == plan[i] by {
        assert (i + 1) * chunkMs == i * chunkMs + chunkMs;
      }
      if !exportOk(chunk) {
        // the export raises, and the handler returns the input path
        return [audioPath], exports;
      }
      exports := exports + [chunk];
      chunks := chunks + [chunk.path];
      assert (i + 1) * chunkMs == i * chunkMs + chunkMs;
      i, startMs := i + 1, startMs + chunkMs;
    }
    CeilDivIndex(lenMs, chunkMs, i);
  }
}
