/**
 * The deterministic parts of the Discord front end (src/discord_bot.py): which
 * attachments of an incoming message are transcribed, and how a finished
 * transcription is cut into messages that respect Discord's 2000-character
 * limit.
 */
module DiscordBot {
  import opened Wrappers
  import opened Text
  import Transcriber

  // ------------------------------------------------------------------ the gate

  /** A file attached to a message; `contentType` is absent when Discord reports none. */
  datatype Attachment = Attachment(filename: string, contentType: Option<string>)

  /** The parts of an incoming message the handler looks at. */
  datatype Message = Message(author: string, channelName: string, attachments: seq<Attachment>)

  const WatchedChannel := "fodder"
  const AudioPrefix := "audio/"

  /** The attachment's content type is present, non-empty and an audio type. */
  predicate IsAudio(a: Attachment) {
    a.contentType.Some? && a.contentType.value != "" && StartsWith(a.contentType.value, AudioPrefix)
  }

  /** The audio attachments of a list, each as often as it occurs there. */
  function AudioOnly(attachments: seq<Attachment>): (r: seq<Attachment>)
    ensures forall a :: a in r <==> a in attachments && IsAudio(a)
    ensures forall a :: multiset(r)[a] == if IsAudio(a) then multiset(attachments)[a] else 0
    ensures |r| <= |attachments|
  {
    if |attachments| == 0 then []
    else
      var last := attachments[|attachments| - 1];
      assert attachments == attachments[..|attachments| - 1] + [last];
      AudioOnly(attachments[..|attachments| - 1]) + (if IsAudio(last) then [last] else [])
  }

  /**
   * `on_message`'s gate: the attachments that get transcribed. Nothing from
   * the bot's own messages or from any channel other than the watched one;
   * otherwise every audio attachment, as often as it is attached.
   */
  function AttachmentsToProcess(m: Message, botUser: string): (r: seq<Attachment>)
    ensures forall a :: a in r <==>
      m.author != botUser && m.channelName == WatchedChannel && a in m.attachments && IsAudio(a)
    ensures m.author != botUser && m.channelName == WatchedChannel ==>
      forall a :: multiset(r)[a] == if IsAudio(a) then multiset(m.attachments)[a] else 0
    ensures m.author == botUser || m.channelName != WatchedChannel ==> r == []
    ensures |r| <= |m.attachments|
  {
    if m.author == botUser || m.channelName != WatchedChannel then [] else AudioOnly(m.attachments)
  }

  // ------------------------------------------------------ cutting at markers

  /** The number of consecutive decimal digits in `s` from position `p`. */
  function DigitRun(s: string, p: nat): (n: nat)
    requires p <= |s|
    ensures p + n <= |s|
    ensures forall q | p <= q < p + n :: IsDigit(s[q])
    ensures p + n < |s| ==> !IsDigit(s[p + n])
    decreases |s| - p
  {
    if p < |s| && IsDigit(s[p]) then 1 + DigitRun(s, p + 1) else 0
  }

  /** The lookahead `\(\d+/\d+\)` matches at position `p`. */
  predicate MarkerAt(s: string, p: nat)
    requires p <= |s|
    ensures MarkerAt(s, p) ==> p + 5 <= |s| && s[p] == '(' && IsDigit(s[p + 1])
  {
    p < |s| && s[p] == '(' &&
    var a := DigitRun(s, p + 1);
    a >= 1 && p + 1 + a < |s| && s[p + 1 + a] == '/' &&
    var b := DigitRun(s, p + 2 + a);
    b >= 1 && p + 2 + a + b < |s| && s[p + 2 + a + b] == ')'
  }

  /** `s` holds, from `p`, an opening parenthesis, `a` digits, a slash, `b` digits and a closing parenthesis. */
  predicate MarkerOfShape(s: string, p: nat, a: nat, b: nat) {
    a >= 1 && b >= 1 && p + a + b + 3 <= |s|
    && s[p] == '(' && s[p + 1 + a] == '/' && s[p + 2 + a + b] == ')'
    && (forall q | p + 1 <= q < p + 1 + a :: IsDigit(s[q]))
    && (forall q | p + 2 + a <= q < p + 2 + a + b :: IsDigit(s[q]))
  }

  /** The digit-run test is the regular expression: some split into two digit strings fits. */
  lemma MarkerAtIff(s: string, p: nat)
    requires p <= |s|
    ensures MarkerAt(s, p) <==> exists a: nat, b: nat :: MarkerOfShape(s, p, a, b)
  {
    if MarkerAt(s, p) {
      var a := DigitRun(s, p + 1);
      var b := DigitRun(s, p + 2 + a);
      assert MarkerOfShape(s, p, a, b);
    }
    if a: nat, b: nat :| MarkerOfShape(s, p, a, b) {
      DigitRunExact(s, p + 1, a);
      DigitRunExact(s, p + 2 + a, b);
    }
  }

  /** A run of `n` digits followed by a non-digit is exactly what `DigitRun` counts. */
  lemma {:induction false} DigitRunExact(s: string, p: nat, n: nat)
    requires p + n < |s| && !IsDigit(s[p + n])
    requires forall q | p <= q < p + n :: IsDigit(s[q])
    ensures DigitRun(s, p) == n
    decreases n
  {
    if n > 0 {
      DigitRunExact(s, p + 1, n - 1);
    }
  }

  /** The positions from `p` onwards where a marker begins, in increasing order. */
  function MarkersFrom(s: string, p: nat): (r: seq<nat>)
    requires p <= |s|
    ensures forall q :: q in r <==> p <= q < |s| && MarkerAt(s, q)
    ensures forall k | 0 <= k < |r| :: p <= r[k] < |s|
    ensures forall j, k | 0 <= j < k < |r| :: r[j] < r[k]
    decreases |s| - p
  {
    if p == |s| then [] else (if MarkerAt(s, p) then [p] else []) + MarkersFrom(s, p + 1)
  }

  /**
   * Where `re.split(r"(?=\(\d+/\d+\))", s)` cuts: 0, every marker position
   * (a marker at 0 gives the empty first piece Python produces), and `|s|`.
   */
  function Bounds(s: string): (b: seq<nat>)
    ensures |b| >= 2 && b[0] == 0 && b[|b| - 1] == |s|
    ensures forall k | 0 <= k < |b| :: b[k] <= |s|
    ensures forall j, k | 0 <= j < k < |b| :: b[j] <= b[k]
  {
    [0] + MarkersFrom(s, 0) + [|s|]
  }

  /** The interior bounds are exactly the positions where a marker matches. */
  lemma BoundsAreMarkers(s: string)
    ensures var b := Bounds(s);
      forall q :: q in b[1..|b| - 1] <==> 0 <= q < |s| && MarkerAt(s, q)
  {
    var b := Bounds(s);
    assert b[1..|b| - 1] == MarkersFrom(s, 0);
  }

  /** The pieces of `s` between consecutive bounds. */
  function Between(s: string, b: seq<nat>): seq<string>
    requires forall k | 0 <= k < |b| :: b[k] <= |s|
    requires forall j, k | 0 <= j < k < |b| :: b[j] <= b[k]
  {
    seq(if |b| == 0 then 0 else |b| - 1, k requires 0 <= k < |b| - 1 => s[b[k]..b[k + 1]])
  }

  /** The pieces between bounds that start at 0 concatenate to the text up to the last bound. */
  lemma {:induction false} BetweenConcat(s: string, b: seq<nat>)
    requires |b| >= 1 && b[0] == 0
    requires forall k | 0 <= k < |b| :: b[k] <= |s|
    requires forall j, k | 0 <= j < k < |b| :: b[j] <= b[k]
    ensures Concat(Between(s, b)) == s[..b[|b| - 1]]
    decreases |b|
  {
    if |b| > 1 {
      var front := b[..|b| - 1];
      BetweenConcat(s, front);
      var ps := Between(s, b);
      assert ps[..|ps| - 1] == Between(s, front);
      assert s[..b[|b| - 1]] == s[..b[|b| - 2]] + s[b[|b| - 2]..b[|b| - 1]];
    }
  }

  /** `re.split` at the markers: one piece more than there are markers. */
  function RawPieces(s: string): (ps: seq<string>)
    ensures |ps| == |MarkersFrom(s, 0)| + 1
  {
    Between(s, Bounds(s))
  }

  /** Splitting loses and reorders nothing: the pieces concatenate back to the text. */
  lemma RawPiecesConcat(s: string)
    ensures Concat(RawPieces(s)) == s
  {
    var b := Bounds(s);
    BetweenConcat(s, b);
    assert s[..b[|b| - 1]] == s;
  }

  /** A value strictly between two neighbouring entries of a non-decreasing sequence is not in it. */
  lemma StrictlyBetweenNotIn(b: seq<nat>, k: nat, q: nat)
    requires k + 1 < |b| && b[k] < q < b[k + 1]
    requires forall i, j | 0 <= i < j < |b| :: b[i] <= b[j]
    ensures q !in b
  {
    forall i | 0 <= i < |b|
      ensures b[i] != q
    {
      if i <= k {
        assert b[i] <= b[k];
      } else {
        assert b[k + 1] <= b[i];
      }
    }
  }

  /**
   * Every piece after the first starts where a marker matches, and no marker
   * begins strictly inside a piece.
   */
  lemma RawPiecesStartAtMarkers(s: string)
    ensures var b := Bounds(s);
      (forall k | 1 <= k < |RawPieces(s)| :: MarkerAt(s, b[k]))
      && (forall q, k | 0 <= k < |RawPieces(s)| && b[k] < q < b[k + 1] :: !MarkerAt(s, q))
  {
    var b := Bounds(s);
    BoundsAreMarkers(s);
    forall k | 1 <= k < |b| - 1
      ensures MarkerAt(s, b[k])
    {
      assert b[k] in b[1..|b| - 1];
    }
    forall q, k | 0 <= k < |b| - 1 && b[k] < q < b[k + 1]
      ensures !MarkerAt(s, q)
    {
      StrictlyBetweenNotIn(b, k, q);
      assert q !in b[1..|b| - 1];
    }
  }

  /** `[p.strip() for p in xs if p.strip()]`. */
  function StrippedNonBlank(xs: seq<string>): (ys: seq<string>)
    ensures |ys| <= |xs|
    ensures forall k | 0 <= k < |ys| :: ys[k] != ""
  {
    if |xs| == 0 then []
    else
      var last := Strip(xs[|xs| - 1]);
      StrippedNonBlank(xs[..|xs| - 1]) + (if last != "" then [last] else [])
  }

  /** Every piece is whitespace only. */
  predicate AllBlank(xs: seq<string>) {
    forall k | 0 <= k < |xs| :: AllSpace(xs[k])
  }

  lemma AllBlankSplit(xs: seq<string>)
    requires |xs| > 0
    ensures AllBlank(xs) <==> AllBlank(xs[..|xs| - 1]) && AllSpace(xs[|xs| - 1])
  {
    var front := xs[..|xs| - 1];
    assert forall k | 0 <= k < |front| :: front[k] == xs[k];
  }

  /** Nothing survives exactly when every piece is whitespace only. */
  lemma {:induction false} StrippedNonBlankEmpty(xs: seq<string>)
    ensures StrippedNonBlank(xs) == [] <==> AllBlank(xs)
    decreases |xs|
  {
    var n := |xs|;
    if n > 0 {
      var front, last := xs[..n - 1], Strip(xs[n - 1]);
      StrippedNonBlankEmpty(front);
      AllBlankSplit(xs);
      assert StrippedNonBlank(xs) == StrippedNonBlank(front) + (if last != "" then [last] else []);
    }
  }

  /** The pieces `strip()` leaves: non-empty, neither starting nor ending with whitespace. */
  predicate Trimmed(y: string) {
    y != "" && !IsSpace(y[0]) && !IsSpace(y[|y| - 1])
  }

  /** Every surviving piece is an output of `strip()`: it neither starts nor ends with whitespace. */
  lemma {:induction false} StrippedNonBlankTrimmed(xs: seq<string>)
    ensures forall k | 0 <= k < |StrippedNonBlank(xs)| :: Trimmed(StrippedNonBlank(xs)[k])
    decreases |xs|
  {
    var n := |xs|;
    if n > 0 {
      var front, last := xs[..n - 1], Strip(xs[n - 1]);
      StrippedNonBlankTrimmed(front);
      var ys := StrippedNonBlank(front);
      assert last != "" ==> Trimmed(last);
      assert StrippedNonBlank(xs) == ys + (if last != "" then [last] else []);
    }
  }

  /** `text_chunks`: the stripped, non-blank pieces of the transcription. */
  function Pieces(text: string): (ps: seq<string>)
    ensures forall k | 0 <= k < |ps| :: ps[k] != ""
  {
    StrippedNonBlank(RawPieces(text))
  }

  /** A text with a non-blank piece has one: only an all-whitespace text has no pieces. */
  lemma PiecesEmptyIffBlank(text: string)
    ensures Pieces(text) == [] <==> AllSpace(text)
  {
    var raw := RawPieces(text);
    RawPiecesConcat(text);
    AllSpaceConcat(raw);
    StrippedNonBlankEmpty(raw);
  }

  /** A concatenation is all whitespace exactly when each part is. */
  lemma {:induction false} AllSpaceConcat(xs: seq<string>)
    ensures AllSpace(Concat(xs)) <==> forall k | 0 <= k < |xs| :: AllSpace(xs[k])
    decreases |xs|
  {
    if |xs| > 0 {
      var front := xs[..|xs| - 1];
      AllSpaceConcat(front);
      var c, x := Concat(front), xs[|xs| - 1];
      assert Concat(xs) == c + x;
      assert forall i | 0 <= i < |c| :: (c + x)[i] == c[i];
      assert forall i | 0 <= i < |x| :: (c + x)[|c| + i] == x[i];
      assert forall k | 0 <= k < |front| :: front[k] == xs[k];
    }
  }

  /** A chunk tag written by the transcript assembly is a place where the bot cuts. */
  lemma TagIsMarker(k: nat, total: nat, rest: string)
    ensures MarkerAt(Transcriber.NumberTag(k, total) + rest, 0)
  {
    var a, b := NatToString(k), NatToString(total);
    var s := Transcriber.NumberTag(k, total) + rest;
    assert s == "(" + a + "/" + b + ")" + " " + rest;
    assert forall q | 1 <= q < 1 + |a| :: s[q] == a[q - 1];
    assert forall q | 2 + |a| <= q < 2 + |a| + |b| :: s[q] == b[q - 2 - |a|];
    assert MarkerOfShape(s, 0, |a|, |b|);
    MarkerAtIff(s, 0);
  }

  // ------------------------------------------------------------ hard cuts

  /**
   * `[s[i:i + width] for i in range(0, len(s), width)]`: consecutive slices of
   * `width` characters, the last one possibly shorter.
   */
  function Slices(s: string, width: nat): (r: seq<string>)
    requires width > 0
    ensures s == "" <==> r == []
    ensures forall j | 0 <= j < |r| :: 1 <= |r[j]| <= width
    ensures forall j | 0 <= j < |r| - 1 :: |r[j]| == width
    ensures |s| > width ==> |r| >= 2
    decreases |s|
  {
    if |s| == 0 then []
    else if |s| <= width then [s]
    else [s[..width]] + Slices(s[width..], width)
  }

  /** The slices concatenate back to the text. */
  lemma {:induction false} SlicesConcat(s: string, width: nat)
    requires width > 0
    ensures Concat(Slices(s, width)) == s
    decreases |s|
  {
    if |s| > width {
      SlicesConcat(s[width..], width);
      ConcatCons(s[..width], Slices(s[width..], width));
      assert s[..width] + s[width..] == s;
    } else if |s| > 0 {
      assert Concat([s]) == Concat([]) + s;
    }
  }

  /** The end of the slice that starts at `lo`: `width` characters on, clipped at the end of the text. */
  function SliceEnd(lo: nat, width: nat, n: nat): nat {
    if lo + width <= n then lo + width else n
  }

  /** The `k`-th slice is the text from `k * width` to the next multiple, clipped at the end. */
  lemma {:induction false} SlicesAt(s: string, width: nat, k: nat)
    requires width > 0 && k < |Slices(s, width)|
    ensures k * width < |s|
    ensures Slices(s, width)[k] == s[k * width .. SliceEnd(k * width, width, |s|)]
    decreases |s|
  {
    if k > 0 {
      SlicesAt(s[width..], width, k - 1);
      var lo := (k - 1) * width;
      NextMultiple(k, width);
      SlicesAtStep(s, width, k, lo);
    }
  }

  lemma NextMultiple(k: nat, width: nat)
    requires k > 0
    ensures (k - 1) * width + width == k * width
  {
  }

  /** The slices after the first are the slices of the rest, shifted by one width. */
  lemma SlicesAtStep(s: string, width: nat, k: nat, lo: nat)
    requires width > 0 && 0 < k < |Slices(s, width)|
    requires k - 1 < |Slices(s[width..], width)| && lo < |s| - width
    requires Slices(s[width..], width)[k - 1] == s[width..][lo .. SliceEnd(lo, width, |s| - width)]
    ensures Slices(s, width)[k] == s[lo + width .. SliceEnd(lo + width, width, |s|)]
  {
    var rest := Slices(s[width..], width);
    assert Slices(s, width) == [s[..width]] + rest;
    assert SliceEnd(lo + width, width, |s|) == width + SliceEnd(lo, width, |s| - width);
    SliceShift(s, width, lo, SliceEnd(lo, width, |s| - width));
  }

  lemma SliceShift(s: string, width: nat, lo: nat, hi: nat)
    requires width <= |s| && lo <= hi <= |s| - width
    ensures s[width..][lo..hi] == s[width + lo..width + hi]
  {
  }

  // ---------------------------------------------------------- packing

  /** The separator a message boundary stands for: a dropped space, or nothing inside a hard cut. */
  function Sep(spaced: bool): string {
    if spaced then " " else ""
  }

  /** The messages put back together, with `glue[j]` telling what stood between message `j` and `j + 1`. */
  function Reassemble(ms: seq<string>, glue: seq<bool>): string
    requires |ms| == |glue| + 1
    decreases |ms|
  {
    if |ms| == 1 then ms[0]
    else Reassemble(ms[..|ms| - 1], glue[..|glue| - 1]) + Sep(glue[|glue| - 1]) + ms[|ms| - 1]
  }

  /** `n` hard cuts. */
  function Falses(n: nat): (r: seq<bool>)
    ensures |r| == n && AllCuts(r)
  {
    seq(n, _ => false)
  }

  lemma ReassembleSnoc(ms: seq<string>, glue: seq<bool>, spaced: bool, x: string)
    requires |ms| == |glue| + 1
    ensures Reassemble(ms + [x], glue + [spaced]) == Reassemble(ms, glue) + Sep(spaced) + x
  {
    assert (ms + [x])[..|ms|] == ms;
    assert (glue + [spaced])[..|glue|] == glue;
  }

  lemma ReassembleUnfold(ms: seq<string>, glue: seq<bool>)
    requires |ms| == |glue| + 1 && |ms| >= 2
    ensures Reassemble(ms, glue) == Reassemble(ms[..|ms| - 1], glue[..|glue| - 1]) + Sep(glue[|glue| - 1]) + ms[|ms| - 1]
  {
  }

  lemma ReassembleExtendLast(ms: seq<string>, glue: seq<bool>, x: string, t: string)
    requires |ms| == |glue|
    ensures Reassemble(ms + [x + t], glue) == Reassemble(ms + [x], glue) + t
  {
    if |ms| > 0 {
      var pre := Reassemble(ms, glue[..|glue| - 1]) + Sep(glue[|glue| - 1]);
      assert (ms + [x + t])[..|ms|] == ms == (ms + [x])[..|ms|];
      assert Reassemble(ms + [x + t], glue) == pre + (x + t);
      assert Reassemble(ms + [x], glue) == pre + x;
    }
  }

  /** No boundary in `glue` dropped a space: they are all hard cuts. */
  predicate AllCuts(glue: seq<bool>) {
    forall j | 0 <= j < |glue| :: !glue[j]
  }

  /** Messages separated only by hard cuts, appended after a boundary, reassemble to their concatenation. */
  lemma {:induction false} ReassembleCut(ms: seq<string>, glue: seq<bool>, spaced: bool, xs: seq<string>, cuts: seq<bool>)
    requires |ms| == |glue| + 1 && |xs| == |cuts| + 1 && AllCuts(cuts)
    ensures Reassemble(ms + xs, glue + [spaced] + cuts) == Reassemble(ms, glue) + Sep(spaced) + Concat(xs)
    decreases |xs|
  {
    if |xs| == 1 {
      ReassembleSnoc(ms, glue, spaced, xs[0]);
      assert Concat(xs) == Concat([]) + xs[0];
      assert glue + [spaced] + cuts == glue + [spaced];
    } else {
      ReassembleCut(ms, glue, spaced, xs[..|xs| - 1], cuts[..|cuts| - 1]);
      assert glue + [spaced] + cuts == (glue + [spaced]) + cuts;
      ReassembleCutStep(ms, glue + [spaced], xs, cuts, Reassemble(ms, glue) + Sep(spaced));
    }
  }

  lemma ReassembleCutStep(ms: seq<string>, glue: seq<bool>, xs: seq<string>, cuts: seq<bool>, prev: string)
    requires |ms| == |glue| && |xs| == |cuts| + 1 && |xs| >= 2 && !cuts[|cuts| - 1]
    requires Reassemble(ms + xs[..|xs| - 1], glue + cuts[..|cuts| - 1]) == prev + Concat(xs[..|xs| - 1])
    ensures Reassemble(ms + xs, glue + cuts) == prev + Concat(xs)
  {
    var all, allGlue := ms + xs, glue + cuts;
    var front, last := xs[..|xs| - 1], xs[|xs| - 1];
    assert all[..|all| - 1] == ms + front;
    assert allGlue[..|allGlue| - 1] == glue + cuts[..|cuts| - 1];
    assert Sep(allGlue[|allGlue| - 1]) == "";
    assert all[|all| - 1] == last;
    ReassembleUnfold(all, allGlue);
    calc {
      Reassemble(all, allGlue);
      Reassemble(ms + front, glue + cuts[..|cuts| - 1]) + "" + last;
      prev + Concat(front) + last;
      prev + (Concat(front) + last);
      prev + Concat(xs);
    }
  }

  /** The slices of one text, separated by hard cuts, reassemble to that text. */
  lemma {:induction false} ReassembleCutAlone(xs: seq<string>, cuts: seq<bool>)
    requires |xs| == |cuts| + 1 && AllCuts(cuts)
    ensures Reassemble(xs, cuts) == Concat(xs)
    decreases |xs|
  {
    var n := |xs|;
    if n == 1 {
      assert Concat(xs) == Concat([]) + xs[0];
    } else {
      ReassembleCutAlone(xs[..n - 1], cuts[..n - 2]);
      assert Reassemble(xs, cuts) == Reassemble(xs[..n - 1], cuts[..n - 2]) + Sep(false) + xs[n - 1];
    }
  }

  lemma JoinSnoc(done: seq<string>, x: string)
    requires done != []
    ensures Join(done + [x], " ") == Join(done, " ") + " " + x
  {
    assert (done + [x])[..|done|] == done;
  }

  /** Every message has between 1 and `maxLen` characters. */
  predicate Bounded(all: seq<string>, maxLen: nat) {
    forall j | 0 <= j < |all| :: 1 <= |all[j]| <= maxLen
  }

  /** A hard cut only ever follows a message of the full width. */
  predicate CutsFull(all: seq<string>, glue: seq<bool>, maxLen: nat) {
    forall j | 0 <= j < |glue| && j < |all| :: !glue[j] ==> |all[j]| == maxLen
  }

  /** No two messages separated by a dropped space would have fitted into one. */
  predicate Greedy(all: seq<string>, glue: seq<bool>, maxLen: nat) {
    forall j | 0 <= j < |glue| && j + 1 < |all| :: glue[j] ==> |all[j]| + 1 + |all[j + 1]| > maxLen
  }

  /**
   * The state of the packing loop after the pieces `done`: the flushed
   * messages `ms` and the open message `cur` hold those pieces, space-joined,
   * within the width, greedily packed.
   */
  ghost predicate Packed(ms: seq<string>, glue: seq<bool>, cur: string, done: seq<string>, maxLen: nat) {
    var all := ms + [cur];
    |glue| == |ms| && done != []
    && Bounded(all, maxLen) && CutsFull(all, glue, maxLen) && Greedy(all, glue, maxLen)
    && Reassemble(all, glue) == Join(done, " ")
  }

  /** Once a piece has been packed, the open message is never empty. */
  lemma PackedOpen(ms: seq<string>, glue: seq<bool>, cur: string, done: seq<string>, maxLen: nat)
    requires Packed(ms, glue, cur, done, maxLen)
    ensures cur != ""
  {
    assert (ms + [cur])[|ms|] == cur;
  }

  /** The first piece, when it fits, opens the first message. */
  lemma PackFirst(chunk: string, maxLen: nat, done: seq<string>)
    requires 1 <= |chunk| <= maxLen && done == []
    ensures Packed([], [], chunk, done + [chunk], maxLen)
  {
    assert done + [chunk] == [chunk] == [] + [chunk];
  }

  /** The first piece, when it is too long, is cut; its last slice stays open. */
  lemma PackFirstCut(chunk: string, maxLen: nat, done: seq<string>)
    requires maxLen > 0 && |chunk| > maxLen && done == []
    ensures var sl := Slices(chunk, maxLen);
      Packed(sl[..|sl| - 1], Falses(|sl| - 1), sl[|sl| - 1], done + [chunk], maxLen)
  {
    var sl := Slices(chunk, maxLen);
    var k := |sl|;
    assert sl[..k - 1] + [sl[k - 1]] == sl;
    SlicesConcat(chunk, maxLen);
    ReassembleCutAlone(sl, Falses(k - 1));
    assert Join(done + [chunk], " ") == chunk by {
      assert done + [chunk] == [chunk];
    }
  }

  /** A piece that fits joins the open message after one space. */
  lemma PackJoin(ms: seq<string>, glue: seq<bool>, cur: string, done: seq<string>, chunk: string, maxLen: nat)
    requires Packed(ms, glue, cur, done, maxLen)
    requires chunk != "" && |cur| + |chunk| + 1 <= maxLen
    ensures Packed(ms, glue, cur + " " + chunk, done + [chunk], maxLen)
  {
    ReassembleExtendLast(ms, glue, cur, " " + chunk);
    JoinSnoc(done, chunk);
    assert cur + " " + chunk == cur + (" " + chunk);
    var all, all' := ms + [cur], ms + [cur + " " + chunk];
    assert forall j | 0 <= j < |ms| :: all'[j] == all[j];
  }

  /**
   * Flushing keeps the message shape: messages `a` followed, after a dropped
   * space, by messages `b` separated by hard cuts stay within the width,
   * cut only after full messages and greedy, provided the two messages
   * around the dropped space would not have fitted together.
   */
  lemma ShapeAppend(a: seq<string>, glue: seq<bool>, b: seq<string>, cuts: seq<bool>, maxLen: nat)
    requires |a| == |glue| + 1 && |b| == |cuts| + 1 && AllCuts(cuts)
    requires Bounded(a, maxLen) && CutsFull(a, glue, maxLen) && Greedy(a, glue, maxLen)
    requires Bounded(b, maxLen) && CutsFull(b, cuts, maxLen)
    requires |a[|a| - 1]| + 1 + |b[0]| > maxLen
    ensures var all, allGlue := a + b, glue + [true] + cuts;
      Bounded(all, maxLen) && CutsFull(all, allGlue, maxLen) && Greedy(all, allGlue, maxLen)
  {
    var all, allGlue := a + b, glue + [true] + cuts;
    forall j | 0 <= j < |all|
      ensures 1 <= |all[j]| <= maxLen
    {
      if j < |a| {
        assert all[j] == a[j];
      } else {
        assert all[j] == b[j - |a|];
      }
    }
    forall j | 0 <= j < |allGlue| && j < |all| && !allGlue[j]
      ensures |all[j]| == maxLen
    {
      if j < |glue| {
        assert allGlue[j] == glue[j] && all[j] == a[j];
      } else {
        assert allGlue[j] == cuts[j - |a|] && all[j] == b[j - |a|];
      }
    }
    forall j | 0 <= j < |allGlue| && j + 1 < |all| && allGlue[j]
      ensures |all[j]| + 1 + |all[j + 1]| > maxLen
    {
      if j < |glue| {
        assert allGlue[j] == glue[j] && all[j] == a[j] && all[j + 1] == a[j + 1];
      } else if j == |glue| {
        assert all[j] == a[|a| - 1] && all[j + 1] == b[0];
      }
    }
  }

  /** A piece that does not fit, but is within the width, flushes the open message and opens a new one. */
  lemma PackFlush(ms: seq<string>, glue: seq<bool>, cur: string, done: seq<string>, chunk: string, maxLen: nat)
    requires Packed(ms, glue, cur, done, maxLen)
    requires 1 <= |chunk| <= maxLen && |cur| + |chunk| + 1 > maxLen
    ensures Packed(ms + [cur], glue + [true], chunk, done + [chunk], maxLen)
  {
    ReassembleSnoc(ms + [cur], glue, true, chunk);
    JoinSnoc(done, chunk);
    ShapeAppend(ms + [cur], glue, [chunk], [], maxLen);
    assert glue + [true] + [] == glue + [true];
  }

  /** The text of a flush followed by hard-cut slices is the text so far, a space, and the piece. */
  lemma FlushCutText(all: seq<string>, glue: seq<bool>, done: seq<string>, chunk: string, sl: seq<string>, cuts: seq<bool>)
    requires |all| == |glue| + 1 && |sl| == |cuts| + 1 && AllCuts(cuts) && done != []
    requires Concat(sl) == chunk && Reassemble(all, glue) == Join(done, " ")
    ensures Reassemble(all + sl, glue + [true] + cuts) == Join(done + [chunk], " ")
  {
    ReassembleCut(all, glue, true, sl, cuts);
    JoinSnoc(done, chunk);
  }

  /** The slices of a piece longer than the width, read as messages separated by hard cuts. */
  lemma SlicesAsCuts(chunk: string, maxLen: nat, cuts: seq<bool>)
    requires maxLen > 0 && |chunk| > maxLen
    requires |cuts| == |Slices(chunk, maxLen)| - 1 && AllCuts(cuts)
    ensures var sl := Slices(chunk, maxLen);
      Bounded(sl, maxLen) && CutsFull(sl, cuts, maxLen) && |sl[0]| == maxLen && Concat(sl) == chunk
  {
    SlicesConcat(chunk, maxLen);
  }

  /** A piece longer than the width flushes the open message and is cut; its last slice stays open. */
  lemma PackFlushCut(ms: seq<string>, glue: seq<bool>, cur: string, done: seq<string>, chunk: string, maxLen: nat,
                      cuts: seq<bool>)
    requires Packed(ms, glue, cur, done, maxLen)
    requires maxLen > 0 && |chunk| > maxLen
    requires |cuts| == |Slices(chunk, maxLen)| - 1 && AllCuts(cuts)
    ensures var sl := Slices(chunk, maxLen);
      Packed(ms + [cur] + sl[..|sl| - 1], glue + [true] + cuts, sl[|sl| - 1], done + [chunk], maxLen)
  {
    var sl := Slices(chunk, maxLen);
    var k := |sl|;
    var all := ms + [cur];
    SlicesAsCuts(chunk, maxLen, cuts);
    assert |all[|all| - 1]| >= 1;
    FlushCutText(all, glue, done, chunk, sl, cuts);
    ShapeAppend(all, glue, sl, cuts, maxLen);
    assert ms + [cur] + sl[..k - 1] + [sl[k - 1]] == all + sl;
  }

  /** The final state: flushing the open message gives non-empty, well-shaped messages. */
  lemma PackedFinal(ms: seq<string>, glue: seq<bool>, cur: string, done: seq<string>, maxLen: nat)
    requires Packed(ms, glue, cur, done, maxLen)
    ensures var all := ms + [cur];
      all != [] && |all| == |glue| + 1 && Bounded(all, maxLen)
      && CutsFull(all, glue, maxLen) && Greedy(all, glue, maxLen)
      && Reassemble(all, glue) == Join(done, " ")
  {
  }

  /** The fallback slices are well shaped: within the width, none missing when the text is not empty. */
  lemma SlicesShape(text: string, maxLen: nat)
    requires maxLen > 0
    ensures var sl := Slices(text, maxLen);
      Bounded(sl, maxLen) && CutsFull(sl, [], maxLen) && Greedy(sl, [], maxLen)
      && (text != "" ==> sl != [])
  {
  }

  /** The state of the packing loop: the messages flushed so far and the open message. */
  datatype PackState = PackState(messages: seq<string>, current: string)

  /**
   * One pass of the packing loop over the piece `chunk`: the piece joins the
   * open message after a space when the result fits; otherwise the open
   * message, if any, is flushed and the piece opens the next one, first cut
   * into `maxLen`-character slices when it is longer than `maxLen`. Flushed
   * messages are never touched again, and the open message of a non-empty
   * piece is within the width.
   */
  function PackStep(st: PackState, chunk: string, maxLen: nat): (r: PackState)
    requires maxLen > 0
    ensures |st.messages| <= |r.messages| && r.messages[..|st.messages|] == st.messages
    ensures chunk != "" ==> 1 <= |r.current| <= maxLen
  {
    if |st.current| + |chunk| + 1 <= maxLen then
      PackState(st.messages, if st.current != "" then st.current + " " + chunk else chunk)
    else
      var flushed := if st.current != "" then st.messages + [st.current] else st.messages;
      assert flushed[..|st.messages|] == st.messages;
      if |chunk| > maxLen then
        var sl := Slices(chunk, maxLen);
        assert (flushed + sl[..|sl| - 1])[..|st.messages|] == st.messages;
        PackState(flushed + sl[..|sl| - 1], sl[|sl| - 1])
      else
        PackState(flushed, chunk)
  }

  /** The packing loop's state after the pieces `chunks`, starting from no messages. */
  function PackAll(chunks: seq<string>, maxLen: nat): PackState
    requires maxLen > 0
  {
    if |chunks| == 0 then PackState([], "")
    else PackStep(PackAll(chunks[..|chunks| - 1], maxLen), chunks[|chunks| - 1], maxLen)
  }

  /** The messages the packing loop produces: the flushed ones and, if not empty, the open one. */
  function Packing(chunks: seq<string>, maxLen: nat): seq<string>
    requires maxLen > 0
  {
    var st := PackAll(chunks, maxLen);
    if st.current != "" then st.messages + [st.current] else st.messages
  }

  /** What one pass puts between the messages: a dropped space at a flush, hard cuts inside a cut piece. */
  ghost function GlueStep(st: PackState, glue: seq<bool>, chunk: string, maxLen: nat): seq<bool>
    requires maxLen > 0
  {
    if |st.current| + |chunk| + 1 <= maxLen then glue
    else
      var g := if st.current != "" then glue + [true] else glue;
      if |chunk| > maxLen then g + Falses(|Slices(chunk, maxLen)| - 1) else g
  }

  /** The boundaries between the messages after the pieces `chunks`. */
  ghost function PackGlue(chunks: seq<string>, maxLen: nat): seq<bool>
    requires maxLen > 0
  {
    if |chunks| == 0 then []
    else
      var front := chunks[..|chunks| - 1];
      GlueStep(PackAll(front, maxLen), PackGlue(front, maxLen), chunks[|chunks| - 1], maxLen)
  }

  /** One pass of the packing loop keeps the packing invariant. */
  lemma PackStepPacked(st: PackState, glue: seq<bool>, chunk: string, done: seq<string>, maxLen: nat)
    requires maxLen > 0 && chunk != ""
    requires done == [] ==> st == PackState([], "") && glue == []
    requires done != [] ==> Packed(st.messages, glue, st.current, done, maxLen)
    ensures var st' := PackStep(st, chunk, maxLen);
      Packed(st'.messages, GlueStep(st, glue, chunk, maxLen), st'.current, done + [chunk], maxLen)
  {
    if |st.current| + |chunk| + 1 <= maxLen {
      PackStepJoins(st, glue, chunk, done, maxLen);
    } else if |chunk| > maxLen {
      PackStepCuts(st, glue, chunk, done, maxLen);
    } else {
      PackStepFlushes(st, glue, chunk, done, maxLen);
    }
  }

  /** The invariant after a piece that fits. */
  lemma PackStepJoins(st: PackState, glue: seq<bool>, chunk: string, done: seq<string>, maxLen: nat)
    requires maxLen > 0 && chunk != "" && |st.current| + |chunk| + 1 <= maxLen
    requires done == [] ==> st == PackState([], "") && glue == []
    requires done != [] ==> Packed(st.messages, glue, st.current, done, maxLen)
    ensures var st' := PackStep(st, chunk, maxLen);
      Packed(st'.messages, GlueStep(st, glue, chunk, maxLen), st'.current, done + [chunk], maxLen)
  {
    var ms, cur := st.messages, st.current;
    if done != [] {
      PackedOpen(ms, glue, cur, done, maxLen);
      PackJoin(ms, glue, cur, done, chunk, maxLen);
    } else {
      PackFirst(chunk, maxLen, done);
    }
  }

  /** The invariant after a piece that does not fit but is within the width. */
  lemma PackStepFlushes(st: PackState, glue: seq<bool>, chunk: string, done: seq<string>, maxLen: nat)
    requires maxLen > 0 && chunk != "" && |st.current| + |chunk| + 1 > maxLen && |chunk| <= maxLen
    requires done == [] ==> st == PackState([], "") && glue == []
    requires done != [] ==> Packed(st.messages, glue, st.current, done, maxLen)
    ensures var st' := PackStep(st, chunk, maxLen);
      Packed(st'.messages, GlueStep(st, glue, chunk, maxLen), st'.current, done + [chunk], maxLen)
  {
    var ms, cur := st.messages, st.current;
    if done != [] {
      PackedOpen(ms, glue, cur, done, maxLen);
      PackFlush(ms, glue, cur, done, chunk, maxLen);
    } else {
      PackFirst(chunk, maxLen, done);
    }
  }

  /** The invariant after a piece longer than the width. */
  lemma PackStepCuts(st: PackState, glue: seq<bool>, chunk: string, done: seq<string>, maxLen: nat)
    requires maxLen > 0 && |chunk| > maxLen
    requires done == [] ==> st == PackState([], "") && glue == []
    requires done != [] ==> Packed(st.messages, glue, st.current, done, maxLen)
    ensures var st' := PackStep(st, chunk, maxLen);
      Packed(st'.messages, GlueStep(st, glue, chunk, maxLen), st'.current, done + [chunk], maxLen)
  {
    if done != [] {
      PackStepFlushCuts(st, glue, chunk, done, maxLen);
    } else {
      PackStepFirstCuts(chunk, maxLen);
      assert done + [chunk] == [chunk];
    }
  }

  /** The invariant after a piece longer than the width, with an open message to flush first. */
  lemma PackStepFlushCuts(st: PackState, glue: seq<bool>, chunk: string, done: seq<string>, maxLen: nat)
    requires maxLen > 0 && |chunk| > maxLen
    requires Packed(st.messages, glue, st.current, done, maxLen)
    ensures var st' := PackStep(st, chunk, maxLen);
      Packed(st'.messages, GlueStep(st, glue, chunk, maxLen), st'.current, done + [chunk], maxLen)
  {
    var ms, cur := st.messages, st.current;
    var sl := Slices(chunk, maxLen);
    var k := |sl|;
    PackedOpen(ms, glue, cur, done, maxLen);
    PackFlushCut(ms, glue, cur, done, chunk, maxLen, Falses(k - 1));
    assert PackStep(st, chunk, maxLen) == PackState(ms + [cur] + sl[..k - 1], sl[k - 1]);
    assert GlueStep(st, glue, chunk, maxLen) == glue + [true] + Falses(k - 1);
  }

  /** The invariant after a first piece longer than the width. */
  lemma PackStepFirstCuts(chunk: string, maxLen: nat)
    requires maxLen > 0 && |chunk| > maxLen
    ensures var st, st' := PackState([], ""), PackStep(PackState([], ""), chunk, maxLen);
      Packed(st'.messages, GlueStep(st, [], chunk, maxLen), st'.current, [chunk], maxLen)
  {
    var sl := Slices(chunk, maxLen);
    var k := |sl|;
    PackFirstCut(chunk, maxLen, []);
    assert [] + [chunk] == [chunk];
    assert PackStep(PackState([], ""), chunk, maxLen) == PackState(sl[..k - 1], sl[k - 1]) by {
      assert [] + sl[..k - 1] == sl[..k - 1];
    }
    assert GlueStep(PackState([], ""), [], chunk, maxLen) == Falses(k - 1) by {
      assert [] + Falses(k - 1) == Falses(k - 1);
    }
  }

  /** After any non-empty run of non-empty pieces, the packing loop's state satisfies the invariant. */
  lemma {:induction false} PackAllPacked(chunks: seq<string>, maxLen: nat)
    requires maxLen > 0 && chunks != []
    requires forall k | 0 <= k < |chunks| :: chunks[k] != ""
    ensures Packed(PackAll(chunks, maxLen).messages, PackGlue(chunks, maxLen), PackAll(chunks, maxLen).current,
                   chunks, maxLen)
    decreases |chunks|
  {
    var n := |chunks|;
    var front := chunks[..n - 1];
    if n == 1 {
      PackStepPacked(PackState([], ""), [], chunks[0], [], maxLen);
      assert [] + [chunks[0]] == chunks;
    } else {
      PackAllPacked(front, maxLen);
      PackStepPacked(PackAll(front, maxLen), PackGlue(front, maxLen), chunks[n - 1], front, maxLen);
      assert front + [chunks[n - 1]] == chunks;
    }
  }

  /**
   * The packed messages of non-empty pieces: at least one, each of 1 to
   * `maxLen` characters; put back together with a space at every flush and
   * nothing at a hard cut they give the pieces joined by single spaces; a
   * hard cut only follows a full message; and no two messages separated by
   * a dropped space would have fitted into one.
   */
  lemma PackingShape(chunks: seq<string>, maxLen: nat)
    requires maxLen > 0 && chunks != []
    requires forall k | 0 <= k < |chunks| :: chunks[k] != ""
    ensures var ms, glue := Packing(chunks, maxLen), PackGlue(chunks, maxLen);
      ms != [] && |ms| == |glue| + 1 && Bounded(ms, maxLen)
      && Reassemble(ms, glue) == Join(chunks, " ")
      && CutsFull(ms, glue, maxLen) && Greedy(ms, glue, maxLen)
  {
    var st := PackAll(chunks, maxLen);
    PackAllPacked(chunks, maxLen);
    PackedOpen(st.messages, PackGlue(chunks, maxLen), st.current, chunks, maxLen);
    PackedFinal(st.messages, PackGlue(chunks, maxLen), st.current, chunks, maxLen);
  }

  /**
   * A piece joins the open message whenever it fits, even when the message
   * it belongs to by number has already started: three short numbered
   * entries at width 16 pack as the first two together and the third alone.
   */
  lemma PackingJoinsWhenFits()
    ensures Packing(["(1/3) a", "(2/3) b", "(3/3) c"], 16) == ["(1/3) a (2/3) b", "(3/3) c"]
  {
    var a, b, c := "(1/3) a", "(2/3) b", "(3/3) c";
    assert [a, b, c][..2] == [a, b] && [a, b][..1] == [a] && [a][..0] == [];
    assert PackAll([a], 16) == PackState([], a);
    assert PackAll([a, b], 16) == PackState([], a + " " + b);
    assert PackAll([a, b, c], 16) == PackState([a + " " + b], c);
    assert a + " " + b == "(1/3) a (2/3) b";
  }

  /**
   * One pass of the packing loop, as the source writes it: join when the
   * piece fits after a space; otherwise flush the open message (if any),
   * open the piece, and cut it into full-width slices when it is too long,
   * keeping the last slice open.
   */
  method PackPiece(messages: seq<string>, currentMessage: string, chunk: string, maxLen: nat)
    returns (messages': seq<string>, currentMessage': string)
    requires maxLen > 0
    ensures |currentMessage| + |chunk| + 1 <= maxLen ==>
      messages' == messages
      && currentMessage' == (if currentMessage != "" then currentMessage + " " + chunk else chunk)
    ensures |currentMessage| + |chunk| + 1 > maxLen && |chunk| <= maxLen ==>
      messages' == (if currentMessage != "" then messages + [currentMessage] else messages)
      && currentMessage' == chunk
    ensures |chunk| > maxLen ==>
      var sl := Slices(chunk, maxLen);
      messages' == (if currentMessage != "" then messages + [currentMessage] else messages) + sl[..|sl| - 1]
      && currentMessage' == sl[|sl| - 1]
  {
    messages' := messages;
    if |currentMessage| + |chunk| + 1 <= maxLen {
      if currentMessage != "" {
        currentMessage' := currentMessage + " " + chunk;
      } else {
        currentMessage' := chunk;
      }
    } else {
      if currentMessage != "" {
        messages' := messages' + [currentMessage];
      }
      currentMessage' := chunk;
      if |currentMessage'| > maxLen {
        var chunkMessages := Slices(currentMessage', maxLen);
        messages' := messages' + chunkMessages[..|chunkMessages| - 1];
        currentMessage' := chunkMessages[|chunkMessages| - 1];
      }
    }
  }

  /** The packing loop and the final flush: exactly the messages `Packing` describes. */
  method PackPieces(textChunks: seq<string>, maxLen: nat) returns (messages: seq<string>)
    requires maxLen > 0
    ensures messages == Packing(textChunks, maxLen)
  {
    messages := [];
    var currentMessage := "";
    var i := 0;
    while i < |textChunks|
      invariant i <= |textChunks|
      invariant PackState(messages, currentMessage) == PackAll(textChunks[..i], maxLen)
    {
      assert textChunks[..i + 1][..i] == textChunks[..i];
      messages, currentMessage := PackPiece(messages, currentMessage, textChunks[i], maxLen);
      i := i + 1;
    }
    assert textChunks[..i] == textChunks;
    if currentMessage != "" {
      messages := messages + [currentMessage];
    }
  }

  /**
   * The messages a long transcription is cut into: the stripped, non-blank
   * pieces packed into messages of at most `maxLen` characters, or, without
   * any such piece, the raw text cut into `maxLen`-character slices.
   */
  function Split(text: string, maxLen: nat): seq<string>
    requires maxLen > 0
  {
    if Pieces(text) != [] then Packing(Pieces(text), maxLen) else Slices(text, maxLen)
  }

  /** The splitting block of `on_message` for a long transcription. */
  method SplitMessages(text: string, maxLen: nat) returns (messages: seq<string>, ghost glue: seq<bool>)
    requires maxLen > 0
    ensures messages == Split(text, maxLen)
    ensures Bounded(messages, maxLen)
    ensures text != "" ==> messages != []
    ensures Pieces(text) != [] ==>
      |messages| == |glue| + 1 && Reassemble(messages, glue) == Join(Pieces(text), " ")
    ensures CutsFull(messages, glue, maxLen) && Greedy(messages, glue, maxLen)
  {
    var textChunks := Pieces(text);
    if textChunks != [] {
      messages := PackPieces(textChunks, maxLen);
      glue := PackGlue(textChunks, maxLen);
      PackingShape(textChunks, maxLen);
    } else {
      messages, glue := Slices(text, maxLen), [];
      SlicesShape(text, maxLen);
    }
  }

  // ------------------------------------------------------------ sending

  /** Discord's limit on the length of one message. */
  const DiscordLimit := 2000

  /** `max_content_length`, the width the bot packs to. */
  const MaxContentLength := 2000

  /** `f"```\n{m}\n```"`: the message wrapped in a code block. */
  function Fenced(m: string): (f: string)
    ensures |f| == |m| + 8
    ensures StartsWith(f, "```\n") && EndsWith(f, "\n```")
  {
    StartsWithPrefix("```\n", m);
    StartsWithExtend("```\n" + m, "\n```", "```\n");
    EndsWithSuffix("```\n" + m, "\n```");
    "```\n" + m + "\n```"
  }

  /** Every message wrapped in its code block, in order. */
  function FenceAll(messages: seq<string>): (sent: seq<string>)
    ensures |sent| == |messages|
    ensures forall j | 0 <= j < |sent| :: sent[j] == Fenced(messages[j])
  {
    seq(|messages|, j requires 0 <= j < |messages| => Fenced(messages[j]))
  }

  /** Fencing messages of 1 to `width` characters gives messages of 9 to `width + 8`. */
  lemma FenceAllBounded(messages: seq<string>, width: nat)
    requires Bounded(messages, width)
    ensures forall j | 0 <= j < |FenceAll(messages)| :: 9 <= |FenceAll(messages)[j]| <= width + 8
  {
  }

  /**
   * What gets sent for a finished transcription when texts longer than
   * `width` are split and pieces are packed to `width`: one code block with
   * the whole text when it fits, else one code block per message of `Split`,
   * in order.
   */
  method ReplyWith(fullTranscription: string, width: nat) returns (sent: seq<string>)
    requires width > 0
    ensures |fullTranscription| <= width ==> sent == [Fenced(fullTranscription)]
    ensures |fullTranscription| > width ==> sent == FenceAll(Split(fullTranscription, width)) && sent != []
    ensures forall j | 0 <= j < |sent| :: |sent[j]| <= width + 8
  {
    if |fullTranscription| > width {
      var messages, glue := SplitMessages(fullTranscription, width);
      sent := FenceAll(messages);
      FenceAllBounded(messages, width);
    } else {
      sent := [Fenced(fullTranscription)];
    }
  }

  /** The reply as the bot sends it: the 2000-character limit applied to the unfenced text. */
  method Reply(fullTranscription: string) returns (sent: seq<string>)
    ensures |fullTranscription| <= MaxContentLength ==> sent == [Fenced(fullTranscription)]
    ensures |fullTranscription| > MaxContentLength ==> sent == FenceAll(Split(fullTranscription, MaxContentLength))
    ensures forall j | 0 <= j < |sent| :: |sent[j]| <= MaxContentLength + 8
    ensures DiscordLimit - 8 < |fullTranscription| <= MaxContentLength ==> |sent| == 1 && |sent[0]| > DiscordLimit
  {
    sent := ReplyWith(fullTranscription, MaxContentLength);
  }

  /** A transcription of exactly 2000 characters goes out as one message of 2008 characters. */
  lemma FullLengthReplyOverflows(t: string)
    requires |t| == MaxContentLength
    ensures |Fenced(t)| > DiscordLimit
  {
  }

  /**
   * The reply with the fence counted against the limit: the transcript is
   * split at 1992 characters, and no sent message exceeds Discord's limit.
   */
  method ReplyWithinLimit(fullTranscription: string) returns (sent: seq<string>)
    ensures |fullTranscription| <= DiscordLimit - 8 ==> sent == [Fenced(fullTranscription)]
    ensures |fullTranscription| > DiscordLimit - 8 ==>
      sent == FenceAll(Split(fullTranscription, DiscordLimit - 8)) && sent != []
    ensures forall j | 0 <= j < |sent| :: |sent[j]| <= DiscordLimit
  {
    sent := ReplyWith(fullTranscription, DiscordLimit - 8);
  }
}
