/**
 * The sliding word window that cuts documents into retrieval chunks: windows of
 * `chunk_words` words, each starting `overlap_words` words before the previous
 * one ended.
 */
module Chunking {
  import opened Prelude
  import opened Text

  datatype TextChunk = TextChunk(text: string, chunkIndex: nat)

  /**
   * `_tokenize_words`: the whitespace-separated words of the text. The source also
   * drops empty tokens, which whitespace splitting never produces.
   */
  function TokenizeWords(text: string): (ws: seq<string>)
    ensures forall w <- ws :: IsWord(w)
  {
    Words(text)
  }

  const DefaultChunkWords: nat := 400

  /** A non-positive window size is replaced by 400. */
  function EffectiveChunkWords(chunkWords: int): (cw: nat)
    ensures cw > 0
    ensures chunkWords > 0 ==> cw == chunkWords
    ensures chunkWords <= 0 ==> cw == DefaultChunkWords
  {
    if chunkWords <= 0 then DefaultChunkWords else chunkWords
  }

  /** The overlap is clamped to `[0, chunk_words // 2]`. */
  function EffectiveOverlap(overlapWords: int, cw: nat): (ov: nat)
    requires cw > 0
    ensures ov <= cw / 2 && ov < cw
    ensures 0 <= overlapWords <= cw / 2 ==> ov == overlapWords
    ensures overlapWords < 0 ==> ov == 0
    ensures overlapWords > cw / 2 ==> ov == cw / 2
  {
    Max(0, Min(overlapWords, cw / 2))
  }

  /**
   * The word windows the loop visits when it starts at `start`: each one ends
   * `cw` words later (or at the last word), and the next starts `ov` words before
   * that end.
   */
  function WindowsFrom(words: seq<string>, start: nat, cw: nat, ov: nat): (ws: seq<seq<string>>)
    requires 0 < cw && ov <= cw / 2 && start < |words|
    decreases |words| - start
  {
    var end := Min(|words|, start + cw);
    [words[start..end]] + (if end == |words| then [] else WindowsFrom(words, Max(0, end - ov), cw, ov))
  }

  /** The chunks `chunk_text_words` must return: one per window, numbered from 0. */
  function ChunkSpec(text: string, chunkWords: int, overlapWords: int): seq<TextChunk> {
    var words := TokenizeWords(text);
    if words == [] then []
    else
      var cw := EffectiveChunkWords(chunkWords);
      MakeChunks(WindowsFrom(words, 0, cw, EffectiveOverlap(overlapWords, cw)))
  }

  /** One chunk per window, holding the window's words joined by spaces, numbered from 0. */
  function MakeChunks(ws: seq<seq<string>>): (cs: seq<TextChunk>)
    ensures |cs| == |ws|
  {
    seq(|ws|, i requires 0 <= i < |ws| => TextChunk(JoinSpace(ws[i]), i))
  }

  lemma MakeChunksSnoc(ws: seq<seq<string>>, w: seq<string>)
    ensures MakeChunks(ws + [w]) == MakeChunks(ws) + [TextChunk(JoinSpace(w), |ws|)]
  {
  }

  lemma JoinedWordsTrimmed(ws: seq<string>)
    requires ws != [] && forall w <- ws :: IsWord(w)
    ensures var t := JoinSpace(ws); t != [] && !IsSpace(t[0]) && !IsSpace(t[|t| - 1])
    ensures Strip(JoinSpace(ws)) == JoinSpace(ws)
  {
    JoinedWordsEnds(ws);
    assert ws[0] in ws && ws[|ws| - 1] in ws;
    var t := JoinSpace(ws);
    assert t[0] == ws[0][0];
    assert t[|t| - 1] == ws[|ws| - 1][|ws[|ws| - 1]| - 1];
    StripOfTrimmed(JoinSpace(ws));
  }

  lemma {:induction false} JoinedWordsEnds(ws: seq<string>)
    requires ws != [] && forall w <- ws :: IsWord(w)
    ensures var t := JoinSpace(ws); |t| >= |ws[0]| && t[..|ws[0]|] == ws[0] && EndsWith(t, ws[|ws| - 1])
  {
    if |ws| > 1 {
      JoinedWordsEnds(ws[1..]);
      var t := JoinSpace(ws[1..]);
      assert JoinSpace(ws) == ws[0] + " " + t;
      assert (ws[0] + " " + t)[..|ws[0]|] == ws[0];
      assert (ws[0] + " " + t)[|ws[0] + " " + t| - |ws[|ws| - 1]|..] == t[|t| - |ws[|ws| - 1]|..];
    }
  }

  /** `chunk_text_words`: the while loop over `start`, appending one chunk per window. */
  method ChunkTextWords(text: string, chunkWords: int, overlapWords: int) returns (chunks: seq<TextChunk>)
    ensures chunks == ChunkSpec(text, chunkWords, overlapWords)
  {
    var words := TokenizeWords(text);
    if |words| == 0 {
      return [];
    }
    var cw := EffectiveChunkWords(chunkWords);
    var ov := EffectiveOverlap(overlapWords, cw);
    ghost var all := WindowsFrom(words, 0, cw, ov);
    ghost var done: seq<seq<string>> := [];
    chunks := [];
    var start := 0;
    var idx := 0;
    while start < |words|
      invariant start <= |words|
      invariant idx == |chunks| == |done|
      invariant start < |words| ==> done + WindowsFrom(words, start, cw, ov) == all
      invariant start == |words| ==> done == all
      invariant chunks == MakeChunks(done)
      decreases |words| - start
    {
      var end := Min(|words|, start + cw);
      chunks, idx := ChunkTurn(words, start, end, chunks, idx, done);
      WindowsStep(words, start, cw, ov, done, all);
      done := done + [words[start..end]];
      if end == |words| {
        break;
      }
      start := Max(0, end - ov);
    }
  }

  /** One pass of the loop in `ChunkTextWords`: the window `words[start..end]` becomes chunk number `idx`. */
  method ChunkTurn(words: seq<string>, start: nat, end: nat, chunks: seq<TextChunk>, idx: nat, ghost done: seq<seq<string>>)
    returns (chunks': seq<TextChunk>, idx': nat)
    requires start < end <= |words| && forall w <- words :: IsWord(w)
    requires idx == |chunks| == |done| && chunks == MakeChunks(done)
    ensures idx' == |chunks'| == |done| + 1 && chunks' == MakeChunks(done + [words[start..end]])
  {
    var chunk := Strip(JoinSpace(words[start..end]));
    WindowText(words, start, end);
    if chunk != [] {
      chunks' := chunks + [TextChunk(chunk, idx)];
      idx' := idx + 1;
      MakeChunksSnoc(done, words[start..end]);
    } else {
      // a window of words from `TokenizeWords` never joins to blank text
      assert false;
    }
  }

  /** A non-empty run of words joins to a non-empty text that stripping leaves alone. */
  lemma {:induction false} WindowText(words: seq<string>, start: nat, end: nat)
    requires start < end <= |words| && forall w <- words :: IsWord(w)
    ensures JoinSpace(words[start..end]) != [] && Strip(JoinSpace(words[start..end])) == JoinSpace(words[start..end])
  {
    var window := words[start..end];
    assert forall w <- window :: w in words;
    JoinedWordsTrimmed(window);
  }

  /** Taking the next window off the remaining ones. */
  lemma {:induction false} WindowsStep(words: seq<string>, start: nat, cw: nat, ov: nat, done: seq<seq<string>>, all: seq<seq<string>>)
    requires 0 < cw && ov <= cw / 2 && start < |words|
    requires done + WindowsFrom(words, start, cw, ov) == all
    ensures var end := Min(|words|, start + cw);
      var window := words[start..end];
      (end == |words| ==> done + [window] == all)
      && (end < |words| ==> (done + [window]) + WindowsFrom(words, Max(0, end - ov), cw, ov) == all)
  {
    var end := Min(|words|, start + cw);
    var window := words[start..end];
    if end < |words| {
      var rest := WindowsFrom(words, Max(0, end - ov), cw, ov);
      assert WindowsFrom(words, start, cw, ov) == [window] + rest;
      assert done + ([window] + rest) == (done + [window]) + rest;
    } else {
      assert WindowsFrom(words, start, cw, ov) == [window];
    }
  }

  // ---------------------------------------------------------------------------
  // Properties of the window sequence

  /** Every window is a non-empty run of at most `cw` consecutive words starting at or after `start`. */
  lemma {:induction false} WindowsBounded(words: seq<string>, start: nat, cw: nat, ov: nat, i: nat)
    requires 0 < cw && ov <= cw / 2 && start < |words|
    requires i < |WindowsFrom(words, start, cw, ov)|
    ensures 0 < |WindowsFrom(words, start, cw, ov)[i]| <= cw
    decreases |words| - start
  {
    var end := Min(|words|, start + cw);
    if i > 0 {
      WindowsBounded(words, Max(0, end - ov), cw, ov, i - 1);
    }
  }

  /** The first window starts at `start`; the last one ends at the final word. */
  lemma {:induction false} WindowsCover(words: seq<string>, start: nat, cw: nat, ov: nat)
    requires 0 < cw && ov <= cw / 2 && start < |words|
    ensures var ws := WindowsFrom(words, start, cw, ov);
      ws != [] && IsPrefix(ws[0], words[start..]) && IsSuffix(ws[|ws| - 1], words)
    decreases |words| - start
  {
    var end := Min(|words|, start + cw);
    if end != |words| {
      WindowsCover(words, Max(0, end - ov), cw, ov);
    }
  }

  predicate IsPrefix<T(==)>(p: seq<T>, s: seq<T>) { |p| <= |s| && s[..|p|] == p }
  predicate IsSuffix<T(==)>(p: seq<T>, s: seq<T>) { |p| <= |s| && s[|s| - |p|..] == p }

  /** A window that stops short of the last word is followed by the windows from `start + cw - ov`. */
  lemma WindowsUnfold(words: seq<string>, start: nat, cw: nat, ov: nat)
    requires 0 < cw && ov <= cw / 2 && start + cw < |words|
    ensures WindowsFrom(words, start, cw, ov) == [words[start..start + cw]] + WindowsFrom(words, start + cw - ov, cw, ov)
  {
  }

  /** The first two windows share `ov` words. */
  lemma WindowsOverlapFirst(words: seq<string>, start: nat, cw: nat, ov: nat)
    requires 0 < cw && ov <= cw / 2 && start + cw < |words|
    ensures var ws := WindowsFrom(words, start, cw, ov);
      |ws| >= 2 && |ws[0]| == cw && ov <= |ws[1]| && ws[1][..ov] == ws[0][cw - ov..]
  {
    var next := start + cw - ov;
    WindowsUnfold(words, start, cw, ov);
    var w0 := words[start..start + cw];
    var w1 := WindowsFrom(words, next, cw, ov)[0];
    assert w1 == words[next..Min(|words|, next + cw)];
    assert forall k :: 0 <= k < ov ==> w1[..ov][k] == words[next + k] == w0[cw - ov..][k];
  }

  /** Each window after the first starts with the last `ov` words of the one before it. */
  lemma {:induction false} WindowsOverlap(words: seq<string>, start: nat, cw: nat, ov: nat, i: nat)
    requires 0 < cw && ov <= cw / 2 && start < |words|
    requires i + 1 < |WindowsFrom(words, start, cw, ov)|
    ensures var ws := WindowsFrom(words, start, cw, ov);
      |ws[i]| == cw && ov <= |ws[i + 1]| && ws[i + 1][..ov] == ws[i][cw - ov..]
    decreases |words| - start
  {
    assert start + cw < |words|;
    if i > 0 {
      var next := start + cw - ov;
      WindowsUnfold(words, start, cw, ov);
      WindowsOverlap(words, next, cw, ov, i - 1);
    } else {
      WindowsOverlapFirst(words, start, cw, ov);
    }
  }

  /** The words each later window adds: everything after its first `ov` words (Python's `w[ov:]`). */
  function Fresh(ws: seq<seq<string>>, ov: nat): seq<string> {
    if ws == [] then [] else (if ov <= |ws[0]| then ws[0][ov..] else []) + Fresh(ws[1..], ov)
  }

  /** Every window after the first is longer than the overlap, so it adds at least one new word. */
  lemma {:induction false} LaterWindowsExceedOverlap(words: seq<string>, start: nat, cw: nat, ov: nat, i: nat)
    requires 0 < cw && ov <= cw / 2 && start < |words|
    requires 0 < i < |WindowsFrom(words, start, cw, ov)|
    ensures |WindowsFrom(words, start, cw, ov)[i]| > ov
    decreases |words| - start
  {
    var end := Min(|words|, start + cw);
    var next := Max(0, end - ov);
    if i > 1 {
      LaterWindowsExceedOverlap(words, next, cw, ov, i - 1);
    } else {
      assert WindowsFrom(words, start, cw, ov)[1] == words[next..Min(|words|, next + cw)];
    }
  }

  /**
   * The first window followed by the fresh part of every later window is exactly
   * the words from `start` on: the chunks lose no word and repeat none beyond the overlap.
   */
  lemma {:induction false} WindowsReassemble(words: seq<string>, start: nat, cw: nat, ov: nat)
    requires 0 < cw && ov <= cw / 2 && start < |words|
    ensures var ws := WindowsFrom(words, start, cw, ov); ws[0] + Fresh(ws[1..], ov) == words[start..]
    decreases |words| - start
  {
    var ws := WindowsFrom(words, start, cw, ov);
    var end := Min(|words|, start + cw);
    if end == |words| {
      assert ws == [words[start..end]];
    } else {
      var next := end - ov;
      var rest := WindowsFrom(words, next, cw, ov);
      WindowsReassemble(words, next, cw, ov);
      assert ws[1..] == rest;
      var a, b := rest[0], Fresh(rest[1..], ov);
      assert a == words[next..Min(|words|, next + cw)];
      FreshAfterPrefix(a, b, words[next..], ov);
      assert words[next..][ov..] == words[end..];
      assert words[start..] == words[start..end] + words[end..];
    }
  }

  lemma FreshAfterPrefix(a: seq<string>, b: seq<string>, s: seq<string>, ov: nat)
    requires a + b == s && ov <= |a|
    ensures a[ov..] + b == s[ov..]
  {
    assert (a + b)[ov..] == a[ov..] + b;
  }

  // ---------------------------------------------------------------------------
  // The same properties stated on the chunks themselves

  lemma ChunkWords(text: string, chunkWords: int, overlapWords: int, i: nat)
    requires i < |ChunkSpec(text, chunkWords, overlapWords)|
    ensures var words := TokenizeWords(text);
      var cw := EffectiveChunkWords(chunkWords);
      words != [] && Words(ChunkSpec(text, chunkWords, overlapWords)[i].text)
        == WindowsFrom(words, 0, cw, EffectiveOverlap(overlapWords, cw))[i]
  {
    var words := TokenizeWords(text);
    var cw := EffectiveChunkWords(chunkWords);
    var ws := WindowsFrom(words, 0, cw, EffectiveOverlap(overlapWords, cw));
    assert forall w <- ws[i] :: w in words by {
      WindowsAreSlices(words, 0, cw, EffectiveOverlap(overlapWords, cw), i);
    }
    WordsOfJoin(ws[i]);
  }

  lemma {:induction false} WindowsAreSlices(words: seq<string>, start: nat, cw: nat, ov: nat, i: nat)
    requires 0 < cw && ov <= cw / 2 && start < |words|
    requires i < |WindowsFrom(words, start, cw, ov)|
    ensures forall w <- WindowsFrom(words, start, cw, ov)[i] :: w in words
    decreases |words| - start
  {
    var end := Min(|words|, start + cw);
    if i > 0 {
      WindowsAreSlices(words, Max(0, end - ov), cw, ov, i - 1);
    } else {
      assert forall w <- words[start..end] :: w in words;
    }
  }

  /** Text without words yields no chunks. */
  lemma NoWordsNoChunks(text: string, chunkWords: int, overlapWords: int)
    requires Words(text) == []
    ensures ChunkSpec(text, chunkWords, overlapWords) == []
  {
  }

  /**
   * The chunk properties of the sliding window: indices 0,1,2,… in order; at most
   * `chunk_words` words each (after the default of 400 for a non-positive size);
   * the first chunk starts at the first word, the last chunk ends at the final word.
   */
  lemma {:induction false} ChunkShape(text: string, chunkWords: int, overlapWords: int)
    ensures var cs := ChunkSpec(text, chunkWords, overlapWords);
      var words := TokenizeWords(text);
      (words == [] <==> cs == [])
      && (forall i :: 0 <= i < |cs| ==> cs[i].chunkIndex == i)
      && (forall i :: 0 <= i < |cs| ==> 0 < |Words(cs[i].text)| <= EffectiveChunkWords(chunkWords))
      && (cs != [] ==> IsPrefix(Words(cs[0].text), words) && IsSuffix(Words(cs[|cs| - 1].text), words))
  {
    var cs := ChunkSpec(text, chunkWords, overlapWords);
    var words := TokenizeWords(text);
    if words != [] {
      var cw := EffectiveChunkWords(chunkWords);
      var ov := EffectiveOverlap(overlapWords, cw);
      forall i | 0 <= i < |cs|
        ensures 0 < |Words(cs[i].text)| <= cw
      {
        ChunkWords(text, chunkWords, overlapWords, i);
        WindowsBounded(words, 0, cw, ov, i);
      }
      WindowsCover(words, 0, cw, ov);
      ChunkWords(text, chunkWords, overlapWords, 0);
      ChunkWords(text, chunkWords, overlapWords, |cs| - 1);
      assert words[0..] == words;
    }
  }

  /** Consecutive chunks share exactly the clamped overlap: chunk i+1 begins with the last `ov` words of chunk i. */
  lemma ChunksOverlap(text: string, chunkWords: int, overlapWords: int, i: nat)
    requires i + 1 < |ChunkSpec(text, chunkWords, overlapWords)|
    ensures var cs := ChunkSpec(text, chunkWords, overlapWords);
      var cw := EffectiveChunkWords(chunkWords);
      var ov := EffectiveOverlap(overlapWords, cw);
      var a, b := Words(cs[i].text), Words(cs[i + 1].text);
      |a| == cw && ov <= |b| && b[..ov] == a[cw - ov..]
  {
    var words := TokenizeWords(text);
    var cw := EffectiveChunkWords(chunkWords);
    ChunkWords(text, chunkWords, overlapWords, i);
    ChunkWords(text, chunkWords, overlapWords, i + 1);
    WindowsOverlap(words, 0, cw, EffectiveOverlap(overlapWords, cw), i);
  }

  /** The words of the chunks, with every later chunk's overlap removed, are the tokenised text. */
  lemma ChunksReassemble(text: string, chunkWords: int, overlapWords: int)
    requires ChunkSpec(text, chunkWords, overlapWords) != []
    ensures var cs := ChunkSpec(text, chunkWords, overlapWords);
      var cw := EffectiveChunkWords(chunkWords);
      var ov := EffectiveOverlap(overlapWords, cw);
      var ws := seq(|cs|, i requires 0 <= i < |cs| => Words(cs[i].text));
      ws[0] + Fresh(ws[1..], ov) == TokenizeWords(text)
  {
    var cs := ChunkSpec(text, chunkWords, overlapWords);
    var words := TokenizeWords(text);
    var cw := EffectiveChunkWords(chunkWords);
    var ov := EffectiveOverlap(overlapWords, cw);
    var wins := WindowsFrom(words, 0, cw, ov);
    var ws := seq(|cs|, i requires 0 <= i < |cs| => Words(cs[i].text));
    forall i | 0 <= i < |cs| ensures ws[i] == wins[i] {
      ChunkWords(text, chunkWords, overlapWords, i);
    }
    assert ws == wins;
    WindowsReassemble(words, 0, cw, ov);
    assert words[0..] == words;
  }
}
