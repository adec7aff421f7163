/**
 * The word tokeniser of the text-to-speech controller (extension/tts.js).
 *
 * The controller cuts the summary text twice: `match(/\S+/g)` gives the list of
 * words, and `split(/(\s+)/)` gives the alternating runs of non-blank and blank
 * characters that `_createWordSpans` walks to give every word its half-open range
 * `[charStart, charEnd)` in the text. This module defines both cuts on `seq<char>`,
 * a character-level specification of the ranges (`WordSpans`), and proves that the
 * ranges spell out exactly the words, in order, separated by blanks.
 */
module Tokenizer {

  /** JavaScript's `\s` class: the white-space and line-terminator characters of ECMAScript. */
  predicate IsSpace(c: char) {
    || c == ' ' || c == '\t' || c == '\n' || c == '\U{000B}' || c == '\U{000C}' || c == '\r'
    || c == '\U{00A0}' || c == '\U{1680}' || ('\U{2000}' <= c <= '\U{200A}')
    || c == '\U{2028}' || c == '\U{2029}' || c == '\U{202F}' || c == '\U{205F}'
    || c == '\U{3000}' || c == '\U{FEFF}'
  }

  /** A non-empty string whose characters are all blank or all non-blank. */
  ghost predicate IsRun(p: string) {
    |p| > 0 && forall k :: 0 <= k < |p| ==> IsSpace(p[k]) == IsSpace(p[0])
  }

  /** `part.match(/\S+/)` is truthy: the string holds a non-blank character. */
  predicate HasNonSpace(p: string) {
    exists k :: 0 <= k < |p| && !IsSpace(p[k])
  }

  /** Consecutive parts are of different classes: a blank run is followed by a non-blank one and vice versa. */
  ghost predicate Alternates(parts: seq<string>)
    requires forall i :: 0 <= i < |parts| ==> |parts[i]| > 0
  {
    forall i :: 0 < i < |parts| ==> IsSpace(parts[i - 1][0]) != IsSpace(parts[i][0])
  }

  function Concat(parts: seq<string>): string {
    if parts == [] then [] else parts[0] + Concat(parts[1..])
  }

  /** The end of the maximal run of same-class characters that starts at `pos`. */
  function RunEnd(text: string, pos: nat): (e: nat)
    requires pos < |text|
    ensures pos < e <= |text|
    ensures forall k :: pos <= k < e ==> IsSpace(text[k]) == IsSpace(text[pos])
    ensures e < |text| ==> IsSpace(text[e]) != IsSpace(text[pos])
    decreases |text| - pos
  {
    if pos + 1 == |text| || IsSpace(text[pos + 1]) != IsSpace(text[pos]) then pos + 1
    else RunEnd(text, pos + 1)
  }

  /**
   * `text.slice(pos).split(/(\s+)/)` without the empty strings that JavaScript adds
   * at the two ends: the maximal blank and non-blank runs, in order.
   */
  function SplitFrom(text: string, pos: nat): seq<string>
    requires pos <= |text|
    decreases |text| - pos
  {
    if pos == |text| then [] else var e := RunEnd(text, pos); [text[pos..e]] + SplitFrom(text, e)
  }

  function Split(text: string): seq<string> {
    SplitFrom(text, 0)
  }

  /** `text.slice(pos).match(/\S+/g) || []`: the maximal non-blank runs, in order. */
  function WordsFrom(text: string, pos: nat): (ws: seq<string>)
    requires pos <= |text|
    ensures forall i :: 0 <= i < |ws| ==> |ws[i]| > 0
    ensures forall i, k :: 0 <= i < |ws| && 0 <= k < |ws[i]| ==> !IsSpace(ws[i][k])
    decreases |text| - pos
  {
    if pos == |text| then []
    else if IsSpace(text[pos]) then WordsFrom(text, pos + 1)
    else var e := RunEnd(text, pos); [text[pos..e]] + WordsFrom(text, e)
  }

  function Words(text: string): seq<string> {
    WordsFrom(text, 0)
  }

  /**
   * The character-level specification of the word ranges: scanning from `pos`, a
   * blank is skipped, and a non-blank starts a range that ends where its run ends.
   */
  function SpansFrom(text: string, pos: nat): seq<(int, int)>
    requires pos <= |text|
    decreases |text| - pos
  {
    if pos == |text| then []
    else if IsSpace(text[pos]) then SpansFrom(text, pos + 1)
    else var e := RunEnd(text, pos); [(pos, e)] + SpansFrom(text, e)
  }

  function WordSpans(text: string): seq<(int, int)> {
    SpansFrom(text, 0)
  }

  /**
   * `spans` is the tokenisation of `text[from..]`: every range lies in the text and
   * is non-empty, the ranges are strictly increasing with at least one character
   * between any two, every character inside a range is non-blank, and every
   * non-blank character lies inside some range.
   */
  ghost predicate Tokenizes(text: string, spans: seq<(int, int)>, from: nat) {
    && (forall i :: 0 <= i < |spans| ==> from <= spans[i].0 < spans[i].1 <= |text|)
    && (forall i, j :: 0 <= i < j < |spans| ==> spans[i].1 < spans[j].0)
    && (forall i, k :: 0 <= i < |spans| && spans[i].0 <= k < spans[i].1 ==> !IsSpace(text[k]))
    && (forall k :: from <= k < |text| && !IsSpace(text[k]) ==>
          exists i :: 0 <= i < |spans| && spans[i].0 <= k < spans[i].1)
  }

  /**
   * The parts of the split are maximal runs: each is non-empty and of one class,
   * consecutive parts are of different classes, and together they give back the text.
   */
  lemma {:induction false} SplitFromRuns(text: string, pos: nat)
    requires pos <= |text|
    ensures var parts := SplitFrom(text, pos);
      && (forall i :: 0 <= i < |parts| ==> |parts[i]| > 0 && IsRun(parts[i]))
      && Alternates(parts)
      && Concat(parts) == text[pos..]
      && (pos < |text| ==> |parts| > 0 && parts[0][0] == text[pos])
    decreases |text| - pos
  {
    if pos < |text| {
      var e := RunEnd(text, pos);
      SplitFromRuns(text, e);
      var parts := SplitFrom(text, pos);
      assert parts[1..] == SplitFrom(text, e);
      assert text[pos..] == text[pos..e] + text[e..];
    }
  }

  /** Splitting loses and adds nothing: the runs concatenate back to the text. */
  lemma SplitRoundTrip(text: string)
    ensures Concat(Split(text)) == text
  {
    SplitFromRuns(text, 0);
  }

  /**
   * Each range spells its word: there are as many ranges as words, and
   * `text[charStart..charEnd]` is the word with the same index, so
   * `charEnd - charStart` is that word's length.
   */
  lemma {:induction false} SpansSpellWordsFrom(text: string, pos: nat)
    requires pos <= |text|
    ensures |SpansFrom(text, pos)| == |WordsFrom(text, pos)|
    ensures forall i :: 0 <= i < |SpansFrom(text, pos)| ==>
              && pos <= SpansFrom(text, pos)[i].0 <= SpansFrom(text, pos)[i].1 <= |text|
              && text[SpansFrom(text, pos)[i].0..SpansFrom(text, pos)[i].1] == WordsFrom(text, pos)[i]
    decreases |text| - pos
  {
    if pos < |text| {
      if IsSpace(text[pos]) {
        SpansSpellWordsFrom(text, pos + 1);
      } else {
        SpansSpellWordsFrom(text, RunEnd(text, pos));
      }
    }
  }

  lemma SpansSpellWords(text: string)
    ensures |WordSpans(text)| == |Words(text)|
    ensures forall i :: 0 <= i < |WordSpans(text)| ==>
              && 0 <= WordSpans(text)[i].0 <= WordSpans(text)[i].1 <= |text|
              && text[WordSpans(text)[i].0..WordSpans(text)[i].1] == Words(text)[i]
              && WordSpans(text)[i].1 - WordSpans(text)[i].0 == |Words(text)[i]|
  {
    SpansSpellWordsFrom(text, 0);
  }

  /** A blank at `from` may join the scanned part without changing the ranges. */
  lemma TokenizesSkipBlank(text: string, spans: seq<(int, int)>, from: nat)
    requires from < |text| && IsSpace(text[from])
    requires Tokenizes(text, spans, from + 1)
    ensures Tokenizes(text, spans, from)
  {
  }

  /** A maximal non-blank run `[from, e)` in front of a tokenisation of `text[e..]` becomes its first range. */
  lemma TokenizesPrependWord(text: string, rest: seq<(int, int)>, from: nat, e: nat)
    requires from < e <= |text|
    requires forall k :: from <= k < e ==> !IsSpace(text[k])
    requires e < |text| ==> IsSpace(text[e])
    requires Tokenizes(text, rest, e)
    ensures Tokenizes(text, [(from, e)] + rest, from)
  {
    var spans := [(from, e)] + rest;
    forall j | 0 < j < |spans|
      ensures spans[0].1 < spans[j].0
    {
      assert spans[j] == rest[j - 1];
      assert !IsSpace(text[rest[j - 1].0]);
    }
    forall i, j | 0 <= i < j < |spans|
      ensures spans[i].1 < spans[j].0
    {
      if 0 < i {
        assert spans[i] == rest[i - 1] && spans[j] == rest[j - 1];
      }
    }
    forall k | from <= k < |text| && !IsSpace(text[k])
      ensures exists i :: 0 <= i < |spans| && spans[i].0 <= k < spans[i].1
    {
      if k < e {
        assert spans[0].0 <= k < spans[0].1;
      } else {
        var i :| 0 <= i < |rest| && rest[i].0 <= k < rest[i].1;
        assert spans[i + 1] == rest[i];
      }
    }
  }

  lemma {:induction false} SpansTokenizeFrom(text: string, pos: nat)
    requires pos <= |text|
    ensures Tokenizes(text, SpansFrom(text, pos), pos)
    decreases |text| - pos
  {
    if pos < |text| {
      if IsSpace(text[pos]) {
        SpansTokenizeFrom(text, pos + 1);
        TokenizesSkipBlank(text, SpansFrom(text, pos + 1), pos);
      } else {
        var e := RunEnd(text, pos);
        SpansTokenizeFrom(text, e);
        TokenizesPrependWord(text, SpansFrom(text, e), pos, e);
      }
    }
  }

  /** `WordSpans` is the tokenisation of the whole text. */
  lemma SpansTokenize(text: string)
    ensures Tokenizes(text, WordSpans(text), 0)
  {
    SpansTokenizeFrom(text, 0);
  }

  /** Between two consecutive words there is at least one character, and all of it is blank. */
  lemma GapsAreBlank(text: string, spans: seq<(int, int)>, from: nat, i: nat, k: int)
    requires Tokenizes(text, spans, from)
    requires i + 1 < |spans|
    requires spans[i].1 <= k < spans[i + 1].0
    ensures IsSpace(text[k])
  {
  }

  /** A blank run contributes no range: skipping it whole or one character at a time agrees. */
  lemma {:induction false} SkipBlankRun(text: string, pos: nat, e: nat)
    requires pos <= e <= |text|
    requires forall k :: pos <= k < e ==> IsSpace(text[k])
    ensures SpansFrom(text, pos) == SpansFrom(text, e)
    decreases e - pos
  {
    if pos < e {
      SkipBlankRun(text, pos + 1, e);
    }
  }

  /**
   * One step of the walk over the runs: the run at `pos` is the next part of the
   * split, and it contributes the range `[pos, e)` exactly when it holds a
   * non-blank character.
   */
  lemma RunStep(text: string, pos: nat)
    requires pos < |text|
    ensures var e := RunEnd(text, pos);
      && SplitFrom(text, pos) == [text[pos..e]] + SplitFrom(text, e)
      && SpansFrom(text, pos) == (if HasNonSpace(text[pos..e]) then [(pos, e)] else []) + SpansFrom(text, e)
  {
    var e := RunEnd(text, pos);
    if IsSpace(text[pos]) {
      SkipBlankRun(text, pos, e);
      assert !HasNonSpace(text[pos..e]);
    } else {
      assert text[pos..e][0] == text[pos];
    }
  }

  /**
   * The invariant of the walk in `_createWordSpans` after `j` parts: the offset
   * `pos` lies in the text, the parts from `j` on are the split of `text[pos..]`,
   * and `spans` followed by the ranges of `text[pos..]` are all the ranges.
   */
  ghost predicate Walked(text: string, parts: seq<string>, j: nat, pos: nat, spans: seq<(int, int)>) {
    && pos <= |text| && j <= |parts|
    && parts[j..] == SplitFrom(text, pos)
    && spans + SpansFrom(text, pos) == WordSpans(text)
  }

  /** The walk starts at offset 0, before the first part, with no range. */
  lemma WalkStart(text: string)
    ensures Walked(text, Split(text), 0, 0, [])
  {
    assert Split(text)[0..] == Split(text);
  }

  /**
   * One step keeps the invariant: part `j` advances the offset by its length and
   * adds its range `[pos, pos + length)` exactly when it holds a non-blank character.
   */
  lemma WalkStep(text: string, parts: seq<string>, j: nat, pos: nat, spans: seq<(int, int)>)
    requires Walked(text, parts, j, pos, spans) && j < |parts|
    ensures pos + |parts[j]| <= |text|
    ensures Walked(text, parts, j + 1, pos + |parts[j]|,
                   if HasNonSpace(parts[j]) then spans + [(pos, pos + |parts[j]|)] else spans)
  {
    assert pos < |text|;
    var e := RunEnd(text, pos);
    RunStep(text, pos);
    assert parts[j + 1..] == parts[j..][1..];
    assert parts[j] == text[pos..e];
    assert pos + |parts[j]| == e;
    if HasNonSpace(parts[j]) {
      assert SpansFrom(text, pos) == [(pos, e)] + SpansFrom(text, e);
      assert (spans + [(pos, e)]) + SpansFrom(text, e) == spans + ([(pos, e)] + SpansFrom(text, e));
    } else {
      assert SpansFrom(text, pos) == SpansFrom(text, e);
    }
  }

  /** Once every part is walked, the ranges recorded are all of them. */
  lemma WalkDone(text: string, parts: seq<string>, pos: nat, spans: seq<(int, int)>)
    requires Walked(text, parts, |parts|, pos, spans)
    ensures spans == WordSpans(text)
  {
    assert SplitFrom(text, pos) == [];
    assert pos == |text|;
    assert spans + [] == spans;
  }

}
