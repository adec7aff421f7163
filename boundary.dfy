/**
 * Boundary resolution of the text-to-speech controller (`_onBoundary`,
 * extension/tts.js): the speech engine reports the character offset at which it
 * starts a word, and the controller turns that offset into the index of the word
 * to highlight.
 *
 * A word range is a pair `(charStart, charEnd)`, half-open. The scan of the source
 * is `ScanFrom`/`Resolve` (as a function) and `FindWordIndex` (as the loop it is);
 * `NextWordIndex` adds the fall-back to the last word and the suppression of
 * redundant updates. The lemmas say what these compute on ranges that are ordered
 * the way the tokeniser produces them.
 */
module Boundary {

  /** Range `i` contains `c`. */
  predicate InSpan(spans: seq<(int, int)>, i: nat, c: int)
    requires i < |spans|
  {
    spans[i].0 <= c < spans[i].1
  }

  /** `c` lies in the gap between range `i` and range `i + 1`. */
  predicate InGapAfter(spans: seq<(int, int)>, i: nat, c: int)
    requires i < |spans|
  {
    i + 1 < |spans| && spans[i].1 <= c < spans[i + 1].0
  }

  /**
   * The scan of the source from range `i` on: the first range that contains `c`
   * is chosen, or, if `c` lies in the gap after a range, the range after the gap;
   * -1 when neither happens anywhere.
   */
  function ScanFrom(spans: seq<(int, int)>, c: int, i: nat): (w: int)
    requires i <= |spans|
    decreases |spans| - i
  {
    if i == |spans| then -1
    else if InSpan(spans, i, c) then i
    else if InGapAfter(spans, i, c) then i + 1
    else ScanFrom(spans, c, i + 1)
  }

  function Resolve(spans: seq<(int, int)>, c: int): int {
    ScanFrom(spans, c, 0)
  }

  /** The loop of `_onBoundary` that looks for the word to highlight. */
  method FindWordIndex(spans: seq<(int, int)>, c: int) returns (w: int)
    ensures w == Resolve(spans, c)
    ensures w == -1 || 0 <= w < |spans|
  {
    w := -1;
    var i := 0;
    while i < |spans|
      invariant 0 <= i <= |spans|
      invariant ScanFrom(spans, c, i) == Resolve(spans, c)
    {
      var start, end := spans[i].0, spans[i].1;
      if c >= start && c < end {
        w := i;
        break;
      }
      if i + 1 < |spans| {
        var nextStart := spans[i + 1].0;
        if c >= end && c < nextStart {
          w := i + 1;
          break;
        }
      }
      i := i + 1;
    }
    ScanInRange(spans, c, 0);
  }

  lemma {:induction false} ScanInRange(spans: seq<(int, int)>, c: int, i: nat)
    requires i <= |spans|
    ensures ScanFrom(spans, c, i) == -1 || i <= ScanFrom(spans, c, i) < |spans|
    decreases |spans| - i
  {
    if i < |spans| && !InSpan(spans, i, c) && !InGapAfter(spans, i, c) {
      ScanInRange(spans, c, i + 1);
    }
  }

  /**
   * The new `currentWordIndex` after a word boundary at `c` while playing: the
   * resolved word when it differs from `current`; otherwise, when nothing
   * resolved, `c > 0` and `c` is at or past the end of the last range, the last
   * word; otherwise `current` is kept.
   */
  function NextWordIndex(spans: seq<(int, int)>, current: int, c: int): (next: int)
    ensures next == current || 0 <= next < |spans|
  {
    ScanInRange(spans, c, 0);
    var w := Resolve(spans, c);
    if w != -1 && w != current then w
    else if w == -1 && c > 0 && |spans| > 0 && c >= spans[|spans| - 1].1 && current != |spans| - 1 then
      |spans| - 1
    else current
  }

  /** Non-empty ranges, strictly increasing with a gap between any two. */
  ghost predicate Ordered(spans: seq<(int, int)>) {
    && (forall i :: 0 <= i < |spans| ==> 0 <= spans[i].0 < spans[i].1)
    && (forall i, j :: 0 <= i < j < |spans| ==> spans[i].1 < spans[j].0)
  }

  /** An offset before range `i` of ordered ranges resolves to nothing from `i` on. */
  lemma {:induction false} ScanBefore(spans: seq<(int, int)>, c: int, i: nat)
    requires Ordered(spans)
    requires i <= |spans|
    requires i < |spans| ==> c < spans[i].0
    ensures ScanFrom(spans, c, i) == -1
    decreases |spans| - i
  {
    if i < |spans| {
      ScanBefore(spans, c, i + 1);
    }
  }

  /**
   * On ordered ranges, scanning from `i` with `c` past the end of range `i - 1`
   * and at or after the start of range `i` finds the first range whose end lies
   * beyond `c`, or nothing when `c` is past the end of the last range.
   */
  lemma {:induction false} ScanAfter(spans: seq<(int, int)>, c: int, i: nat)
    requires Ordered(spans)
    requires i <= |spans|
    requires i < |spans| ==> spans[i].0 <= c
    requires 0 < i ==> spans[i - 1].1 <= c
    ensures var w := ScanFrom(spans, c, i);
      if i == |spans| || spans[|spans| - 1].1 <= c then w == -1
      else i <= w < |spans| && c < spans[w].1 && (w == 0 || spans[w - 1].1 <= c)
    decreases |spans| - i
  {
    if i == |spans| {
    } else if c < spans[i].1 {
      assert InSpan(spans, i, c);
      if i < |spans| - 1 {
        assert spans[i].1 < spans[|spans| - 1].0;
      }
    } else if i + 1 < |spans| && c < spans[i + 1].0 {
      assert ScanFrom(spans, c, i) == i + 1;
      assert spans[i + 1].1 <= spans[|spans| - 1].1;
    } else {
      assert !InSpan(spans, i, c) && !InGapAfter(spans, i, c);
      ScanAfter(spans, c, i + 1);
    }
  }

  /**
   * On ordered ranges the first-match scan resolves `c` to the unique word `w`
   * with `end(w - 1) <= c < end(w)` (for `w = 0`, `start(0) <= c < end(0)`): an
   * offset inside a word gives that word and an offset in a gap gives the word
   * after the gap. Offsets before the first word or at or past the end of the last
   * one resolve to nothing.
   */
  lemma ResolveOrdered(spans: seq<(int, int)>, c: int)
    requires Ordered(spans)
    ensures var w := Resolve(spans, c);
      if |spans| == 0 || c < spans[0].0 || spans[|spans| - 1].1 <= c then w == -1
      else 0 <= w < |spans| && c < spans[w].1 && (w == 0 || spans[w - 1].1 <= c)
  {
    if |spans| > 0 && c < spans[0].0 {
      ScanBefore(spans, c, 0);
    } else {
      ScanAfter(spans, c, 0);
    }
  }

  /**
   * The whole update on ordered ranges: an offset before the first word (or any
   * offset when there is no word) keeps `current`; any other offset makes current
   * the first word whose end lies beyond it, or the last word when there is none.
   */
  lemma NextWordIndexOrdered(spans: seq<(int, int)>, current: int, c: int)
    requires Ordered(spans)
    ensures var next := NextWordIndex(spans, current, c);
      if |spans| == 0 || c < spans[0].0 then next == current
      else
        && 0 <= next < |spans|
        && (next == 0 || spans[next - 1].1 <= c)
        && (next == |spans| - 1 || c < spans[next].1)
  {
    ResolveOrdered(spans, c);
  }
}
