/**
 * The `TextToSpeech` controller of the extension's sidebar (extension/tts.js):
 * it holds the summary text, its words and their character ranges, drives the
 * browser's speech engine through play, pause, resume and stop, and moves a
 * single highlight from word to word as the engine reports word boundaries.
 *
 * The browser's speech engine is modelled by two fields of the controller,
 * `speaking` (the engine's `speaking` flag) and `enginePaused`, which only the
 * engine transitions `EngineSpeak`, `EnginePause`, `EngineResume`, `EngineCancel`
 * and `EngineFinished` change. The highlight classes of the word spans are the
 * `bool` array `highlighted`, one flag per word range.
 */
module Tts {
  import opened Wrappers
  import opened Tokenizer
  import opened Boundary

  /** What the engine is asked to speak: the text and the index of the chosen voice, if any. */
  datatype Utterance = Utterance(text: string, voice: Option<nat>)

  /** A `boundary` event of the speech engine: its kind (`"word"` or `"sentence"`) and its offset. */
  datatype BoundaryEvent = BoundaryEvent(name: string, charIndex: int)

  /**
   * The voice a new utterance takes: the one at the dropdown's parsed index when
   * that index is a number and names a loaded voice, else the engine's default.
   */
  function ChosenVoice(voices: seq<string>, choice: Option<int>): Option<nat> {
    if choice.Some? && 0 <= choice.value < |voices| then Some(choice.value) else None
  }

  /** The ranges the controller builds are ordered: non-empty, increasing, with a gap between any two. */
  lemma WordSpansOrdered(text: string)
    ensures Ordered(WordSpans(text))
  {
    SpansTokenize(text);
  }

  /**
   * A fresh start sets the index to 0 without highlighting, and the engine's first
   * word boundary, at the start of word 0, then resolves to word 0 itself: the
   * update is redundant, so word 0 is never highlighted on a fresh start.
   */
  lemma FirstWordBoundaryIsRedundant(text: string)
    requires |WordSpans(text)| > 0
    ensures NextWordIndex(WordSpans(text), 0, WordSpans(text)[0].0) == 0
  {
    var spans := WordSpans(text);
    WordSpansOrdered(text);
    ResolveOrdered(spans, spans[0].0);
  }

  /** The runs of "Hello world": "Hello" ends at 5 and "world" at 11. */
  lemma HelloWorldRuns()
    ensures RunEnd("Hello world", 0) == 5 && RunEnd("Hello world", 6) == 11
  {
    var t := "Hello world";
    assert RunEnd(t, 4) == 5;
    assert RunEnd(t, 3) == 5;
    assert RunEnd(t, 2) == 5;
    assert RunEnd(t, 1) == 5;
    assert RunEnd(t, 10) == 11;
    assert RunEnd(t, 9) == 11;
    assert RunEnd(t, 8) == 11;
    assert RunEnd(t, 7) == 11;
  }

  /**
   * For "Hello world" the words are `[0, 5)` and `[6, 11)`, and a word boundary
   * reported at the blank (offset 5) makes word 1, "world", current.
   */
  lemma HelloWorldBoundary()
    ensures Words("Hello world") == ["Hello", "world"]
    ensures WordSpans("Hello world") == [(0, 5), (6, 11)]
    ensures NextWordIndex(WordSpans("Hello world"), 0, 5) == 1
  {
    var t := "Hello world";
    HelloWorldRuns();
    assert SpansFrom(t, 11) == [] && WordsFrom(t, 11) == [];
    assert SpansFrom(t, 5) == SpansFrom(t, 6) == [(6, 11)];
    assert t[6..11] == "world" && t[0..5] == "Hello";
    assert WordsFrom(t, 5) == WordsFrom(t, 6) == ["world"];
    var spans := [(0, 5), (6, 11)];
    assert ScanFrom(spans, 5, 0) == 1;
  }

  /**
   * A word boundary inside leading blanks resolves to no word and is below the
   * end of the last word, so the current index is kept: in "  Hi", offset 1.
   */
  lemma LeadingBlankKeepsIndex()
    ensures WordSpans("  Hi") == [(2, 4)]
    ensures NextWordIndex(WordSpans("  Hi"), 0, 1) == 0
  {
    var t := "  Hi";
    assert RunEnd(t, 2) == 4 by {
      assert RunEnd(t, 3) == 4;
    }
    assert SpansFrom(t, 4) == [];
    assert SpansFrom(t, 2) == [(2, 4)];
    assert ScanFrom([(2, 4)], 1, 0) == -1;
  }

  class TextToSpeech {
    var currentText: string
    var words: seq<string>
    var wordSpans: seq<(int, int)>
    var highlighted: array<bool>
    var currentWordIndex: int
    var isPlaying: bool
    var isPaused: bool
    var utterance: Option<Utterance>
    var voices: seq<string>
    // The browser's speech engine.
    var speaking: bool
    var enginePaused: bool

    /**
     * The words and ranges belong to the current text, there is one highlight flag
     * per range, the current index names a range (or is 0 when there is none), only
     * the current word may be highlighted, and the engine is paused only while it
     * is speaking.
     */
    ghost predicate WellFormed()
      reads this, highlighted
    {
      && words == Words(currentText)
      && wordSpans == WordSpans(currentText)
      && highlighted.Length == |wordSpans|
      && 0 <= currentWordIndex
      && (currentWordIndex == 0 || currentWordIndex < |wordSpans|)
      && (forall k :: 0 <= k < highlighted.Length && highlighted[k] ==> k == currentWordIndex)
      && (enginePaused ==> speaking)
    }

    /**
     * The playback flags track the engine: it speaks exactly while the controller
     * is playing or paused, it is paused exactly while the controller is, an
     * utterance exists exactly while it speaks, and when it is silent the index is
     * 0 and nothing is highlighted. In particular `isPlaying` and `isPaused` are
     * never both true.
     */
    ghost predicate Valid()
      reads this, highlighted
    {
      && WellFormed()
      && !(isPlaying && isPaused)
      && speaking == (isPlaying || isPaused)
      && enginePaused == isPaused
      && utterance.Some? == speaking
      && (speaking ==> currentText != [] && |words| > 0 && utterance.value.text == currentText)
      && (!speaking ==> currentWordIndex == 0 && forall k :: 0 <= k < highlighted.Length ==> !highlighted[k])
    }

    /** The state `stop` and `_onEnd` leave behind. */
    ghost predicate Stopped()
      reads this, highlighted
    {
      && !isPlaying && !isPaused && !speaking && !enginePaused
      && currentWordIndex == 0
      && utterance == None
      && forall k :: 0 <= k < highlighted.Length ==> !highlighted[k]
    }

    constructor (voices: seq<string>)
      ensures Valid() && Stopped()
      ensures this.voices == voices && currentText == [] && words == [] && wordSpans == []
      ensures fresh(highlighted)
    {
      this.voices := voices;
      currentText := [];
      words := [];
      wordSpans := [];
      highlighted := new bool[0];
      currentWordIndex := 0;
      isPlaying, isPaused := false, false;
      utterance := None;
      speaking, enginePaused := false, false;
    }

    // ----- the speech engine -----

    method EngineSpeak()
      modifies this`speaking, this`enginePaused
      ensures speaking && !enginePaused
    {
      speaking, enginePaused := true, false;
    }

    method EnginePause()
      modifies this`enginePaused
      ensures enginePaused == (old(enginePaused) || speaking)
    {
      if speaking {
        enginePaused := true;
      }
    }

    method EngineResume()
      modifies this`enginePaused
      ensures !enginePaused
    {
      enginePaused := false;
    }

    method EngineCancel()
      modifies this`speaking, this`enginePaused
      ensures !speaking && !enginePaused
    {
      speaking, enginePaused := false, false;
    }

    /**
     * The engine finishes the utterance it is speaking, or fails on it, and then
     * calls the utterance's `onend` or `onerror` handler.
     */
    method EngineFinished(failed: bool)
      requires Valid() && speaking
      modifies this, highlighted
      ensures Valid() && Stopped()
      ensures currentText == old(currentText) && words == old(words) && wordSpans == old(wordSpans)
      ensures highlighted == old(highlighted) && voices == old(voices)
    {
      speaking, enginePaused := false, false;
      if failed {
        OnError();
      } else {
        OnEnd();
      }
    }

    // ----- the controller -----

    method SetText(text: Option<string>)
      requires WellFormed()
      modifies this, highlighted
      ensures Valid() && Stopped() && fresh(highlighted)
      ensures currentText == (if text.Some? then text.value else [])
      ensures words == Words(currentText) && wordSpans == WordSpans(currentText)
      ensures voices == old(voices)
    {
      Stop();
      currentText := if text.Some? then text.value else [];
      words := Words(currentText);
      CreateWordSpans();
      currentWordIndex := 0;
    }

    /**
     * Walks the blank and non-blank runs of the text with a running offset and
     * records a range for every non-blank run; the word spans are new, so none is
     * highlighted.
     */
    method CreateWordSpans()
      modifies this`wordSpans, this`highlighted
      ensures wordSpans == WordSpans(currentText)
      ensures fresh(highlighted) && highlighted.Length == |wordSpans|
      ensures forall k :: 0 <= k < highlighted.Length ==> !highlighted[k]
    {
      var spans: seq<(int, int)> := [];
      var currentPos: nat := 0;
      var text := currentText;
      var parts := Split(text);
      var j := 0;
      WalkStart(text);
      while j < |parts|
        invariant Walked(text, parts, j, currentPos, spans)
      {
        var part := parts[j];
        WalkStep(text, parts, j, currentPos, spans);
        if HasNonSpace(part) {
          // a word: its range starts at the running offset
          spans := spans + [(currentPos, currentPos + |part|)];
        }
        currentPos := currentPos + |part|;
        j := j + 1;
      }
      WalkDone(text, parts, currentPos, spans);
      wordSpans := spans;
      highlighted := new bool[|wordSpans|](_ => false);
    }

    method TogglePlayPause(voiceChoice: Option<int>)
      requires Valid()
      modifies this`isPlaying, this`isPaused, this`currentWordIndex, this`utterance, this`speaking, this`enginePaused
      ensures Valid()
      ensures old(isPlaying) ==> !isPlaying && isPaused && currentWordIndex == old(currentWordIndex)
      ensures old(isPlaying) ==> utterance == old(utterance)
      ensures !old(isPlaying) && currentText != [] && |words| > 0 ==> isPlaying && !isPaused
      ensures !old(isPlaying) && old(isPaused) ==> currentWordIndex == old(currentWordIndex) && utterance == old(utterance)
      ensures old(!speaking && currentText != [] && |words| > 0) ==>
                currentWordIndex == 0 && utterance == Some(Utterance(currentText, ChosenVoice(voices, voiceChoice)))
    {
      if isPlaying {
        Pause();
      } else {
        Play(voiceChoice);
      }
    }

    /**
     * `voiceChoice` is the parsed value of the voice dropdown (`None` for `NaN`).
     * With no text or no word, nothing happens; from pause, speech resumes where it
     * was; with the engine silent, a new utterance of the whole text starts at
     * word 0; while already playing, nothing happens.
     */
    method Play(voiceChoice: Option<int>)
      requires Valid()
      modifies this`isPlaying, this`isPaused, this`currentWordIndex, this`utterance, this`speaking, this`enginePaused
      ensures Valid()
      ensures old(currentText == [] || |words| == 0 || isPlaying) ==>
                isPlaying == old(isPlaying) && isPaused == old(isPaused) && utterance == old(utterance)
                && currentWordIndex == old(currentWordIndex)
      ensures old(currentText != [] && |words| > 0) ==> isPlaying && !isPaused
      ensures old(isPaused) ==> currentWordIndex == old(currentWordIndex) && utterance == old(utterance)
      ensures old(!speaking && currentText != [] && |words| > 0) ==>
                currentWordIndex == 0 && utterance == Some(Utterance(currentText, ChosenVoice(voices, voiceChoice)))
    {
      if currentText == [] || |words| == 0 {
        return;
      }
      if speaking && isPaused {
        EngineResume();
        isPlaying := true;
        isPaused := false;
      } else if !speaking {
        utterance := Some(Utterance(currentText, ChosenVoice(voices, voiceChoice)));
        EngineSpeak();
        isPlaying := true;
        isPaused := false;
        currentWordIndex := 0;
      }
    }

    /** Pauses only a speaking, unpaused engine, which is exactly while playing. */
    method Pause()
      requires Valid()
      modifies this`isPlaying, this`isPaused, this`enginePaused
      ensures Valid()
      ensures old(speaking && !isPaused) == old(isPlaying)
      ensures old(isPlaying) ==> !isPlaying && isPaused
      ensures !old(isPlaying) ==> isPlaying == old(isPlaying) && isPaused == old(isPaused)
    {
      if speaking && !isPaused {
        EnginePause();
        isPlaying := false;
        isPaused := true;
      }
    }

    /** Whatever the prior state, cancels the engine and resets playback and highlighting. */
    method Stop()
      requires WellFormed()
      modifies this`isPlaying, this`isPaused, this`currentWordIndex, this`utterance, this`speaking, this`enginePaused,
        highlighted
      ensures Valid() && Stopped()
    {
      if speaking || isPaused {
        EngineCancel();
      }
      isPlaying := false;
      isPaused := false;
      currentWordIndex := 0;
      ClearHighlight();
      if utterance.Some? {
        utterance := None;
      }
    }

    /**
     * While playing, a rate change restarts the utterance from word 0; otherwise
     * nothing observable changes. The rate itself is not modelled: `voiceChoice` is
     * the voice dropdown's parsed value, which the restarted `Play` reads.
     */
    method SetRate(voiceChoice: Option<int>)
      requires Valid()
      modifies this`isPlaying, this`isPaused, this`currentWordIndex, this`utterance, this`speaking, this`enginePaused,
        highlighted
      ensures Valid()
      ensures old(utterance.Some? && isPlaying) ==>
                && isPlaying && !isPaused && currentWordIndex == 0
                && utterance == Some(Utterance(currentText, ChosenVoice(voices, voiceChoice)))
                && forall k :: 0 <= k < highlighted.Length ==> !highlighted[k]
      ensures !old(utterance.Some? && isPlaying) ==>
                unchanged(this) && unchanged(highlighted)
    {
      if utterance.Some? {
        if isPlaying {
          Stop();
          Play(voiceChoice);
        }
      }
    }

    /**
     * `voiceIndex` is `parseInt` of the chosen dropdown value (`None` for `NaN`).
     * With an utterance and a loaded voice at that index, playing or paused speech
     * restarts from word 0 with that voice.
     */
    method SetVoice(voiceIndex: Option<int>)
      requires Valid()
      modifies this`isPlaying, this`isPaused, this`currentWordIndex, this`utterance, this`speaking, this`enginePaused,
        highlighted
      ensures Valid()
      ensures old(utterance.Some?) && ChosenVoice(voices, voiceIndex).Some? ==>
                && isPlaying && !isPaused && currentWordIndex == 0
                && utterance == Some(Utterance(currentText, ChosenVoice(voices, voiceIndex)))
                && forall k :: 0 <= k < highlighted.Length ==> !highlighted[k]
      ensures !(old(utterance.Some?) && ChosenVoice(voices, voiceIndex).Some?) ==>
                unchanged(this) && unchanged(highlighted)
    {
      if utterance.Some? && voiceIndex.Some? && 0 <= voiceIndex.value < |voices| {
        utterance := Some(utterance.value.(voice := Some(voiceIndex.value)));
        if isPlaying || isPaused {
          var wasPlaying, wasPaused := isPlaying, isPaused;
          Stop();
          if wasPlaying || wasPaused {
            Play(voiceIndex);
          }
        }
      }
    }

    /**
     * A boundary event moves the highlight only when it is a word boundary and the
     * controller is playing; the index then becomes `NextWordIndex` of the ranges,
     * and the highlight is redrawn only when the index changed.
     */
    method OnBoundary(ev: BoundaryEvent)
      requires Valid()
      modifies this`currentWordIndex, highlighted
      ensures Valid()
      ensures currentWordIndex ==
                if ev.name == "word" && isPlaying then NextWordIndex(wordSpans, old(currentWordIndex), ev.charIndex)
                else old(currentWordIndex)
      ensures currentWordIndex != old(currentWordIndex) ==>
                forall k :: 0 <= k < highlighted.Length ==> (highlighted[k] <==> k == currentWordIndex)
      ensures currentWordIndex == old(currentWordIndex) ==> unchanged(highlighted)
    {
      if ev.name != "word" || !isPlaying {
        return;
      }
      var charIndex := ev.charIndex;
      var wordIndexToHighlight := FindWordIndex(wordSpans, charIndex);
      if wordIndexToHighlight != -1 && wordIndexToHighlight != currentWordIndex {
        currentWordIndex := wordIndexToHighlight;
        HighlightWord(currentWordIndex);
      } else if wordIndexToHighlight == -1 && charIndex > 0 {
        if |wordSpans| > 0 {
          var end := wordSpans[|wordSpans| - 1].1;
          if charIndex >= end && currentWordIndex != |wordSpans| - 1 {
            currentWordIndex := |wordSpans| - 1;
            HighlightWord(currentWordIndex);
          }
        }
      }
    }

    /** The `onend` handler; the engine has stopped speaking when it runs. */
    method OnEnd()
      requires WellFormed() && !speaking
      modifies this`isPlaying, this`isPaused, this`currentWordIndex, this`utterance, highlighted
      ensures Valid() && Stopped()
    {
      isPlaying := false;
      isPaused := false;
      currentWordIndex := 0;
      ClearHighlight();
      utterance := None;
    }

    /** The `onerror` handler treats an error like the end of speech. */
    method OnError()
      requires WellFormed() && !speaking
      modifies this`isPlaying, this`isPaused, this`currentWordIndex, this`utterance, highlighted
      ensures Valid() && Stopped()
    {
      OnEnd();
    }

    /** Clears every highlight, then highlights word `wordIndex` when it names a range. */
    method HighlightWord(wordIndex: int)
      requires highlighted.Length == |wordSpans|
      modifies highlighted
      ensures forall k :: 0 <= k < highlighted.Length ==> (highlighted[k] <==> k == wordIndex)
    {
      ClearHighlight();
      if wordIndex >= 0 && wordIndex < |wordSpans| {
        highlighted[wordIndex] := true;
      }
    }

    method ClearHighlight()
      modifies highlighted
      ensures forall k :: 0 <= k < highlighted.Length ==> !highlighted[k]
    {
      var k := 0;
      while k < highlighted.Length
        invariant 0 <= k <= highlighted.Length
        invariant forall m :: 0 <= m < k ==> !highlighted[m]
      {
        highlighted[k] := false;
        k := k + 1;
      }
    }
  }
}
