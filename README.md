# TubeSummarizer AI: text-to-speech controller and CORS rule, in Dafny

This project models two parts of the TubeSummarizer AI browser extension and its backend, and proves properties about them.

**The `TextToSpeech` controller** (extension/tts.js) reads a video summary aloud in the sidebar and highlights each word as it is spoken. The model has four parts:

- **Tokeniser** (`tokenizer.dfy`, module `Tokenizer`). It defines the two ways the controller cuts the text:
  - `match(/\S+/g)` gives the words (`Words`);
  - `split(/(\s+)/)` gives the runs of blank and non-blank characters (`Split`).
  
  It also gives a character-level specification of each word's half-open range `[charStart, charEnd)` (`WordSpans`). The lemmas prove that the ranges spell out exactly the words, in order, with blanks and only blanks between them.
- **Boundary resolver** (`boundary.dfy`, module `Boundary`). The speech engine reports a character offset; the resolver turns it into the word to highlight:
  - the scan of `_onBoundary`, as a function and as the loop it is;
  - the fall-back to the last word;
  - the suppression of redundant updates.
  
  On ordered ranges, an offset before the first word resolves to nothing and keeps the current index; any other offset makes current the first word that ends beyond it, or the last word when the offset is at or past the last word's end.
- **Playback state machine** (`tts.dfy`, class `Tts.TextToSpeech`). It has the controller's own fields (`currentText`, `words`, `wordSpans`, `currentWordIndex`, `isPlaying`, `isPaused`, `utterance`, `voices`) and a `bool` array `highlighted` that holds one highlight flag per word span. The browser's speech engine is the two fields `speaking` and `enginePaused`, and only the engine transitions change them. `Valid()` ties the controller's flags to the engine's:
  - the engine speaks exactly while the controller is playing or paused;
  - `isPlaying` and `isPaused` are never both true;
  - at most one word is highlighted, and only the current one;
  - when silent, the index is 0 and nothing is highlighted.
  
  The controller operations `SetText`, `TogglePlayPause`, `Play`, `Pause`, `Stop`, `SetRate`, `SetVoice`, `OnBoundary`, `OnEnd`, `OnError` and `EngineFinished` (and the constructor) end in a `Valid()` state. The helpers `CreateWordSpans`, `HighlightWord`, `ClearHighlight` and the engine transitions do not promise `Valid()` on their own; they are only called inside those operations, which restore it.
- **CORS rule** (`cors.dfy`, module `Cors`). It builds the allowed-origin list from `ALLOWED_ORIGINS` (or the default) and checks an `Origin` against the list. It covers the `*`, prefix and exact entries and the 403 answer to a refused origin.

`wrappers.dfy` holds `Option`, which stands for JavaScript's `null`, `undefined` and `NaN`.

Behaviours of the code worth knowing:

- **Word ranges.** Each range keeps its word's exact offset in the text, whatever blanks separate the words (`Tokenizer.SpansSpellWords`).
- **Last-word fall-back.** The fall-back to the last word also tests `charIndex > 0` (extension/tts.js:233). `Boundary.NextWordIndexOrdered` shows that this test never matters for the ranges the tokeniser builds.
- **Pause outside speech.** `pause` does nothing unless the engine is speaking and not paused (extension/tts.js:134).
- **Word 0 on a fresh start.** A fresh `play` sets the index to 0 without highlighting (extension/tts.js:128). The first word boundary, at the start of word 0, then resolves to the current index and counts as redundant (extension/tts.js:230), so word 0 is never highlighted on a fresh start (`Tts.FirstWordBoundaryIsRedundant`).

## Model

| member | source | states |
|---|---|---|
| `Tokenizer.RunEnd` | extension/tts.js:67 | the end of the maximal run of one class (blank or non-blank) starting at a position: every character before it has that class, the one at it does not |
| `Tokenizer.SplitFromRuns` | extension/tts.js:67 | the parts of `split(/(\s+)/)` are non-empty, each of one class, alternate between blank and non-blank, start with the text's first character and concatenate to the text |
| `Tokenizer.SplitRoundTrip` | extension/tts.js:67-80 | concatenating the split parts gives back the text, so the running offset that adds every part's length walks the whole text |
| `Tokenizer.WordsFrom` | extension/tts.js:55 | every word of `match(/\S+/g)` is non-empty and has no blank character |
| `Tokenizer.SpansSpellWords` | extension/tts.js:63-80 | there are as many ranges as words; range `i` lies in the text, `text[charStart..charEnd]` is word `i`, and `charEnd - charStart` is its length |
| `Tokenizer.SpansTokenize` | extension/tts.js:60-82 | the ranges are non-empty and strictly increasing with at least one character between any two; every character inside a range is non-blank and every non-blank character lies inside a range |
| `Tokenizer.GapsAreBlank` | extension/tts.js:67-80 | every character between two consecutive word ranges is blank |
| `Tokenizer.WalkStep` | extension/tts.js:67-80 | one step of the walk over the parts keeps its invariant: the offset grows by the part's length, and a range `[offset, offset + length)` is added exactly when the part holds a non-blank character |
| `Boundary.FindWordIndex` | extension/tts.js:204-227 | the `for` loop with `break` returns the first-match result (a containing range, else the range after a gap that contains the offset), -1 when there is none, and otherwise a valid index |
| `Boundary.NextWordIndex` | extension/tts.js:229-243 | the new current index is the old one or a valid index of the ranges |
| `Boundary.ResolveOrdered` | extension/tts.js:208-227 | on ordered ranges, an offset before the first word or at or past the end of the last word resolves to nothing; any other offset resolves to the unique word `w` with `end(w-1) <= offset < end(w)`, which is the containing word or the word after the gap |
| `Boundary.NextWordIndexOrdered` | extension/tts.js:208-243 | on ordered ranges, an offset before the first word (or any offset when there are no words) keeps the current index; any other offset makes current the first word whose end lies beyond it, or the last word |
| `Tts.WordSpansOrdered` | extension/tts.js:60-82 | the ranges built for any text are ordered, so the boundary lemmas apply to them |
| `Tts.HelloWorldBoundary` | extension/tts.js:208-232 | "Hello world" has words `[0,5)` and `[6,11)`, and a word boundary at offset 5 (the blank) makes word 1 current |
| `Tts.LeadingBlankKeepsIndex` | extension/tts.js:233-243 | a word boundary inside leading blanks ("  Hi", offset 1) leaves the current index unchanged |
| `Tts.FirstWordBoundaryIsRedundant` | extension/tts.js:208-232 | for any text with words, a word boundary at the start of word 0 while the index is 0 leaves the index at 0, so nothing is highlighted |
| `Tts.TextToSpeech.constructor` | extension/tts.js:9-33 | a new controller has no text, no words, no utterance, index 0, a new (empty) highlight array, and is neither playing nor paused |
| `Tts.TextToSpeech.SetText` | extension/tts.js:52-58 | whatever the prior state, stops playback and installs the text (an absent text becomes ""), its words and its ranges; nothing is playing, paused or highlighted; the index is 0 and there is no utterance |
| `Tts.TextToSpeech.CreateWordSpans` | extension/tts.js:60-82 | the walk over the split parts with a running offset builds exactly the character-level ranges `WordSpans(text)`, with fresh, unhighlighted spans |
| `Tts.TextToSpeech.TogglePlayPause` | extension/tts.js:84-90 | while playing, pauses and keeps the index and the utterance; otherwise plays: from pause it resumes with the index and the utterance kept, and from silence with words it starts a new utterance of the whole text with the chosen voice at index 0; afterwards it is playing when there are words |
| `Tts.TextToSpeech.Play` | extension/tts.js:92-131 | does nothing with no text, no words, or while already playing; from pause, resumes and keeps the index and the utterance; with the engine silent, starts a new utterance of the whole text with the chosen voice at index 0; afterwards it is playing and not paused |
| `Tts.TextToSpeech.Pause` | extension/tts.js:133-141 | acts exactly when the engine is speaking and not paused, which is exactly while playing, and then sets `isPlaying = false` and `isPaused = true`; otherwise changes nothing |
| `Tts.TextToSpeech.Stop` | extension/tts.js:143-160 | whatever the prior state, the engine is cancelled; nothing is playing, paused or highlighted; the index is 0 and there is no utterance |
| `Tts.TextToSpeech.SetRate` | extension/tts.js:162-176 | while playing, restarts through stop and play, from word 0 with a new utterance of the whole text; otherwise the state is unchanged |
| `Tts.TextToSpeech.SetVoice` | extension/tts.js:178-197 | with an utterance and a parsed index that names a loaded voice, playing or paused speech restarts from word 0 with that voice and no word highlighted; otherwise the state is unchanged |
| `Tts.TextToSpeech.OnBoundary` | extension/tts.js:199-244 | an event that is not a word boundary, or one that arrives while not playing, changes nothing; otherwise the index becomes `NextWordIndex` of the ranges; the highlight is redrawn (only the new word) when the index changed and untouched otherwise |
| `Tts.TextToSpeech.OnEnd` | extension/tts.js:246-254 | after the engine has finished: nothing is playing, paused or highlighted, the index is 0 and there is no utterance |
| `Tts.TextToSpeech.OnError` | extension/tts.js:119-122 | an engine error leaves the same state as the end of speech |
| `Tts.TextToSpeech.EngineFinished` | extension/tts.js:116-122 | when the engine finishes or fails on the utterance, the attached handler runs and the controller ends stopped, with text, words and ranges unchanged |
| `Tts.TextToSpeech.HighlightWord` | extension/tts.js:256-265 | afterwards exactly the requested word is highlighted when it is in range, and none otherwise |
| `Tts.TextToSpeech.ClearHighlight` | extension/tts.js:267-269 | afterwards no span is highlighted |
| `Cors.SplitOn` | backend/index.js:24 | `split(",")` yields at least one piece, and no piece contains the separator |
| `Cors.JoinSplit` | backend/index.js:24 | joining the pieces of `split(",")` with "," gives back the string |
| `Cors.SplitJoin` | backend/index.js:24 | splitting the join of pieces free of "," gives back those pieces |
| `Cors.AllowedOrigins` | backend/index.js:23-25 | an unset or empty `ALLOWED_ORIGINS` gives `["http://localhost:3000", "chrome-extension://*"]`; any other value gives comma-free pieces that join back to it |
| `Cors.AnyEntryMatches` | backend/index.js:34-41 | `some` over the entries is true exactly when some entry matches the origin |
| `Cors.CheckOrigin` | backend/index.js:29-48 | the origin is allowed exactly when it is missing or empty, or some entry matches it; otherwise it is refused with "CORS not allowed" |
| `Cors.DeniedIsForbidden` | backend/index.js:80-85 | a refused origin is answered with status 403 |
| `Cors.MissingOriginAllowed` | backend/index.js:31 | a request with no `Origin` is allowed whatever the list |
| `Cors.WildcardAllowsAll` | backend/index.js:35 | a list holding the entry `*` allows every origin |
| `Cors.PrefixEntryRule` | backend/index.js:36-38 | an entry ending in `*` matches exactly the origins that start with the entry minus its star |
| `Cors.ExactEntryRule` | backend/index.js:40 | any other entry matches only the origin equal to it |
| `Cors.DefaultListDecisions` | backend/index.js:23-47 | with the default list, "chrome-extension://abc" and "http://localhost:3000" are allowed; "http://localhost:3001" is refused, and a refused "https://example.com" gets 403 |
| `Cors.SplitKeepsBlanks` | backend/index.js:23-24 | "http://a.com, http://b.com" gives the entries "http://a.com" and " http://b.com", with the blank kept |
| `Cors.EntriesAreNotTrimmed` | backend/index.js:23-47 | with that variable, the origin "http://b.com" is refused, because its entry keeps the leading blank |

## Left out

- The speech engine's internals (`window.speechSynthesis`, `SpeechSynthesisUtterance`, voice loading and `onvoiceschanged`). The engine is two fields and its speak, pause, resume, cancel and finish transitions. The engine is assumed to be used by this controller only: the model does not cover a page's other speech making `speaking` true.
- Rate values. `parseFloat` of the speed dropdown and the rate set on an utterance are floating point and have no effect on the logic, so the utterance carries no rate and `SetRate` takes no rate argument.
- Tts.TextToSpeech.SetVoice: it does not model the `setTimeout(() => this.pause(), 50)` that re-pauses speech restarted from a paused state. The timer is asynchronous, so the model ends that case playing.
- DOM work: creating span and text nodes, `innerHTML`, `scrollIntoView` and swapping the play-button icon. Only the ranges and the highlight flags are kept.
- The empty strings that `split(/(\s+)/)` adds when the text begins or ends with a blank. They add 0 to the offset and create no span, so the model's split omits them.
- The round trip of each range through `dataset` and `parseInt`, which is the identity on the integer offsets.
- `setText` with a value that is not a string: `null` and `undefined` become `""` (the `None` case), and other non-string values are not modelled.
- The dropdown values that `play` reads from the DOM. They become the parameter `voiceChoice`, the already-parsed index (`None` for `NaN`).
- In backend/index.js, everything except the allowed-origin list, the origin callback and the 403 mapping: express and rate-limit setup, routes and server start. These are library configuration, not algorithms.
- The rest of the repository: sidebar, content, background, popup and options scripts (Chrome and DOM plumbing), the summarisation and transcript routes and services (HTTP and LLM calls), the build and icon scripts, and the tests.
- Offsets count Dafny `char`s, which are Unicode scalar values. JavaScript's `length` and the engine's `charIndex` count UTF-16 code units, so for a text with characters outside the Basic Multilingual Plane (emoji, say) the model's absolute offsets differ from the browser's.
- Tts.TextToSpeech.SetVoice: the restart passes `voiceIndex` to `Play` in place of the voice dropdown value that `play` reads (extension/tts.js:110). The two agree only because the sidebar calls `setVoice` with that same dropdown value (extension/sidebar.js:99).
