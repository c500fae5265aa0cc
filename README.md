# Shorts bot story pipeline, modelled in Dafny

`build.py` of the Minecraft shorts bot turns a generated story into a
narrated short. This model covers the pure logic in the middle of that
pipeline:

- **Choosing the story** (`generate_story`). The generator's answer is kept
  and stripped unless the request failed or the answer contains `def` or
  `{`. In those cases a story drawn from the three fallback stories is used.
- **Splitting the story into voiced sentences** (`split_lines`). The text is
  split on `'.'`, every piece is stripped, and blank pieces are dropped.
  Each remaining sentence gets a voice drawn from the three neural voices.
- **Serialising the sentences as SSML** (`ssml`). Each sentence goes into a
  `<voice>`/`<p>` block with its full stop put back. The blocks are joined
  by a 600 ms pause and wrapped in the fixed `<speak><prosody>` envelope.

The project has three modules:

- `PyStr` (`pystr.dfy`) states the CPython 3 `str` operations the pipeline
  relies on:
  - `strip()`, using the full `str.isspace` character set;
  - `split(sep)` for a one-character separator;
  - `sep.join(pieces)`;
  - the substring test `p in s`.
- `Build` (`build.dfy`) models the three operations and the constants
  `VOICES` and `FALLBACK_STORIES`. It also proves what they promise.
- `SsmlReader` (`ssml_reader.dfy`) is a reader for the documents `ssml`
  writes. It is the serialiser's partner: for sentences without `<` and
  voices without `"`, reading a document back gives exactly the sentences
  it was written from.

Randomness arrives as parameters:

- a `FallbackIndex` stands for `random.choice(FALLBACK_STORIES)`;
- a function `choose: nat -> VoiceIndex` gives the voice drawn for the k-th
  kept sentence.

The HTTP exchange becomes `Response = Ok(story) | Failed`:

- `Ok` carries the text found at `candidates[0].content.parts[0].text`;
- `Failed` stands for every exception that ends in the fallback: those
  raised before the text is found (network error, bad JSON, missing
  field), and those raised afterwards by a `text` value that is not a
  string, at the marker test on build.py:40 (`None` or a number) or at
  `strip()` on build.py:42 (a list or an object).

The fallback stories are written in the Dafny source as concatenations of
short literals, so that the verifier can reason about their characters.
The resulting text is exactly the three stories of `build.py`.

## Model

| member | source | states |
|---|---|---|
| PyStr.Strip | build.py:42 | the stripped text is never longer than the input and has no whitespace at either end |
| PyStr.StripCharacterised | build.py:42 | `r == s.strip()` exactly when `r` is a slice of `s` with only whitespace outside it and no whitespace at its ends |
| PyStr.StripFixedPoint | build.py:42 | a text is its own stripped form exactly when it has no whitespace at either end |
| PyStr.StripIdempotent | build.py:42 | stripping twice is stripping once |
| PyStr.StripEmptyIff | build.py:48 | `s.strip()` is empty (the comprehension's filter fails) exactly when `s` is all whitespace |
| PyStr.StripChars | build.py:48 | every character of the stripped text occurs in the original |
| PyStr.StripKeepsAbsence | build.py:40-42 | if the stripped text contains a substring, so does the original |
| PyStr.ContainsIff | build.py:40 | the left-to-right scan for `p in s` succeeds exactly when `p` occurs at some position of `s` |
| PyStr.Split | build.py:48 | `split('.')` gives at least one piece and no piece contains the separator |
| PyStr.SplitCount | build.py:48 | `split` gives exactly one piece more than there are separators |
| PyStr.JoinSplit | build.py:48 | joining the pieces of a split with the separator gives back the original text |
| PyStr.SplitJoin | build.py:48 | splitting a join of separator-free pieces gives back the pieces |
| PyStr.SplitConcat | build.py:48 | splitting `a + sep + b` gives the pieces of `a` followed by the pieces of `b` |
| PyStr.SplitAvoids | build.py:48 | a character absent from the text is absent from every piece of its split |
| PyStr.JoinLength | build.py:52 | the join is as long as the pieces plus one separator between each two neighbours |
| PyStr.JoinConcat | build.py:52 | joining two non-empty lists is joining each with one separator between the results |
| PyStr.JoinContainsPiece | build.py:52 | every piece occurs verbatim in the join |
| Build.GenerateStory | build.py:39-45 | an answer without `def` or `{` is narrated stripped; an answer with either, or a failed request, gives the drawn fallback story; so the story is always the stripped answer or a fallback story |
| Build.CodeIsRejected | build.py:40-41 | an answer containing `def` or `{` is replaced by the drawn fallback story |
| Build.FallbacksAreClean | build.py:20-24 | no fallback story contains `def` or `{` |
| Build.StoryNeverLooksLikeCode | build.py:39-45 | on every path the narrated story contains neither `def` nor `{` |
| Build.StoryIsStripped | build.py:42-45 | on every path the narrated story has no whitespace at either end, so stripping it again changes nothing |
| Build.SplitLines | build.py:47-48 | one line per sentence, in order, each text non-empty, stripped and free of `'.'`, each voice the drawn one and one of `VOICES`; at most one line more than the text has dots |
| Build.SentencesShape | build.py:48 | every kept sentence is non-empty, stripped and free of `'.'`, and there are at most count('.') + 1 of them |
| Build.SentenceSource | build.py:48 | every kept sentence is the stripped form of a non-blank piece of the split |
| Build.SentencesAvoid | build.py:48 | a character absent from the story is absent from every sentence |
| Build.SentencesOfSegment | build.py:48 | a dot-free stretch of text gives no sentence if it is blank, otherwise exactly its stripped form |
| Build.SentencesConcat | build.py:48 | the sentences before a `'.'` come first, followed by the sentences after it |
| Build.SentencesEmptyIff | build.py:48 | a text has no sentence exactly when it consists only of dots and whitespace |
| Build.FallbacksHaveSentences | build.py:20-24 | every fallback story has at least one sentence |
| Build.FirstLineExists | build.py:105-116 | `lines[0][0]` is defined unless the answer was accepted and consists only of dots and whitespace; on the fallback path it always is |
| Build.Ssml | build.py:50-53 | the document starts with the `<speak><prosody rate='85%' pitch='+3%'>` envelope, ends with `</prosody></speak>`, and is only the envelope when there are no lines |
| Build.SsmlLength | build.py:51-53 | the document is the envelope, one block per line and exactly `len(lines) - 1` pauses long |
| Build.SsmlHasEveryBlock | build.py:51-53 | every line's block, with voice and text copied verbatim, appears in the document |
| Build.SsmlConcat | build.py:52-53 | the blocks of two lists of lines appear in order, separated by one pause |
| Build.SsmlIsAmbiguous | build.py:51 | because nothing is escaped, two lines and one line holding markup can give the same document |
| SsmlReader.ReadBlockOf | build.py:51 | a block reads back as its line, and reading stops right after the block |
| SsmlReader.SsmlRoundTrip | build.py:50-53 | for texts without `<` and voices without `"`, reading a document back gives the lines it was written from, in order |
| SsmlReader.SplitLinesReadBack | build.py:47-53 | for a story without `<`, the document of its voiced sentences reads back as exactly those sentences and voices |

## Left out

- The HTTP request to the generator, its JSON decoding, the API key lookup
  and the prompt (build.py:30-38) are external I/O. Their outcome is the
  `Response` parameter, and every exception in that range is `Failed`.
- `random.choice` is a random source. The draws are parameters
  (`FallbackIndex`, and `choose` for the voices), so every property holds
  for every possible draw.
- The diagnostic `print` calls in `generate_story` and `main` are console
  output only.
- `tts` (build.py:55-64) writes a file and runs `edge-tts`, an external
  process.
- `audio_len` (build.py:66-68) runs `ffprobe`, an external process. This
  `build.py` applies no duration cap, so there is no clamping to model.
- `render_video` (build.py:70-88) runs `ffmpeg`, an external process.
- `upload` (build.py:90-101) calls the YouTube API, an external service.
  Only whether its description argument `lines[0][0]` exists is modelled, by
  `Build.FirstLineExists`.
- `os.makedirs` (build.py:27) and the sequencing in `main` (build.py:103-119)
  are filesystem effects and orchestration.
- The accepted story is not guaranteed non-empty. A blank answer, or one
  made only of dots, is accepted and gives no sentences. `main` then fails
  at `lines[0][0]` (build.py:116) if it gets that far, that is, if `tts`
  and `render_video` succeed on the empty document first.
  `Build.FirstLineExists` states exactly when the list is empty.
- The fallback is drawn from one pool, with no part index.
- Strings are sequences of Unicode code points. `strip()` uses CPython's
  `str.isspace` set. Surrogate pairs and encodings are not modelled.
- SsmlReader.SsmlRoundTrip: stated only for texts without `<` and voices
  without `"`. `ssml` does not escape, so other lines need not read back
  (`Build.SsmlIsAmbiguous` shows two lists giving one document).
- SsmlReader.SplitLinesReadBack: the round trip is about `ReadSsml`, the
  reader defined here, not about an XML consumer. Because build.py:51
  escapes nothing, a story with `&` gives a document that reads back here
  but is not well-formed XML for the speech synthesiser.
