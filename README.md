# Blog titles and speaker transcripts

This is a model of the two pieces of logic in the repository that sit between its machine-learning model calls.

**Title generation**, `generate_titles` in `blogai/titles/title_generator.py`:
- It builds a few-shot prompt around the stripped blog content.
- It hands the prompt to a text generator.
- It takes the generated text after the last `"Suggested titles:"` and splits it into lines.
- From the lines that start with `-`, it cleans each title:
  - strips bullets and whitespace;
  - cuts at the first `", by"`, then at the first `"."`.
- It keeps titles of at least three words that do not mention `http` in any case.
- It returns the first `num_titles` of them.

**Speaker-attributed transcripts**, `transcribe_and_diarize` in `feature1_transcription/app.py` and, identically, in `feature1_transcription/audio_pipeline.py`:
- It goes through every speaker track of the diarization, in order.
- For each track it concatenates `text.strip() + " "` of every transcription segment whose interval meets the track's interval, endpoints included.
- It emits the speaker, the rounded track bounds and the stripped text, but only when that text is not blank.

Modules:
- `Wrappers`: `Option`.
- `Seqs`: the list-building shape both loops share (`FlatMap`, `Hits`) and its lemmas.
- `Text`: the Python string operations the code uses: `strip`, `lstrip`, `split(sep)`, `split()`, `lower()`, `in`, `startswith`.
- `TitleGenerator`: the prompt, the extraction pipeline and `generate_titles`.
- `Transcription`: the merge.

The loops are methods proved against specification functions. `ExtractTitles` equals `PyPrefix(Candidates(Lines(output)), n)`, and `TranscribeAndDiarize` equals `Merge(tracks, SegmentsOf(w), round2)`. The properties are lemmas about those functions.

Three behaviours of the code worth spelling out:
- Every overlapping segment adds `strip(text) + " "`, so the emitted text is `strip(" ".join(...))` of the overlapping segments' stripped texts (`Transcription.StrippedJoin`). A blank segment text between two others therefore leaves two spaces (`Transcription.BlankSegmentExample`), while one at either end disappears in the final strip. When no overlapping text is blank, the emitted text is exactly the single-space join (`Transcription.SpaceJoined`).
- Only lines that start with `-` are considered. A line starting with `•` is dropped, even though `•` is among the characters stripped afterwards.
- The endpoint removes its temporary file only when transcription succeeds. That endpoint is not part of this model, see below.

## Model

| member | source | states |
|---|---|---|
| `TitleGenerator.Prompt` | blogai/titles/title_generator.py:9-30 | The prompt is the fixed instructions and examples, then `"Blog content: "` followed by the stripped content, ending with `"\nTitles:\n-"`. Its length is the sum of those parts. |
| `TitleGenerator.PromptRoundTrip` | blogai/titles/title_generator.py:27-29 | The stripped content can be recovered from a prompt by removing the fixed frame around it. |
| `TitleGenerator.PromptInjective` | blogai/titles/title_generator.py:27 | Two contents give the same prompt exactly when they are equal after stripping. |
| `TitleGenerator.MaxLength` | blogai/titles/title_generator.py:36 | Computes `max_length` as line 36 writes it, the prompt's `split()` word count plus 40; its contract only records that this is at least 40, and `Text.WordsOfWord` and `Text.WordsAtSpace` pin the word count. |
| `TitleGenerator.MarkerAbsent` | blogai/titles/title_generator.py:45 | Without a `"Suggested titles:"` marker, the lines are the whole stripped output split on newlines. |
| `TitleGenerator.MarkerLastUnique` | blogai/titles/title_generator.py:45 | The marker's last character occurs nowhere else in it, so occurrences of the marker cannot overlap. |
| `TitleGenerator.EarlierTextIgnored` | blogai/titles/title_generator.py:45 | Text up to and including a marker has no effect: `p + marker + r` gives the same lines as `r`. |
| `TitleGenerator.CleanTitleValid` | blogai/titles/title_generator.py:51-53 | A cleaned line has no surrounding whitespace and contains neither `", by"` nor `"."`. |
| `TitleGenerator.LineTitlesValid` | blogai/titles/title_generator.py:50-55 | A line gives at most one title. That title is trimmed, has no `", by"` and no `"."`, has at least three words and has no `http` in any case. |
| `TitleGenerator.CandidatesValid` | blogai/titles/title_generator.py:48-55 | There are at most as many candidate titles as lines, and every candidate has all the title properties. |
| `TitleGenerator.CandidatesAppend` | blogai/titles/title_generator.py:48-55 | The candidates of two runs of lines are those of the first followed by those of the second, so titles keep the order of their lines. |
| `TitleGenerator.CandidatesOrigin` | blogai/titles/title_generator.py:49-55 | A title is a candidate exactly when some line starts with `-` and cleans to that acceptable title. |
| `TitleGenerator.NoBulletsNoTitles` | blogai/titles/title_generator.py:49-50 | If no line starts with `-`, there are no candidates. |
| `TitleGenerator.PyPrefix` | blogai/titles/title_generator.py:57 | Python's `s[:n]`: always a prefix of `s`; its length is `min(n, \|s\|)` for `n >= 0`, and `\|s\| + n` clamped at 0 for negative `n`. |
| `TitleGenerator.ExtractTitles` | blogai/titles/title_generator.py:44-57 | The loop's result is exactly `titles[:num_titles]` of the candidates of the lines after the last marker. It has at most `num_titles` elements and each of them is a valid title. |
| `TitleGenerator.GenerateTitles` | blogai/titles/title_generator.py:7-57 | `generate_titles` returns the first `num_titles` candidates of what the generator produced for the prompt and its length limit. |
| `TitleGenerator.GenerateDefaultTitles` | blogai/titles/title_generator.py:7 | Without `num_titles` the default of 3 applies: the result is the first three candidates, so at most three titles. |
| `Transcription.TranscribeAndDiarize` | feature1_transcription/app.py:23-40 | The nested loops compute the merge of the tracks with the segments. There is at most one utterance per track, and every utterance has non-blank, stripped text. |
| `Transcription.EntryValid` | feature1_transcription/audio_pipeline.py:38-44 | A track gives at most one utterance, and does so exactly when its stripped text is non-empty. That utterance carries the track's speaker, its rounded bounds and the stripped text. |
| `Transcription.MergeValid` | feature1_transcription/audio_pipeline.py:31-46 | The output has at most one utterance per track, and each has non-empty, trimmed text. |
| `Transcription.MergeAppend` | feature1_transcription/app.py:28-39 | The output for two runs of tracks is the output of the first followed by that of the second, so utterances keep track order. |
| `Transcription.MergeFromTracks` | feature1_transcription/app.py:34-38 | The k-th utterance comes from the k-th emitting track. It has that track's speaker, its rounded start and end, and its stripped text; nothing comes from a segment's times. |
| `Transcription.EmittedExactly` | feature1_transcription/app.py:28-33 | The emitting tracks are in strictly increasing order, and a track emits exactly when its stripped text is non-empty. |
| `Transcription.AccumulatedJoin` | feature1_transcription/audio_pipeline.py:36 | A track's text is empty when no segment overlaps. Otherwise it is the overlapping segments' stripped texts, in segment order, joined by single spaces, plus a final space. |
| `Transcription.AccumulatedBlank` | feature1_transcription/app.py:31-33 | A track's text is blank exactly when every overlapping segment's text is blank. |
| `Transcription.EmitIff` | feature1_transcription/app.py:31-33 | A track emits exactly when some segment overlaps it and has a non-blank text. |
| `Transcription.StrippedJoin` | feature1_transcription/app.py:32-38 | A track's emitted text is `strip(" ".join(...))` of its overlapping segments' stripped texts in segment order, and empty when none overlaps. |
| `Transcription.SpaceJoined` | feature1_transcription/app.py:32-38 | When every overlapping segment's text is non-blank, the emitted text is those texts joined by single spaces. |
| `Transcription.OverlapTextsTrimmed` | feature1_transcription/app.py:32 | Each piece added for a segment is a stripped string. |
| `Transcription.OverlapTextsMembers` | feature1_transcription/audio_pipeline.py:35-36 | A stripped string is a piece of a track's text exactly when some segment overlapping the track, with the inclusive test, strips to it. |
| `Transcription.SharedSegment` | feature1_transcription/app.py:28-32 | Segments are not consumed: a segment overlapping two tracks contributes its text to both. |
| `Transcription.NoSegmentsNoOutput` | feature1_transcription/app.py:30 | When the transcription result has no `"segments"` key, or an empty list under it, the output is empty for any tracks. |
| `Transcription.MergeNoSegments` | feature1_transcription/audio_pipeline.py:34 | With no segments, the output is empty. |
| `Transcription.WorkedExample` | feature1_transcription/app.py:31-38 | For track [2, 5], a segment ending exactly at 2 is included, one starting at 4.9 is included and one starting at 6.1 is not. The text is `"a b c"`. |
| `Transcription.BlankSegmentExample` | feature1_transcription/app.py:32 | A blank segment text between `"a"` and `"b"` leaves two spaces: `"a  b"`. |
| `Text.StripIsTrimmed` | blogai/titles/title_generator.py:53 | `strip()` leaves no leading or trailing whitespace. |
| `Text.StripKeepsMiddle` | feature1_transcription/app.py:38 | `strip()` removes only whitespace, from both ends, and keeps a contiguous slice of the string. |
| `Text.StripTrimmed` | feature1_transcription/app.py:38 | `strip()` leaves a string without surrounding whitespace unchanged. |
| `Text.StripIdempotent` | blogai/titles/title_generator.py:51-53 | Stripping twice is the same as stripping once. |
| `Text.StripSpaceAppend` | feature1_transcription/app.py:32-38 | Appending one space to any string does not change its `strip()`. |
| `Text.StripTrailingSpace` | feature1_transcription/app.py:32-38 | Stripping a trimmed non-empty string with one space appended gives the string back. |
| `Text.StripBlank` | feature1_transcription/app.py:33 | `s.strip()` is empty exactly when `s` is all whitespace. |
| `Text.FindFirst` | blogai/titles/title_generator.py:52 | The search finds the first occurrence of a separator, or reports that it does not occur. |
| `Text.Split` | blogai/titles/title_generator.py:45 | `split(sep)` always yields at least one piece. |
| `Text.SplitPiecesFree` | blogai/titles/title_generator.py:52-53 | No piece of `s.split(sep)` contains `sep`. |
| `Text.SplitFirst` | blogai/titles/title_generator.py:52-53 | The first piece of `s.split(sep)` is the prefix of `s` before the first `sep`, or all of `s` when `sep` does not occur. |
| `Text.JoinSplit` | blogai/titles/title_generator.py:45 | Joining the pieces of `s.split(sep)` with `sep` gives `s` back. |
| `Text.SplitLastIgnoresPrefix` | blogai/titles/title_generator.py:45 | For a separator whose last character is unique in it, the last piece of `p + sep + r` is the last piece of `r`. |
| `Text.JoinTrimmed` | feature1_transcription/app.py:38 | Joining non-empty trimmed strings with a space gives a non-empty trimmed string. |
| `Text.BlankAppend` | feature1_transcription/app.py:32-33 | A concatenation is blank exactly when both parts are. |
| `Text.WordsShape` | blogai/titles/title_generator.py:54 | `split()` yields non-empty runs of non-whitespace, and yields nothing exactly when the string is all whitespace. |
| `Text.WordsOfWord` | blogai/titles/title_generator.py:54 | `split()` of a single non-empty run of non-whitespace is that run alone. |
| `Text.WordsAtSpace` | blogai/titles/title_generator.py:54 | A whitespace character separates: `split()` of `a + c + b` is `split()` of `a` followed by `split()` of `b`. |
| `Text.Lower` | blogai/titles/title_generator.py:54 | `lower()` keeps the length, lowercases each ASCII letter and leaves every other character unchanged. |
| `Seqs.FlatMapSnoc` | feature1_transcription/app.py:28-39 | A loop step that visits one more element appends exactly that element's contribution. |
| `Seqs.FlatMapAppend` | blogai/titles/title_generator.py:49-55 | Visiting two runs of elements gives the first run's items followed by the second's. |
| `Seqs.FlatMapMember` | blogai/titles/title_generator.py:49-55 | An item is in the result exactly when some element contributed it. |
| `Seqs.FlatMapEach` | feature1_transcription/app.py:28-39 | If each element contributes at most one item with a property, the result is no longer than the input and all of it has the property. |
| `Seqs.FlatMapNone` | feature1_transcription/app.py:28-39 | Elements that contribute nothing give an empty result. |
| `Seqs.HitsExactly` | feature1_transcription/app.py:28-33 | The contributing positions are in strictly increasing order and are exactly those whose contribution is non-empty. |
| `Seqs.FlatMapFromHits` | feature1_transcription/app.py:28-39 | With at most one item per element, the k-th item is the contribution of the k-th contributing element. |

## Left out

- The text generator (transformers `pipeline("text-generation", model="gpt2")`) is a foreign model call. It becomes the parameter `generate` of `GenerateTitles`, which receives the prompt and its length limit, and its output is arbitrary. The text-generation pipeline usually returns the prompt followed by its continuation. The prompt's example lines `- Automate Your Code Life`, `- Dev Teams Reimagined` and `- Robots Write Code Too` then come before anything generated. The preamble and the frame around the content have no `"Suggested titles:"`. Each example line has at least three words and contains none of `.`, `, by` and `http`. So when neither the stripped blog content nor the generated continuation contains `"Suggested titles:"`, these three would be the first candidates. When either one contains it, line 45 discards the example lines. No lemma states this: it needs facts about the 526-character preamble literal that the solver does not establish.
- The sampling parameters (`do_sample`, `top_k`, `top_p`, `temperature`, `num_return_sequences`) and `set_seed(42)` only affect the generator, so they are not modelled.
- The Whisper transcription and the pyannote diarization are model calls. Their results are the inputs of `TranscribeAndDiarize`: a record with an optional segment list, and a sequence of tracks in `itertracks` order.
- `round(x, 2)` is floating-point rounding. It is the uninterpreted parameter `round2`, and timestamps are `real`.
- Environment and token loading (`load_dotenv`, `os.getenv`, the `ValueError` when the token is missing) is configuration I/O.
- The FastAPI endpoint, its temporary file and its error-to-HTTP-500 mapping are file and HTTP I/O.
- The command-line entry point of `feature1_transcription/audio_pipeline.py` is argument handling and printing.
- The Django view and URL routing are framework glue. The default of three titles, from the signature of `generate_titles`, is `TitleGenerator.DefaultNumTitles`, used by `GenerateDefaultTitles`.
- Python's Unicode whitespace is the fixed set of code points for which `str.isspace` holds, and `lower()` is modelled on ASCII letters only.
- `TitleGenerator.GenerateTitles`: states only its equation with the extraction of the generator's output. The bound on the count and the title properties are stated on `ExtractTitles` and `CandidatesValid`.
