# gen-srt-for-faster-whisper, modelled in Dafny

The tool transcribes a video with faster-whisper. It writes the segments as an
SRT subtitle file. When asked, it also has an OpenAI chat model translate every
segment and writes a second file. This project models the tool's own logic
around those external calls, and proves what that logic guarantees:

- `Segments` (genSrt.py): `result2subs` numbers the records by position and
  copies each segment's times and text into them. `translate_segments`
  replaces only the text of each segment, in order. Both are loops over a list
  that they build by appending, and both are written as methods with loop
  invariants.
- `Translate` (translator.py): the class `Translator` has three immutable
  fields: the target language code, the language map and the chat model.
  - `GetLanguageName` returns the sentinel `"none"` for an unknown code.
  - `Translation` returns `""` at once for empty text. It also returns `""`
    for an unsupported language and when the model raises. Otherwise it
    returns the model's reply unchanged.
  - The chat model is a function from a prompt to `Content(reply)` or
    `Raised(error)`.
  - A language map that failed to load is the empty map.
- `FileNames` (genSrt.py): `clean_filename` deletes the characters
  `/ * ? : " < > |`. `rename_files` probes candidate destinations until one
  does not exist, then moves the file there. The filesystem is the finite set
  of paths that exist. `os.rename` is `Move` on that set.
  - The first candidate is the cleaned name.
  - Every later candidate is the raw, uncleaned name with `_1`, `_2`, …
    appended. The model keeps this quirk (see `SuffixedCandidateKeepsForbidden`).
- `Paths`: `posixpath.join` with two arguments, and `str` of a non-negative
  integer, which `rename_files` uses to build paths.

The probing loop of `rename_files` always stops. A candidate whose decimal
suffix has more digits than the longest existing path has characters cannot
exist (`LongCandidateIsFree`). This gives the loop a bound.

Times are whole milliseconds.

## Model

| member | source | states |
|---|---|---|
| `Segments.Subtitles` | genSrt.py:53-65 | the list of records has exactly one record per segment |
| `Segments.SubtitlesAt` | genSrt.py:55-62 | record i has index i + 1 and the start, end and text of segment i; its proprietary field is empty |
| `Segments.ResultToSubs` | genSrt.py:43-65 | the loop returns as many records as there are segments; record i has index i + 1 and segment i's start, end and text |
| `Segments.IndicesArePositions` | genSrt.py:55-59 | indices depend only on position: any two inputs of the same length get the same indices 1..n |
| `Segments.OrderIsPassedThrough` | genSrt.py:55-64 | nothing is sorted or validated: the records are in start order if and only if the segments are |
| `Segments.Translated` | genSrt.py:123-125 | a translated segment's text is the translation of the original text; every other field is unchanged |
| `Segments.TranslateSegments` | genSrt.py:109-128 | the output has the input's length and order, and element i is segment i with only its text translated |
| `Segments.TranslatedSubtitlesKeepTiming` | genSrt.py:100-107 | the translated records have the original indices, starts and ends, and each content is the translation of the original content; with an unsupported language every content is empty |
| `Segments.LlmRequests` | genSrt.py:122-126 | the prompts sent while translating a list, in order: at most one per segment, and none for an unsupported language |
| `Segments.LlmRequestCount` | genSrt.py:122-126 | translating a list calls the chat model once per non-empty text and never for an empty one; for an unsupported language it never calls it |
| `FileNames.CleanFilename` | genSrt.py:148-149 | the result contains none of the eight forbidden characters, is no longer than the input, and uses only characters of the input |
| `FileNames.CleanFilenameConcat` | genSrt.py:149 | cleaning acts on each character separately, so it distributes over concatenation and kept characters stay in order |
| `FileNames.CleanFilenameOfClean` | genSrt.py:149 | a name without forbidden characters is returned unchanged |
| `FileNames.CleanFilenameIdempotent` | genSrt.py:149 | cleaning twice gives the same result as cleaning once |
| `FileNames.CleanFilenameCounts` | genSrt.py:149 | each allowed character occurs as often in the result as in the input; no forbidden character occurs |
| `FileNames.CandidateName` | genSrt.py:141-144 | candidate 0 is clean; every later candidate begins with the raw new name |
| `FileNames.CandidatePath` | genSrt.py:143-146 | the path probed for candidate k, output_dir joined with name.extension, is longer than the candidate name and the extension together |
| `FileNames.RawNameSurvivesSuffix` | genSrt.py:141-144 | for every k > 0, a new name that holds a forbidden character gives a candidate that still holds it, because only candidate 0 is cleaned |
| `FileNames.SuffixedCandidateKeepsForbidden` | genSrt.py:141-144 | for "a:b" the first candidate is output/ab.mp4 but the second is output/a:b_1.mp4, which still holds the forbidden ':' |
| `FileNames.LongCandidateIsFree` | genSrt.py:143-145 | a candidate with a suffix of at least 10^L, where L is the length of the longest existing path, does not exist |
| `FileNames.ExistingCandidateIsShort` | genSrt.py:143-145 | a candidate that exists has a suffix below 10^L, which bounds the number of loop iterations |
| `FileNames.ChooseDestination` | genSrt.py:140-145 | the loop ends on a path that does not exist; every candidate probed before it exists, so the result is the first free candidate in the order clean name, name_1, name_2, … |
| `FileNames.Move` | genSrt.py:146 | moving succeeds exactly when the source exists; afterwards the destination exists, the source does not, and no other path changes |
| `FileNames.RenameFiles` | genSrt.py:130-146 | the destination did not exist before and is the first free candidate; the move fails exactly when the old path does not exist; otherwise the old path is gone and only the destination is new |
| `Paths.Join` | genSrt.py:143-146 | the joined path is at least as long as its second part |
| `Paths.JoinShape` | genSrt.py:143 | posixpath.join: the path ends with the second part; an absolute second part replaces the directory; otherwise the path starts with the directory |
| `Paths.DecimalString` | genSrt.py:144 | str(counter) has at least one character |
| `Paths.DecimalStringRoundTrip` | genSrt.py:144 | str(n) consists of decimal digits only and reading it back gives n, so different counters give different suffixes |
| `Paths.DecimalStringLength` | genSrt.py:144 | the decimal form of a number of at least 10^m has more than m digits |
| `Translate.FormatPrompt` | translator.py:10-13 | the prompt begins with the fixed instruction and ends with the text to translate |
| `Translate.LoadLanguageMap` | translator.py:15-22 | the language map is the parsed file, or the empty map when reading or parsing fails |
| `Translate.Translator.constructor` | translator.py:6-9 | the translator keeps the given model and target code, and the loaded language map |
| `Translate.Translator.GetLanguageName` | translator.py:24-25 | the map's entry for a known code, and "none" for an unknown one |
| `Translate.Translator.Supported` | translator.py:32-34 | the target language passes the check exactly when its code is a key whose name is not the literal "none" |
| `Translate.Translator.Request` | translator.py:27-37 | no prompt is sent for empty text or an unsupported language; otherwise the prompt is built from the text and the language name |
| `Translate.Translator.Translation` | translator.py:27-42 | empty text gives "" without a model call; an unsupported language gives ""; a non-empty result is always the model's reply to this text's prompt; a reply from the model is returned unchanged (a raised error therefore gives "") |
| `Translate.Translator.EmptyMapTranslatesNothing` | translator.py:20-25 | with the empty map left by a failed load, no prompt is sent and every text translates to "" |

## Left out

- `download_video` is not modelled. It runs yt-dlp as a subprocess, parses the JSON that yt-dlp prints and reads the clock.
- `transcribe_video` is not modelled, apart from composing `result2subs` with `translate_segments`. Its other steps are the Whisper model, directory creation, file writes and `itertools.tee`. Segment lists are given as finished sequences.
- `srt.compose` is not modelled: SRT serialisation lives in the `srt` library. The records are the model's output, so there is no serialise-and-parse round trip.
- The float seconds of a segment and `timedelta(seconds=...)` are not modelled. Times are integer milliseconds, and the conversion is the identity.
- The model's segments carry only `id`, `seek`, `tokens`, the times and the text. The float fields of a faster-whisper segment are not modelled. Translation keeps all non-text fields, and the model shows that for the fields it has.
- `Translate.Translator.Translation`: the chat model is a fixed function of the prompt. A real model can answer the same prompt differently on two calls, and that is not modelled. The API key and `ChatOpenAI` are not modelled.
- Printing is not modelled: the error message and the reply that `translation` and `load_language_map` print are left out.
- `load_language_map` reading `conf/language_code.json` is left out. The model is given the file as already parsed or failed. A file that parses to JSON other than an object of strings is not modelled.
- `FileNames.RenameFiles`: only existence is modelled. Directories, a missing destination directory (a raw name with '/' can point into one), permissions and the race between the existence check and the move are not.
- `Paths.Join` follows POSIX `posixpath.join`. The Windows rules of `ntpath.join` are not modelled.
- `main.py` is not modelled. It only reads argv and the environment and dispatches on an `https://` prefix, with nothing else to model.
