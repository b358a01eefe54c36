# Text-to-speech front end: sanitizer, chunker and chunk-file bookkeeping

This project models the logic that the TTS-STT service runs before and
around its text-to-speech engine, and proves properties of it in Dafny:

- **Sanitizer** (`clean_text`): one pass over the input characters. A
  character that is a key of the spoken map becomes its phrase (`!` becomes
  `" exclamation mark "`, `@` becomes `" at "`, and so on). Otherwise an
  alphanumeric character, a whitespace character or an allowed punctuation
  mark is kept. Anything else is dropped. The spoken-map test comes first,
  so `!` is always spoken even though it is also allowed.
- **Chunker** (`split_text`): split on whitespace as Python's `str.split()`
  does, then emit groups of at most `max_words` consecutive words, each
  joined with single spaces.
- **Synthesis handler** (`tts_api`): sanitize with the default tables, chunk
  by 50 words, and call the engine once per chunk. Each result is saved to
  `<base>_<idx>.mp3`. The files are then concatenated in list order into
  `<base>_final.mp3`, and every chunk file is removed.

Files:

| file | module | contents |
|---|---|---|
| `char_classes.dfy` | `CharClasses` | `str.isalnum` / `str.isspace` as parameters, pinned down on ASCII |
| `sanitizer.dfy` | `Sanitizer` | default tables, `Clean`, the `clean_text` loop, alphabet / precedence / idempotence lemmas |
| `chunker.dfy` | `Chunker` | `str.split()`, `' '.join`, Python's `range` and slicing, grouping, the `split_text` loop, word-preservation / size / shape lemmas |
| `file_names.dfy` | `FileNames` | decimal rendering of the chunk index, chunk and final file names, distinctness |
| `orchestrator.dfy` | `Orchestrator` | the three loops of `tts_api` over an abstract file system |
| `scenario.dfy` | `Scenario` | the sanitizer on an example request, `"Hello! Price: $5 & 10% off."` |
| `seqs.dfy`, `results.dfy` | `Seqs`, `Results` | `Flatten`; `Result` and the `ValueError` that `range` raises |

Modelling choices:

- Python's Unicode `isalnum` and `isspace` come from the Unicode database,
  which is not modelled. A `CharClass` value carries them as two functions.
  Every general lemma holds for any such pair in which `' '` is whitespace,
  as it is for Python's `isspace`: `Chunker.WordsOfJoin`,
  `Chunker.SplitTextPreservesWords`, `Chunker.SplitTextChunkStarts`,
  `Chunker.GroupWords` and `Chunker.SplitTextSizes` require `isSpace(' ')`. Lemmas that need concrete
  facts require `PythonOnAscii`, which fixes both functions on ASCII as
  CPython defines them. ASCII whitespace there includes 0x1C-0x1F. A
  Python `str` is a sequence of code points, which includes the lone
  surrogates U+D800-U+DFFF. A Dafny `char` is a Unicode scalar value, so
  text is modelled as a sequence of scalar values and surrogates are out
  of reach (see "Left out").
- `str.split()` with no argument splits on the same whitespace test as
  `str.isspace`, so the chunker takes `cls.isSpace`.
- The source's dictionary and set have one-character string keys. They are
  modelled as `map<char, string>` and `set<char>`. A longer key could never
  equal the single character being tested.
- The generator of `split_text` is modelled as the full list it yields. The
  handler consumes all of it before combining.
- The file system is a `map<string, seq<S>>` from file names to the audio
  each file holds. Audio is a sequence of opaque samples. The engine is a
  function from (chunk text, voice) to samples. The random base name is a
  parameter, and no freshness assumption is made about it.
- `split_text` is modelled twice. `SplitTextPy` reads the source
  literally: Python's `range` and slicing are defined on their own
  (`RangeUp`, `RangeDown`, `PyRange`, `PySlice`). `PySlice` covers
  negative and out-of-range bounds as Python does, but `split_text` only
  slices at non-negative starts, so only that case
  (`Chunker.PySliceNonNegative`) is used. `SplitText` is the grouping of
  the word list, and the lemmas connect the two.
- A spoken symbol is replaced where it stands, so `"$5"` becomes
  `" dollar 5"`, not `"5 dollar"` (`Scenario.ExampleCleaned`).

## Model

| member | source | states |
|---|---|---|
| Sanitizer.CleanText | main.py:37-45 | the `clean_text` loop (append the phrase, or the kept character, or nothing, then `''.join`) returns exactly the concatenation of the per-character images in input order |
| Sanitizer.CleanAppend | main.py:38-45 | sanitizing is a homomorphism: the empty text maps to the empty text, and `clean(a + b) == clean(a) + clean(b)` |
| Sanitizer.CleanFlatten | main.py:38-45 | sanitizing a concatenation of any number of pieces concatenates the pieces' images in order |
| Sanitizer.CleanAlphabet | main.py:39-44 | every output character either passed through from the input (it is a non-key that is alphanumeric, whitespace or allowed) or lies in the phrase of a spoken-map key that occurs in the input |
| Sanitizer.KeyNeverSurvives | main.py:40-42 | because the spoken-map test comes first, a key that occurs in no phrase never appears in the output, even if it is also allowed |
| Sanitizer.BangAlwaysSpoken | main.py:25-28 | with the default tables `!` is allowed, yet `"!"` sanitizes to `" exclamation mark "` and no output contains `!` |
| Sanitizer.CleanShrinks | main.py:42-44 | for a text without keys, the output is never longer than the input, and strictly shorter when some character is dropped |
| Sanitizer.CleanKeepsPassingText | main.py:42-43 | a text whose characters are all non-key and alphanumeric, whitespace or allowed is returned unchanged |
| Sanitizer.CleanFixedIff | main.py:42-44 | for a text without keys, the output equals the input if and only if every character is alphanumeric, whitespace or allowed |
| Sanitizer.CleanDropsUnkept | main.py:44 | a text made only of non-key characters that are not alphanumeric, whitespace or allowed sanitizes to the empty string |
| Sanitizer.CleanIdempotent | main.py:39-44 | when every phrase character would itself pass through, sanitizing twice equals sanitizing once |
| Sanitizer.DefaultPhrasesStable | main.py:27-33 | the default phrases hold only lower-case letters and spaces, so they pass through a second pass unchanged |
| Sanitizer.DefaultCleanIdempotent | main.py:25-33 | with `ALLOWED_SPECIAL_CHARS` and `SPOKEN_SPECIALS`, `clean_text` applied twice equals applied once |
| Chunker.Words | main.py:20 | every word of `text.split()` is non-empty and contains no whitespace |
| Chunker.WordsOfJoin | main.py:20-22 | round trip: splitting the single-space join of a list of words gives the same list back |
| Chunker.WordsEmptyIff | main.py:20 | `text.split()` is empty if and only if the text is all whitespace |
| Chunker.WordsSplitAt | main.py:20 | words end only at whitespace and every whitespace character ends one: splitting `a + [c] + b` at a whitespace `c` gives the words of `a` followed by those of `b` |
| Chunker.WordsOfWord | main.py:20 | a non-empty whitespace-free string splits to itself |
| Chunker.WordsKeepNonSpace | main.py:20 | the words of `text.split()`, concatenated, are exactly the non-whitespace characters of the text, in order |
| Chunker.Chunks | main.py:21-22 | groups exist exactly when there are words; each group has 1 to `max_words` elements, and every group but the last has exactly `max_words` |
| Chunker.ChunksFlatten | main.py:21-22 | the groups concatenate back to the word list: no loss, duplication or reordering |
| Chunker.ChunkAt | main.py:21-22 | the `i`-th group is the slice starting at word `i * max_words` (as an offset), clipped at the end, as `words[i:i + max_words]` takes it |
| Chunker.ChunkCount | main.py:21 | with `c` groups, `(c - 1) * m < n <= c * m` (offsets written as repeated addition) |
| Chunker.ChunkCountCeil | main.py:21 | the number of groups `range(0, n, max_words)` produces is `ceil(n / max_words)` |
| Chunker.SplitTextLoop | main.py:19-22 | the `range(0, len(words), max_words)` loop yields exactly the joined groups, in order |
| Chunker.GroupLoop | main.py:21-22 | the stepped loop over `range(0, len(xs), m)` applies its function to each slice `xs[i:i + m]`, giving one result per group of `xs`, in group order |
| Chunker.RangeUp | main.py:21 | `range(start, stop, step)` for a positive step starts at `start`; every value lies in `[start, stop)`; the last value plus `step` reaches `stop`; and it is empty exactly when `start >= stop` |
| Chunker.RangeDown | main.py:21 | `range(start, stop, step)` for a negative step starts at `start`; every value lies in `(stop, start]`; the last value plus `step` reaches `stop`; and it is empty exactly when `start <= stop` |
| Chunker.RangeUpAt | main.py:21 | the `k`-th value of `range` with a positive step is `start + k * step` |
| Chunker.RangeDownAt | main.py:21 | the `k`-th value of `range` with a negative step is `start - k * abs(step)` |
| Chunker.PyRange | main.py:21 | `range` raises `ValueError` exactly for a zero step; otherwise every value lies between `start` and `stop` on the side the step points to |
| Chunker.RangeUpOfChunks | main.py:21 | `range(a, a + n, m)` yields one start per group of `n` elements of at most `m` |
| Chunker.MapSlicesOfRange | main.py:21-22 | the slices `xs[i:i + m]` for `i` in `range(0, len(xs), m)` are exactly the groups of `xs`, one by one |
| Chunker.SplitTextPy | main.py:19-22 | `split_text`, read literally: it raises `ValueError` exactly when `max_words` is zero |
| Chunker.SplitTextPyCases | main.py:19-22 | `split_text` raises `ValueError` for a zero `max_words` (a zero `range` step) and yields nothing for a negative one. For a positive one it yields exactly the joined word groups of `SplitText` |
| Chunker.SplitTextPreservesWords | main.py:20-22 | splitting each chunk again gives the consecutive word groups; together they are exactly `text.split()` |
| Chunker.SplitTextChunkStarts | main.py:21-22 | splitting chunk `i` again gives `words[i * max_words:i * max_words + max_words]`, a start that lies inside the word list |
| Chunker.PySliceNonNegative | main.py:22 | with non-negative bounds, `xs[i:j]` is the elements from `i` up to `min(j, len(xs))`, and empty when that end is not past `i` |
| Chunker.SplitTextSizes | main.py:21-22 | there are `ceil(n / max_words)` chunks; every chunk but the last has exactly `max_words` words and the last has between 1 and `max_words` |
| Chunker.SplitTextEmptyIff | main.py:20-21 | empty or whitespace-only text yields no chunk, and only such text does |
| Chunker.SplitTextSingleChunk | main.py:21-22 | a text of 1 to `max_words` words yields one chunk, its words joined by single spaces |
| Chunker.JoinSingleSpaced | main.py:22 | the single-space join of at least one word has no leading or trailing whitespace, and each whitespace character in it is one ASCII space between non-whitespace characters |
| Chunker.SplitTextShape | main.py:20-22 | every chunk has no leading or trailing whitespace and only single spaces as separators |
| FileNames.Decimal | main.py:58 | `f"{idx}"` is a non-empty string of decimal digits whose first digit is zero only for index 0, which renders as `"0"` |
| FileNames.DecimalRoundTrip | main.py:58 | reading the rendered index back as a decimal number gives the index |
| FileNames.DecimalInjective | main.py:58 | two indices render the same if and only if they are equal |
| FileNames.ChunkFileNamesDistinct | main.py:58 | two chunk file names of one request are equal if and only if their indices are equal |
| FileNames.FinalFileNameNotChunk | main.py:68 | the final file name differs from every chunk file name |
| Orchestrator.ChunkFileNamesUnique | main.py:57-61 | the temporary file list of one request has no repeated name |
| Orchestrator.SynthesizeChunks | main.py:57-61 | the engine is called once per chunk, in order. The list is `[base_0.mp3, ..., base_{k-1}.mp3]`, each file holds its chunk's audio, and no other file changes |
| Orchestrator.CombineFiles | main.py:64-66 | reading the listed files in order and appending them to an empty segment gives the concatenation of their contents, and every file read exists |
| Orchestrator.RemoveFiles | main.py:72-73 | removing a list of distinct existing files never hits a missing file, leaves none of them, and changes nothing else |
| Orchestrator.TtsApi | main.py:47-73 | one request calls the engine on exactly the sanitized chunks, in order, and lists `base_0 ... base_{k-1}`. The final file holds the chunks' audio in that order, every chunk file is gone, the final file stays, and no other file changes |
| Orchestrator.TtsChunksEmptyIff | main.py:54-57 | a request makes no engine call exactly when its sanitized text is blank |
| Scenario.ExampleCleaned | main.py:37-45 | the example text `"Hello! Price: $5 & 10% off."` sanitizes to `"Hello exclamation mark  Price:  dollar 5  and  10 percent  off."` |

## Left out

- HTTP plumbing (main.py:14-17, 47-48, 75-80): the FastAPI app, the request model and `FileResponse`. The response's `audio/mpeg` type and `output.mp3` download name are fixed strings with no logic.
- Orchestrator.TtsApi: the file system is a total map that never fails. In the source an `OSError` (disk full, permission denied) or a decode error from `communicate.save` (main.py:60), `AudioSegment.from_file` (main.py:66), `combined.export` (main.py:69) or `os.remove` (main.py:73) aborts the request and leaves chunk files on disk. The promise that every chunk file is gone afterwards therefore covers only the path on which every file operation succeeds.
- Network synthesis (main.py:59-60): `edge_tts` is modelled as a deterministic function of the chunk text and the voice. An engine failure partway through is not modelled. That failure would leave the chunk files already written on disk.
- Audio decoding, encoding and export (main.py:64-69): a file's audio is modelled as a sequence of samples that reads back exactly as written. MP3 coding loss and the export format are not modelled.
- Empty exports: with zero chunks the model exports empty audio. What `pydub` really writes for an empty segment is not modelled.
- Final-file cleanup: the model shows that the final file is left in place. The source never removes it after the response.
- The speech-to-text endpoint (main.py:83-95), including the Whisper model loaded at main.py:35. It is external model inference plus file I/O. Its only text logic is the `" ".join` of the segments.
- `uuid` base names (main.py:50, 85): the base name is a parameter. No uniqueness across requests is assumed or proved.
- The HTML recorder page (main.py:98-145): user interface only.
- `async`/`await` and concurrent requests: each request is modelled as one sequential run.
- `str.isalnum` and `str.isspace` outside ASCII: these are parameters and are not pinned to the Unicode database.
- Scenario.ExampleCleaned: covers only the sanitizer step of the example request. The cleaned text has ten words. By `Chunker.SplitTextSingleChunk` it then forms one chunk, but that word count is not proved for this particular string.
- Surrogate code points (U+D800-U+DFFF): a Python `str` can hold them, and `clean_text` drops them because they are neither alphanumeric, whitespace nor allowed. A Dafny `char` cannot hold them, so such inputs lie outside the model.
