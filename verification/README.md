# Tencent Cloud audio generator — a Dafny model of its core logic

The application turns a text into speech with Tencent Cloud's `TextToVoice`
service. `audio_generator.py` does the work:

- It cuts the text into segments of at most 150 characters along line breaks (`process_text_by_lines`).
- It sends one request per segment.
- It merges the returned WAV pieces with ffmpeg, choosing the encoder from the output file's extension.

`tts_gui.py` wraps this in a window:

- A voice catalogue is loaded from a CSV table and shown grouped by recommended scene.
- The catalogue can be narrowed by scene, gender, type and a search box.
- Each voice card can play a sample recording.
- A log panel shows progress messages. While a synthesis runs, the worker thread (`SynthesisThread`) is `sys.stdout`, and each non-blank chunk printed by `audio_generator.py` reaches the panel stripped, one message per chunk. A line-buffering `LogRedirector` is also built, but it is never installed as `sys.stdout`.

This project models the deterministic logic of both files as pure Dafny functions and proves what they promise:

| file | module | what it holds |
|---|---|---|
| common.dfy | `Common` | `Option`, filtering, subsequences, flattening, first-match search |
| strings.dfy | `Strings` | Python's `strip`, `rstrip`, `split`, `join`, `in`, `replace(p, "")`, `lower`, `str(int)` |
| order.dfy | `Order` | Python's string order and `sorted(set(xs))` |
| paths.dfy | `Paths` | Windows `os.path.splitext` and `os.path.join` |
| segmenter.dfy | `Segmenter` | `process_text_by_lines` and its greedy characterisation |
| merge.dfy | `Merge` | encoder table, merge command, temporary files, concat list, default output path |
| rows.dfy | `Rows` | `load_credentials_from_csv` and `get_voice_name` over parsed rows |
| synthesis.dfy | `Synthesis` | the control flow of `text_to_speech` and of the command line |
| grouping.dfy | `Grouping` | grouping by key into a dictionary and into ordered groups |
| catalogue.dfy | `Catalogue` | `VoiceInfo`, the gender rule, scene cleaning, `load_voice_types` |
| voicelist.dfy | `VoiceList` | the filters, scene groups and card grid of `update_voice_list` |
| selection.dfy | `Selection` | `find_audio_sample`, the default voice, `check_text_length` |
| logbuffer.dfy | `LogBuffer` | `LogRedirector.write` and `flush`, and `SynthesisThread.write` |

What the outside world does becomes a parameter:

- The cloud service is an oracle `synthesize: Request -> bool` that says whether the request for one segment succeeds.
- ffmpeg is an oracle `merge: seq<string> -> bool` over the command line. Only its reading of the file name on a concat-list line is modelled (`Merge.ReadEntry`): quotes open and close a verbatim span, and outside quotes a backslash takes the next character literally.
- The credential and voice tables are given as already-tokenised rows, or `None` when a file cannot be read.
- The file system seen by the sample lookup is a function from a directory path to its listing.
- Whether the input file exists, and its contents, are arguments of the command-line model.

The segmenter has two descriptions:

- `Pack` follows the source loop step by step.
- `IsGreedySegmentation` says what a correct result is:
  - reading the segments line by line gives back the kept lines;
  - no segment is empty;
  - a segment of several lines fits in 150 characters;
  - a segment starts only when its first line would not have fitted after the previous one.

`GreedySegmentationIsUnique` shows that the second description allows exactly one result, and `ProcessTextByLinesIsGreedy` shows that the loop produces it.

## Model

| member | source | states |
|---|---|---|
| Strings.Strip | audio_generator.py:49 | Python's `strip()`: the result is empty exactly when the text is all whitespace, otherwise it starts and ends with a non-space character; it is a contiguous slice of the input, and everything cut off on either side is whitespace |
| Strings.StripIdentity | audio_generator.py:49 | a text that neither starts nor ends with whitespace is left as it is |
| Strings.StripIdempotent | tts_gui.py:215 | stripping a stripped text changes nothing |
| Strings.StripKeepsOut | audio_generator.py:52 | stripping never introduces a character, so a stripped line holds no line break |
| Strings.RStrip | tts_gui.py:180 | `rstrip()`: a prefix of the input that does not end in whitespace, and the dropped tail is all whitespace |
| Strings.Split | audio_generator.py:49 | `split('\n')` gives at least one piece, no piece holds the separator, and joining the pieces with it gives the input back |
| Strings.SplitJoin | audio_generator.py:49 | splitting undoes joining when no piece holds the separator |
| Strings.SplitCount | audio_generator.py:49 | a string splits into two or more pieces exactly when it contains the separator |
| Strings.Contains | tts_gui.py:635-636 | the substring test `p in s` holds exactly when `p` occurs at some index of `s` |
| Strings.RemoveAll | tts_gui.py:286-287 | `replace(g, "")` never lengthens the scene and leaves it unchanged when `g` does not occur |
| Strings.RemoveAllDeletes | tts_gui.py:286-287 | `replace(g, "")` deletes the first occurrence of `g` and goes on scanning after it: `a + g + b` becomes `a` followed by `b` with its own occurrences deleted, when `g` does not occur earlier |
| Strings.LowerChar | tts_gui.py:631 | a capital 'A'..'Z' becomes the small letter at the same place in the alphabet; no other character changes |
| Strings.Lower | tts_gui.py:631 | `lower()` keeps the length and lower-cases each character on its own |
| Strings.LowerIdempotent | tts_gui.py:631 | lower-casing twice is lower-casing once |
| Strings.ContainsLower | tts_gui.py:631-636 | a text that contains the query still contains it after both are lower-cased, so case-insensitive search finds every exact match |
| Strings.ParseNatToString | audio_generator.py:134 | the decimal digits written for a segment index read back as that index |
| Strings.NatToStringInjective | audio_generator.py:134 | different indices are written differently |
| Strings.IntToString | audio_generator.py:76 | `str(voice_id)` is the canonical decimal of the id (no leading zero), preceded by '-' exactly for a negative id, and it reads back as the id |
| Strings.IntToStringInjective | audio_generator.py:76 | different ids are written differently |
| Order.LessTotal | tts_gui.py:301 | Python's string order compares any two different strings |
| Order.LessTransitive | tts_gui.py:301 | Python's string order is transitive |
| Order.SortedUnique | tts_gui.py:301-302 | `sorted(set(xs))` is strictly increasing and holds exactly the elements of `xs` |
| Order.SortedByElements | tts_gui.py:301-302 | two strictly sorted lists with the same elements are equal, so the sorted list is determined by the set |
| Order.SortedUniqueBySet | tts_gui.py:268-302 | the scene and type lists depend only on which values occur, not on row order or repetition |
| Paths.SplitExt | audio_generator.py:176 | `splitext` cuts the path into root + extension, and the extension is empty or a dot followed by no dot and no separator |
| Paths.SplitExtAppend | audio_generator.py:262-264 | appending an extension to a stem splits back into the stem and that extension, unless the stem's last component is all dots |
| Paths.JoinPath | audio_generator.py:134 | `os.path.join(dir, name)` starts with the directory and ends with the name, with at most one separator between, and that separator is a backslash |
| Paths.SplitExtLower | audio_generator.py:176 | `splitext` of the lower-cased path is the lower-cased root and extension of the path |
| Paths.JoinPathInjective | audio_generator.py:134 | joining one directory with two different names gives two different paths |
| Segmenter.CleanLines | audio_generator.py:49-54 | the lines the loop keeps are non-empty and hold no line break |
| Segmenter.Pack | audio_generator.py:51-70 | the loop only appends to the finished segments, every segment it adds is non-empty, and a segment under construction is never lost: it opens the next segment |
| Segmenter.ProcessTextByLines | audio_generator.py:42-72 | there are no segments exactly when the text is blank |
| Segmenter.ProcessTextByLinesIsGreedy | audio_generator.py:51-70 | the segments are the greedy segmentation of the stripped non-blank lines |
| Segmenter.GreedySegmentationIsUnique | audio_generator.py:57-66 | only one segmentation of the kept lines satisfies the greedy rule, so the rule fixes the output |
| Segmenter.SegmentsRejoin | audio_generator.py:49-66 | joining the segments with "\n" gives the kept lines joined with "\n": nothing lost, duplicated, reordered or cut |
| Segmenter.SegmentLinesAreKept | audio_generator.py:51-54 | every line inside a segment is one of the kept lines and is never empty |
| Segmenter.LongSegmentIsOneLine | audio_generator.py:57-60 | a segment longer than 150 characters is a single kept line, never cut |
| Segmenter.TwoLongLinesTwoSegments | audio_generator.py:57-60 | two lines that do not fit together become two segments |
| Segmenter.BlankLineDropped | audio_generator.py:53-54 | a blank line between two lines that fit together disappears and the lines share a segment |
| Segmenter.ProcessTextByLinesAfterStrip | tts_gui.py:215 | stripping the text before segmenting, as the worker thread and the command line do, changes no segment |
| Segmenter.PackMatchesGroups | audio_generator.py:51-70 | the string loop and the same loop on lists of lines produce the same segments |
| Segmenter.PackGroupsFlatten | audio_generator.py:51-66 | the loop consumes the kept lines in order, each exactly once |
| Segmenter.PackGroupsGreedy | audio_generator.py:57-66 | each step of the loop keeps the greedy rule |
| Merge.CodecOf | audio_generator.py:186-197 | ".mp3" selects MP3, ".aac" and ".m4a" select AAC, ".ogg" selects Vorbis, ".flac" selects FLAC, each exactly for those extensions, and any other extension copies the WAV data |
| Merge.Flags | audio_generator.py:186-197 | an encoder other than copy is chosen with `-c:a` and names its library: `libmp3lame` for mp3, `aac` for aac, `libvorbis` for vorbis, `flac` for flac; exactly the copy case gets `-c copy` |
| Merge.FlagsRoundTrip | audio_generator.py:187-197 | every encoder gets flags of its own, so the flags identify the encoder |
| Merge.CodecIgnoresCase | audio_generator.py:176 | lower-casing the whole output path does not change the encoder |
| Merge.OutputCodecOfUpperCase | audio_generator.py:176-188 | an output whose name ends in ".MP3" after a file name that is not all dots is encoded as MP3 |
| Merge.MergeCommand | audio_generator.py:179-200 | the command starts with the concat/`-safe 0`/`-i list` head and ends with the output file |
| Merge.ParseMergeCommand | audio_generator.py:179-200 | the command reads back as: this concat list, the encoder of the output's extension, this output file |
| Merge.TempFileName | audio_generator.py:134 | `segment_<i>.wav` is a bare file name starting with "segment_" and ending with ".wav" |
| Merge.TempFileNameInjective | audio_generator.py:134 | different segments get different temporary file names |
| Merge.TempFiles | audio_generator.py:133-135 | one temporary file per segment, in segment order |
| Merge.TempFilesDistinct | audio_generator.py:133-135 | no two segments share a temporary file |
| Merge.EntryRoundTrip | audio_generator.py:173 | ffmpeg reads the line `file '<path>'` as that path when the path holds no quote |
| Merge.QuotedPathMisread | audio_generator.py:173 | the path is written without escaping, so a quote in it closes the quoted name early; when nothing after the first quote is a backslash, quote or whitespace, ffmpeg reads the path with that quote dropped |
| Merge.QuotedPathNotReadBack | audio_generator.py:173 | for every path holding a quote, whatever follows it, ffmpeg reads a name other than the path from its concat-list line |
| Merge.ConcatListLines | audio_generator.py:170-173 | the concat list has one line per temporary file, in order, each ended by a line break |
| Merge.ConcatListRoundTrip | audio_generator.py:170-173 | ffmpeg reading the concat list line by line gets the temporary files in order, when no temporary path holds a quote |
| Merge.DefaultOutputPath | audio_generator.py:262-264 | without `-o` the output is the input path minus its extension, plus ".wav"; putting the input's extension back in place of ".wav" gives the input path |
| Merge.ResolveOutputPath | audio_generator.py:254-264 | a non-empty `-o` value wins; otherwise the default output path |
| Merge.DefaultOutputCopies | audio_generator.py:262-264 | the default output has extension ".wav" (or none, for an all-dots name), so the merge copies the WAV data |
| Rows.LoadCredentials | audio_generator.py:24-40 | the key pair is the first two columns of the first data row when it has two columns; otherwise, or when the file is unreadable, there is none |
| Rows.CredentialsIgnoreLaterRows | audio_generator.py:32-35 | rows after the first data row never matter, even when a later row would be valid |
| Rows.CredentialsIgnoreHeader | audio_generator.py:29-30 | the header row never supplies credentials |
| Rows.GetVoiceName | audio_generator.py:74-99 | the name is the id string when the table is missing or no data row's stripped id matches, and otherwise the stripped name of the first row whose stripped id matches |
| Rows.VoiceNameFirstListing | audio_generator.py:88-92 | a listed voice is named by its first listing, never by the header |
| Rows.VoiceNameUnlisted | audio_generator.py:94-96 | an unlisted voice is named by its id |
| Synthesis.Requests | audio_generator.py:133-149 | one request per segment, carrying that segment and its position |
| Synthesis.SendAll | audio_generator.py:133-165 | requests go out in order; the loop reports success exactly when every request succeeds, and nothing is sent after the first failure |
| Synthesis.Synthesize | audio_generator.py:106-211 | success exactly when credentials are usable, there is a segment, every request succeeds and the merge succeeds; unusable credentials send nothing; the merge is attempted only when every request succeeded |
| Synthesis.TextToSpeech | audio_generator.py:101-215 | the same outcome stated for the segments of the text |
| Synthesis.BlankTextFails | audio_generator.py:209-211 | a blank text never succeeds, whatever the service and ffmpeg do |
| Synthesis.CliMain | audio_generator.py:236-278 | exit status 1 exactly for a missing file or blank contents; otherwise the program synthesizes the stripped text, whose segments are those of the file's text, into the resolved output with the `-v` voice (101012 when absent) at the default speed and volume |
| Catalogue.FemaleUnlessMale | tts_gui.py:32-33 | a voice is female unless its scene says "男声" and does not say "女声" |
| Catalogue.CleanScene | tts_gui.py:285-288 | the cleaned scene is no longer than the scene and neither starts nor ends with whitespace |
| Catalogue.CleanSceneWithoutGender | tts_gui.py:285-288 | a scene that names no gender is only stripped |
| Catalogue.CleanSceneRemovesGender | tts_gui.py:285-288 | one "男声" or "女声" placed anywhere in a scene whose other text has no 男, 女 or 声 is cut out, and the rest is stripped |
| Catalogue.CleanSceneSinglePass | tts_gui.py:286-287 | each gender word is removed in a single pass, so removing one can leave another behind: "男男声声" cleans to "男声" |
| Catalogue.Voices | tts_gui.py:271-282 | rows shorter than seven columns are skipped: a table whose every row has seven columns yields one voice per row, built from that row's columns in order, and a table with no such row yields no voice |
| Catalogue.VoicesSnoc | tts_gui.py:271-282 | each row of seven or more columns appends its voice, any shorter row is skipped |
| Catalogue.VoicesFromRows | tts_gui.py:271-281 | every loaded voice comes from a row of at least seven columns |
| Catalogue.LoadVoiceTypes | tts_gui.py:261-307 | the voices are those of the data rows; the scene and type lists are strictly sorted and hold exactly the cleaned scenes and types of the loaded voices; an unreadable file loads nothing |
| Catalogue.ByScenePartitions | tts_gui.py:294-298 | `voice_by_scene` has a key exactly for the cleaned scenes that occur, each holding those voices in load order |
| Grouping.GroupMapIsFilter | tts_gui.py:294-298 | the dictionary of lists holds under each key exactly the elements with that key, in order |
| Grouping.GroupsInOrder | tts_gui.py:642-654 | the ordered groups: one per key that occurs, no key twice, each holding its elements in order, in first-appearance order |
| Grouping.ExactlyOneGroup | tts_gui.py:645-654 | every element lands in the group of its key and in no other |
| VoiceList.Displayed | tts_gui.py:598-638 | the shown voices are an order-preserving subsequence of the catalogue, and a voice is shown exactly when it passes every active filter |
| VoiceList.PipelineIsFilter | tts_gui.py:598-638 | the four filter passes in turn equal one filter by all active tests |
| VoiceList.NoFilterShowsAll | tts_gui.py:601-632 | with no filter set and a blank search, every voice is shown |
| VoiceList.SceneFilterMatchesCatalogue | tts_gui.py:600-612 | choosing a scene shows exactly the catalogue's voices of that cleaned scene |
| VoiceList.SceneGroups | tts_gui.py:642-654 | the shown voices grouped by cleaned scene, in first-appearance order |
| VoiceList.EveryVoiceOnce | tts_gui.py:645-654 | every shown voice is in exactly one scene group |
| VoiceList.GridCell | tts_gui.py:668 | card `i` goes to row `i // 3`, column `i % 3`, with three columns |
| VoiceList.GridCellsDistinct | tts_gui.py:665-668 | no two cards of a group share a grid cell |
| Selection.SampleDirs | tts_gui.py:312-317 | the three sample directories lie under the application directory, in the order 8k, 16k, 24k |
| Selection.FindIn | tts_gui.py:319-325 | no sample exactly when no directory lists a sample file; otherwise a listed sample joined to its directory |
| Selection.FindAudioSample | tts_gui.py:309-325 | the same result for the three sample directories |
| Selection.FindIsFirstCandidate | tts_gui.py:319-323 | the result is the first sample in search order: directories in order, listing order within each |
| Selection.PrefixMatchesLongerId | tts_gui.py:322 | the id is matched as a prefix, so "1001" also accepts "10011.wav" |
| Selection.DefaultVoice | tts_gui.py:417-425 | the first voice named "WeRose", else the first voice, else none only for an empty catalogue |
| Selection.PreferredWins | tts_gui.py:418-422 | a catalogue that lists "WeRose" opens with it selected |
| Selection.EnabledIffSegments | tts_gui.py:572-576 | the synthesize button is enabled exactly when the text is not blank, which is exactly when there is a segment to synthesize |
| LogBuffer.Write | tts_gui.py:177-183 | a write joins the buffer; when it ends a line, exactly one line, the right-stripped buffer, goes to the panel and the buffer empties |
| LogBuffer.Flush | tts_gui.py:185-188 | a non-empty buffer goes to the panel unchanged and the buffer empties |
| LogBuffer.FlushIdempotent | tts_gui.py:185-188 | a second flush changes nothing |
| LogBuffer.RunAppend | tts_gui.py:177-183 | writing `a` then `b` is writing `a + b` |
| LogBuffer.RunState | tts_gui.py:177-183 | after any run of writes, the panel holds one right-stripped line per line-ending chunk, in order, and the buffer holds the unterminated tail |
| LogBuffer.RunCountsBreaks | tts_gui.py:179-181 | the panel receives exactly one line per write that ends a line |
| LogBuffer.RunThenFlush | tts_gui.py:177-188 | a closing flush adds the unterminated tail, if any, after the lines |
| LogBuffer.ThreadEntry | tts_gui.py:239-241 | a write that is all whitespace emits nothing; any other write emits exactly its strip, which is a non-empty log line |
| LogBuffer.ThreadWrite | tts_gui.py:239-241 | the thread's `write` appends to what was emitted before and nothing else |
| LogBuffer.ThreadRunLines | tts_gui.py:217-241 | during a synthesis the log gains exactly the stripped non-blank writes, in order, with nothing held back, and each message is a non-empty stripped line |
| LogBuffer.ThreadDoesNotBuffer | tts_gui.py:177-183 | a write with no line break, which the line-buffering redirector would hold back, is emitted by the thread at once |

## Left out

- Widgets, layout, styling, toasts, hover playback and the sample player of `tts_gui.py`: presentation with no logic beyond what is modelled.
- The `SynthesisThread` worker, its signals and the swap of `sys.stdout` in `run`: concurrency and global I/O redirection. Its `write` is modelled (`LogBuffer.ThreadWrite`), and its `strip()` of the text changes no segment (`Segmenter.ProcessTextByLinesAfterStrip`).
- The Tencent Cloud SDK objects, the `hash(segment)` session id, the JSON request and the `base64` decoding of the answer: foreign calls. They are folded into the per-request oracle. `Synthesis.Request` records the index the session id is built from, not the hash.
- Running ffmpeg, creating the temporary directory and the `finally` clean-up: process and file-system side effects. The command and the concat-list text are modelled.
- Synthesis.TextToSpeech: an exception raised outside the per-segment `try` is not modelled, for example when the temporary directory or the concat list cannot be created. Such an exception makes the source return `False`.
- Merge.EntryRoundTrip: a temporary path containing `'` is not read back. The source writes the path between quotes without escaping, so ffmpeg reads a different path and the merge fails, for every such path (`Merge.QuotedPathNotReadBack`); `Merge.QuotedPathMisread` gives the name read when the rest of the path is plain. This happens for instance under a Windows user profile such as `C:\Users\O'Neil`. Beyond the file name, ffmpeg's handling of the rest of a concat-list line is not modelled.
- Synthesis.CliMain: the creation of the `-o` directory and the unused `get_voice_name` lookup are not modelled.
- CSV tokenisation: rows are given already split into columns.
- Catalogue.LoadVoiceTypes: a read error after some rows, which leaves the rows read so far in place, is not modelled. Only a file that cannot be read at all is.
- The order of `os.listdir`: each listing is a given sequence.
- The application directory of `find_audio_sample` (`os.path.abspath(__file__)`): a parameter.
- Strings.LowerChar: only the ASCII capitals 'A'..'Z' are mapped; every other character, non-ASCII capitals included, is left as it is, whereas Python's `lower()` maps those too (for instance 'Ä' to 'ä').
- Strings.Lower: only ASCII letters are lower-cased, because Python's full Unicode case tables are out of scope. Search queries with non-ASCII capitals are therefore compared differently from the source.
- Paths.JoinPath: only joins with a bare file name are modelled. A second argument that is absolute or carries a drive never occurs in these calls.
- Paths.SplitExt: paths follow Windows `ntpath`, where both `\` and `/` separate components. The window also runs on macOS and Linux (tts_gui.py:849-854), where `posixpath` treats only `/` as a separator and `\` is an ordinary character. Paths with a backslash therefore split differently there.
- Floating-point speed and volume display, timestamps, the log panel's scrolling, and the whole of `build.py`: not part of the core.
