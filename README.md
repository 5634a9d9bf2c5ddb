# Subtitle extractor, modelled in Dafny

This project models the `SubtitleExtractor` class of the Subtitle-Extractor plugin
(`plugins/Subtitle-Extractor/subtitle_extractor.py`). The class drives ffmpeg to pull
the embedded subtitle tracks out of a video file. The model covers three parts:

- **Job derivation** (`__init__`). The output directory is `output_dir`, or the video's
  directory when that is missing or empty. The base name is the video's file name
  without its last extension.
- **Stream discovery** (`_parse_streams`). The model covers:
  - the split of ffmpeg's stderr into lines, as Python's `str.splitlines`;
  - the `'Subtitle:' in line` guard;
  - the pattern `Stream #(\d+):(\d+)(\(\w+\))?: Subtitle: ([^,]+)(.*)` under `re.search`, where group 2 is the stream index;
  - the pattern `lang:([a-z]{2})`, where the first match is the language and the default is `"unknown"`;
  - the ordered list of `{index, lang}` records the method builds.
- **Extraction commands** (`_extract_stream`, `extract_subtitles`). The model covers:
  - the output file name, `base.lang.srt` or `base.srt`;
  - its `os.path.join` onto the output directory;
  - the argument list `ffmpeg -i <video> -map 0:s:<index> <out_path> -y`;
  - the probe run `ffmpeg -i <video>`.

The files are:

- `wrappers.dfy`: `Option`.
- `py_strings.dfy` (module `PyStrings`) covers Python string behaviour:
  - `in` on strings;
  - `str.splitlines` with all of CPython's line boundaries;
  - greedy character runs.
- `posix_path.dfy` (module `PosixPath`): CPython's `posixpath.dirname`, `basename`,
  `splitext` and two-argument `join`.
- `stream_pattern.dfy` (module `StreamPattern`) covers the two regular expressions:
  - each is an anchored character-level matcher;
  - each has a plain reference predicate describing the texts it accepts;
  - `re.search` is the leftmost start position at which the matcher succeeds.
- `subtitle_extractor.dfy` (module `SubtitleExtraction`) has the following parts:
  - the `Stream` record;
  - the per-line and whole-text parse functions;
  - naming and argument lists;
  - the `SubtitleExtractor` class. Its three fields are set by the constructor. Its methods `ParseStreams`, `ExtractStream` and `ExtractSubtitles` are proved against the functions.

The stream index stays the digit string that group 2 captured: the code stores
`match.group(2)` unconverted and formats it straight into `0:s:<index>`.

The code also has no orchestration layer beyond the two hook functions. It does not
check that files exist, does not contain failures, and produces no per-file result
records, so none of those are modelled.

## Model

| member | source | states |
|---|---|---|
| SubtitleExtraction.SubtitleExtractor.constructor | plugins/Subtitle-Extractor/subtitle_extractor.py:12-15 | the three fields are the video path, the resolved output directory and the base name without extension |
| SubtitleExtraction.ResolveOutputDirSpec | plugins/Subtitle-Extractor/subtitle_extractor.py:14 | a non-empty `output_dir` is used as given; with None or "" it is `dirname` of the video path, which is a prefix of the path, empty exactly when the path has no '/', and separated from the file name by '/' only |
| PosixPath.DirNameSpec | plugins/Subtitle-Extractor/subtitle_extractor.py:14 | `dirname` is a prefix of the path, empty exactly when there is no '/'; only separators lie between it and the base name; it keeps no trailing '/' unless it is all '/', in which case it keeps the whole run of separators before the base name |
| PosixPath.BaseName | plugins/Subtitle-Extractor/subtitle_extractor.py:15 | `basename` has no '/', is a suffix of the path, and starts right after the last '/' (or is the whole path when there is none) |
| PosixPath.SplitExtSpec | plugins/Subtitle-Extractor/subtitle_extractor.py:15 | `splitext`: root + ext is the name; ext is empty exactly when the last component has no extension (a leading-dot name has none); a non-empty ext starts with the only '.' it contains and has no '/' |
| SubtitleExtraction.SceneFileNameSpec | plugins/Subtitle-Extractor/subtitle_extractor.py:15 | the base name has no '/'; the file name is the base name followed by its last extension, which is empty exactly when the name has none |
| SubtitleExtraction.SubtitleExtractor.ExtractSubtitles | plugins/Subtitle-Extractor/subtitle_extractor.py:17-28 | the probe arguments are `ffmpeg -i <video>`, and the extraction argument lists are exactly one per parsed stream, in order |
| SubtitleExtraction.ExtractCommands | plugins/Subtitle-Extractor/subtitle_extractor.py:27-28 | one argument list per stream, the k-th built from the k-th stream |
| SubtitleExtraction.SubtitleExtractor.ParseStreams | plugins/Subtitle-Extractor/subtitle_extractor.py:30-41 | the loop over the lines builds exactly the stream list of the text's lines |
| PyStrings.SplitLinesSpec | plugins/Subtitle-Extractor/subtitle_extractor.py:33 | no line holds a line boundary; there are at most as many lines as characters; the empty text and only it has no lines |
| PyStrings.SplitTerminated | plugins/Subtitle-Extractor/subtitle_extractor.py:33 | splitting boundary-free lines, each terminated by "\n", gives back exactly those lines |
| PyStrings.SplitLinesContains | plugins/Subtitle-Extractor/subtitle_extractor.py:33-34 | a word found in a line is found in the whole text |
| SubtitleExtraction.ParseTerminated | plugins/Subtitle-Extractor/subtitle_extractor.py:33 | for newline-terminated output the parse sees exactly the printed lines |
| PyStrings.ContainsIff | plugins/Subtitle-Extractor/subtitle_extractor.py:34 | `w in s` holds exactly when w occurs in s at some position |
| StreamPattern.SearchFromSpec | plugins/Subtitle-Extractor/subtitle_extractor.py:35 | `re.search` returns the match at a start position before which the matcher fails everywhere; it fails exactly when the matcher fails at every position |
| StreamPattern.SearchSomeIff | plugins/Subtitle-Extractor/subtitle_extractor.py:35-36 | the search succeeds exactly when the anchored pattern matches at some position |
| StreamPattern.SearchFound | plugins/Subtitle-Extractor/subtitle_extractor.py:35-36 | a successful search returns the match at the leftmost matching position |
| StreamPattern.SearchFirst | plugins/Subtitle-Extractor/subtitle_extractor.py:35-36 | a match at p with none before gives the search result |
| StreamPattern.TailSound | plugins/Subtitle-Extractor/subtitle_extractor.py:35 | the tail `(\(\w+\))?: Subtitle: ([^,]+)(.*)` matches only a tag, the marker, a non-comma character and the rest |
| StreamPattern.TailComplete | plugins/Subtitle-Extractor/subtitle_extractor.py:35 | every such tail is matched, with the tag taken in full |
| StreamPattern.MatchStreamSpec | plugins/Subtitle-Extractor/subtitle_extractor.py:35-37 | the stream pattern matches at the start of s with group 2 equal to b exactly when s is "Stream #" a ":" b tag ": Subtitle: " codec rest, with a, b non-empty digit strings, tag empty or a parenthesised word and codec not ',' |
| StreamPattern.MatchStreamSound | plugins/Subtitle-Extractor/subtitle_extractor.py:35-37 | a match at the start of s means s has that shape with group 2 as b |
| StreamPattern.MatchStreamComplete | plugins/Subtitle-Extractor/subtitle_extractor.py:35-37 | every text of that shape matches with group 2 equal to b |
| StreamPattern.MatchLangSpec | plugins/Subtitle-Extractor/subtitle_extractor.py:38 | `lang:([a-z]{2})` captures c at the start of s exactly when c is two lower-case ASCII letters and s starts with "lang:" + c |
| SubtitleExtraction.LangOfSpec | plugins/Subtitle-Extractor/subtitle_extractor.py:38-39 | the language is a two-letter code or "unknown"; it is "unknown" exactly when no position matches; otherwise it is the code after the first matching "lang:" |
| SubtitleExtraction.NoLangKeyIsUnknown | plugins/Subtitle-Extractor/subtitle_extractor.py:38-39 | a line without "lang:", for instance one tagged only "(eng)", records "unknown" |
| SubtitleExtraction.MatchHasMarker | plugins/Subtitle-Extractor/subtitle_extractor.py:34-35 | every text the stream pattern matches contains "Subtitle:" |
| SubtitleExtraction.TailHasMarker | plugins/Subtitle-Extractor/subtitle_extractor.py:34-35 | a matched tail contains "Subtitle:" |
| SubtitleExtraction.MatchedLineHasMarker | plugins/Subtitle-Extractor/subtitle_extractor.py:34-35 | a line in which the pattern matches anywhere passes the "Subtitle:" guard |
| SubtitleExtraction.GuardKeepsMatch | plugins/Subtitle-Extractor/subtitle_extractor.py:34-36 | a line yields a stream exactly when the stream search succeeds: the guard never rejects a match |
| SubtitleExtraction.LineStreamSome | plugins/Subtitle-Extractor/subtitle_extractor.py:34-36 | a line yields a stream exactly when the pattern matches at some position; a line that does not match, for instance one with nothing after "Subtitle: " or only a comma, adds nothing |
| SubtitleExtraction.LineStreamSpec | plugins/Subtitle-Extractor/subtitle_extractor.py:35-40 | a yielded stream has as index the non-empty digit run b of the "Stream #a:b…" descriptor at the leftmost position where the pattern matches, and as language the line's language, a code or "unknown" |
| SubtitleExtraction.FirstDescriptorIndex | plugins/Subtitle-Extractor/subtitle_extractor.py:35-37 | when the first "Stream #" of a line starts a well-formed descriptor `Stream #a:b…`, the stream's index is b, not a |
| SubtitleExtraction.Collect | plugins/Subtitle-Extractor/subtitle_extractor.py:32-40 | the collected list is no longer than the list of lines |
| SubtitleExtraction.CollectAppend | plugins/Subtitle-Extractor/subtitle_extractor.py:32-40 | collecting over two consecutive blocks of lines concatenates their results |
| SubtitleExtraction.CollectMember | plugins/Subtitle-Extractor/subtitle_extractor.py:32-40 | a value is collected exactly when some line yields it |
| SubtitleExtraction.CollectNone | plugins/Subtitle-Extractor/subtitle_extractor.py:32-41 | with nothing yielded by any line, the list stays empty |
| SubtitleExtraction.StreamsOfLine | plugins/Subtitle-Extractor/subtitle_extractor.py:36-40 | one line contributes at most one stream, the one it yields |
| SubtitleExtraction.StreamsOfAppend | plugins/Subtitle-Extractor/subtitle_extractor.py:32-41 | the streams of consecutive blocks of lines come in line order |
| SubtitleExtraction.StreamsOfMember | plugins/Subtitle-Extractor/subtitle_extractor.py:32-41 | a stream is in the result exactly when some line yields it |
| SubtitleExtraction.StreamsOfWellFormed | plugins/Subtitle-Extractor/subtitle_extractor.py:37-40 | every recorded stream has a non-empty digit index and a two-letter or "unknown" language |
| SubtitleExtraction.NoMarkerNoStreams | plugins/Subtitle-Extractor/subtitle_extractor.py:33-41 | with no line containing "Subtitle:", the result is empty |
| SubtitleExtraction.NoMarkerInText | plugins/Subtitle-Extractor/subtitle_extractor.py:33-41 | ffmpeg output that never contains "Subtitle:" yields no streams |
| SubtitleExtraction.SubtitleExtractor.ExtractStream | plugins/Subtitle-Extractor/subtitle_extractor.py:43-50 | the argument list built for a stream is its extraction command |
| SubtitleExtraction.OutNameSpec | plugins/Subtitle-Extractor/subtitle_extractor.py:46 | the file name starts with the base name, ends in ".srt", and has no '/' when base and language have none |
| SubtitleExtraction.OutNameInjective | plugins/Subtitle-Extractor/subtitle_extractor.py:46 | for one base name, two languages give the same file name exactly when they are equal |
| PosixPath.JoinSpec | plugins/Subtitle-Extractor/subtitle_extractor.py:47 | joining a '/'-free name onto a directory starts with the directory, ends with the name, has the name as its base name, and adds a '/' only when the directory is non-empty and does not end in one |
| SubtitleExtraction.OutputPathSpec | plugins/Subtitle-Extractor/subtitle_extractor.py:46-47 | the output path lies under the output directory, its base name is the file name (so the file lands directly in that directory), and it ends in ".srt" |
| SubtitleExtraction.SamePathIffSameLang | plugins/Subtitle-Extractor/subtitle_extractor.py:46-47 | two streams of one video are written to the same path exactly when their languages are equal |
| SubtitleExtraction.ExtractCommandSpec | plugins/Subtitle-Extractor/subtitle_extractor.py:48-50 | the command has seven arguments `ffmpeg -i <video> -map 0:s:<index> <out_path> -y`, the selector embeds the parsed index unchanged and "-y" is always present |
| SubtitleExtraction.StreamLangNoSep | plugins/Subtitle-Extractor/subtitle_extractor.py:39 | a recorded language never holds a '/' |

## Left out

- Process runs: the two `subprocess.run` calls (lines 25 and 51) are not modelled. The probe's stderr text is a parameter of `ExtractSubtitles`, and each extraction is represented by its argument list. ffmpeg's behaviour, output files and exit status are outside the model; the code never inspects them.
- Hooks: `on_scene_scan` and `retroactive_subtitle_task` (lines 55-62) only construct an extractor and call it, once or in a loop over paths.
- `LANGUAGE_CODE_REGEX` (line 6): it is compiled but never used.
- Unicode classes: `\d` and `\w` are modelled as their ASCII classes (`[0-9]`, `[A-Za-z0-9_]`). Python's `str` patterns also accept other Unicode digits and letters.
- Paths: only the POSIX `posixpath` behaviour of `os.path` (separator '/') is modelled. The Windows `ntpath` variants are not.
- Regular expressions: there is no general regex engine. Only the two patterns of the parser are written out as matchers.
- `-map` semantics: ffmpeg reads `0:s:<index>` as the index among subtitle streams only. The parsed index counts all streams of the input, so the two can differ. The model states the argument list the code builds, not which track ffmpeg then selects.
- Case: `lang:` is matched case-sensitively with lower-case letters, as the pattern is. An upper-case code is skipped and the search continues.
- Example stderr texts: no lemma runs a concrete ffmpeg line through the parser. Those properties are stated for all lines instead (`FirstDescriptorIndex`, `NoLangKeyIsUnknown`, `OutNameSpec`).
