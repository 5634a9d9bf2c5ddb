/**
 * The `SubtitleExtractor` of the Subtitle-Extractor plugin: how it derives
 * its job from a video path, how it turns ffmpeg's diagnostic text into a
 * list of subtitle streams, and which ffmpeg argument lists it builds. The
 * processes themselves are not modelled: the probe's stderr text is a
 * parameter and each extraction is represented by its argument list.
 */
module SubtitleExtraction {
  import opened Wrappers
  import opened PyStrings
  import opened PosixPath
  import opened StreamPattern

  /** One entry `{'index': ..., 'lang': ...}` of the list `_parse_streams` returns. */
  datatype Stream = Stream(index: string, lang: string)

  /** The language recorded when a line carries no `lang:` code. */
  const Unknown := "unknown"

  /** The substring a line must contain to be considered at all. */
  const Marker := "Subtitle:"

  /** A language as the parser records it: a two-letter code or the sentinel. */
  predicate IsStreamLang(lang: string) {
    IsLangCode(lang) || lang == Unknown
  }

  // --------------------------------------------------------- one line

  /** `lang_match.group(1) if lang_match else 'unknown'`. */
  function LangOf(line: string): string
  {
    match FindLang(line)
    case Some(code) => code
    case None => Unknown
  }

  /** What one line contributes to the result: a stream, or nothing. */
  function LineStream(line: string): Option<Stream>
  {
    if !Contains(line, Marker) then None
    else
      match SearchStream(line)
      case None => None
      case Some(index) => Some(Stream(index, LangOf(line)))
  }

  // -------------------------------------------------------- all lines

  /** The values f yields over lines, in line order; a line for which f yields nothing is skipped. */
  function Collect<T>(lines: seq<string>, f: string -> Option<T>): (out: seq<T>)
    ensures |out| <= |lines|
  {
    if lines == [] then []
    else
      var prev := Collect(lines[..|lines| - 1], f);
      match f(lines[|lines| - 1])
      case Some(v) => prev + [v]
      case None => prev
  }

  /** The streams of lines, in line order: the value `_parse_streams` builds. */
  function StreamsOf(lines: seq<string>): seq<Stream>
  {
    Collect(lines, LineStream)
  }

  // ------------------------------------------------------------ naming

  /** The file name `_extract_stream` writes a stream of language lang to. */
  function OutName(base: string, lang: string): string
  {
    if lang != Unknown then base + "." + lang + ".srt" else base + ".srt"
  }

  /** The `-map` argument selecting subtitle stream index of input 0. */
  function MapSelector(index: string): string
  {
    "0:s:" + index
  }

  /** The argument list of the extraction run for one stream. */
  function ExtractCommand(videoPath: string, outputDir: string, base: string, stream: Stream): seq<string>
  {
    ["ffmpeg", "-i", videoPath, "-map", MapSelector(stream.index),
     Join(outputDir, OutName(base, stream.lang)), "-y"]
  }

  /** The extraction argument lists for streams, in order. */
  function ExtractCommands(videoPath: string, outputDir: string, base: string, streams: seq<Stream>): (cmds: seq<seq<string>>)
    ensures |cmds| == |streams|
    ensures forall k :: 0 <= k < |streams| ==> cmds[k] == ExtractCommand(videoPath, outputDir, base, streams[k])
  {
    if streams == [] then []
    else ExtractCommands(videoPath, outputDir, base, streams[..|streams| - 1]) +
         [ExtractCommand(videoPath, outputDir, base, streams[|streams| - 1])]
  }

  /** The argument list of the probe run whose stderr is parsed. */
  function ProbeCommand(videoPath: string): seq<string>
  {
    ["ffmpeg", "-i", videoPath]
  }

  // ------------------------------------------------------- job fields

  /** `output_dir or os.path.dirname(video_path)`: None and "" both fall back. */
  function ResolveOutputDir(videoPath: string, outputDir: Option<string>): string
  {
    match outputDir
    case Some(dir) => if dir != [] then dir else DirName(videoPath)
    case None => DirName(videoPath)
  }

  /** `os.path.splitext(os.path.basename(video_path))[0]`. */
  function SceneFileName(videoPath: string): string
  {
    SplitExt(BaseName(videoPath)).0
  }

  // ------------------------------------------------ what a line yields

  /**
   * The language is a two-letter code or "unknown"; it is "unknown" exactly
   * when no "lang:" in the line is followed by two lower-case letters, and
   * otherwise it is the code after the first such "lang:".
   */
  lemma LangOfSpec(line: string)
    ensures IsStreamLang(LangOf(line))
    ensures LangOf(line) == Unknown <==> forall p :: 0 <= p <= |line| ==> MatchLang(line[p..]).None?
    ensures LangOf(line) != Unknown ==>
      exists p :: 0 <= p <= |line| && StartsWith(line[p..], LangKey + LangOf(line)) &&
                  forall q :: 0 <= q < p ==> MatchLang(line[q..]).None?
  {
    var found := FindLang(line);
    SearchFromSpec(line, 0, MatchLang);
    if found.Some? {
      var p :| 0 <= p <= |line| && MatchLang(line[p..]) == found &&
               forall q :: 0 <= q < p ==> MatchLang(line[q..]).None?;
      MatchLangSpec(line[p..], found.value);
      assert LangOf(line) == found.value;
      assert found.value != Unknown;
    }
  }

  /** A line with no "lang:" at all, such as one tagged only "(eng)", records "unknown". */
  lemma NoLangKeyIsUnknown(line: string)
    requires !Contains(line, LangKey)
    ensures LangOf(line) == Unknown
  {
    LangOfSpec(line);
    if LangOf(line) != Unknown {
      var p :| 0 <= p <= |line| && StartsWith(line[p..], LangKey + LangOf(line));
      assert line[p..][..|LangKey|] == (LangKey + LangOf(line))[..|LangKey|];
      SliceOfSlice(line, p, |line|, 0, |LangKey|);
      assert OccursAt(line, LangKey, p);
      ContainsIff(line, LangKey);
    }
  }

  /** Every text the stream pattern matches contains "Subtitle:". */
  lemma MatchHasMarker(s: string)
    requires MatchStream(s).Some?
    ensures Contains(s, Marker)
  {
    var r1 := s[|StreamPrefix|..];
    var a := Span(r1, IsDigit);
    var r2 := r1[a + 1..];
    var n := Span(r2, IsDigit);
    TailHasMarker(r2[n..]);
    ContainsInSuffix(r2, n, Marker);
    ContainsInSuffix(r1, a + 1, Marker);
    ContainsInSuffix(s, |StreamPrefix|, Marker);
  }

  /** The "Subtitle:" inside ": Subtitle: " of a matched tail. */
  lemma TailHasMarker(s: string)
    requires MatchTail(s)
    ensures Contains(s, Marker)
  {
    var t := TagLength(s);
    var r := s[t..];
    forall i | 0 <= i < |Marker| ensures s[t + 2..t + 2 + |Marker|][i] == Marker[i] {
      assert r[..|SubtitleMarker|][2 + i] == SubtitleMarker[2 + i];
    }
    assert OccursAt(s, Marker, t + 2);
    ContainsIff(s, Marker);
  }

  /** A line in which the stream pattern matches somewhere contains "Subtitle:". */
  lemma MatchedLineHasMarker(line: string, p: nat)
    requires p <= |line| && MatchStream(line[p..]).Some?
    ensures Contains(line, Marker)
  {
    MatchHasMarker(line[p..]);
    ContainsInSuffix(line, p, Marker);
  }

  /**
   * A line yields a stream exactly when the stream pattern matches somewhere
   * in it: the "Subtitle:" guard never rejects a match.
   */
  lemma LineStreamSome(line: string)
    ensures LineStream(line).Some? <==> exists p :: 0 <= p <= |line| && MatchStream(line[p..]).Some?
  {
    SearchSomeIff(line, MatchStream);
    GuardKeepsMatch(line);
  }

  lemma GuardKeepsMatch(line: string)
    ensures LineStream(line).Some? <==> SearchStream(line).Some?
  {
    if SearchStream(line).Some? {
      SearchFound(line, MatchStream);
      var q :| 0 <= q <= |line| && MatchStream(line[q..]) == SearchStream(line);
      MatchedLineHasMarker(line, q);
    }
  }

  /**
   * The stream a line yields has as index the non-empty digit run b of a
   * "Stream #a:b..." descriptor in the line, and as language the line's
   * language, a two-letter code or "unknown".
   */
  lemma LineStreamSpec(line: string)
    requires LineStream(line).Some?
    ensures var st := LineStream(line).value;
      |st.index| > 0 && AllDigits(st.index) && st.lang == LangOf(line) && IsStreamLang(st.lang) &&
      exists p, a, tag, codec, rest :: 0 <= p <= |line| && StreamLine(line[p..], a, st.index, tag, codec, rest) &&
        forall q :: 0 <= q < p ==> MatchStream(line[q..]).None?
  {
    LangOfSpec(line);
    var found := SearchStream(line);
    SearchFound(line, MatchStream);
    var q :| 0 <= q <= |line| && MatchStream(line[q..]) == found &&
             forall k :: 0 <= k < q ==> MatchStream(line[k..]).None?;
    MatchStreamSpec(line[q..], found.value);
  }

  /**
   * When the first "Stream #" of a line begins a well-formed subtitle
   * descriptor Stream #a:b..., the line yields the stream with index b.
   */
  lemma FirstDescriptorIndex(line: string, p: nat, a: string, b: string, tag: string, codec: char, rest: string)
    requires p <= |line| && StreamLine(line[p..], a, b, tag, codec, rest)
    requires forall q :: 0 <= q < p ==> !StartsWith(line[q..], StreamPrefix)
    ensures LineStream(line) == Some(Stream(b, LangOf(line)))
  {
    MatchStreamComplete(line[p..], a, b, tag, codec, rest);
    MatchedLineHasMarker(line, p);
    SearchFirst(line, p, MatchStream);
  }

  // ----------------------------------------------- what all lines yield

  /** Collecting over consecutive blocks of lines concatenates their results: order is kept. */
  lemma {:induction false} CollectAppend<T>(x: seq<string>, y: seq<string>, f: string -> Option<T>)
    ensures Collect(x + y, f) == Collect(x, f) + Collect(y, f)
    decreases |y|
  {
    if y == [] {
      assert x + y == x;
    } else {
      var init := y[..|y| - 1];
      assert (x + y)[..|x + y| - 1] == x + init;
      assert (x + y)[|x + y| - 1] == y[|y| - 1];
      CollectAppend(x, init, f);
    }
  }

  /** A value is collected exactly when f yields it for some line. */
  lemma {:induction false} CollectMember<T>(lines: seq<string>, f: string -> Option<T>, v: T)
    ensures v in Collect(lines, f) <==> exists k :: 0 <= k < |lines| && f(lines[k]) == Some(v)
    decreases |lines|
  {
    if lines != [] {
      var n := |lines| - 1;
      var init := lines[..n];
      CollectMember(init, f, v);
      if v in Collect(lines, f) && v in Collect(init, f) {
        var k :| 0 <= k < |init| && f(init[k]) == Some(v);
        assert lines[k] == init[k];
      }
      if exists k :: 0 <= k < |lines| && f(lines[k]) == Some(v) {
        var k :| 0 <= k < |lines| && f(lines[k]) == Some(v);
        if k < n {
          assert init[k] == lines[k];
        }
      }
    }
  }

  /** Nothing is collected when f yields nothing for every line. */
  lemma {:induction false} CollectNone<T>(lines: seq<string>, f: string -> Option<T>)
    requires forall k :: 0 <= k < |lines| ==> f(lines[k]).None?
    ensures Collect(lines, f) == []
    decreases |lines|
  {
    if lines != [] {
      var init := lines[..|lines| - 1];
      assert forall k :: 0 <= k < |init| ==> init[k] == lines[k];
      CollectNone(init, f);
    }
  }

  /** One line contributes at most one stream: the one it yields, if any. */
  lemma StreamsOfLine(line: string)
    ensures |StreamsOf([line])| <= 1
    ensures StreamsOf([line]) == [] <==> LineStream(line) == None
    ensures LineStream(line).Some? ==> StreamsOf([line]) == [LineStream(line).value]
  {
    assert [line][..0] == [];
  }

  /** The parse of consecutive blocks of lines is the concatenation of their parses. */
  lemma StreamsOfAppend(x: seq<string>, y: seq<string>)
    ensures StreamsOf(x + y) == StreamsOf(x) + StreamsOf(y)
  {
    CollectAppend(x, y, LineStream);
  }

  /** A stream is in the result exactly when some line yields it. */
  lemma StreamsOfMember(lines: seq<string>, st: Stream)
    ensures st in StreamsOf(lines) <==> exists k :: 0 <= k < |lines| && LineStream(lines[k]) == Some(st)
  {
    CollectMember(lines, LineStream, st);
  }

  /** Every recorded stream has a non-empty digit index and a two-letter or "unknown" language. */
  lemma StreamsOfWellFormed(lines: seq<string>, st: Stream)
    requires st in StreamsOf(lines)
    ensures |st.index| > 0 && AllDigits(st.index) && IsStreamLang(st.lang)
  {
    StreamsOfMember(lines, st);
    var k :| 0 <= k < |lines| && LineStream(lines[k]) == Some(st);
    LineStreamSpec(lines[k]);
  }

  /** Without a "Subtitle:" line there are no streams. */
  lemma NoMarkerNoStreams(lines: seq<string>)
    requires forall k :: 0 <= k < |lines| ==> !Contains(lines[k], Marker)
    ensures StreamsOf(lines) == []
  {
    CollectNone(lines, LineStream);
  }

  /** ffmpeg output that never mentions "Subtitle:" yields no streams. */
  lemma NoMarkerInText(text: string)
    requires !Contains(text, Marker)
    ensures StreamsOf(SplitLines(text)) == []
  {
    var lines := SplitLines(text);
    forall k | 0 <= k < |lines| ensures !Contains(lines[k], Marker) {
      if Contains(lines[k], Marker) {
        SplitLinesContains(text, Marker, k);
      }
    }
    NoMarkerNoStreams(lines);
  }

  /** For newline-terminated output, the parse sees exactly the printed lines. */
  lemma ParseTerminated(lines: seq<string>)
    requires forall k :: 0 <= k < |lines| ==> NoLineBoundary(lines[k])
    ensures StreamsOf(SplitLines(Terminated(lines))) == StreamsOf(lines)
  {
    SplitTerminated(lines);
  }

  // ------------------------------------------------------ output names

  lemma StreamLangNoSep(lang: string)
    requires IsStreamLang(lang)
    ensures NoSep(lang)
  {
  }

  /** The name starts with the base name and ends in ".srt"; it has no '/' when base and lang have none. */
  lemma OutNameSpec(base: string, lang: string)
    ensures StartsWith(OutName(base, lang), base)
    ensures EndsWith(OutName(base, lang), ".srt")
    ensures NoSep(base) && NoSep(lang) ==> NoSep(OutName(base, lang))
  {
    var name := OutName(base, lang);
    assert name[..|base|] == base;
    assert name[|name| - 4..] == ".srt";
  }

  /** For one base name, two streams get the same file name exactly when they have the same language. */
  lemma OutNameInjective(base: string, lang1: string, lang2: string)
    ensures OutName(base, lang1) == OutName(base, lang2) <==> lang1 == lang2
  {
    if OutName(base, lang1) == OutName(base, lang2) && lang1 != Unknown && lang2 != Unknown {
      var name := OutName(base, lang1);
      assert |lang1| == |lang2|;
      assert lang1 == name[|base| + 1..|name| - 4];
      assert lang2 == name[|base| + 1..|name| - 4];
    }
  }

  /**
   * The extraction run reads the video, selects subtitle stream `0:s:<index>`
   * with the parsed index unchanged, writes to the output path, and always
   * passes "-y".
   */
  lemma ExtractCommandSpec(videoPath: string, outputDir: string, base: string, stream: Stream)
    ensures var cmd := ExtractCommand(videoPath, outputDir, base, stream);
      |cmd| == 7 && cmd[..4] == ["ffmpeg", "-i", videoPath, "-map"] && cmd[6] == "-y" &&
      StartsWith(cmd[4], "0:s:") && cmd[4][4..] == stream.index &&
      cmd[5] == Join(outputDir, OutName(base, stream.lang))
  {
    assert MapSelector(stream.index)[4..] == stream.index;
  }

  /**
   * The output path lies under the output directory, its own file name is
   * OutName (so the file lands directly in that directory), and it ends in ".srt".
   */
  lemma OutputPathSpec(outputDir: string, base: string, lang: string)
    requires NoSep(base) && IsStreamLang(lang)
    ensures var path := Join(outputDir, OutName(base, lang));
      StartsWith(path, outputDir) && BaseName(path) == OutName(base, lang) && EndsWith(path, ".srt")
  {
    var name := OutName(base, lang);
    OutNameSpec(base, lang);
    JoinSpec(outputDir, name);
    EndsWithTrans(Join(outputDir, name), name, ".srt");
  }

  /** Two streams of one video are written to the same path exactly when they share a language. */
  lemma SamePathIffSameLang(videoPath: string, outputDir: string, base: string, s1: Stream, s2: Stream)
    requires NoSep(base) && IsStreamLang(s1.lang) && IsStreamLang(s2.lang)
    ensures ExtractCommand(videoPath, outputDir, base, s1)[5] == ExtractCommand(videoPath, outputDir, base, s2)[5]
            <==> s1.lang == s2.lang
  {
    OutputPathSpec(outputDir, base, s1.lang);
    OutputPathSpec(outputDir, base, s2.lang);
    OutNameInjective(base, s1.lang, s2.lang);
  }

  // ------------------------------------------------------- job fields

  /**
   * An explicit non-empty output directory is used as given; otherwise the
   * output directory is the video's directory part: a prefix of the path,
   * empty exactly when the path has no '/'.
   */
  lemma ResolveOutputDirSpec(videoPath: string, outputDir: Option<string>)
    ensures outputDir.Some? && outputDir.value != [] ==> ResolveOutputDir(videoPath, outputDir) == outputDir.value
    ensures outputDir == None || outputDir == Some([]) ==> ResolveOutputDir(videoPath, outputDir) == DirName(videoPath)
    ensures outputDir == None || outputDir == Some([]) ==>
      var dir := ResolveOutputDir(videoPath, outputDir);
      StartsWith(videoPath, dir) && (dir == [] <==> NoSep(videoPath)) &&
      forall k :: |dir| <= k < |videoPath| - |BaseName(videoPath)| ==> videoPath[k] == Sep
  {
    DirNameSpec(videoPath);
  }

  /**
   * The base name has no '/', and the video's file name is the base name
   * followed by its last extension (empty when the name has none).
   */
  lemma SceneFileNameSpec(videoPath: string)
    ensures NoSep(SceneFileName(videoPath))
    ensures exists ext :: BaseName(videoPath) == SceneFileName(videoPath) + ext &&
                          (ext == [] <==> !HasExtension(BaseName(videoPath))) &&
                          (ext != [] ==> ext[0] == ExtSep && forall k :: 0 < k < |ext| ==> ext[k] != ExtSep)
  {
    var name := BaseName(videoPath);
    SplitExtSpec(name);
    var root := SplitExt(name).0;
    assert name[..|root|] == root;
    assert forall k :: 0 <= k < |root| ==> root[k] == name[k];
  }

  // ------------------------------------------------------------ class

  class SubtitleExtractor {
    var videoPath: string
    var outputDir: string
    var sceneFileName: string

    constructor (videoPath: string, outputDir: Option<string>)
      ensures this.videoPath == videoPath
      ensures this.outputDir == ResolveOutputDir(videoPath, outputDir)
      ensures this.sceneFileName == SceneFileName(videoPath)
    {
      this.videoPath := videoPath;
      if outputDir.Some? && outputDir.value != [] {
        this.outputDir := outputDir.value;
      } else {
        this.outputDir := DirName(videoPath);
      }
      this.sceneFileName := SplitExt(BaseName(videoPath)).0;
    }

    /** `_parse_streams`: scan the lines of ffmpeg's stderr and collect the subtitle streams. */
    method ParseStreams(ffmpegOutput: string) returns (streams: seq<Stream>)
      ensures streams == StreamsOf(SplitLines(ffmpegOutput))
    {
      streams := [];
      var lines := SplitLines(ffmpegOutput);
      for i := 0 to |lines|
        invariant streams == StreamsOf(lines[..i])
      {
        var line := lines[i];
        assert lines[..i + 1][..i] == lines[..i];
        if Contains(line, Marker) {
          var found := SearchStream(line);
          if found.Some? {
            var langMatch := FindLang(line);
            var lang := if langMatch.Some? then langMatch.value else Unknown;
            streams := streams + [Stream(found.value, lang)];
          }
        }
      }
      assert lines[..|lines|] == lines;
    }

    /** `_extract_stream` up to the process run: the argument list for one stream. */
    method ExtractStream(stream: Stream) returns (cmd: seq<string>)
      ensures cmd == ExtractCommand(videoPath, outputDir, sceneFileName, stream)
    {
      var lang := stream.lang;
      var index := stream.index;
      var outName := OutName(sceneFileName, lang);
      var outPath := Join(outputDir, outName);
      cmd := ["ffmpeg", "-i", videoPath, "-map", MapSelector(index), outPath, "-y"];
    }

    /**
     * `extract_subtitles`: the probe's argument list, then one extraction
     * argument list per stream parsed from the probe's stderr, in order.
     */
    method ExtractSubtitles(probeStderr: string) returns (probe: seq<string>, commands: seq<seq<string>>)
      ensures probe == ProbeCommand(videoPath)
      ensures commands == ExtractCommands(videoPath, outputDir, sceneFileName, StreamsOf(SplitLines(probeStderr)))
    {
      probe := ["ffmpeg", "-i", videoPath];
      var streams := ParseStreams(probeStderr);
      commands := [];
      for k := 0 to |streams|
        invariant commands == ExtractCommands(videoPath, outputDir, sceneFileName, streams[..k])
      {
        var cmd := ExtractStream(streams[k]);
        assert streams[..k + 1][..k] == streams[..k];
        commands := commands + [cmd];
      }
      assert streams[..|streams|] == streams;
    }
  }
}
