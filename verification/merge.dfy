/**
 How `text_to_speech` prepares the ffmpeg merge: one temporary file
 `segment_<i>.wav` per segment, a concat list naming them in order, the
 encoder flags chosen from the output file's extension, and the command
 line. Running ffmpeg is not part of the model; the command and the list
 text are, together with the way ffmpeg reads a file name back from a list
 line.
 */
module Merge {
  import opened Common
  import opened Strings
  import opened Paths

  /** The encoders the merge can ask ffmpeg for; `Copy` keeps the WAV data. */
  datatype Codec = Mp3 | Aac | Vorbis | Flac | Copy

  /** The lower-case extensions that select an encoder. */
  const KnownExtensions: set<string> := {".mp3", ".aac", ".m4a", ".ogg", ".flac"}

  /** The encoder for an (already lower-cased) extension. */
  function CodecOf(ext: string): (c: Codec)
    ensures c == Copy <==> ext !in KnownExtensions
    ensures c == Mp3 <==> ext == ".mp3"
    ensures c == Aac <==> ext == ".aac" || ext == ".m4a"
    ensures c == Vorbis <==> ext == ".ogg"
    ensures c == Flac <==> ext == ".flac"
  {
    if ext == ".mp3" then Mp3
    else if ext == ".aac" || ext == ".m4a" then Aac
    else if ext == ".ogg" then Vorbis
    else if ext == ".flac" then Flac
    else Copy
  }

  /** The ffmpeg arguments for each encoder. */
  function Flags(c: Codec): (flags: seq<string>)
    ensures |flags| >= 2
    ensures c == Copy <==> flags == ["-c", "copy"]
    ensures c != Copy ==> flags[0] == "-c:a"
    ensures c == Mp3 ==> flags[1] == "libmp3lame"
    ensures c == Aac ==> flags[1] == "aac"
    ensures c == Vorbis ==> flags[1] == "libvorbis"
    ensures c == Flac ==> flags[1] == "flac"
  {
    match c
    case Mp3 => ["-c:a", "libmp3lame", "-q:a", "2"]
    case Aac => ["-c:a", "aac", "-b:a", "192k"]
    case Vorbis => ["-c:a", "libvorbis", "-q:a", "4"]
    case Flac => ["-c:a", "flac"]
    case Copy => ["-c", "copy"]
  }

  /** Reads the encoder back from its flags; the inverse of `Flags`. */
  function CodecOfFlags(flags: seq<string>): (c: Option<Codec>)
    ensures c.Some? ==> Flags(c.value) == flags
  {
    if flags == Flags(Mp3) then Some(Mp3)
    else if flags == Flags(Aac) then Some(Aac)
    else if flags == Flags(Vorbis) then Some(Vorbis)
    else if flags == Flags(Flac) then Some(Flac)
    else if flags == Flags(Copy) then Some(Copy)
    else None
  }

  /** Every encoder has its own flags, so the flags identify it. */
  lemma FlagsRoundTrip(c: Codec)
    ensures CodecOfFlags(Flags(c)) == Some(c)
  {
  }

  /** The encoder used for an output file: chosen by its extension, lower-cased. */
  function OutputCodec(outputFile: string): Codec
  {
    CodecOf(Lower(SplitExt(outputFile).ext))
  }

  /** The fixed start of the command: read the concat list `listPath`. */
  function CommandHead(ffmpeg: string, listPath: string): seq<string>
  {
    [ffmpeg, "-f", "concat", "-safe", "0", "-i", listPath]
  }

  /** The merge command line. */
  function MergeCommand(ffmpeg: string, listPath: string, outputFile: string): (cmd: seq<string>)
    ensures |cmd| > 7
    ensures cmd[..7] == CommandHead(ffmpeg, listPath)
    ensures cmd[|cmd| - 1] == outputFile
  {
    var head := CommandHead(ffmpeg, listPath);
    var flags := Flags(OutputCodec(outputFile));
    CommandShape(head, flags, outputFile);
    head + flags + [outputFile]
  }

  /** The head, the flags and the output file keep their places in the command. */
  lemma CommandShape(head: seq<string>, flags: seq<string>, outputFile: string)
    requires |head| == 7
    ensures |head + flags + [outputFile]| > 7
    ensures (head + flags + [outputFile])[..7] == head
    ensures (head + flags + [outputFile])[|head + flags + [outputFile]| - 1] == outputFile
  {
  }

  /** What a merge command asks for. */
  datatype MergeRequest = MergeRequest(listPath: string, codec: Codec, outputFile: string)

  /** Reads a command line back: the list it reads, the encoder, the output. */
  function ParseCommand(cmd: seq<string>): (r: Option<MergeRequest>)
    ensures r.Some? ==> |cmd| > 7 && cmd[7..|cmd| - 1] == Flags(r.value.codec)
  {
    if |cmd| > 7 && cmd[1..6] == ["-f", "concat", "-safe", "0", "-i"] then
      match CodecOfFlags(cmd[7..|cmd| - 1])
      case Some(c) => Some(MergeRequest(cmd[6], c, cmd[|cmd| - 1]))
      case None => None
    else None
  }

  /** The command reads the given list, encodes by the output's extension
      and writes the given output. */
  lemma ParseMergeCommand(ffmpeg: string, listPath: string, outputFile: string)
    ensures ParseCommand(MergeCommand(ffmpeg, listPath, outputFile))
      == Some(MergeRequest(listPath, OutputCodec(outputFile), outputFile))
  {
    var c := OutputCodec(outputFile);
    assert MergeCommand(ffmpeg, listPath, outputFile) == CommandHead(ffmpeg, listPath) + Flags(c) + [outputFile];
    ParseCommandOf(ffmpeg, listPath, c, outputFile);
  }

  lemma ParseCommandOf(ffmpeg: string, listPath: string, c: Codec, outputFile: string)
    ensures ParseCommand(CommandHead(ffmpeg, listPath) + Flags(c) + [outputFile])
      == Some(MergeRequest(listPath, c, outputFile))
  {
    var cmd := CommandHead(ffmpeg, listPath) + Flags(c) + [outputFile];
    assert cmd[1..6] == ["-f", "concat", "-safe", "0", "-i"];
    assert cmd[6] == listPath;
    assert cmd[7..|cmd| - 1] == Flags(c);
    FlagsRoundTrip(c);
  }

  /** The encoder does not depend on the case of the output path: ".MP3"
      and ".mp3" select the same encoder. */
  lemma CodecIgnoresCase(outputFile: string)
    ensures OutputCodec(Lower(outputFile)) == OutputCodec(outputFile)
  {
    SplitExtLower(outputFile);
    LowerIdempotent(SplitExt(outputFile).ext);
  }

  /** The encoder is chosen by the lower-cased extension of the last
      component: "<stem>.MP3" is encoded with libmp3lame, like "<stem>.mp3". */
  lemma OutputCodecOfUpperCase(stem: string)
    requires HasNonDot(BaseName(stem))
    ensures OutputCodec(stem + ".MP3") == Mp3
  {
    UpperMp3IsExtension();
    SplitExtAppend(stem, ".MP3");
    LowerMp3();
  }

  lemma UpperMp3IsExtension()
    ensures ".MP3" != [] && IsExtension(".MP3")
  {
    var e := ".MP3";
    assert e[0] == '.' && e[1] == 'M' && e[2] == 'P' && e[3] == '3';
  }

  lemma LowerMp3()
    ensures Lower(".MP3") == ".mp3"
  {
    var l := Lower(".MP3");
    assert l[0] == '.' && l[1] == 'm' && l[2] == 'p' && l[3] == '3';
  }

  // ---------------------------------------------------------------------
  // Temporary files and the concat list.

  /** The name of the temporary file of segment `i`. */
  function TempFileName(i: nat): (name: string)
    ensures IsFileName(name)
    ensures StartsWith(name, "segment_") && EndsWith(name, ".wav")
  {
    var digits := NatToString(i);
    assert forall k :: 0 <= k < |digits| ==> IsDigit(digits[k]);
    "segment_" + digits + ".wav"
  }

  /** Different segments never share a temporary file. */
  lemma TempFileNameInjective(i: nat, j: nat)
    requires TempFileName(i) == TempFileName(j)
    ensures i == j
  {
    var a, b := NatToString(i), NatToString(j);
    assert |a| == |b|;
    assert a == TempFileName(i)[8..8 + |a|];
    assert b == TempFileName(j)[8..8 + |b|];
    NatToStringInjective(i, j);
  }

  /** The temporary file of segment `i` inside `tempDir`. */
  function TempFile(tempDir: string, i: nat): (path: string)
    ensures StartsWith(path, tempDir) && EndsWith(path, TempFileName(i))
  {
    JoinPath(tempDir, TempFileName(i))
  }

  /** The temporary files of `n` segments, in segment order. */
  function TempFiles(tempDir: string, n: nat): (paths: seq<string>)
    ensures |paths| == n
    ensures forall i :: 0 <= i < n ==> paths[i] == TempFile(tempDir, i)
  {
    seq(n, i requires 0 <= i => TempFile(tempDir, i))
  }

  /** The temporary files are pairwise distinct. */
  lemma TempFilesDistinct(tempDir: string, n: nat, i: nat, j: nat)
    requires i < n && j < n && i != j
    ensures TempFiles(tempDir, n)[i] != TempFiles(tempDir, n)[j]
  {
    if TempFile(tempDir, i) == TempFile(tempDir, j) {
      JoinPathInjective(tempDir, TempFileName(i), TempFileName(j));
      TempFileNameInjective(i, j);
    }
  }

  /** The path of the concat list inside `tempDir`. */
  function ConcatListPath(tempDir: string): string
  {
    assert IsFileName("concat_list.txt");
    JoinPath(tempDir, "concat_list.txt")
  }

  /** One line of the concat list. */
  function ConcatEntry(path: string): (line: string)
    ensures StartsWith(line, "file '") && EndsWith(line, "'")
    ensures |line| == |path| + 7
  {
    "file '" + path + "'"
  }

  /** The characters that end an unquoted word in a concat list. */
  predicate IsListSpace(c: char)
  {
    c == ' ' || c == '\t' || c == '\r' || c == '\n'
  }

  /** How ffmpeg reads the file name of a concat-list line (its tokenizer
      with whitespace as terminator): outside quotes a backslash takes the
      next character literally, a quote opens a span read verbatim up to
      the next quote, and unquoted whitespace ends the name. */
  function Token(s: string): string
    decreases |s|
  {
    if s == [] || IsListSpace(s[0]) then []
    else if s[0] == '\\' && |s| >= 2 then [s[1]] + Token(s[2..])
    else if s[0] == '\'' then Quoted(s[1..])
    else [s[0]] + Token(s[1..])
  }

  /** The rest of a quoted span: everything up to the closing quote. */
  function Quoted(s: string): string
    decreases |s|
  {
    if s == [] then []
    else if s[0] == '\'' then Token(s[1..])
    else [s[0]] + Quoted(s[1..])
  }

  function DropListSpace(s: string): (r: string)
    ensures |r| <= |s| && r == s[|s| - |r|..]
    ensures r != [] ==> !IsListSpace(r[0])
    decreases |s|
  {
    if s != [] && IsListSpace(s[0]) then DropListSpace(s[1..]) else s
  }

  /** ffmpeg's reading of a concat-list line: the `file` directive, then
      whitespace, then the file name. */
  function ReadEntry(line: string): Option<string>
  {
    if |line| > 4 && line[..4] == "file" && IsListSpace(line[4]) then
      Some(Token(DropListSpace(line[4..])))
    else None
  }

  /** A quoted span without a quote in it is read back verbatim. */
  lemma {:induction false} QuotedVerbatim(path: string, rest: string)
    requires '\'' !in path
    ensures Quoted(path + "'" + rest) == path + Token(rest)
    decreases |path|
  {
    if path == [] {
      assert ([] + "'" + rest)[1..] == rest;
    } else {
      assert (path + "'" + rest)[1..] == path[1..] + "'" + rest;
      QuotedVerbatim(path[1..], rest);
      assert [path[0]] + (path[1..] + Token(rest)) == path + Token(rest);
    }
  }

  /** Plain characters are read as they stand. */
  lemma {:induction false} TokenPlain(b: string, rest: string)
    requires forall k :: 0 <= k < |b| ==> IsPlain(b[k])
    ensures Token(b + rest) == b + Token(rest)
    decreases |b|
  {
    if b == [] {
      assert b + rest == rest;
    } else {
      assert IsPlain(b[0]) && (b + rest)[0] == b[0];
      assert (b + rest)[1..] == b[1..] + rest;
      TokenPlain(b[1..], rest);
      assert [b[0]] + (b[1..] + Token(rest)) == b + Token(rest);
    }
  }

  /** Neither a quote, a backslash nor whitespace. */
  predicate IsPlain(c: char)
  {
    c != '\'' && c != '\\' && !IsListSpace(c)
  }

  /** The entry line read as far as its quoted name. */
  lemma EntryName(path: string)
    ensures ReadEntry(ConcatEntry(path)) == Some(Quoted(path + "'"))
  {
    var q := "'" + (path + "'");
    EntryShape(path);
    ReadFileLine(" " + q);
    OpenQuote(path + "'");
  }

  lemma EntryShape(path: string)
    ensures ConcatEntry(path) == "file" + (" " + ("'" + (path + "'")))
  {
    assert "file '" == "file" + " " + "'";
    Regroup("file", " ", "'", path, "'");
  }

  /** A name that starts with a quote is read from inside the quotes. */
  lemma OpenQuote(x: string)
    ensures DropListSpace((" " + ("'" + x))[1..]) == "'" + x
    ensures Token("'" + x) == Quoted(x)
  {
    var q := "'" + x;
    assert (" " + q)[1..] == q && q[0] == '\'' && q[1..] == x;
  }

  /** A line of the `file` directive followed by whitespace. */
  lemma ReadFileLine(tail: string)
    requires tail != [] && IsListSpace(tail[0])
    ensures ReadEntry("file" + tail) == Some(Token(DropListSpace(tail[1..])))
  {
    FileKeyword("file", tail);
    SkipFirstSpace(tail);
  }

  /** A line that starts with a four-letter word splits back into that word and the rest. */
  lemma FileKeyword(word: string, tail: string)
    requires |word| == 4 && tail != []
    ensures |word + tail| > 4 && (word + tail)[..4] == word
    ensures (word + tail)[4..] == tail && (word + tail)[4] == tail[0]
  {
  }

  lemma SkipFirstSpace(tail: string)
    requires tail != [] && IsListSpace(tail[0])
    ensures DropListSpace(tail) == DropListSpace(tail[1..])
  {
  }

  lemma Regroup(a: string, b: string, c: string, d: string, e: string)
    ensures a + b + c + d + e == a + (b + (c + (d + e)))
  {
  }

  /** ffmpeg reads the entry of a path without a quote as that path. */
  lemma EntryRoundTrip(path: string)
    requires '\'' !in path
    ensures ReadEntry(ConcatEntry(path)) == Some(path)
  {
    EntryName(path);
    QuotedVerbatim(path, "");
    assert path + "'" + "" == path + "'";
    assert Token("") == [] && path + [] == path;
  }

  /** The entry is written without escaping, so a quote inside the path
      ends the quoted span early and ffmpeg reads another path: the quote
      is lost, so `a'b` is read as `ab`. */
  lemma QuotedPathMisread(a: string, b: string)
    requires '\'' !in a
    requires forall k :: 0 <= k < |b| ==> IsPlain(b[k])
    ensures ReadEntry(ConcatEntry(a + "'" + b)) == Some(a + b)
    ensures a + b != a + "'" + b
  {
    EntryName(a + "'" + b);
    assert a + "'" + b + "'" == a + "'" + (b + "'");
    QuotedVerbatim(a, b + "'");
    TokenPlain(b, "'");
    assert "'"[0] == '\'' && "'"[1..] == [];
    assert Token("'") == Quoted([]) == [];
    assert a + (b + []) == a + b;
    assert |a + b| != |a + "'" + b|;
  }

  /** Whatever follows a quote in the path, the name ffmpeg reads from the
      entry is shorter than the path, so no path with a quote in it is read
      back as itself. */
  lemma QuotedPathNotReadBack(path: string)
    requires '\'' in path
    ensures ReadEntry(ConcatEntry(path)) != Some(path)
  {
    EntryName(path);
    QuotedShortens(path);
  }

  /** Reading a quoted span that holds a quote and then ends in the closing
      quote yields fewer characters than the span held. */
  lemma {:induction false} QuotedShortens(s: string)
    requires '\'' in s
    ensures |Quoted(s + "'")| < |s|
    decreases |s|
  {
    assert (s + "'")[0] == s[0] && (s + "'")[1..] == s[1..] + "'";
    if s[0] == '\'' {
      TokenQuoteShorter(s[1..]);
    } else {
      assert '\'' in s[1..];
      QuotedShortens(s[1..]);
    }
  }

  /** An unquoted name that runs into a quote keeps at most the characters
      before that quote. */
  lemma {:induction false} TokenQuoteShorter(s: string)
    ensures |Token(s + "'")| <= |s|
    decreases |s|, 1
  {
    var t := s + "'";
    if s == [] {
      assert t[1..] == [];
      assert Token(t) == Quoted([]);
    } else {
      assert t[0] == s[0] && t[1..] == s[1..] + "'";
      if IsListSpace(s[0]) {
      } else if s[0] == '\\' {
        if |s| >= 2 {
          assert t[2..] == s[2..] + "'";
          TokenQuoteShorter(s[2..]);
        } else {
          assert t[2..] == [];
        }
      } else if s[0] == '\'' {
        QuotedQuoteShorter(s[1..]);
      } else {
        TokenQuoteShorter(s[1..]);
      }
    }
  }

  /** A quoted span closed by a final quote keeps at most the characters
      before that quote. */
  lemma {:induction false} QuotedQuoteShorter(s: string)
    ensures |Quoted(s + "'")| <= |s|
    decreases |s|, 0
  {
    var t := s + "'";
    if s == [] {
      assert t[0] == '\'' && t[1..] == [];
    } else {
      assert t[0] == s[0] && t[1..] == s[1..] + "'";
      if s[0] == '\'' {
        TokenQuoteShorter(s[1..]);
      } else {
        QuotedQuoteShorter(s[1..]);
      }
    }
  }

  /** The text written to the concat list: one line per file, each ended by "\n". */
  function ConcatList(paths: seq<string>): (text: string)
    ensures paths == [] ==> text == ""
  {
    if paths == [] then "" else ConcatEntry(paths[0]) + "\n" + ConcatList(paths[1..])
  }

  /** The lines of the concat list are the entries of the files, in order,
      followed by the empty piece after the final line break. */
  lemma {:induction false} ConcatListLines(paths: seq<string>)
    requires forall i :: 0 <= i < |paths| ==> '\n' !in paths[i]
    ensures |Split(ConcatList(paths), '\n')| == |paths| + 1
    ensures forall i :: 0 <= i < |paths| ==> Split(ConcatList(paths), '\n')[i] == ConcatEntry(paths[i])
    ensures Split(ConcatList(paths), '\n')[|paths|] == ""
    decreases |paths|
  {
    if paths == [] {
      SplitNoSeparator("", '\n');
    } else {
      var e := ConcatEntry(paths[0]);
      assert '\n' !in e by {
        assert forall k :: 0 <= k < |e| ==> e[k] == '\'' || e[k] in "file '" || e[k] in paths[0];
      }
      ConcatListLines(paths[1..]);
      assert ConcatList(paths) == e + ['\n'] + ConcatList(paths[1..]);
      SplitConcat(e, '\n', ConcatList(paths[1..]));
    }
  }

  /** Reading the concat list back line by line gives the files in order. */
  lemma ConcatListRoundTrip(paths: seq<string>, i: nat)
    requires forall k :: 0 <= k < |paths| ==> '\n' !in paths[k] && '\'' !in paths[k]
    requires i < |paths|
    ensures i < |Split(ConcatList(paths), '\n')|
    ensures ReadEntry(Split(ConcatList(paths), '\n')[i]) == Some(paths[i])
  {
    ConcatListLines(paths);
    EntryRoundTrip(paths[i]);
  }

  // ---------------------------------------------------------------------
  // The default output file.

  /** The output used when `-o` is not given: the input path with its
      extension replaced by ".wav". */
  function DefaultOutputPath(inputPath: string): (out: string)
    ensures |out| >= 4 && EndsWith(out, ".wav")
    ensures StartsWith(inputPath, out[..|out| - 4])
    ensures out[..|out| - 4] + SplitExt(inputPath).ext == inputPath
  {
    SplitExt(inputPath).root + ".wav"
  }

  /** An explicit non-empty `-o` value wins; otherwise the default. */
  function ResolveOutputPath(output: Option<string>, inputPath: string): (out: string)
    ensures output.Some? && output.value != "" ==> out == output.value
    ensures output.None? || output.value == "" ==> out == DefaultOutputPath(inputPath)
  {
    if output.Some? && output.value != "" then output.value else DefaultOutputPath(inputPath)
  }

  /** The default output has the extension ".wav", unless the input's name is
      nothing but dots, when it has none; either way the merge copies the
      WAV data without re-encoding. */
  lemma DefaultOutputCopies(inputPath: string)
    ensures SplitExt(DefaultOutputPath(inputPath)).ext in {".wav", ""}
    ensures HasNonDot(BaseName(SplitExt(inputPath).root)) ==> SplitExt(DefaultOutputPath(inputPath)).ext == ".wav"
    ensures OutputCodec(DefaultOutputPath(inputPath)) == Copy
  {
    var root := SplitExt(inputPath).root;
    var out := DefaultOutputPath(inputPath);
    assert out == root + ".wav";
    WavIsExtension();
    SplitExtAppend(root, ".wav");
    WavIsCopied();
    if HasNonDot(BaseName(root)) {
      assert SplitExt(out).ext == ".wav";
    } else {
      assert SplitExt(out).ext == "";
    }
  }

  /** ".wav" is a dot followed by neither dots nor separators. */
  lemma WavIsExtension()
    ensures ".wav" != [] && IsExtension(".wav")
  {
    var w := ".wav";
    assert w[0] == '.' && w[1] == 'w' && w[2] == 'a' && w[3] == 'v';
  }

  /** Neither ".wav" nor an empty extension selects an encoder. */
  lemma WavIsCopied()
    ensures CodecOf(Lower(".wav")) == Copy
    ensures CodecOf(Lower("")) == Copy
  {
    var w := Lower(".wav");
    assert w[0] == '.' && w[1] == 'w' && w[2] == 'a' && w[3] == 'v';
    assert w == ".wav";
    assert Lower("") == "";
  }
}
