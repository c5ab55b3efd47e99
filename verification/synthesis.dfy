/**
 The control flow of `text_to_speech` in `audio_generator.py` and of the
 command-line entry point around it. The cloud service and ffmpeg are
 oracles: `synthesize` says whether the request for one segment succeeds
 and `merge` whether the ffmpeg command succeeds.
 */
module Synthesis {
  import opened Common
  import opened Strings
  import opened Rows
  import opened Segmenter
  import opened Merge

  /** The default speed and volume of `text_to_speech`, which the command
      line relies on, and the voice of the command line when `-v` is not
      given. */
  const DefaultSpeed: int := 0
  const DefaultVolume: int := 5
  const CliVoiceType: int := 101012

  /** One `TextToVoice` request: the segment, its position (the session id
      is `session-<index>-<hash>`), and the voice settings. Every request
      asks for WAV audio in primary language 1. */
  datatype Request = Request(text: string, index: nat, voiceType: int, volume: int, speed: int)

  /** The settings `text_to_speech` was called with. */
  datatype Settings = Settings(outputFile: string, voiceType: int, speed: int, volume: int)

  /** The request for every segment, in order. */
  function Requests(segments: seq<string>, s: Settings): (reqs: seq<Request>)
    ensures |reqs| == |segments|
    ensures forall i :: 0 <= i < |reqs| ==> reqs[i].text == segments[i] && reqs[i].index == i
  {
    seq(|segments|, i requires 0 <= i < |segments| => Request(segments[i], i, s.voiceType, s.volume, s.speed))
  }

  function Fails(synthesize: Request -> bool): Request -> bool
  {
    r => !synthesize(r)
  }

  /** What `text_to_speech` was given from outside: the credentials
      `LoadCredentials` read from the secret-key file, the fresh temporary
      directory, and the ffmpeg executable. */
  datatype Environment = Environment(credentials: Option<Credentials>, tempDir: string, ffmpeg: string)

  /** What the run did: the requests sent, in order, and the concat-list
      text and command of the merge if it got that far. */
  datatype Trace = Trace(sent: seq<Request>, concatList: Option<string>, command: Option<seq<string>>)

  /** The ffmpeg command of a run. */
  function Command(env: Environment, s: Settings): seq<string>
  {
    MergeCommand(env.ffmpeg, ConcatListPath(env.tempDir), s.outputFile)
  }

  /** The loop over the segments: send the requests in order and stop at the
      first one that fails, which is sent but not followed by any other. */
  method SendAll(reqs: seq<Request>, synthesize: Request -> bool) returns (allOk: bool, sent: seq<Request>)
    ensures allOk <==> forall i :: 0 <= i < |reqs| ==> synthesize(reqs[i])
    ensures var k := FirstWhere(reqs, Fails(synthesize));
      sent == reqs[..if k < |reqs| then k + 1 else k]
  {
    sent := [];
    var i := 0;
    while i < |reqs|
      invariant 0 <= i <= |reqs|
      invariant sent == reqs[..i]
      invariant forall j :: 0 <= j < i ==> synthesize(reqs[j])
    {
      sent := sent + [reqs[i]];
      if !synthesize(reqs[i]) {
        FirstWhereIs(reqs, Fails(synthesize), i);
        return false, sent;
      }
      i := i + 1;
    }
    FirstWhereNone(reqs, Fails(synthesize));
    allOk := true;
  }

  /** When a run over these requests succeeds: usable credentials, at
      least one request, every request answered and the merge successful. */
  predicate SucceedsWith(reqs: seq<Request>, s: Settings, env: Environment,
                         synthesize: Request -> bool, merge: seq<string> -> bool)
  {
    && Usable(env.credentials)
    && reqs != []
    && (forall i :: 0 <= i < |reqs| ==> synthesize(reqs[i]))
    && merge(Command(env, s))
  }

  /** What `text_to_speech` does once the requests are known. */
  method Synthesize(reqs: seq<Request>, s: Settings, env: Environment,
                    synthesize: Request -> bool, merge: seq<string> -> bool)
    returns (ok: bool, trace: Trace)
    ensures ok <==> SucceedsWith(reqs, s, env, synthesize, merge)
    ensures !Usable(env.credentials) ==> trace == Trace([], None, None)
    ensures Usable(env.credentials) ==>
      var k := FirstWhere(reqs, Fails(synthesize));
      && trace.sent == reqs[..if k < |reqs| then k + 1 else k]
      && (trace.command.Some? <==> k == |reqs| && reqs != [])
      && (trace.command.Some? ==> trace.command.value == Command(env, s)
                                  && trace.concatList == Some(ConcatList(TempFiles(env.tempDir, |reqs|))))
      && (trace.command.None? ==> trace.concatList.None?)
  {
    if !Usable(env.credentials) {
      return false, Trace([], None, None);
    }
    var allOk, sent := SendAll(reqs, synthesize);
    if !allOk {
      return false, Trace(sent, None, None);
    }
    if |reqs| > 0 {
      var cmd := Command(env, s);
      ok := merge(cmd);
      trace := Trace(sent, Some(ConcatList(TempFiles(env.tempDir, |reqs|))), Some(cmd));
    } else {
      ok := false;
      trace := Trace(sent, None, None);
    }
  }

  /** When the run on a text succeeds: usable credentials, at least one
      segment, every segment synthesized and the merge successful. */
  predicate Succeeds(text: string, s: Settings, env: Environment,
                     synthesize: Request -> bool, merge: seq<string> -> bool)
  {
    SucceedsWith(Requests(ProcessTextByLines(text), s), s, env, synthesize, merge)
  }

  /** `text_to_speech(text, output_file, voice_type, speed, volume)`: one
      request per segment of the text. */
  method TextToSpeech(text: string, s: Settings, env: Environment,
                      synthesize: Request -> bool, merge: seq<string> -> bool)
    returns (ok: bool, trace: Trace)
    ensures ok <==> Succeeds(text, s, env, synthesize, merge)
    ensures !Usable(env.credentials) ==> trace == Trace([], None, None)
    ensures Usable(env.credentials) ==>
      var reqs := Requests(ProcessTextByLines(text), s);
      var k := FirstWhere(reqs, Fails(synthesize));
      && trace.sent == reqs[..if k < |reqs| then k + 1 else k]
      && (trace.command.Some? <==> k == |reqs| && reqs != [])
  {
    var reqs := Requests(ProcessTextByLines(text), s);
    ok, trace := Synthesize(reqs, s, env, synthesize, merge);
  }

  /** A blank text never succeeds, whatever the service and ffmpeg do, and
      sends no request. */
  lemma BlankTextFails(text: string, s: Settings, env: Environment,
                       synthesize: Request -> bool, merge: seq<string> -> bool)
    requires IsBlank(text)
    ensures !Succeeds(text, s, env, synthesize, merge)
  {
  }

  // ---------------------------------------------------------------------
  // The command line.

  /** What the program does: the exit status, and the call to
      `text_to_speech` it makes, if any (text and settings). */
  datatype CliResult = CliResult(exitCode: int, call: Option<(string, Settings)>)

  /** The command-line run for `-f inputPath`, optional `-o output` and
      optional `-v voice`. `found` is whether the input file exists;
      `content` is its text, or `None` when reading it fails (the error is
      printed and the program ends normally). */
  function CliMain(inputPath: string, output: Option<string>, voice: Option<int>,
                   found: bool, content: Option<string>): (r: CliResult)
    ensures r.exitCode == 1 <==> !found || (content.Some? && IsBlank(content.value))
    ensures r.exitCode != 1 ==> r.exitCode == 0
    ensures r.call.Some? <==> found && content.Some? && !IsBlank(content.value)
    ensures r.call.Some? ==> r.call.value.1.outputFile == ResolveOutputPath(output, inputPath)
    ensures r.call.Some? ==> r.call.value.1.voiceType == (if voice.Some? then voice.value else CliVoiceType)
    ensures r.call.Some? ==> r.call.value.1.speed == DefaultSpeed && r.call.value.1.volume == DefaultVolume
    ensures r.call.Some? ==> r.call.value.0 == Strip(content.value)
    ensures r.call.Some? ==> ProcessTextByLines(r.call.value.0) == ProcessTextByLines(content.value)
  {
    if !found then CliResult(1, None)
    else if content.None? then CliResult(0, None)
    else
      var text := Strip(content.value);
      if text == "" then CliResult(1, None)
      else
        ProcessTextByLinesAfterStrip(content.value);
        var voiceType := if voice.Some? then voice.value else CliVoiceType;
        CliResult(0, Some((text, Settings(ResolveOutputPath(output, inputPath), voiceType, DefaultSpeed, DefaultVolume))))
  }
}
