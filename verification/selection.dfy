/**
 Three small decisions of `tts_gui.py`: which sample recording a voice card
 plays (`find_audio_sample`), which voice is selected when the window opens,
 and when the synthesize button is enabled (`check_text_length`).
 */
module Selection {
  import opened Common
  import opened Strings
  import opened Paths
  import opened Catalogue
  import opened Segmenter

  /** A directory entry as `os.listdir` reports it: a bare name. */
  type FileName = s: string | IsFileName(s) witness ""

  /** The file system as far as the lookup sees it: the entries of the
      directory at a path, in listing order, or `None` when no such
      directory exists. */
  type FileSystem = string -> Option<seq<FileName>>

  /** The sample directories under `AudioResources`, in search order. */
  const SampleRates: seq<string> := ["samples_8k", "samples_16k", "samples_24k"]

  /** The directories searched for samples of an application installed in `appDir`. */
  function SampleDirs(appDir: string): (dirs: seq<string>)
    ensures |dirs| == 3
    ensures forall k :: 0 <= k < 3 ==> StartsWith(dirs[k], appDir) && EndsWith(dirs[k], SampleRates[k])
  {
    SampleNames();
    var res := JoinPath(appDir, "AudioResources");
    SampleDir(appDir, res, SampleRates[0]);
    SampleDir(appDir, res, SampleRates[1]);
    SampleDir(appDir, res, SampleRates[2]);
    [JoinPath(res, SampleRates[0]), JoinPath(res, SampleRates[1]), JoinPath(res, SampleRates[2])]
  }

  /** The directory names joined by `SampleDirs` are bare file names. */
  lemma SampleNames()
    ensures IsFileName("AudioResources")
    ensures forall k :: 0 <= k < |SampleRates| ==> IsFileName(SampleRates[k])
  {
    assert IsFileName("samples_8k") && IsFileName("samples_16k") && IsFileName("samples_24k");
  }

  /** A name joined below a directory of the application stays below it. */
  lemma SampleDir(appDir: string, res: string, name: string)
    requires IsFileName(name) && StartsWith(res, appDir)
    ensures StartsWith(JoinPath(res, name), appDir) && EndsWith(JoinPath(res, name), name)
  {
    var r := JoinPath(res, name);
    assert r[..|appDir|] == r[..|res|][..|appDir|];
  }

  /** A sample of the voice: the name starts with the id (so id "1001" also
      accepts "10011.wav") and ends in ".mp3" or ".wav". */
  predicate IsSample(file: string, voiceId: string)
  {
    StartsWith(file, voiceId) && (EndsWith(file, ".mp3") || EndsWith(file, ".wav"))
  }

  /** The entries of a directory; a missing directory has none. */
  function Listing(fs: FileSystem, dir: string): seq<FileName>
  {
    if fs(dir).Some? then fs(dir).value else []
  }

  /** The test a directory entry must pass. */
  function SampleTest(voiceId: string): FileName -> bool
  {
    f => IsSample(f, voiceId)
  }

  /** The nested loops of `find_audio_sample` over `dirs`: the first sample
      of the first directory that has one, joined to its directory. */
  function FindIn(dirs: seq<string>, voiceId: string, fs: FileSystem): (r: Option<string>)
    ensures r.None? <==> forall d, f :: d in dirs && f in Listing(fs, d) ==> !IsSample(f, voiceId)
    ensures r.Some? ==> exists d, f :: d in dirs && f in Listing(fs, d) && IsSample(f, voiceId) && r.value == JoinPath(d, f)
    decreases |dirs|
  {
    if dirs == [] then None
    else
      var files := Listing(fs, dirs[0]);
      var k := FirstWhere(files, SampleTest(voiceId));
      if k < |files| then
        Some(JoinPath(dirs[0], files[k]))
      else
        var r := FindIn(dirs[1..], voiceId, fs);
        assert forall d :: d in dirs ==> d == dirs[0] || d in dirs[1..];
        r
  }

  /** `find_audio_sample(voice_id)` for the application in `appDir`. */
  function FindAudioSample(voiceId: string, appDir: string, fs: FileSystem): (r: Option<string>)
    ensures r.None? <==> forall k, f :: 0 <= k < 3 && f in Listing(fs, SampleDirs(appDir)[k]) ==> !IsSample(f, voiceId)
    ensures r.Some? ==> exists k, f :: (0 <= k < 3 && f in Listing(fs, SampleDirs(appDir)[k]) && IsSample(f, voiceId)
                                        && r.value == JoinPath(SampleDirs(appDir)[k], f))
  {
    var dirs := SampleDirs(appDir);
    var r := FindIn(dirs, voiceId, fs);
    assert forall d :: d in dirs <==> exists k :: 0 <= k < 3 && dirs[k] == d;
    r
  }

  /** Every (directory, entry) pair in search order: all entries of the first
      directory, then of the second, and so on. */
  function Candidates(dirs: seq<string>, fs: FileSystem): (cs: seq<(string, FileName)>)
    decreases |dirs|
  {
    if dirs == [] then []
    else
      var files := Listing(fs, dirs[0]);
      seq(|files|, i requires 0 <= i < |files| => (dirs[0], files[i])) + Candidates(dirs[1..], fs)
  }

  /** The test on a candidate pair. */
  function CandidateTest(voiceId: string): ((string, FileName)) -> bool
  {
    (c: (string, FileName)) => IsSample(c.1, voiceId)
  }

  /** The first sample among all candidates in search order, joined to its directory. */
  function FirstCandidate(dirs: seq<string>, voiceId: string, fs: FileSystem): Option<string>
  {
    var cs := Candidates(dirs, fs);
    var k := FirstWhere(cs, CandidateTest(voiceId));
    if k < |cs| then Some(JoinPath(cs[k].0, cs[k].1)) else None
  }

  /** The lookup returns the first sample among all candidates in search
      order: a later directory is consulted only when no earlier one has a
      sample, and within a directory the listing order decides. */
  lemma {:induction false} FindIsFirstCandidate(dirs: seq<string>, voiceId: string, fs: FileSystem)
    ensures FindIn(dirs, voiceId, fs) == FirstCandidate(dirs, voiceId, fs)
    decreases |dirs|
  {
    if dirs != [] {
      var files := Listing(fs, dirs[0]);
      if FirstWhere(files, SampleTest(voiceId)) < |files| {
        FoundInFirst(dirs, voiceId, fs);
      } else {
        FindIsFirstCandidate(dirs[1..], voiceId, fs);
        NotInFirst(dirs, voiceId, fs);
      }
    }
  }

  /** The candidates of the first directory come first. */
  lemma CandidatesSplit(dirs: seq<string>, fs: FileSystem)
    requires dirs != []
    ensures var files := Listing(fs, dirs[0]);
      Candidates(dirs, fs) == seq(|files|, i requires 0 <= i < |files| => (dirs[0], files[i])) + Candidates(dirs[1..], fs)
  {
  }

  lemma FoundInFirst(dirs: seq<string>, voiceId: string, fs: FileSystem)
    requires dirs != []
    requires FirstWhere(Listing(fs, dirs[0]), SampleTest(voiceId)) < |Listing(fs, dirs[0])|
    ensures FindIn(dirs, voiceId, fs) == FirstCandidate(dirs, voiceId, fs)
  {
    var files := Listing(fs, dirs[0]);
    var head := seq(|files|, i requires 0 <= i < |files| => (dirs[0], files[i]));
    var rest := Candidates(dirs[1..], fs);
    CandidatesSplit(dirs, fs);
    FirstWhereAppend(head, rest, CandidateTest(voiceId));
    PairsFirstWhere(dirs[0], files, voiceId);
    var k := FirstWhere(files, SampleTest(voiceId));
    assert (head + rest)[k] == (dirs[0], files[k]);
  }

  lemma NotInFirst(dirs: seq<string>, voiceId: string, fs: FileSystem)
    requires dirs != []
    requires FirstWhere(Listing(fs, dirs[0]), SampleTest(voiceId)) == |Listing(fs, dirs[0])|
    requires FindIn(dirs[1..], voiceId, fs) == FirstCandidate(dirs[1..], voiceId, fs)
    ensures FindIn(dirs, voiceId, fs) == FirstCandidate(dirs, voiceId, fs)
  {
    assert FindIn(dirs, voiceId, fs) == FindIn(dirs[1..], voiceId, fs);
    FirstCandidateSkip(dirs, voiceId, fs);
  }

  /** Without a sample in the first directory, the first candidate is in the others. */
  lemma FirstCandidateSkip(dirs: seq<string>, voiceId: string, fs: FileSystem)
    requires dirs != []
    requires FirstWhere(Listing(fs, dirs[0]), SampleTest(voiceId)) == |Listing(fs, dirs[0])|
    ensures FirstCandidate(dirs, voiceId, fs) == FirstCandidate(dirs[1..], voiceId, fs)
  {
    var files := Listing(fs, dirs[0]);
    var head := seq(|files|, i requires 0 <= i < |files| => (dirs[0], files[i]));
    var rest := Candidates(dirs[1..], fs);
    CandidatesSplit(dirs, fs);
    FirstWhereAppend(head, rest, CandidateTest(voiceId));
    PairsFirstWhere(dirs[0], files, voiceId);
    var j := FirstWhere(rest, CandidateTest(voiceId));
    if j < |rest| {
      assert (head + rest)[|head| + j] == rest[j];
    }
  }

  /** Pairing a listing with its directory does not move the first sample. */
  lemma {:induction false} PairsFirstWhere(dir: string, files: seq<FileName>, voiceId: string)
    ensures var head := seq(|files|, i requires 0 <= i < |files| => (dir, files[i]));
      FirstWhere(head, CandidateTest(voiceId)) == FirstWhere(files, SampleTest(voiceId))
    decreases |files|
  {
    var head := seq(|files|, i requires 0 <= i < |files| => (dir, files[i]));
    if files != [] {
      var tail := seq(|files| - 1, i requires 0 <= i < |files| - 1 => (dir, files[1..][i]));
      assert head[1..] == tail;
      PairsFirstWhere(dir, files[1..], voiceId);
    }
  }

  /** The match is by prefix: a sample of a longer id that starts with this
      id is accepted too. */
  lemma PrefixMatchesLongerId(voiceId: string, more: string)
    ensures IsSample(voiceId + more + ".wav", voiceId)
    ensures IsSample(voiceId + more + ".mp3", voiceId)
  {
    var w := voiceId + more + ".wav";
    var m := voiceId + more + ".mp3";
    assert w[..|voiceId|] == voiceId && w[|w| - 4..] == ".wav";
    assert m[..|voiceId|] == voiceId && m[|m| - 4..] == ".mp3";
  }

  // ---------------------------------------------------------------------
  // The voice selected at start-up.

  const PreferredName: string := "WeRose"

  function NamedPreferred(): VoiceInfo -> bool
  {
    (v: VoiceInfo) => v.name == PreferredName
  }

  /** The first voice named "WeRose"; failing that the first voice; `None`
      only for an empty catalogue. */
  function DefaultVoice(voices: seq<VoiceInfo>): (r: Option<VoiceInfo>)
    ensures r.None? <==> voices == []
    ensures r.Some? && r.value.name == PreferredName ==>
      exists i :: 0 <= i < |voices| && voices[i] == r.value && forall j :: 0 <= j < i ==> voices[j].name != PreferredName
    ensures r.Some? && r.value.name != PreferredName ==>
      r.value == voices[0] && forall v :: v in voices ==> v.name != PreferredName
  {
    var k := FirstWhere(voices, NamedPreferred());
    if k < |voices| then Some(voices[k])
    else if voices != [] then Some(voices[0])
    else None
  }

  /** A catalogue that lists "WeRose" always opens with it selected. */
  lemma PreferredWins(voices: seq<VoiceInfo>, v: VoiceInfo)
    requires v in voices && v.name == PreferredName
    ensures DefaultVoice(voices).Some? && DefaultVoice(voices).value.name == PreferredName
  {
  }

  // ---------------------------------------------------------------------
  // The synthesize button.

  /** `check_text_length`: enabled exactly when the text has a character
      that is not white space, which is exactly when the segmenter produces
      at least one segment to synthesize. */
  predicate SynthesizeEnabled(text: string)
  {
    |Strip(text)| > 0
  }

  lemma EnabledIffSegments(text: string)
    ensures SynthesizeEnabled(text) <==> !IsBlank(text)
    ensures SynthesizeEnabled(text) <==> ProcessTextByLines(text) != []
  {
  }
}
