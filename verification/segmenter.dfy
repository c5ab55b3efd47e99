/**
 The text segmenter of `audio_generator.py` (`process_text_by_lines`): the
 text is stripped and split into lines, every line is stripped, blank lines
 are dropped, and consecutive lines are packed greedily, joined by "\n",
 into segments of at most `MaxLength` characters. A single line that is
 longer than the limit is never cut; it becomes a segment of its own.

 `Pack` follows the source loop step by step. The ghost function
 `PackGroups` runs the same loop on the kept lines, building lists of lines
 instead of joined strings; the lemmas below show the two agree and that the result is the
 unique greedy segmentation (`IsGreedySegmentation`) of the kept lines.
 */
module Segmenter {
  import opened Common
  import opened Strings

  /** The segment length the packer aims for (`max_length`). */
  const MaxLength: nat := 150

  /** Python's `s.split('\n')`. */
  function Lines(s: string): seq<string>
  {
    Split(s, '\n')
  }

  /** Python's `"\n".join(xs)`. */
  function JoinLines(xs: seq<string>): string
  {
    Join(xs, "\n")
  }

  /** A line that can end up in a segment: not empty, no line break. */
  predicate IsCleanLine(l: string)
  {
    l != "" && '\n' !in l
  }

  /** The lines that survive the loop's `strip` and blank-line test, in order. */
  function KeptLines(lines: seq<string>): (r: seq<string>)
    ensures forall i :: 0 <= i < |r| ==> r[i] != ""
  {
    if lines == [] then []
    else
      var l := Strip(lines[0]);
      (if l == "" then [] else [l]) + KeptLines(lines[1..])
  }

  /** The stripped, non-blank lines of `text`, in input order. */
  function CleanLines(text: string): (r: seq<string>)
    ensures forall i :: 0 <= i < |r| ==> IsCleanLine(r[i])
  {
    var lines := Lines(Strip(text));
    KeptLinesAreClean(lines);
    KeptLines(lines)
  }

  lemma {:induction false} KeptLinesAreClean(lines: seq<string>)
    requires forall i :: 0 <= i < |lines| ==> '\n' !in lines[i]
    ensures forall i :: 0 <= i < |KeptLines(lines)| ==> IsCleanLine(KeptLines(lines)[i])
    decreases |lines|
  {
    if lines != [] {
      KeptLinesAreClean(lines[1..]);
      var l := Strip(lines[0]);
      StripKeepsOut(lines[0], '\n');
      assert KeptLines(lines) == (if l == "" then [] else [l]) + KeptLines(lines[1..]);
    }
  }

  /** The loop of `process_text_by_lines`, one input line per step, with
      the finished `segments` and the `current` segment being built. */
  function Pack(lines: seq<string>, segments: seq<string>, current: string): (r: seq<string>)
    ensures segments <= r
    ensures forall k :: |segments| <= k < |r| ==> r[k] != ""
    ensures current != "" ==> |segments| < |r| && StartsWith(r[|segments|], current)
    decreases |lines|
  {
    if lines == [] then
      if current != "" then segments + [current] else segments
    else
      var line := Strip(lines[0]);
      if line == "" then
        Pack(lines[1..], segments, current)
      else if |current| + |line| + 1 > MaxLength then
        var done := if current != "" then segments + [current] else segments;
        var r := Pack(lines[1..], done, line);
        PackClose(segments, current, done, r);
        r
      else
        var next := if current != "" then current + "\n" + line else line;
        var r := Pack(lines[1..], segments, next);
        PackExtend(current, line, next, r[|segments|]);
        r
  }

  /** Closing the current segment keeps it as the next finished one. */
  lemma PackClose(segments: seq<string>, current: string, done: seq<string>, r: seq<string>)
    requires done == if current != "" then segments + [current] else segments
    requires done <= r && forall k :: |done| <= k < |r| ==> r[k] != ""
    ensures segments <= r && forall k :: |segments| <= k < |r| ==> r[k] != ""
    ensures current != "" ==> |segments| < |r| && StartsWith(r[|segments|], current)
  {
    if current != "" {
      assert r[|segments|] == done[|segments|] == current;
    }
  }

  /** Adding a line to the current segment keeps the segment as a prefix. */
  lemma PackExtend(current: string, line: string, next: string, s: string)
    requires next == if current != "" then current + "\n" + line else line
    requires StartsWith(s, next)
    ensures StartsWith(s, current)
  {
    if current != "" {
      assert s[..|current|] == next[..|current|] == current;
    }
  }

  /** `process_text_by_lines(text)`: the segments, each of which is sent
      as one synthesis request; there are none exactly when the text is
      blank. */
  function ProcessTextByLines(text: string): (segments: seq<string>)
    ensures segments == [] <==> IsBlank(text)
  {
    var r := Pack(Lines(Strip(text)), [], "");
    PackIsGreedy(text);
    CleanLinesEmpty(text);
    FlattenSegmentLinesEmpty(r);
    r
  }

  /** The segments are exactly the greedy segmentation of the stripped
      non-blank lines of the text. */
  lemma ProcessTextByLinesIsGreedy(text: string)
    ensures IsGreedySegmentation(CleanLines(text), ProcessTextByLines(text))
  {
    PackIsGreedy(text);
  }

  /** Stripping a text first changes none of its segments. */
  lemma ProcessTextByLinesAfterStrip(s: string)
    ensures ProcessTextByLines(Strip(s)) == ProcessTextByLines(s)
  {
    StripIdempotent(s);
  }

  // ---------------------------------------------------------------------
  // The independent description of a correct segmentation.

  /** The lines of each segment. */
  function SegmentLines(segments: seq<string>): (r: seq<seq<string>>)
    ensures |r| == |segments|
    ensures forall i :: 0 <= i < |r| ==> r[i] == Lines(segments[i])
  {
    seq(|segments|, i requires 0 <= i < |segments| => Lines(segments[i]))
  }

  /** `segments` packs `lines` greedily: read line by line they give back
      `lines` (nothing lost, duplicated, reordered or cut), no segment is
      empty, a segment of two or more lines fits in `MaxLength`, and each
      segment after the first starts only because its first line would not
      have fitted after the previous segment. */
  ghost predicate IsGreedySegmentation(lines: seq<string>, segments: seq<string>)
  {
    && Flatten(SegmentLines(segments)) == lines
    && (forall i :: 0 <= i < |segments| ==> segments[i] != "")
    && (forall i :: 0 <= i < |segments| ==> '\n' in segments[i] ==> |segments[i]| <= MaxLength)
    && (forall i, j :: 0 <= i && j == i + 1 < |segments| ==>
          |segments[i]| + 1 + |Lines(segments[j])[0]| > MaxLength)
  }

  /** There is only one greedy segmentation of a list of clean lines, so
      `IsGreedySegmentation` pins down the output of the segmenter. */
  lemma GreedySegmentationIsUnique(lines: seq<string>, s1: seq<string>, s2: seq<string>)
    requires forall i :: 0 <= i < |lines| ==> IsCleanLine(lines[i])
    requires IsGreedySegmentation(lines, s1)
    requires IsGreedySegmentation(lines, s2)
    ensures s1 == s2
  {
    var g1 := SegmentLines(s1);
    var g2 := SegmentLines(s2);
    SegmentationGroups(lines, s1);
    SegmentationGroups(lines, s2);
    GreedyGroupsUnique(lines, g1, g2);
    assert forall i :: 0 <= i < |s1| ==> s1[i] == JoinLines(g1[i]) == JoinLines(g2[i]) == s2[i];
  }

  /** A segment longer than the limit is exactly one kept input line. */
  lemma LongSegmentIsOneLine(text: string, i: nat)
    requires i < |ProcessTextByLines(text)|
    requires |ProcessTextByLines(text)[i]| > MaxLength
    ensures '\n' !in ProcessTextByLines(text)[i]
    ensures ProcessTextByLines(text)[i] in CleanLines(text)
  {
    var r := ProcessTextByLines(text);
    ProcessTextByLinesIsGreedy(text);
    SplitNoSeparator(r[i], '\n');
    FlattenMember(SegmentLines(r), i, 0);
  }

  /** Every line of every segment is one of the kept lines, so no segment
      holds an empty or blank line. */
  lemma SegmentLinesAreKept(text: string, i: nat, j: nat)
    requires i < |ProcessTextByLines(text)|
    requires j < |Lines(ProcessTextByLines(text)[i])|
    ensures Lines(ProcessTextByLines(text)[i])[j] in CleanLines(text)
    ensures Lines(ProcessTextByLines(text)[i])[j] != ""
  {
    var r := ProcessTextByLines(text);
    ProcessTextByLinesIsGreedy(text);
    FlattenMember(SegmentLines(r), i, j);
  }

  /** Rejoining the segments with "\n" gives the kept lines joined with "\n". */
  lemma SegmentsRejoin(text: string)
    ensures JoinLines(ProcessTextByLines(text)) == JoinLines(CleanLines(text))
  {
    var g := PackGroups(CleanLines(text), [], []);
    PackIsGreedy(text);
    JoinFlatten(g);
  }

  /** Two lines that do not fit together become two segments (for example
      two lines of 100 characters). */
  lemma TwoLongLinesTwoSegments(a: string, b: string)
    requires IsCleanLine(a) && Strip(a) == a
    requires IsCleanLine(b) && Strip(b) == b
    requires |a| + 1 + |b| > MaxLength
    ensures ProcessTextByLines(a + "\n" + b) == [a, b]
  {
    var text := a + "\n" + b;
    TwoLinesClean(a, b);
    TwoSingleLineSegments(a, b);
    ProcessTextByLinesIsGreedy(text);
    GreedySegmentationIsUnique(CleanLines(text), ProcessTextByLines(text), [a, b]);
  }

  lemma TwoSingleLineSegments(a: string, b: string)
    requires IsCleanLine(a) && IsCleanLine(b)
    requires |a| + 1 + |b| > MaxLength
    ensures IsGreedySegmentation([a, b], [a, b])
  {
    SplitNoSeparator(a, '\n');
    SplitNoSeparator(b, '\n');
    assert SegmentLines([a, b]) == [[a], [b]];
    assert Flatten([[a], [b]]) == [a, b];
  }

  /** A blank line between two lines that fit together is dropped and the
      two lines share one segment ("Hello\n\nWorld" gives "Hello\nWorld"). */
  lemma BlankLineDropped(a: string, b: string)
    requires IsCleanLine(a) && Strip(a) == a
    requires IsCleanLine(b) && Strip(b) == b
    requires |a| + 1 + |b| <= MaxLength
    ensures ProcessTextByLines(a + "\n\n" + b) == [a + "\n" + b]
  {
    var text := a + "\n\n" + b;
    TwoLinesWithBlankClean(a, b);
    OneTwoLineSegment(a, b);
    ProcessTextByLinesIsGreedy(text);
    GreedySegmentationIsUnique(CleanLines(text), ProcessTextByLines(text), [a + "\n" + b]);
  }

  lemma OneTwoLineSegment(a: string, b: string)
    requires IsCleanLine(a) && IsCleanLine(b)
    requires |a| + 1 + |b| <= MaxLength
    ensures IsGreedySegmentation([a, b], [a + "\n" + b])
  {
    var seg := a + "\n" + b;
    assert seg == JoinLines([a, b]);
    SplitJoin([a, b], '\n');
    assert SegmentLines([seg]) == [[a, b]];
    assert Flatten([[a, b]]) == [a, b];
  }

  // ---------------------------------------------------------------------
  // Helpers for the examples.

  /** Two clean stripped lines separated by one line break keep as two lines. */
  lemma TwoLinesClean(a: string, b: string)
    requires IsCleanLine(a) && Strip(a) == a
    requires IsCleanLine(b) && Strip(b) == b
    ensures CleanLines(a + "\n" + b) == [a, b]
  {
    var text := a + "\n" + b;
    TextOfTwoLinesStripped(a, b, "\n");
    LinesOfTwo(a, b);
    KeptOfTwo(a, b);
  }

  /** With a blank line between them, two clean stripped lines still keep as two lines. */
  lemma TwoLinesWithBlankClean(a: string, b: string)
    requires IsCleanLine(a) && Strip(a) == a
    requires IsCleanLine(b) && Strip(b) == b
    ensures CleanLines(a + "\n\n" + b) == [a, b]
  {
    TextOfTwoLinesStripped(a, b, "\n\n");
    LinesOfTwoWithBlank(a, b);
    KeptOfTwoWithBlank(a, b);
  }

  lemma LinesOfTwo(a: string, b: string)
    requires '\n' !in a && '\n' !in b
    ensures Lines(a + "\n" + b) == [a, b]
  {
    assert a + "\n" + b == a + ['\n'] + b;
    SplitConcat(a, '\n', b);
    SplitNoSeparator(b, '\n');
  }

  lemma LinesOfTwoWithBlank(a: string, b: string)
    requires '\n' !in a && '\n' !in b
    ensures Lines(a + "\n\n" + b) == [a, "", b]
  {
    var tail := "" + ['\n'] + b;
    assert a + "\n\n" + b == a + ['\n'] + tail;
    SplitConcat(a, '\n', tail);
    SplitConcat("", '\n', b);
    SplitNoSeparator(b, '\n');
  }

  lemma KeptOfTwo(a: string, b: string)
    requires a != "" && Strip(a) == a
    requires b != "" && Strip(b) == b
    ensures KeptLines([a, b]) == [a, b]
  {
    KeptStripped([a, b]);
    assert [a, b][1..] == [b];
    KeptStripped([b]);
  }

  lemma KeptOfTwoWithBlank(a: string, b: string)
    requires a != "" && Strip(a) == a
    requires b != "" && Strip(b) == b
    ensures KeptLines([a, "", b]) == [a, b]
  {
    KeptStripped([a, "", b]);
    assert [a, "", b][1..] == ["", b];
    KeptBlank(["", b]);
    assert ["", b][1..] == [b];
    KeptStripped([b]);
  }

  /** An empty first line is dropped. */
  lemma KeptBlank(lines: seq<string>)
    requires lines != [] && lines[0] == ""
    ensures KeptLines(lines) == KeptLines(lines[1..])
  {
    assert IsBlank(lines[0]);
  }

  /** A first line that is its own strip is kept as it is. */
  lemma KeptStripped(lines: seq<string>)
    requires lines != [] && lines[0] != "" && Strip(lines[0]) == lines[0]
    ensures KeptLines(lines) == [lines[0]] + KeptLines(lines[1..])
  {
  }

  lemma TextOfTwoLinesStripped(a: string, b: string, breaks: string)
    requires IsCleanLine(a) && Strip(a) == a
    requires IsCleanLine(b) && Strip(b) == b
    ensures Strip(a + breaks + b) == a + breaks + b
  {
    assert !IsSpace(a[0]) && !IsSpace(b[|b| - 1]);
    StripIdentity(a + breaks + b);
  }

  // ---------------------------------------------------------------------
  // The ghost run of the loop on groups of lines.

  /** The groups so far: the finished ones and, unless empty, the current one. */
  ghost function Full(done: seq<seq<string>>, current: seq<string>): seq<seq<string>>
  {
    if current == [] then done else done + [current]
  }

  /** The loop of `Pack` run on the kept lines, keeping each segment as
      its list of lines. */
  ghost function PackGroups(kept: seq<string>, done: seq<seq<string>>, current: seq<string>): seq<seq<string>>
    decreases |kept|
  {
    if kept == [] then
      Full(done, current)
    else if |JoinLines(current)| + |kept[0]| + 1 > MaxLength then
      PackGroups(kept[1..], Full(done, current), [kept[0]])
    else
      PackGroups(kept[1..], done, current + [kept[0]])
  }

  /** The joined segments of a list of groups. */
  ghost function JoinAll(groups: seq<seq<string>>): (r: seq<string>)
    ensures |r| == |groups|
    ensures forall i :: 0 <= i < |r| ==> r[i] == JoinLines(groups[i])
  {
    seq(|groups|, i requires 0 <= i < |groups| => JoinLines(groups[i]))
  }

  /** Groups obeying the greedy rule: none empty, a group of two or more
      lines fits, and a group ends only when the next line would not fit. */
  ghost predicate Greedy(groups: seq<seq<string>>)
  {
    && (forall i :: 0 <= i < |groups| ==> groups[i] != [])
    && (forall i :: 0 <= i < |groups| ==> |groups[i]| >= 2 ==> |JoinLines(groups[i])| <= MaxLength)
    && (forall i, j :: 0 <= i && j == i + 1 < |groups| ==>
          |JoinLines(groups[i])| + 1 + |groups[j][0]| > MaxLength)
  }

  lemma JoinLinesNonEmpty(g: seq<string>)
    requires g != [] && g[0] != ""
    ensures JoinLines(g) != ""
  {
    JoinStartsWithFirst(g, "\n");
  }

  lemma JoinLinesSnoc(g: seq<string>, line: string)
    ensures g != [] ==> JoinLines(g + [line]) == JoinLines(g) + "\n" + line
    ensures g == [] ==> JoinLines(g + [line]) == line
  {
    if g != [] {
      JoinSnoc(g, line, "\n");
    } else {
      assert g + [line] == [line];
    }
  }

  /** Running the string loop and the group loop side by side gives the
      same segments. */
  lemma {:induction false} PackMatchesGroups(lines: seq<string>, done: seq<seq<string>>, current: seq<string>)
    requires current == [] || current[0] != ""
    ensures Pack(lines, JoinAll(done), JoinLines(current)) == JoinAll(PackGroups(KeptLines(lines), done, current))
    decreases |lines|
  {
    var cur := JoinLines(current);
    assert cur == "" <==> current == [] by {
      if current != [] { JoinLinesNonEmpty(current); }
    }
    assert JoinAll(Full(done, current)) == if cur != "" then JoinAll(done) + [cur] else JoinAll(done);
    if lines != [] {
      var line := Strip(lines[0]);
      var rest := lines[1..];
      if line == "" {
        assert KeptLines(lines) == KeptLines(rest);
        PackMatchesGroups(rest, done, current);
      } else {
        var kept := KeptLines(lines);
        assert kept == [line] + KeptLines(rest);
        assert kept[0] == line && kept[1..] == KeptLines(rest);
        if |cur| + |line| + 1 > MaxLength {
          assert JoinLines([line]) == line;
          PackMatchesGroups(rest, Full(done, current), [line]);
        } else {
          JoinLinesSnoc(current, line);
          PackMatchesGroups(rest, done, current + [line]);
        }
      }
    }
  }

  lemma GreedyPrefix(groups: seq<seq<string>>, k: nat)
    requires Greedy(groups) && k <= |groups|
    ensures Greedy(groups[..k])
  {
  }

  lemma GreedyExtend(groups: seq<seq<string>>, g: seq<string>)
    requires Greedy(groups)
    requires g != []
    requires |g| >= 2 ==> |JoinLines(g)| <= MaxLength
    requires groups != [] ==> |JoinLines(groups[|groups| - 1])| + 1 + |g[0]| > MaxLength
    ensures Greedy(groups + [g])
  {
    var r := groups + [g];
    assert forall i :: 0 <= i < |groups| ==> r[i] == groups[i];
  }

  /** The loop keeps the greedy rule. */
  lemma {:induction false} PackGroupsGreedy(kept: seq<string>, done: seq<seq<string>>, current: seq<string>)
    requires current == [] ==> done == []
    requires Greedy(Full(done, current))
    ensures Greedy(PackGroups(kept, done, current))
    decreases |kept|
  {
    if kept != [] {
      var line := kept[0];
      if |JoinLines(current)| + |line| + 1 > MaxLength {
        StepOverflow(done, current, line);
        PackGroupsGreedy(kept[1..], Full(done, current), [line]);
      } else {
        StepFit(done, current, line);
        PackGroupsGreedy(kept[1..], done, current + [line]);
      }
    }
  }

  /** The loop consumes the kept lines in order, each exactly once. */
  lemma {:induction false} PackGroupsFlatten(kept: seq<string>, done: seq<seq<string>>, current: seq<string>)
    ensures Flatten(PackGroups(kept, done, current)) == Flatten(Full(done, current)) + kept
    decreases |kept|
  {
    if kept != [] {
      var line := kept[0];
      var full := Full(done, current);
      assert kept == [line] + kept[1..];
      if |JoinLines(current)| + |line| + 1 > MaxLength {
        PackGroupsFlatten(kept[1..], full, [line]);
        assert Full(full, [line]) == full + [[line]];
        FlattenAppend(full, [[line]]);
        assert Flatten([[line]]) == [line];
      } else {
        var next := current + [line];
        PackGroupsFlatten(kept[1..], done, next);
        assert Full(done, next) == done + [next];
        FlattenAppend(done, [next]);
        assert Flatten([next]) == next;
        if current != [] {
          assert full == done + [current];
          FlattenAppend(done, [current]);
          assert Flatten([current]) == current;
        }
      }
    }
  }

  /** A line that does not fit closes the current group and opens a new one. */
  lemma StepOverflow(done: seq<seq<string>>, current: seq<string>, line: string)
    requires current == [] ==> done == []
    requires Greedy(Full(done, current))
    requires |JoinLines(current)| + |line| + 1 > MaxLength
    ensures Greedy(Full(Full(done, current), [line]))
  {
    var full := Full(done, current);
    if current != [] {
      assert full[|full| - 1] == current;
    }
    GreedyExtend(full, [line]);
    assert Full(full, [line]) == full + [[line]];
  }

  /** A line that fits joins the current group. */
  lemma StepFit(done: seq<seq<string>>, current: seq<string>, line: string)
    requires current == [] ==> done == []
    requires Greedy(Full(done, current))
    requires |JoinLines(current)| + |line| + 1 <= MaxLength
    ensures Greedy(Full(done, current + [line]))
  {
    var next := current + [line];
    var full := Full(done, current);
    JoinLinesSnoc(current, line);
    assert Full(done, next) == done + [next];
    if current != [] {
      assert full == done + [current];
      assert full[..|done|] == done;
      GreedyPrefix(full, |done|);
      if done != [] {
        var i := |done| - 1;
        assert full[i] == done[i] && full[i + 1] == current;
        assert |JoinLines(full[i])| + 1 + |full[i + 1][0]| > MaxLength;
        assert next[0] == current[0];
      }
      GreedyExtend(done, next);
    } else {
      GreedyExtend([], next);
    }
  }

  /** The segmenter's output is the join of greedy groups of the kept lines. */
  lemma PackIsGreedy(text: string)
    ensures var g := PackGroups(CleanLines(text), [], []);
      && Pack(Lines(Strip(text)), [], "") == JoinAll(g)
      && Greedy(g)
      && Flatten(g) == CleanLines(text)
      && IsGreedySegmentation(CleanLines(text), Pack(Lines(Strip(text)), [], ""))
  {
    var lines := Lines(Strip(text));
    var kept := CleanLines(text);
    assert kept == KeptLines(lines);
    var g := PackGroups(kept, [], []);
    assert JoinAll([]) == [];
    assert JoinLines([]) == "";
    PackMatchesGroups(lines, [], []);
    assert Full([], []) == [];
    PackGroupsGreedy(kept, [], []);
    PackGroupsFlatten(kept, [], []);
    GroupsSegmentation(kept, g);
  }

  /** Joined greedy groups of clean lines form a greedy segmentation. */
  lemma GroupsSegmentation(lines: seq<string>, g: seq<seq<string>>)
    requires forall i :: 0 <= i < |lines| ==> IsCleanLine(lines[i])
    requires Greedy(g) && Flatten(g) == lines
    ensures SegmentLines(JoinAll(g)) == g
    ensures IsGreedySegmentation(lines, JoinAll(g))
  {
    var s := JoinAll(g);
    forall i | 0 <= i < |g|
      ensures Lines(s[i]) == g[i]
      ensures s[i] != ""
      ensures '\n' in s[i] ==> |g[i]| >= 2
    {
      FlattenMembers(g, i);
      SplitJoin(g[i], '\n');
      JoinLinesNonEmpty(g[i]);
      SplitCount(s[i], '\n');
    }
  }

  /** Reading a greedy segmentation back line by line gives greedy groups. */
  lemma SegmentationGroups(lines: seq<string>, s: seq<string>)
    requires IsGreedySegmentation(lines, s)
    ensures Greedy(SegmentLines(s))
    ensures forall i :: 0 <= i < |s| ==> s[i] == JoinLines(SegmentLines(s)[i])
  {
    var g := SegmentLines(s);
    forall i | 0 <= i < |s|
      ensures |g[i]| >= 2 ==> '\n' in s[i]
    {
      SplitCount(s[i], '\n');
    }
  }

  /** Every line of every group is a clean line when the flattening is. */
  lemma FlattenMembers(g: seq<seq<string>>, i: nat)
    requires i < |g|
    requires forall k :: 0 <= k < |Flatten(g)| ==> IsCleanLine(Flatten(g)[k])
    ensures forall j :: 0 <= j < |g[i]| ==> IsCleanLine(g[i][j])
  {
    forall j | 0 <= j < |g[i]|
      ensures IsCleanLine(g[i][j])
    {
      FlattenMember(g, i, j);
    }
  }

  lemma {:induction false} FlattenMember(g: seq<seq<string>>, i: nat, j: nat)
    requires i < |g| && j < |g[i]|
    ensures g[i][j] in Flatten(g)
    decreases i
  {
    if i > 0 {
      FlattenMember(g[1..], i - 1, j);
    }
  }

  /** The greedy grouping of a list of clean lines is unique. */
  lemma {:induction false} GreedyGroupsUnique(lines: seq<string>, g1: seq<seq<string>>, g2: seq<seq<string>>)
    requires forall i :: 0 <= i < |lines| ==> IsCleanLine(lines[i])
    requires Greedy(g1) && Flatten(g1) == lines
    requires Greedy(g2) && Flatten(g2) == lines
    ensures g1 == g2
    decreases |lines|
  {
    if g1 != [] && g2 != [] {
      FirstGroupNotShorter(lines, g1, g2);
      FirstGroupNotShorter(lines, g2, g1);
      var a := |g1[0]|;
      assert g1[0] == lines[..a] == g2[0];
      var rest := lines[a..];
      assert Flatten(g1[1..]) == rest && Flatten(g2[1..]) == rest;
      assert Greedy(g1[1..]) by {
        assert forall i :: 0 <= i < |g1| - 1 ==> g1[1..][i] == g1[i + 1];
      }
      assert Greedy(g2[1..]) by {
        assert forall i :: 0 <= i < |g2| - 1 ==> g2[1..][i] == g2[i + 1];
      }
      GreedyGroupsUnique(rest, g1[1..], g2[1..]);
      assert g1 == [g1[0]] + g1[1..];
      assert g2 == [g2[0]] + g2[1..];
    }
  }

  /** The first greedy group is as long as the greedy rule allows, so no
      other greedy grouping can have a longer first group. */
  lemma FirstGroupNotShorter(lines: seq<string>, g1: seq<seq<string>>, g2: seq<seq<string>>)
    requires Greedy(g1) && Flatten(g1) == lines && g1 != []
    requires Greedy(g2) && Flatten(g2) == lines && g2 != []
    ensures |g1[0]| >= |g2[0]|
  {
    var a := |g1[0]|;
    var b := |g2[0]|;
    if a < b {
      assert lines[..b] == g2[0];
      assert |JoinLines(lines[..b])| <= MaxLength;
      var next := FirstOfSecondGroup(g1);
      assert lines[..a] == g1[0] && next == lines[a];
      LongerPrefixOverflows(lines, a, b);
    }
  }

  /** If the line after the first `a` lines does not fit after them, no
      longer prefix fits either. */
  lemma LongerPrefixOverflows(lines: seq<string>, a: nat, b: nat)
    requires 1 <= a < b <= |lines|
    requires |JoinLines(lines[..a])| + 1 + |lines[a]| > MaxLength
    ensures |JoinLines(lines[..b])| > MaxLength
  {
    assert lines[..a + 1] == lines[..a] + [lines[a]];
    JoinLinesSnoc(lines[..a], lines[a]);
    var pre := lines[..b];
    assert pre[..a + 1] == lines[..a + 1];
    JoinLinesPrefix(pre, a + 1);
  }

  /** When the first group does not hold every line, the line after it
      opens the second group. */
  lemma FirstOfSecondGroup(g: seq<seq<string>>) returns (next: string)
    requires Greedy(g) && g != []
    requires |Flatten(g)| > |g[0]|
    ensures |g| >= 2
    ensures next == g[1][0] == Flatten(g)[|g[0]|]
    ensures |JoinLines(g[0])| + 1 + |next| > MaxLength
  {
    assert Flatten(g) == g[0] + Flatten(g[1..]);
    assert g[1..] != [];
    assert Flatten(g[1..]) == g[1] + Flatten(g[2..]);
    next := g[1][0];
  }

  /** A prefix of at least one line joins to something no longer. */
  lemma {:induction false} JoinLinesPrefix(xs: seq<string>, k: nat)
    requires 1 <= k <= |xs|
    ensures |JoinLines(xs[..k])| <= |JoinLines(xs)|
    decreases |xs| - k
  {
    if k < |xs| {
      JoinLinesPrefix(xs, k + 1);
      assert xs[..k + 1] == xs[..k] + [xs[k]];
      JoinLinesSnoc(xs[..k], xs[k]);
    } else {
      assert xs[..k] == xs;
    }
  }

  /** Joining the joined groups is joining all their lines. */
  lemma {:induction false} JoinFlatten(g: seq<seq<string>>)
    requires forall i :: 0 <= i < |g| ==> g[i] != []
    ensures JoinLines(JoinAll(g)) == JoinLines(Flatten(g))
    decreases |g|
  {
    if |g| == 1 {
      assert Flatten(g) == g[0] + Flatten(g[1..]);
      assert g[0] + [] == g[0];
    } else if |g| > 1 {
      JoinFlatten(g[1..]);
      assert JoinAll(g)[1..] == JoinAll(g[1..]);
      assert Flatten(g[1..]) != [] by { assert |Flatten(g[1..])| >= |g[1]|; }
      JoinAppend(g[0], Flatten(g[1..]), "\n");
    }
  }

  /** The kept lines are empty exactly when the text is blank. */
  lemma CleanLinesEmpty(text: string)
    ensures CleanLines(text) == [] <==> IsBlank(text)
  {
    var t := Strip(text);
    var lines := Lines(t);
    if IsBlank(text) {
      assert t == "";
      assert lines == [""];
      assert Strip("") == "";
      assert KeptLines(lines) == [] + KeptLines([]);
    } else {
      var first := lines[0];
      JoinStartsWithFirst(lines, "\n");
      assert !IsSpace(t[0]);
      assert first[0] == t[0];
      assert !IsBlank(first);
      assert KeptLines(lines) == [Strip(first)] + KeptLines(lines[1..]);
    }
  }

  lemma FlattenSegmentLinesEmpty(s: seq<string>)
    ensures Flatten(SegmentLines(s)) == [] <==> s == []
  {
    if s != [] {
      var g := SegmentLines(s);
      assert |Flatten(g)| >= |g[0]| >= 1;
    }
  }
}
