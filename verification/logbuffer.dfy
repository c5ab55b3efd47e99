/**
 The two stand-ins for standard output in `tts_gui.py`.

 `LogRedirector`: written text collects in a buffer, and a write that ends
 a line hands the whole buffer, right-stripped, to the log panel. The
 window builds one but never installs it as `sys.stdout`, so it is
 modelled as written without being on the path of the program's output.

 `SynthesisThread.write`: the object that is `sys.stdout` while a
 synthesis runs. It buffers nothing; every non-blank write goes to the
 log at once, stripped.
 */
module LogBuffer {
  import opened Common
  import opened Strings

  /** The redirector's buffer and the lines the log panel has received so far. */
  datatype Log = Log(buffer: string, emitted: seq<string>)

  const Empty: Log := Log("", [])

  /** `text.endswith('\n')`. */
  predicate EndsLine(text: string)
  {
    |text| > 0 && text[|text| - 1] == '\n'
  }

  /** `write(text)` with the line handed to the panel computed from the
      buffer by `finish`; the redirector uses `rstrip`. Keeping `finish`
      a parameter lets the lemmas below reason about buffering alone. */
  function WriteWith(log: Log, text: string, finish: string -> string): (r: Log)
  {
    var buffer := log.buffer + text;
    if EndsLine(text) then Log("", log.emitted + [finish(buffer)]) else Log(buffer, log.emitted)
  }

  /** `write(text)`: the text joins the buffer; when it ends a line, the
      buffer, right-stripped, goes to the panel and the buffer is emptied. */
  function Write(log: Log, text: string): (r: Log)
    ensures |r.emitted| == |log.emitted| + (if EndsLine(text) then 1 else 0)
    ensures r.emitted[..|log.emitted|] == log.emitted
    ensures EndsLine(text) ==> r.buffer == "" && r.emitted[|log.emitted|] == RStrip(log.buffer + text)
    ensures !EndsLine(text) ==> r.buffer == log.buffer + text
  {
    WriteWith(log, text, RStrip)
  }

  /** `flush()`: a non-empty buffer goes to the panel as it is. */
  function Flush(log: Log): (r: Log)
    ensures r.buffer == ""
    ensures log.buffer == "" ==> r == log
    ensures log.buffer != "" ==> r.emitted == log.emitted + [log.buffer]
  {
    if log.buffer != "" then Log("", log.emitted + [log.buffer]) else log
  }

  /** Flushing twice is flushing once. */
  lemma FlushIdempotent(log: Log)
    ensures Flush(Flush(log)) == Flush(log)
  {
  }

  function RunWith(log: Log, writes: seq<string>, finish: string -> string): Log
    decreases |writes|
  {
    if writes == [] then log else RunWith(WriteWith(log, writes[0], finish), writes[1..], finish)
  }

  /** The redirector after a run of writes, in order. */
  function Run(log: Log, writes: seq<string>): Log
  {
    RunWith(log, writes, RStrip)
  }

  // ---------------------------------------------------------------------
  // A direct description of the state after a run of writes: cut the writes
  // into chunks, each ended by the one write of it that ends a line, and an
  // unterminated tail.

  function Concat(ws: seq<string>): string
    decreases |ws|
  {
    if ws == [] then "" else ws[0] + Concat(ws[1..])
  }

  /** Writes of which exactly the last ends a line. */
  predicate IsChunk(c: seq<string>)
  {
    |c| > 0 && EndsLine(c[|c| - 1]) && forall i :: 0 <= i < |c| - 1 ==> !EndsLine(c[i])
  }

  /** Writes none of which ends a line. */
  predicate NoBreak(t: seq<string>)
  {
    forall i :: 0 <= i < |t| ==> !EndsLine(t[i])
  }

  /** The panel line of each chunk: everything it wrote, finished. */
  function LinesWith(chunks: seq<seq<string>>, finish: string -> string): (lines: seq<string>)
    ensures |lines| == |chunks|
  {
    seq(|chunks|, i requires 0 <= i < |chunks| => finish(Concat(chunks[i])))
  }

  /** The panel line of each chunk: everything it wrote, right-stripped. */
  function LinesOf(chunks: seq<seq<string>>): (lines: seq<string>)
    ensures |lines| == |chunks|
    ensures forall i :: 0 <= i < |chunks| ==> lines[i] == RStrip(Concat(chunks[i]))
  {
    LinesWith(chunks, RStrip)
  }

  /** Writing `a` and then `b` is writing `a + b`. */
  lemma {:induction false} RunAppend(log: Log, a: seq<string>, b: seq<string>, finish: string -> string)
    ensures RunWith(log, a + b, finish) == RunWith(RunWith(log, a, finish), b, finish)
    decreases |a|
  {
    if a == [] {
      assert a + b == b;
    } else {
      assert (a + b)[0] == a[0] && (a + b)[1..] == a[1..] + b;
      RunAppend(WriteWith(log, a[0], finish), a[1..], b, finish);
    }
  }

  /** Writes that end no line only add to the buffer. */
  lemma {:induction false} RunTail(log: Log, t: seq<string>, finish: string -> string)
    requires NoBreak(t)
    ensures RunWith(log, t, finish) == Log(log.buffer + Concat(t), log.emitted)
    decreases |t|
  {
    if t == [] {
      assert log.buffer + "" == log.buffer;
    } else {
      RunStep(log, t, finish);
      NoBreakRest(t);
      RunTail(WriteWith(log, t[0], finish), t[1..], finish);
      AppendAssoc(log.buffer, t[0], Concat(t[1..]));
    }
  }

  /** One write, then the rest of the run. */
  lemma RunStep(log: Log, t: seq<string>, finish: string -> string)
    requires t != []
    ensures RunWith(log, t, finish) == RunWith(WriteWith(log, t[0], finish), t[1..], finish)
    ensures Concat(t) == t[0] + Concat(t[1..])
  {
  }

  /** The first write of a run without line ends only grows the buffer, and
      the remaining writes end no line either. */
  lemma NoBreakRest(t: seq<string>)
    requires t != [] && NoBreak(t)
    ensures !EndsLine(t[0]) && NoBreak(t[1..])
  {
    assert forall i :: 0 <= i < |t| - 1 ==> t[1..][i] == t[i + 1];
  }

  lemma AppendAssoc(a: string, b: string, c: string)
    ensures a + b + c == a + (b + c)
  {
  }

  /** A chunk of writes hands one line to the panel, made of the old buffer
      and the chunk's text, and leaves the buffer empty. */
  lemma {:induction false} RunChunk(log: Log, c: seq<string>, finish: string -> string)
    requires IsChunk(c)
    ensures RunWith(log, c, finish) == Log("", log.emitted + [finish(log.buffer + Concat(c))])
    decreases |c|
  {
    if |c| == 1 {
      assert c[1..] == [];
      assert Concat(c) == c[0] + "" == c[0];
    } else {
      assert !EndsLine(c[0]);
      assert IsChunk(c[1..]) by {
        assert forall i :: 0 <= i < |c| - 1 ==> c[1..][i] == c[i + 1];
      }
      RunChunk(WriteWith(log, c[0], finish), c[1..], finish);
      assert log.buffer + c[0] + Concat(c[1..]) == log.buffer + Concat(c);
    }
  }

  lemma {:induction false} RunChunks(emitted: seq<string>, chunks: seq<seq<string>>, tail: seq<string>, finish: string -> string)
    requires forall k :: 0 <= k < |chunks| ==> IsChunk(chunks[k])
    requires NoBreak(tail)
    ensures RunWith(Log("", emitted), Flatten(chunks) + tail, finish) == Log(Concat(tail), emitted + LinesWith(chunks, finish))
    decreases |chunks|
  {
    if chunks == [] {
      assert Flatten(chunks) + tail == tail;
      RunTail(Log("", emitted), tail, finish);
      assert "" + Concat(tail) == Concat(tail);
    } else {
      var c := chunks[0];
      var rest := Flatten(chunks[1..]) + tail;
      assert Flatten(chunks) + tail == c + rest;
      RunAppend(Log("", emitted), c, rest, finish);
      RunChunk(Log("", emitted), c, finish);
      assert "" + Concat(c) == Concat(c);
      RunChunks(emitted + [finish(Concat(c))], chunks[1..], tail, finish);
      assert emitted + [finish(Concat(c))] + LinesWith(chunks[1..], finish) == emitted + LinesWith(chunks, finish);
    }
  }

  /** The state after any run of writes from a fresh redirector, cut into
      line-ending chunks and an unterminated tail: the panel has received
      one right-stripped line per chunk, in order, and the buffer holds
      exactly the tail's text. */
  lemma RunState(chunks: seq<seq<string>>, tail: seq<string>)
    requires forall k :: 0 <= k < |chunks| ==> IsChunk(chunks[k])
    requires NoBreak(tail)
    ensures Run(Empty, Flatten(chunks) + tail) == Log(Concat(tail), LinesOf(chunks))
  {
    RunChunks([], chunks, tail, RStrip);
    assert [] + LinesWith(chunks, RStrip) == LinesOf(chunks);
  }

  /** The number of writes that end a line. */
  function CountBreaks(ws: seq<string>): nat
    decreases |ws|
  {
    if ws == [] then 0 else (if EndsLine(ws[0]) then 1 else 0) + CountBreaks(ws[1..])
  }

  /** The panel receives exactly one line per write that ends a line. */
  lemma {:induction false} RunCountsBreaks(log: Log, ws: seq<string>, finish: string -> string)
    ensures |RunWith(log, ws, finish).emitted| == |log.emitted| + CountBreaks(ws)
    decreases |ws|
  {
    if ws != [] {
      RunCountsBreaks(WriteWith(log, ws[0], finish), ws[1..], finish);
    }
  }

  /** A closing `flush()` hands over the unterminated tail, if any, after the lines. */
  lemma RunThenFlush(chunks: seq<seq<string>>, tail: seq<string>)
    requires forall k :: 0 <= k < |chunks| ==> IsChunk(chunks[k])
    requires NoBreak(tail)
    ensures Flush(Run(Empty, Flatten(chunks) + tail)).emitted
         == LinesOf(chunks) + (if Concat(tail) == "" then [] else [Concat(tail)])
  {
    RunState(chunks, tail);
  }

  // ---------------------------------------------------------------------
  // The synthesis thread as standard output.

  /** A line as the thread hands it to the log: non-empty and stripped. */
  predicate IsLogLine(line: string)
  {
    line != "" && Strip(line) == line
  }

  /** What one write to the thread hands to the log: its stripped text,
      unless that is empty. */
  function ThreadEntry(text: string): (r: seq<string>)
    ensures IsBlank(text) <==> r == []
    ensures r != [] ==> r == [Strip(text)]
    ensures forall i :: 0 <= i < |r| ==> IsLogLine(r[i])
  {
    var line := Strip(text);
    StripIdempotent(text);
    if line != "" then [line] else []
  }

  /** `SynthesisThread.write(text)`: a non-blank write goes to the log,
      stripped, and a blank one is dropped. */
  function ThreadWrite(emitted: seq<string>, text: string): (r: seq<string>)
    ensures IsBlank(text) ==> r == emitted
    ensures !IsBlank(text) ==> r == emitted + [Strip(text)]
  {
    emitted + ThreadEntry(text)
  }

  /** A run of writes, each adding its `entry` to the log. */
  function RunEntries(emitted: seq<string>, writes: seq<string>, entry: string -> seq<string>): seq<string>
    decreases |writes|
  {
    if writes == [] then emitted else RunEntries(emitted + entry(writes[0]), writes[1..], entry)
  }

  /** The entries of a run of writes, in order. */
  function Entries(writes: seq<string>, entry: string -> seq<string>): seq<string>
    decreases |writes|
  {
    if writes == [] then [] else entry(writes[0]) + Entries(writes[1..], entry)
  }

  lemma {:induction false} RunEntriesAppends(emitted: seq<string>, writes: seq<string>, entry: string -> seq<string>)
    ensures RunEntries(emitted, writes, entry) == emitted + Entries(writes, entry)
    decreases |writes|
  {
    if writes == [] {
      assert emitted + [] == emitted;
    } else {
      var e, rest := entry(writes[0]), Entries(writes[1..], entry);
      RunEntriesAppends(emitted + e, writes[1..], entry);
      assert emitted + e + rest == emitted + (e + rest);
    }
  }

  lemma {:induction false} EntriesKeep(writes: seq<string>, entry: string -> seq<string>, p: string -> bool, i: nat)
    requires forall w, k :: 0 <= k < |entry(w)| ==> p(entry(w)[k])
    requires i < |Entries(writes, entry)|
    ensures p(Entries(writes, entry)[i])
    decreases |writes|
  {
    var e, rest := entry(writes[0]), Entries(writes[1..], entry);
    assert Entries(writes, entry) == e + rest;
    if i >= |e| {
      EntriesKeep(writes[1..], entry, p, i - |e|);
      assert (e + rest)[i] == rest[i - |e|];
    }
  }

  /** The log after a run of writes to the thread, in order. */
  function ThreadRun(emitted: seq<string>, writes: seq<string>): seq<string>
  {
    RunEntries(emitted, writes, ThreadEntry)
  }

  /** The stripped text of every non-blank write, in order. */
  function StrippedWrites(writes: seq<string>): seq<string>
  {
    Entries(writes, ThreadEntry)
  }

  /** Every write is handed over on its own, with no buffering: the log
      gains exactly the entries of the writes, in order, whether or not a
      write ends a line, and each of them is non-empty and stripped. */
  lemma ThreadRunLines(emitted: seq<string>, writes: seq<string>)
    ensures ThreadRun(emitted, writes) == emitted + StrippedWrites(writes)
    ensures forall i :: 0 <= i < |StrippedWrites(writes)| ==> IsLogLine(StrippedWrites(writes)[i])
  {
    RunEntriesAppends(emitted, writes, ThreadEntry);
    forall i | 0 <= i < |StrippedWrites(writes)|
      ensures IsLogLine(StrippedWrites(writes)[i])
    {
      EntriesKeep(writes, ThreadEntry, IsLogLine, i);
    }
  }

  /** A write is handed over even when it does not end a line, which the
      buffered redirector would keep back. */
  lemma ThreadDoesNotBuffer(text: string)
    requires !IsBlank(text) && !EndsLine(text)
    ensures ThreadRun([], [text]) == [Strip(text)]
    ensures Run(Empty, [text]) == Log(text, [])
  {
    var e := ThreadEntry(text);
    assert [text][1..] == [];
    assert ThreadRun([], [text]) == RunEntries([] + e, [], ThreadEntry) == [] + e;
    assert e == [Strip(text)];
    assert RunWith(Empty, [text], RStrip) == WriteWith(Empty, text, RStrip);
    assert "" + text == text;
  }
}
