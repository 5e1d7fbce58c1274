/**
 * The read loops of multifast.c's `search_file` and `replace_file`: the
 * input is read in windows of at most 4096 bytes, each window is folded to
 * lower case in case-insensitive mode and handed to the automaton, which
 * here is a log of the calls it receives.
 */
module Streaming {
  import opened Common
  import Case
  import Driver

  /** `STREAM_BUFFER_SIZE` */
  const StreamBufferSize: nat := 4096

  /** What one `read(2)` returns: some bytes (none at the end of the input) or an error. */
  datatype ReadResult = Got(bytes: seq<byte>) | ReadError

  /** The read that comes next; past the listed rs the input is at its end. */
  function NextRead(rs: seq<ReadResult>): ReadResult {
    if |rs| == 0 then Got([]) else rs[0]
  }

  function RestReads(rs: seq<ReadResult>): seq<ReadResult> {
    if |rs| == 0 then [] else rs[1..]
  }

  predicate WellSized(rs: seq<ReadResult>) {
    forall i :: 0 <= i < |rs| && rs[i].Got? ==> |rs[i].bytes| <= StreamBufferSize
  }

  /**
   * An input file, or standard input: whether `open` and `fstat` succeed,
   * whether it is a directory, and what its rs return in turn.
   */
  class Input {
    const opens: bool
    const statFails: bool
    const isDir: bool
    var pending: seq<ReadResult>

    ghost predicate Valid()
      reads this
    {
      WellSized(pending)
    }

    constructor (opens: bool, statFails: bool, isDir: bool, rs: seq<ReadResult>)
      requires WellSized(rs)
      ensures Valid()
      ensures this.opens == opens && this.statFails == statFails && this.isDir == isDir && pending == rs
    {
      this.opens, this.statFails, this.isDir := opens, statFails, isDir;
      pending := rs;
    }

    /** `read(fd, buffer, STREAM_BUFFER_SIZE)` */
    method Read() returns (r: ReadResult)
      requires Valid()
      modifies this
      ensures Valid()
      ensures r == NextRead(old(pending)) && pending == RestReads(old(pending))
      ensures r.Got? ==> |r.bytes| <= StreamBufferSize
    {
      r := NextRead(pending);
      pending := RestReads(pending);
    }
  }

  /** A call the automaton receives: a search window, a replace window, or the final flush. */
  datatype Event = Search(text: seq<byte>, keep: bool) | Replace(text: seq<byte>, lazy: bool) | Flush

  /**
   * The Aho-Corasick automaton and its replacement engine, which are not part
   * of this model, seen through the calls they receive. Whether a call asks
   * the loop to stop (the match callback returned 1) is decided by `stops`
   * from the calls before it and the window.
   */
  class Automaton {
    var log: seq<Event>
    const stops: (seq<Event>, seq<byte>) -> bool

    constructor (stops: (seq<Event>, seq<byte>) -> bool)
      ensures log == [] && this.stops == stops
    {
      log := [];
      this.stops := stops;
    }

    /** `ac_trie_search (trie, &intext, keep, match_handler, &mparm)` */
    method Search(text: seq<byte>, keep: bool) returns (stop: bool)
      modifies this
      ensures log == old(log) + [Event.Search(text, keep)] && stop == stops(old(log), text)
    {
      stop := stops(log, text);
      log := log + [Event.Search(text, keep)];
    }

    /** `multifast_replace (trie, &intext, rpmod, replace_listener, &uparm)` */
    method Replace(text: seq<byte>, lazy: bool) returns (stop: bool)
      modifies this
      ensures log == old(log) + [Event.Replace(text, lazy)] && stop == stops(old(log), text)
    {
      stop := stops(log, text);
      log := log + [Event.Replace(text, lazy)];
    }

    /** `multifast_rep_flush (trie, 0)` */
    method Flush()
      modifies this
      ensures log == old(log) + [Event.Flush]
    {
      log := log + [Event.Flush];
    }
  }

  /** The window the automaton sees for the bytes of one read. */
  function Window(bytes: seq<byte>, insensitive: bool): seq<byte> {
    if insensitive then Case.LowerAll(bytes) else bytes
  }

  // ---------------------------------------------------------------------
  // Which input is read
  // ---------------------------------------------------------------------

  /**
   * The stdin test as written: it looks at the first input file, whichever
   * file is being processed.
   */
  predicate ReadsStdinAsWritten(inputFiles: seq<seq<char>>, filename: seq<char>) {
    |inputFiles| > 0 && inputFiles[0] == "-"
  }

  /** The stdin test as intended: the file being processed is "-". */
  predicate ReadsStdin(filename: seq<char>) {
    filename == "-"
  }

  /**
   * With "-" first and a named file after it, the named file is read from
   * standard input too; with "-" second, a file called "-" is opened.
   */
  lemma StdinTestUsesFirstFile()
    ensures ReadsStdinAsWritten(["-", "a.txt"], "a.txt") && !ReadsStdin("a.txt")
    ensures !ReadsStdinAsWritten(["a.txt", "-"], "-") && ReadsStdin("-")
  {
    assert ["a.txt", "-"][0] == "a.txt";
    assert "a.txt" != "-" by { assert |"a.txt"| != |"-"|; }
  }

  /** The input is used: read from stdin, or opened successfully. */
  predicate Opened(filename: seq<char>, opens: bool) {
    ReadsStdin(filename) || opens
  }

  // ---------------------------------------------------------------------
  // search_file
  // ---------------------------------------------------------------------

  /**
   * The `do ... while` loop of search_file from the log `log` on: a read
   * error ends it with -1; otherwise the window is searched, and the loop
   * goes on only after a full window that did not stop the search.
   */
  function SearchLoop(log: seq<Event>, rs: seq<ReadResult>, keep: bool, insensitive: bool,
                      stops: (seq<Event>, seq<byte>) -> bool): (r: (seq<Event>, int))
    ensures r.1 == 0 || r.1 == -1
    ensures |log| <= |r.0| && r.0[..|log|] == log
    decreases |rs|
  {
    match NextRead(rs)
    case ReadError => (log, -1)
    case Got(bytes) =>
      var w := Window(bytes, insensitive);
      var next := log + [Search(w, keep)];
      if stops(log, w) || |bytes| != StreamBufferSize || |rs| == 0 then (next, 0)
      else SearchLoop(next, rs[1..], true, insensitive, stops)
  }

  /**
   * Every call of one search loop is a search; the first window is searched
   * with `keep` as given (0 in search_file), every later one with keep = 1.
   */
  lemma {:induction false} SearchKeep(log: seq<Event>, rs: seq<ReadResult>, keep: bool, insensitive: bool,
                                      stops: (seq<Event>, seq<byte>) -> bool)
    ensures var calls := SearchLoop(log, rs, keep, insensitive, stops).0[|log|..];
      && (forall i :: 0 <= i < |calls| ==> calls[i].Search?)
      && (|calls| > 0 ==> calls[0].keep == keep)
      && (forall i :: 1 <= i < |calls| ==> calls[i].keep)
    decreases |rs|
  {
    var r := SearchLoop(log, rs, keep, insensitive, stops);
    match NextRead(rs)
    case ReadError =>
    case Got(bytes) =>
      var w := Window(bytes, insensitive);
      var next := log + [Search(w, keep)];
      if !(stops(log, w) || |bytes| != StreamBufferSize || |rs| == 0) {
        SearchKeep(next, rs[1..], true, insensitive, stops);
        var calls := r.0[|log|..];
        var later := r.0[|next|..];
        assert calls == [Search(w, keep)] + later by {
          assert r.0[..|next|] == next;
        }
      } else {
        assert r.0[|log|..] == [Search(w, keep)];
      }
  }

  /** Read number `i` (from 0) of the input; past the listed reads the input is at its end. */
  function ReadAt(rs: seq<ReadResult>, i: nat): ReadResult {
    if i < |rs| then rs[i] else Got([])
  }

  /** After the first read, read `i` of the rest is read `i + 1` of the input. */
  lemma ReadAtRest(rs: seq<ReadResult>, i: nat)
    ensures ReadAt(rs, 0) == NextRead(rs)
    ensures ReadAt(RestReads(rs), i) == ReadAt(rs, i + 1)
  {
  }

  /** The `while` test of search_file after the window of read `rd`: a full window that did not stop the search. */
  predicate SearchGoesOn(before: seq<Event>, rd: ReadResult, insensitive: bool, stops: (seq<Event>, seq<byte>) -> bool) {
    rd.Got? && |rd.bytes| == StreamBufferSize && !stops(before, Window(rd.bytes, insensitive))
  }

  /**
   * The stopping rules of search_file's loop, for a loop that extended
   * `log` to `full` and returned `rc`: call `i` searches the window of read
   * `i`; every call but the last was a full window that did not stop the
   * search; -1 comes from a failed read after such a window (or at the
   * start), 0 after a short window or a stopping callback.
   */
  ghost predicate SearchShape(log: seq<Event>, full: seq<Event>, rc: int, rs: seq<ReadResult>, keep: bool,
                              insensitive: bool, stops: (seq<Event>, seq<byte>) -> bool) {
    && |log| <= |full| && full[..|log|] == log
    && var calls := full[|log|..];
    && (forall i :: 0 <= i < |calls| ==>
          ReadAt(rs, i).Got? && calls[i] == Search(Window(ReadAt(rs, i).bytes, insensitive), if i == 0 then keep else true))
    && (forall i :: 0 <= i < |calls| - 1 ==> SearchGoesOn(full[..|log| + i], ReadAt(rs, i), insensitive, stops))
    && (rc == -1 ==>
          && ReadAt(rs, |calls|).ReadError?
          && (|calls| == 0 || SearchGoesOn(full[..|full| - 1], ReadAt(rs, |calls| - 1), insensitive, stops)))
    && (rc == 0 ==> |calls| > 0 && !SearchGoesOn(full[..|full| - 1], ReadAt(rs, |calls| - 1), insensitive, stops))
  }

  /** search_file's loop keeps to its stopping rules on every input. */
  lemma {:induction false} SearchLoopShape(log: seq<Event>, rs: seq<ReadResult>, keep: bool, insensitive: bool,
                                           stops: (seq<Event>, seq<byte>) -> bool)
    ensures var r := SearchLoop(log, rs, keep, insensitive, stops);
      SearchShape(log, r.0, r.1, rs, keep, insensitive, stops)
    decreases |rs|
  {
    var r := SearchLoop(log, rs, keep, insensitive, stops);
    match NextRead(rs)
    case ReadError =>
      SearchShapeFailed(log, rs, keep, insensitive, stops);
    case Got(bytes) =>
      var w := Window(bytes, insensitive);
      var next := log + [Search(w, keep)];
      if stops(log, w) || |bytes| != StreamBufferSize || |rs| == 0 {
        SearchShapeLast(log, rs, keep, insensitive, stops);
      } else {
        SearchLoopShape(next, rs[1..], true, insensitive, stops);
        SearchShapeCons(log, rs, keep, insensitive, stops, r.0, r.1);
      }
  }

  /** A failed first read: no call, and -1. */
  lemma SearchShapeFailed(log: seq<Event>, rs: seq<ReadResult>, keep: bool, insensitive: bool,
                          stops: (seq<Event>, seq<byte>) -> bool)
    requires NextRead(rs).ReadError?
    ensures SearchShape(log, log, -1, rs, keep, insensitive, stops)
  {
    ReadAtRest(rs, 0);
    assert log[|log|..] == [];
  }

  /** A first window after which the loop ends: one call, and 0. */
  lemma SearchShapeLast(log: seq<Event>, rs: seq<ReadResult>, keep: bool, insensitive: bool,
                        stops: (seq<Event>, seq<byte>) -> bool)
    requires NextRead(rs).Got? && !SearchGoesOn(log, NextRead(rs), insensitive, stops)
    ensures var full := log + [Search(Window(NextRead(rs).bytes, insensitive), keep)];
      SearchShape(log, full, 0, rs, keep, insensitive, stops)
  {
    ReadAtRest(rs, 0);
    var full := log + [Search(Window(NextRead(rs).bytes, insensitive), keep)];
    assert full[|log|..] == [full[|log|]];
    assert full[..|full| - 1] == log;
  }

  /** The step of SearchLoopShape: a full, non-stopping first window, then the rules for the rest. */
  lemma SearchShapeCons(log: seq<Event>, rs: seq<ReadResult>, keep: bool, insensitive: bool,
                        stops: (seq<Event>, seq<byte>) -> bool, full: seq<Event>, rc: int)
    requires |rs| > 0 && SearchGoesOn(log, rs[0], insensitive, stops)
    requires SearchShape(log + [Search(Window(rs[0].bytes, insensitive), keep)], full, rc, rs[1..], true, insensitive, stops)
    ensures SearchShape(log, full, rc, rs, keep, insensitive, stops)
  {
    var next := log + [Search(Window(rs[0].bytes, insensitive), keep)];
    assert full[..|log|] == full[..|next|][..|log|] == log;
    var calls := full[|log|..];
    var later := full[|next|..];
    assert |calls| == |later| + 1;
    forall i | 0 <= i < |calls|
      ensures ReadAt(rs, i).Got? && calls[i] == Search(Window(ReadAt(rs, i).bytes, insensitive), if i == 0 then keep else true)
      ensures i < |calls| - 1 ==> SearchGoesOn(full[..|log| + i], ReadAt(rs, i), insensitive, stops)
    {
      if i == 0 {
        assert calls[0] == full[..|next|][|log|];
      } else {
        ReadAtRest(rs, i - 1);
        assert calls[i] == later[i - 1];
        assert |next| + (i - 1) == |log| + i;
      }
    }
    ReadAtRest(rs, |later|);
    if |later| == 0 {
      assert full[..|full| - 1] == log;
    } else {
      ReadAtRest(rs, |later| - 1);
    }
  }

  /** The rs of a regular file: full windows, then the rest, then the end. */
  function FileReads(data: seq<byte>): (r: seq<ReadResult>)
    ensures WellSized(r)
    decreases |data|
  {
    if |data| < StreamBufferSize then [Got(data)]
    else [Got(data[..StreamBufferSize])] + FileReads(data[StreamBufferSize..])
  }

  /** The texts of a sequence of search or replace calls, one after another. */
  function Texts(calls: seq<Event>): seq<byte>
    decreases |calls|
  {
    if |calls| == 0 then []
    else (if calls[0].Flush? then [] else calls[0].text) + Texts(calls[1..])
  }

  /** The texts of calls that extend `log` by the call `e` and then by more calls. */
  lemma TextsAfterOne(full: seq<Event>, log: seq<Event>, e: Event)
    requires !e.Flush?
    requires |log| + 1 <= |full| && full[..|log| + 1] == log + [e]
    ensures Texts(full[|log|..]) == e.text + Texts(full[|log| + 1..])
  {
    var calls := full[|log|..];
    assert calls[0] == full[..|log| + 1][|log|] == e;
    assert calls[1..] == full[|log| + 1..];
  }

  /** Windows of consecutive reads fold like the bytes they hold. */
  lemma WindowAppend(a: seq<byte>, b: seq<byte>, insensitive: bool)
    ensures Window(a + b, insensitive) == Window(a, insensitive) + Window(b, insensitive)
  {
    if insensitive {
      Case.LowerAllAppend(a, b);
    }
  }

  /** A full window that does not stop the search: the loop goes on with keep = 1. */
  lemma SearchFullWindow(log: seq<Event>, rs: seq<ReadResult>, keep: bool, insensitive: bool,
                         stops: (seq<Event>, seq<byte>) -> bool)
    requires |rs| > 0 && rs[0].Got? && |rs[0].bytes| == StreamBufferSize
    requires !stops(log, Window(rs[0].bytes, insensitive))
    ensures SearchLoop(log, rs, keep, insensitive, stops) ==
      SearchLoop(log + [Search(Window(rs[0].bytes, insensitive), keep)], rs[1..], true, insensitive, stops)
  {
  }

  /**
   * When no callback stops it, search_file hands the automaton the whole
   * file, window after window (folded to lower case in case-insensitive
   * mode), and returns 0.
   */
  lemma {:induction false} SearchCoversFile(log: seq<Event>, data: seq<byte>, keep: bool, insensitive: bool,
                                            stops: (seq<Event>, seq<byte>) -> bool)
    requires forall l, w :: !stops(l, w)
    ensures var r := SearchLoop(log, FileReads(data), keep, insensitive, stops);
      r.1 == 0 && Texts(r.0[|log|..]) == Window(data, insensitive)
    decreases |data|
  {
    var rs := FileReads(data);
    var r := SearchLoop(log, rs, keep, insensitive, stops);
    if |data| < StreamBufferSize {
      var e := Search(Window(data, insensitive), keep);
      assert rs == [Got(data)];
      assert r == (log + [e], 0);
      TextsAfterOne(r.0, log, e);
      assert r.0[|log| + 1..] == [];
    } else {
      var head := data[..StreamBufferSize];
      var tail := data[StreamBufferSize..];
      var e := Search(Window(head, insensitive), keep);
      assert rs == [Got(head)] + FileReads(tail);
      assert rs[1..] == FileReads(tail);
      SearchFullWindow(log, rs, keep, insensitive, stops);
      SearchCoversFile(log + [e], tail, true, insensitive, stops);
      TextsAfterOne(r.0, log, e);
      assert data == head + tail;
      WindowAppend(head, tail, insensitive);
    }
  }

  /** Copies one read into the stream buffer and folds it in place in case-insensitive mode. */
  method FillWindow(buffer: array<byte>, bytes: seq<byte>, insensitive: bool)
    requires |bytes| <= buffer.Length
    modifies buffer
    ensures buffer[..|bytes|] == Window(bytes, insensitive)
  {
    forall i | 0 <= i < |bytes| {
      buffer[i] := bytes[i];
    }
    assert buffer[..|bytes|] == bytes;
    if insensitive {
      Case.LowerCase(buffer, |bytes|);
    }
  }

  /**
   * `search_file`: opens the input (standard input for "-"), resets the match
   * parameters and runs the read loop; -1 when the input cannot be opened or
   * a read fails.
   */
  method SearchFile(filename: seq<char>, input: Input, trie: Automaton, mparm: Driver.MatchParam,
                    insensitive: bool, buffer: array<byte>) returns (rc: int)
    requires input.Valid() && buffer.Length == StreamBufferSize
    modifies input, trie, mparm, buffer
    ensures !Opened(filename, input.opens) ==> rc == -1 && trie.log == old(trie.log) && input.pending == old(input.pending)
    ensures Opened(filename, input.opens) ==>
      (trie.log, rc) == SearchLoop(old(trie.log), old(input.pending), false, insensitive, trie.stops)
    ensures Opened(filename, input.opens) ==>
      mparm.fname == if ReadsStdin(filename) then None else Some(filename)
  {
    if !ReadsStdin(filename) && !input.opens {
      return -1;
    }
    mparm.Reset(if ReadsStdin(filename) then None else Some(filename));
    ghost var goal := SearchLoop(trie.log, input.pending, false, insensitive, trie.stops);
    var keep := false;
    var more := true;
    while more
      invariant input.Valid() && mparm.fname == if ReadsStdin(filename) then None else Some(filename)
      invariant more ==> goal == SearchLoop(trie.log, input.pending, keep, insensitive, trie.stops)
      invariant !more ==> goal == (trie.log, 0)
      decreases |input.pending| + if more then 1 else 0
    {
      ghost var rs := input.pending;
      var r := input.Read();
      if r.ReadError? {
        return -1;
      }
      var n := |r.bytes|;
      FillWindow(buffer, r.bytes, insensitive);
      var stop := trie.Search(buffer[..n], keep);
      if stop {
        more := false;
      } else {
        keep := true;
        more := n == StreamBufferSize;
        assert more ==> |rs| > 0;
      }
    }
    rc := 0;
  }

  // ---------------------------------------------------------------------
  // replace_file
  // ---------------------------------------------------------------------

  /**
   * The `do ... while (1)` loop of replace_file: a read error ends it with
   * -1, an empty read ends it, and so does a window that stops the engine.
   */
  function ReplaceLoop(log: seq<Event>, rs: seq<ReadResult>, insensitive: bool, lazy: bool,
                       stops: (seq<Event>, seq<byte>) -> bool): (r: (seq<Event>, int))
    ensures r.1 == 0 || r.1 == -1
    ensures |log| <= |r.0| && r.0[..|log|] == log
    ensures forall i :: |log| <= i < |r.0| ==> r.0[i].Replace?
    decreases |rs|
  {
    match NextRead(rs)
    case ReadError => (log, -1)
    case Got(bytes) =>
      if |bytes| == 0 || |rs| == 0 then (log, 0)
      else
        var w := Window(bytes, insensitive);
        var next := log + [Replace(w, lazy)];
        if stops(log, w) then (next, 0)
        else ReplaceLoop(next, rs[1..], insensitive, lazy, stops)
  }

  /**
   * The stopping rules of replace_file's loop, for a loop that extended
   * `log` to `full` and returned `rc`: call `i` replaces in the window of
   * read `i`, which held bytes; no call but the last stopped the engine;
   * -1 comes from a failed read, and 0 from a stopping call or an empty
   * read, after which no call is made.
   */
  ghost predicate ReplaceShape(log: seq<Event>, full: seq<Event>, rc: int, rs: seq<ReadResult>, insensitive: bool,
                               lazy: bool, stops: (seq<Event>, seq<byte>) -> bool) {
    && |log| <= |full| && full[..|log|] == log
    && var calls := full[|log|..];
    && (forall i :: 0 <= i < |calls| ==>
          && ReadAt(rs, i).Got? && |ReadAt(rs, i).bytes| > 0
          && calls[i] == Replace(Window(ReadAt(rs, i).bytes, insensitive), lazy))
    && (forall i :: 0 <= i < |calls| - 1 ==> !stops(full[..|log| + i], calls[i].text))
    // the read after the last call happens only when that call did not stop the engine
    && var readsOn := |calls| == 0 || !stops(full[..|full| - 1], calls[|calls| - 1].text);
    && (rc == -1 ==> readsOn && ReadAt(rs, |calls|).ReadError?)
    && (rc == 0 ==> !readsOn || (ReadAt(rs, |calls|).Got? && |ReadAt(rs, |calls|).bytes| == 0))
  }

  /** replace_file's loop keeps to its stopping rules on every input. */
  lemma {:induction false} ReplaceLoopShape(log: seq<Event>, rs: seq<ReadResult>, insensitive: bool, lazy: bool,
                                            stops: (seq<Event>, seq<byte>) -> bool)
    ensures var r := ReplaceLoop(log, rs, insensitive, lazy, stops);
      ReplaceShape(log, r.0, r.1, rs, insensitive, lazy, stops)
    decreases |rs|
  {
    var r := ReplaceLoop(log, rs, insensitive, lazy, stops);
    match NextRead(rs)
    case ReadError =>
      ReplaceShapeNone(log, rs, -1, insensitive, lazy, stops);
    case Got(bytes) =>
      if |bytes| == 0 || |rs| == 0 {
        ReplaceShapeNone(log, rs, 0, insensitive, lazy, stops);
      } else {
        var w := Window(bytes, insensitive);
        var next := log + [Replace(w, lazy)];
        if stops(log, w) {
          ReplaceShapeStopped(log, rs, insensitive, lazy, stops);
        } else {
          ReplaceLoopShape(next, rs[1..], insensitive, lazy, stops);
          ReplaceShapeCons(log, rs, insensitive, lazy, stops, r.0, r.1);
        }
      }
  }

  /** A first read that fails (-1) or is empty (0): no call. */
  lemma ReplaceShapeNone(log: seq<Event>, rs: seq<ReadResult>, rc: int, insensitive: bool, lazy: bool,
                         stops: (seq<Event>, seq<byte>) -> bool)
    requires rc == -1 || rc == 0
    requires rc == -1 <==> NextRead(rs).ReadError?
    requires NextRead(rs).Got? ==> |NextRead(rs).bytes| == 0
    ensures ReplaceShape(log, log, rc, rs, insensitive, lazy, stops)
  {
    ReadAtRest(rs, 0);
    assert log[|log|..] == [];
  }

  /** A first window that stops the engine: one call, and 0. */
  lemma ReplaceShapeStopped(log: seq<Event>, rs: seq<ReadResult>, insensitive: bool, lazy: bool,
                            stops: (seq<Event>, seq<byte>) -> bool)
    requires NextRead(rs).Got? && |NextRead(rs).bytes| > 0
    requires stops(log, Window(NextRead(rs).bytes, insensitive))
    ensures var full := log + [Replace(Window(NextRead(rs).bytes, insensitive), lazy)];
      ReplaceShape(log, full, 0, rs, insensitive, lazy, stops)
  {
    ReadAtRest(rs, 0);
    var full := log + [Replace(Window(NextRead(rs).bytes, insensitive), lazy)];
    assert full[|log|..] == [full[|log|]];
    assert full[..|full| - 1] == log;
  }

  /** The step of ReplaceLoopShape: a non-empty first window that does not stop the engine, then the rules for the rest. */
  lemma ReplaceShapeCons(log: seq<Event>, rs: seq<ReadResult>, insensitive: bool, lazy: bool,
                         stops: (seq<Event>, seq<byte>) -> bool, full: seq<Event>, rc: int)
    requires |rs| > 0 && rs[0].Got? && |rs[0].bytes| > 0 && !stops(log, Window(rs[0].bytes, insensitive))
    requires ReplaceShape(log + [Replace(Window(rs[0].bytes, insensitive), lazy)], full, rc, rs[1..], insensitive, lazy, stops)
    ensures ReplaceShape(log, full, rc, rs, insensitive, lazy, stops)
  {
    var next := log + [Replace(Window(rs[0].bytes, insensitive), lazy)];
    assert full[..|log|] == full[..|next|][..|log|] == log;
    var calls := full[|log|..];
    var later := full[|next|..];
    assert |calls| == |later| + 1;
    forall i | 0 <= i < |calls|
      ensures ReadAt(rs, i).Got? && |ReadAt(rs, i).bytes| > 0
      ensures calls[i] == Replace(Window(ReadAt(rs, i).bytes, insensitive), lazy)
      ensures i < |calls| - 1 ==> !stops(full[..|log| + i], calls[i].text)
    {
      if i == 0 {
        assert calls[0] == full[..|next|][|log|];
      } else {
        ReadAtRest(rs, i - 1);
        assert calls[i] == later[i - 1];
        assert |next| + (i - 1) == |log| + i;
      }
    }
    ReadAtRest(rs, |later|);
    if |later| == 0 {
      assert full[..|full| - 1] == log;
    } else {
      assert calls[|calls| - 1] == later[|later| - 1];
    }
  }

  /** The loop and the flush after it; a read error returns before the flush. */
  function ReplaceRun(log: seq<Event>, rs: seq<ReadResult>, insensitive: bool, lazy: bool,
                      stops: (seq<Event>, seq<byte>) -> bool): (r: (seq<Event>, int))
  {
    var (calls, rc) := ReplaceLoop(log, rs, insensitive, lazy, stops);
    if rc < 0 then (calls, rc) else (calls + [Flush], 0)
  }

  /**
   * After a replace run, the engine has been flushed exactly once, as its
   * last call, when the run returned 0, and never when a read failed.
   */
  lemma FlushOnce(log: seq<Event>, rs: seq<ReadResult>, insensitive: bool, lazy: bool,
                  stops: (seq<Event>, seq<byte>) -> bool)
    ensures var r := ReplaceRun(log, rs, insensitive, lazy, stops);
      var calls := r.0[|log|..];
      && (r.1 == 0 ==> |calls| > 0 && calls[|calls| - 1] == Flush && forall i :: 0 <= i < |calls| - 1 ==> calls[i].Replace?)
      && (r.1 == -1 ==> forall i :: 0 <= i < |calls| ==> calls[i].Replace?)
  {
    var (loopCalls, rc) := ReplaceLoop(log, rs, insensitive, lazy, stops);
    var r := ReplaceRun(log, rs, insensitive, lazy, stops);
    var calls := r.0[|log|..];
    forall i | 0 <= i < |calls| && (rc == -1 || i < |calls| - 1)
      ensures calls[i].Replace?
    {
      assert calls[i] == loopCalls[|log| + i];
    }
  }

  /**
   * When no window stops the engine, replace_file hands it the whole file
   * (folded in case-insensitive mode) before the flush.
   */
  lemma {:induction false} ReplaceCoversFile(log: seq<Event>, data: seq<byte>, insensitive: bool, lazy: bool,
                                             stops: (seq<Event>, seq<byte>) -> bool)
    requires forall l, w :: !stops(l, w)
    ensures var r := ReplaceLoop(log, FileReads(data), insensitive, lazy, stops);
      r.1 == 0 && Texts(r.0[|log|..]) == Window(data, insensitive)
    decreases |data|
  {
    var rs := FileReads(data);
    var r := ReplaceLoop(log, rs, insensitive, lazy, stops);
    if |data| == 0 {
      assert rs == [Got([])];
      assert r.0[|log|..] == [];
    } else if |data| < StreamBufferSize {
      var e := Replace(Window(data, insensitive), lazy);
      assert rs == [Got(data)];
      ReplaceNonEmpty(log, rs, insensitive, lazy, stops);
      assert r == (log + [e], 0);
      TextsAfterOne(r.0, log, e);
      assert r.0[|log| + 1..] == [];
    } else {
      var head := data[..StreamBufferSize];
      var tail := data[StreamBufferSize..];
      var e := Replace(Window(head, insensitive), lazy);
      assert rs == [Got(head)] + FileReads(tail);
      assert rs[1..] == FileReads(tail);
      ReplaceNonEmpty(log, rs, insensitive, lazy, stops);
      ReplaceCoversFile(log + [e], tail, insensitive, lazy, stops);
      TextsAfterOne(r.0, log, e);
      assert data == head + tail;
      WindowAppend(head, tail, insensitive);
    }
  }

  /** A non-empty window that does not stop the engine: the loop goes on. */
  lemma ReplaceNonEmpty(log: seq<Event>, rs: seq<ReadResult>, insensitive: bool, lazy: bool,
                        stops: (seq<Event>, seq<byte>) -> bool)
    requires |rs| > 0 && rs[0].Got? && |rs[0].bytes| > 0
    requires !stops(log, Window(rs[0].bytes, insensitive))
    ensures ReplaceLoop(log, rs, insensitive, lazy, stops) ==
      ReplaceLoop(log + [Replace(Window(rs[0].bytes, insensitive), lazy)], rs[1..], insensitive, lazy, stops)
  {
  }

  /** The output files `replace_file` opens, and the names whose opening fails. */
  class Outputs {
    var created: seq<seq<char>>
    const refused: set<seq<char>>

    constructor (refused: set<seq<char>>)
      ensures created == [] && this.refused == refused
    {
      created := [];
      this.refused := refused;
    }

    /** `open(outfile, O_WRONLY|O_CREAT|O_TRUNC, mode)` */
    method Open(name: seq<char>) returns (ok: bool)
      modifies this
      ensures ok <==> name !in refused
      ensures created == if ok then old(created) + [name] else old(created)
    {
      ok := name !in refused;
      if ok {
        created := created + [name];
      }
    }
  }

  /** The input passes replace_file's checks: it is opened, its status is read, and it is no directory. */
  predicate Admitted(infile: seq<char>, input: Input)
    reads input
  {
    Opened(infile, input.opens) && !input.statFails && !input.isDir
  }

  /**
   * `replace_file`: checks the input, opens the output (standard output when
   * there is no output name), runs the replace loop and flushes the engine.
   */
  method ReplaceFile(trie: Automaton, infile: seq<char>, outfile: Option<seq<char>>, input: Input, outputs: Outputs,
                     insensitive: bool, lazy: bool, buffer: array<byte>) returns (rc: int)
    requires input.Valid() && buffer.Length == StreamBufferSize
    modifies trie, input, outputs, buffer
    // a rejected input, directories included, is refused before any output is opened
    ensures !Admitted(infile, input) ==> rc == -1 && outputs.created == old(outputs.created) && trie.log == old(trie.log)
    ensures Admitted(infile, input) && outfile.Some? && outfile.value in outputs.refused ==>
      rc == -1 && outputs.created == old(outputs.created) && trie.log == old(trie.log)
    ensures Admitted(infile, input) && !(outfile.Some? && outfile.value in outputs.refused) ==>
      && outputs.created == old(outputs.created) + (if outfile.Some? then [outfile.value] else [])
      && (trie.log, rc) == ReplaceRun(old(trie.log), old(input.pending), insensitive, lazy, trie.stops)
  {
    if !ReadsStdin(infile) && !input.opens {
      return -1;
    }
    if input.statFails {
      return -1;
    }
    if input.isDir {
      return -1;
    }
    if outfile.Some? {
      var ok := outputs.Open(outfile.value);
      if !ok {
        return -1;
      }
    }
    ghost var goal := ReplaceLoop(trie.log, input.pending, insensitive, lazy, trie.stops);
    var more := true;
    while more
      invariant input.Valid()
      invariant outputs.created == old(outputs.created) + (if outfile.Some? then [outfile.value] else [])
      invariant more ==> goal == ReplaceLoop(trie.log, input.pending, insensitive, lazy, trie.stops)
      invariant !more ==> goal == (trie.log, 0)
      decreases |input.pending| + if more then 1 else 0
    {
      ghost var rs := input.pending;
      var r := input.Read();
      if r.ReadError? {
        return -1;
      }
      var n := |r.bytes|;
      if n == 0 {
        more := false;
      } else {
        assert |rs| > 0;
        FillWindow(buffer, r.bytes, insensitive);
        var stop := trie.Replace(buffer[..n], lazy);
        if stop {
          more := false;
        }
      }
    }
    trie.Flush();
    rc := 0;
  }
}
