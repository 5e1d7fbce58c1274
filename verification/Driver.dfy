/**
 * The driver of multifast.c: the program configuration, the checks and the
 * normalisation `main` applies to it, and the match callback that counts
 * matches and lays out the report line for each.
 */
module Driver {
  import opened Common
  import Catalog

  /** `unsigned long`/`size_t` arithmetic wraps modulo 2^64; `unsigned int` modulo 2^32. */
  const Word64: nat := 0x1_0000_0000_0000_0000
  const Word32: nat := 0x1_0000_0000

  /** `enum working_mode` */
  datatype WorkingMode = SearchMode | ReplaceMode

  /** The five `output_show_*` fields: item number, decimal and hex start, representative, pattern. */
  datatype Toggles = Toggles(item: bool, dpos: bool, xpos: bool, reprv: bool, pattern: bool)

  /** `struct program_config`; a NULL pointer is None, `input_files` is the argument list after the options. */
  datatype Config = Config(
    patternFile: Option<seq<char>>,
    mode: WorkingMode,
    inputFiles: seq<seq<char>>,
    outputDir: Option<seq<char>>,
    findFirst: bool,
    verbosity: bool,
    insensitive: bool,
    lazyReplace: bool,
    show: Toggles)

  predicate AnyShown(t: Toggles) {
    t.item || t.dpos || t.xpos || t.reprv || t.pattern
  }

  /**
   * The output toggles as `main` corrects them: with none chosen, the
   * decimal start and the pattern are shown.
   */
  function Normalize(t: Toggles): (r: Toggles)
    ensures AnyShown(r)
    ensures AnyShown(t) ==> r == t
    ensures !AnyShown(t) ==> r.dpos && r.pattern && !r.item && !r.xpos && !r.reprv
  {
    if AnyShown(t) then t else t.(dpos := true, pattern := true)
  }

  /** How `main`'s start-up checks end: go on, or print the usage or the `-l` complaint and exit(1). */
  datatype Startup = Ready(config: Config) | UsageExit | LazyExit

  /**
   * The checks of `main` before the patterns are loaded, for `argc` command
   * line words that getopt turned into `c`.
   */
  function Start(argc: int, c: Config): (r: Startup)
    ensures r == UsageExit <==> argc < 4 || c.patternFile.None? || |c.inputFiles| == 0
    ensures r == LazyExit <==> r != UsageExit && c.lazyReplace && c.mode != ReplaceMode
    ensures r.Ready? ==> r.config == c.(show := Normalize(c.show)) && AnyShown(r.config.show)
  {
    if argc < 4 then UsageExit
    else if c.patternFile.None? || |c.inputFiles| == 0 then UsageExit
    else
      var c' := c.(show := Normalize(c.show));
      if c'.lazyReplace && c'.mode != ReplaceMode then LazyExit
      else Ready(c')
  }

  // ---------------------------------------------------------------------
  // Start positions
  // ---------------------------------------------------------------------

  /** `position - length + 1` in `size_t` arithmetic. */
  function StartOffset(position: nat, length: nat): (r: nat)
    requires position < Word64 && length < Word64
    ensures r < Word64
    // the unsigned difference: adding `length` back gives `position + 1` modulo 2^64
    ensures (r + length) % Word64 == (position + 1) % Word64
    ensures 0 < length <= position + 1 ==> r == position + 1 - length
  {
    (position + 1 - length) % Word64
  }

  /** A 64-bit value printed with `%ld`: the two's complement reading. */
  function AsLong(u: nat): (r: int)
    requires u < Word64
    ensures 0 <= r + Word64 / 2 < Word64
    ensures r % Word64 == u
  {
    if u < Word64 / 2 then u else u - Word64
  }

  /** The decimal start position of a match line (`@%ld`). */
  function DecimalStart(position: nat, length: nat): (r: int)
    requires position < Word64 && length < Word64
    ensures 0 < length <= position + 1 && position < Word64 / 2 ==> r == position - length + 1
    ensures length == position + 2 ==> r == -1
  {
    AsLong(StartOffset(position, length))
  }

  /** The hex start position of a match line (`@%08X` of the value cast to `unsigned int`). */
  function HexStart(position: nat, length: nat): (r: nat)
    requires position < Word64 && length < Word64
    ensures r < Word32
    ensures 0 < length <= position + 1 ==> r == (position - length + 1) % Word32
  {
    StartOffset(position, length) % Word32
  }

  // ---------------------------------------------------------------------
  // match_handler
  // ---------------------------------------------------------------------

  /** `AC_MATCH_t`: the patterns that end at `position`; `size` is their number. */
  datatype Match = Match(patterns: seq<Catalog.PatternRecord>, position: nat)

  /** One printed line of a match report; each field is None when it is switched off. */
  datatype Line = Line(
    fname: Option<seq<char>>,
    item: Option<nat>,
    dpos: Option<int>,
    xpos: Option<nat>,
    reprv: Option<Option<seq<byte>>>,
    shown: Option<seq<char>>)

  predicate Printable(m: Match) {
    && m.position < Word64
    && |m.patterns| < Word64
    && forall j :: 0 <= j < |m.patterns| ==> |m.patterns[j].ptext| < Word64
  }

  /** The line for the `j`-th pattern of a match, numbered `number` when item numbers are shown. */
  function LineFor(m: Match, j: nat, show: Toggles, fname: Option<seq<char>>, number: nat): (r: Line)
    requires Printable(m) && j < |m.patterns|
    ensures r.fname == fname
    ensures r.item == (if show.item then Some(number) else None)
    // the start position, in decimal and in hex, of the pattern that ends at the match position
    ensures r.dpos == (if show.dpos then Some(DecimalStart(m.position, |m.patterns[j].ptext|)) else None)
    ensures r.xpos == (if show.xpos then Some(HexStart(m.position, |m.patterns[j].ptext|)) else None)
    ensures r.reprv == (if show.reprv then Some(m.patterns[j].id) else None)
    ensures r.shown == (if show.pattern then Some(Catalog.Display(m.patterns[j].ptext)) else None)
  {
    var p := m.patterns[j];
    Line(
      fname,
      if show.item then Some(number) else None,
      if show.dpos then Some(DecimalStart(m.position, |p.ptext|)) else None,
      if show.xpos then Some(HexStart(m.position, |p.ptext|)) else None,
      if show.reprv then Some(p.id) else None,
      if show.pattern then Some(Catalog.Display(p.ptext)) else None)
  }

  /**
   * The lines `match_handler` prints for a match, after `count` earlier
   * numbered lines: one per pattern, numbered on from `count`.
   */
  function Lines(m: Match, show: Toggles, fname: Option<seq<char>>, count: nat): (r: seq<Line>)
    requires Printable(m)
    ensures |r| == |m.patterns|
    ensures forall j :: 0 <= j < |r| ==> r[j].fname == fname && (r[j].item.Some? <==> show.item)
    ensures show.item ==> forall j :: 0 <= j < |r| ==> r[j].item == Some((count + j + 1) % Word64)
    ensures forall j :: 0 <= j < |r| ==>
      var p := m.patterns[j];
      && r[j].dpos == (if show.dpos then Some(DecimalStart(m.position, |p.ptext|)) else None)
      && r[j].xpos == (if show.xpos then Some(HexStart(m.position, |p.ptext|)) else None)
      && r[j].reprv == (if show.reprv then Some(p.id) else None)
      && r[j].shown == (if show.pattern then Some(Catalog.Display(p.ptext)) else None)
  {
    var r := seq(|m.patterns|, j requires 0 <= j < |m.patterns| => LineFor(m, j, show, fname, (count + j + 1) % Word64));
    assert forall j :: 0 <= j < |r| ==> r[j] == LineFor(m, j, show, fname, (count + j + 1) % Word64);
    r
  }

  /** `struct match_param` as search_file uses it. */
  class MatchParam {
    var totalMatch: nat
    var item: nat
    var fname: Option<seq<char>>

    ghost predicate Valid()
      reads this
    {
      totalMatch < Word64 && item < Word64
    }

    /** A zero-initialised static. */
    constructor ()
      ensures Valid() && totalMatch == 0 && item == 0 && fname == None
    {
      totalMatch, item, fname := 0, 0, None;
    }

    /** `mparm.item = 0; mparm.total_match = 0; mparm.fname = ...` */
    method Reset(name: Option<seq<char>>)
      modifies this
      ensures Valid() && totalMatch == 0 && item == 0 && fname == name
    {
      totalMatch, item, fname := 0, 0, name;
    }

    /**
     * `match_handler`: prints one line per matched pattern, counts the lines
     * when item numbers are shown, adds the match size to the total, and asks
     * the search to stop exactly in find-first mode.
     */
    method Handle(m: Match, show: Toggles, findFirst: bool) returns (stop: bool, lines: seq<Line>)
      requires Valid() && Printable(m)
      modifies this
      ensures Valid() && fname == old(fname)
      ensures stop == findFirst
      ensures totalMatch == (old(totalMatch) + |m.patterns|) % Word64
      ensures item == (old(item) + if show.item then |m.patterns| else 0) % Word64
      ensures lines == Lines(m, show, fname, old(item))
    {
      ghost var all := Lines(m, show, fname, item);
      var count := item;
      lines := [];
      var j := 0;
      while j < |m.patterns|
        invariant 0 <= j <= |m.patterns|
        invariant Valid() && fname == old(fname) && totalMatch == old(totalMatch)
        invariant item == (count + if show.item then j else 0) % Word64
        invariant lines == all[..j]
      {
        if show.item {
          WrapStep(count, j);
          item := (item + 1) % Word64;
        }
        lines := lines + [LineFor(m, j, show, fname, (count + j + 1) % Word64)];
        j := j + 1;
      }
      totalMatch := (totalMatch + |m.patterns|) % Word64;
      stop := findFirst;
    }
  }

  /** Counting one more line modulo 2^64. */
  lemma WrapStep(count: nat, j: nat)
    ensures ((count + j) % Word64 + 1) % Word64 == (count + j + 1) % Word64
  {
  }
}
