/**
 * The pattern catalog of pattern.c: turns the tokens of a pattern file into
 * pattern records, copies their text into the string arena and offers each
 * record to the Aho-Corasick automaton.
 */
module Catalog {
  import opened Common
  import Case
  import Arena

  // ---------------------------------------------------------------------
  // Generated identifiers: pattern_genrep's "p%06d"
  // ---------------------------------------------------------------------

  predicate IsDigit(b: byte) {
    '0' as int <= b <= '9' as int
  }

  predicate AllDigits(s: seq<byte>) {
    forall i :: 0 <= i < |s| ==> IsDigit(s[i])
  }

  function DigitByte(d: nat): byte
    requires d < 10
  {
    '0' as int + d
  }

  /** The decimal digits of `n`, most significant first, as `%d` prints them. */
  function Digits(n: nat): (r: seq<byte>)
    ensures 1 <= |r| && AllDigits(r)
    decreases n
  {
    if n < 10 then [DigitByte(n)] else Digits(n / 10) + [DigitByte(n % 10)]
  }

  function Zeros(k: nat): (r: seq<byte>)
    ensures |r| == k && AllDigits(r)
  {
    seq(k, _ => '0' as int)
  }

  /** `%06d`: the digits, left-padded with '0' to at least six of them. */
  function PadSix(d: seq<byte>): seq<byte> {
    if |d| < 6 then Zeros(6 - |d|) + d else d
  }

  /** The identifier `pattern_genrep` prints for counter value `n`. */
  function GenId(n: nat): (r: seq<byte>)
    ensures |r| >= 7 && r[0] == 'p' as int && AllDigits(r[1..])
    ensures forall i :: 0 <= i < |r| ==> r[i] != 0
  {
    ['p' as int] + PadSix(Digits(n))
  }

  /** The number a string of decimal digits denotes. */
  function DecimalValue(d: seq<byte>): nat
    requires AllDigits(d)
    decreases |d|
  {
    if |d| == 0 then 0 else DecimalValue(d[..|d| - 1]) * 10 + (d[|d| - 1] - '0' as int)
  }

  /** Reads the counter back out of a generated identifier. */
  function IdNumber(id: seq<byte>): nat
    requires |id| >= 1 && AllDigits(id[1..])
  {
    DecimalValue(id[1..])
  }

  lemma {:induction false} DigitsValue(n: nat)
    ensures DecimalValue(Digits(n)) == n
    decreases n
  {
    if n >= 10 {
      DigitsValue(n / 10);
      var d := Digits(n);
      assert d[..|d| - 1] == Digits(n / 10);
    }
  }

  lemma {:induction false} ZerosValue(k: nat)
    ensures DecimalValue(Zeros(k)) == 0
  {
    if k > 0 {
      ZerosValue(k - 1);
      assert Zeros(k)[..k - 1] == Zeros(k - 1);
    }
  }

  /** Leading zeros do not change the value. */
  lemma {:induction false} LeadingZerosValue(k: nat, d: seq<byte>)
    requires AllDigits(d)
    ensures DecimalValue(Zeros(k) + d) == DecimalValue(d)
    decreases |d|
  {
    if |d| == 0 {
      assert Zeros(k) + d == Zeros(k);
      ZerosValue(k);
    } else {
      var z := Zeros(k) + d;
      assert z[..|z| - 1] == Zeros(k) + d[..|d| - 1];
      LeadingZerosValue(k, d[..|d| - 1]);
    }
  }

  /** Round trip: the counter can be read back from the identifier it produced. */
  lemma GenIdRoundTrip(n: nat)
    ensures IdNumber(GenId(n)) == n
  {
    var d := Digits(n);
    DigitsValue(n);
    assert GenId(n)[1..] == PadSix(d);
    if |d| < 6 {
      LeadingZerosValue(6 - |d|, d);
    }
  }

  /** Different counter values give different identifiers. */
  lemma GenIdInjective(m: nat, n: nat)
    requires GenId(m) == GenId(n)
    ensures m == n
  {
    GenIdRoundTrip(m);
    GenIdRoundTrip(n);
  }

  function Pow10(k: nat): nat {
    if k == 0 then 1 else 10 * Pow10(k - 1)
  }

  lemma {:induction false} DigitsLength(n: nat, k: nat)
    requires 1 <= k && n < Pow10(k)
    ensures |Digits(n)| <= k
    decreases n
  {
    if n >= 10 {
      assert Pow10(1) == 10;
      assert k >= 2;
      assert n / 10 < Pow10(k - 1);
      DigitsLength(n / 10, k - 1);
    }
  }

  /** Up to 999999 every generated identifier is exactly seven bytes: 'p' and six digits. */
  lemma GenIdLength(n: nat)
    requires n <= 999999
    ensures |GenId(n)| == 7
  {
    assert Pow10(6) == 1000000;
    DigitsLength(n, 6);
  }

  // ---------------------------------------------------------------------
  // pattern_print: the display form of a pattern
  // ---------------------------------------------------------------------

  /** DISPLAY_PATT_LEN: how many bytes of a pattern are shown. */
  const DisplayPattLen: nat := 80

  /** `isprint` in the C locale. */
  predicate IsPrint(b: byte) {
    0x20 <= b <= 0x7e
  }

  function HexDigit(v: nat): char
    requires v < 16
  {
    if v < 10 then ('0' as int + v) as char else ('a' as int + v - 10) as char
  }

  /** The value of a lower-case hexadecimal digit. */
  function HexValue(c: char): nat {
    if '0' <= c <= '9' then c as int - '0' as int
    else if 'a' <= c <= 'f' then c as int - 'a' as int + 10
    else 0
  }

  /** A lower-case hexadecimal digit, as `%x` prints them. */
  predicate IsHexDigit(c: char) {
    '0' <= c <= '9' || 'a' <= c <= 'f'
  }

  /** Two characters that are `%02x` of byte `b`: lower-case hex digits that denote it. */
  predicate HexPair(hi: char, lo: char, b: byte) {
    IsHexDigit(hi) && IsHexDigit(lo) && HexValue(hi) * 16 + HexValue(lo) == b
  }

  /** `%02x` of one byte. */
  function Hex2(b: byte): (r: seq<char>)
    ensures |r| == 2 && HexPair(r[0], r[1], b)
  {
    [HexDigit(b / 16), HexDigit(b % 16)]
  }

  /** The hex loop of `pattern_print`: each byte as `%02x`, a space before every one but the first. */
  function HexList(bs: seq<byte>, first: bool): seq<char>
    decreases |bs|
  {
    if |bs| == 0 then [] else (if first then [] else [' ']) + Hex2(bs[0]) + HexList(bs[1..], false)
  }

  /** The plain loop of `pattern_print`: each byte as `%c`. */
  function TextList(bs: seq<byte>): seq<char>
    decreases |bs|
  {
    if |bs| == 0 then [] else [bs[0] as char] + TextList(bs[1..])
  }

  /** The number of bytes `pattern_print` shows. */
  function Shown(len: nat): nat {
    if len <= DisplayPattLen then len else DisplayPattLen
  }

  /** Whether `pattern_print` switches to hex: some shown byte is not printable. */
  predicate NeedsHex(p: seq<byte>) {
    exists i :: 0 <= i < Shown(|p|) && !IsPrint(p[i])
  }

  /** What `pattern_print` writes for pattern text `p`. */
  function Display(p: seq<byte>): seq<char> {
    var shown := p[..Shown(|p|)];
    ['{'] + (if NeedsHex(p) then HexList(shown, true) else TextList(shown))
      + (if |p| > DisplayPattLen then "..." else "") + ['}']
  }

  lemma {:induction false} TextListAt(bs: seq<byte>)
    ensures |TextList(bs)| == |bs|
    ensures forall i :: 0 <= i < |bs| ==> TextList(bs)[i] == bs[i] as char
    decreases |bs|
  {
    if |bs| > 0 {
      TextListAt(bs[1..]);
    }
  }

  lemma {:induction false} HexListAt(bs: seq<byte>)
    ensures |HexList(bs, false)| == 3 * |bs|
    ensures forall i :: 0 <= i < |bs| ==>
      && HexList(bs, false)[3 * i] == ' '
      && HexList(bs, false)[3 * i + 1] == Hex2(bs[i])[0]
      && HexList(bs, false)[3 * i + 2] == Hex2(bs[i])[1]
    decreases |bs|
  {
    if |bs| > 0 {
      HexListAt(bs[1..]);
      var tail := HexList(bs[1..], false);
      var h := HexList(bs, false);
      assert h == [' '] + Hex2(bs[0]) + tail;
      forall i | 1 <= i < |bs|
        ensures h[3 * i] == ' ' && h[3 * i + 1] == Hex2(bs[i])[0] && h[3 * i + 2] == Hex2(bs[i])[1]
      {
        assert bs[1..][i - 1] == bs[i];
        assert h[3 * i] == tail[3 * (i - 1)];
        assert h[3 * i + 1] == tail[3 * (i - 1) + 1];
        assert h[3 * i + 2] == tail[3 * (i - 1) + 2];
      }
    }
  }

  /** The hex loop over non-empty `bs`: digit pairs at 3i, 3i+1, spaces at 3i-1. */
  lemma HexListFirst(bs: seq<byte>)
    requires |bs| >= 1
    ensures var h := HexList(bs, true);
      && |h| == 3 * |bs| - 1
      && (forall i :: 0 <= i < |bs| ==> HexPair(h[3 * i], h[3 * i + 1], bs[i]))
      && (forall i :: 1 <= i < |bs| ==> h[3 * i - 1] == ' ')
  {
    var h := HexList(bs, true);
    var tail := HexList(bs[1..], false);
    assert h == Hex2(bs[0]) + tail;
    HexListAt(bs[1..]);
    forall i | 0 <= i < |bs|
      ensures HexPair(h[3 * i], h[3 * i + 1], bs[i])
      ensures 1 <= i ==> h[3 * i - 1] == ' '
    {
      if i == 0 {
        assert h[0] == Hex2(bs[0])[0] && h[1] == Hex2(bs[0])[1];
      } else {
        HexShift(bs, tail, i);
      }
    }
  }

  /** The entry for byte `i` of the hex loop sits three places further on than in the loop over the tail. */
  lemma HexShift(bs: seq<byte>, tail: seq<char>, i: nat)
    requires 1 <= i < |bs| && tail == HexList(bs[1..], false)
    requires |tail| == 3 * (|bs| - 1)
    requires tail[3 * (i - 1)] == ' '
    requires tail[3 * (i - 1) + 1] == Hex2(bs[1..][i - 1])[0] && tail[3 * (i - 1) + 2] == Hex2(bs[1..][i - 1])[1]
    ensures var h := Hex2(bs[0]) + tail;
      h[3 * i - 1] == ' ' && HexPair(h[3 * i], h[3 * i + 1], bs[i])
  {
    assert bs[1..][i - 1] == bs[i];
  }

  /** Where the parts of a display land: the brace, the body, the dots, the closing brace. */
  lemma BracedLayout(body: seq<char>, dots: seq<char>)
    ensures var r := ['{'] + body + dots + ['}'];
      && |r| == |body| + |dots| + 2
      && r[0] == '{' && r[|r| - 1] == '}'
      && r[1 + |body| .. 1 + |body| + |dots|] == dots
      && forall k :: 0 <= k < |body| ==> r[1 + k] == body[k]
  {
    var r := ['{'] + body + dots + ['}'];
    assert r[1 + |body| .. 1 + |body| + |dots|] == dots;
  }

  /**
   * In plain mode the display is the shown bytes verbatim between braces,
   * followed by "..." exactly when the pattern is longer than 80 bytes.
   */
  lemma DisplayPlain(p: seq<byte>)
    requires !NeedsHex(p)
    ensures var n := Shown(|p|); var r := Display(p);
      && |r| == n + 2 + (if |p| > DisplayPattLen then 3 else 0)
      && r[0] == '{' && r[|r| - 1] == '}'
      && (forall i :: 0 <= i < n ==> IsPrint(p[i]) && r[1 + i] == p[i] as char)
      && (|p| > DisplayPattLen ==> r[n + 1 .. n + 4] == "...")
  {
    var n := Shown(|p|);
    var body := TextList(p[..n]);
    var dots: seq<char> := if |p| > DisplayPattLen then "..." else "";
    TextListAt(p[..n]);
    BracedLayout(body, dots);
    assert Display(p) == ['{'] + body + dots + ['}'];
  }

  /** The hex body between braces: each byte's digit pair, with single spaces between pairs. */
  lemma BracedHex(shown: seq<byte>, dots: seq<char>)
    requires |shown| >= 1
    ensures var r := ['{'] + HexList(shown, true) + dots + ['}'];
      && |r| == 3 * |shown| - 1 + |dots| + 2
      && r[0] == '{' && r[|r| - 1] == '}'
      && r[3 * |shown| .. 3 * |shown| + |dots|] == dots
      && (forall i :: 0 <= i < |shown| ==> HexPair(r[1 + 3 * i], r[2 + 3 * i], shown[i]))
      && (forall i :: 1 <= i < |shown| ==> r[3 * i] == ' ')
  {
    var body := HexList(shown, true);
    HexListFirst(shown);
    BracedLayout(body, dots);
    var r := ['{'] + body + dots + ['}'];
    forall i | 0 <= i < |shown|
      ensures HexPair(r[1 + 3 * i], r[2 + 3 * i], shown[i])
      ensures 1 <= i ==> r[3 * i] == ' '
    {
      assert r[1 + 3 * i] == body[3 * i] && r[1 + (3 * i + 1)] == body[3 * i + 1];
      if 1 <= i {
        assert r[1 + (3 * i - 1)] == body[3 * i - 1];
      }
    }
  }

  /**
   * In hex mode every shown byte can be read back from its two digits,
   * the digit pairs are separated by single spaces, and "..." follows
   * exactly when the pattern is longer than 80 bytes.
   */
  lemma DisplayHex(p: seq<byte>)
    requires NeedsHex(p)
    ensures var n := Shown(|p|); var r := Display(p);
      && n >= 1
      && |r| == 3 * n - 1 + 2 + (if |p| > DisplayPattLen then 3 else 0)
      && r[0] == '{' && r[|r| - 1] == '}'
      && (forall i :: 0 <= i < n ==> HexPair(r[1 + 3 * i], r[2 + 3 * i], p[i]))
      && (forall i :: 1 <= i < n ==> r[3 * i] == ' ')
      && (|p| > DisplayPattLen ==> r[3 * n .. 3 * n + 3] == "...")
  {
    var n := Shown(|p|);
    var shown := p[..n];
    var dots: seq<char> := if |p| > DisplayPattLen then "..." else "";
    BracedHex(shown, dots);
    assert Display(p) == ['{'] + HexList(shown, true) + dots + ['}'];
    assert forall i :: 0 <= i < n ==> shown[i] == p[i];
  }

  // ---------------------------------------------------------------------
  // pattern_load: tokens, records and the loading state machine
  // ---------------------------------------------------------------------

  /** `enum token_type` of reader.h. */
  datatype TokenType =
    | NoToken           // ENTOK_NONE
    | Separator         // ENTOK_AX
    | IdToken           // ENTOK_ID
    | PatternToken      // ENTOK_PATTERN
    | ReplacementToken  // ENTOK_REPLACEMENT
    | EndOfBuffer       // ENTOK_EOBUF
    | EndOfFile         // ENTOK_EOF
    | ErrorToken        // ENTOK_ERR

  /** `struct token_s`; the token's length is the length of its value. */
  datatype Token = Token(kind: TokenType, value: seq<byte>)

  /**
   * `AC_PATTERN_t` as the catalog fills it in: identifier, pattern text,
   * replacement text. None stands for a NULL pointer; a NULL pattern text
   * has length 0 and is modelled as the empty text.
   */
  datatype PatternRecord = PatternRecord(id: Option<seq<byte>>, ptext: seq<byte>, rtext: Option<seq<byte>>)

  /** The zero-initialised static `last_pattern`. */
  const EmptyRecord: PatternRecord := PatternRecord(None, [], None)

  /** How `pattern_load` ends: returns 0, returns -1, or pattern_makeacopy calls exit(1). */
  datatype LoadStatus = Loaded | Failed | Aborted

  /**
   * The state `pattern_load` works on, as values: the statics `last_type`
   * and `last_pattern`, pattern_genrep's static counter, every record offered
   * to the automaton and every string copied into the arena, in order.
   */
  datatype LoadState = LoadState(
    lastType: TokenType,
    pending: PatternRecord,
    counter: nat,
    offered: seq<PatternRecord>,
    copies: seq<seq<byte>>)

  /** After one token: keep reading, stop reading (loopguard), or exit(1). */
  datatype StepResult = Next(state: LoadState) | Halt(state: LoadState) | Abort(state: LoadState)

  datatype Outcome = Outcome(state: LoadState, status: LoadStatus)

  /** A separator or end of file commits the pending record after these token kinds. */
  predicate Commits(lastType: TokenType) {
    lastType == PatternToken || lastType == ReplacementToken
  }

  /** `id = strmm_addstrid (&strmem, value)`: the id is NULL when the copy is refused. */
  function StoreId(s: LoadState, value: seq<byte>): LoadState {
    var text := value[..ByteStrlen(value)];
    if |text| + 1 > Arena.ChunkSize then s.(pending := s.pending.(id := None))
    else s.(pending := s.pending.(id := Some(text)), copies := s.copies + [text])
  }

  /** `pattern_genrep (&last_pattern.id)`: print the counter, bump it, copy the id into the arena. */
  function WithGeneratedId(s: LoadState): LoadState {
    StoreId(s.(counter := s.counter + 1), GenId(s.counter))
  }

  /** What pattern_genrep does to the load: a new id from the counter, and nothing else. */
  lemma GeneratedId(s: LoadState)
    ensures var r := WithGeneratedId(s);
      && r.counter == s.counter + 1
      && r.lastType == s.lastType && r.offered == s.offered
      && r.pending.ptext == s.pending.ptext && r.pending.rtext == s.pending.rtext
      // the id is "p" and the zero-padded old counter, when the arena takes it
      && r.pending.id == (if |GenId(s.counter)| < Arena.ChunkSize then Some(GenId(s.counter)) else None)
      && r.copies == if |GenId(s.counter)| < Arena.ChunkSize then s.copies + [GenId(s.counter)] else s.copies
  {
    var id := GenId(s.counter);
    assert ByteStrlen(id) == |id|;
    assert id[..|id|] == id;
  }

  /** Whether a token makes pattern_genrep run. */
  predicate Generates(s: LoadState, t: Token) {
    (t.kind == IdToken && |t.value| == 0) || (t.kind == PatternToken && s.pending.id.None?)
  }

  /** The pattern text stored for a pattern token. */
  function StoredPattern(value: seq<byte>, insensitive: bool): seq<byte> {
    if insensitive then Case.LowerAll(value) else value
  }

  /** One pass of the `switch` in pattern_load's token loop. */
  function Step(s: LoadState, t: Token, insensitive: bool): (r: StepResult)
  {
    match t.kind
    case EndOfBuffer =>
      Next(s)
    case Separator =>
      var offered := if Commits(s.lastType) then s.offered + [s.pending] else s.offered;
      Next(s.(offered := offered, pending := s.pending.(id := None), lastType := Separator))
    case IdToken =>
      var s1 := if |t.value| == 0 then WithGeneratedId(s) else StoreId(s, t.value);
      Next(s1.(lastType := IdToken))
    case PatternToken =>
      var s1 := if s.pending.id.None? then WithGeneratedId(s) else s;
      var text := StoredPattern(t.value, insensitive);
      if |text| + 1 > Arena.ChunkSize then Abort(s1)
      else Next(s1.(pending := s1.pending.(ptext := text), copies := s1.copies + [text], lastType := PatternToken))
    case ReplacementToken =>
      if |t.value| + 1 > Arena.ChunkSize then Abort(s)
      else Next(s.(pending := s.pending.(rtext := Some(t.value)), copies := s.copies + [t.value], lastType := ReplacementToken))
    case ErrorToken =>
      Halt(s.(lastType := ErrorToken))
    case EndOfFile =>
      var offered := if Commits(s.lastType) then s.offered + [s.pending] else s.offered;
      Halt(s.(offered := offered, lastType := EndOfFile))
    case NoToken =>
      Next(s.(lastType := NoToken))
  }

  /**
   * What one token does to the load as a whole: when a record is offered,
   * when reading stops, what `last_type` becomes, and that the arena only
   * grows.
   */
  lemma StepEffect(s: LoadState, t: Token, insensitive: bool)
    ensures var r := Step(s, t, insensitive);
      // a record is offered exactly on a separator or end of file that follows a pattern or a replacement
      && r.state.offered ==
           (if (t.kind == Separator || t.kind == EndOfFile) && Commits(s.lastType) then s.offered + [s.pending] else s.offered)
      // reading stops on an error or end of file; exit(1) only for an over-long text
      && (r.Halt? <==> t.kind == ErrorToken || t.kind == EndOfFile)
      && (r.Abort? <==> (t.kind == PatternToken || t.kind == ReplacementToken) && |t.value| + 1 > Arena.ChunkSize)
      // last_type follows every token the switch sees
      && (!r.Abort? ==> r.state.lastType == if t.kind == EndOfBuffer then s.lastType else t.kind)
      // the arena only grows
      && |s.copies| <= |r.state.copies| && r.state.copies[..|s.copies|] == s.copies
  {
    GeneratedId(s);
  }

  /** What one token does to the pending record and the id counter. */
  lemma StepPending(s: LoadState, t: Token, insensitive: bool)
    ensures var r := Step(s, t, insensitive);
      // a separator clears the pending id and nothing else
      && (t.kind == Separator ==> r.state.pending == s.pending.(id := None))
      // the counter rises by one exactly when an id is generated, and that id is "p" + the old counter
      && r.state.counter == s.counter + (if Generates(s, t) then 1 else 0)
      && (Generates(s, t) && |GenId(s.counter)| < Arena.ChunkSize ==> r.state.pending.id == Some(GenId(s.counter)))
      // a non-empty id token is taken as given, up to its first NUL
      && (t.kind == IdToken && 0 < |t.value| && ByteStrlen(t.value) < Arena.ChunkSize ==>
            r.state.pending == s.pending.(id := Some(t.value[..ByteStrlen(t.value)])))
      // pattern text is folded in case-insensitive mode, replacement text never
      && (r.Next? && t.kind == PatternToken ==>
            r.state.pending.ptext == StoredPattern(t.value, insensitive) && r.state.pending.rtext == s.pending.rtext)
      && (r.Next? && t.kind == ReplacementToken ==> r.state.pending == s.pending.(rtext := Some(t.value)))
      // no other token touches the pending texts
      && (!(r.Next? && t.kind == PatternToken) ==> r.state.pending.ptext == s.pending.ptext)
      && (!(r.Next? && t.kind == ReplacementToken) ==> r.state.pending.rtext == s.pending.rtext)
  {
    GeneratedId(s);
  }

  /** After the loops: success exactly when the last token seen was end of file. */
  function Finish(s: LoadState): Outcome {
    Outcome(s, if s.lastType == EndOfFile then Loaded else Failed)
  }

  /** `pattern_load` over the whole token stream of the pattern file. */
  function Run(s: LoadState, toks: seq<Token>, insensitive: bool): (r: Outcome)
    ensures r.status != Aborted ==> (r.status == Loaded <==> r.state.lastType == EndOfFile)
    // records are offered and strings are copied in order, never withdrawn
    ensures |s.offered| <= |r.state.offered| && r.state.offered[..|s.offered|] == s.offered
    ensures |s.copies| <= |r.state.copies| && r.state.copies[..|s.copies|] == s.copies
    ensures s.counter <= r.state.counter
    decreases |toks|
  {
    if |toks| == 0 then Finish(s)
    else
      StepEffect(s, toks[0], insensitive);
      match Step(s, toks[0], insensitive)
      case Next(s1) => Run(s1, toks[1..], insensitive)
      case Halt(s1) => Finish(s1)
      case Abort(s1) => Outcome(s1, Aborted)
  }

  /** Run over a non-empty stream, in terms of its first step. */
  lemma RunCons(s: LoadState, toks: seq<Token>, insensitive: bool)
    requires |toks| > 0
    ensures var st := Step(s, toks[0], insensitive);
      Run(s, toks, insensitive) ==
        match st
        case Next(s1) => Run(s1, toks[1..], insensitive)
        case Halt(s1) => Finish(s1)
        case Abort(s1) => Outcome(s1, Aborted)
  {
  }

  /** Run from position `i` of a stream, in terms of the step at `i`, as the token loop sees it. */
  lemma RunAt(s: LoadState, toks: seq<Token>, i: nat, insensitive: bool)
    requires i < |toks|
    ensures var st := Step(s, toks[i], insensitive);
      && (ProgressOf(st) == Continue ==> Run(s, toks[i..], insensitive) == Run(st.state, toks[i + 1..], insensitive))
      && (ProgressOf(st) == Stop ==> Run(s, toks[i..], insensitive) == Finish(st.state))
      && (ProgressOf(st) == Exit ==> Run(s, toks[i..], insensitive) == Outcome(st.state, Aborted))
  {
    assert toks[i..][0] == toks[i] && toks[i..][1..] == toks[i + 1..];
    RunCons(s, toks[i..], insensitive);
  }

  /**
   * An error token ends the load: what follows it is never read, and the
   * load does not succeed.
   */
  lemma {:induction false} ErrorEndsLoad(s: LoadState, toks: seq<Token>, k: nat, insensitive: bool)
    requires k < |toks| && toks[k].kind == ErrorToken
    requires forall j :: 0 <= j < k ==> toks[j].kind != ErrorToken && toks[j].kind != EndOfFile
    ensures Run(s, toks, insensitive) == Run(s, toks[..k + 1], insensitive)
    ensures Run(s, toks, insensitive).status != Loaded
    decreases k
  {
    var prefix := toks[..k + 1];
    assert prefix[0] == toks[0];
    if k > 0 {
      match Step(s, toks[0], insensitive)
      case Next(s1) =>
        assert prefix[1..] == toks[1..][..k];
        ErrorEndsLoad(s1, toks[1..], k - 1, insensitive);
      case Abort(s1) =>
      case Halt(s1) =>
    }
  }

  /** The tokens of entries that give only a pattern text each, one separator after each. */
  function EntryTokens(ps: seq<seq<byte>>): seq<Token>
    decreases |ps|
  {
    if |ps| == 0 then [] else [Token(PatternToken, ps[0]), Token(Separator, [])] + EntryTokens(ps[1..])
  }

  /** The load state after an entry that gives only a pattern text, with no pending id before it. */
  ghost function AfterEntry(s: LoadState, p: seq<byte>, insensitive: bool): LoadState {
    var rec := PatternRecord(Some(GenId(s.counter)), StoredPattern(p, insensitive), s.pending.rtext);
    LoadState(Separator, rec.(id := None), s.counter + 1, s.offered + [rec],
              s.copies + [GenId(s.counter), StoredPattern(p, insensitive)])
  }

  /** One entry of EntryTokens: its pattern token and its separator. */
  lemma EntryStep(s: LoadState, p: seq<byte>, insensitive: bool)
    requires s.pending.id.None? && !Commits(s.lastType)
    requires |p| + 1 <= Arena.ChunkSize && s.counter <= 999999
    ensures Step(s, Token(PatternToken, p), insensitive).Next?
    ensures var s1 := Step(s, Token(PatternToken, p), insensitive).state;
      var s2 := Step(s1, Token(Separator, []), insensitive);
      s2.Next? && s2.state == AfterEntry(s, p, insensitive)
  {
    GenIdLength(s.counter);
    GeneratedId(s);
    LowerLength(p, insensitive);
  }

  /** Running over an entry that gives only a pattern text, then the rest of the stream. */
  lemma EntryRun(s: LoadState, p: seq<byte>, rest: seq<Token>, insensitive: bool)
    requires s.pending.id.None? && !Commits(s.lastType)
    requires |p| + 1 <= Arena.ChunkSize && s.counter <= 999999
    ensures Run(s, [Token(PatternToken, p), Token(Separator, [])] + rest, insensitive) ==
      Run(AfterEntry(s, p, insensitive), rest, insensitive)
  {
    EntryStep(s, p, insensitive);
    RunTwo(s, Token(PatternToken, p), Token(Separator, []), rest, insensitive);
  }

  /**
   * pattern_load's loop over two tokens neither of which ends it: the load
   * goes on from the state after both. EntryRun uses it for an entry's
   * pattern and separator, RunFive for the two-entry file of
   * ReplacementCarriesOver.
   */
  lemma RunTwo(s: LoadState, a: Token, b: Token, rest: seq<Token>, insensitive: bool)
    requires Step(s, a, insensitive).Next? && Step(Step(s, a, insensitive).state, b, insensitive).Next?
    ensures Run(s, [a, b] + rest, insensitive) ==
      Run(Step(Step(s, a, insensitive).state, b, insensitive).state, rest, insensitive)
  {
    var toks := [a, b] + rest;
    assert toks[0] == a && toks[1..] == [b] + rest;
    assert ([b] + rest)[0] == b && ([b] + rest)[1..] == rest;
  }

  /** The records from position `from` on carry the generated ids and the pattern texts `ps`. */
  predicate Assigned(offered: seq<PatternRecord>, from: nat, counter: nat, ps: seq<seq<byte>>, insensitive: bool) {
    && from + |ps| == |offered|
    && forall k :: from <= k < |offered| ==>
         offered[k].id == Some(GenId(counter + (k - from))) && offered[k].ptext == StoredPattern(ps[k - from], insensitive)
  }

  /**
   * Entries without explicit ids get the ids p000001, p000002, ... (more
   * generally, "p" and the counter's successive values) in the order they
   * appear in the file, each with its own pattern text.
   */
  lemma {:induction false} SequentialIds(s: LoadState, ps: seq<seq<byte>>, insensitive: bool)
    requires s.pending.id.None? && !Commits(s.lastType)
    requires forall i :: 0 <= i < |ps| ==> |ps[i]| + 1 <= Arena.ChunkSize
    requires s.counter + |ps| <= 999999
    ensures var r := Run(s, EntryTokens(ps) + [Token(EndOfFile, [])], insensitive);
      && r.status == Loaded
      && r.state.counter == s.counter + |ps|
      && Assigned(r.state.offered, |s.offered|, s.counter, ps, insensitive)
    decreases |ps|
  {
    var eof := Token(EndOfFile, []);
    if |ps| == 0 {
      assert EntryTokens(ps) + [eof] == [eof];
      EndOfFileOnly(s, insensitive);
    } else {
      SequentialIds(AfterEntry(s, ps[0], insensitive), ps[1..], insensitive);
      IdsCons(s, ps, insensitive);
    }
  }

  /** The step of SequentialIds: the first entry, then what the load does with the others. */
  lemma IdsCons(s: LoadState, ps: seq<seq<byte>>, insensitive: bool)
    requires |ps| > 0 && s.pending.id.None? && !Commits(s.lastType)
    requires |ps[0]| + 1 <= Arena.ChunkSize && s.counter + |ps| <= 999999
    requires var s2 := AfterEntry(s, ps[0], insensitive);
      var r := Run(s2, EntryTokens(ps[1..]) + [Token(EndOfFile, [])], insensitive);
      && r.status == Loaded
      && r.state.counter == s2.counter + |ps[1..]|
      && Assigned(r.state.offered, |s2.offered|, s2.counter, ps[1..], insensitive)
    ensures var r := Run(s, EntryTokens(ps) + [Token(EndOfFile, [])], insensitive);
      && r.status == Loaded
      && r.state.counter == s.counter + |ps|
      && Assigned(r.state.offered, |s.offered|, s.counter, ps, insensitive)
  {
    IdsRun(s, ps, insensitive);
    var s2 := AfterEntry(s, ps[0], insensitive);
    var r := Run(s2, EntryTokens(ps[1..]) + [Token(EndOfFile, [])], insensitive);
    RunKeepsOffered(s2, EntryTokens(ps[1..]) + [Token(EndOfFile, [])], |s.offered|, insensitive);
    assert r.state.offered[|s.offered|] == s2.offered[|s.offered|];
    assert s2.offered[|s.offered|] == PatternRecord(Some(GenId(s.counter)), StoredPattern(ps[0], insensitive), s.pending.rtext);
    AssignedCons(r.state.offered, |s.offered|, s.counter, |s2.offered|, s2.counter, ps, insensitive);
  }

  /** The load of a list of entries goes on, after the first entry, as the load of the others. */
  lemma IdsRun(s: LoadState, ps: seq<seq<byte>>, insensitive: bool)
    requires |ps| > 0 && s.pending.id.None? && !Commits(s.lastType)
    requires |ps[0]| + 1 <= Arena.ChunkSize && s.counter <= 999999
    ensures Run(s, EntryTokens(ps) + [Token(EndOfFile, [])], insensitive) ==
      Run(AfterEntry(s, ps[0], insensitive), EntryTokens(ps[1..]) + [Token(EndOfFile, [])], insensitive)
  {
    var rest := EntryTokens(ps[1..]) + [Token(EndOfFile, [])];
    assert EntryTokens(ps) + [Token(EndOfFile, [])] == [Token(PatternToken, ps[0]), Token(Separator, [])] + rest;
    EntryRun(s, ps[0], rest, insensitive);
  }

  /** A record offered before a run is still offered, at the same position, after it. */
  lemma RunKeepsOffered(s: LoadState, toks: seq<Token>, k: nat, insensitive: bool)
    requires k < |s.offered|
    ensures k < |Run(s, toks, insensitive).state.offered| && Run(s, toks, insensitive).state.offered[k] == s.offered[k]
  {
    var offered := Run(s, toks, insensitive).state.offered;
    assert offered[k] == offered[..|s.offered|][k];
  }

  /** End of file right after a separator (or at the start) ends the load successfully, offering nothing. */
  lemma EndOfFileOnly(s: LoadState, insensitive: bool)
    requires !Commits(s.lastType)
    ensures Run(s, [Token(EndOfFile, [])], insensitive) == Outcome(s.(lastType := EndOfFile), Loaded)
  {
    assert [Token(EndOfFile, [])][0] == Token(EndOfFile, []);
  }

  /** Assigned for a list of entries, from its first entry and Assigned for the others. */
  lemma AssignedCons(offered: seq<PatternRecord>, from: nat, counter: nat, next: nat, nextCounter: nat,
                     ps: seq<seq<byte>>, insensitive: bool)
    requires |ps| > 0 && from < |offered| && next == from + 1 && nextCounter == counter + 1
    requires offered[from].id == Some(GenId(counter)) && offered[from].ptext == StoredPattern(ps[0], insensitive)
    requires Assigned(offered, next, nextCounter, ps[1..], insensitive)
    ensures Assigned(offered, from, counter, ps, insensitive)
  {
    NumberedCons(offered, from, counter, next, nextCounter, ps, insensitive, GenId);
  }

  /**
   * The shift behind AssignedCons, for any numbering `id` of the records:
   * the record at `k` is number `k - from` of the list.
   */
  lemma NumberedCons(offered: seq<PatternRecord>, from: nat, counter: nat, next: nat, nextCounter: nat,
                     ps: seq<seq<byte>>, insensitive: bool, id: nat -> seq<byte>)
    requires |ps| > 0 && from < |offered| && next == from + 1 && nextCounter == counter + 1
    requires offered[from].id == Some(id(counter)) && offered[from].ptext == StoredPattern(ps[0], insensitive)
    requires next + |ps[1..]| == |offered|
    requires forall k :: next <= k < |offered| ==>
      offered[k].id == Some(id(nextCounter + (k - next))) && offered[k].ptext == StoredPattern(ps[1..][k - next], insensitive)
    ensures forall k :: from <= k < |offered| ==>
      offered[k].id == Some(id(counter + (k - from))) && offered[k].ptext == StoredPattern(ps[k - from], insensitive)
  {
    forall k | from < k < |offered|
      ensures offered[k].id == Some(id(counter + (k - from)))
      ensures offered[k].ptext == StoredPattern(ps[k - from], insensitive)
    {
      var j := k - next;
      assert offered[k].id == Some(id(nextCounter + j)) && offered[k].ptext == StoredPattern(ps[1..][j], insensitive);
      assert ps[1..][j] == ps[k - from] && nextCounter + j == counter + (k - from);
    }
  }

  lemma LowerLength(p: seq<byte>, insensitive: bool)
    ensures |StoredPattern(p, insensitive)| == |p|
  {
  }

  /** Lower-case letters only: what a folded pattern text consists of. */
  predicate NoUpper(p: seq<byte>) {
    forall i :: 0 <= i < |p| ==> !Case.IsUpper(p[i])
  }

  /**
   * In case-insensitive mode every record the load offers to the automaton
   * carries a folded pattern text, provided the pending record it started
   * from did.
   */
  lemma {:induction false} FoldedPatterns(s: LoadState, toks: seq<Token>)
    requires NoUpper(s.pending.ptext)
    ensures var r := Run(s, toks, true).state;
      forall k :: |s.offered| <= k < |r.offered| ==> NoUpper(r.offered[k].ptext)
    decreases |toks|
  {
    if |toks| > 0 {
      var st := Step(s, toks[0], true);
      StepFolded(s, toks[0]);
      RunCons(s, toks, true);
      if st.Next? {
        FoldedPatterns(st.state, toks[1..]);
        FoldedAfter(|s.offered|, st.state.offered, Run(st.state, toks[1..], true).state.offered);
      }
    }
  }

  /** One case-insensitive step keeps the pending text folded and offers only folded records. */
  lemma StepFolded(s: LoadState, t: Token)
    requires NoUpper(s.pending.ptext)
    ensures var st := Step(s, t, true);
      && NoUpper(st.state.pending.ptext)
      && |s.offered| <= |st.state.offered|
      && forall k :: |s.offered| <= k < |st.state.offered| ==> NoUpper(st.state.offered[k].ptext)
  {
    StepEffect(s, t, true);
    StepPending(s, t, true);
    if Step(s, t, true).Next? && t.kind == PatternToken {
      Case.LowerAllHasNoUpper(t.value);
    }
  }

  /** Folded records from `from` up to the middle of a run, and folded after it, make folded records from `from` on. */
  lemma FoldedAfter(from: nat, mid: seq<PatternRecord>, offered: seq<PatternRecord>)
    requires from <= |mid| <= |offered| && offered[..|mid|] == mid
    requires forall k :: from <= k < |mid| ==> NoUpper(mid[k].ptext)
    requires forall k :: |mid| <= k < |offered| ==> NoUpper(offered[k].ptext)
    ensures forall k :: from <= k < |offered| ==> NoUpper(offered[k].ptext)
  {
    forall k | from <= k < |mid|
      ensures NoUpper(offered[k].ptext)
    {
      assert offered[k] == offered[..|mid|][k];
    }
  }

  /**
   * The quirk of the separator: it clears only the id, so an entry without a
   * replacement of its own is offered with the replacement of the entry
   * before it.
   */
  lemma ReplacementCarriesOver(s: LoadState, a: seq<byte>, rep: seq<byte>, b: seq<byte>, insensitive: bool)
    requires |a| + 1 <= Arena.ChunkSize && |rep| + 1 <= Arena.ChunkSize && |b| + 1 <= Arena.ChunkSize
    ensures var sep := Token(Separator, []);
      var r := Run(s, [Token(PatternToken, a), Token(ReplacementToken, rep), sep, Token(PatternToken, b), sep], insensitive).state;
      && |r.offered| == |s.offered| + 2
      && r.offered[|s.offered|].rtext == Some(rep)
      && r.offered[|s.offered| + 1].ptext == StoredPattern(b, insensitive)
      && r.offered[|s.offered| + 1].rtext == Some(rep)
  {
    var sep := Token(Separator, []);
    var pa, rp, pb := Token(PatternToken, a), Token(ReplacementToken, rep), Token(PatternToken, b);
    PatternWithReplacement(s, a, rep, insensitive);
    var s2 := Step(Step(s, pa, insensitive).state, rp, insensitive).state;
    var s3 := Step(s2, sep, insensitive).state;
    assert s3.offered == s.offered + [s2.pending] && s3.pending.rtext == Some(rep) && s3.lastType == Separator;
    BareEntry(s3, b, insensitive);
    var s5 := Step(Step(s3, pb, insensitive).state, sep, insensitive).state;
    assert s5.offered[|s.offered|] == s5.offered[..|s3.offered|][|s.offered|] == s2.pending;
    RunFive(s, pa, rp, sep, pb, sep, insensitive);
  }

  /**
   * pattern_load's loop over a five-token file none of whose tokens ends the
   * loop: the load fails (no end of file was seen) in the state after all
   * five. ReplacementCarriesOver unrolls its pattern, replacement,
   * separator, pattern, separator file with it.
   */
  lemma RunFive(s: LoadState, t1: Token, t2: Token, t3: Token, t4: Token, t5: Token, insensitive: bool)
    requires Step(s, t1, insensitive).Next?
    requires Step(Step(s, t1, insensitive).state, t2, insensitive).Next?
    requires Step(Step(Step(s, t1, insensitive).state, t2, insensitive).state, t3, insensitive).Next?
    requires var s3 := Step(Step(Step(s, t1, insensitive).state, t2, insensitive).state, t3, insensitive).state;
      Step(s3, t4, insensitive).Next? && Step(Step(s3, t4, insensitive).state, t5, insensitive).Next?
    ensures var s3 := Step(Step(Step(s, t1, insensitive).state, t2, insensitive).state, t3, insensitive).state;
      Run(s, [t1, t2, t3, t4, t5], insensitive) == Finish(Step(Step(s3, t4, insensitive).state, t5, insensitive).state)
  {
    var s2 := Step(Step(s, t1, insensitive).state, t2, insensitive).state;
    var s3 := Step(s2, t3, insensitive).state;
    assert [t1, t2, t3, t4, t5] == [t1, t2] + [t3, t4, t5];
    RunTwo(s, t1, t2, [t3, t4, t5], insensitive);
    RunCons(s2, [t3, t4, t5], insensitive);
    assert [t3, t4, t5][1..] == [t4, t5] + [];
    RunTwo(s3, t4, t5, [], insensitive);
  }

  /** A pattern token and then a replacement token: the pending record holds both texts. */
  lemma PatternWithReplacement(s: LoadState, a: seq<byte>, rep: seq<byte>, insensitive: bool)
    requires |a| + 1 <= Arena.ChunkSize && |rep| + 1 <= Arena.ChunkSize
    ensures Step(s, Token(PatternToken, a), insensitive).Next?
    ensures var s1 := Step(s, Token(PatternToken, a), insensitive).state;
      var s2 := Step(s1, Token(ReplacementToken, rep), insensitive);
      && s2.Next?
      && s2.state.offered == s.offered && s2.state.lastType == ReplacementToken
      && s2.state.pending.rtext == Some(rep) && s2.state.pending.ptext == StoredPattern(a, insensitive)
  {
    LowerLength(a, insensitive);
  }

  /**
   * A pattern token and a separator after a separator: one record is offered,
   * with the new pattern text and whatever replacement text was pending.
   */
  lemma BareEntry(s: LoadState, b: seq<byte>, insensitive: bool)
    requires |b| + 1 <= Arena.ChunkSize && s.lastType == Separator
    ensures Step(s, Token(PatternToken, b), insensitive).Next?
    ensures var s1 := Step(s, Token(PatternToken, b), insensitive).state;
      var s2 := Step(s1, Token(Separator, []), insensitive);
      && s2.Next?
      && |s2.state.offered| == |s.offered| + 1 && s2.state.offered[..|s.offered|] == s.offered
      && s2.state.offered[|s.offered|].ptext == StoredPattern(b, insensitive)
      && s2.state.offered[|s.offered|].rtext == s.pending.rtext
  {
    LowerLength(b, insensitive);
    var s1 := Step(s, Token(PatternToken, b), insensitive).state;
    assert s1.lastType == PatternToken && s1.offered == s.offered;
  }

  // ---------------------------------------------------------------------
  // The automaton as seen by pattern_load, and the loader itself
  // ---------------------------------------------------------------------

  /** The `AC_STATUS_t` results of `ac_trie_add`. */
  datatype AddStatus = Success | DuplicatePattern | LongPattern | ZeroPattern | OtherError

  /** What pattern_addtoac reports for each result. */
  datatype Diagnostic =
    | Quiet
    | AddedNote(id: Option<seq<byte>>, shown: seq<char>)
    | SkipDuplicate(text: seq<byte>)
    | SkipLong(text: seq<byte>)
    | SkipZero
    | SkipOther

  function Report(st: AddStatus, p: PatternRecord, verbose: bool): Diagnostic {
    match st
    case DuplicatePattern => SkipDuplicate(p.ptext)
    case LongPattern => SkipLong(p.ptext)
    case ZeroPattern => SkipZero
    case Success => if verbose then AddedNote(p.id, Display(p.ptext)) else Quiet
    case OtherError => SkipOther
  }

  /**
   * The Aho-Corasick trie, which is not part of this model, seen as a
   * recorder: it logs every record offered to it, answers with a status
   * chosen by `verdict`, and can be finalised.
   */
  class Trie {
    var offered: seq<PatternRecord>
    var finalized: bool
    const verdict: (seq<PatternRecord>, PatternRecord) -> AddStatus

    /** `ac_trie_create` */
    constructor (verdict: (seq<PatternRecord>, PatternRecord) -> AddStatus)
      ensures offered == [] && !finalized && this.verdict == verdict
    {
      offered, finalized := [], false;
      this.verdict := verdict;
    }

    /** `ac_trie_add` */
    method Add(p: PatternRecord) returns (st: AddStatus)
      requires !finalized
      modifies this
      ensures offered == old(offered) + [p] && !finalized
      ensures st == verdict(old(offered), p)
    {
      st := verdict(offered, p);
      offered := offered + [p];
    }

    /** `ac_trie_finalize` */
    method Finalize()
      modifies this
      ensures finalized && offered == old(offered)
    {
      finalized := true;
    }
  }

  /** How far the token loop goes after one token. */
  datatype Progress = Continue | Stop | Exit

  function ProgressOf(r: StepResult): Progress {
    match r
    case Next(_) => Continue
    case Halt(_) => Stop
    case Abort(_) => Exit
  }

  /**
   * The state of pattern.c: the file-level `strmem` and `trie`, the statics
   * `last_type` and `last_pattern` of pattern_load, and the static `item`
   * of pattern_genrep. Statics survive from one load to the next.
   */
  class PatternLoader {
    var strmem: Arena.StringArena?
    var trie: Trie?
    var lastType: TokenType
    var lastPattern: PatternRecord
    var item: nat
    ghost var Repr: set<object>

    ghost predicate Valid()
      reads this, Repr
    {
      && this in Repr
      && strmem != null && strmem in Repr && strmem.Repr <= Repr && this !in strmem.Repr
      && trie != null && trie in Repr && trie !in strmem.Repr
      && strmem.Valid()
    }

    /** The loader's state as the value the specification functions work on. */
    ghost function Snapshot(): LoadState
      reads this, Repr
      requires Valid()
    {
      LoadState(lastType, lastPattern, item, trie.offered, strmem.Contents)
    }

    /** Program start: nothing loaded, `last_type` is ENTOK_NONE and the counter is 1. */
    constructor ()
      ensures strmem == null && trie == null
      ensures lastType == NoToken && lastPattern == EmptyRecord && item == 1
    {
      strmem, trie := null, null;
      lastType, lastPattern, item := NoToken, EmptyRecord, 1;
      Repr := {this};
    }

    /** `pattern_genrep`: a fresh "p%06d" id from the counter, copied into the arena. */
    method GenRep()
      requires Valid()
      modifies Repr
      ensures Valid() && fresh(Repr - old(Repr))
      ensures strmem == old(strmem) && trie == old(trie) && unchanged(trie)
      ensures Snapshot() == WithGeneratedId(old(Snapshot()))
    {
      var strid := GenId(item);
      item := item + 1;
      SetId(strid);
    }

    /** `strmm_addstrid` into the pending id: the id is NULL when the arena refuses the copy. */
    method SetId(value: seq<byte>)
      requires Valid()
      modifies Repr
      ensures Valid() && fresh(Repr - old(Repr))
      ensures strmem == old(strmem) && trie == old(trie) && unchanged(trie)
      ensures Snapshot() == StoreId(old(Snapshot()), value)
    {
      var h := strmem.AddStrId(value);
      if h.Some? {
        lastPattern := lastPattern.(id := Some(strmem.Read(h.value)));
      } else {
        lastPattern := lastPattern.(id := None);
      }
      Repr := Repr + strmem.Repr;
    }

    /**
     * `pattern_makeacopy`: copies a text into the arena. None stands for the
     * `exit(1)` taken when the arena refuses it.
     */
    method MakeACopy(text: seq<byte>) returns (copy: Option<seq<byte>>)
      requires Valid()
      modifies Repr
      ensures Valid() && fresh(Repr - old(Repr))
      ensures strmem == old(strmem) && trie == old(trie) && unchanged(trie)
      ensures lastType == old(lastType) && lastPattern == old(lastPattern) && item == old(item)
      ensures copy.None? <==> |text| + 1 > Arena.ChunkSize
      ensures copy.None? ==> strmem.Contents == old(strmem.Contents)
      ensures copy.Some? ==> copy.value == text && strmem.Contents == old(strmem.Contents) + [text]
    {
      var h := strmem.Add(text);
      if h.Some? {
        copy := Some(strmem.Read(h.value));
      } else {
        copy := None;
      }
      Repr := Repr + strmem.Repr;
    }

    /**
     * `pattern_addtoac`: offers a record to the trie and reports the outcome;
     * whatever the trie answers, it returns 0.
     */
    method AddToAc(p: PatternRecord, verbose: bool) returns (rc: int, note: Diagnostic)
      requires Valid() && !trie.finalized
      modifies trie
      ensures rc == 0
      ensures trie.offered == old(trie.offered) + [p] && !trie.finalized
      ensures note == Report(trie.verdict(old(trie.offered), p), p, verbose)
    {
      var st := trie.Add(p);
      note := Report(st, p, verbose);
      rc := 0;
    }

    /** One pass of the switch in pattern_load's token loop. */
    method Consume(t: Token, insensitive: bool, verbose: bool) returns (r: Progress)
      requires Valid() && !trie.finalized
      modifies Repr
      ensures Valid() && fresh(Repr - old(Repr)) && !trie.finalized
      ensures strmem == old(strmem) && trie == old(trie) && trie.verdict == old(trie.verdict)
      ensures Snapshot() == Step(old(Snapshot()), t, insensitive).state
      ensures r == ProgressOf(Step(old(Snapshot()), t, insensitive))
    {
      match t.kind
      case EndOfBuffer =>
        r := Continue;
      case Separator =>
        ConsumeCommit(t, verbose);
        r := Continue;
      case EndOfFile =>
        ConsumeCommit(t, verbose);
        r := Stop;
      case IdToken =>
        ConsumeId(t);
        r := Continue;
      case PatternToken =>
        r := ConsumePattern(t, insensitive);
      case ReplacementToken =>
        r := ConsumeReplacement(t);
      case ErrorToken =>
        lastType := ErrorToken;
        r := Stop;
      case NoToken =>
        lastType := NoToken;
        r := Continue;
    }

    /** A separator or end of file: offer the pending record if it is complete. */
    method ConsumeCommit(t: Token, verbose: bool)
      requires Valid() && !trie.finalized
      requires t.kind == Separator || t.kind == EndOfFile
      modifies this, trie
      ensures Valid() && Repr == old(Repr) && !trie.finalized
      ensures strmem == old(strmem) && trie == old(trie) && trie.verdict == old(trie.verdict)
      ensures Snapshot() == Step(old(Snapshot()), t, false).state
    {
      if lastType == PatternToken || lastType == ReplacementToken {
        var _, _ := AddToAc(lastPattern, verbose);
      }
      if t.kind == Separator {
        lastPattern := lastPattern.(id := None);
      }
      lastType := t.kind;
    }

    /** An id token: generate an id when it is empty, otherwise copy it. */
    method ConsumeId(t: Token)
      requires Valid() && !trie.finalized
      requires t.kind == IdToken
      modifies Repr
      ensures Valid() && fresh(Repr - old(Repr)) && !trie.finalized
      ensures strmem == old(strmem) && trie == old(trie) && trie.verdict == old(trie.verdict)
      ensures Snapshot() == Step(old(Snapshot()), t, false).state
    {
      if |t.value| == 0 {
        GenRep();
      } else {
        SetId(t.value);
      }
      lastType := IdToken;
    }

    /** A pattern token: make sure there is an id, fold the text if asked, copy it. */
    method ConsumePattern(t: Token, insensitive: bool) returns (r: Progress)
      requires Valid() && !trie.finalized
      requires t.kind == PatternToken
      modifies Repr
      ensures Valid() && fresh(Repr - old(Repr)) && !trie.finalized
      ensures strmem == old(strmem) && trie == old(trie) && trie.verdict == old(trie.verdict)
      ensures Snapshot() == Step(old(Snapshot()), t, insensitive).state
      ensures r == ProgressOf(Step(old(Snapshot()), t, insensitive))
    {
      if lastPattern.id == None {
        GenRep();
      }
      var text := t.value;
      if insensitive {
        text := Folded(t.value);
      }
      var copy := MakeACopy(text);
      if copy.None? {
        r := Exit;
      } else {
        lastPattern := lastPattern.(ptext := copy.value);
        lastType := PatternToken;
        r := Continue;
      }
    }

    /** A replacement token: copy the text as it is. */
    method ConsumeReplacement(t: Token) returns (r: Progress)
      requires Valid() && !trie.finalized
      requires t.kind == ReplacementToken
      modifies Repr
      ensures Valid() && fresh(Repr - old(Repr)) && !trie.finalized
      ensures strmem == old(strmem) && trie == old(trie) && trie.verdict == old(trie.verdict)
      ensures Snapshot() == Step(old(Snapshot()), t, false).state
      ensures r == ProgressOf(Step(old(Snapshot()), t, false))
    {
      var copy := MakeACopy(t.value);
      if copy.None? {
        r := Exit;
      } else {
        lastPattern := lastPattern.(rtext := copy);
        lastType := ReplacementToken;
        r := Continue;
      }
    }

    /**
     * `pattern_load`: reads the token stream of the pattern file (None when
     * the file cannot be opened) into a fresh arena and a fresh trie, and
     * finalises the trie when the stream ended with end of file.
     */
    method Load(file: Option<seq<Token>>, insensitive: bool, verbose: bool,
                verdict: (seq<PatternRecord>, PatternRecord) -> AddStatus) returns (status: LoadStatus)
      modifies this
      ensures file.None? ==> status == Failed && unchanged(this)
      ensures file.Some? ==> Valid() && fresh(Repr - {this}) && trie.verdict == verdict
      ensures file.Some? ==>
        var out := Run(LoadState(old(lastType), old(lastPattern), old(item), [], []), file.value, insensitive);
        Snapshot() == out.state && status == out.status
      ensures file.Some? ==> (trie.finalized <==> status == Loaded)
    {
      if file.None? {
        return Failed;
      }
      Init(verdict);
      status := Feed(file.value, insensitive, verbose);
      if status == Loaded {
        trie.Finalize();
      }
    }

    /** `strmm_init` and `ac_trie_create`: a fresh arena and a fresh trie; the statics stay. */
    method Init(verdict: (seq<PatternRecord>, PatternRecord) -> AddStatus)
      modifies this
      ensures Valid() && fresh(Repr - {this}) && !trie.finalized && trie.verdict == verdict
      ensures Snapshot() == LoadState(old(lastType), old(lastPattern), old(item), [], [])
    {
      strmem := new Arena.StringArena();
      trie := new Trie(verdict);
      Repr := {this, trie} + strmem.Repr;
    }

    /** One pass of the token loop, stated as what it leaves of the run over the rest of the stream. */
    method Advance(toks: seq<Token>, i: nat, insensitive: bool, verbose: bool) returns (r: Progress)
      requires Valid() && !trie.finalized && i < |toks|
      modifies Repr
      ensures Valid() && fresh(Repr - old(Repr)) && !trie.finalized
      ensures strmem == old(strmem) && trie == old(trie) && trie.verdict == old(trie.verdict)
      ensures r == Continue ==> Run(old(Snapshot()), toks[i..], insensitive) == Run(Snapshot(), toks[i + 1..], insensitive)
      ensures r == Stop ==> Run(old(Snapshot()), toks[i..], insensitive) == Finish(Snapshot())
      ensures r == Exit ==> Run(old(Snapshot()), toks[i..], insensitive) == Outcome(Snapshot(), Aborted)
    {
      RunAt(Snapshot(), toks, i, insensitive);
      r := Consume(toks[i], insensitive, verbose);
    }

    /**
     * The token loop of pattern_load and the check after it: feeds tokens
     * until one stops the loop or the stream runs out.
     */
    method Feed(toks: seq<Token>, insensitive: bool, verbose: bool) returns (status: LoadStatus)
      requires Valid() && !trie.finalized
      modifies Repr
      ensures Valid() && fresh(Repr - old(Repr)) && !trie.finalized
      ensures strmem == old(strmem) && trie == old(trie) && trie.verdict == old(trie.verdict)
      ensures Snapshot() == Run(old(Snapshot()), toks, insensitive).state
      ensures status == Run(old(Snapshot()), toks, insensitive).status
    {
      ghost var goal := Run(Snapshot(), toks, insensitive);
      var i := 0;
      var r := Continue;
      while i < |toks| && r == Continue
        invariant 0 <= i <= |toks|
        invariant Valid() && fresh(Repr - old(Repr)) && !trie.finalized
        invariant strmem == old(strmem) && trie == old(trie) && trie.verdict == old(trie.verdict)
        invariant r == Continue ==> goal == Run(Snapshot(), toks[i..], insensitive)
        invariant r == Stop ==> goal == Finish(Snapshot())
        invariant r == Exit ==> goal == Outcome(Snapshot(), Aborted)
        decreases |toks| - i, if r == Continue then 1 else 0
      {
        r := Advance(toks, i, insensitive, verbose);
        if r == Continue {
          i := i + 1;
        }
      }
      if r == Continue {
        assert toks[i..] == [];
      }
      if r == Exit {
        status := Aborted;
      } else if lastType == EndOfFile {
        status := Loaded;
      } else {
        status := Failed;
      }
    }
  }

  /** The pattern text folded in the reader's buffer, as `lower_case` does it. */
  method Folded(value: seq<byte>) returns (text: seq<byte>)
    ensures text == Case.LowerAll(value)
  {
    var buffer := new byte[|value|](i requires 0 <= i < |value| => value[i]);
    assert buffer[..buffer.Length] == value;
    Case.LowerCase(buffer, buffer.Length);
    assert buffer[..] == buffer[..buffer.Length];
    text := buffer[..];
  }
}
