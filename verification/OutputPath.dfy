/**
 * Output paths in replace mode (multifast.c): `mkpath`, which creates every
 * directory along a path, and `get_outfile_name`, which composes the output
 * file name for an input file in a buffer that lives as long as the program.
 */
module OutputPath {
  import opened Common

  /** `PATH_BUFFER_LENGTH`: the buffer starts at this size and grows in steps of it. */
  const PathBufferLength: nat := 1024

  const Slash: char := '/'

  // ---------------------------------------------------------------------
  // The file system, as far as mkdir sees it
  // ---------------------------------------------------------------------

  /** What `mkdir` answers: success, failure with EEXIST, or any other failure. */
  datatype MkdirResult = Created | AlreadyExists | Refused

  function MkdirOutcome(dirs: set<seq<char>>, refused: set<seq<char>>, path: seq<char>): MkdirResult {
    if path in dirs then AlreadyExists else if path in refused then Refused else Created
  }

  /**
   * The existing paths of the file system and the paths whose creation
   * fails for a reason other than EEXIST (permissions, a missing parent, ...).
   */
  class FileSystem {
    var dirs: set<seq<char>>
    const refused: set<seq<char>>

    constructor (dirs: set<seq<char>>, refused: set<seq<char>>)
      ensures this.dirs == dirs && this.refused == refused
    {
      this.dirs := dirs;
      this.refused := refused;
    }

    /** `mkdir(path, mode)` */
    method Mkdir(path: seq<char>) returns (r: MkdirResult)
      modifies this
      ensures r == MkdirOutcome(old(dirs), refused, path)
      ensures dirs == if r == Created then old(dirs) + {path} else old(dirs)
    {
      r := MkdirOutcome(dirs, refused, path);
      if r == Created {
        dirs := dirs + {path};
      }
    }
  }

  // ---------------------------------------------------------------------
  // mkpath
  // ---------------------------------------------------------------------

  /** Where mkpath's scan stops after `p`: the next '/' after `p`, or the end of the path. */
  function NextStop(s: seq<char>, p: nat): (q: nat)
    requires p < |s|
    ensures p < q <= |s|
    ensures q == |s| || s[q] == Slash
    ensures forall k :: p < k < q ==> s[k] != Slash
    decreases |s| - p
  {
    if p + 1 == |s| || s[p + 1] == Slash then p + 1 else NextStop(s, p + 1)
  }

  /** Every stop of mkpath's scan after `p`, in order. */
  function Stops(s: seq<char>, p: nat): (r: seq<nat>)
    ensures forall i :: 0 <= i < |r| ==> p < r[i] <= |s| && (r[i] == |s| || s[r[i]] == Slash)
    ensures forall i, j :: 0 <= i < j < |r| ==> r[i] < r[j]
    decreases |s| - p
  {
    if p >= |s| then [] else [NextStop(s, p)] + Stops(s, NextStop(s, p))
  }

  /**
   * No stop is skipped: every '/' after position `p` (the first character is
   * skipped) and the end of the path are stops.
   */
  lemma {:induction false} StopsComplete(s: seq<char>, p: nat, q: nat)
    requires p < q <= |s| && (q == |s| || s[q] == Slash)
    ensures q in Stops(s, p)
    decreases |s| - p
  {
    var n := NextStop(s, p);
    if q != n {
      StopsComplete(s, n, q);
    }
  }

  /** The prefixes mkpath hands to mkdir, starting after position `p`. */
  function TargetsFrom(s: seq<char>, p: nat): seq<seq<char>>
    decreases |s| - p
  {
    if p >= |s| then [] else [s[..NextStop(s, p)]] + TargetsFrom(s, NextStop(s, p))
  }

  function Targets(s: seq<char>): seq<seq<char>> {
    TargetsFrom(s, 0)
  }

  /** The directories mkpath creates are the prefixes of the path that end at its stops. */
  lemma {:induction false} TargetsAtStops(s: seq<char>, p: nat)
    ensures |TargetsFrom(s, p)| == |Stops(s, p)|
    ensures forall i :: 0 <= i < |Stops(s, p)| ==> TargetsFrom(s, p)[i] == s[..Stops(s, p)[i]]
    decreases |s| - p
  {
    if p < |s| {
      TargetsAtStops(s, NextStop(s, p));
    }
  }

  /**
   * mkdir over `targets` in order: EEXIST counts as success, any other
   * failure ends the walk with -1.
   */
  function MkdirAll(dirs: set<seq<char>>, refused: set<seq<char>>, targets: seq<seq<char>>): (r: (int, set<seq<char>>))
    ensures r.0 == 0 || r.0 == -1
    // only the targets are created
    ensures dirs <= r.1
    ensures forall d :: d in r.1 ==> d in dirs || d in targets
    // the walk succeeds exactly when no missing target is refused, and then every target exists
    ensures r.0 == 0 <==> forall i :: 0 <= i < |targets| ==> targets[i] in dirs || targets[i] !in refused
    ensures r.0 == 0 ==> forall i :: 0 <= i < |targets| ==> targets[i] in r.1
    decreases |targets|
  {
    if |targets| == 0 then (0, dirs)
    else match MkdirOutcome(dirs, refused, targets[0])
      case Refused => (-1, dirs)
      case AlreadyExists => MkdirAll(dirs, refused, targets[1..])
      case Created => MkdirAll(dirs + {targets[0]}, refused, targets[1..])
  }

  /**
   * What the walk leaves behind: on success every missing target is
   * created; on -1 the walk stopped at the first target that was missing
   * and refused, and exactly the targets before it were created.
   */
  lemma {:induction false} MkdirAllResult(dirs: set<seq<char>>, refused: set<seq<char>>, targets: seq<seq<char>>)
    ensures var r := MkdirAll(dirs, refused, targets);
      r.0 == 0 ==> r.1 == dirs + set i | 0 <= i < |targets| :: targets[i]
    ensures var r := MkdirAll(dirs, refused, targets);
      r.0 == -1 ==> exists k: nat :: FirstRefused(dirs, refused, targets, k) && r.1 == dirs + set i | 0 <= i < k :: targets[i]
    decreases |targets|
  {
    if |targets| > 0 {
      var t := targets[0];
      var rest := targets[1..];
      match MkdirOutcome(dirs, refused, t)
      case Refused =>
        assert FirstRefused(dirs, refused, targets, 0);
      case AlreadyExists =>
        MkdirAllResult(dirs, refused, rest);
        MkdirAllShift(dirs, dirs, refused, targets, MkdirAll(dirs, refused, rest));
      case Created =>
        MkdirAllResult(dirs + {t}, refused, rest);
        MkdirAllShift(dirs, dirs + {t}, refused, targets, MkdirAll(dirs + {t}, refused, rest));
    }
  }

  /** Target `k` is the first one that is missing and refused: the one where the walk returns -1. */
  predicate FirstRefused(dirs: set<seq<char>>, refused: set<seq<char>>, targets: seq<seq<char>>, k: nat) {
    && k < |targets| && targets[k] !in dirs && targets[k] in refused
    && forall i :: 0 <= i < k ==> targets[i] in dirs || targets[i] !in refused
  }

  /** The step of MkdirAllResult: the first target exists in `after`, and the walk goes on over the others. */
  lemma MkdirAllShift(dirs: set<seq<char>>, after: set<seq<char>>, refused: set<seq<char>>,
                      targets: seq<seq<char>>, r: (int, set<seq<char>>))
    requires |targets| > 0 && after == dirs + {targets[0]} && (targets[0] in dirs || targets[0] !in refused)
    requires r.0 == 0 ==> r.1 == after + set i | 0 <= i < |targets[1..]| :: targets[1..][i]
    requires r.0 == -1 ==> exists k: nat :: FirstRefused(after, refused, targets[1..], k) && r.1 == after + set i | 0 <= i < k :: targets[1..][i]
    ensures r.0 == 0 ==> r.1 == dirs + set i | 0 <= i < |targets| :: targets[i]
    ensures r.0 == -1 ==> exists k: nat :: FirstRefused(dirs, refused, targets, k) && r.1 == dirs + set i | 0 <= i < k :: targets[i]
  {
    var rest := targets[1..];
    if r.0 == 0 {
      PrefixTargets(targets, |targets|);
    }
    if r.0 == -1 {
      var k: nat :| FirstRefused(after, refused, rest, k) && r.1 == after + set i | 0 <= i < k :: rest[i];
      assert rest[k] == targets[k + 1];
      forall i | 0 <= i < k + 1
        ensures targets[i] in dirs || targets[i] !in refused
      {
        if i > 0 {
          assert targets[i] == rest[i - 1];
        }
      }
      assert FirstRefused(dirs, refused, targets, k + 1);
      PrefixTargets(targets, k + 1);
    }
  }

  /** The first `n` targets are the first one and the first `n - 1` of the others. */
  lemma PrefixTargets(targets: seq<seq<char>>, n: nat)
    requires 0 < n <= |targets|
    ensures (set i | 0 <= i < n :: targets[i]) == {targets[0]} + set i | 0 <= i < n - 1 :: targets[1..][i]
  {
    var a := set i | 0 <= i < n :: targets[i];
    var b := set i | 0 <= i < n - 1 :: targets[1..][i];
    forall x | x in a
      ensures x in {targets[0]} + b
    {
      var i :| 0 <= i < n && x == targets[i];
      if i > 0 {
        assert x == targets[1..][i - 1];
      }
    }
    forall x | x in b
      ensures x in a
    {
      var i :| 0 <= i < n - 1 && x == targets[1..][i];
      assert x == targets[i + 1];
    }
    assert targets[0] in a;
  }

  /** Over directories that all exist, the walk changes nothing and succeeds. */
  lemma {:induction false} MkdirAllExisting(dirs: set<seq<char>>, refused: set<seq<char>>, targets: seq<seq<char>>)
    requires forall i :: 0 <= i < |targets| ==> targets[i] in dirs
    ensures MkdirAll(dirs, refused, targets) == (0, dirs)
    decreases |targets|
  {
    if |targets| > 0 {
      MkdirAllExisting(dirs, refused, targets[1..]);
    }
  }

  /** A second mkpath over the same path, after a successful one, returns 0 and creates nothing. */
  lemma MkdirAllIdempotent(dirs: set<seq<char>>, refused: set<seq<char>>, targets: seq<seq<char>>)
    requires MkdirAll(dirs, refused, targets).0 == 0
    ensures var after := MkdirAll(dirs, refused, targets).1;
      MkdirAll(after, refused, targets) == (0, after)
  {
    MkdirAllExisting(MkdirAll(dirs, refused, targets).1, refused, targets);
  }

  /** From mkpath's scan position `p`, the next stop is `q` when no '/' lies between them. */
  lemma {:induction false} NextStopIs(s: seq<char>, p: nat, q: nat)
    requires p < q <= |s| && (q == |s| || s[q] == Slash)
    requires forall k :: p < k < q ==> s[k] != Slash
    ensures NextStop(s, p) == q
    decreases |s| - p
  {
    if !(p + 1 == |s| || s[p + 1] == Slash) {
      NextStopIs(s, p + 1, q);
    }
  }

  /**
   * `mkpath`: walks the C string in `path`, cutting it with a NUL at each
   * stop to mkdir the prefix, and puts the cut character back every time.
   */
  method MkPath(path: array<char>, fs: FileSystem) returns (rc: int)
    requires Strlen(path[..]) < path.Length
    modifies path, fs
    ensures path[..] == old(path[..])
    ensures (rc, fs.dirs) == MkdirAll(old(fs.dirs), fs.refused, Targets(CString(old(path[..]))))
  {
    ghost var n := Strlen(path[..]);
    ghost var s := path[..n];
    ghost var goal := MkdirAll(fs.dirs, fs.refused, Targets(s));
    var p := 0;
    while path[p] != NUL
      invariant 0 <= p <= n
      invariant path[..] == old(path[..])
      invariant goal == MkdirAll(fs.dirs, fs.refused, TargetsFrom(s, p))
      decreases n - p
    {
      var start := p;
      p := p + 1;
      while path[p] != NUL && path[p] != Slash
        invariant start < p <= n
        invariant forall k :: start < k < p ==> s[k] != Slash
        decreases n - p
      {
        p := p + 1;
      }
      NextStopIs(s, start, p);
      assert TargetsFrom(s, start) == [s[..p]] + TargetsFrom(s, p);
      var v := path[p];
      path[p] := NUL;
      CStringAt(path[..], p);
      assert path[..p] == s[..p];
      var r := fs.Mkdir(CString(path[..]));
      path[p] := v;
      assert path[..] == old(path[..]);
      if r == Refused {
        return -1;
      }
    }
    rc := 0;
  }

  // ---------------------------------------------------------------------
  // get_outfile_name
  // ---------------------------------------------------------------------

  /** `rindex(s, '/')` */
  function LastSlash(s: seq<char>): (r: Option<nat>)
    ensures r.Some? ==> r.value < |s| && s[r.value] == Slash && forall k :: r.value < k < |s| ==> s[k] != Slash
    ensures r.None? ==> forall k :: 0 <= k < |s| ==> s[k] != Slash
    decreases |s|
  {
    if |s| == 0 then None
    else if s[|s| - 1] == Slash then Some(|s| - 1)
    else LastSlash(s[..|s| - 1])
  }

  /** `*s == '/' ? s + 1 : s` */
  function DropLeadingSlash(s: seq<char>): seq<char> {
    if |s| > 0 && s[0] == Slash then s[1..] else s
  }

  /** The output directory with a '/' at its end, as it is copied to the buffer. */
  function WithSlash(dir: seq<char>): (r: seq<char>)
    requires |dir| > 0
    ensures |dir| <= |r| <= |dir| + 1 && r[..|dir|] == dir && r[|r| - 1] == Slash
    ensures dir[|dir| - 1] == Slash ==> r == dir
  {
    if dir[|dir| - 1] == Slash then dir else dir + [Slash]
  }

  /** The directory part of the input path that is appended before mkpath runs. */
  function DirPart(inpath: seq<char>): seq<char> {
    match LastSlash(inpath)
    case None => []
    case Some(k) => DropLeadingSlash(inpath[..k])
  }

  /** What is appended after mkpath: the last component with its '/', or the whole relative name. */
  function FilePart(inpath: seq<char>): seq<char> {
    match LastSlash(inpath)
    case None => DropLeadingSlash(inpath)
    case Some(k) => inpath[k..]
  }

  /** Whether `get_outfile_name` sends the output to standard output (returns NULL). */
  predicate ToStdout(dir: Option<seq<char>>, inpath: seq<char>) {
    dir.None? || |dir.value| == 0 || dir.value == "-" || |inpath| == 0
  }

  /** The name `get_outfile_name` composes, and the directory it asks mkpath for on the way. */
  function OutfileName(dir: Option<seq<char>>, inpath: seq<char>): (r: Option<seq<char>>)
    ensures r.None? <==> ToStdout(dir, inpath)
  {
    if ToStdout(dir, inpath) then None
    else Some(WithSlash(dir.value) + DirPart(inpath) + FilePart(inpath))
  }

  function MkpathTarget(dir: seq<char>, inpath: seq<char>): seq<char>
    requires |dir| > 0
  {
    WithSlash(dir) + DirPart(inpath)
  }

  /** A relative input path is placed under the output directory unchanged. */
  lemma OutfileRelative(dir: seq<char>, inpath: seq<char>)
    requires !ToStdout(Some(dir), inpath) && inpath[0] != Slash
    ensures OutfileName(Some(dir), inpath) == Some(WithSlash(dir) + inpath)
  {
    var w := WithSlash(dir);
    match LastSlash(inpath)
    case None =>
      assert w + [] + inpath == w + inpath;
    case Some(k) =>
      assert k > 0 && inpath[..k][0] == inpath[0];
      assert w + inpath[..k] + inpath[k..] == w + inpath;
  }

  /** An absolute input path with a directory part loses its leading '/'. */
  lemma OutfileAbsolute(dir: seq<char>, inpath: seq<char>)
    requires !ToStdout(Some(dir), inpath) && inpath[0] == Slash
    requires LastSlash(inpath).Some? && LastSlash(inpath).value > 0
    ensures OutfileName(Some(dir), inpath) == Some(WithSlash(dir) + inpath[1..])
  {
    var w := WithSlash(dir);
    var k := LastSlash(inpath).value;
    assert inpath[..k][0] == Slash;
    assert w + inpath[..k][1..] + inpath[k..] == w + inpath[1..];
  }

  /**
   * An absolute input path whose only '/' is the leading one keeps it: the
   * name holds two '/' in a row where the directory ends.
   */
  lemma OutfileRootFile(dir: seq<char>, inpath: seq<char>)
    requires !ToStdout(Some(dir), inpath) && inpath[0] == Slash
    requires forall k :: 0 < k < |inpath| ==> inpath[k] != Slash
    ensures OutfileName(Some(dir), inpath) == Some(WithSlash(dir) + inpath)
    ensures var r := OutfileName(Some(dir), inpath).value;
      r[|WithSlash(dir)| - 1] == Slash && r[|WithSlash(dir)|] == Slash
  {
    var w := WithSlash(dir);
    assert LastSlash(inpath) == Some(0);
    assert inpath[..0] == [];
    assert w + [] + inpath[0..] == w + inpath;
  }

  /** Bytes the composed name needs, its terminating NUL included. */
  function NameBytes(dir: seq<char>, inpath: seq<char>): nat
    requires |dir| > 0
  {
    |WithSlash(dir) + DirPart(inpath) + FilePart(inpath)| + 1
  }

  /** The input path loses at most its leading '/' on the way into the name. */
  lemma PartsLength(inpath: seq<char>)
    ensures |DirPart(inpath)| + |FilePart(inpath)| <= |inpath|
    ensures |inpath| > 0 && inpath[0] != Slash ==> |DirPart(inpath)| + |FilePart(inpath)| == |inpath|
  {
  }

  /** `bufsize` after the growth check for a name of `pathlen` bytes. */
  function GrownSize(bufsize: nat, pathlen: nat): (r: nat)
    ensures bufsize <= r && pathlen <= r
    ensures bufsize < pathlen ==> r % PathBufferLength == 0 && pathlen < r
    ensures bufsize >= pathlen ==> r == bufsize
  {
    if bufsize < pathlen then (pathlen / PathBufferLength + 1) * PathBufferLength else bufsize
  }

  /** The `pathlen` of the source: directory, input path and NUL, without room for an added '/'. */
  function PathLenAsWritten(dir: seq<char>, inpath: seq<char>): nat {
    |dir| + |inpath| + 1
  }

  /** The `pathlen` the buffer must cover: one more byte for the '/' that may be added. */
  function PathLen(dir: seq<char>, inpath: seq<char>): nat {
    |dir| + |inpath| + 2
  }

  /**
   * As written, a buffer exactly `pathlen` bytes long is not grown, yet a
   * relative name under a directory without a trailing '/' needs one byte
   * more than that.
   */
  lemma AsWrittenOverflows(dir: seq<char>, inpath: seq<char>, bufsize: nat)
    requires |dir| > 0 && dir[|dir| - 1] != Slash
    requires |inpath| > 0 && inpath[0] != Slash
    requires bufsize == PathLenAsWritten(dir, inpath)
    ensures GrownSize(bufsize, PathLenAsWritten(dir, inpath)) < NameBytes(dir, inpath)
  {
    PartsLength(inpath);
  }

  /** The smallest instance: directory "o" and a 1022-character file name fill the initial 1024 bytes and overrun them. */
  lemma AsWrittenOverflowExample()
    ensures var inpath := seq(1022, _ => 'a');
      && PathLenAsWritten("o", inpath) == PathBufferLength
      && GrownSize(PathBufferLength, PathLenAsWritten("o", inpath)) == PathBufferLength
      && NameBytes("o", inpath) == PathBufferLength + 1
  {
    var inpath := seq(1022, _ => 'a');
    assert inpath[0] != Slash;
    AsWrittenOverflows("o", inpath, PathBufferLength);
    PartsLength(inpath);
  }

  /** With the corrected `pathlen` the grown buffer always holds the name. */
  lemma NameFits(dir: seq<char>, inpath: seq<char>, bufsize: nat)
    requires |dir| > 0
    ensures NameBytes(dir, inpath) <= GrownSize(bufsize, PathLen(dir, inpath))
  {
    PartsLength(inpath);
  }

  /**
   * The price of the correction: under a directory that already ends in '/',
   * the source's buffer of 1024 bytes holds a name of 1024 bytes, while the
   * corrected `pathlen` grows it to 2048.
   */
  lemma CorrectedGrowsEarlier()
    ensures var inpath := seq(1021, _ => 'a');
      && GrownSize(PathBufferLength, PathLenAsWritten("o/", inpath)) == PathBufferLength
      && NameBytes("o/", inpath) == PathBufferLength
      && GrownSize(PathBufferLength, PathLen("o/", inpath)) == 2 * PathBufferLength
  {
    var inpath := seq(1021, _ => 'a');
    assert inpath[0] != Slash;
    PartsLength(inpath);
  }

  /** Copies `s` and a NUL into `a` at `at` (`strcpy`/`strcat` once the end is known). */
  method Append(a: array<char>, at: nat, s: seq<char>) returns (end: nat)
    requires at + |s| < a.Length
    modifies a
    ensures end == at + |s|
    ensures a[..end] == old(a[..at]) + s && a[end] == NUL
  {
    forall i | 0 <= i < |s| {
      a[at + i] := s[i];
    }
    end := at + |s|;
    a[end] := NUL;
    assert a[..end] == old(a[..at]) + s;
  }

  /** The pieces of a name built from C strings hold no NUL. */
  lemma NamePartsNoNul(d: seq<char>, inpath: seq<char>)
    requires |d| > 0 && NoNul(d) && NoNul(inpath)
    ensures NoNul(MkpathTarget(d, inpath))
    ensures NoNul(FilePart(inpath))
    ensures NoNul(MkpathTarget(d, inpath) + FilePart(inpath))
  {
    var t := MkpathTarget(d, inpath);
    forall i | 0 <= i < |t|
      ensures t[i] != NUL
    {
      if i < |d| {
        assert t[i] == d[i];
      }
    }
    var f := FilePart(inpath);
    forall i | 0 <= i < |t + f|
      ensures (t + f)[i] != NUL
    {
      if i >= |t| {
        assert (t + f)[i] == f[i - |t|];
      }
    }
  }

  /**
   * The copying part of `get_outfile_name`: the directory with its '/', the
   * directory part of the input path, mkpath on that, then the rest of the
   * input path; the buffer must have room for the whole name.
   */
  method ComposeInto(buffer: array<char>, d: seq<char>, inpath: seq<char>, fs: FileSystem) returns (len: nat)
    requires |d| > 0 && NoNul(d) && NoNul(inpath)
    requires NameBytes(d, inpath) <= buffer.Length
    modifies buffer, fs
    ensures len < buffer.Length && buffer[..len] == WithSlash(d) + DirPart(inpath) + FilePart(inpath) && buffer[len] == NUL
    ensures fs.dirs == MkdirAll(old(fs.dirs), fs.refused, Targets(MkpathTarget(d, inpath))).1
  {
    len := WriteDirectory(buffer, d, inpath);
    NamePartsNoNul(d, inpath);
    CStringAt(buffer[..], len);
    var _ := MkPath(buffer, fs);
    assert buffer[..len] == MkpathTarget(d, inpath);
    len := Append(buffer, len, FilePart(inpath));
  }

  /** The output directory, a '/' when it lacks one, and the directory part of the input path. */
  method WriteDirectory(buffer: array<char>, d: seq<char>, inpath: seq<char>) returns (len: nat)
    requires |d| > 0
    requires NameBytes(d, inpath) <= buffer.Length
    modifies buffer
    ensures len + |FilePart(inpath)| < buffer.Length
    ensures buffer[..len] == MkpathTarget(d, inpath) && buffer[len] == NUL
  {
    ghost var w, dp, fp := WithSlash(d), DirPart(inpath), FilePart(inpath);
    assert |w| + |dp| + |fp| + 1 <= buffer.Length;
    len := Append(buffer, 0, d);
    assert buffer[..len] == d;
    if buffer[len - 1] != Slash {
      len := Append(buffer, len, [Slash]);
      assert buffer[..len] == d + [Slash];
    }
    assert buffer[..len] == w;
    len := Append(buffer, len, DirPart(inpath));
  }

  /** `output_file_name` and the static `bufsize` of get_outfile_name. */
  class OutfileBuffer {
    var buffer: array?<char>
    var bufsize: nat

    ghost predicate Valid()
      reads this
    {
      && (buffer == null ==> bufsize == 0)
      && (buffer != null ==> buffer.Length == bufsize && bufsize >= PathBufferLength)
    }

    /** No buffer yet: `output_file_name` is NULL and `bufsize` is 0. */
    constructor ()
      ensures Valid() && buffer == null && bufsize == 0
    {
      buffer, bufsize := null, 0;
    }

    /**
     * The buffer management of `get_outfile_name`: allocate 1024 bytes on
     * the first call, and grow to the next multiple of 1024 above `pathlen`
     * when the buffer is smaller than `pathlen`.
     */
    method Reserve(pathlen: nat)
      requires Valid()
      modifies this
      ensures Valid() && buffer != null
      ensures bufsize == GrownSize(if old(buffer) == null then PathBufferLength else old(bufsize), pathlen)
      ensures buffer == old(buffer) || fresh(buffer)
    {
      if buffer == null {
        bufsize := PathBufferLength;
        buffer := new char[bufsize];
      }
      if bufsize < pathlen {
        bufsize := (pathlen / PathBufferLength + 1) * PathBufferLength;
        buffer := new char[bufsize];
      }
    }

    /**
     * `get_outfile_name`: composes the output name for `inpath` under `dir`
     * in the buffer, creating its directories on the way. None stands for
     * NULL (write to standard output). Uses the corrected `pathlen`.
     */
    method GetOutfileName(dir: Option<seq<char>>, inpath: seq<char>, fs: FileSystem) returns (name: Option<seq<char>>)
      requires Valid()
      requires dir.Some? ==> NoNul(dir.value)
      requires NoNul(inpath)
      modifies this, buffer, fs
      ensures Valid()
      ensures name == OutfileName(dir, inpath)
      ensures name.None? ==> unchanged(this) && unchanged(fs)
      // the capacity never shrinks, and it covers the name
      ensures old(bufsize) <= bufsize
      ensures name.Some? ==> buffer != null && bufsize == GrownSize(if old(buffer) == null then PathBufferLength else old(bufsize), PathLen(dir.value, inpath))
      ensures name.Some? ==> CString(buffer[..]) == name.value
      // the directories of the name are created on the way
      ensures name.Some? ==> fs.dirs == MkdirAll(old(fs.dirs), fs.refused, Targets(MkpathTarget(dir.value, inpath))).1
    {
      if ToStdout(dir, inpath) {
        return None;
      }
      var d := dir.value;
      Reserve(PathLen(d, inpath));
      NameFits(d, inpath, if old(buffer) == null then PathBufferLength else old(bufsize));
      var len := ComposeInto(buffer, d, inpath, fs);
      name := Some(buffer[..len]);
      NamePartsNoNul(d, inpath);
      CStringAt(buffer[..], len);
    }
  }
}
