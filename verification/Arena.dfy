/**
 * The string arena of strmm.c: an append-only store of NUL-terminated
 * entries kept in fixed-size chunks, with a cursor (current chunk, offset
 * in it) and a chunk directory that grows by a fixed step.
 *
 * A C pointer into the arena is modelled as a handle (chunk, offset, length).
 */
module Arena {
  import opened Common

  /** STRING_TABLE_ALLOC_SIZE: the size of every chunk. */
  const ChunkSize: nat := 4096
  /** STRING_TABLE_MAX_CHUNK_NUMBER: the directory's first capacity and its growth step. */
  const DirectoryStep: nat := 40

  /** Where one entry lives: `length` bytes at `offset` in chunk `chunk`, then a 0 byte. */
  datatype Handle = Handle(chunk: nat, offset: nat, length: nat)

  /** The bookkeeping fields of `STRMM_t`: `last_chunk`, `last_pos`, `max_chunk`. */
  datatype Cursor = Cursor(lastChunk: nat, lastPos: nat, maxChunk: nat)

  /** The invariant `strmm_add` keeps on the cursor. */
  predicate CursorOk(c: Cursor) {
    c.lastPos <= ChunkSize && c.lastChunk < c.maxChunk && c.maxChunk % DirectoryStep == 0
  }

  /** The cursor `strmm_init` sets up. */
  const InitialCursor: Cursor := Cursor(0, 0, DirectoryStep)

  /** The entry at `h`, terminator included, lies in the part already filled when the cursor is `c`. */
  predicate Written(h: Handle, c: Cursor) {
    h.offset + h.length + 1 <= ChunkSize &&
    (h.chunk < c.lastChunk || (h.chunk == c.lastChunk && h.offset + h.length + 1 <= c.lastPos))
  }

  /** Two entries (terminators included) share no byte. */
  predicate Disjoint(h: Handle, g: Handle) {
    h.chunk != g.chunk || h.offset + h.length + 1 <= g.offset || g.offset + g.length + 1 <= h.offset
  }

  /**
   * Where `strmm_add` stores an entry of `len` bytes when the cursor is `c`,
   * and the cursor afterwards; None when the entry cannot fit any chunk.
   */
  function Place(c: Cursor, len: nat): (r: Option<(Handle, Cursor)>)
    // an entry is refused exactly when it (with its terminator) is larger than a chunk
    ensures r.None? <==> len + 1 > ChunkSize
    // it fits after the cursor: same chunk, at the old offset, cursor moves by len + 1
    ensures c.lastPos + len + 1 <= ChunkSize ==>
      r.Some? && r.value.0 == Handle(c.lastChunk, c.lastPos, len) &&
      r.value.1.lastChunk == c.lastChunk && r.value.1.lastPos == c.lastPos + len + 1 &&
      r.value.1.maxChunk == c.maxChunk
    // it does not: exactly one fresh chunk, entry at offset 0
    ensures c.lastPos + len + 1 > ChunkSize && r.Some? ==>
      r.value.0 == Handle(c.lastChunk + 1, 0, len) &&
      r.value.1.lastChunk == c.lastChunk + 1 && r.value.1.lastPos == len + 1
    // the directory only grows, by one step, and only when it was full
    ensures r.Some? ==>
      r.value.1.maxChunk == c.maxChunk ||
      (r.value.1.maxChunk == c.maxChunk + DirectoryStep && r.value.1.lastChunk == c.lastChunk + 1 >= c.maxChunk)
    // the cursor invariant is kept and the new entry is inside the filled part
    ensures r.Some? && CursorOk(c) ==> CursorOk(r.value.1)
    ensures r.Some? ==> Written(r.value.0, r.value.1)
    // append-only: what was filled stays filled and shares no byte with the new entry
    ensures r.Some? ==> forall g :: Written(g, c) ==> Written(g, r.value.1) && Disjoint(g, r.value.0)
  {
    if c.lastPos + len + 1 > ChunkSize then
      if len + 1 > ChunkSize then None
      else
        var chunk := c.lastChunk + 1;
        var maxChunk := if chunk >= c.maxChunk then c.maxChunk + DirectoryStep else c.maxChunk;
        Some((Handle(chunk, 0, len), Cursor(chunk, len + 1, maxChunk)))
    else
      Some((Handle(c.lastChunk, c.lastPos, len), c.(lastPos := c.lastPos + len + 1)))
  }

  /** A run of adds with lengths `lens`: the final cursor and what each add returned. */
  function PlaceAll(c: Cursor, lens: seq<nat>): (Cursor, seq<Option<Handle>>)
    decreases |lens|
  {
    if |lens| == 0 then (c, [])
    else
      var r := Place(c, lens[0]);
      var next := if r.Some? then r.value.1 else c;
      var rest := PlaceAll(next, lens[1..]);
      (rest.0, [if r.Some? then Some(r.value.0) else None] + rest.1)
  }

  /**
   * Any run of adds hands out pairwise disjoint entries, all inside the
   * filled part at the end, and disturbs nothing filled before it; only the
   * oversized ones are refused.
   */
  lemma {:induction false} PlaceAllDisjoint(c: Cursor, lens: seq<nat>)
    requires CursorOk(c)
    ensures var (fin, hs) := PlaceAll(c, lens);
      && CursorOk(fin)
      && |hs| == |lens|
      && (forall i :: 0 <= i < |hs| ==> (hs[i].None? <==> lens[i] + 1 > ChunkSize))
      && (forall i :: 0 <= i < |hs| && hs[i].Some? ==> Written(hs[i].value, fin) && hs[i].value.length == lens[i])
      && (forall i, j :: 0 <= i < j < |hs| && hs[i].Some? && hs[j].Some? ==> Disjoint(hs[i].value, hs[j].value))
      && (forall g :: Written(g, c) ==> Written(g, fin) && forall i :: 0 <= i < |hs| && hs[i].Some? ==> Disjoint(g, hs[i].value))
    decreases |lens|
  {
    if |lens| > 0 {
      var r := Place(c, lens[0]);
      var next := if r.Some? then r.value.1 else c;
      PlaceAllDisjoint(next, lens[1..]);
      var (fin, hs) := PlaceAll(c, lens);
      var rest := PlaceAll(next, lens[1..]).1;
      assert hs == [if r.Some? then Some(r.value.0) else None] + rest;
      if r.Some? {
        assert Written(r.value.0, next);
      }
    }
  }

  /** `memcpy` of `s` to `chunk` at `at`, then the 0 terminator; the bytes before `at` stay. */
  method Store(chunk: array<byte>, at: nat, s: seq<byte>)
    requires at + |s| < chunk.Length
    modifies chunk
    ensures chunk[at .. at + |s|] == s && chunk[at + |s|] == 0
    ensures chunk[..at] == old(chunk[..at])
  {
    forall i | 0 <= i < |s| {
      chunk[at + i] := s[i];
    }
    chunk[at + |s|] := 0;
  }

  /** The arena (`STRMM_t`) with the chunk directory `space`. */
  class StringArena {
    /** The chunk directory; entries 0 .. last_chunk are allocated chunks. */
    var space: seq<array<byte>>
    var lastChunk: nat
    var lastPos: nat
    /** Capacity of the directory (`max_chunk`); `space` may use up to this many slots. */
    var maxChunk: nat

    /** Every handle handed out so far, in order, and the bytes stored at each. */
    ghost var entries: seq<Handle>
    ghost var Contents: seq<seq<byte>>
    ghost var Repr: set<object>

    function At(): Cursor
      reads this
    {
      Cursor(lastChunk, lastPos, maxChunk)
    }

    /** The bytes designated by `h` (the string a returned pointer points to, without its terminator). */
    function Read(h: Handle): (r: seq<byte>)
      reads this, space
      requires h.chunk < |space| && h.offset + h.length <= space[h.chunk].Length
      ensures |r| == h.length
    {
      space[h.chunk][h.offset .. h.offset + h.length]
    }

    /** Entry `h` holds `s` followed by a 0 byte. */
    ghost predicate Holds(h: Handle, s: seq<byte>)
      reads this, space
      requires h.chunk < |space| && h.offset + h.length < space[h.chunk].Length
    {
      Read(h) == s && space[h.chunk][h.offset + h.length] == 0
    }

    ghost predicate Valid()
      reads this, Repr
    {
      && this in Repr
      && |space| == lastChunk + 1
      && (forall i :: 0 <= i < |space| ==> space[i] in Repr && space[i].Length == ChunkSize)
      && (forall i, j :: 0 <= i < j < |space| ==> space[i] != space[j])
      && CursorOk(At())
      && |entries| == |Contents|
      && (forall k :: 0 <= k < |entries| ==> Written(entries[k], At()))
      && (forall k :: 0 <= k < |entries| ==> Holds(entries[k], Contents[k]))
    }

    /** `strmm_init`: one chunk, cursor at its start, directory of 40 slots. */
    constructor ()
      ensures Valid() && fresh(Repr)
      ensures At() == InitialCursor && |space| == 1
      ensures entries == [] && Contents == []
    {
      var first := new byte[ChunkSize];
      space := [first];
      lastChunk, lastPos, maxChunk := 0, 0, DirectoryStep;
      entries, Contents := [], [];
      Repr := {this, first};
    }

    /**
     * `strmm_add`: copies `s` and a 0 terminator into the arena and returns
     * where they went (the C function also writes that pointer back through
     * its `str` argument). Returns None, changing nothing, when `s` plus its
     * terminator is larger than a chunk.
     */
    method Add(s: seq<byte>) returns (h: Option<Handle>)
      requires Valid()
      modifies Repr
      ensures Valid() && fresh(Repr - old(Repr))
      ensures h.None? <==> |s| + 1 > ChunkSize
      ensures h.None? ==> Repr == old(Repr) && unchanged(Repr) && entries == old(entries) && Contents == old(Contents)
      ensures h.Some? ==> Place(old(At()), |s|) == Some((h.value, At()))
      ensures h.Some? ==> entries == old(entries) + [h.value] && Contents == old(Contents) + [s]
      ensures h.Some? ==> Holds(h.value, s)
      // chunks never move: the directory only gains slots at its end
      ensures |old(space)| <= |space| && space[..|old(space)|] == old(space)
      // earlier entries keep their bytes
      ensures forall k :: 0 <= k < |old(entries)| ==> Read(old(entries)[k]) == old(Read(entries[k]))
    {
      if lastPos + |s| + 1 > ChunkSize {
        if |s| + 1 > ChunkSize {
          return None;
        }
        OpenChunk();
      }
      var stored := CopyAtCursor(s);
      h := Some(stored);
    }

    /** Moves the cursor to a freshly allocated chunk, growing the directory when it is full. */
    method OpenChunk()
      requires Valid()
      modifies this
      ensures Valid() && fresh(Repr - old(Repr))
      ensures lastChunk == old(lastChunk) + 1 && lastPos == 0
      ensures maxChunk == if lastChunk >= old(maxChunk) then old(maxChunk) + DirectoryStep else old(maxChunk)
      ensures |space| == |old(space)| + 1 && space[..|old(space)|] == old(space)
      ensures entries == old(entries) && Contents == old(Contents)
    {
      lastChunk := lastChunk + 1;
      if lastChunk >= maxChunk {
        maxChunk := maxChunk + DirectoryStep;
      }
      var chunk := new byte[ChunkSize];
      space := space + [chunk];
      Repr := Repr + {chunk};
      lastPos := 0;
      ChunkAppended(chunk);
    }

    /** Appending a fresh chunk and moving the cursor to its start keeps every entry and the invariant. */
    twostate lemma ChunkAppended(new chunk: array<byte>)
      requires old(Valid())
      requires fresh(chunk) && chunk.Length == ChunkSize
      requires space == old(space) + [chunk] && Repr == old(Repr) + {chunk}
      requires lastChunk == old(lastChunk) + 1 && lastPos == 0
      requires lastChunk < maxChunk && maxChunk % DirectoryStep == 0
      requires entries == old(entries) && Contents == old(Contents)
      requires forall i :: 0 <= i < |old(space)| ==> unchanged(old(space)[i])
      ensures Valid()
    {
      assert space[..|old(space)|] == old(space);
      forall k | 0 <= k < |entries|
        ensures Written(entries[k], At()) && Holds(entries[k], Contents[k])
      {
        assert old(Written(entries[k], At()) && Holds(entries[k], Contents[k]));
        assert space[entries[k].chunk] == old(space[entries[k].chunk]);
      }
    }

    /** Copies `s` and its terminator at the cursor, which must have room for them. */
    method CopyAtCursor(s: seq<byte>) returns (h: Handle)
      requires Valid()
      requires lastPos + |s| + 1 <= ChunkSize
      modifies this, space[lastChunk]
      ensures Valid() && Repr == old(Repr) && space == old(space)
      ensures h == Handle(old(lastChunk), old(lastPos), |s|)
      ensures lastChunk == old(lastChunk) && maxChunk == old(maxChunk) && lastPos == old(lastPos) + |s| + 1
      ensures entries == old(entries) + [h] && Contents == old(Contents) + [s]
      ensures Holds(h, s)
      ensures forall k :: 0 <= k < |old(entries)| ==> Read(old(entries)[k]) == old(Read(entries[k]))
    {
      var chunk := space[lastChunk];
      var at := lastPos;
      Store(chunk, at, s);
      lastPos := at + |s| + 1;
      h := Handle(lastChunk, at, |s|);
      entries := entries + [h];
      Contents := Contents + [s];
      Stored(chunk, at, s, h);
    }

    /** A store at the cursor followed by recording its entry leaves the arena valid. */
    twostate lemma Stored(new chunk: array<byte>, new at: nat, new s: seq<byte>, new h: Handle)
      requires old(Valid()) && space == old(space) && Repr == old(Repr)
      requires lastChunk == old(lastChunk) && maxChunk == old(maxChunk)
      requires chunk == space[lastChunk] && at == old(lastPos) && lastPos == at + |s| + 1 <= ChunkSize
      requires chunk[..at] == old(chunk[..at]) && chunk[at .. at + |s|] == s && chunk[at + |s|] == 0
      requires forall i :: 0 <= i < |old(space)| && old(space)[i] != chunk ==> unchanged(old(space)[i])
      requires h == Handle(lastChunk, at, |s|)
      requires entries == old(entries) + [h] && Contents == old(Contents) + [s]
      ensures Valid()
    {
      forall k | 0 <= k < |entries|
        ensures Written(entries[k], At()) && Holds(entries[k], Contents[k])
      {
        if k < |old(entries)| {
          KeptEntry(chunk, at, k);
          assert entries[k] == old(entries)[k] && Contents[k] == old(Contents)[k];
        }
      }
    }

    /** An entry filled before `at` in the current chunk, or in another chunk, survives a store at `at`. */
    twostate lemma KeptEntry(new chunk: array<byte>, new at: nat, new k: nat)
      requires old(Valid()) && space == old(space)
      requires lastChunk == old(lastChunk) && maxChunk == old(maxChunk)
      requires chunk == space[lastChunk] && at == old(lastPos) && at <= lastPos <= ChunkSize
      requires chunk[..at] == old(chunk[..at])
      requires forall i :: 0 <= i < |old(space)| && old(space)[i] != chunk ==> unchanged(old(space)[i])
      requires k < |old(entries)|
      ensures Written(old(entries)[k], At())
      ensures Holds(old(entries)[k], old(Contents)[k])
    {
      var e := old(entries)[k];
      assert old(Written(e, At()) && Holds(e, Contents[k]));
      if e.chunk == lastChunk {
        assert chunk[e.offset .. e.offset + e.length] == chunk[..at][e.offset .. e.offset + e.length];
        assert chunk[e.offset + e.length] == chunk[..at][e.offset + e.length];
      } else {
        assert space[e.chunk] != chunk && space[e.chunk] in old(space);
      }
    }

    /**
     * `strmm_addstrid`: the same placement and failure rule as `Add`, for a
     * NUL-terminated identifier whose length is its `strlen`.
     */
    method AddStrId(str: seq<byte>) returns (h: Option<Handle>)
      requires Valid()
      modifies Repr
      ensures Valid() && fresh(Repr - old(Repr))
      ensures h.None? <==> ByteStrlen(str) + 1 > ChunkSize
      ensures h.None? ==> Repr == old(Repr) && unchanged(Repr) && entries == old(entries) && Contents == old(Contents)
      ensures h.Some? ==> Place(old(At()), ByteStrlen(str)) == Some((h.value, At()))
      ensures h.Some? ==> entries == old(entries) + [h.value] && Contents == old(Contents) + [str[..ByteStrlen(str)]]
      ensures h.Some? ==> Holds(h.value, str[..ByteStrlen(str)])
      ensures |old(space)| <= |space| && space[..|old(space)|] == old(space)
      ensures forall k :: 0 <= k < |old(entries)| ==> Read(old(entries)[k]) == old(Read(entries[k]))
    {
      var strLength := ByteStrlen(str);
      h := Add(str[..strLength]);
    }

    /** `strmm_release`: frees chunks 0 .. last_chunk and the directory; no handle stays valid. */
    method Release()
      requires Valid()
      modifies this
      ensures space == [] && entries == [] && Contents == []
      ensures At() == old(At())
    {
      space := [];
      entries, Contents := [], [];
    }
  }
}
