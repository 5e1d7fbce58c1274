/** ASCII case folding: `lower_case` of multifast.c, used on pattern text and on input windows. */
module Case {
  import opened Common

  /** `tolower` in the C locale: only 'A'..'Z' change. */
  function ToLower(b: byte): (r: byte)
    ensures 'A' as int <= b <= 'Z' as int ==> r == b + 32
    ensures !('A' as int <= b <= 'Z' as int) ==> r == b
  {
    if 'A' as int <= b <= 'Z' as int then b + ('a' as int - 'A' as int) else b
  }

  predicate IsUpper(b: byte) {
    'A' as int <= b <= 'Z' as int
  }

  /** The bytes of `s` after case folding. */
  function LowerAll(s: seq<byte>): (r: seq<byte>)
    ensures |r| == |s|
    decreases |s|
  {
    if |s| == 0 then [] else [ToLower(s[0])] + LowerAll(s[1..])
  }

  /** Folding keeps the length and maps every byte on its own. */
  lemma {:induction false} LowerAllAt(s: seq<byte>)
    ensures |LowerAll(s)| == |s|
    ensures forall i :: 0 <= i < |s| ==> LowerAll(s)[i] == ToLower(s[i])
  {
    if |s| > 0 {
      LowerAllAt(s[1..]);
    }
  }

  /** No upper-case letter survives folding. */
  lemma LowerAllHasNoUpper(s: seq<byte>)
    ensures forall i :: 0 <= i < |LowerAll(s)| ==> !IsUpper(LowerAll(s)[i])
  {
    LowerAllAt(s);
  }

  /** Folding twice is folding once. */
  lemma {:induction false} LowerAllIdempotent(s: seq<byte>)
    ensures LowerAll(LowerAll(s)) == LowerAll(s)
  {
    if |s| > 0 {
      LowerAllIdempotent(s[1..]);
      assert LowerAll(s)[1..] == LowerAll(s[1..]);
    }
  }

  /** Folding distributes over concatenation, so folding a file window by window folds the file. */
  lemma {:induction false} LowerAllAppend(a: seq<byte>, b: seq<byte>)
    ensures LowerAll(a + b) == LowerAll(a) + LowerAll(b)
  {
    if |a| > 0 {
      LowerAllAppend(a[1..], b);
      assert (a + b)[1..] == a[1..] + b;
    } else {
      assert a + b == b;
    }
  }

  /**
   * `lower_case (s, l)`: folds the first `l` bytes of `s` in place and
   * leaves the rest of the buffer alone.
   */
  method LowerCase(s: array<byte>, l: nat)
    requires l <= s.Length
    modifies s
    ensures s[..l] == LowerAll(old(s[..l]))
    ensures s[l..] == old(s[l..])
  {
    LowerAllAt(s[..l]);
    for i := 0 to l
      invariant forall k :: 0 <= k < i ==> s[k] == ToLower(old(s[k]))
      invariant forall k :: i <= k < s.Length ==> s[k] == old(s[k])
    {
      s[i] := ToLower(s[i]);
    }
  }
}
