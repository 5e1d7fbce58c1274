/** Shared vocabulary: bytes, optional values and C-string helpers. */
module Common {

  /** One `char`/`AC_ALPHABET_t` of the C program, seen as an unsigned byte. */
  type byte = x: int | 0 <= x < 256

  /** A pointer that may be NULL. */
  datatype Option<T> = None | Some(value: T)

  /** The NUL character that terminates a C string. */
  const NUL: char := 0 as char

  /** A C string: it holds no NUL before its end. */
  predicate NoNul(s: seq<char>) {
    forall i :: 0 <= i < |s| ==> s[i] != NUL
  }

  /** `strlen` over a byte buffer: the index of the first 0 byte, or the whole length. */
  function ByteStrlen(s: seq<byte>): (n: nat)
    ensures n <= |s|
    ensures forall i :: 0 <= i < n ==> s[i] != 0
    ensures n < |s| ==> s[n] == 0
  {
    if |s| == 0 || s[0] == 0 then 0 else 1 + ByteStrlen(s[1..])
  }

  /** `strlen` over a character buffer. */
  function Strlen(s: seq<char>): (n: nat)
    ensures n <= |s|
    ensures forall i :: 0 <= i < n ==> s[i] != NUL
    ensures n < |s| ==> s[n] == NUL
  {
    if |s| == 0 || s[0] == NUL then 0 else 1 + Strlen(s[1..])
  }

  /** The C string a `char *` designates: everything before the first NUL. */
  function CString(s: seq<char>): seq<char> {
    s[..Strlen(s)]
  }

  /** A buffer whose first NUL sits at `n` designates exactly its first `n` characters. */
  lemma CStringAt(s: seq<char>, n: nat)
    requires n < |s| && s[n] == NUL && NoNul(s[..n])
    ensures CString(s) == s[..n]
  {
    assert forall i :: 0 <= i < n ==> s[i] == s[..n][i];
  }
}
