/**
 * NUL-terminated byte strings as the queue stores them, and the two C library
 * routines the queue relies on: `strcmp` for ordering and the buffer read-back
 * that a caller performs on the copy made by `q_remove_head`/`q_remove_tail`.
 */
module CStrings {

  /** An unsigned char. */
  type byte = b: int | 0 <= b < 256

  /** The contents of a C string: the bytes before its terminator, none of them NUL. */
  type CString = s: seq<byte> | forall i | 0 <= i < |s| :: s[i] != 0

  /** The byte at index `i` of the array holding `s` and its terminating NUL. */
  function ByteAt(s: CString, i: nat): (b: byte)
    requires i <= |s|
    ensures b == 0 <==> i == |s|
  {
    if i < |s| then s[i] else 0
  }

  /**
   * `strcmp`: walks both strings while their bytes agree and neither has
   * ended, then returns the difference between the first pair of bytes that
   * tells them apart (the terminator reading as 0). Callers only use the sign.
   */
  function StrCmp(a: CString, b: CString): (r: int)
    ensures r == 0 <==> a == b
    decreases |a|
  {
    if a == [] || b == [] || a[0] != b[0] then ByteAt(a, 0) - ByteAt(b, 0)
    else
      assert a == [a[0]] + a[1..] && b == [b[0]] + b[1..];
      StrCmp(a[1..], b[1..])
  }

  /** `strcmp(a, b) <= 0`: `a` sorts no later than `b`. */
  predicate Leq(a: CString, b: CString)
  {
    StrCmp(a, b) <= 0
  }

  /** Swapping the operands of `strcmp` negates its result. */
  lemma {:induction false} StrCmpAntisymmetric(a: CString, b: CString)
    ensures StrCmp(b, a) == -StrCmp(a, b)
    decreases |a|
  {
    if a == [] || b == [] || a[0] != b[0] {
    } else {
      StrCmpAntisymmetric(a[1..], b[1..]);
    }
  }

  /** Any two strings are ordered one way or the other. */
  lemma LeqTotal(a: CString, b: CString)
    ensures Leq(a, b) || Leq(b, a)
  {
    StrCmpAntisymmetric(a, b);
  }

  /** The order `strcmp` induces is transitive. */
  lemma {:induction false} LeqTransitive(a: CString, b: CString, c: CString)
    requires Leq(a, b) && Leq(b, c)
    ensures Leq(a, c)
    decreases |a|
  {
    if a != [] {
      // `a` is not empty and does not sort after `b`, so `b` is not empty either
      assert b != [];
      assert c != [];
      if a[0] == b[0] && b[0] == c[0] {
        LeqTransitive(a[1..], b[1..], c[1..]);
      }
    }
  }

  /** A strict step followed by a non-strict one is strict. */
  lemma {:induction false} LessLeqTransitive(a: CString, b: CString, c: CString)
    requires StrCmp(a, b) < 0 && Leq(b, c)
    ensures StrCmp(a, c) < 0
  {
    LeqTransitive(a, b, c);
    if a == c {
      StrCmpAntisymmetric(b, c);
    }
  }

  /** The first `k` bytes of `s`, or all of `s` when it is shorter. */
  function Prefix(s: CString, k: nat): (r: CString)
    ensures |r| <= k && |r| <= |s| && r == s[..|r|]
    ensures |r| == k || r == s
  {
    if |s| <= k then s else s[..k]
  }

  /**
   * The C string a reader sees in the buffer `buf`: the bytes up to the first
   * NUL, or the whole buffer when it holds none.
   */
  function ReadCString(buf: seq<byte>): (r: CString)
    ensures |r| <= |buf| && r == buf[..|r|]
    ensures |r| < |buf| ==> buf[|r|] == 0
  {
    if buf == [] || buf[0] == 0 then []
    else [buf[0]] + ReadCString(buf[1..])
  }

  /** A buffer that holds the bytes of `s` followed by a NUL reads back as `s`. */
  lemma {:induction false} ReadCStringOfTerminated(s: CString, buf: seq<byte>)
    requires |s| < |buf| && buf[..|s|] == s && buf[|s|] == 0
    ensures ReadCString(buf) == s
  {
    if s != [] {
      assert buf[1..][..|s| - 1] == s[1..];
      ReadCStringOfTerminated(s[1..], buf[1..]);
    }
  }
}
