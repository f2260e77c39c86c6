/** Bytes, C strings and the few kernel library routines (strchr, strncmp,
    memcmp, memcpy) that the rules engine relies on, stated over sequences. */
module ByteStrings {

  type byte = b: nat | b < 256

  datatype Option<T> = None | Some(value: T)

  const NUL: byte := 0
  const SLASH: byte := 47

  /** The bytes of a C string before its terminator: none of them is NUL. */
  predicate CString(s: seq<byte>) {
    forall i :: 0 <= i < |s| ==> s[i] != NUL
  }

  /** Byte i of the C string s, where the terminator (and only it is read)
      shows up as NUL. */
  function At(s: seq<byte>, i: nat): byte {
    if i < |s| then s[i] else NUL
  }

  predicate AllZero(s: seq<byte>) {
    forall i :: 0 <= i < |s| ==> s[i] == 0
  }

  function Zeros(n: nat): (r: seq<byte>)
    ensures |r| == n && AllZero(r)
  {
    seq(n, _ => 0)
  }

  function Min(a: nat, b: nat): nat { if a <= b then a else b }

  /** What memcpy(dst, src, |src|) leaves in a buffer holding dst: src over
      the front, the rest of dst as it was. */
  function Overlay(dst: seq<byte>, src: seq<byte>): (r: seq<byte>)
    requires |src| <= |dst|
    ensures |r| == |dst|
    ensures forall i :: 0 <= i < |src| ==> r[i] == src[i]
    ensures forall i :: |src| <= i < |dst| ==> r[i] == dst[i]
  {
    src + dst[|src|..]
  }

  /** Length of the leading segment of s: the index of the first '/', or |s|
      when there is none (strchr, falling back to strlen). */
  function SegLen(s: seq<byte>): (l: nat)
    ensures l <= |s|
    ensures l < |s| ==> s[l] == SLASH
  {
    if s == [] || s[0] == SLASH then 0 else 1 + SegLen(s[1..])
  }

  /** The segment before the first '/' holds no '/'. */
  lemma {:induction false} SegLenNoSlash(s: seq<byte>)
    ensures forall i :: 0 <= i < SegLen(s) ==> s[i] != SLASH
    decreases |s|
  {
    if s != [] && s[0] != SLASH {
      SegLenNoSlash(s[1..]);
      forall i | 0 < i < SegLen(s) ensures s[i] != SLASH {
        assert s[i] == s[1..][i - 1];
      }
    }
  }

  /** Kernel strncmp: compares at most n bytes of two C strings and stops at
      the first difference or at a common terminator. */
  function StrNCmp(a: seq<byte>, b: seq<byte>, n: nat): (r: int)
    ensures -1 <= r <= 1
    decreases n
  {
    if n == 0 then 0
    else if At(a, 0) != At(b, 0) then (if At(a, 0) < At(b, 0) then -1 else 1)
    else if At(a, 0) == NUL then 0
    else StrNCmp(a[1..], b[1..], n - 1)
  }

  /** strncmp(a, b, |b|) against a NUL-free b of that length is a prefix test. */
  lemma {:induction false} StrNCmpPrefix(a: seq<byte>, b: seq<byte>)
    requires CString(b)
    ensures StrNCmp(a, b, |b|) == 0 <==> |b| <= |a| && a[..|b|] == b
    decreases |b|
  {
    if |b| > 0 {
      assert b[0] != NUL;
      if |a| > 0 && a[0] == b[0] {
        StrNCmpPrefix(a[1..], b[1..]);
        assert |b| <= |a| && a[..|b|] == b <==> |b| - 1 <= |a| - 1 && a[1..][..|b| - 1] == b[1..];
      }
    }
  }

  /** strncmp(a, b, |a| + 1), which also compares a's terminator, is an
      equality test on C strings. */
  lemma {:induction false} StrNCmpWhole(a: seq<byte>, b: seq<byte>)
    requires CString(a) && CString(b)
    ensures StrNCmp(a, b, |a| + 1) == 0 <==> a == b
    decreases |a|
  {
    if |a| == 0 {
      assert StrNCmp(a, b, 1) == 0 <==> At(b, 0) == NUL;
    } else {
      assert a[0] != NUL;
      if |b| > 0 && a[0] == b[0] {
        StrNCmpWhole(a[1..], b[1..]);
        assert a == b <==> a[1..] == b[1..] by {
          if a[1..] == b[1..] { assert a == [a[0]] + a[1..] && b == [b[0]] + b[1..]; }
        }
      }
    }
  }

  /** Kernel memcmp: the difference of the first pair of differing bytes. */
  function MemCmp(a: seq<byte>, b: seq<byte>, n: nat): int
    requires n <= |a| && n <= |b|
    decreases n
  {
    if n == 0 then 0
    else if a[0] != b[0] then a[0] - b[0]
    else MemCmp(a[1..], b[1..], n - 1)
  }

  lemma {:induction false} MemCmpZero(a: seq<byte>, b: seq<byte>, n: nat)
    requires n <= |a| && n <= |b|
    ensures MemCmp(a, b, n) == 0 <==> a[..n] == b[..n]
    decreases n
  {
    if n > 0 {
      if a[0] == b[0] {
        MemCmpZero(a[1..], b[1..], n - 1);
        var a', b' := a[1..][..n - 1], b[1..][..n - 1];
        assert a[..n] == [a[0]] + a';
        assert b[..n] == [b[0]] + b';
        if a[..n] == b[..n] {
          assert a' == a[..n][1..] && b' == b[..n][1..];
        }
      } else {
        assert a[..n][0] != b[..n][0];
      }
    }
  }

  /** memcmp over the whole of two sequences of the same length is an
      equality test. */
  lemma {:induction false} MemCmpEqual(a: seq<byte>, b: seq<byte>)
    requires |a| == |b|
    ensures MemCmp(a, b, |a|) == 0 <==> a == b
  {
    MemCmpZero(a, b, |a|);
    assert a[..|a|] == a && b[..|b|] == b;
  }

  /** 256 to the power n: the range of an n-byte unsigned field. */
  function Pow256(n: nat): nat {
    if n == 0 then 1 else 256 * Pow256(n - 1)
  }

  /** An unsigned little-endian integer stored in the bytes s. */
  function ReadLE(s: seq<byte>): (n: nat)
    ensures n < Pow256(|s|)
  {
    if s == [] then 0 else s[0] + 256 * ReadLE(s[1..])
  }
}
