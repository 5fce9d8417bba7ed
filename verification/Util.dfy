/**
  Bounded C strings. A buffer is an array of characters holding a string up to its first
  NUL; both copying routines cut what does not fit and report the length that was wanted.
*/
module Util {
  const NUL := '\0'

  predicate NulFree(s: string) { NUL !in s }

  /** The buffer holds `s`. */
  ghost predicate Holds(a: array<char>, s: string)
    reads a
  {
    |s| < a.Length && a[..|s|] == s && a[|s|] == NUL && NulFree(s)
  }

  /** As much of `s` as a buffer of `size` characters can hold. */
  function Fit(s: string, size: nat): (r: string)
    ensures r <= s && (size > 0 ==> |r| < size) && (|s| < size ==> r == s) && (|s| >= size > 0 ==> |r| == size - 1)
  {
    if |s| < size then s else if size == 0 then "" else s[..size - 1]
  }

  /** Cutting early and appending loses nothing that cutting at the end would keep. */
  lemma FitAppend(s: string, t: string, size: nat)
    requires size > 0
    ensures Fit(Fit(s, size) + t, size) == Fit(s + t, size)
  {
    if |s| >= size {
      assert (s[..size - 1] + t)[..size - 1] == s[..size - 1] == (s + t)[..size - 1];
      assert |t| == 0 ==> s[..size - 1] + t == s[..size - 1];
    }
  }

  method StrLen(a: array<char>, ghost s: string) returns (n: nat)
    requires Holds(a, s)
    ensures n == |s|
  {
    n := 0;
    while a[n] != NUL
      invariant n <= |s| && s == a[..|s|]
      decreases |s| - n
    {
      n := n + 1;
    }
  }

  /** Place `src` at `d` and end the string there. */
  method Place(dst: array<char>, d: nat, src: string)
    requires d + |src| < dst.Length && NulFree(dst[..d]) && NulFree(src)
    modifies dst
    ensures Holds(dst, old(dst[..d]) + src)
  {
    forall k | 0 <= k < |src| {
      dst[d + k] := src[k];
    }
    dst[d + |src|] := NUL;
    assert dst[..d + |src|] == old(dst[..d]) + src;
  }

  method StrLcpy(dst: array<char>, src: string) returns (n: nat)
    requires NulFree(src)
    modifies dst
    ensures n == |src|
    ensures dst.Length > 0 ==> Holds(dst, Fit(src, dst.Length))
  {
    n := |src|;
    if dst.Length > 0 {
      var m := if n > dst.Length - 1 then dst.Length - 1 else n;
      assert dst[..0] == [];
      Place(dst, 0, src[..m]);
      assert [] + src[..m] == src[..m] == Fit(src, dst.Length);
    }
  }

  /** Append to the string in the buffer, cutting what does not fit. */
  method StrLcat(dst: array<char>, src: string, ghost s: string) returns (n: nat)
    requires Holds(dst, s) && NulFree(src)
    modifies dst
    ensures n == |s| + |src|
    ensures Holds(dst, Fit(s + src, dst.Length))
  {
    var d := StrLen(dst, s);
    if d < dst.Length - 1 {
      var m := if |src| > dst.Length - 1 - d then dst.Length - 1 - d else |src|;
      Place(dst, d, src[..m]);
      assert s + src[..m] == Fit(s + src, dst.Length);
    } else {
      assert Fit(s + src, dst.Length) == s;
    }
    return d + |src|;
  }
}
