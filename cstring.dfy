/** The few C string routines the driver relies on, stated on `string`:
    a C string is the run of characters before the first NUL. */
module CString {

  /** The character C reads at index `k` of a zero-filled array that holds `s`
      at its start: past the end of `s` it reads NUL. */
  function At(s: string, k: nat): char {
    if k < |s| then s[k] else '\0'
  }

  predicate NulFree(s: string) {
    forall k :: 0 <= k < |s| ==> s[k] != '\0'
  }

  /** `strlen`: the index of the first NUL, or the whole length when there is none. */
  function CLen(s: string): (n: nat)
    ensures n <= |s|
  {
    if s == [] || s[0] == '\0' then 0 else 1 + CLen(s[1..])
  }

  /** `strlen` stops at the first NUL: none before it, one at it unless the string ended. */
  lemma {:induction false} CLenIsFirstNul(s: string)
    ensures forall k :: 0 <= k < CLen(s) ==> s[k] != '\0'
    ensures CLen(s) < |s| ==> s[CLen(s)] == '\0'
  {
    if s != [] && s[0] != '\0' {
      CLenIsFirstNul(s[1..]);
      assert forall k :: 1 <= k < CLen(s) ==> s[k] == s[1..][k - 1];
    }
  }

  /** The C string stored at the start of `s`. */
  function CStr(s: string): (r: string)
    ensures |r| <= |s|
  {
    s[..CLen(s)]
  }

  lemma CStrIsNulFree(s: string)
    ensures NulFree(CStr(s))
  {
    CLenIsFirstNul(s);
  }

  /** A string whose first `n` characters are not NUL and that has a NUL at
      index `n` (or ends there) holds exactly those `n` characters as its C string. */
  lemma CStrAt(s: string, n: nat)
    requires n <= |s| && NulFree(s[..n])
    requires n < |s| ==> s[n] == '\0'
    ensures CStr(s) == s[..n]
  {
    CLenIsFirstNul(s);
  }

  /** `strncmp(a, b, n) == 0`: the first `n` characters compared one by one
      all agree, where a string that ended reads as NUL. */
  predicate StrncmpEqual(a: string, b: string, n: nat)
    decreases n
  {
    n == 0 || (StrncmpEqual(a, b, n - 1) && At(a, n - 1) == At(b, n - 1))
  }

  /** The comparison succeeds exactly when every one of the first `n` characters agrees. */
  lemma {:induction false} StrncmpEqualAt(a: string, b: string, n: nat)
    ensures StrncmpEqual(a, b, n) <==> forall k :: 0 <= k < n ==> At(a, k) == At(b, k)
  {
    if n > 0 {
      StrncmpEqualAt(a, b, n - 1);
    }
  }

  /** Comparing with `sizeof` of a literal (its length plus the NUL) is exact
      equality, in both directions. */
  lemma StrncmpSizeofIsEquality(c: string, t: string)
    requires NulFree(c) && NulFree(t)
    ensures StrncmpEqual(c, t, |c| + 1) <==> t == c
  {
    StrncmpEqualAt(c, t, |c| + 1);
    if StrncmpEqual(c, t, |c| + 1) {
      forall k | 0 <= k < |c|
        ensures k < |t| && t[k] == c[k]
      {
        assert At(c, k) == At(t, k);
      }
      assert At(c, |c|) == At(t, |c|);
      assert |c| <= |t| by {
        if 0 < |c| {
          var last := |c| - 1;
          assert c[last] != '\0';
          assert last < |t|;
        }
      }
      assert t == c;
    }
  }

  /** `n` NUL characters. */
  function Nuls(n: nat): (r: string)
    ensures |r| == n
  {
    if n == 0 then [] else Nuls(n - 1) + ['\0']
  }

  lemma {:induction false} NulsAreNul(n: nat)
    ensures forall k :: 0 <= k < n ==> Nuls(n)[k] == '\0'
  {
    if n > 0 {
      NulsAreNul(n - 1);
    }
  }

  /** `strncpy(dst, src, n)`: the `n` bytes written, the C string of `src`
      followed by NUL padding (cut at `n` when it is longer). */
  function StrncpyBytes(src: string, n: nat): (r: string)
    ensures |r| == n
  {
    var len := CLen(src);
    if len <= n then src[..len] + Nuls(n - len) else src[..n]
  }

  /** Byte `k` that `strncpy` writes is the one C reads at index `k` of the source string. */
  lemma StrncpyAt(src: string, n: nat)
    ensures forall k :: 0 <= k < n ==> StrncpyBytes(src, n)[k] == At(CStr(src), k)
  {
    CLenIsFirstNul(src);
    if CLen(src) <= n {
      NulsAreNul(n - CLen(src));
    }
  }
}
