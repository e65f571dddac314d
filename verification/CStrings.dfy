/** Strings that end at their first NUL. */
module CStrings {

  /** The elements before the first NUL. */
  function CString<T(==)>(s: seq<T>, nul: T): seq<T> {
    if s == [] || s[0] == nul then [] else [s[0]] + CString(s[1..], nul)
  }

  lemma {:induction false} CStringIsPrefix<T>(s: seq<T>, nul: T, n: nat)
    requires n < |s| && s[n] == nul && nul !in s[..n]
    ensures CString(s, nul) == s[..n]
  {
    if n > 0 {
      assert s[0] == s[..n][0] && s[1..][..n - 1] == s[..n][1..];
      CStringIsPrefix(s[1..], nul, n - 1);
      assert s[..n] == [s[0]] + s[1..][..n - 1];
    }
  }
}
