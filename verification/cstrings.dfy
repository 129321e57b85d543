/** The C view of a character buffer: the text a `char *` denotes is
    everything before the first NUL byte. */
module CStrings {

  const Nul: char := '\0'

  /** The text `strlen`, `printf("%s")` and `strstr` see in buffer `s`:
      the longest prefix of `s` that holds no NUL. */
  function CStr(s: string): (t: string)
    ensures t <= s
    ensures Nul !in t
    ensures |t| < |s| ==> s[|t|] == Nul
  {
    if |s| == 0 || s[0] == Nul then [] else [s[0]] + CStr(s[1..])
  }

  /** A buffer without NUL bytes denotes all of itself. */
  lemma CStrOfNulFree(s: string)
    requires Nul !in s
    ensures CStr(s) == s
  {
  }

  /** Storing NUL in the first byte (`buf[0] = 0`) makes the denoted text
      empty, whatever the rest of the buffer holds. */
  lemma CStrAfterTerminator(s: string)
    requires |s| > 0 && s[0] == Nul
    ensures CStr(s) == []
  {
  }
}
