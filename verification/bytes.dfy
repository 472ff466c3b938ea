/** Bytes as the engine sees them, and the C-locale character classes it uses. */
module Bytes {

  /** One C `char` / Rust `u8`; a `char` below 256 so that literals read naturally. */
  type Byte = c: char | (c as int) < 256 witness '\0'

  const NUL: Byte := '\0'

  /** The fill byte of a freshly initialised history ring. */
  const FILL: Byte := 255 as char

  const ESC: Byte := 27 as char
  const ETX: Byte := 3 as char     // ^C
  const BS: Byte := 8 as char
  const DEL: Byte := 127 as char

  /** `isprint` in the C locale. */
  predicate IsPrint(c: Byte) {
    ' ' <= c <= '~'
  }

  /** `isspace` in the C locale. */
  predicate IsSpace(c: Byte) {
    c == ' ' || ('\t' <= c <= '\r')
  }

  /** `isalpha` in the C locale. */
  predicate IsAlpha(c: Byte) {
    ('a' <= c <= 'z') || ('A' <= c <= 'Z')
  }

  predicate IsDigit(c: Byte) {
    '0' <= c <= '9'
  }

  /** Valid non-extended ASCII. */
  predicate IsAscii(c: Byte) {
    (c as int) <= 0x7f
  }

  predicate AllPrint(s: seq<Byte>) {
    forall j :: 0 <= j < |s| ==> IsPrint(s[j])
  }

  /** The C string stored at the start of `s`: every byte before the first NUL. */
  function UntilNul(s: seq<Byte>): (r: seq<Byte>)
    ensures r <= s
    ensures NUL !in r
    ensures |r| < |s| ==> s[|r|] == NUL
    ensures forall k :: 0 <= k < |s| && s[k] == NUL ==> |r| <= k
  {
    if s == [] then []
    else if s[0] == NUL then []
    else [s[0]] + UntilNul(s[1..])
  }

  /** A NUL-free prefix followed by a NUL reads back as exactly that prefix. */
  lemma UntilNulOf(w: seq<Byte>, t: seq<Byte>)
    requires NUL !in w
    requires t != [] && t[0] == NUL
    ensures UntilNul(w + t) == w
  {
    assert (w + t)[..|w|] == w;
  }

  /** Storing a NUL right after a NUL-free line makes the buffer read back as that line. */
  lemma TerminateAt(s: seq<Byte>, n: nat)
    requires n < |s|
    ensures NUL !in s[..n] ==> UntilNul(s[n := NUL]) == s[..n]
  {
    if NUL !in s[..n] {
      var t := s[n := NUL];
      UntilNulOf(s[..n], t[n..]);
      assert t == s[..n] + t[n..];
    }
  }

  /** A C string is read the same from a buffer whose prefix `w` is followed by a NUL. */
  lemma UntilNulPrefix(w: seq<Byte>, s: seq<Byte>)
    requires |w| < |s| && s[..|w|] == w && s[|w|] == NUL
    ensures UntilNul(s) == UntilNul(w)
  {
  }
}
