/**
 * Character classes and string helpers. The regular expressions of the dictionary
 * handler are modelled over ASCII: `\d` is '0'..'9', `\s` is the ASCII whitespace
 * set of the regex crate (tab, line feed, vertical tab, form feed, carriage return,
 * space) and `[[:punct:]]` is the ASCII punctuation set.
 */
module Text {

  predicate IsDigit(c: char) {
    '0' <= c <= '9'
  }

  predicate IsSpace(c: char) {
    c == ' ' || '\t' <= c <= '\r'
  }

  predicate IsPunct(c: char) {
    ('!' <= c <= '/') || (':' <= c <= '@') || ('[' <= c <= '`') || ('{' <= c <= '~')
  }

  /** `\d` finds a match somewhere in `s`. */
  predicate HasDigit(s: string) {
    exists i :: 0 <= i < |s| && IsDigit(s[i])
  }

  /** `[[:punct:]]|\s` finds a match somewhere in `s`. */
  predicate HasPunctOrSpace(s: string) {
    exists i :: 0 <= i < |s| && (IsPunct(s[i]) || IsSpace(s[i]))
  }

  /** `s.contains(part)`: `part` occurs as a contiguous piece of `s`. */
  predicate Contains(s: string, part: string) {
    exists i :: 0 <= i <= |s| && OccursAt(s, part, i)
  }

  predicate OccursAt(s: string, part: string, i: nat) {
    i + |part| <= |s| && s[i..i + |part|] == part
  }

  /** Number of bytes of the UTF-8 encoding of one scalar value. */
  function Utf8Width(c: char): (n: nat)
    ensures 1 <= n <= 4
    ensures n == 1 <==> c as int < 0x80
  {
    if c as int < 0x80 then 1
    else if c as int < 0x800 then 2
    else if c as int < 0x1_0000 then 3
    else 4
  }

  /** `String::len()`: the length of the UTF-8 encoding of `s`, in bytes. */
  function Utf8Len(s: string): (n: nat)
    ensures |s| <= n <= 4 * |s|
  {
    if |s| == 0 then 0 else Utf8Width(s[0]) + Utf8Len(s[1..])
  }

  /** On ASCII text the byte length is the number of characters. */
  lemma {:induction false} Utf8LenAscii(s: string)
    requires forall i :: 0 <= i < |s| ==> s[i] as int < 0x80
    ensures Utf8Len(s) == |s|
  {
    if |s| > 0 {
      Utf8LenAscii(s[1..]);
    }
  }

  /** Byte length is additive over concatenation. */
  lemma {:induction false} Utf8LenAppend(a: string, b: string)
    ensures Utf8Len(a + b) == Utf8Len(a) + Utf8Len(b)
  {
    if |a| > 0 {
      assert (a + b)[0] == a[0];
      assert (a + b)[1..] == a[1..] + b;
      Utf8LenAppend(a[1..], b);
    } else {
      assert a + b == b;
    }
  }

  /** `s.replace("'", "''")`: every single quote is doubled. */
  function EscapeQuotes(s: string): (r: string)
    ensures |r| >= |s|
  {
    if |s| == 0 then ""
    else (if s[0] == '\'' then "''" else [s[0]]) + EscapeQuotes(s[1..])
  }

  /** Reads a doubled quote back as one quote; the inverse of `EscapeQuotes`. */
  function UnescapeQuotes(t: string): (r: string)
    ensures |r| <= |t|
  {
    if |t| == 0 then ""
    else if |t| >= 2 && t[0] == '\'' && t[1] == '\'' then "'" + UnescapeQuotes(t[2..])
    else [t[0]] + UnescapeQuotes(t[1..])
  }

  /** Escaping loses nothing: the SQL reader recovers the original text. */
  lemma {:induction false} UnescapeEscape(s: string)
    ensures UnescapeQuotes(EscapeQuotes(s)) == s
  {
    if |s| > 0 {
      var t := EscapeQuotes(s);
      UnescapeEscape(s[1..]);
      if s[0] == '\'' {
        assert t[2..] == EscapeQuotes(s[1..]);
      } else {
        assert t[1..] == EscapeQuotes(s[1..]);
      }
      assert s == [s[0]] + s[1..];
    }
  }

  /** A quote-free string is its own escape. */
  lemma {:induction false} EscapeQuotesNoQuote(s: string)
    requires forall i :: 0 <= i < |s| ==> s[i] != '\''
    ensures EscapeQuotes(s) == s
  {
    if |s| > 0 {
      EscapeQuotesNoQuote(s[1..]);
      assert s == [s[0]] + s[1..];
    }
  }
}
