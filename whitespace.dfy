/**
 A model of the whitespace-escaping primitive that the tree serializer applies to every
 node label (`Utils.EscapeWhitespace(s, false)`): each tab, line feed and carriage return
 is replaced by the two-character sequence backslash-t, backslash-n, backslash-r; every
 other character is kept. The mode that also escapes spaces is never used by the
 serializer and is not modelled.
 */
module Whitespace {

  /** True for the three characters the escaping replaces. */
  predicate IsEscapedWhitespace(c: char) {
    c == '\t' || c == '\n' || c == '\r'
  }

  /** The replacement text for one character. */
  function EscapeChar(c: char): (r: string)
    ensures IsEscapedWhitespace(c) ==> |r| == 2 && r[0] == '\\'
    ensures !IsEscapedWhitespace(c) ==> r == [c]
  {
    if c == '\t' then "\\t"
    else if c == '\n' then "\\n"
    else if c == '\r' then "\\r"
    else [c]
  }

  /** Escapes tab, line feed and carriage return; the result holds none of them. */
  function EscapeWhitespace(s: string): (r: string)
    ensures forall i :: 0 <= i < |r| ==> !IsEscapedWhitespace(r[i])
    ensures |s| <= |r| <= 2 * |s|
  {
    if s == [] then [] else EscapeChar(s[0]) + EscapeWhitespace(s[1..])
  }

  /** Number of occurrences of `c` in `s`. */
  function Occurrences(s: string, c: char): nat
  {
    if s == [] then 0 else (if s[0] == c then 1 else 0) + Occurrences(s[1..], c)
  }

  /** Occurrences adds up over concatenation. */
  lemma {:induction false} OccurrencesConcat(a: string, b: string, c: char)
    ensures Occurrences(a + b, c) == Occurrences(a, c) + Occurrences(b, c)
  {
    if a == [] {
      assert a + b == b;
    } else {
      assert (a + b)[1..] == a[1..] + b;
      OccurrencesConcat(a[1..], b, c);
    }
  }

  /** A character occurs zero times exactly when it is not in the string. */
  lemma {:induction false} OccurrencesZero(s: string, c: char)
    ensures Occurrences(s, c) == 0 <==> c !in s
  {
    if s != [] {
      OccurrencesZero(s[1..], c);
      assert s == [s[0]] + s[1..];
    }
  }

  /** Escaping distributes over concatenation: it works character by character. */
  lemma {:induction false} EscapeConcat(a: string, b: string)
    ensures EscapeWhitespace(a + b) == EscapeWhitespace(a) + EscapeWhitespace(b)
  {
    if a == [] {
      assert a + b == b;
    } else {
      assert (a + b)[1..] == a[1..] + b;
      EscapeConcat(a[1..], b);
    }
  }

  /** A string without tabs, line feeds and carriage returns is left unchanged. */
  lemma {:induction false} EscapeIdentity(s: string)
    requires forall i :: 0 <= i < |s| ==> !IsEscapedWhitespace(s[i])
    ensures EscapeWhitespace(s) == s
  {
    if s != [] {
      EscapeIdentity(s[1..]);
    }
  }

  /** Escaping is idempotent: its output contains nothing left to escape. */
  lemma EscapeIdempotent(s: string)
    ensures EscapeWhitespace(EscapeWhitespace(s)) == EscapeWhitespace(s)
  {
    EscapeIdentity(EscapeWhitespace(s));
  }

  /** Escaping keeps the count of every character that the escape sequences do not introduce;
      in particular the number of parentheses in a label is unchanged. */
  lemma {:induction false} EscapeKeepsOccurrences(s: string, c: char)
    requires !IsEscapedWhitespace(c) && c != '\\' && c != 't' && c != 'n' && c != 'r'
    ensures Occurrences(EscapeWhitespace(s), c) == Occurrences(s, c)
  {
    if s != [] {
      OccurrencesConcat(EscapeChar(s[0]), EscapeWhitespace(s[1..]), c);
      EscapeKeepsOccurrences(s[1..], c);
    }
  }

  /** With backslashes left alone, a real tab and the two characters backslash-t escape to the
      same text, so the escaping cannot be undone in general. */
  lemma EscapeNotInjective()
    ensures EscapeWhitespace("\t") == EscapeWhitespace("\\t")
    ensures "\t" != "\\t"
  {
  }
}
