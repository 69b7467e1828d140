/**
  Character classes of the regular expressions in content.js and index.js.

  JavaScript regular expressions without the `u` flag work on UTF-16 code units; every class
  below lies inside the Basic Multilingual Plane, so stating them on Dafny's `char` (a Unicode
  scalar value) changes nothing for them.
 */
module CharClasses {

  /** `[A-Za-z]` */
  predicate IsAsciiLetter(c: char) {
    'A' <= c <= 'Z' || 'a' <= c <= 'z'
  }

  /** `[0-9]` */
  predicate IsAsciiDigit(c: char) {
    '0' <= c <= '9'
  }

  /**
    `[A-Za-z0-9]`. The `i` flag adds nothing to this class: the case folding of
    non-Unicode JavaScript regular expressions never maps a non-ASCII character onto an
    ASCII one.
   */
  predicate IsAsciiAlnum(c: char) {
    IsAsciiLetter(c) || IsAsciiDigit(c)
  }

  /** `\w`, the characters a word boundary `\b` looks at: `[A-Za-z0-9_]`. */
  predicate IsWordChar(c: char) {
    IsAsciiAlnum(c) || c == '_'
  }

  /**
    `\s`, which is also the set `String.prototype.trim` strips: the ECMAScript WhiteSpace
    characters (TAB, VT, FF, SPACE, NO-BREAK SPACE, ZERO WIDTH NO-BREAK SPACE and the other
    space separators U+1680, U+2000 to U+200A, U+202F, U+205F, U+3000) and the
    LineTerminator characters (LF, CR, U+2028, U+2029).
   */
  predicate IsJsSpace(c: char) {
    c == '\t' || c == '\n' || c == '\U{000B}' || c == '\U{000C}' || c == '\r' || c == ' '
    || c == '\U{00A0}' || c == '\U{1680}' || ('\U{2000}' <= c <= '\U{200A}')
    || c == '\U{2028}' || c == '\U{2029}' || c == '\U{202F}' || c == '\U{205F}'
    || c == '\U{3000}' || c == '\U{FEFF}'
  }

  datatype CharClass = Alnum | Letter | Space

  predicate InClass(cls: CharClass, c: char) {
    match cls
    case Alnum => IsAsciiAlnum(c)
    case Letter => IsAsciiLetter(c)
    case Space => IsJsSpace(c)
  }

  /** The length of the longest prefix of `s` drawn from `cls`: what a greedy `cls*` consumes. */
  function Span(cls: CharClass, s: string): (n: nat)
    ensures n <= |s|
  {
    if s == [] || !InClass(cls, s[0]) then 0 else 1 + Span(cls, s[1..])
  }

  /** `Span` stops at the first character outside `cls`, and not before it. */
  lemma {:induction false} SpanIsMaximal(cls: CharClass, s: string)
    ensures forall i :: 0 <= i < Span(cls, s) ==> InClass(cls, s[i])
    ensures Span(cls, s) < |s| ==> !InClass(cls, s[Span(cls, s)])
  {
    if s != [] && InClass(cls, s[0]) {
      SpanIsMaximal(cls, s[1..]);
    }
  }

  /** No alphanumeric is JavaScript white space. */
  lemma AlnumIsNotSpace()
    ensures forall c :: IsAsciiAlnum(c) ==> !IsJsSpace(c)
  {
  }

  /** A string made only of characters of the class is one whole run. */
  lemma {:induction false} SpanAll(cls: CharClass, s: string)
    requires forall i :: 0 <= i < |s| ==> InClass(cls, s[i])
    ensures Span(cls, s) == |s|
  {
    if s != [] {
      assert forall i :: 0 <= i < |s[1..]| ==> s[1..][i] == s[i + 1];
      SpanAll(cls, s[1..]);
    }
  }

  /** Appending text that starts outside `cls` to a string does not lengthen its `cls` prefix. */
  lemma {:induction false} SpanStopsAt(cls: CharClass, s: string, tail: string)
    requires tail == [] || !InClass(cls, tail[0])
    ensures Span(cls, s + tail) == Span(cls, s)
  {
    if s == [] {
      assert s + tail == tail;
    } else {
      assert (s + tail)[1..] == s[1..] + tail;
      SpanStopsAt(cls, s[1..], tail);
    }
  }

  /** The literal prefix `CA:` under the `i` flag. */
  predicate HasCaPrefix(s: string) {
    |s| >= 3 && (s[0] == 'C' || s[0] == 'c') && (s[1] == 'A' || s[1] == 'a') && s[2] == ':'
  }
}
