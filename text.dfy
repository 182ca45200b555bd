/**
 The string primitives the roster parser is built from: JavaScript's
 `String.prototype.trim`, `String.prototype.split` with a one-character
 separator, the `.map(trim).filter(Boolean)` idiom, and the decimal rendering
 of a line number in a template literal.
 */
module Text {

  /** A code point JavaScript counts as WhiteSpace or LineTerminator: what
      `trim` strips and what `\s` matches in a regular expression. */
  predicate IsWhitespace(c: char)
    ensures IsWhitespace(c) ==> !('0' <= c <= '9' || 'A' <= c <= 'Z' || 'a' <= c <= 'z' || c == ':' || c == ',')
  {
    || c == '\t' || c == '\n' || c == '\U{000B}' || c == '\U{000C}' || c == '\r'
    || c == ' ' || c == '\U{00A0}' || c == '\U{1680}'
    || ('\U{2000}' <= c <= '\U{200A}')
    || c == '\U{2028}' || c == '\U{2029}' || c == '\U{202F}' || c == '\U{205F}'
    || c == '\U{3000}' || c == '\U{FEFF}'
  }

  /** What `\d` matches. */
  predicate IsDigit(c: char)
  {
    '0' <= c <= '9'
  }

  predicate IsBlank(s: string)
  {
    forall i :: 0 <= i < |s| ==> IsWhitespace(s[i])
  }

  predicate IsDigits(s: string)
  {
    forall i :: 0 <= i < |s| ==> IsDigit(s[i])
  }

  /** Neither end of s is whitespace. */
  predicate IsTrimmed(s: string)
  {
    s == [] || (!IsWhitespace(s[0]) && !IsWhitespace(s[|s| - 1]))
  }

  /** The character classes the scanners skip over: whitespace (`\s`),
      digits (`\d`), and anything but one separator. */
  datatype CharClass = Whitespace | Digit | AnyBut(sep: char)

  predicate InClass(c: char, cls: CharClass)
  {
    match cls
    case Whitespace => IsWhitespace(c)
    case Digit => IsDigit(c)
    case AnyBut(sep) => c != sep
  }

  /** The length of the longest prefix of s whose characters are all in cls. */
  function Span(s: string, cls: CharClass): (n: nat)
    ensures n <= |s|
    ensures forall i :: 0 <= i < n ==> InClass(s[i], cls)
    ensures n < |s| ==> !InClass(s[n], cls)
  {
    if |s| > 0 && InClass(s[0], cls) then 1 + Span(s[1..], cls) else 0
  }

  /** The length of the longest suffix of s whose characters are all in cls. */
  function SpanFromEnd(s: string, cls: CharClass): (n: nat)
    ensures n <= |s|
    ensures forall i :: |s| - n <= i < |s| ==> InClass(s[i], cls)
    ensures n < |s| ==> !InClass(s[|s| - n - 1], cls)
  {
    if |s| > 0 && InClass(s[|s| - 1], cls) then 1 + SpanFromEnd(s[..|s| - 1], cls) else 0
  }

  /** A prefix whose characters are in cls and that is followed by a character
      that is not (or by nothing) is the longest such prefix. */
  lemma {:induction false} SpanIs(s: string, cls: CharClass, n: nat)
    requires n <= |s|
    requires forall i :: 0 <= i < n ==> InClass(s[i], cls)
    requires n < |s| ==> !InClass(s[n], cls)
    ensures Span(s, cls) == n
    decreases n
  {
    if n > 0 {
      SpanIs(s[1..], cls, n - 1);
    }
  }

  /** `s.trim()`: neither end of the result is whitespace. TrimCutsWhitespace
      says which part of s it is. */
  function Trim(s: string): (r: string)
    ensures IsTrimmed(r)
  {
    var lead := Span(s, Whitespace);
    var rest := s[lead..];
    rest[..|rest| - SpanFromEnd(rest, Whitespace)]
  }

  /** Trim keeps the part of s from its first to its last character that is
      not whitespace: all it cuts off, on either side, is whitespace. */
  lemma TrimCutsWhitespace(s: string)
    ensures var lead := Span(s, Whitespace);
      && lead + |Trim(s)| <= |s|
      && Trim(s) == s[lead..lead + |Trim(s)|]
      && IsBlank(s[..lead]) && IsBlank(s[lead + |Trim(s)|..])
  {
    var lead := Span(s, Whitespace);
    var rest := s[lead..];
    var trail := SpanFromEnd(rest, Whitespace);
    TrimSlice(s, lead, trail);
    BlankInClass(s[..lead]);
    TrailIsBlank(s, lead, trail);
  }

  /** Trim(s) is s without its lead leading and trail trailing characters. */
  lemma TrimSlice(s: string, lead: nat, trail: nat)
    requires lead == Span(s, Whitespace)
    requires trail == SpanFromEnd(s[lead..], Whitespace)
    ensures lead + trail <= |s| && Trim(s) == s[lead..|s| - trail]
  {
  }

  /** The trail cut from the end is whitespace. */
  lemma TrailIsBlank(s: string, lead: nat, trail: nat)
    requires lead == Span(s, Whitespace)
    requires trail == SpanFromEnd(s[lead..], Whitespace)
    ensures IsBlank(s[|s| - trail..])
  {
    var rest := s[lead..];
    assert s[|s| - trail..] == rest[|rest| - trail..];
    BlankInClass(rest[|rest| - trail..]);
  }

  /** A string of characters in the whitespace class is blank. */
  lemma BlankInClass(s: string)
    requires forall i :: 0 <= i < |s| ==> InClass(s[i], Whitespace)
    ensures IsBlank(s)
  {
  }

  /** Trimming a trimmed string changes nothing. */
  lemma TrimmedIsFixed(s: string)
    requires IsTrimmed(s)
    ensures Trim(s) == s
  {
    SpanIs(s, Whitespace, 0);
  }

  /** Trimming is idempotent. */
  lemma TrimIdempotent(s: string)
    ensures Trim(Trim(s)) == Trim(s)
  {
    TrimmedIsFixed(Trim(s));
  }

  /** The inverse of Split: the pieces glued back together with sep between them. */
  function Join(parts: seq<string>, sep: char): string
  {
    if |parts| == 0 then ""
    else if |parts| == 1 then parts[0]
    else parts[0] + [sep] + Join(parts[1..], sep)
  }

  /** `s.split(sep)` for a one-character separator: never empty, and no piece
      holds a separator. SplitJoin shows that joining the pieces gives s back,
      SplitWithoutSeparator that s is one piece when it has no separator. */
  function Split(s: string, sep: char): (parts: seq<string>)
    ensures |parts| >= 1
    ensures forall k :: 0 <= k < |parts| ==> sep !in parts[k]
    decreases |s|
  {
    var i := Span(s, AnyBut(sep));
    if i == |s| then
      [s]
    else
      [s[..i]] + Split(s[i + 1..], sep)
  }

  /** Joining the pieces of a split with the separator gives the string back. */
  lemma {:induction false} SplitJoin(s: string, sep: char)
    ensures Join(Split(s, sep), sep) == s
    decreases |s|
  {
    var i := Span(s, AnyBut(sep));
    if i < |s| {
      var rest := Split(s[i + 1..], sep);
      var parts := Split(s, sep);
      SplitJoin(s[i + 1..], sep);
      assert parts == [s[..i]] + rest;
      assert parts[1..] == rest;
      assert Join(parts, sep) == s[..i] + [sep] + Join(rest, sep);
      assert s == s[..i] + [sep] + s[i + 1..];
    }
  }

  /** A string without the separator is a single piece. */
  lemma SplitWithoutSeparator(s: string, sep: char)
    requires sep !in s
    ensures Split(s, sep) == [s]
  {
    SpanIs(s, AnyBut(sep), |s|);
  }

  /** Splitting at the first separator: what precedes it is the first piece and
      the rest is split on its own. */
  lemma SplitAtFirst(a: string, b: string, sep: char)
    requires sep !in a
    ensures Split(a + [sep] + b, sep) == [a] + Split(b, sep)
  {
    var s := a + [sep] + b;
    SpanIs(s, AnyBut(sep), |a|);
    assert s[..|a|] == a && s[|a| + 1..] == b;
  }

  /** `pieces.map((x) => x.trim()).filter(Boolean)`: the trimmed pieces that are
      not empty, in their original order (NonEmptyTrimmedMembers says which). */
  function NonEmptyTrimmed(pieces: seq<string>): (r: seq<string>)
    ensures |r| <= |pieces|
    ensures forall k :: 0 <= k < |r| ==> r[k] != "" && IsTrimmed(r[k])
  {
    if |pieces| == 0 then []
    else
      var t := Trim(pieces[0]);
      var rest := NonEmptyTrimmed(pieces[1..]);
      if t == "" then rest else [t] + rest
  }

  /** NonEmptyTrimmed keeps exactly the pieces that do not trim to nothing,
      trimmed. */
  lemma {:induction false} NonEmptyTrimmedMembers(pieces: seq<string>, x: string)
    ensures x in NonEmptyTrimmed(pieces) <==> x != "" && exists p :: p in pieces && Trim(p) == x
    decreases |pieces|
  {
    if |pieces| > 0 {
      NonEmptyTrimmedMembers(pieces[1..], x);
      assert forall p :: p in pieces <==> p == pieces[0] || p in pieces[1..];
    }
  }

  /** One piece: kept, trimmed, unless it trims to nothing. */
  lemma NonEmptyTrimmedSingle(p: string)
    ensures NonEmptyTrimmed([p]) == if Trim(p) == "" then [] else [Trim(p)]
  {
    assert [p][1..] == [];
  }

  /** Pieces are handled one by one, in order: the result for a + b is the
      result for a followed by the result for b. */
  lemma {:induction false} NonEmptyTrimmedAppend(a: seq<string>, b: seq<string>)
    ensures NonEmptyTrimmed(a + b) == NonEmptyTrimmed(a) + NonEmptyTrimmed(b)
    decreases |a|
  {
    if |a| > 0 {
      assert (a + b)[0] == a[0];
      assert (a + b)[1..] == a[1..] + b;
      NonEmptyTrimmedAppend(a[1..], b);
    } else {
      assert a + b == b;
    }
  }

  function DigitChar(d: nat): (c: char)
    requires d < 10
    ensures IsDigit(c)
  {
    ('0' as int + d) as char
  }

  function DigitValue(c: char): (d: nat)
    requires IsDigit(c)
    ensures d < 10 && DigitChar(d) == c
  {
    c as int - '0' as int
  }

  /** The number a string of decimal digits denotes. */
  function DecimalValue(s: string): nat
    requires IsDigits(s)
  {
    if |s| == 0 then 0 else 10 * DecimalValue(s[..|s| - 1]) + DigitValue(s[|s| - 1])
  }

  /** `${n}` for a natural number n: its shortest decimal spelling, which
      DecimalValue reads back as n. */
  function DecimalString(n: nat): (s: string)
    ensures |s| > 0 && IsDigits(s)
    ensures s[0] == '0' ==> s == "0"
    ensures DecimalValue(s) == n
  {
    if n < 10 then [DigitChar(n)]
    else
      var high := DecimalString(n / 10);
      var s := high + [DigitChar(n % 10)];
      assert s[..|s| - 1] == high;
      s
  }

}
