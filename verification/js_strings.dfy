/** The JavaScript string operations the handlers use: case folding,
    prefix/suffix/infix tests, `trim`, `split` on one character and number
    formatting. Strings are sequences of characters. */
module JsStrings {

  type String = seq<char>

  // ---------------------------------------------------------------------------
  // Case folding
  // ---------------------------------------------------------------------------

  predicate IsAsciiUpper(c: char) {
    'A' <= c <= 'Z'
  }

  /** ASCII lower-casing. Every pattern the handlers match case-insensitively
      is pure ASCII, and a case-insensitive regular expression without the `u`
      flag never folds a non-ASCII character onto an ASCII one, so folding only
      `A`..`Z` decides the same matches. */
  function LowerChar(c: char): (r: char)
    ensures IsAsciiUpper(c) ==> r as int == c as int + 32
    ensures !IsAsciiUpper(c) ==> r == c
    ensures !IsAsciiUpper(r)
  {
    if IsAsciiUpper(c) then (c as int + 32) as char else c
  }

  function Lower(s: String): (r: String)
    ensures |r| == |s|
    ensures forall i :: 0 <= i < |s| ==> r[i] == LowerChar(s[i])
  {
    seq(|s|, i requires 0 <= i < |s| => LowerChar(s[i]))
  }

  // ---------------------------------------------------------------------------
  // Prefix, suffix and infix tests
  // ---------------------------------------------------------------------------

  /** `s.startsWith(p)` */
  predicate StartsWith(s: String, p: String) {
    |p| <= |s| && s[..|p|] == p
  }

  /** `s.endsWith(p)` */
  predicate EndsWith(s: String, p: String) {
    |p| <= |s| && s[|s| - |p|..] == p
  }

  /** `p` occurs in `s` starting at index `i`. */
  predicate OccursAt(s: String, p: String, i: int) {
    0 <= i && i + |p| <= |s| && s[i..i + |p|] == p
  }

  /** `s.includes(p)`, or a regular expression that is the literal `p`. */
  predicate Contains(s: String, p: String) {
    exists i | 0 <= i <= |s| - |p| :: OccursAt(s, p, i)
  }

  /** A pattern containing a character the string lacks occurs nowhere in
      it. */
  lemma AbsentChar(s: String, p: String, k: int, c: char)
    requires c in p && c !in s
    ensures !OccursAt(s, p, k)
  {
  }

  /** A string with no upper-case ASCII letter is its own lower case. */
  lemma LowerOfLowercase(s: String)
    requires forall i :: 0 <= i < |s| ==> !IsAsciiUpper(s[i])
    ensures Lower(s) == s
  {
  }

  /** Lower-casing cannot introduce a lower-case letter whose two cases
      are both absent. */
  lemma LowerAvoids(s: String, c: char)
    requires 'a' <= c <= 'z'
    requires c !in s && (c as int - 32) as char !in s
    ensures c !in Lower(s)
  {
    forall i | 0 <= i < |s| ensures Lower(s)[i] != c {
      assert s[i] != c && s[i] != (c as int - 32) as char;
    }
  }

  lemma AbsentCharNotContained(s: String, p: String, c: char)
    requires c in p && c !in s
    ensures !Contains(s, p)
  {
    forall i | 0 <= i <= |s| - |p| ensures !OccursAt(s, p, i) {
      AbsentChar(s, p, i, c);
    }
  }

  /** A lower-case letter of the pattern that the string lacks in both
      cases rules out a case-insensitive match. */
  lemma NotFoldedWithout(s: String, p: String, c: char)
    requires 'a' <= c <= 'z' && c in p
    requires c !in s && (c as int - 32) as char !in s
    ensures !ContainsFolded(s, p)
  {
    LowerAvoids(s, c);
    AbsentCharNotContained(Lower(s), p, c);
  }

  /** A case-insensitive literal search for a lower-case ASCII pattern. */
  predicate ContainsFolded(s: String, p: String) {
    Contains(Lower(s), p)
  }

  // ---------------------------------------------------------------------------
  // Whitespace and trim
  // ---------------------------------------------------------------------------

  /** The characters `String.prototype.trim` removes and `\s` matches:
      ECMAScript WhiteSpace and LineTerminator. */
  predicate IsSpace(c: char) {
    || c == '\t' || c == '\n' || c == '\U{000B}' || c == '\U{000C}' || c == '\r'
    || c == ' ' || c == '\U{00A0}' || c == '\U{1680}'
    || ('\U{2000}' <= c <= '\U{200A}')
    || c == '\U{2028}' || c == '\U{2029}' || c == '\U{202F}' || c == '\U{205F}'
    || c == '\U{3000}' || c == '\U{FEFF}'
  }

  ghost predicate AllSpaces(s: String) {
    forall i :: 0 <= i < |s| ==> IsSpace(s[i])
  }

  /** Number of whitespace characters at the start of `s`. */
  function LeadingSpaces(s: String): (n: nat)
    ensures n <= |s|
    ensures AllSpaces(s[..n])
    ensures n < |s| ==> !IsSpace(s[n])
  {
    if |s| == 0 || !IsSpace(s[0]) then 0
    else
      var n := 1 + LeadingSpaces(s[1..]);
      assert s[..n] == [s[0]] + s[1..][..n - 1];
      n
  }

  /** Number of whitespace characters at the end of `s`. */
  function TrailingSpaces(s: String): (n: nat)
    ensures n <= |s|
    ensures AllSpaces(s[|s| - n..])
    ensures n < |s| ==> !IsSpace(s[|s| - n - 1])
  {
    if |s| == 0 || !IsSpace(s[|s| - 1]) then 0
    else
      var n := 1 + TrailingSpaces(s[..|s| - 1]);
      assert s[|s| - n..] == s[..|s| - 1][|s| - n..] + [s[|s| - 1]];
      n
  }

  /** `s.trim()`: the infix of `s` left after removing leading and trailing
      whitespace; it neither starts nor ends with whitespace. */
  function Trim(s: String): (r: String)
    ensures |r| <= |s|
    ensures r == [] || (!IsSpace(r[0]) && !IsSpace(r[|r| - 1]))
    ensures exists i :: OccursAt(s, r, i) && AllSpaces(s[..i]) && AllSpaces(s[i + |r|..])
  {
    var a := LeadingSpaces(s);
    var t := s[a..];
    var b := TrailingSpaces(t);
    var r := t[..|t| - b];
    assert OccursAt(s, r, a);
    assert s[a + |r|..] == t[|t| - b..];
    assert |r| > 0 ==> r[0] == s[a] && r[|r| - 1] == t[|t| - b - 1];
    r
  }

  /** Trimming a string that has no whitespace at either end changes nothing. */
  lemma TrimNoSpaceEnds(s: String)
    requires s == [] || (!IsSpace(s[0]) && !IsSpace(s[|s| - 1]))
    ensures Trim(s) == s
  {
    assert LeadingSpaces(s) == 0;
    assert s[0..] == s;
    assert TrailingSpaces(s) == 0;
  }

  /** A string of whitespace only trims to the empty string. */
  lemma TrimAllSpaces(s: String)
    requires AllSpaces(s)
    ensures Trim(s) == []
  {
  }

  /** The part of `s` before its first whitespace character. */
  function TakeToken(s: String): (r: String)
    ensures StartsWith(s, r)
    ensures forall i :: 0 <= i < |r| ==> !IsSpace(r[i])
    ensures |r| == |s| || IsSpace(s[|r|])
  {
    if |s| == 0 || IsSpace(s[0]) then []
    else [s[0]] + TakeToken(s[1..])
  }

  /** Whitespace padding in front of a string is exactly what `LeadingSpaces`
      counts, when the string itself starts with a non-space. */
  lemma {:induction false} LeadingSpacesOfPadded(pad: String, t: String)
    requires AllSpaces(pad)
    requires t != [] && !IsSpace(t[0])
    ensures LeadingSpaces(pad + t) == |pad|
    decreases |pad|
  {
    if |pad| > 0 {
      LeadingSpacesOfPadded(pad[1..], t);
      assert (pad + t)[1..] == pad[1..] + t;
    } else {
      assert pad + t == t;
    }
  }

  /** Cutting whitespace off the end does not change the first token. */
  lemma {:induction false} TakeTokenBeforeSpaces(t: String, m: nat)
    requires m <= |t| && AllSpaces(t[m..])
    ensures TakeToken(t[..m]) == TakeToken(t)
    decreases |t|
  {
    if |t| > 0 {
      if m == 0 {
        assert t[0] == t[m..][0];
      } else if !IsSpace(t[0]) {
        TakeTokenBeforeSpaces(t[1..], m - 1);
        assert t[..m][1..] == t[1..][..m - 1];
        assert t[1..][m - 1..] == t[m..];
      }
    }
  }

  /** The first token of a trimmed string is the first token after the
      leading whitespace: `s.trim().split(/\s+/)[0]`. */
  lemma TakeTokenOfTrim(s: String)
    ensures TakeToken(Trim(s)) == TakeToken(s[LeadingSpaces(s)..])
  {
    var a := LeadingSpaces(s);
    var t := s[a..];
    var b := TrailingSpaces(t);
    assert Trim(s) == t[..|t| - b];
    TakeTokenBeforeSpaces(t, |t| - b);
  }

  /** A word without whitespace followed by nothing or by whitespace is the
      first token. */
  lemma {:induction false} TakeTokenOfWord(w: String, rest: String)
    requires forall i :: 0 <= i < |w| ==> !IsSpace(w[i])
    requires rest == [] || IsSpace(rest[0])
    ensures TakeToken(w + rest) == w
    decreases |w|
  {
    if |w| > 0 {
      TakeTokenOfWord(w[1..], rest);
      assert (w + rest)[1..] == w[1..] + rest;
      assert [w[0]] + w[1..] == w;
    } else {
      assert w + rest == rest;
    }
  }

  // ---------------------------------------------------------------------------
  // split and join on one character
  // ---------------------------------------------------------------------------

  /** `s.split(sep)` for a one-character separator: one piece more than there
      are separators, none of them containing `sep`. */
  function Split(s: String, sep: char): (parts: seq<String>)
    ensures |parts| >= 1
    ensures forall k :: 0 <= k < |parts| ==> sep !in parts[k]
    decreases |s|
  {
    if |s| == 0 then [[]]
    else
      var rest := Split(s[1..], sep);
      if s[0] == sep then [[]] + rest
      else [[s[0]] + rest[0]] + rest[1..]
  }

  /** `parts.join(sep)` */
  function Join(parts: seq<String>, sep: char): String
    decreases |parts|
  {
    if |parts| == 0 then []
    else if |parts| == 1 then parts[0]
    else parts[0] + [sep] + Join(parts[1..], sep)
  }

  /** Splitting and joining back on the same character gives the input. */
  lemma {:induction false} JoinSplit(s: String, sep: char)
    ensures Join(Split(s, sep), sep) == s
    decreases |s|
  {
    if |s| > 0 {
      var rest := Split(s[1..], sep);
      JoinSplit(s[1..], sep);
      if s[0] == sep {
        assert Split(s, sep) == [[]] + rest;
      } else {
        var parts := Split(s, sep);
        assert parts == [[s[0]] + rest[0]] + rest[1..];
        if |rest| == 1 {
          assert Join(parts, sep) == [s[0]] + rest[0];
        } else {
          assert parts[1..] == rest[1..];
          assert Join(rest, sep) == rest[0] + [sep] + Join(rest[1..], sep);
        }
      }
    }
  }

  /** Splitting a piece without separators followed by a separator. */
  lemma {:induction false} SplitPiece(p: String, sep: char, t: String)
    requires sep !in p
    ensures Split(p + [sep] + t, sep) == [p] + Split(t, sep)
    decreases |p|
  {
    if |p| > 0 {
      SplitPiece(p[1..], sep, t);
      var w := p + [sep] + t;
      assert w[0] == p[0] && w[0] != sep;
      assert w[1..] == p[1..] + [sep] + t;
      var rest := Split(w[1..], sep);
      assert rest == [p[1..]] + Split(t, sep);
      assert Split(w, sep) == [[p[0]] + rest[0]] + rest[1..];
      assert [p[0]] + p[1..] == p;
    } else {
      assert p + [sep] + t == [sep] + t;
      assert ([sep] + t)[1..] == t;
    }
  }

  /** A string without separators splits into itself alone. */
  lemma {:induction false} SplitNone(p: String, sep: char)
    requires sep !in p
    ensures Split(p, sep) == [p]
    decreases |p|
  {
    if |p| > 0 {
      SplitNone(p[1..], sep);
      assert [p[0]] + p[1..] == p;
    }
  }

  /** Joining pieces free of the separator and splitting again gives the
      pieces back. */
  lemma {:induction false} SplitJoin(parts: seq<String>, sep: char)
    requires |parts| >= 1
    requires forall k :: 0 <= k < |parts| ==> sep !in parts[k]
    ensures Split(Join(parts, sep), sep) == parts
    decreases |parts|
  {
    if |parts| == 1 {
      SplitNone(parts[0], sep);
    } else {
      SplitJoin(parts[1..], sep);
      SplitPiece(parts[0], sep, Join(parts[1..], sep));
      assert [parts[0]] + parts[1..] == parts;
    }
  }

  // ---------------------------------------------------------------------------
  // Decimal formatting of integers (`String(n)` for an integral number)
  // ---------------------------------------------------------------------------

  function DigitChar(d: nat): (c: char)
    requires d < 10
    ensures '0' <= c <= '9'
  {
    ('0' as int + d) as char
  }

  function NatToDecimal(n: nat): (r: String)
    ensures |r| >= 1
    ensures forall i :: 0 <= i < |r| ==> '0' <= r[i] <= '9'
  {
    if n < 10 then [DigitChar(n)]
    else NatToDecimal(n / 10) + [DigitChar(n % 10)]
  }

  /** `String(n)` for an integer `n`. */
  function IntToDecimal(n: int): String {
    if n < 0 then "-" + NatToDecimal(-n) else NatToDecimal(n)
  }

  /** The value of a string of decimal digits. */
  function DecimalValue(s: String): nat
    requires forall i :: 0 <= i < |s| ==> '0' <= s[i] <= '9'
  {
    if |s| == 0 then 0
    else 10 * DecimalValue(s[..|s| - 1]) + (s[|s| - 1] as int - '0' as int)
  }

  /** Decimal formatting loses nothing: reading the digits back gives `n`. */
  lemma {:induction false} DecimalRoundTrip(n: nat)
    ensures DecimalValue(NatToDecimal(n)) == n
  {
    if n >= 10 {
      DecimalRoundTrip(n / 10);
      var r := NatToDecimal(n);
      assert r[..|r| - 1] == NatToDecimal(n / 10);
    }
  }
}
