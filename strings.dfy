/**
 * The JavaScript string operations the editor code relies on (`trim`,
 * `indexOf`, `includes`, `split`, `toLowerCase`, regular-expression `\s`
 * and `.`), written out over `seq<char>`.  One `char` is one Unicode scalar
 * value, so lengths, `indexOf` and `trim` positions and the columns the hook
 * computes agree with JavaScript's UTF-16 indexing only on text made of Basic
 * Multilingual Plane characters.
 */
module Strings {

  /** The characters JavaScript's `\s` matches and `String.prototype.trim`
      removes: white space (including NBSP, BOM and the Unicode space
      separators) and the four line terminators. */
  predicate IsSpace(c: char) {
    || c == '\t' || c == '\n' || c == '\U{000B}' || c == '\U{000C}' || c == '\r' || c == ' '
    || c == '\U{00A0}' || c == '\U{1680}' || ('\U{2000}' <= c <= '\U{200A}')
    || c == '\U{2028}' || c == '\U{2029}' || c == '\U{202F}' || c == '\U{205F}'
    || c == '\U{3000}' || c == '\U{FEFF}'
  }

  /** The characters a regular-expression `.` does not match (no `s` flag). */
  predicate IsLineTerminator(c: char) {
    c == '\n' || c == '\r' || c == '\U{2028}' || c == '\U{2029}'
  }

  predicate AllSpaces(s: string) {
    forall i :: 0 <= i < |s| ==> IsSpace(s[i])
  }

  /** `s` can be matched by `.*` : no line terminator in it. */
  predicate SingleLine(s: string) {
    forall i :: 0 <= i < |s| ==> !IsLineTerminator(s[i])
  }

  /** The length of the match of `^\s*` on `s`. */
  function LeadingSpaces(s: string): (n: nat)
    ensures n <= |s| && AllSpaces(s[..n])
    ensures n == |s| || !IsSpace(s[n])
  {
    if s == [] || !IsSpace(s[0]) then 0
    else
      var m := LeadingSpaces(s[1..]);
      assert s[..m + 1] == [s[0]] + s[1..][..m];
      1 + m
  }

  /** The number of white-space characters at the end of `s`. */
  function TrailingSpaces(s: string): (n: nat)
    ensures n <= |s| && AllSpaces(s[|s| - n..])
    ensures n == |s| || !IsSpace(s[|s| - n - 1])
  {
    if s == [] || !IsSpace(s[|s| - 1]) then 0
    else
      var m := TrailingSpaces(s[..|s| - 1]);
      assert s[|s| - (m + 1)..] == s[..|s| - 1][|s| - 1 - m..] + [s[|s| - 1]];
      1 + m
  }

  /** `String.prototype.trim`: the text between the leading and the trailing
      white space; empty when `s` is all white space. */
  function Trim(s: string): (r: string)
    ensures r == [] <==> AllSpaces(s)
    ensures r != [] ==> !IsSpace(r[0]) && !IsSpace(r[|r| - 1])
    ensures LeadingSpaces(s) + |r| <= |s|
    ensures r == s[LeadingSpaces(s)..LeadingSpaces(s) + |r|]
    ensures AllSpaces(s[LeadingSpaces(s) + |r|..])
  {
    var a := LeadingSpaces(s);
    if a == |s| then
      assert s[..a] == s;
      []
    else
      var b := |s| - TrailingSpaces(s);
      assert !AllSpaces(s) by { assert !IsSpace(s[a]); }
      s[a..b]
  }

  /** Text that neither starts nor ends with white space is its own trim. */
  lemma TrimUnspaced(s: string)
    requires s == [] || (!IsSpace(s[0]) && !IsSpace(s[|s| - 1]))
    ensures Trim(s) == s
  {
    if s != [] {
      assert LeadingSpaces(s) == 0;
      assert TrailingSpaces(s) == 0;
    }
  }

  /** The suffix of `s` left after its leading white space. */
  function TrimStart(s: string): (r: string)
    ensures |r| <= |s| && r == s[|s| - |r|..]
    ensures AllSpaces(s[..|s| - |r|])
    ensures r == [] || !IsSpace(r[0])
  {
    s[LeadingSpaces(s)..]
  }

  /** `pat` occurs in `s` at offset `i`. */
  predicate IsAt(s: string, pat: string, i: int) {
    0 <= i && i + |pat| <= |s| && s[i..i + |pat|] == pat
  }

  /** `String.prototype.includes`. */
  predicate Contains(s: string, pat: string) {
    exists i :: 0 <= i <= |s| - |pat| && IsAt(s, pat, i)
  }

  function IndexFrom(s: string, pat: string, from: nat): (r: int)
    requires from <= |s|
    ensures r == -1 || (from <= r && IsAt(s, pat, r))
    ensures forall i :: from <= i && (r == -1 || i < r) ==> !IsAt(s, pat, i)
    decreases |s| - from
  {
    if IsAt(s, pat, from) then from
    else if from + |pat| >= |s| then -1
    else IndexFrom(s, pat, from + 1)
  }

  /** `String.prototype.indexOf`: the offset of the first occurrence of
      `pat` in `s`, or -1 when there is none. */
  function IndexOf(s: string, pat: string): (r: int)
    ensures r == -1 || IsAt(s, pat, r)
    ensures forall i :: 0 <= i && (r == -1 || i < r) ==> !IsAt(s, pat, i)
    ensures r >= 0 <==> Contains(s, pat)
  {
    IndexFrom(s, pat, 0)
  }

  /** The number of occurrences of `c` in `s`. */
  function Count(s: string, c: char): nat {
    if s == [] then 0 else (if s[0] == c then 1 else 0) + Count(s[1..], c)
  }

  /** `parts` joined with `sep` between consecutive parts (`Array.prototype.join`). */
  function Join(parts: seq<string>, sep: string): string {
    if |parts| == 0 then []
    else if |parts| == 1 then parts[0]
    else parts[0] + sep + Join(parts[1..], sep)
  }

  /** `String.prototype.split` with a one-character separator: the pieces
      between the occurrences of `sep`; always at least one piece. */
  function SplitOn(s: string, sep: char): (r: seq<string>)
    ensures |r| >= 1
  {
    if s == [] then [[]]
    else
      var rest := SplitOn(s[1..], sep);
      if s[0] == sep then [[]] + rest else [[s[0]] + rest[0]] + rest[1..]
  }

  /** `String.prototype.split(/\r?\n/)`: a line break is `\n`, together with
      a `\r` right before it; a `\r` on its own stays in the piece. */
  function SplitLines(s: string): (r: seq<string>)
    ensures |r| >= 1
  {
    if s == [] then [[]]
    else if s[0] == '\n' then [[]] + SplitLines(s[1..])
    else if s[0] == '\r' && |s| > 1 && s[1] == '\n' then [[]] + SplitLines(s[2..])
    else
      var rest := SplitLines(s[1..]);
      [[s[0]] + rest[0]] + rest[1..]
  }

  lemma SplitOnJoin(s: string, sep: char)
    ensures Join(SplitOn(s, sep), [sep]) == s
    ensures |SplitOn(s, sep)| == Count(s, sep) + 1
    ensures forall i :: 0 <= i < |SplitOn(s, sep)| ==> sep !in SplitOn(s, sep)[i]
  {
    SplitOnJoined(s, sep);
    SplitOnCount(s, sep);
    SplitOnPieces(s, sep);
  }

  lemma {:induction false} SplitOnJoined(s: string, sep: char)
    ensures Join(SplitOn(s, sep), [sep]) == s
    decreases |s|
  {
    if s != [] {
      var rest := SplitOn(s[1..], sep);
      SplitOnJoined(s[1..], sep);
      assert s == [s[0]] + s[1..];
      var r := SplitOn(s, sep);
      if s[0] == sep {
        assert r == [[]] + rest && r[1..] == rest;
        assert Join(r, [sep]) == [] + [sep] + Join(rest, [sep]);
      } else if |rest| == 1 {
        assert r == [[s[0]] + rest[0]];
      } else {
        assert r == [[s[0]] + rest[0]] + rest[1..] && r[1..] == rest[1..];
        assert Join(r, [sep]) == ([s[0]] + rest[0]) + [sep] + Join(rest[1..], [sep]);
        assert Join(rest, [sep]) == rest[0] + [sep] + Join(rest[1..], [sep]);
      }
    }
  }

  lemma {:induction false} SplitOnCount(s: string, sep: char)
    ensures |SplitOn(s, sep)| == Count(s, sep) + 1
    decreases |s|
  {
    if s != [] {
      SplitOnCount(s[1..], sep);
    }
  }

  lemma {:induction false} SplitOnPieces(s: string, sep: char)
    ensures forall i :: 0 <= i < |SplitOn(s, sep)| ==> sep !in SplitOn(s, sep)[i]
    decreases |s|
  {
    if s != [] {
      var rest := SplitOn(s[1..], sep);
      SplitOnPieces(s[1..], sep);
      var r := SplitOn(s, sep);
      if s[0] != sep {
        forall i | 0 <= i < |r| ensures sep !in r[i] {
          if i > 0 { assert r[i] == rest[i]; }
        }
      } else {
        forall i | 0 <= i < |r| ensures sep !in r[i] {
          if i > 0 { assert r[i] == rest[i - 1]; }
        }
      }
    }
  }

  /** Splitting a line without separator followed by a separator and more text. */
  lemma {:induction false} SplitOnLine(line: string, rest: string, sep: char)
    requires sep !in line
    ensures SplitOn(line + ([sep] + rest), sep) == [line] + SplitOn(rest, sep)
  {
    if |line| > 0 {
      SplitOnLine(line[1..], rest, sep);
      assert (line + ([sep] + rest))[1..] == line[1..] + ([sep] + rest);
      assert line[0] != sep && [line[0]] + line[1..] == line;
    } else {
      assert line + ([sep] + rest) == [sep] + rest;
      assert ([sep] + rest)[1..] == rest;
    }
  }

  /** A text without the separator is one piece. */
  lemma {:induction false} SplitOnNoSep(s: string, sep: char)
    requires sep !in s
    ensures SplitOn(s, sep) == [s]
  {
    if |s| > 0 {
      SplitOnNoSep(s[1..], sep);
      assert [s[0]] + s[1..] == s;
    }
  }

  lemma {:induction false} SplitLinesCount(s: string)
    ensures |SplitLines(s)| == Count(s, '\n') + 1
    ensures forall i :: 0 <= i < |SplitLines(s)| ==> '\n' !in SplitLines(s)[i]
    decreases |s|
  {
    if s == [] {
    } else if s[0] == '\n' {
      SplitLinesCount(s[1..]);
      var r := SplitLines(s);
      forall i | 0 <= i < |r| ensures '\n' !in r[i] {
        if i > 0 { assert r[i] == SplitLines(s[1..])[i - 1]; }
      }
    } else if s[0] == '\r' && |s| > 1 && s[1] == '\n' {
      SplitLinesCount(s[2..]);
      assert s[1..][1..] == s[2..];
      var r := SplitLines(s);
      forall i | 0 <= i < |r| ensures '\n' !in r[i] {
        if i > 0 { assert r[i] == SplitLines(s[2..])[i - 1]; }
      }
    } else {
      SplitLinesCount(s[1..]);
      var rest := SplitLines(s[1..]);
      var r := SplitLines(s);
      forall i | 0 <= i < |r| ensures '\n' !in r[i] {
        if i > 0 { assert r[i] == rest[i]; }
      }
    }
  }

  /** Without carriage returns, splitting at line breaks loses nothing. */
  lemma {:induction false} SplitLinesJoin(s: string)
    requires '\r' !in s
    ensures Join(SplitLines(s), "\n") == s
    decreases |s|
  {
    if s != [] {
      assert s == [s[0]] + s[1..];
      SplitLinesJoin(s[1..]);
    }
  }

  function DigitChar(d: nat): (c: char)
    requires d < 10
    ensures '0' <= c <= '9'
  {
    ('0' as int + d) as char
  }

  /** The decimal numeral of `n`, as a template literal prints it. */
  function NatToString(n: nat): (r: string)
    ensures |r| >= 1
    ensures forall i :: 0 <= i < |r| ==> '0' <= r[i] <= '9'
    ensures n < 10 <==> |r| == 1
  {
    if n < 10 then [DigitChar(n)] else NatToString(n / 10) + [DigitChar(n % 10)]
  }

  /** Distinct numbers have distinct numerals. */
  lemma {:induction false} NatToStringInjective(a: nat, b: nat)
    requires NatToString(a) == NatToString(b)
    ensures a == b
    decreases a
  {
    if a >= 10 && b >= 10 {
      var ra, rb := NatToString(a), NatToString(b);
      assert ra[|ra| - 1] == rb[|rb| - 1];
      assert a % 10 == b % 10;
      assert ra[..|ra| - 1] == NatToString(a / 10);
      assert rb[..|rb| - 1] == NatToString(b / 10);
      NatToStringInjective(a / 10, b / 10);
    }
  }

  /** `toLowerCase` restricted to ASCII letters. */
  function LowerChar(c: char): (r: char)
    ensures 'A' <= c <= 'Z' ==> r as int == c as int + 32
    ensures !('A' <= c <= 'Z') ==> r == c
  {
    if 'A' <= c <= 'Z' then (c as int + 32) as char else c
  }

  function Lower(s: string): (r: string)
    ensures |r| == |s|
    ensures forall i :: 0 <= i < |s| ==> r[i] == LowerChar(s[i])
  {
    seq(|s|, i requires 0 <= i < |s| => LowerChar(s[i]))
  }
}
