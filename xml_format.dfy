/**
 * `formatXML` and `formatContent` of the Monaco editor hook.  The XML
 * pretty-printer breaks the text between every `>` and the `<` right after
 * it, splits it into lines, and prints each line behind two spaces per open
 * element; a closing tag at depth 0 makes `"  ".repeat(-1)` throw, and
 * `formatContent` then keeps the input.
 */
module XmlFormat {
  import opened Strings
  import opened Optional

  /** `PADDING`. */
  function Padding(): string { "  " }

  /** The global replace of `>` `<` and any slashes after them by the same
      text with CR LF after the `>`: a CR LF between every `>` and a `<`
      right after it. */
  function InsertBreaks(s: string): string {
    if |s| == 0 then []
    else if s[0] == '>' && |s| > 1 && s[1] == '<' then ">\r\n" + InsertBreaks(s[1..])
    else [s[0]] + InsertBreaks(s[1..])
  }

  /** The lines the loop goes over. */
  function Segments(xml: string): seq<string> {
    SplitLines(InsertBreaks(xml))
  }

  /** `/.+<\/.+>$/`: the segment ends with `>`, and somewhere before it is a
      `</` with a character before it and at least one character between it
      and the final `>`, none of them a line terminator. */
  predicate InlineElement(seg: string) {
    |seg| > 0 && seg[|seg| - 1] == '>' &&
    exists p :: 1 <= p && p + 3 < |seg| && InlineCloseAt(seg, p)
  }

  /** A `</` at `p` with a character before it and a non-empty single-line
      text between it and the final `>`. */
  predicate InlineCloseAt(seg: string, p: int)
    requires 1 <= p && p + 3 < |seg|
  {
    seg[p] == '<' && seg[p + 1] == '/' && !IsLineTerminator(seg[p - 1]) && SingleLine(seg[p + 2..|seg| - 1])
  }

  /** `/^<\/.+/`: starts with `</` and one more character that is not a line
      terminator. */
  predicate ClosingTag(seg: string) {
    |seg| >= 3 && seg[0] == '<' && seg[1] == '/' && !IsLineTerminator(seg[2])
  }

  /** `/^<[^!?].*>$/`: starts with `<` and a character other than `!` and `?`
      (a line terminator included), ends with `>`, and has no line
      terminator in between; self-closing tags match too. */
  predicate OpeningTag(seg: string) {
    |seg| >= 3 && seg[0] == '<' && seg[1] != '!' && seg[1] != '?' && seg[|seg| - 1] == '>' &&
    SingleLine(seg[2..|seg| - 1])
  }

  /** The depth a segment is printed at, first rule that matches wins: a
      closing tag is printed one level up. */
  function PrintPad(seg: string, pad: int): int {
    if InlineElement(seg) then pad else if ClosingTag(seg) then pad - 1 else pad
  }

  /** The depth after a segment: one level up after a closing tag, one level
      down after an opening tag. */
  function NextPad(seg: string, pad: int): (r: int)
    ensures pad - 1 <= r <= pad + 1
  {
    if InlineElement(seg) then pad
    else if ClosingTag(seg) then pad - 1
    else if OpeningTag(seg) then pad + 1
    else pad
  }

  /** `s.repeat(n)`. */
  function Repeat(s: string, n: nat): (r: string)
    ensures |r| == n * |s|
  {
    if n == 0 then [] else s + Repeat(s, n - 1)
  }

  /** The text the loop accumulates from depth `pad` on, or `None` when a
      segment would be printed at a negative depth (`repeat` throws). */
  function Layout(segs: seq<string>, pad: int): Option<string> {
    if |segs| == 0 then Some([])
    else
      var p := PrintPad(segs[0], pad);
      if p < 0 then None
      else match Layout(segs[1..], NextPad(segs[0], pad))
        case None => None
        case Some(rest) => Some(Repeat(Padding(), p) + segs[0] + "\n" + rest)
  }

  /** What `formatXML` returns, or `None` when it throws. */
  function Formatted(xml: string): Option<string> {
    match Layout(Segments(xml), 0)
    case None => None
    case Some(text) => Some(Trim(text))
  }

  /** `text` prefixed to a successful result. */
  function Prefixed(text: string, o: Option<string>): Option<string> {
    match o
    case None => None
    case Some(rest) => Some(text + rest)
  }

  /** The `forEach` loop of `formatXML`, with the `RangeError` of a negative
      repeat count as `None`. */
  method FormatXml(xml: string) returns (r: Option<string>)
    ensures r == Formatted(xml)
  {
    var segs := SplitLines(InsertBreaks(xml));
    assert segs == Segments(xml);
    var formatted := "";
    var pad := 0;
    assert segs[0..] == segs;
    PrefixedEmpty(Layout(segs, 0));
    for i := 0 to |segs|
      invariant Layout(segs, 0) == Prefixed(formatted, Layout(segs[i..], pad))
    {
      var node := segs[i];
      LayoutAt(segs, i, pad);
      var indent := 0;
      if InlineElement(node) {
        indent := 0;
      } else if ClosingTag(node) {
        pad := pad - 1;
      } else if OpeningTag(node) {
        indent := 1;
      }
      if pad < 0 {
        assert Layout(segs, 0) == None;
        return None;
      }
      var line := Repeat(Padding(), pad) + node + "\n";
      PrefixedTwice(formatted, line, Layout(segs[i + 1..], pad + indent));
      formatted := formatted + line;
      pad := pad + indent;
    }
    assert segs[|segs|..] == [] && formatted + [] == formatted;
    assert Layout(segs, 0) == Some(formatted);
    return Some(Trim(formatted));
  }

  /** One step of `Layout` from position `i`. */
  lemma LayoutAt(segs: seq<string>, i: nat, pad: int)
    requires i < |segs|
    ensures var p := PrintPad(segs[i], pad);
      Layout(segs[i..], pad) ==
        if p < 0 then None
        else Prefixed(Repeat(Padding(), p) + segs[i] + "\n", Layout(segs[i + 1..], NextPad(segs[i], pad)))
  {
    assert segs[i..][0] == segs[i] && segs[i..][1..] == segs[i + 1..];
  }

  lemma PrefixedEmpty(o: Option<string>)
    ensures Prefixed([], o) == o
  {
    if o.Some? {
      assert [] + o.value == o.value;
    }
  }

  lemma PrefixedTwice(a: string, b: string, o: Option<string>)
    ensures Prefixed(a, Prefixed(b, o)) == Prefixed(a + b, o)
  {
    if o.Some? {
      assert a + (b + o.value) == (a + b) + o.value;
    }
  }

  /** The language the editor is in (`language?: MonacoLanguage`). */
  datatype Language = Json | Yaml | Xml | Csv

  /** `formatContent`: JSON and XML are formatted, anything else (no
      language included) is returned as it is, and a format that throws
      leaves the text as it is.  `stringifyParsed` stands for
      `JSON.stringify(JSON.parse(text), null, 2)`, `None` when it throws. */
  function FormatContent(text: string, language: Option<Language>, stringifyParsed: string -> Option<string>): (r: string)
    ensures language != Some(Json) && language != Some(Xml) ==> r == text
    ensures language == Some(Xml) ==> r == (if Formatted(text).Some? then Formatted(text).value else text)
    ensures language == Some(Json) ==> r == (if stringifyParsed(text).Some? then stringifyParsed(text).value else text)
  {
    var attempt := if language == Some(Json) then stringifyParsed(text)
      else if language == Some(Xml) then Formatted(text)
      else Some(text);
    match attempt
    case None => text
    case Some(formatted) => formatted
  }

  // ---------------------------------------------------------------------
  // Properties

  /** The depth a segment is entered at, starting from `pad`, whatever
      happened before. */
  function PadBefore(segs: seq<string>, pad: int, k: nat): int
    requires k <= |segs|
  {
    if k == 0 then pad else PadBefore(segs[1..], NextPad(segs[0], pad), k - 1)
  }

  /** From a depth of at least 0, the printer throws exactly when some
      closing tag (that is not an inline element) is met at depth 0. */
  lemma {:induction false} LayoutFailsIff(segs: seq<string>, pad: int)
    requires pad >= 0
    ensures Layout(segs, pad).None? <==>
      exists k :: 0 <= k < |segs| && PadBefore(segs, pad, k) == 0 && ClosingTag(segs[k]) && !InlineElement(segs[k])
  {
    if |segs| > 0 {
      var next := NextPad(segs[0], pad);
      if PrintPad(segs[0], pad) < 0 {
        assert PadBefore(segs, pad, 0) == 0;
      } else {
        LayoutFailsIff(segs[1..], next);
        if Layout(segs, pad).None? {
          var k :| 0 <= k < |segs[1..]| && PadBefore(segs[1..], next, k) == 0 && ClosingTag(segs[1..][k]) && !InlineElement(segs[1..][k]);
          assert PadBefore(segs, pad, k + 1) == 0 && segs[k + 1] == segs[1..][k];
        }
        if exists k :: 0 <= k < |segs| && PadBefore(segs, pad, k) == 0 && ClosingTag(segs[k]) && !InlineElement(segs[k]) {
          var k :| 0 <= k < |segs| && PadBefore(segs, pad, k) == 0 && ClosingTag(segs[k]) && !InlineElement(segs[k]);
          assert k > 0;
          assert PadBefore(segs[1..], next, k - 1) == 0 && segs[1..][k - 1] == segs[k];
        }
      }
    }
  }

  /** The lines the printer writes: each segment behind two spaces per
      level of the depth it is printed at. */
  function IndentedLines(segs: seq<string>, pad: int): (r: seq<string>)
    ensures |r| == |segs|
  {
    if |segs| == 0 then []
    else
      var p := PrintPad(segs[0], pad);
      [Repeat(Padding(), if p < 0 then 0 else p) + segs[0]] + IndentedLines(segs[1..], NextPad(segs[0], pad))
  }

  /** A successful layout is the indented lines, each ended by a line
      break: splitting it at line breaks gives the lines back, followed by
      the empty piece after the last break. */
  lemma {:induction false} LayoutLines(segs: seq<string>, pad: int)
    requires Layout(segs, pad).Some?
    requires forall k :: 0 <= k < |segs| ==> '\n' !in segs[k]
    ensures SplitOn(Layout(segs, pad).value, '\n') == IndentedLines(segs, pad) + [[]]
  {
    if |segs| > 0 {
      var p := PrintPad(segs[0], pad);
      var line := Repeat(Padding(), p) + segs[0];
      var rest := Layout(segs[1..], NextPad(segs[0], pad)).value;
      LayoutLines(segs[1..], NextPad(segs[0], pad));
      NoBreakInPadding(p);
      assert '\n' !in line;
      assert Layout(segs, pad).value == line + ("\n" + rest);
      SplitOnLine(line, rest, '\n');
    }
  }

  lemma {:induction false} NoBreakInPadding(n: nat)
    ensures '\n' !in Repeat(Padding(), n)
  {
    if n > 0 {
      NoBreakInPadding(n - 1);
    }
  }

  /** After the breaks are inserted, no `>` is directly followed by `<`. */
  lemma {:induction false} BreaksSeparateTags(s: string)
    ensures forall i :: 0 <= i < |InsertBreaks(s)| - 1 ==> !(InsertBreaks(s)[i] == '>' && InsertBreaks(s)[i + 1] == '<')
    ensures |InsertBreaks(s)| > 0 ==> |s| > 0 && InsertBreaks(s)[0] == s[0]
  {
    if |s| > 0 {
      BreaksSeparateTags(s[1..]);
    }
  }

  /** The characters other than CR and LF. */
  function WithoutBreaks(s: string): string {
    if |s| == 0 then []
    else (if s[0] == '\r' || s[0] == '\n' then [] else [s[0]]) + WithoutBreaks(s[1..])
  }

  /** Inserting the breaks adds only CR and LF characters. */
  lemma {:induction false} BreaksAddOnlyBreaks(s: string)
    ensures WithoutBreaks(InsertBreaks(s)) == WithoutBreaks(s)
  {
    if |s| > 0 {
      BreaksAddOnlyBreaks(s[1..]);
      var t := InsertBreaks(s[1..]);
      if s[0] == '>' && |s| > 1 && s[1] == '<' {
        assert (">\r\n" + t)[1..] == "\r\n" + t;
        assert ("\r\n" + t)[1..] == "\n" + t;
        assert ("\n" + t)[1..] == t;
        assert WithoutBreaks("\n" + t) == WithoutBreaks(t);
        assert WithoutBreaks("\r\n" + t) == WithoutBreaks(t);
        assert WithoutBreaks(">\r\n" + t) == ">" + WithoutBreaks(t);
      } else {
        assert ([s[0]] + t)[1..] == t;
      }
    }
  }
}
