/**
 * The text tools of the Monaco editor component: the CSV preview split,
 * the line-by-line YAML check with its warning markers, and the format
 * command that replaces the editor's text only when formatting succeeds.
 */
module MonacoEditor {
  import opened Strings
  import opened Optional
  import opened XmlFormat

  // ---------------------------------------------------------------------
  // CSV preview

  /** `parseCSV`: the trimmed text split at every `\n` or `\r\n`, and every
      row split at every comma (no quoting). */
  function ParseCsv(csvText: string): seq<seq<string>> {
    var rows := SplitLines(Trim(csvText));
    seq(|rows|, i requires 0 <= i < |rows| => SplitOn(rows[i], ','))
  }

  /** There is one row more than there are line feeds in the trimmed text. */
  lemma CsvRowCount(csvText: string)
    ensures |ParseCsv(csvText)| == Count(Trim(csvText), '\n') + 1
  {
    SplitLinesCount(Trim(csvText));
  }

  /** Joining a row's cells with commas gives the line back, and the rows
      have one cell more than their lines have commas. */
  lemma CsvRowJoin(csvText: string, i: nat)
    requires i < |ParseCsv(csvText)|
    ensures Join(ParseCsv(csvText)[i], ",") == SplitLines(Trim(csvText))[i]
    ensures |ParseCsv(csvText)[i]| == Count(SplitLines(Trim(csvText))[i], ',') + 1
  {
    SplitOnJoin(SplitLines(Trim(csvText))[i], ',');
  }

  /** Text that is empty or only white space gives one row with one empty cell. */
  lemma CsvBlank(csvText: string)
    requires AllSpaces(csvText)
    ensures ParseCsv(csvText) == [[[]]]
  {
  }

  // ---------------------------------------------------------------------
  // YAML check

  /** `/^\s*[^:]+\s*:.+$/`: the first colon has at least one character
      before it, and after it comes at least one character and no line
      terminator. */
  predicate YamlLineOk(line: string) {
    var c := IndexOf(line, ":");
    1 <= c && c + 1 < |line| && SingleLine(line[c + 1..])
  }

  /** A line is flagged when its trimmed text is not empty and it fails the
      pattern. */
  predicate Flagged(line: string) {
    Trim(line) != [] && !YamlLineOk(line)
  }

  /** The message for the line at (0-based) index `i`, naming it by its
      1-based number. */
  function Message(i: nat): string {
    "第 " + NatToString(i + 1) + " 行可能缺少 ':' 或格式错误"
  }

  /** Which lines are flagged. */
  function FlaggedLines(lines: seq<string>): (r: seq<bool>)
    ensures |r| == |lines|
  {
    seq(|lines|, i requires 0 <= i < |lines| => Flagged(lines[i]))
  }

  /** The messages for the flagged lines among the first `n`, in line order. */
  function Errors(flags: seq<bool>, n: nat): (r: seq<string>)
    requires n <= |flags|
    ensures |r| <= n
  {
    if n == 0 then [] else Errors(flags, n - 1) + (if flags[n - 1] then [Message(n - 1)] else [])
  }

  /** The messages `validateYAML` collects for a text. */
  function YamlErrors(yamlText: string): seq<string> {
    var lines := SplitOn(yamlText, '\n');
    Errors(FlaggedLines(lines), |lines|)
  }

  datatype MarkerSeverity = Hint | Info | Warning | Error

  datatype Marker = Marker(
    severity: MarkerSeverity,
    message: string,
    startLineNumber: int,
    endLineNumber: int,
    startColumn: int,
    endColumn: int)

  /** The markers as the component builds them: the `k`-th message goes on
      line `k + 1`, columns 1 to 1, as a warning. */
  function MarkersAsWritten(errors: seq<string>): (r: seq<Marker>)
    ensures |r| == |errors|
    ensures forall k :: 0 <= k < |r| ==> r[k].message == errors[k] && r[k].startLineNumber == k + 1
  {
    seq(|errors|, k requires 0 <= k < |errors| => Marker(Warning, errors[k], k + 1, k + 1, 1, 1))
  }

  /** `validateYAML`: the lines split at `\n`, the loop, then the markers. */
  method ValidateYaml(yamlText: string) returns (errors: seq<string>, markers: seq<Marker>)
    ensures errors == YamlErrors(yamlText)
    ensures markers == MarkersAsWritten(errors)
  {
    var lines := SplitOn(yamlText, '\n');
    errors := CollectErrors(lines);
    markers := seq(|errors|, k requires 0 <= k < |errors| => Marker(Warning, errors[k], k + 1, k + 1, 1, 1));
  }

  /** The loop of `validateYAML`: a message for every flagged line. */
  method CollectErrors(lines: seq<string>) returns (errors: seq<string>)
    ensures errors == Errors(FlaggedLines(lines), |lines|)
  {
    errors := [];
    for i := 0 to |lines|
      invariant errors == Errors(FlaggedLines(lines), i)
    {
      errors := CheckLine(lines, i, errors);
    }
  }

  /** The loop body for line `i`: its message is pushed when it is flagged. */
  method CheckLine(lines: seq<string>, i: nat, errors: seq<string>) returns (errors': seq<string>)
    requires i < |lines| && errors == Errors(FlaggedLines(lines), i)
    ensures errors' == Errors(FlaggedLines(lines), i + 1)
  {
    errors' := errors;
    if Flagged(lines[i]) {
      errors' := errors' + [Message(i)];
    }
  }

  /** A message names exactly one line. */
  lemma MessageInjective(i: nat, j: nat)
    requires Message(i) == Message(j)
    ensures i == j
  {
    var tail := " 行可能缺少 ':' 或格式错误";
    MessageAfterPrefix(i, tail);
    MessageAfterPrefix(j, tail);
    DigitsBeforeSpace(NatToString(i + 1), NatToString(j + 1), tail);
    NatToStringInjective(i + 1, j + 1);
  }

  /** After its two-character prefix a message is the line number and the
      fixed text. */
  lemma MessageAfterPrefix(i: nat, tail: string)
    requires tail == " 行可能缺少 ':' 或格式错误"
    ensures Message(i)[2..] == NatToString(i + 1) + tail
  {
    assert Message(i) == "第 " + (NatToString(i + 1) + tail);
  }

  /** Two digit strings followed by the same text that starts with a space
      are equal. */
  lemma DigitsBeforeSpace(a: string, b: string, tail: string)
    requires forall k :: 0 <= k < |a| ==> '0' <= a[k] <= '9'
    requires forall k :: 0 <= k < |b| ==> '0' <= b[k] <= '9'
    requires |tail| > 0 && tail[0] == ' ' && a + tail == b + tail
    ensures a == b
  {
    assert (a + tail)[|b|] == ' ';
    assert (b + tail)[|a|] == ' ';
    assert |a| == |b|;
    assert a == (a + tail)[..|a|] && b == (b + tail)[..|b|];
  }

  /** The messages name exactly the flagged lines: line `i` has a message
      if and only if it is flagged. */
  lemma {:induction false} ErrorsNameFlagged(flags: seq<bool>, n: nat, i: nat)
    requires n <= |flags|
    ensures Message(i) in Errors(flags, n) <==> i < n && flags[i]
  {
    if n > 0 {
      ErrorsNameFlagged(flags, n - 1, i);
      var added: seq<string> := if flags[n - 1] then [Message(n - 1)] else [];
      assert Errors(flags, n) == Errors(flags, n - 1) + added;
      if Message(i) in added {
        MessageInjective(i, n - 1);
      }
    }
  }

  /** A blank line is never flagged. */
  lemma BlankNotFlagged(line: string)
    requires AllSpaces(line)
    ensures !Flagged(line)
  {
  }

  /** A `key:value` line, with a key free of colons and a value on one
      line, passes the test. */
  lemma KeyValueNotFlagged(key: string, value: string)
    requires |key| > 0 && ':' !in key && |value| > 0 && SingleLine(value)
    ensures !Flagged(key + ":" + value)
  {
    var line := key + ":" + value;
    assert IsAt(line, ":", |key|) by { assert line[|key|..|key| + 1] == ":"; }
    forall k | 0 <= k < |key| ensures !IsAt(line, ":", k) {
      assert line[k..k + 1] == [key[k]];
    }
    assert IndexOf(line, ":") == |key|;
    assert line[|key| + 1..] == value;
  }

  /** A non-blank line without a colon is flagged. */
  lemma NoColonFlagged(line: string)
    requires ':' !in line && Trim(line) != []
    ensures Flagged(line)
  {
  }

  /** A line that still ends in a carriage return (a CR LF text, split at
      `\n` only) fails the pattern, so every non-blank line of such a text
      is flagged. */
  lemma CarriageReturnFlagged(line: string)
    requires |line| > 0 && line[|line| - 1] == '\r' && Trim(line) != []
    ensures Flagged(line)
  {
    var c := IndexOf(line, ":");
    if 1 <= c && c + 1 < |line| {
      assert line[c + 1..][|line| - c - 2] == '\r';
    }
  }

  /** Where the markers should go: the flagged lines' own numbers, with
      their messages. */
  function Problems(flags: seq<bool>, n: nat): (r: seq<(nat, string)>)
    requires n <= |flags|
  {
    if n == 0 then [] else Problems(flags, n - 1) + (if flags[n - 1] then [(n, Message(n - 1))] else [])
  }

  /** The markers on the flagged lines. */
  function MarkersOnLines(problems: seq<(nat, string)>): (r: seq<Marker>)
    ensures |r| == |problems|
    ensures forall k :: 0 <= k < |r| ==> r[k].message == problems[k].1 && r[k].startLineNumber == problems[k].0
  {
    seq(|problems|, k requires 0 <= k < |problems| =>
      Marker(Warning, problems[k].1, problems[k].0, problems[k].0, 1, 1))
  }

  /** The `validateYAML` the messages call for: the same messages, each
      marker on the line its message names. */
  function ValidateYamlCorrected(yamlText: string): seq<Marker> {
    var lines := SplitOn(yamlText, '\n');
    MarkersOnLines(Problems(FlaggedLines(lines), |lines|))
  }

  /** The corrected check: the messages are the same, and every marker sits
      on a flagged line, the one its message names. */
  lemma {:induction false} ProblemsOnFlaggedLines(flags: seq<bool>, n: nat)
    requires n <= |flags|
    ensures |Problems(flags, n)| == |Errors(flags, n)|
    ensures forall k :: 0 <= k < |Problems(flags, n)| ==> ProblemOk(flags, n, Problems(flags, n)[k], Errors(flags, n)[k])
  {
    if n > 0 {
      ProblemsOnFlaggedLines(flags, n - 1);
      var problems, errors := Problems(flags, n - 1), Errors(flags, n - 1);
      var p: seq<(nat, string)> := if flags[n - 1] then [(n, Message(n - 1))] else [];
      var e: seq<string> := if flags[n - 1] then [Message(n - 1)] else [];
      assert Problems(flags, n) == problems + p && Errors(flags, n) == errors + e;
      forall k | 0 <= k < |Problems(flags, n)| ensures ProblemOk(flags, n, Problems(flags, n)[k], Errors(flags, n)[k]) {
        if k < |problems| {
          assert ProblemOk(flags, n - 1, problems[k], errors[k]);
          assert Problems(flags, n)[k] == problems[k] && Errors(flags, n)[k] == errors[k];
        }
      }
    }
  }

  /** A problem on a flagged line among the first `n` whose message is
      `message` and names that line. */
  predicate ProblemOk(flags: seq<bool>, n: nat, problem: (nat, string), message: string)
    requires n <= |flags|
  {
    1 <= problem.0 <= n && flags[problem.0 - 1] && problem.1 == message && message == Message(problem.0 - 1)
  }

  /** Every marker of the corrected check sits on a flagged line and names
      it; there is one marker per message of the check as written. */
  lemma CorrectedMarkers(yamlText: string, k: nat)
    requires k < |ValidateYamlCorrected(yamlText)|
    ensures |ValidateYamlCorrected(yamlText)| == |YamlErrors(yamlText)|
    ensures var m := ValidateYamlCorrected(yamlText)[k];
      var lines := SplitOn(yamlText, '\n');
      1 <= m.startLineNumber <= |lines| && Flagged(lines[m.startLineNumber - 1]) &&
      m.message == YamlErrors(yamlText)[k] && m.message == Message(m.startLineNumber - 1)
  {
    var lines := SplitOn(yamlText, '\n');
    var flags := FlaggedLines(lines);
    ProblemsOnFlaggedLines(flags, |lines|);
    assert ProblemOk(flags, |lines|, Problems(flags, |lines|)[k], Errors(flags, |lines|)[k]);
  }

  /** The example text splits into its two lines. */
  lemma ExampleLines()
    ensures SplitOn("a: b\nbad", '\n') == ["a: b", "bad"]
  {
    assert "a: b\nbad" == "a: b" + ("\n" + "bad");
    SplitOnLine("a: b", "bad", '\n');
    SplitOnNoSep("bad", '\n');
  }

  /** `a: b` has its colon at 1 and passes. */
  lemma ExamplePasses()
    ensures !Flagged("a: b")
  {
    assert "a: b"[0..1] == ['a'] && "a: b"[1..2] == [':'];
    assert IsAt("a: b", ":", 1) && !IsAt("a: b", ":", 0);
  }

  /** `bad` has no colon and is flagged. */
  lemma ExampleFlagged()
    ensures Flagged("bad")
  {
    assert !IsSpace('b');
    forall i | 0 <= i <= 2 ensures !IsAt("bad", ":", i) {
      assert "bad"[i] != ':';
    }
  }

  /** On the text `a: b` / `bad` the second line is flagged, and the
      component puts its marker on line 1, the line that passed; the
      corrected check puts it on line 2. */
  lemma MarkerOnWrongLine()
    ensures YamlErrors("a: b\nbad") == [Message(1)]
    ensures MarkersAsWritten(YamlErrors("a: b\nbad")) == [Marker(Warning, Message(1), 1, 1, 1, 1)]
    ensures ValidateYamlCorrected("a: b\nbad") == [Marker(Warning, Message(1), 2, 2, 1, 1)]
    ensures SplitOn("a: b\nbad", '\n') == ["a: b", "bad"] && !Flagged("a: b") && Flagged("bad")
  {
    ExampleLines();
    ExampleFlags();
    ExampleErrors([false, true]);
  }

  /** The example's lines are flagged `no`, `yes`. */
  lemma ExampleFlags()
    ensures !Flagged("a: b") && Flagged("bad")
    ensures FlaggedLines(["a: b", "bad"]) == [false, true]
  {
    ExamplePasses();
    ExampleFlagged();
  }

  /** Two lines of which only the second is flagged: one message, for
      line 2, which the component puts on line 1. */
  lemma ExampleErrors(flags: seq<bool>)
    requires flags == [false, true]
    ensures Errors(flags, 2) == [Message(1)]
    ensures Problems(flags, 2) == [(2, Message(1))]
    ensures MarkersAsWritten([Message(1)]) == [Marker(Warning, Message(1), 1, 1, 1, 1)]
    ensures MarkersOnLines([(2, Message(1))]) == [Marker(Warning, Message(1), 2, 2, 1, 1)]
  {
    assert Errors(flags, 1) == [];
    assert Problems(flags, 1) == [];
  }

  // ---------------------------------------------------------------------
  // The format command

  /** The editor as far as the format command sees it: its text and its
      language. */
  class EditorBuffer {
    var text: string
    var language: Language

    /** The `language` prop is optional and defaults to JSON. */
    constructor (text: string, language: Option<Language>)
      ensures this.text == text
      ensures this.language == (if language.Some? then language.value else Json)
    {
      this.text := text;
      this.language := if language.Some? then language.value else Json;
    }

    /** `formatContent`: the formatted text replaces the editor's text; a
        format that throws leaves it as it was.  `stringifyParsed` stands
        for `JSON.stringify(JSON.parse(text), null, 2)`, `None` when it
        throws. */
    method FormatContent(stringifyParsed: string -> Option<string>)
      modifies this
      ensures language == old(language)
      ensures text == XmlFormat.FormatContent(old(text), Some(language), stringifyParsed)
    {
      var current := text;
      var formatted: Option<string> := Some(current);
      if language == Json {
        formatted := stringifyParsed(current);
      } else if language == Xml {
        formatted := FormatXml(current);
      }
      if formatted.Some? {
        text := formatted.value;
      }
    }
  }
}
