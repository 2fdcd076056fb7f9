/**
 * One line of the JSON text editor, as the line-indexed structure parser
 * (`useJsonLineMap`) sees it: a closing line, a `"key": value` member line,
 * or a line it skips; the member's value text and its type; and the columns
 * computed by searching the raw line.
 */
module JsonLine {
  import opened Strings
  import opened Optional
  import opened JsNumber

  /** A 1-based span of lines and columns. */
  datatype Position = Position(startLineNumber: int, startColumn: int, endLineNumber: int, endColumn: int)

  /** Where a member's key and its value sit on the declaration line. */
  datatype Range = Range(key: Position, value: Position)

  datatype ValueType = Object | Array | Str | Boolean | Null | Number

  /** What a line contributes to the scan. */
  datatype LineKind =
    | Close                              // trimmed text starts with `}` or `]`
    | Member(key: string, rest: string)  // matches `^"([^"]+)"\s*:\s*(.*)`
    | Skip                               // anything else

  /** The length of the match of `.*` at the start of `s`. */
  function LineLength(s: string): (n: nat)
    ensures n <= |s| && SingleLine(s[..n])
    ensures n == |s| || IsLineTerminator(s[n])
  {
    if s == [] || IsLineTerminator(s[0]) then 0
    else
      var m := LineLength(s[1..]);
      assert s[..m + 1] == [s[0]] + s[1..][..m];
      1 + m
  }

  /** The `^"([^"]+)"` part: the key up to the next quote, and the text
      after that closing quote. */
  function MatchKey(t: string): Option<(string, string)> {
    if |t| < 2 || t[0] != '"' then None
    else
      var q := IndexOf(t[1..], "\"");
      if q < 1 then None else Some((t[1..q + 1], t[q + 2..]))
  }

  /** The `\s*:\s*` part: the text after the colon and the white space
      around it. */
  function MatchColon(after: string): Option<string> {
    var gap := LeadingSpaces(after);
    if gap == |after| || after[gap] != ':' then None
    else Some(TrimStart(after[gap + 1..]))
  }

  /** The regular expression `^"([^"]+)"\s*:\s*(.*)` applied to a trimmed
      line: the key between the first two quotes, then optional white space,
      a colon, optional white space, and the rest of the (first) line. */
  function MatchMember(t: string): Option<(string, string)> {
    match MatchKey(t)
    case None => None
    case Some((key, after)) =>
      match MatchColon(after)
      case None => None
      case Some(tail) => Some((key, tail[..LineLength(tail)]))
  }

  /** How the regular expression splits a matching line: the quoted key, the
      white space around the colon (the second taken greedily), the captured
      rest (as far as the first line terminator) and whatever follows. */
  predicate MemberDecomposition(t: string, key: string, ws1: string, ws2: string, rest: string, tail: string) {
    && t == "\"" + key + "\"" + ws1 + ":" + ws2 + rest + tail
    && |key| > 0 && '"' !in key
    && AllSpaces(ws1) && AllSpaces(ws2)
    && (rest + tail == [] || !IsSpace((rest + tail)[0]))
    && SingleLine(rest) && (tail == [] || IsLineTerminator(tail[0]))
  }

  /** `LeadingSpaces` is determined by its contract: the only length whose
      prefix is all white space and which stops at a non-space. */
  lemma LeadingSpacesUnique(s: string, n: nat)
    requires n <= |s| && (forall i :: 0 <= i < n ==> IsSpace(s[i]))
    requires n == |s| || !IsSpace(s[n])
    ensures LeadingSpaces(s) == n
  {
    var m := LeadingSpaces(s);
    forall i | 0 <= i < m ensures IsSpace(s[i]) {
      assert s[..m][i] == s[i];
    }
  }

  lemma LeadingSpacesOfPrefix(ws: string, x: string)
    requires AllSpaces(ws) && (x == [] || !IsSpace(x[0]))
    ensures LeadingSpaces(ws + x) == |ws|
  {
    var s := ws + x;
    forall i | 0 <= i < |ws| ensures IsSpace(s[i]) {
      assert s[i] == ws[i];
    }
    LeadingSpacesUnique(s, |ws|);
  }

  /** Likewise `LineLength`. */
  lemma LineLengthUnique(s: string, n: nat)
    requires n <= |s| && (forall i :: 0 <= i < n ==> !IsLineTerminator(s[i]))
    requires n == |s| || IsLineTerminator(s[n])
    ensures LineLength(s) == n
  {
    var m := LineLength(s);
    forall i | 0 <= i < m ensures !IsLineTerminator(s[i]) {
      assert s[..m][i] == s[i];
    }
  }

  lemma LineLengthOfPrefix(r: string, tail: string)
    requires SingleLine(r) && (tail == [] || IsLineTerminator(tail[0]))
    ensures LineLength(r + tail) == |r|
  {
    var s := r + tail;
    forall i | 0 <= i < |r| ensures !IsLineTerminator(s[i]) {
      assert s[i] == r[i];
    }
    LineLengthUnique(s, |r|);
  }

  lemma MatchKeySound(t: string)
    requires MatchKey(t).Some?
    ensures var (key, after) := MatchKey(t).value;
      t == "\"" + key + "\"" + after && |key| > 0 && '"' !in key
  {
    var q := IndexOf(t[1..], "\"");
    var key := t[1..q + 1];
    forall i | 0 <= i < |key| ensures key[i] != '"' {
      assert !IsAt(t[1..], "\"", i);
      assert t[1..][i..i + 1] == [key[i]];
    }
    assert t[q + 1] == '"' by { assert t[1..][q..q + 1] == "\""; }
    assert t == [t[0]] + key + [t[q + 1]] + t[q + 2..];
  }

  lemma MatchKeyComplete(t: string, key: string, after: string)
    requires t == "\"" + key + "\"" + after && |key| > 0 && '"' !in key
    ensures MatchKey(t) == Some((key, after))
  {
    var body := t[1..];
    assert body == key + "\"" + after;
    assert IsAt(body, "\"", |key|) by { assert body[|key|..|key| + 1] == "\""; }
    forall i | 0 <= i < |key| ensures !IsAt(body, "\"", i) {
      assert body[i..i + 1] == [key[i]];
    }
    assert IndexOf(body, "\"") == |key|;
    assert t[1..|key| + 1] == key;
    assert t[|key| + 2..] == after;
  }

  /** `s` taken apart around position `i`. */
  lemma SplitAround(s: string, i: nat)
    requires i < |s|
    ensures s == s[..i] + [s[i]] + s[i + 1..]
  {
    assert s == s[..i] + s[i..];
    assert s[i..] == [s[i]] + s[i + 1..];
  }

  /** A text with a colon at `gap`, cut before the colon, after it, and
      `w` characters further on. */
  lemma ColonPieces(after: string, gap: nat, w: nat, tail: string)
    requires gap < |after| && after[gap] == ':' && w <= |after| - gap - 1
    requires tail == after[gap + 1..][w..]
    ensures after == after[..gap] + ":" + after[gap + 1..][..w] + tail
  {
    SplitAround(after, gap);
    var y := after[gap + 1..];
    assert y == y[..w] + y[w..];
  }

  lemma MatchColonSound(after: string) returns (ws1: string, ws2: string)
    requires MatchColon(after).Some?
    ensures after == ws1 + ":" + ws2 + MatchColon(after).value
    ensures AllSpaces(ws1) && AllSpaces(ws2)
    ensures MatchColon(after).value == [] || !IsSpace(MatchColon(after).value[0])
  {
    var gap := LeadingSpaces(after);
    var afterColon := after[gap + 1..];
    var tail := TrimStart(afterColon);
    assert MatchColon(after) == Some(tail);
    var w := |afterColon| - |tail|;
    ws1, ws2 := after[..gap], afterColon[..w];
    ColonPieces(after, gap, w, tail);
  }

  lemma SplitAtColon(after: string, ws1: string, y: string)
    requires after == ws1 + ":" + y
    ensures after[|ws1|] == ':' && after[|ws1| + 1..] == y && after == ws1 + (":" + y)
  {
  }

  lemma MatchColonComplete(after: string, ws1: string, ws2: string, x: string)
    requires after == ws1 + ":" + ws2 + x && AllSpaces(ws1) && AllSpaces(ws2)
    requires x == [] || !IsSpace(x[0])
    ensures MatchColon(after) == Some(x)
  {
    SplitAtColon(after, ws1, ws2 + x);
    LeadingSpacesOfPrefix(ws1, ":" + (ws2 + x));
    LeadingSpacesOfPrefix(ws2, x);
  }

  lemma TakeDrop(x: string, n: nat)
    requires n <= |x|
    ensures x[..n] + x[n..] == x
  {
  }

  /** The pieces of a member line, regrouped. */
  lemma Regroup(t: string, key: string, after: string, ws1: string, ws2: string, rest: string, tail: string)
    requires t == "\"" + key + "\"" + after && after == ws1 + ":" + ws2 + (rest + tail)
    ensures t == "\"" + key + "\"" + ws1 + ":" + ws2 + rest + tail
  {
  }

  /** Every match the function reports is a match of the regular expression. */
  lemma MatchMemberSound(t: string) returns (ws1: string, ws2: string, tail: string)
    requires MatchMember(t).Some?
    ensures MemberDecomposition(t, MatchMember(t).value.0, ws1, ws2, MatchMember(t).value.1, tail)
  {
    MatchKeySound(t);
    var key, after := MatchKey(t).value.0, MatchKey(t).value.1;
    ws1, ws2 := MatchColonSound(after);
    var x := MatchColon(after).value;
    var n := LineLength(x);
    tail := x[n..];
    TakeDrop(x, n);
    Regroup(t, key, after, ws1, ws2, x[..n], tail);
  }

  /** Every match of the regular expression is found, with the same groups. */
  lemma MatchMemberComplete(t: string, key: string, ws1: string, ws2: string, rest: string, tail: string)
    requires MemberDecomposition(t, key, ws1, ws2, rest, tail)
    ensures MatchMember(t) == Some((key, rest))
  {
    var after := ws1 + ":" + ws2 + rest + tail;
    assert t == "\"" + key + "\"" + after;
    MatchKeyComplete(t, key, after);
    assert after == ws1 + ":" + ws2 + (rest + tail);
    MatchColonComplete(after, ws1, ws2, rest + tail);
    LineLengthOfPrefix(rest, tail);
    assert (rest + tail)[..|rest|] == rest;
  }

  /** How the scan treats a line: closing lines are recognised first, then
      member lines; everything else (blank lines, a bare `{`, keyless array
      elements, text in the middle of an edit) is skipped. */
  function ClassifyLine(line: string): LineKind {
    var t := Trim(line);
    if |t| > 0 && (t[0] == '}' || t[0] == ']') then Close
    else match MatchMember(t)
      case None => Skip
      case Some((key, rest)) => Member(key, rest)
  }

  /** `rest.replace(/,$/, "")`: one trailing comma removed. */
  function StripTrailingComma(s: string): string {
    if |s| > 0 && s[|s| - 1] == ',' then s[..|s| - 1] else s
  }

  /** The value text of a member: the rest without one trailing comma, trimmed. */
  function ValueText(rest: string): string {
    Trim(StripTrailingComma(rest))
  }

  /** The value's type, first match wins; `None` when nothing matches. */
  function Classify(v: string): Option<ValueType> {
    if |v| > 0 && v[0] == '{' then Some(Object)
    else if |v| > 0 && v[0] == '[' then Some(Array)
    else if |v| > 0 && v[0] == '"' then Some(Str)
    else if v == "true" || v == "false" then Some(Boolean)
    else if v == "null" then Some(Null)
    else if IsNumeric(v) then Some(Number)
    else None
  }

  /** Each type is chosen exactly when its test succeeds and no earlier test
      did. */
  lemma ClassifyCases(v: string)
    ensures Classify(v) == Some(Object) <==> |v| > 0 && v[0] == '{'
    ensures Classify(v) == Some(Array) <==> |v| > 0 && v[0] == '['
    ensures Classify(v) == Some(Str) <==> |v| > 0 && v[0] == '"'
    ensures Classify(v) == Some(Boolean) <==> v == "true" || v == "false"
    ensures Classify(v) == Some(Null) <==> v == "null"
    ensures Classify(v) == Some(Number) <==> (|v| == 0 || v[0] !in "{[\"") && v !in {"true", "false", "null"} && IsNumeric(v)
    ensures Classify(v) == None <==> (|v| == 0 || v[0] !in "{[\"") && v !in {"true", "false", "null"} && !IsNumeric(v)
  {
  }

  predicate IsContainer(t: Option<ValueType>) {
    t == Some(Object) || t == Some(Array)
  }

  /** `value.replace(/^"|"$/g, "")` on text that starts with a quote: the
      leading quote, and a trailing one if another quote ends the text. */
  function StripQuotes(v: string): string
    requires |v| > 0 && v[0] == '"'
  {
    var inner := v[1..];
    if |inner| > 0 && inner[|inner| - 1] == '"' then inner[..|inner| - 1] else inner
  }

  /** A quoted text loses exactly its two quotes. */
  lemma StripQuotesRoundTrip(s: string)
    ensures StripQuotes("\"" + s + "\"") == s
  {
    assert ("\"" + s + "\"")[1..] == s + "\"";
  }

  /** A string left open while typing still loses its opening quote, and
      nothing else. */
  lemma StripQuotesUnterminated(s: string)
    requires s == [] || s[|s| - 1] != '"'
    ensures StripQuotes("\"" + s) == s
  {
    assert ("\"" + s)[1..] == s;
  }

  /** The text kept as a scalar's `value`: strings without their quotes. */
  function ScalarValue(v: string, t: Option<ValueType>): string {
    if t == Some(Str) && |v| > 0 && v[0] == '"' then StripQuotes(v) else v
  }

  /** `line.indexOf("\"" + key + "\"") + 2`: the 1-based column of the key's
      first character. */
  function KeyStartColumn(line: string, key: string): int {
    IndexOf(line, "\"" + key + "\"") + 2
  }

  /** `line.indexOf(":") + 2`: two columns after the 0-based index of the
      line's first colon. */
  function ValueStartColumn(line: string): int {
    IndexOf(line, ":") + 2
  }

  /** Where the lazy `(.*?)` of `^(.*?)(,|\s*$)` can stop: at a comma, or
      where only white space is left. */
  predicate StopsAt(s: string, k: nat)
    requires k <= |s|
  {
    (k < |s| && s[k] == ',') || AllSpaces(s[k..])
  }

  /** The length of group 1 of `^(.*?)(,|\s*$)` on `s`: the shortest
      single-line prefix followed by a comma or by trailing white space;
      `None` when the regular expression does not match. */
  function ValueMatchLength(s: string): (r: Option<nat>)
    ensures r.Some? ==> r.value <= |s| && SingleLine(s[..r.value]) && StopsAt(s, r.value)
    ensures r.Some? ==> forall k :: 0 <= k < r.value ==> !StopsAt(s, k)
    ensures r.None? ==> forall k :: 0 <= k <= |s| && SingleLine(s[..k]) ==> !StopsAt(s, k)
  {
    if StopsAt(s, 0) then Some(0)
    else if IsLineTerminator(s[0]) then
      assert forall k :: 0 < k <= |s| ==> !SingleLine(s[..k]) by {
        forall k | 0 < k <= |s| ensures !SingleLine(s[..k]) { assert s[..k][0] == s[0]; }
      }
      None
    else
      var r := ValueMatchLength(s[1..]);
      assert forall k :: 0 <= k < |s| ==> (StopsAt(s, k + 1) <==> StopsAt(s[1..], k)) by {
        forall k | 0 <= k < |s| ensures StopsAt(s, k + 1) <==> StopsAt(s[1..], k) {
          assert s[k + 1..] == s[1..][k..];
        }
      }
      assert forall k :: 0 <= k < |s| ==> (SingleLine(s[..k + 1]) <==> SingleLine(s[1..][..k])) by {
        forall k | 0 <= k < |s| ensures SingleLine(s[..k + 1]) <==> SingleLine(s[1..][..k]) {
          assert s[..k + 1] == [s[0]] + s[1..][..k];
        }
      }
      match r
      case None =>
        assert forall k :: 0 < k <= |s| && SingleLine(s[..k]) ==> !StopsAt(s, k) by {
          forall k | 0 < k <= |s| && SingleLine(s[..k]) ensures !StopsAt(s, k) {
            assert SingleLine(s[1..][..k - 1]);
          }
        }
        None
      case Some(n) =>
        assert forall k :: 0 < k < n + 1 ==> !StopsAt(s, k) by {
          forall k | 0 < k < n + 1 ensures !StopsAt(s, k) { assert !StopsAt(s[1..], k - 1); }
        }
        Some(n + 1)
  }

  /** `line.slice(from)` for a non-negative offset. */
  function SliceFrom(line: string, from: nat): string {
    if from <= |line| then line[from..] else []
  }

  /** The end column of a scalar's block: the value column plus the length
      of the text starting there up to the first comma or the trailing white
      space; the value column plus the value's length when that text has no
      such end on its first line. */
  function ScalarBlockEnd(line: string, valueStart: nat, value: string): int {
    match ValueMatchLength(SliceFrom(line, valueStart))
    case Some(n) => valueStart + n
    case None => valueStart + |value|
  }

  /** On a single-line declaration the regular expression always matches, so
      the fallback is never taken: the block ends before the first comma (or
      the trailing white space) after the value column. */
  lemma ScalarBlockEndOnSingleLine(line: string, valueStart: nat, value: string)
    requires SingleLine(line)
    ensures var s := SliceFrom(line, valueStart);
      exists n :: 0 <= n <= |s| && ScalarBlockEnd(line, valueStart, value) == valueStart + n
        && StopsAt(s, n) && forall k :: 0 <= k < n ==> !StopsAt(s, k)
  {
    var s := SliceFrom(line, valueStart);
    assert SingleLine(s[..|s|]) by {
      forall i | 0 <= i < |s| ensures !IsLineTerminator(s[..|s|][i]) {
        assert s[i] == line[valueStart + i];
      }
    }
    assert StopsAt(s, |s|);
  }
}
