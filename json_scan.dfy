/**
 * The line scan of `useJsonLineMap`, as a specification: what each line
 * contributes (its effect, which depends only on the lines), and the fold
 * of those effects over a stack of open objects and arrays and the list of
 * nodes recorded so far.
 */
module JsonScan {
  import opened Strings
  import opened Optional
  import opened JsonLine
  import opened JsonBlock

  /** A member line's node.  `parent` is the id of the innermost open object
      or array; `dependencies` says whether the node can have children. */
  datatype JsonNode = JsonNode(
    id: string,
    name: string,
    value: Option<string>,
    valueType: Option<ValueType>,
    range: Range,
    block: Position,
    level: nat,
    parent: Option<string>,
    dependencies: bool,
    expanded: bool)

  /** The node id made from the running counter: `n-0`, `n-1`, ... */
  function Id(k: nat): (r: string)
    ensures |r| > 2 && r[..2] == "n-"
  {
    "n-" + NatToString(k)
  }

  /** Distinct counters give distinct ids. */
  lemma IdInjective(a: nat, b: nat)
    requires Id(a) == Id(b)
    ensures a == b
  {
    assert Id(a)[2..] == NatToString(a);
    assert Id(b)[2..] == NatToString(b);
    NatToStringInjective(a, b);
  }

  /** The delimiters counted for a container: brackets for an array, braces
      otherwise. */
  function Opener(t: ValueType): char {
    if t == Array then '[' else '{'
  }

  function Closer(t: ValueType): char {
    if t == Array then ']' else '}'
  }

  /** What one line does to the scan.  A declaration carries every field of
      the node it creates that does not depend on the scan's state. */
  datatype LineEffect =
    | Closes
    | Ignored
    | Declares(name: string, value: Option<string>, valueType: Option<ValueType>, range: Range, block: Position)

  /** A block end `b` for line `index` and value type `t`: an object's or
      array's block ends on a closer of its kind at or after the declaration
      line, or keeps the fallback column on the declaration line; a scalar's
      block ends on its line. */
  predicate BlockEndFits(lines: seq<string>, index: nat, t: Option<ValueType>, fallbackColumn: int, b: (int, int)) {
    && (IsContainer(t) ==>
      || b == (index + 1, fallbackColumn)
      || (index < b.0 <= |lines| && 0 < b.1 <= |lines[b.0 - 1]| && lines[b.0 - 1][b.1 - 1] == Closer(t.value)))
    && (!IsContainer(t) ==> b.0 == index + 1)
  }

  /** The delimiter search fits, for an object or an array. */
  lemma ContainerEndFits(lines: seq<string>, index: nat, t: Option<ValueType>, fallbackColumn: int)
    requires index < |lines| && IsContainer(t)
    ensures BlockEndFits(lines, index, t, fallbackColumn,
      BlockEndSpec(lines, index, Opener(t.value), Closer(t.value), (index + 1, fallbackColumn)))
  {
    BlockEndAtCloser(lines, index, Opener(t.value), Closer(t.value), (index + 1, fallbackColumn));
  }

  /** The block end for a value of type `t`: the delimiter search for an
      object or an array, with `fallbackColumn` when it finds no balancing
      closer, and `scalarEnd` on the declaration line otherwise. */
  function BlockEndFor(lines: seq<string>, index: nat, t: Option<ValueType>, fallbackColumn: int, scalarEnd: int): (b: (int, int))
    requires index < |lines|
    ensures BlockEndFits(lines, index, t, fallbackColumn, b)
  {
    if IsContainer(t) then
      ContainerEndFits(lines, index, t, fallbackColumn);
      BlockEndSpec(lines, index, Opener(t.value), Closer(t.value), (index + 1, fallbackColumn))
    else (index + 1, scalarEnd)
  }

  /** Where the block of member line `index` ends: at the closer that
      balances the value's opening delimiter (objects and arrays), or where
      the value pattern stops after the value column (everything else).  It
      fits, with the value column plus the value's length as the fallback. */
  function MemberBlockEnd(lines: seq<string>, index: nat, rest: string): (b: (int, int))
    requires index < |lines|
    ensures var t := Classify(ValueText(rest));
      BlockEndFits(lines, index, t, ValueStartColumn(lines[index]) + |ScalarValue(ValueText(rest), t)|, b)
  {
    var line := lines[index];
    var text := ValueText(rest);
    var t := Classify(text);
    var value := ScalarValue(text, t);
    var valueStart := ValueStartColumn(line);
    BlockEndFor(lines, index, t, valueStart + |value|, ScalarBlockEnd(line, valueStart, value))
  }

  /** The fields of the node for member line `index` with key `key`,
      captured rest `rest` and block end `blockEnd`: the value text and its
      type, and the key and value columns found by searching the raw line. */
  function MemberDeclares(lines: seq<string>, index: nat, key: string, rest: string, blockEnd: (int, int)): LineEffect
    requires index < |lines|
  {
    var line := lines[index];
    var lineNum := index + 1;
    var text := ValueText(rest);
    var t := Classify(text);
    var value := ScalarValue(text, t);
    var keyStart := KeyStartColumn(line, key);
    var valueStart := ValueStartColumn(line);
    Declares(key, if IsContainer(t) then None else Some(value), t,
             Range(Position(lineNum, keyStart, lineNum, keyStart + |key| + 1),
                   Position(lineNum, valueStart, lineNum, |line|)),
             Position(lineNum, valueStart, blockEnd.0, blockEnd.1))
  }

  function MemberEffect(lines: seq<string>, index: nat, key: string, rest: string): LineEffect
    requires index < |lines|
  {
    MemberDeclares(lines, index, key, rest, MemberBlockEnd(lines, index, rest))
  }

  /** The effect of line `index`. */
  function Effect(lines: seq<string>, index: nat): LineEffect
    requires index < |lines|
  {
    match ClassifyLine(lines[index])
    case Close => Closes
    case Skip => Ignored
    case Member(key, rest) => MemberEffect(lines, index, key, rest)
  }

  function Effects(lines: seq<string>): (r: seq<LineEffect>)
    ensures |r| == |lines|
  {
    seq(|lines|, i requires 0 <= i < |lines| => Effect(lines, i))
  }

  /** The key columns of a member line's node: the key starts two columns
      after the 0-based index of the first `"key"` in the raw line (so at
      its first character, 1-based) and ends `|key| + 1` columns later.  An
      index of -1 (no occurrence) is used as it is. */
  predicate KeyColumnsOk(line: string, index: nat, key: string, name: string, k: Position) {
    var ks := k.startColumn - 2;
    && name == key
    && k.startLineNumber == k.endLineNumber == index + 1
    && (ks == -1 || IsAt(line, "\"" + key + "\"", ks))
    && (forall i :: 0 <= i < |line| && (ks == -1 || i < ks) ==> !IsAt(line, "\"" + key + "\"", i))
    && k.endColumn == k.startColumn + |key| + 1
  }

  /** The value columns: the value starts two columns after the first
      colon and ends at the line's length; the block starts where the value
      does. */
  predicate ValueColumnsOk(line: string, index: nat, v: Position, block: Position) {
    var vs := v.startColumn - 2;
    && v.startLineNumber == v.endLineNumber == index + 1
    && (vs == -1 || (0 <= vs < |line| && line[vs] == ':'))
    && (forall i :: 0 <= i < |line| && (vs == -1 || i < vs) ==> line[i] != ':')
    && v.endColumn == |line|
    && block.startLineNumber == index + 1 && block.startColumn == v.startColumn
  }

  predicate ColumnsOk(line: string, index: nat, key: string, e: LineEffect) {
    && e.Declares?
    && KeyColumnsOk(line, index, key, e.name, e.range.key)
    && ValueColumnsOk(line, index, e.range.value, e.block)
  }

  /** `indexOf(":")` is the first colon of the line, or -1 when it has none. */
  lemma FirstColon(line: string)
    ensures var vs := IndexOf(line, ":");
      && (vs == -1 || (0 <= vs < |line| && line[vs] == ':'))
      && (forall i :: 0 <= i < |line| && (vs == -1 || i < vs) ==> line[i] != ':')
  {
    var vs := IndexOf(line, ":");
    forall i | 0 <= i < |line| && (vs == -1 || i < vs) ensures line[i] != ':' {
      assert !IsAt(line, ":", i);
      assert line[i..i + 1] == [line[i]];
    }
    if vs >= 0 {
      assert IsAt(line, ":", vs);
      assert line[vs..vs + 1][0] == line[vs];
    }
  }

  lemma DeclaresColumns(lines: seq<string>, index: nat, key: string, rest: string, blockEnd: (int, int))
    requires index < |lines|
    ensures ColumnsOk(lines[index], index, key, MemberDeclares(lines, index, key, rest, blockEnd))
  {
    var line := lines[index];
    var e := MemberDeclares(lines, index, key, rest, blockEnd);
    assert KeyColumnsOk(line, index, key, e.name, e.range.key);
    FirstColon(line);
    assert e.range.value.startColumn == e.block.startColumn == IndexOf(line, ":") + 2;
    assert ValueColumnsOk(line, index, e.range.value, e.block);
  }

  /** A decomposed member line starts with the quoted key and has its
      colon after the key and the white space that follows it. */
  lemma DecompositionParts(t: string, key: string, ws1: string, ws2: string, rest: string, tail: string)
    requires MemberDecomposition(t, key, ws1, ws2, rest, tail)
    ensures var q := "\"" + key + "\"";
      |q| + |ws1| < |t| && t[..|q|] == q && t[|q| + |ws1|] == ':'
  {
    var q := "\"" + key + "\"";
    assert t == q + (ws1 + ":" + ws2 + rest + tail);
    assert (ws1 + ":" + ws2 + rest + tail)[|ws1|] == ':';
  }

  /** What occurs in a slice of a line occurs in the line. */
  lemma SliceFound(line: string, t: string, a: nat, q: string, c: nat)
    requires a + |t| <= |line| && t == line[a..a + |t|]
    requires |q| <= |t| && t[..|q|] == q && c < |t| && t[c] == ':'
    ensures Contains(line, q) && Contains(line, ":")
  {
    assert line[a..a + |q|] == t[..|q|];
    assert IsAt(line, q, a);
    assert line[a + c] == ':';
    assert IsAt(line, ":", a + c) by { assert line[a + c..a + c + 1] == [line[a + c]]; }
  }

  /** When the trimmed line decomposes as a member, the quoted key and its
      colon occur in the raw line. */
  lemma DecomposedLineFound(line: string, key: string, ws1: string, ws2: string, rest: string, tail: string)
    requires MemberDecomposition(Trim(line), key, ws1, ws2, rest, tail)
    ensures Contains(line, "\"" + key + "\"") && Contains(line, ":")
  {
    var t := Trim(line);
    DecompositionParts(t, key, ws1, ws2, rest, tail);
    var q := "\"" + key + "\"";
    SliceFound(line, t, LeadingSpaces(line), q, |q| + |ws1|);
  }

  /** On a member line the quoted key and a colon both occur in the raw
      line: the trimmed line the pattern matched is a slice of it. */
  lemma MemberFound(line: string, key: string, rest: string)
    requires ClassifyLine(line) == Member(key, rest)
    ensures Contains(line, "\"" + key + "\"") && Contains(line, ":")
  {
    assert MatchMember(Trim(line)) == Some((key, rest));
    var ws1, ws2, tail := MatchMemberSound(Trim(line));
    DecomposedLineFound(line, key, ws1, ws2, rest, tail);
  }

  /** The node of a member line has the columns above, and both searches
      succeed: the key column is the key's first character, 1-based, and
      the value column is one past the colon. */
  lemma MemberColumns(lines: seq<string>, index: nat, key: string, rest: string)
    requires index < |lines| && ClassifyLine(lines[index]) == Member(key, rest)
    ensures ColumnsOk(lines[index], index, key, Effect(lines, index))
    ensures Effect(lines, index).range.key.startColumn >= 2 && Effect(lines, index).range.value.startColumn >= 2
  {
    DeclaresColumns(lines, index, key, rest, MemberBlockEnd(lines, index, rest));
    MemberFound(lines[index], key, rest);
  }

  /** A member line holding an object or an array ends its block at the
      1-based position of a closer of its kind, on that line or a later
      one, or keeps the value column plus the value's length on the
      declaration line.  A scalar's block stays on its line. */
  predicate BlockEndOk(lines: seq<string>, index: nat, rest: string, e: LineEffect) {
    var t := Classify(ValueText(rest));
    && e.Declares?
    && BlockEndFits(lines, index, t, e.block.startColumn + |ScalarValue(ValueText(rest), t)|, (e.block.endLineNumber, e.block.endColumn))
  }

  /** A declaration's block starts at the value column and ends at the
      block end it was given. */
  lemma DeclaresBlock(lines: seq<string>, index: nat, key: string, rest: string, b: (int, int))
    requires index < |lines|
    ensures var e := MemberDeclares(lines, index, key, rest, b);
      e.Declares? && e.block == Position(index + 1, ValueStartColumn(lines[index]), b.0, b.1)
  {
  }

  lemma DeclaresFittingEnd(lines: seq<string>, index: nat, key: string, rest: string, b: (int, int))
    requires index < |lines|
    requires var t := Classify(ValueText(rest));
      BlockEndFits(lines, index, t, ValueStartColumn(lines[index]) + |ScalarValue(ValueText(rest), t)|, b)
    ensures BlockEndOk(lines, index, rest, MemberDeclares(lines, index, key, rest, b))
  {
    var e := MemberDeclares(lines, index, key, rest, b);
    DeclaresBlock(lines, index, key, rest, b);
    assert (e.block.endLineNumber, e.block.endColumn) == b;
    assert e.block.startColumn == ValueStartColumn(lines[index]);
  }

  lemma DeclaresBlockEnd(lines: seq<string>, index: nat, key: string, rest: string)
    requires index < |lines|
    ensures BlockEndOk(lines, index, rest, MemberEffect(lines, index, key, rest))
  {
    DeclaresFittingEnd(lines, index, key, rest, MemberBlockEnd(lines, index, rest));
  }

  /** The node of a member line ends its block as above. */
  lemma MemberBlockEndAt(lines: seq<string>, index: nat, key: string, rest: string)
    requires index < |lines| && ClassifyLine(lines[index]) == Member(key, rest)
    ensures BlockEndOk(lines, index, rest, Effect(lines, index))
  {
    DeclaresBlockEnd(lines, index, key, rest);
  }

  /** The scan's state after some lines: the open containers (as positions
      in `nodes`, innermost last) and the nodes recorded so far. */
  datatype ScanState = ScanState(stack: seq<nat>, nodes: seq<JsonNode>)

  predicate StackInRange(s: ScanState) {
    forall t :: 0 <= t < |s.stack| ==> s.stack[t] < |s.nodes|
  }

  /** The id of the innermost open container, if any: the new node's parent. */
  function ParentId(s: ScanState): Option<string>
    requires StackInRange(s)
  {
    if |s.stack| > 0 then Some(s.nodes[s.stack[|s.stack| - 1]].id) else None
  }

  /** `stack.pop()`, which does nothing on an empty stack. */
  function Pop(s: ScanState): (r: ScanState)
    requires StackInRange(s)
    ensures StackInRange(r)
  {
    if |s.stack| > 0 then ScanState(s.stack[..|s.stack| - 1], s.nodes) else s
  }

  /** The node a declaration creates, with the running counter, the parent
      and the depth of the stack; it has dependencies exactly when it has no
      value. */
  function NewNode(e: LineEffect, counter: nat, parent: Option<string>, level: nat): JsonNode
    requires e.Declares?
  {
    JsonNode(Id(counter), e.name, e.value, e.valueType, e.range, e.block, level, parent, e.value.None?, false)
  }

  /** `pushNode(node)` followed by pushing it on the stack when it is an
      object or an array. */
  function Record(s: ScanState, node: JsonNode): (r: ScanState)
    requires StackInRange(s)
    ensures StackInRange(r)
  {
    ScanState(if IsContainer(node.valueType) then s.stack + [|s.nodes|] else s.stack, s.nodes + [node])
  }

  /** One line of the scan: a closing line pops the innermost open container;
      a member line records its node under the innermost open container; any
      other line changes nothing. */
  function Step(e: LineEffect, s: ScanState): (r: ScanState)
    requires StackInRange(s)
    ensures StackInRange(r)
  {
    match e
    case Closes => Pop(s)
    case Ignored => s
    case Declares(_, _, _, _, _) => Record(s, NewNode(e, |s.nodes|, ParentId(s), |s.stack|))
  }

  /** The state after the first `n` effects. */
  function ScanUpTo(effects: seq<LineEffect>, n: nat): (r: ScanState)
    requires n <= |effects|
    ensures StackInRange(r)
  {
    if n == 0 then ScanState([], []) else Step(effects[n - 1], ScanUpTo(effects, n - 1))
  }

  /** The `nodes` the hook returns. */
  function ScanNodes(lines: seq<string>): seq<JsonNode> {
    ScanUpTo(Effects(lines), |lines|).nodes
  }

  // ---------------------------------------------------------------------
  // What the scan keeps true

  /** The position of the last node before `k` at level `lvl`, or -1. */
  function LastAtLevel(nodes: seq<JsonNode>, k: nat, lvl: nat): (r: int)
    requires k <= |nodes|
    ensures -1 <= r < k
    ensures r >= 0 ==> nodes[r].level == lvl
  {
    if k == 0 then -1 else if nodes[k - 1].level == lvl then k - 1 else LastAtLevel(nodes, k - 1, lvl)
  }

  /** No node between the one found and `k` is at that level. */
  lemma {:induction false} LastAtLevelIsLast(nodes: seq<JsonNode>, k: nat, lvl: nat, j: nat)
    requires k <= |nodes| && LastAtLevel(nodes, k, lvl) < j < k
    ensures nodes[j].level != lvl
  {
    if nodes[k - 1].level != lvl && j < k - 1 {
      LastAtLevelIsLast(nodes, k - 1, lvl, j);
    }
  }

  /** Appending nodes does not change the answer for earlier positions. */
  lemma {:induction false} LastAtLevelPrefix(nodes: seq<JsonNode>, more: seq<JsonNode>, k: nat, lvl: nat)
    requires k <= |nodes|
    ensures LastAtLevel(nodes + more, k, lvl) == LastAtLevel(nodes, k, lvl)
  {
    if k > 0 {
      assert (nodes + more)[k - 1] == nodes[k - 1];
      LastAtLevelPrefix(nodes, more, k - 1, lvl);
    }
  }

  /** Node `k` has id `Id(k)`. */
  predicate IdOk(nodes: seq<JsonNode>, k: nat)
    requires k < |nodes|
  {
    nodes[k].id == Id(k)
  }

  predicate IdsWf(nodes: seq<JsonNode>) {
    forall k :: 0 <= k < |nodes| ==> IdOk(nodes, k)
  }

  /** Node `k` has no parent exactly at level 0; otherwise its parent is the
      nearest node before it one level up, and that node is an object or an
      array. */
  predicate ParentOk(nodes: seq<JsonNode>, k: nat)
    requires k < |nodes|
  {
    if nodes[k].level == 0 then nodes[k].parent.None?
    else
      var p := LastAtLevel(nodes, k, nodes[k].level - 1);
      p >= 0 && IsContainer(nodes[p].valueType) && nodes[k].parent == Some(Id(p))
  }

  predicate ParentsWf(nodes: seq<JsonNode>) {
    forall k :: 0 <= k < |nodes| ==> ParentOk(nodes, k)
  }

  /** Node `k` is at most one level deeper than the node before it, and
      deeper only when that node is an object or an array; the first node is
      at level 0. */
  predicate LevelOk(nodes: seq<JsonNode>, k: nat)
    requires k < |nodes|
  {
    if k == 0 then nodes[k].level == 0
    else nodes[k].level <= nodes[k - 1].level + (if IsContainer(nodes[k - 1].valueType) then 1 else 0)
  }

  predicate LevelsWf(nodes: seq<JsonNode>) {
    forall k :: 0 <= k < |nodes| ==> LevelOk(nodes, k)
  }

  /** The stack entry at depth `t` is the last node at level `t`, and it is an
      object or an array. */
  predicate StackOk(s: ScanState, t: nat)
    requires StackInRange(s) && t < |s.stack|
  {
    s.stack[t] == LastAtLevel(s.nodes, |s.nodes|, t) && IsContainer(s.nodes[s.stack[t]].valueType)
  }

  /** The stack is no deeper than the last node's level, plus one when that
      node is an object or an array. */
  predicate HeightOk(s: ScanState) {
    if |s.nodes| == 0 then |s.stack| == 0
    else
      var last := s.nodes[|s.nodes| - 1];
      |s.stack| <= last.level + (if IsContainer(last.valueType) then 1 else 0)
  }

  predicate StackWf(s: ScanState) {
    StackInRange(s) && HeightOk(s) && forall t :: 0 <= t < |s.stack| ==> StackOk(s, t)
  }

  /** What the scan keeps true. */
  predicate ScanWf(s: ScanState) {
    IdsWf(s.nodes) && ParentsWf(s.nodes) && LevelsWf(s.nodes) && StackWf(s)
  }

  lemma PopWf(s: ScanState)
    requires ScanWf(s)
    ensures ScanWf(Pop(s))
  {
    var r := Pop(s);
    forall t | 0 <= t < |r.stack| ensures StackOk(r, t) {
      assert StackOk(s, t);
    }
  }

  lemma RecordIds(s: ScanState, node: JsonNode)
    requires StackInRange(s) && IdsWf(s.nodes) && node.id == Id(|s.nodes|)
    ensures IdsWf(Record(s, node).nodes)
  {
    var nodes := Record(s, node).nodes;
    forall k | 0 <= k < |nodes| ensures IdOk(nodes, k) {
      if k < |s.nodes| {
        assert IdOk(s.nodes, k);
      }
    }
  }

  /** A node recorded earlier keeps its parent. */
  lemma OldParent(nodes: seq<JsonNode>, node: JsonNode, k: nat)
    requires k < |nodes| && ParentOk(nodes, k)
    ensures ParentOk(nodes + [node], k)
  {
    assert (nodes + [node])[k] == nodes[k];
    if nodes[k].level > 0 {
      LastAtLevelPrefix(nodes, [node], k, nodes[k].level - 1);
    }
  }

  /** The new node's parent is the stack top. */
  lemma NewParent(s: ScanState, node: JsonNode)
    requires ScanWf(s) && node.parent == ParentId(s) && node.level == |s.stack|
    ensures ParentOk(s.nodes + [node], |s.nodes|)
  {
    if |s.stack| > 0 {
      var d := |s.stack| - 1;
      LastAtLevelPrefix(s.nodes, [node], |s.nodes|, d);
      assert StackOk(s, d);
      assert IdOk(s.nodes, s.stack[d]);
    }
  }

  lemma RecordParents(s: ScanState, node: JsonNode)
    requires ScanWf(s) && node.parent == ParentId(s) && node.level == |s.stack|
    ensures ParentsWf(Record(s, node).nodes)
  {
    var nodes := s.nodes + [node];
    assert Record(s, node).nodes == nodes;
    forall k | 0 <= k < |nodes| ensures ParentOk(nodes, k) {
      if k < |s.nodes| {
        assert ParentOk(s.nodes, k);
        OldParent(s.nodes, node, k);
      } else {
        NewParent(s, node);
      }
    }
  }

  lemma RecordLevels(s: ScanState, node: JsonNode)
    requires StackInRange(s) && LevelsWf(s.nodes) && HeightOk(s) && node.level == |s.stack|
    ensures LevelsWf(Record(s, node).nodes)
  {
    var nodes := s.nodes + [node];
    assert Record(s, node).nodes == nodes;
    forall k | 0 <= k < |nodes| ensures LevelOk(nodes, k) {
      if k < |s.nodes| {
        assert LevelOk(s.nodes, k);
        assert nodes[k] == s.nodes[k];
        if k > 0 {
          assert nodes[k - 1] == s.nodes[k - 1];
        }
      }
    }
  }

  lemma RecordStack(s: ScanState, node: JsonNode)
    requires ScanWf(s) && node.level == |s.stack|
    ensures StackWf(Record(s, node))
  {
    var r := Record(s, node);
    forall t | 0 <= t < |r.stack| ensures StackOk(r, t) {
      if t < |s.stack| {
        assert StackOk(s, t);
        LastAtLevelPrefix(s.nodes, [node], |s.nodes|, t);
        assert r.nodes[s.stack[t]] == s.nodes[s.stack[t]];
      }
    }
  }

  lemma StepWf(e: LineEffect, s: ScanState)
    requires ScanWf(s)
    ensures ScanWf(Step(e, s))
  {
    match e
    case Closes => PopWf(s);
    case Ignored =>
    case Declares(_, _, _, _, _) =>
      var node := NewNode(e, |s.nodes|, ParentId(s), |s.stack|);
      RecordIds(s, node);
      RecordParents(s, node);
      RecordLevels(s, node);
      RecordStack(s, node);
  }

  lemma {:induction false} ScanUpToWf(effects: seq<LineEffect>, n: nat)
    requires n <= |effects|
    ensures ScanWf(ScanUpTo(effects, n))
  {
    if n > 0 {
      ScanUpToWf(effects, n - 1);
      StepWf(effects[n - 1], ScanUpTo(effects, n - 1));
    }
  }

  // ---------------------------------------------------------------------
  // Which lines create nodes

  /** The lines among the first `n` that declare a member, in order. */
  function Declared(effects: seq<LineEffect>, n: nat): seq<nat>
    requires n <= |effects|
  {
    if n == 0 then [] else Declared(effects, n - 1) + (if effects[n - 1].Declares? then [n - 1] else [])
  }

  /** `Declared` lists exactly the declaring lines, in increasing order. */
  lemma {:induction false} DeclaredExactly(effects: seq<LineEffect>, n: nat)
    requires n <= |effects|
    ensures var d := Declared(effects, n);
      && (forall k :: 0 <= k < |d| ==> d[k] < n && effects[d[k]].Declares?)
      && (forall a, b :: 0 <= a < b < |d| ==> d[a] < d[b])
      && (forall i :: 0 <= i < n && effects[i].Declares? ==> i in d)
  {
    if n > 0 {
      DeclaredExactly(effects, n - 1);
      var d0 := Declared(effects, n - 1);
      var d := Declared(effects, n);
      assert d == d0 + (if effects[n - 1].Declares? then [n - 1] else []);
      forall i | 0 <= i < n && effects[i].Declares? ensures i in d {
        if i < n - 1 {
          var k :| 0 <= k < |d0| && d0[k] == i;
          assert d[k] == i;
        } else {
          assert d[|d0|] == i;
        }
      }
    }
  }

  /** The node carries the fields of the declaration that created it. */
  predicate Carries(node: JsonNode, e: LineEffect) {
    && e.Declares?
    && node.name == e.name && node.value == e.value && node.valueType == e.valueType
    && node.range == e.range && node.block == e.block
    && node.dependencies == e.value.None? && !node.expanded
  }

  predicate CarriesAt(effects: seq<LineEffect>, nodes: seq<JsonNode>, d: seq<nat>, k: nat)
    requires k < |nodes| && k < |d|
  {
    d[k] < |effects| && Carries(nodes[k], effects[d[k]])
  }

  /** One node per declaring line, in line order: node `k` carries the
      fields of the `k`-th declaring line. */
  lemma {:induction false} ScanFollowsDeclarations(effects: seq<LineEffect>, n: nat)
    requires n <= |effects|
    ensures var nodes := ScanUpTo(effects, n).nodes;
      var d := Declared(effects, n);
      |nodes| == |d| && forall k :: 0 <= k < |d| ==> CarriesAt(effects, nodes, d, k)
  {
    if n > 0 {
      ScanFollowsDeclarations(effects, n - 1);
      var s := ScanUpTo(effects, n - 1);
      var nodes := ScanUpTo(effects, n).nodes;
      var d0 := Declared(effects, n - 1);
      var d := Declared(effects, n);
      forall k | 0 <= k < |d| ensures CarriesAt(effects, nodes, d, k) {
        if k < |d0| {
          assert CarriesAt(effects, s.nodes, d0, k);
          assert nodes[k] == s.nodes[k] && d[k] == d0[k];
        }
      }
    }
  }

  /** Nodes, once recorded, are never changed or removed by later lines;
      closing lines and skipped lines add none. */
  lemma {:induction false} ScanPrefix(effects: seq<LineEffect>, m: nat, n: nat)
    requires m <= n <= |effects|
    ensures ScanUpTo(effects, m).nodes <= ScanUpTo(effects, n).nodes
    ensures |ScanUpTo(effects, n).nodes| == |ScanUpTo(effects, m).nodes| + |Declared(effects, n)| - |Declared(effects, m)|
    decreases n
  {
    if m < n {
      ScanPrefix(effects, m, n - 1);
    }
  }

  /** The ids of the returned nodes are `n-0`, `n-1`, ... in order, so no
      two are equal. */
  lemma IdsDistinct(lines: seq<string>)
    ensures var nodes := ScanNodes(lines);
      && (forall k :: 0 <= k < |nodes| ==> nodes[k].id == Id(k))
      && (forall j, k :: 0 <= j < k < |nodes| ==> nodes[j].id != nodes[k].id)
  {
    ScanUpToWf(Effects(lines), |lines|);
    var nodes := ScanNodes(lines);
    forall k | 0 <= k < |nodes| ensures nodes[k].id == Id(k) {
      assert IdOk(nodes, k);
    }
    forall j, k | 0 <= j < k < |nodes| ensures nodes[j].id != nodes[k].id {
      if nodes[j].id == nodes[k].id {
        IdInjective(j, k);
      }
    }
  }
}
