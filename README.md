# devkitto text tools, modelled in Dafny

devkitto is a desktop toolbox written in TypeScript and React. This project
models the parts of it that compute something from text:

- **`useJsonLineMap`** (`src/hooks/use-json-line-map.ts`). This hook reads a
  pretty-printed JSON document line by line. For every `"key": value` line it
  records a node with:
  - the value's type;
  - the columns of the key and the value;
  - the span of the value's block;
  - its depth and its parent.

  A stack of open objects and arrays tracks depth and parent. A closing `}`
  or `]` line pops it. The flat node list is then assembled into a tree
  through a map from node id to children.
- **The tree toggle** of the JSON editor (`src/components/editor.tsx`). It
  sets the `expanded` flag of the node with a given id.
- **The Monaco editor's text tools:**
  - `formatXML`, the naive XML pretty-printer;
  - `formatContent`, which formats JSON or XML and keeps the text when
    formatting throws (`src/hooks/use-monaco-editor.ts`, and its copy in
    `src/components/monaco-editor.tsx`);
  - the CSV preview split;
  - the line-by-line YAML check with its warning markers.
- **The search of the HTML entity table**
  (`src/plugins/html-special-chars/index.tsx` over the table in `typed.ts`).

Modules:

| module | file | models |
|---|---|---|
| `Strings` | strings.dfy | the JavaScript string operations used: `trim` (with JavaScript's white-space set), `indexOf`, `includes`, `split` at one character and at `\r?\n`, decimal printing, ASCII `toLowerCase` |
| `JsNumber` | js_number.dfy | `!isNaN(Number(s))`: the string is a StringNumericLiteral of the ECMAScript grammar (the empty string is 0) |
| `JsonLine` | json_line.dfy | one line of the hook: the member pattern, the value text and its type, the key and value columns, the scalar block end |
| `JsonBlock` | json_block.dfy | the nested delimiter-counting loops that find the end of an object's or array's block, as methods, proved against a specification |
| `JsonScan` | json_scan.dfy | what each line does to the scan, the scan as a fold over lines, and its invariants (ids, levels, parents, stack) |
| `JsonForest` | json_tree.dfy | the tree the assembly builds, and where each node ends up |
| `JsonLineMap` | json_line_map.dfy | the hook itself, as methods with the per-line loop, the drain loop and the two assembly loops over a map |
| `TreeToggle` | tree_toggle.dfy | the recursive `toggle(tree, id, expanded)` |
| `XmlFormat` | xml_format.dfy | `formatXML` (the loop as a method) and the hook's `formatContent` |
| `MonacoEditor` | monaco_editor.dfy | `parseCSV`, `validateYAML`, and the component's `formatContent` as a method on an editor buffer |
| `HtmlSpecialChars` | html_special_chars.dfy | the 29-entry table and its search filter |

The operations that change state in the source are methods whose `ensures`
tie the result to a specification function:
- `UseJsonLineMap`, `FindBlockEnd` and `AssembleTree`;
- `FormatXml` and `ValidateYaml`;
- `EditorBuffer.FormatContent`.

The properties are lemmas about those functions. Regular expressions are
modelled by predicates that say what they match. JavaScript's `.` excludes
`\n`, `\r`, U+2028 and U+2029, and `\s` is JavaScript's white-space set.

Where the code and the hook's description differ, the model follows the
code:
- The key's end column is computed at line 131 as `startColumn + |key| + 1`.
  The unused `keyEndCol` at line 185 uses `- 1`.
- A closing line writes its end position into a range that no node holds
  (lines 99-108). So a node's `range.value` always ends on its own line.

## Model

| member | source | states |
|---|---|---|
| Strings.Trim | src/hooks/use-json-line-map.ts:75 | `trim` removes exactly the leading and the trailing white space: the result is a slice of the input, empty exactly when the input is all white space, and otherwise starts and ends with a non-space |
| Strings.IndexOf | src/hooks/use-json-line-map.ts:130-132 | `indexOf` is the first occurrence, or -1 exactly when there is none |
| Strings.SplitOnJoin | src/components/monaco-editor.tsx:149 | splitting at a character and joining with it gives the text back; there is one piece more than there are separators, and no piece holds one |
| Strings.SplitLinesCount | src/components/monaco-editor.tsx:148 | splitting at `\r?\n` gives one piece more than there are line feeds, and no piece holds a line feed |
| Strings.SplitLinesJoin | src/components/monaco-editor.tsx:148 | for text without carriage returns, joining the pieces with `\n` gives the text back |
| Strings.NatToStringInjective | src/hooks/use-json-line-map.ts:190 | distinct numbers print as distinct decimals |
| Strings.Lower | src/plugins/html-special-chars/index.tsx:17 | `toLowerCase` keeps the length and lowers each ASCII capital, leaving every other character |
| JsNumber.EmptyIsNumeric | src/hooks/use-json-line-map.ts:124 | `Number("")` is 0, so an empty value classifies as a number |
| JsNumber.DecimalWithExponentIsNumeric | src/hooks/use-json-line-map.ts:124 | every decimal `[+-]digits.digits e [+-]digits` with at least one mantissa digit, signed or not, is numeric |
| JsNumber.HexIsNumeric | src/hooks/use-json-line-map.ts:124 | every `0x` literal with at least one hexadecimal digit is numeric |
| JsNumber.NaNTextIsNotNumeric | src/hooks/use-json-line-map.ts:124 | the text `NaN` is not numeric |
| JsonLine.MatchMemberSound | src/hooks/use-json-line-map.ts:110-113 | when the member pattern matches, the trimmed line is a quoted non-empty quote-free key, white space, a colon, white space and the captured rest (which does not start with white space) |
| JsonLine.MatchMemberComplete | src/hooks/use-json-line-map.ts:110-113 | every line of that shape matches, with that key and rest |
| JsonLine.ClassifyCases | src/hooks/use-json-line-map.ts:117-124 | the value type, first match wins: `{` object, `[` array, `"` string, exactly `true`/`false` boolean, exactly `null` null, numeric number, otherwise none; each case holds if and only if its condition does |
| JsonLine.StripQuotesRoundTrip | src/hooks/use-json-line-map.ts:121 | stripping the quotes of a quoted text gives the text |
| JsonLine.StripQuotesUnterminated | src/hooks/use-json-line-map.ts:121 | an unterminated string loses only its opening quote and is still a string |
| JsonLine.ValueMatchLength | src/hooks/use-json-line-map.ts:172 | the lazy group of `^(.*?)(,\|\s*$)` is the shortest single-line prefix followed by a comma or trailing white space, and there is none exactly when no such prefix exists |
| JsonLine.ScalarBlockEndOnSingleLine | src/hooks/use-json-line-map.ts:170-178 | on a single-line declaration the pattern always matches, so the scalar block ends before the first comma or the trailing white space after the value column |
| JsonBlock.FindBlockEnd | src/hooks/use-json-line-map.ts:135-169 | the nested loops compute the block end the specification defines |
| JsonBlock.ScanRow | src/hooks/use-json-line-map.ts:144-167 | the inner loop over one line either stops at the closer that brings the count to zero or hands the count and the seed flag to the next line, as the specification's walk does |
| JsonBlock.BlockEndByCells | src/hooks/use-json-line-map.ts:139-169 | the block end is the first cell after the seed where the running balance of the delimiter pair returns to zero, counted over all cells from the declaration line on; without a seed or such a cell it is the fallback |
| JsonBlock.BlockEndAtCloser | src/hooks/use-json-line-map.ts:161-163 | unless it is the fallback, the block end is the 1-based position of a closing delimiter at or after the declaration line |
| JsonScan.Id | src/hooks/use-json-line-map.ts:190 | ids are `n-` followed by the counter |
| JsonScan.IdInjective | src/hooks/use-json-line-map.ts:190 | distinct counters give distinct ids |
| JsonScan.MemberColumns | src/hooks/use-json-line-map.ts:129-133 | the key starts two columns after the first `"key"` in the raw line and ends `|key| + 1` later; the value starts two columns after the first colon and ends at the line's length; the block starts at the value column; all on the declaration line. On a member line both searches succeed, so the key column is the key's first character (1-based) and the value column is one past the colon |
| JsonScan.MemberFound | src/hooks/use-json-line-map.ts:110-113 | on a member line the quoted key and a colon both occur in the raw line, since the trimmed line the pattern matched is a slice of it |
| JsonScan.MemberBlockEnd | src/hooks/use-json-line-map.ts:135-179 | an object's or array's block ends on a closing delimiter of its kind at or after the declaration line, or keeps the fallback (the value column plus the value's length); a scalar's block ends on its own line |
| JsonScan.MemberBlockEndAt | src/hooks/use-json-line-map.ts:135-182 | an object's or array's block ends at a closing delimiter of its kind, or stays at the value column plus the value's length on its line; a scalar's block ends on its line |
| JsonScan.StepWf | src/hooks/use-json-line-map.ts:69-72 | one line keeps the scan's invariant: ids are `n-k` at position `k`, every parent is the last object or array one level up, levels grow by at most one after a container, and the stack holds exactly the last container at each depth |
| JsonScan.ScanUpToWf | src/hooks/use-json-line-map.ts:74-203 | the invariant holds after every line |
| JsonScan.DeclaredExactly | src/hooks/use-json-line-map.ts:110-111 | the declaring lines are listed exactly once, in increasing order |
| JsonScan.ScanFollowsDeclarations | src/hooks/use-json-line-map.ts:189-201 | there is one node per declaring line, in line order, and node `k` carries the name, value, type, range and block of the `k`-th declaring line; it depends exactly when it has no value, and it is not expanded |
| JsonScan.ScanPrefix | src/hooks/use-json-line-map.ts:99-111 | later lines only append nodes: closing and skipped lines create none, and no existing node changes |
| JsonScan.IdsDistinct | src/hooks/use-json-line-map.ts:67-70 | node `k` has id `n-k`, so the ids of one call are distinct |
| JsonForest.ParentIndex | src/hooks/use-json-line-map.ts:69-72 | a nested node's parent is an earlier object or array one level up |
| JsonForest.ParentBefore | src/hooks/use-json-line-map.ts:71 | when a node's parent id is another node's id, the node is nested and that other node is its parent |
| JsonForest.PlacedIffNested | src/hooks/use-json-line-map.ts:237 | a node goes under a parent exactly when it is below level 0 |
| JsonForest.RootsAreTopLevel | src/hooks/use-json-line-map.ts:239-240 | the roots are exactly the level-0 nodes |
| JsonForest.RootsIncreasing | src/hooks/use-json-line-map.ts:234-242 | the roots are in node order |
| JsonForest.LaterIncreasing | src/hooks/use-json-line-map.ts:234-242 | every children list is in node order |
| JsonForest.LaterAreChildren | src/hooks/use-json-line-map.ts:237-238 | a node's children are exactly the nodes whose parent id is its id |
| JsonForest.UnderItsParent | src/hooks/use-json-line-map.ts:237-238 | a nested node is among its parent's children |
| JsonForest.OnlyUnderItsParent | src/hooks/use-json-line-map.ts:237-238 | and among no other node's |
| JsonForest.KidsAreLater | src/hooks/use-json-line-map.ts:234-242 | the children the loop collects for a node are the later nodes whose parent it is |
| JsonLineMap.UseJsonLineMap | src/hooks/use-json-line-map.ts:63-244 | the hook returns the nodes of the scan and the tree assembled from them |
| JsonLineMap.LineEffectOf | src/hooks/use-json-line-map.ts:74-113 | the per-line callback recognises a closing line first, then a member line, and skips every other line |
| JsonLineMap.MemberFields | src/hooks/use-json-line-map.ts:113-199 | a member line's node fields are the ones the specification gives |
| JsonLineMap.ScanLine | src/hooks/use-json-line-map.ts:189-202 | a closing line pops at most one container; a member line appends a node with the next id, the stack height as level and the stack top as parent, and pushes it when it is an object or an array |
| JsonLineMap.EnterIds | src/hooks/use-json-line-map.ts:217-232 | the map's keys are exactly the node ids, each with no children yet |
| JsonLineMap.PlaceNodes | src/hooks/use-json-line-map.ts:234-242 | each node goes to its parent's children when its parent id is non-empty and in the map, and to the roots otherwise, in node order |
| JsonLineMap.KidsMapIsLater | src/hooks/use-json-line-map.ts:234-242 | for the scan's nodes the map lists, for every node, exactly the later nodes whose parent it is |
| JsonLineMap.GrowIsSubtree | src/hooks/use-json-line-map.ts:218-229 | the tree read off the map is the specification's tree: each node's fields without `parent`, with its children |
| JsonLineMap.AssembleTree | src/hooks/use-json-line-map.ts:214-243 | the assembly returns the specification's forest |
| TreeToggle.ToggleIsMap | src/components/editor.tsx:260-274 | every level keeps its length and order, each element toggled on its own, and the flag is true exactly when some element matched |
| TreeToggle.ToggleSetsMatch | src/components/editor.tsx:261-263 | the node with the target id gets the requested flag and keeps every other field, children included |
| TreeToggle.ToggleFlag | src/components/editor.tsx:258-274 | the returned flag is true exactly when the id occurs in the tree |
| TreeToggle.ToggleAbsent | src/components/editor.tsx:271 | an id that occurs nowhere leaves the tree equal to the input, with the flag false |
| TreeToggle.ToggleKeepsShape | src/components/editor.tsx:263-268 | only `expanded` flags change; every other field and every level's order are kept |
| TreeToggle.ToggleKeepsOtherFlags | src/components/editor.tsx:260-274 | only nodes with the target id can change their flag: the ancestors rebuilt on the way to a match, and every other node, keep their own `expanded` flag |
| TreeToggle.ToggleIdempotent | src/components/editor.tsx:257-279 | toggling twice with the same arguments gives the tree toggling once gives |
| TreeToggle.OccursKept | src/components/editor.tsx:261-268 | an id that occurs in the tree still occurs after the toggle |
| XmlFormat.NextPad | src/hooks/use-monaco-editor.ts:90-95 | the depth changes by at most one per segment |
| XmlFormat.FormatXml | src/hooks/use-monaco-editor.ts:82-98 | the loop computes the trimmed layout, or fails exactly when the layout does |
| XmlFormat.LayoutFailsIff | src/hooks/use-monaco-editor.ts:92-94 | formatting throws exactly when a closing tag that is not an inline element comes at depth 0 |
| XmlFormat.LayoutLines | src/hooks/use-monaco-editor.ts:89-96 | the output lines are the segments in order, each behind two spaces per open element, with a final line feed |
| XmlFormat.NoBreakInPadding | src/hooks/use-monaco-editor.ts:94 | the indentation holds no line feed |
| XmlFormat.BreaksSeparateTags | src/hooks/use-monaco-editor.ts:88 | after the replace no `>` is directly followed by `<` |
| XmlFormat.BreaksAddOnlyBreaks | src/hooks/use-monaco-editor.ts:88 | the replace adds only line breaks: without CR and LF the text is unchanged |
| XmlFormat.FormatContent | src/hooks/use-monaco-editor.ts:66-78 | other languages keep the text; XML and JSON give the formatted text, or the input when formatting throws |
| MonacoEditor.CsvRowCount | src/components/monaco-editor.tsx:145-150 | there is one row more than line feeds in the trimmed text |
| MonacoEditor.CsvRowJoin | src/components/monaco-editor.tsx:149 | joining a row's cells with commas gives the line back, and a row has one cell more than commas |
| MonacoEditor.CsvBlank | src/components/monaco-editor.tsx:146-149 | blank text gives one row with one empty cell |
| MonacoEditor.MarkersAsWritten | src/components/monaco-editor.tsx:168-175 | the `k`-th marker carries the `k`-th message and sits on line `k + 1` |
| MonacoEditor.ValidateYaml | src/components/monaco-editor.tsx:156-175 | the check collects the messages of the flagged lines and builds the markers as written |
| MonacoEditor.CollectErrors | src/components/monaco-editor.tsx:159-164 | the loop collects one message per flagged line, in line order |
| MonacoEditor.CheckLine | src/components/monaco-editor.tsx:160-163 | one iteration adds the line's message exactly when it is flagged |
| MonacoEditor.MessageInjective | src/components/monaco-editor.tsx:162 | a message names exactly one line |
| MonacoEditor.ErrorsNameFlagged | src/components/monaco-editor.tsx:159-164 | there is a message for line `i` if and only if line `i` is flagged |
| MonacoEditor.BlankNotFlagged | src/components/monaco-editor.tsx:161 | a blank line is never flagged |
| MonacoEditor.KeyValueNotFlagged | src/components/monaco-editor.tsx:161 | a `key:value` line with a non-empty colon-free key and a non-empty single-line value passes `^\s*[^:]+\s*:.+$` and is not flagged |
| MonacoEditor.NoColonFlagged | src/components/monaco-editor.tsx:161 | a non-blank line without a colon is flagged |
| MonacoEditor.CarriageReturnFlagged | src/components/monaco-editor.tsx:158-161 | split at `\n` only, a non-blank line of a CR LF text is always flagged |
| MonacoEditor.ProblemsOnFlaggedLines | src/components/monaco-editor.tsx:159-164 | the corrected markers have the same messages, each on the flagged line its message names |
| MonacoEditor.CorrectedMarkers | src/components/monaco-editor.tsx:168-175 | every corrected marker sits on a flagged line, carries the check's message for it, and there is one per message |
| MonacoEditor.MarkerOnWrongLine | src/components/monaco-editor.tsx:168-175 | on `a: b` / `bad` the only message names line 2, the component puts its marker on line 1, which passed, and the corrected check puts it on line 2 |
| MonacoEditor.EditorBuffer.constructor | src/components/monaco-editor.tsx:33-35 | the `language` prop is optional and defaults to JSON |
| MonacoEditor.EditorBuffer.FormatContent | src/components/monaco-editor.tsx:124-140 | a JSON buffer gets the re-stringified text and an XML buffer the formatted XML, or the text stays as it was when formatting throws; other languages keep their text; the language is unchanged |
| HtmlSpecialChars.FilterSpec | src/plugins/html-special-chars/index.tsx:15-24 | an empty search shows the whole table; any other search shows, in table order, exactly the entries that pass the test for the lower-cased search |
| HtmlSpecialChars.FilterByMembers | src/plugins/html-special-chars/index.tsx:18-23 | an entry is kept exactly when it is in the table and passes the test |
| HtmlSpecialChars.FilterByOrdered | src/plugins/html-special-chars/index.tsx:18 | the result is a subsequence of the table |
| HtmlSpecialChars.FilterIgnoresCase | src/plugins/html-special-chars/index.tsx:17-22 | a search and its lower-cased form give the same result |
| HtmlSpecialChars.CharacterNotLowered | src/plugins/html-special-chars/index.tsx:20 | the character is compared as it is: an upper-case character is not found by itself unless the entity or the description matches |
| HtmlSpecialChars.FindsLessThan | src/plugins/html-special-chars/index.tsx:17-21 | the search `&LT;` finds `<` through its entity |

## Findings

| source | as written | input that shows it | evidently intended | confidence | as-written member | corrected member |
|---|---|---|---|---|---|---|
| src/components/monaco-editor.tsx:168-175 | the `k`-th warning marker is put on line `k + 1`, whatever line its message names | `a: b` / `bad`: the message names line 2, and the marker goes on line 1 | each marker on the line its message names | not executed | MonacoEditor.MarkerOnWrongLine | MonacoEditor.CorrectedMarkers |

The corrected check is `MonacoEditor.ValidateYamlCorrected`. The messages
are the same; only the markers' line numbers change.

## Left out

- React and Monaco plumbing is not modelled: `useMemo`, `useCallback`, state setters, `setModelMarkers`, `setCsvData`, editor creation, listeners and `console` output. `validateYAML` returning early when there is no model is left out too, as is the `if (!monacoInstance.current) return` guard of `formatContent`.
- `JSON.parse` / `JSON.stringify` in the JSON branch of `formatContent` are a parameter, `stringifyParsed`. It returns `None` when parsing throws.
- The JavaScript `Number` conversion is modelled by the StringNumericLiteral grammar over characters. Floating-point values and rounding are not modelled; only "is not NaN" matters.
- Object identity and aliasing are not modelled. The hook's tree nodes share `range` and `block` objects with the flat nodes; the model compares values. The toggle's "returned unchanged" means equal, not the same object.
- The drain loop at use-json-line-map.ts:206-212 uses `??=` on fields that always hold numbers. It changes no node, and the model pops the stack without writing anything.
- The dead variables `keyStartCol` … `valueEndCol` (use-json-line-map.ts:184-187) and the unused `leadingSpaces` defaults (77-97) are overwritten before any node keeps them. They are not modelled.
- JsonLine.ScalarBlockEnd: keeps the fallback at use-json-line-map.ts:175-176. The value pattern cannot fail on a single-line declaration (`ScalarBlockEndOnSingleLine`), but a line split from a longer text may hold a U+2028 or a lone `\r`, so the fallback is kept rather than assumed away.
- Strings.Lower: `toLowerCase` is modelled for ASCII letters only. Case mapping of other scripts is not modelled, so HtmlSpecialChars.FilterIgnoresCase speaks of ASCII case.
- Strings are sequences of Unicode scalar values, not UTF-16 code units. A character outside the Basic Multilingual Plane is one character here but two code units in JavaScript. So `length`, `indexOf` and `trim` positions, and with them every column the hook computes (key, value and block columns), agree with JavaScript only on text made of Basic Multilingual Plane characters. The same holds for the XML, YAML and CSV text.
- MonacoEditor.EditorBuffer.FormatContent: the buffer holds only the text and the language. The rest of the editor model (cursor, undo stack, markers) is not modelled.
- The component's `formatXML` (monaco-editor.tsx:208-224) is the same text as the hook's copy. Both are modelled by XmlFormat.FormatXml, which the buffer's method calls.
