# Hover synchronisation between the JSON editor and the theme preview

This project models the core of oh-my-theme's two-way hover link, in Dafny. A
pointer over the JSON text highlights the matching card in the preview, and a
pointer over a card highlights the matching span of JSON. The two views talk
only through one shared cell, the *hovered path*. It holds a structural path
such as `.blocks[0].segments[2]`, or null.

The model covers:

- **The path map** (`PathMap`, on top of `OrderedMap`). `buildPathMap` walks the
  JSON syntax tree. It files every property under `parentPath + "." + key`, and
  every array element that is an object or an array under `parentPath + "[i]"`.
  Each entry records the key, the value text, the span, and the parent path.
  The JavaScript `Map` is a sequence of key/value pairs in insertion order.
  `map.set` on a present key replaces the value in place. Two worked documents
  show the walk at work: `NestedPaths` traces `{"blocks":[{"segments":[{}]}]}`
  down to `.blocks[0].segments[0]`, and `DuplicateKeys` shows a repeated key.
- **Position to path in the editor** (`HighlightPath`, `ArgMin`). `findHighlightPath`
  uses three tiers:
  - the narrowest enclosing segment;
  - else the nearest segment filed in the narrowest enclosing segments array;
  - else the narrowest enclosing block;
  - else null.

  The stable sort followed by `find` is modelled as "the first index of minimal
  measure". The three regular expressions are predicates over code units. Each
  is proved equal to a small grammar.
- **`findDeepestPath`** (`DeepestPath`). This is the loop that keeps the narrowest
  enclosing span.
- **The preview model** (`PreviewModel`). `buildPreviewModel` takes the result of
  `JSON.parse` as an input value. It produces block paths `.blocks[i]` and
  segment paths `.blocks[i].segments[j]`.
- **The editor side** (`EditorPanel`):
  - `escapeUnicode`, which rewrites every code unit from U+007F up as `\uXXXX`;
  - the update rule of the hover decoration field;
  - the effect that turns the hovered path into a `{from, to}` payload;
  - the write rules of `mousemove` and `mouseleave`.
- **The preview side** (`TextPreview`):
  - `isSegmentActive` and `isBlockActive`;
  - the classes the cards take;
  - the hovered path after each pointer event the cards handle.

Strings are sequences of UTF-16 code units (`JsText`). `slice`, `startsWith`,
and `Number.prototype.toString` for radix 10 and 16 are modelled with
JavaScript's own semantics, including negative slice indices.

## Model

| member | source | states |
|---|---|---|
| PathMap.GetChild | src/lib/jsonPathMap.ts:27 | `getChild` finds the first child of the requested type: every earlier child has another type; nothing is found exactly when no child has that type |
| PathMap.ValueChild | src/lib/jsonPathMap.ts:28 | the value node is the first `Value` child when there is one, else the last child; it is missing only when the property has no children |
| PathMap.KeyText | src/lib/jsonPathMap.ts:31 | the key is the text strictly between the key node's first and last unit (its quotes), two units shorter than the node |
| PathMap.Writes | src/lib/jsonPathMap.ts:22-81 | every entry the walk files is well formed (path = parent path + `.key`, or parent path + an `[i]` key), has a parent path that extends the current path stack, and, in a well-nested tree, has a span inside the node walked |
| PathMap.ArrayWrites | src/lib/jsonPathMap.ts:53-75 | the same invariant for the array loop from any child and counter onwards |
| PathMap.ChildWrites | src/lib/jsonPathMap.ts:77-80 | the same invariant for the generic loop over other nodes' children, which does not extend the path |
| PathMap.BuildPathMap | src/lib/jsonPathMap.ts:17-86 | the finished map never holds a key twice |
| PathMap.PropertyEntry | src/lib/jsonPathMap.ts:26-47 | a complete property is filed first under `parentPath + "." + key`, with the quotes stripped from the key, the whole property's span and the value node's text; a scalar value adds no further entry; an object or array value is walked next, under the property's path, and under any path other than the current one the property files exactly what that walk files |
| PathMap.PropertyUnfolds | src/lib/jsonPathMap.ts:28-47 | a complete property's writes are its own entry followed by its object or array value's walk under `parentPath + "." + key` |
| PathMap.HeadNotAt | src/lib/jsonPathMap.ts:36-42 | an entry filed under another parent path adds nothing to the entries directly under a path |
| PathMap.IncompleteProperty | src/lib/jsonPathMap.ts:26-51 | a property that lacks a key node or any child files nothing and is not descended into |
| PathMap.ArrayEntries | src/lib/jsonPathMap.ts:53-75 | the entries directly under an array are exactly its object and array children, in order, numbered `[0]`, `[1]`, ... (scalar elements take no number), each with the element's own span and text |
| PathMap.NoDirectWritesAt | src/lib/jsonPathMap.ts:22-81 | writes whose parent paths all extend a path `q` put nothing directly under a path that does not extend `q` |
| PathMap.ElementAt | src/lib/jsonPathMap.ts:53-75 | reference listing: what the `t`-th indexed element's walk under `parentPath[t]` files under a given path, and nothing when there is no such element |
| PathMap.ElementAtCons | src/lib/jsonPathMap.ts:53-75 | the first indexed element counts when it is element `t`; the others are numbered on from the next index |
| PathMap.ArrayWritesAt | src/lib/jsonPathMap.ts:53-75 | under a path inside element `t`, the array loop from any child on files exactly what element `t`'s own walk files there |
| PathMap.ElementStep | src/lib/jsonPathMap.ts:56-70 | at an object or array element the loop files the element under `parentPath[i]`, then walks it under that path, then goes on with `i + 1` |
| PathMap.ElementDirectAt | src/lib/jsonPathMap.ts:56-70 | an element's own entry lies above any path inside an element, and its walk adds to that path only when it is that element |
| PathMap.ElementBelowOther | src/lib/jsonPathMap.ts:59-69 | the walk of element `i` files nothing under a path inside a different element `t`, since `[i]` and `[t]` cannot both start the rest of one path |
| PathMap.ArrayDescends | src/lib/jsonPathMap.ts:53-75 | under any path inside its `t`-th object-or-array element, an array files exactly what that element's walk under `parentPath[t]` files there, and nothing when there is no such element |
| PathMap.ChildrenDirect | src/lib/jsonPathMap.ts:77-80 | reference listing: the entries each of a run of children, walked under the current path, files directly under a given path, child after child |
| PathMap.ChildWritesDirect | src/lib/jsonPathMap.ts:77-80 | the walk from the k-th child on files directly under any path exactly what those children file there, in order |
| PathMap.ObjectEntries | src/lib/jsonPathMap.ts:77-80 | for an object, the top node or any node that is neither a property nor an array, the entries directly under any path are, in child order, exactly those each child files there: the generic loop adds no entry and no path segment of its own |
| PathMap.OwnEntries | src/lib/jsonPathMap.ts:28-42 | a property contributes one entry of its own exactly when it has both a key and a value node, and that entry lies under the current path inside the property's span |
| PathMap.PropertyEntries | src/lib/jsonPathMap.ts:28-42 | reference listing of an object's own entries: each property's own entry, in the properties' order |
| PathMap.PropertyDirect | src/lib/jsonPathMap.ts:28-48 | directly under the current path a property files exactly its own entry (none when incomplete), since everything it nests lies deeper; a childless token files nothing |
| PathMap.ChildrenDirectProperties | src/lib/jsonPathMap.ts:28-80 | a run of properties and childless tokens files directly under the current path exactly one entry per complete property, in order |
| PathMap.ObjectPropertyEntries | src/lib/jsonPathMap.ts:28-80 | an object whose children are properties and punctuation has, directly under its path, exactly one entry per complete property, in the properties' order, each the property's own entry |
| PathMap.PropertyOwn | src/lib/jsonPathMap.ts:31-42 | the entry a complete property files lies under the current path, its span is the property node's span, and its key and path agree |
| PathMap.AllContainersKeepPositions | src/lib/jsonPathMap.ts:54-71 | when every element is an object or an array, the numbers in the paths are the literal array positions |
| PathMap.WritesParentsFirst | src/lib/jsonPathMap.ts:22-81 | in a well-nested tree, the walk files each nested entry after its parent, and the parent's span encloses the entry's span |
| PathMap.BuildPathMapLastWriteWins | src/lib/jsonPathMap.ts:36-67 | a path written more than once (a duplicate key) maps to the info of its last write |
| PathMap.BuildPathMapEntries | src/lib/jsonPathMap.ts:31-59 | every map entry's path is its parent path followed by its key, so the parent path is a prefix of the path; in a well-nested tree every span lies inside the document's top node |
| PathMap.BuildPathMapContainment | src/lib/jsonPathMap.ts:17-86 | when no path is written twice, every nested entry's parent is in the map, earlier in iteration order, with an enclosing span |
| DuplicateKeys.DupWrites | src/lib/jsonPathMap.ts:22-81 | for `{"a":{"b":1},"a":2}` the walk files `.a`, `.a.b`, and `.a` again, with the spans of the respective nodes |
| DuplicateKeys.DuplicateKeyBreaksContainment | src/lib/jsonPathMap.ts:36-42 | for `{"a":{"b":1},"a":2}` the finished map has `.a.b` under parent `.a`, but `.a` holds the second property's span, which does not enclose `.a.b` |
| NestedPaths.TokenWrites | src/lib/jsonPathMap.ts:77-80 | a punctuation token is walked without any write |
| NestedPaths.Bracketed | src/lib/jsonPathMap.ts:77-80 | an object with one child between its braces files under any path what that child files there |
| NestedPaths.OneElement | src/lib/jsonPathMap.ts:56-72 | in an array whose one element sits between its brackets, that element is the only indexed one |
| NestedPaths.KeyTexts | src/lib/jsonPathMap.ts:31 | the names `"blocks"` and `"segments"` lose their quotes |
| NestedPaths.RootAt | src/lib/jsonPathMap.ts:77-80 | in `{"blocks":[{"segments":[{}]}]}` the top object files under any path what its `blocks` property files |
| NestedPaths.BlocksPropAt | src/lib/jsonPathMap.ts:45-47 | below `.blocks`, the `blocks` property files what its array's walk under `.blocks` files |
| NestedPaths.OneContainer | src/lib/jsonPathMap.ts:56-72 | each array of the document has its object as its only indexed element |
| NestedPaths.BlockObjAt | src/lib/jsonPathMap.ts:77-80 | the block object files under any path what its `segments` property files |
| NestedPaths.BlockEntry | src/lib/jsonPathMap.ts:53-72 | the walk files `.blocks[0]` directly under `.blocks`, with the element's span |
| NestedPaths.IntoBlock | src/lib/jsonPathMap.ts:45-70 | under any path inside `.blocks[0]`, the document files exactly what the block object's own walk under `.blocks[0]` files |
| NestedPaths.SegmentsEntry | src/lib/jsonPathMap.ts:26-72 | the walk goes down into the block element and files `.blocks[0].segments` directly under `.blocks[0]`, with the property's span |
| NestedPaths.SegmentsOwn | src/lib/jsonPathMap.ts:28-42 | the `segments` property's own entry, under `.blocks[0]`, is `.blocks[0].segments` |
| NestedPaths.SegmentEntry | src/lib/jsonPathMap.ts:26-80 | the walk goes down through both arrays and files `.blocks[0].segments[0]` directly under `.blocks[0].segments`, with the element's span |
| NestedPaths.SegmentsDescend | src/lib/jsonPathMap.ts:45-47 | under its own path, the `segments` property files what its array's walk files there |
| NestedPaths.NestedPathsFiled | src/lib/jsonPathMap.ts:22-84 | the path map of the document holds `.blocks[0]`, `.blocks[0].segments` and `.blocks[0].segments[0]` |
| NestedPaths.Filed | src/lib/jsonPathMap.ts:36-61 | a path some write files ends up as a key of the map |
| OrderedMap.IndexOf | src/lib/jsonPathMap.ts:36 | the position found holds the key and no earlier entry does; there is none exactly when the key is absent |
| OrderedMap.Get | src/components/EditorPanel.tsx:117 | `map.get` finds a value exactly when the key is present, and in a map without repeated keys it is the value stored under that key |
| OrderedMap.Set | src/lib/jsonPathMap.ts:36-42 | after `map.set(k, v)`, `k` maps to `v` and every other key to what it mapped to before; a present key keeps its position, a new key is appended last, and no key is ever doubled |
| OrderedMap.SetAll | src/lib/jsonPathMap.ts:36-67 | a sequence of `map.set` calls never doubles a key |
| OrderedMap.LastWrite | src/lib/jsonPathMap.ts:36-67 | the last value written under a key is one of the writes, and there is none exactly when the key was never written |
| OrderedMap.SetAllGet | src/lib/jsonPathMap.ts:36-67 | after a sequence of writes, a key holds its last written value, or its old value when it was never written |
| OrderedMap.SetAllKeepsOrder | src/lib/jsonPathMap.ts:36-67 | entries already in the map keep their keys and positions, whatever is written |
| OrderedMap.SetAllKeys | src/lib/jsonPathMap.ts:36-67 | the keys of a map built from nothing are exactly the keys written |
| OrderedMap.SetAllEntriesWritten | src/lib/jsonPathMap.ts:36-67 | every entry of a map built from nothing is one of the writes |
| OrderedMap.SetAllDistinct | src/lib/jsonPathMap.ts:36-67 | when no key is written twice, the map built from nothing holds every write in order |
| OrderedMap.IndexOfUpdate | src/lib/jsonPathMap.ts:36 | overwriting one key's entry in place moves no other key |
| OrderedMap.IndexOfAppend | src/lib/jsonPathMap.ts:36 | appending an entry moves no key already present, and a new key is found at the end |
| OrderedMap.SetEntryFrom | src/lib/jsonPathMap.ts:36 | each entry after a `set` is either the written pair or the old entry at the same position |
| JsText.Slice | src/lib/jsonPathMap.ts:31-32 | `slice` with in-range bounds is the substring; with crossed bounds it is empty; the result is never longer than the string |
| JsText.SliceIndex | src/lib/jsonPathMap.ts:31 | a bound inside the string is kept; a negative bound counts from the end; a bound before the start becomes 0 and one past the end becomes the length |
| JsText.SliceExamples | src/lib/jsonPathMap.ts:31 | on "abc", `slice(-10, 2)` is "ab", `slice(1, 10)` is "bc", `slice(-1, 3)` is "c" and `slice(2, 1)` is empty |
| JsText.StartsWith | src/lib/findHighlightPath.ts:42 | `startsWith(p)` holds exactly when the string begins with the units of `p` |
| JsText.IndexKey | src/lib/jsonPathMap.ts:58 | an element key is `[`, the decimal numeral of the counter, and `]` |
| JsText.Decimal | src/lib/previewModel.ts:24 | the decimal numeral of an index is a non-empty run of digits |
| JsText.ToRadix | src/components/EditorPanel.tsx:72 | `toString(base)` writes at least one digit, every digit is below the base, and there are no leading zeros |
| JsText.DigitValue | src/components/EditorPanel.tsx:72 | a digit's value, when below 16, is the value whose digit it is; below 10 exactly for decimal digits |
| JsText.ParseToRadix | src/components/EditorPanel.tsx:72 | reading back what `toString(base)` wrote gives the number again |
| JsText.DecimalInjective | src/lib/previewModel.ts:24-30 | distinct indices never share a decimal spelling |
| JsText.DelimitedPrefixUnique | src/components/TextPreview.tsx:23 | two delimiter-free heads that both start a string, each followed by the same delimiter, are equal |
| JsText.CloseNotInIndexHead | src/lib/jsonPathMap.ts:58 | the `[` and numeral of an index key contain no `]` |
| JsText.IndexKeyPrefixUnique | src/lib/jsonPathMap.ts:58-59 | `parentPath[a]` and `parentPath[b]` both start one path only when `a == b`, so `.x[1]` never starts a path inside `.x[12]` |
| HighlightPath.DropDot | src/lib/findHighlightPath.ts:4-6 | the optional leading dot consumes one leading `.` when there is one and nothing otherwise |
| HighlightPath.IsBlock | src/lib/findHighlightPath.ts:6 | the block regex, as a predicate on code units; `BlockRegex` gives its meaning |
| HighlightPath.IsSegmentsArray | src/lib/findHighlightPath.ts:5 | the segments-array regex, as a predicate on code units; `SegmentsArrayRegex` gives its meaning |
| HighlightPath.IsSegment | src/lib/findHighlightPath.ts:4 | the segment regex, as a predicate on code units; `SegmentRegex` gives its meaning |
| HighlightPath.OptionalDot | src/lib/findHighlightPath.ts:4-6 | after `^\.?`, a body that does not start with a dot is matched by exactly the body itself and the body with one dot in front |
| HighlightPath.BlockRegex | src/lib/findHighlightPath.ts:6 | a path matches the block regex exactly when it is `blocks[i]` or `.blocks[i]` for a bracketed digit run `[i]` |
| HighlightPath.SegmentsArrayRegex | src/lib/findHighlightPath.ts:5 | a path matches the segments-array regex exactly when it is `blocks[i].segments` or `.blocks[i].segments` |
| HighlightPath.SegmentRegex | src/lib/findHighlightPath.ts:4 | a path matches the segment regex exactly when it is `blocks[i].segments[j]` or `.blocks[i].segments[j]` |
| HighlightPath.DigitRun | src/lib/findHighlightPath.ts:4-6 | `\d+` takes the longest run of leading decimal digits |
| HighlightPath.IndexPrefix | src/lib/findHighlightPath.ts:4-6 | a matched `\[\d+\]` is a bracketed non-empty run of digits |
| HighlightPath.BlockGrammar | src/lib/findHighlightPath.ts:6 | a path is block-shaped exactly when, after an optional dot, it is `blocks` followed by one `[i]` key |
| HighlightPath.SegmentsArrayGrammar | src/lib/findHighlightPath.ts:5 | a path is segments-array-shaped exactly when, after an optional dot, it is `blocks`, an `[i]` key and `.segments` |
| HighlightPath.SegmentsArrayGrammarForth | src/lib/findHighlightPath.ts:5 | a segments-array-shaped path yields its `[i]` key |
| HighlightPath.SegmentsArrayGrammarBack | src/lib/findHighlightPath.ts:5 | a path built from `blocks`, an `[i]` key and `.segments` is read back piece by piece |
| HighlightPath.SegmentGrammar | src/lib/findHighlightPath.ts:4 | a path is segment-shaped exactly when, after an optional dot, it is `blocks`, an `[i]` key, `.segments` and a `[j]` key |
| HighlightPath.SegmentGrammarForth | src/lib/findHighlightPath.ts:4 | a segment-shaped path yields its two index keys |
| HighlightPath.SegmentBodyForth | src/lib/findHighlightPath.ts:4 | a path body of segment shape splits into `blocks`, an `[i]` key, `.segments` and a `[j]` key |
| HighlightPath.SegmentGrammarBack | src/lib/findHighlightPath.ts:4 | a path built from `blocks`, two index keys and `.segments` is read back piece by piece |
| HighlightPath.DigitRunOf | src/lib/findHighlightPath.ts:4-6 | `\d+` stops exactly where a digit run meets a non-digit |
| HighlightPath.IndexPrefixOfKey | src/lib/findHighlightPath.ts:4-6 | an `[i]` key at the head of a string is matched whole |
| HighlightPath.ShapesDisjoint | src/lib/findHighlightPath.ts:4-6 | no path is of two of the three shapes |
| HighlightPath.AnchoredShapes | src/lib/findHighlightPath.ts:4-6 | the patterns are anchored: `.foo.blocks[0]`, `..blocks[0]` and `.blocks[]` are not blocks, while `blocks[0]` without the dot is |
| HighlightPath.GetDistance | src/lib/findHighlightPath.ts:8-12 | the distance is never negative and is zero exactly when the position lies in the closed span |
| HighlightPath.DistanceToNearestPoint | src/lib/findHighlightPath.ts:8-12 | for a proper span, the distance is the distance from the position to the nearest point of the span |
| HighlightPath.EnclosingOfShape | src/lib/findHighlightPath.ts:23-33 | an entry is scored exactly when it has the shape and its closed span holds the position, and its score is its width |
| HighlightPath.SegmentCandidates | src/lib/findHighlightPath.ts:40-45 | an entry is a candidate exactly when its key starts with the array path and `[` and is segment-shaped, and its score is its distance to the position |
| HighlightPath.NarrowestEnclosing | src/lib/findHighlightPath.ts:29-34 | the hit found has the requested shape |
| HighlightPath.NearestInSegmentsArray | src/lib/findHighlightPath.ts:36-50 | the gap fallback yields only segment-shaped entries |
| HighlightPath.FindHighlightPath | src/lib/findHighlightPath.ts:21-57 | the result is null when nothing encloses the position; otherwise it is a key of the map and is segment- or block-shaped |
| HighlightPath.NarrowestIsFirstMin | src/lib/findHighlightPath.ts:29-34 | the first element of the stable width sort that has a shape is exactly the narrowest enclosing entry of that shape, the earliest in map order among equals |
| HighlightPath.NearestIsFirstMin | src/lib/findHighlightPath.ts:46-48 | the first candidate after the stable distance sort is the nearest, strictly nearer than every earlier candidate |
| HighlightPath.HighlightPrefersSegment | src/lib/findHighlightPath.ts:32-34 | when a segment encloses the position, the result is the narrowest enclosing segment |
| HighlightPath.HighlightNearestSegmentInGap | src/lib/findHighlightPath.ts:36-49 | with no enclosing segment, inside a segments array that has segments, the result is that array's segment nearest to the position, and every such segment lies strictly away from it |
| HighlightPath.NoSegmentNoHit | src/lib/findHighlightPath.ts:32-34 | with no enclosing segment the first tier finds nothing |
| HighlightPath.NearestOfArray | src/lib/findHighlightPath.ts:36-49 | the second tier picks the nearest candidate of the narrowest enclosing segments array |
| HighlightPath.NoCandidateNoHit | src/lib/findHighlightPath.ts:46-50 | a segments array without candidates makes the second tier find nothing |
| HighlightPath.HighlightFallsBackToBlock | src/lib/findHighlightPath.ts:52-56 | with neither tier applying, the result is null exactly when no block encloses the position, and otherwise it is the narrowest enclosing block |
| ArgMin.FirstArgMin | src/lib/findHighlightPath.ts:29-33 | the index picked is a candidate of minimal measure, strictly below every earlier candidate; there is none exactly when there are no candidates |
| ArgMin.FirstMinUnique | src/lib/findHighlightPath.ts:29-33 | at most one index is a first minimum |
| ArgMin.FirstArgMinIs | src/lib/findHighlightPath.ts:29-33 | any first minimum is the index picked |
| ArgMin.InsertNonCandidate | src/lib/findDeepestPath.ts:5-8 | inserting a non-candidate anywhere only shifts the index picked past it |
| ArgMin.ShiftedFirstMin | src/lib/findDeepestPath.ts:5-8 | a first minimum stays the first minimum, shifted, after a non-candidate is spliced in |
| DeepestPath.EnclosingWidths | src/lib/findDeepestPath.ts:5-7 | an entry is scored exactly when its closed span holds the position, and its score is its width |
| DeepestPath.FindDeepestPath | src/lib/findDeepestPath.ts:3-12 | the result is null exactly when no entry holds the position; otherwise it is the key of the narrowest holding entry, strictly narrower than every earlier one, and agrees with the first-minimum reference |
| DeepestPath.NonEnclosingIgnored | src/lib/findDeepestPath.ts:5-8 | an entry that does not hold the position, wherever it sits in the map, does not change the result |
| DeepestPath.InsertedWidths | src/lib/findDeepestPath.ts:5-7 | inserting such an entry inserts a non-candidate into the width scores |
| PreviewModel.LastMember | src/lib/previewModel.ts:18 | a member name read from a parsed object takes the value of its last occurrence (no later member has that name), and is undefined when it does not occur |
| PreviewModel.Field | src/lib/previewModel.ts:22-34 | `v?.name` on anything but an object is undefined; on an object it is the value of the last member with that name, as `JSON.parse` keeps it |
| PreviewModel.ArrayField | src/lib/previewModel.ts:22-25 | the field's elements when it is an array, and the empty list otherwise (including a missing field or a non-object) |
| PreviewModel.BuildPreviewModel | src/lib/previewModel.ts:15-38 | unparseable text gives no blocks; otherwise there is one block per element of `blocks` and one segment per element of its `segments`, with paths `.blocks[i]` and `.blocks[i].segments[j]` and fields copied as `b?.alignment`, `s?.type`, ... |
| PreviewModel.PreviewExample | src/lib/previewModel.ts:15-38 | `{"blocks":[{"alignment":"left","segments":[{"type":null,"type":"path"}]}]}` gives one block `.blocks[0]` aligned left, with one segment `.blocks[0].segments[0]` of type "path" and no template |
| PreviewModel.BlockPath | src/lib/previewModel.ts:24 | the block path template `.blocks[${i}]`; `BlockPathShape` and `BlockPathInjective` state its meaning |
| PreviewModel.SegmentPath | src/lib/previewModel.ts:30 | the segment path template `${blockPath}.segments[${j}]`; `SegmentPathShape` and `SegmentPathInjective` state its meaning |
| PreviewModel.PreviewSegmentOf | src/lib/previewModel.ts:28-34 | a preview segment's path is its block's path, then `.segments`, then a `[j]` index |
| PreviewModel.PreviewBlockOf | src/lib/previewModel.ts:23-36 | a preview block is addressed `.blocks[i]` and has one preview segment per element of its `segments` array (none when that field is not an array) |
| PreviewModel.PreviewPathShapes | src/lib/previewModel.ts:24-30 | every block path the preview builds is block-shaped and every segment path is segment-shaped, so the editor's resolver can produce the same paths |
| PreviewModel.BlockPathShape | src/lib/previewModel.ts:24 | a preview block path is block-shaped |
| PreviewModel.SegmentPathShape | src/lib/previewModel.ts:30 | a preview segment path is segment-shaped |
| PreviewModel.BlockPathInjective | src/lib/previewModel.ts:24 | distinct blocks get distinct paths |
| PreviewModel.SegmentPathInjective | src/lib/previewModel.ts:24-30 | distinct (block, segment) index pairs get distinct paths |
| PreviewModel.SegmentPathSplit | src/lib/previewModel.ts:24-30 | after `.blocks[`, a segment path continues with its block index and `]` |
| PreviewModel.SegmentIndexAtEnd | src/lib/previewModel.ts:30 | a segment path ends with its segment index and `]` |
| PreviewModel.NoCloseInDecimal | src/lib/previewModel.ts:24 | an index numeral never contains `]` |
| EditorPanel.EscapeUnit | src/components/EditorPanel.tsx:70-73 | code units below U+007F are kept as they are |
| EditorPanel.EscapeUnicode | src/components/EditorPanel.tsx:69-74 | the result is pure 7-bit ASCII below U+007F, and five units longer than the input per rewritten unit |
| EditorPanel.FourHexDigits | src/components/EditorPanel.tsx:72 | an escape body is exactly four ASCII units |
| EditorPanel.HexFourDigits | src/components/EditorPanel.tsx:72 | `('0000' + c.toString(16)).slice(-4)` is the unit as exactly four lower-case hex digits, zero-padded |
| EditorPanel.PadToFour | src/components/EditorPanel.tsx:72 | prefixing four zeros and keeping the last four pads any numeral of at most four digits to four |
| EditorPanel.HexDigitsOf | src/components/EditorPanel.tsx:72 | `toString(16)` of a code unit is its one to four hex digits, without leading zeros |
| EditorPanel.HexDigitsBelow | src/components/EditorPanel.tsx:72 | `toString(16)` of a number below 0x1000 is its one to three hex digits |
| EditorPanel.EscapeConcat | src/components/EditorPanel.tsx:70-73 | the global replace works unit by unit: escaping a concatenation escapes each part |
| EditorPanel.EscapeSingleUnit | src/components/EditorPanel.tsx:70-73 | a unit below U+007F stays, and any other unit becomes `\u` and its four hex digits |
| EditorPanel.EscapeAsciiUnchanged | src/components/EditorPanel.tsx:70-71 | text without units from U+007F up comes back unchanged |
| EditorPanel.EscapeIdempotent | src/components/EditorPanel.tsx:69-74 | escaping twice is escaping once |
| EditorPanel.FourHexDigitsValue | src/components/EditorPanel.tsx:72 | the four digits of an escape, read with their place values, give the code unit back |
| EditorPanel.UnescapeEscape | src/components/EditorPanel.tsx:69-74 | escaping loses nothing: for text without backslashes, decoding the `\uXXXX` escapes gives the original text back |
| EditorPanel.UnescapeUnit | src/components/EditorPanel.tsx:72 | decoding reads one unit's escape back as that unit and carries on after it |
| EditorPanel.EscapeReadsBack | src/components/EditorPanel.tsx:72 | the escape written for a unit from U+007F up is a well-formed `\uXXXX` whose four digits, with their place values, give the unit back, and the text after it is untouched |
| EditorPanel.UnescapeEscaped | src/components/EditorPanel.tsx:72 | decoding reads the escape of a unit from U+007F up back as that unit and carries on after it |
| EditorPanel.FirstHoverEffect | src/components/EditorPanel.tsx:36-37 | the payload taken is that of the first `setHoverRange` effect of the transaction, and there is none exactly when the transaction carries no such effect |
| EditorPanel.HoverMarks | src/components/EditorPanel.tsx:38-42 | a payload builds at most one mark, the payload's own range, and none exactly when the payload is null or empty |
| EditorPanel.HoverFieldUpdate | src/components/EditorPanel.tsx:35-47 | a transaction with a `setHoverRange` effect leaves at most one mark; one with no effect leaves the set as it was, remapped through the change when the document changed |
| EditorPanel.SetHoverRangeReplaces | src/components/EditorPanel.tsx:36-43 | the first `setHoverRange` effect replaces the whole set, whatever was there and whatever else the transaction does: one mark `[from, to)` when `from < to`, otherwise nothing |
| EditorPanel.HoverPayload | src/components/EditorPanel.tsx:116-118 | the payload is null exactly when the hovered path is null, empty, or not in the map, and otherwise it is the span of the path's entry |
| EditorPanel.HoveredPathDecoration | src/components/EditorPanel.tsx:114-120 | the editor marks exactly the span of the hovered path's entry when that span is non-empty, and marks nothing otherwise |
| EditorPanel.OnMouseMove | src/components/EditorPanel.tsx:57-60 | with no text under the pointer nothing is written; a write always changes the cell; the cell ends up holding what the resolver returns for the position |
| EditorPanel.ApplyWrite | src/components/EditorPanel.tsx:60-64 | a handler that writes replaces the hovered path with what it wrote; one that does not leaves it as it was |
| EditorPanel.LastFour | src/components/EditorPanel.tsx:72 | `slice(-4)` keeps the last four units of a string of four or more, and a shorter string whole |
| EditorPanel.OnMouseLeave | src/components/EditorPanel.tsx:63-65 | leaving the editor clears the hovered path, whatever it was |
| EditorPanel.MouseMoveHoversUnits | src/components/EditorPanel.tsx:57-60 | after a move over the text, the hovered path is a map key of segment or block shape, or null, and it is null whenever no entry holds the position |
| TextPreview.IsSegmentActive | src/components/TextPreview.tsx:20 | a segment is active when the hovered path is its own path |
| TextPreview.IsBlockActive | src/components/TextPreview.tsx:21-24 | a block is active when the hovered path is its own path or starts with its path and `.segments[`; `ActiveBlockIsPrefix` and `AtMostOneBlockActive` state its consequences |
| TextPreview.SegmentsPrefix | src/components/TextPreview.tsx:23 | `blockPath + '.segments['` extends the block path by exactly ten units |
| TextPreview.SegmentClassOf | src/components/TextPreview.tsx:56 | a segment card's class: `is-active` when active, else `is-in-block` when its block is active, else none; `SegmentClassMeaning` characterises it |
| TextPreview.BlockClassOf | src/components/TextPreview.tsx:34 | a block card's class: `is-active` exactly when the block is active |
| TextPreview.NothingHovered | src/components/TextPreview.tsx:20-24 | with nothing hovered no segment or block is active, and every card shows the plain class |
| TextPreview.SegmentPathInBlock | src/components/TextPreview.tsx:23 | every segment path of a block starts with the block path followed by `.segments[` |
| TextPreview.ActiveSegmentActivatesBlock | src/components/TextPreview.tsx:20-24 | an active segment makes its owning block active |
| TextPreview.SegmentClassMeaning | src/components/TextPreview.tsx:56 | a segment card is `is-active` exactly when it is hovered, `is-in-block` exactly when it is not hovered but its block is active, and plain exactly when its block is not active |
| TextPreview.BlockHead | src/lib/previewModel.ts:24 | a block path is a head free of `]`, closed by `]` |
| TextPreview.ActiveBlockIsPrefix | src/components/TextPreview.tsx:21-24 | an active block's path is a prefix of the hovered path |
| TextPreview.AtMostOneBlockActive | src/components/TextPreview.tsx:21-24 | at most one block is active at a time: the `]` closing an index keeps `.blocks[1]` from matching paths under `.blocks[12]` |
| TextPreview.OtherBlocksStayPlain | src/components/TextPreview.tsx:34-56 | hovering a segment of one block leaves every other block, and its segments, plain |
| TextPreview.Step | src/components/TextPreview.tsx:36-60 | entering a segment hovers it; leaving a segment hands the hover to its block; leaving a block clears the hover; a move over a segment's area inside a block changes nothing |
| TextPreview.EnterSegmentHighlights | src/components/TextPreview.tsx:58 | entering a segment makes exactly that segment and its block active, and no other block and no other segment |
| TextPreview.LeaveSegmentHandsBack | src/components/TextPreview.tsx:60 | leaving a segment keeps its block active and shows each segment of that block with the in-block class |
| TextPreview.BlockMoveClaims | src/components/TextPreview.tsx:36-41 | a move over a block's own area claims the block, and a move over one of its segments leaves the hover alone |
| TextPreview.LeaveBlockClears | src/components/TextPreview.tsx:42 | leaving a block leaves no card of any block highlighted |

## Behaviour worth knowing

- **A repeated key breaks span containment.** A nested path's span need not lie
  inside its parent's span. `map.set` keeps only the last write to a path. So
  with a repeated key, an entry filed under the first occurrence has a parent
  entry whose span is the second occurrence's. `PathMap.BuildPathMapContainment`
  proves containment whenever no path is written twice.
  `DuplicateKeys.DuplicateKeyBreaksContainment` shows it failing on
  `{"a":{"b":1},"a":2}`.
- **Deeper paths also activate a block.** `isBlockActive` tests
  `startsWith(blockPath + '.segments[')`. So any deeper path under the block's
  segments also activates the block, not only the segments' own paths.
  `TextPreview.IsBlockActive` models the prefix test.
- **The editor mark is replaced at once.** A new `setHoverRange` effect replaces
  the mark immediately (`EditorPanel.SetHoverRangeReplaces`).

## Left out

- CodeMirror and Solid wiring is left out: building the editor, the stores, the reactive effects and their scheduling, `onMount`/`onCleanup`, and rebuilding the path map on each document change. These are framework glue. The model keeps only the pure steps they call.
- `requestAnimationFrame` coalescing of pointer moves, in both views, is left out; it is timing. The model describes the deferred work of one handled move. The model does not capture that a `mouseleave` can be followed by a move frame that was still pending when the pointer left.
- `view.posAtCoords` is a parameter (`pos`, None when the pointer is off the text), because it depends on layout.
- `target.closest('.segment')` is the `overSegment` flag of a `BlockMove` event, because it depends on the DOM.
- The lezer JSON parser is left out. The syntax tree is an input (`PathMap.Node`), and error-recovery nodes are simply nodes of another type.
- `PathMap.NodeKind`: each node has one type. In the lezer JSON grammar `Value` may name a group of node types, so that `getChild('Value')` can match an `Object` or `Array` node. The model does not capture that; a property's value is then found as its last child, which is where it sits in a well-formed tree.
- `PathMap.WellNested` is assumed of the tree for the span results, rather than proved of the parser's output.
- `JSON.parse` is left out. Its result is an input to `PreviewModel.BuildPreviewModel` (None when it throws). Numbers keep their literal text, because nothing in the core computes with them.
- `decos.map(tr.changes)` is a parameter (`remapped`) of `EditorPanel.HoverFieldUpdate`, because remapping through a change set belongs to the editor library.
- `PathMap.Writes`: `pathStack` is modelled as its joined string, since the walk only ever reads `pathStack.join('')`.
- `HighlightPath.FindHighlightPath`: the sort is modelled by its effect on `find`, the first entry of minimal measure in map order. This is what a stable sort followed by `find` returns. The sort's reordering of the array itself is not modelled.
- `escapeUnicode` is applied to the theme text when the editor is created. That call site, and the theme store it reads, are left out.
- The rendering is left out: JSX markup, badges, titles, the upper-casing of labels, and style sheets. Only the class choice that depends on the hovered path is modelled.
- `defaultTheme.ts`, `app.tsx` and the stores are left out; they hold data and wiring, not logic.
