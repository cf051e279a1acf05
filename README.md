# llparse-dot in Dafny

This project models the `Dot` renderer of llparse-dot (`src/dot.ts`) in Dafny.
The renderer turns an llparse state-machine graph into a Graphviz DOT document:

- `build` writes a fixed six-line header, then one block of edge statements for every node reachable from the root, then `}`.
- `enumerateNodes` finds those nodes with a work list and a seen set. The work list is used as a stack, popped from its end. The nodes come out in the order they were first popped.
- `buildNode` sorts a node's regular edges into an advancing and a non-advancing edge map. Each map is keyed by target, in order of first occurrence. The node block holds the advancing map's statements, then the non-advancing map's, then the otherwise edge.
- `buildEdgeMap` handles each entry of a map in three steps:
  - It classifies the entry's edges into single-byte keys, longer byte sequences and invocation codes. A regular edge without a key is an assertion failure.
  - It merges runs of consecutive single-byte keys into ranges.
  - It writes one statement per range, then one per byte sequence, then one per code.
- `buildRange`, `buildEdge`, `buildChar`, `buildBuffer` and `escape` format the individual statements.

The graph is a sequence of node records (`Graph.NodeRec`: name, regular edges, optional otherwise edge), and a node is its index. An edge names its target by index and has a key (`NoKey`, `Code(n)` or `Bytes(b)`) and a `noAdvance` flag. A JavaScript `Map` iterated in insertion order is a sequence of `Grouping.Group` entries.

The modules follow the steps of the renderer:

- `Traversal`: the enumeration, as a specification function (`Visit`, `Enumerate`) and as the loop `EnumerateNodes`.
- `Grouping`: the edge maps of `buildNode`.
- `Classification`: the key classification.
- `Ranges`: range compression.
- `Strings`: number formatting.
- `DotText`: escaping, character and buffer labels, and a reader that parses a statement line back into its parts.
- `Rendering`: the text each step produces, as functions.
- `Dot`: the renderer's loops, as methods proved to produce exactly that text.
- `Properties`: what the whole document says:
  - when it fails;
  - every statement connects a reachable node to one of its successors;
  - every edge of every reachable node is drawn with the colour of its kind and a label that reads back as its key (for byte sequences, when the bytes are ASCII).

`Dot` has no fields, so it is a module of methods rather than a class. The failing `assert` becomes a `Failure` result carrying the assertion's message. The failure aborts the whole build, as the thrown error does.

## Model

| member | source | states |
|---|---|---|
| Traversal.Visit | src/dot.ts:46-62 | the work-list loop as a function: pop the last node, skip it if seen, else record it and push its successors; every node it yields is a node of the graph |
| Traversal.Enumerate | src/dot.ts:42-65 | the enumeration only yields nodes of the graph |
| Traversal.VisitSpec | src/dot.ts:46-62 | from any state of the loop, the nodes seen in the end include those already seen and every queued node, are distinct and reachable from the root, and are closed under successors |
| Traversal.EnumerateSpec | src/dot.ts:42-65 | the enumeration starts with the root, yields no node twice, and yields a node exactly when it is reachable from the root along regular and otherwise edges |
| Traversal.VisitSkip | src/dot.ts:49-51 | popping a node already seen leaves the outcome of the traversal unchanged |
| Traversal.VisitRecord | src/dot.ts:52-61 | popping an unseen node records it and pushes its successors |
| Traversal.PushSuccessors | src/dot.ts:54-61 | the work list gets the targets of the node's regular edges in order, then the otherwise target if there is one |
| Traversal.EnumerateNodes | src/dot.ts:42-65 | the stack-and-seen-set loop returns the order of `Enumerate`: root first, no repeats, exactly the reachable nodes |
| Graph.SuccessorsIn | src/dot.ts:54-61 | in a well-formed graph every successor is a node of the graph |
| Graph.ReachableStep | src/dot.ts:54-61 | a successor of a reachable node is reachable |
| Grouping.IndexOf | src/dot.ts:75 | the first position of a target in a list of targets, or the length if it does not occur |
| Grouping.FirstIndex | src/dot.ts:75 | the first position of an edge to the target, or the length if there is none |
| Grouping.Find | src/dot.ts:75-76 | `Map.has`/`Map.get`: the position of the entry for the target, or the length if the map has none; no earlier entry has that target |
| Grouping.InsertExisting | src/dot.ts:75-76 | appending to an existing entry keeps the map exact for the edges seen so far |
| Grouping.InsertNew | src/dot.ts:77-78 | adding a new entry at the end keeps the map exact for the edges seen so far |
| Grouping.GroupByTarget | src/dot.ts:73-80 | the edge map built by inserting the edges in order; its properties are `GroupByTargetSpec` and `GroupByTargetPermutes` |
| Grouping.GroupByTargetSpec | src/dot.ts:71-80 | the map has an entry exactly for each target that occurs. Each entry holds exactly the edges to its target, in their original order. Entries are ordered by first occurrence of their target |
| Grouping.GroupByTargetPermutes | src/dot.ts:71-80 | the entries of the map together hold every edge of the bucket exactly once |
| Grouping.BucketsPartition | src/dot.ts:73-74 | the two buckets together hold every edge exactly once, advancing edges in one and non-advancing in the other |
| Grouping.SplitPartition | src/dot.ts:71-80 | the two edge maps together hold every regular edge of the node exactly once |
| Grouping.BucketMembers | src/dot.ts:74 | an edge is in a bucket exactly when it is an edge of the node with that `noAdvance` flag |
| Grouping.EdgesToMembers | src/dot.ts:75-78 | an entry's edge list holds exactly the edges to its target |
| Grouping.EdgesToOther | src/dot.ts:75-78 | a new edge extends only the list of its own target, at the end |
| Grouping.GroupTargetsOccur | src/dot.ts:77-78 | every entry's target is the target of some edge of the bucket |
| Dot.SplitEdges | src/dot.ts:71-80 | the bucketing loop builds exactly the two first-occurrence maps of the advancing and the non-advancing edges |
| Classification.OfShapeSpec | src/dot.ts:100-110 | a classification list holds exactly the edges whose key has its shape |
| Classification.OfShapeAppend | src/dot.ts:100-110 | classification distributes over concatenation, so each list keeps the group's order |
| Classification.ShapesPartition | src/dot.ts:97-110 | without key-less edges, the three lists together hold every edge of the group exactly once |
| Classification.Classify | src/dot.ts:97-110 | the assertion failure if an edge has no key, else the three lists; its properties are `ClassifySpec` and `OfShapeAppend` |
| Classification.ClassifySpec | src/dot.ts:97-110 | classification fails exactly when some edge has no key. Otherwise the lists partition the group: one-byte keys, other byte keys (including empty ones) and codes |
| Classification.HasKeylessAppend | src/dot.ts:100-102 | a concatenation has a key-less edge exactly when one of its parts has |
| Classification.HasKeylessPermutation | src/dot.ts:100-102 | whether an entry fails does not depend on the order of its edges |
| Classification.SingleKeys | src/dot.ts:116-117 | the byte each single-byte edge matches, in order |
| Dot.ClassifyEdges | src/dot.ts:97-110 | the classification loop returns the failure or the three lists of `Classify` |
| Ranges.Expand | src/dot.ts:113-137 | a range stands for every byte from its start to its end, in increasing order |
| Ranges.ExpandAllMember | src/dot.ts:113-137 | every byte covered by a list of ranges lies within one of the ranges |
| Ranges.Compress | src/dot.ts:113-137 | the ranges of the keys, built key by key as the loop does; its properties are `CompressSpec` and `CompressUnique` |
| Ranges.CompressSpec | src/dot.ts:113-137 | every range has start <= end, and expanding the ranges in order gives back the key sequence exactly. Adjacent ranges are never contiguous. There is one range per run start: the first key and each key not one above its predecessor. The last range ends at the last key. No keys give no ranges, and only no keys do |
| Ranges.CompressUnique | src/dot.ts:113-137 | any list of ascending, non-contiguous ranges that expands to the keys is the compressed list |
| Ranges.ExtendStep | src/dot.ts:120-123 | a key one above the last range's end extends that range, keeping the compression correct |
| Ranges.OpenStep | src/dot.ts:126-131 | any other key closes the open range and opens a new one-key range, keeping the compression correct |
| Ranges.DigitsExample | test/dot-test.ts:14-15 | the keys '0' to '5' give the single range '0':'5' |
| Ranges.UnsortedExample | src/dot.ts:120 | descending and repeated bytes are never merged |
| Dot.CompressKeys | src/dot.ts:113-137 | the range loop produces the ranges of `Compress` over the single-byte keys |
| Strings.Digits | src/dot.ts:190 | `toString(radix)` gives at least one digit, each valid in the base |
| Strings.DigitsRoundTrip | src/dot.ts:190 | reading the digits back in the same base gives the number |
| Strings.HexDigitsLength | src/dot.ts:190-193 | a byte has one hex digit below 16 and two from 16 on |
| Strings.NumberRoundTrip | src/dot.ts:171 | the decimal text of a code is made of '-' and decimal digits and reads back as the code |
| DotText.Escape | src/dot.ts:201-203 | a backslash before every backslash and double quote; its properties are `EscapeLength`, `EscapeAppend`, `EscapePlain` and `ReadQuotedEscape` |
| DotText.EscapeLength | src/dot.ts:201-203 | escaping adds exactly one character per backslash or double quote |
| DotText.EscapeAppend | src/dot.ts:201-203 | escaping works character by character |
| DotText.EscapePlain | src/dot.ts:201-203 | text without backslashes or double quotes is unchanged |
| DotText.ReadQuotedEscape | src/dot.ts:201-203 | removing the inserted backslashes recovers the input, and an escaped value never ends a quoted string early |
| DotText.ReadFieldEscape | src/dot.ts:159-161 | a separator followed by an escaped value reads back as the value |
| DotText.LineRoundTrip | src/dot.ts:159-161 | a statement with escaped names, label and colour reads back as its source name, target name, label text and colour |
| DotText.HexByteSpec | src/dot.ts:189-194 | a non-printable byte's label is `0x` and two lower-case hex digits whose value is the byte |
| DotText.BuildChar | src/dot.ts:185-195 | the label of one byte of a range; its properties are `BuildCharSpec` and `HexByteSpec` |
| DotText.BuildCharSpec | src/dot.ts:185-195 | a character label is the escaped single-quoted character for 0x20-0x7e and the hex form otherwise. Its text is 3 or 4 characters long and reads back as the byte |
| DotText.ReadRangeText | src/dot.ts:155-161 | the `start:end` text of a range reads back as the range |
| DotText.DecodeText | src/dot.ts:198 | one character per byte, of the same code, which is what `Buffer.toString()` gives for ASCII bytes |
| DotText.BuildBuffer | src/dot.ts:197-199 | the label of a byte-sequence edge; its properties are `BuildBufferSpec` and `BufferReadsBack` |
| DotText.BuildBufferSpec | src/dot.ts:197-199 | for any bytes, a byte-sequence label is the escaped form of the decoded text in single quotes |
| DotText.BufferReadsBack | src/dot.ts:197-199 | for ASCII bytes, the label text reads back as the bytes |
| DotText.CodeTextSpec | src/dot.ts:171 | an invocation label `code: N` needs no escaping and reads back as the code |
| Rendering.KindColorPlain | src/dot.ts:158 | the colour of a range is inserted unchanged |
| Rendering.RangeLabelEscaped | src/dot.ts:156-157 | the range label is the escaped text of its two characters around ':' |
| Rendering.BuildRange | src/dot.ts:155-162 | the statement of one range; its property is `BuildRangeReadsBack` |
| Rendering.BuildRangeReadsBack | src/dot.ts:155-162 | a range statement goes from the node to the range's target, its label reads back as the range, and it is blue for non-advancing and black for advancing edges |
| Rendering.EdgeLabelEscaped | src/dot.ts:168-179 | an edge's label and colour are written as their escaped texts |
| Rendering.BuildEdge | src/dot.ts:164-183 | the statement of one edge; its property is `BuildEdgeReadsBack` |
| Rendering.BuildEdgeReadsBack | src/dot.ts:164-183 | an edge statement goes from the node to the edge's target. An invocation reads back as its code in green. A byte sequence gets a single-quoted label, which reads back as its bytes when they are ASCII; it is blue exactly for non-advancing. The otherwise edge is `otherwise` in blue exactly when non-advancing, else `skipTo` in black |
| Rendering.GroupTargetsIn | src/dot.ts:71-80 | every entry of a node's edge map targets a node of the graph |
| Dot.EmitRanges | src/dot.ts:139-141 | the range loop appends one range statement per range, in order |
| Dot.EmitEdges | src/dot.ts:144-149 | the sequence and code loops append one edge statement per edge, in order |
| Dot.BuildGroup | src/dot.ts:96-150 | one entry of an edge map gives its ranges, then its byte sequences, then its codes, or fails on a key-less edge |
| Dot.BuildEdgeMap | src/dot.ts:93-153 | the statements of every entry in insertion order, or the first entry's failure |
| Dot.BuildOtherwise | src/dot.ts:85-88 | the otherwise statement if the node has an otherwise edge, else nothing |
| Dot.BuildNode | src/dot.ts:67-91 | the advancing map, then the non-advancing map, then the otherwise edge |
| Rendering.Document | src/dot.ts:23-40 | the document as a function of the graph and root; its properties are `DocumentFails`, `DocumentSays` and `DocumentDraws` |
| Dot.Build | src/dot.ts:23-40 | the header, the blocks of the enumerated nodes in enumeration order and the closing brace, or the failure |
| Properties.EdgeMapFails | src/dot.ts:100-102 | an edge map fails exactly when one of its entries holds a key-less edge, with the assertion's message |
| Properties.NodeFails | src/dot.ts:82-83 | a node's block fails exactly when one of its regular edges has no key |
| Properties.NodesFail | src/dot.ts:33-35 | the node blocks fail exactly when one of the nodes has a key-less regular edge |
| Properties.DocumentFails | src/dot.ts:23-40 | the build fails exactly when a node reachable from the root has a key-less regular edge, and the error is the assertion's message |
| Properties.RangeLinesSay | src/dot.ts:139-141 | every range statement parses, from the node to the entry's target, in the map's colour (so in any set of colours holding it) |
| Properties.EdgeLinesSay | src/dot.ts:144-149 | every sequence or code statement parses, from the node to the entry's target, in its kind's colour |
| Properties.GroupSays | src/dot.ts:96-150 | every statement of an entry goes from the node to the entry's target, in the map's colour or green |
| Properties.EdgeMapSays | src/dot.ts:93-153 | every statement of an edge map goes from the node to one of the map's targets |
| Properties.GroupTargetsAreSuccessors | src/dot.ts:71-80 | every target of a node's edge maps is a successor of the node |
| Properties.EdgeMapToSuccessors | src/dot.ts:82-83 | every edge-map statement of a node goes to a successor of the node |
| Properties.NodeSays | src/dot.ts:67-91 | every statement of a node's block parses and goes from the node to one of its successors |
| Properties.NodesSay | src/dot.ts:33-35 | every statement of the body comes from one of the enumerated nodes |
| Properties.DocumentSays | src/dot.ts:23-40 | the document is header, body and `}`, and every body statement is an edge from a reachable node to one of its successors |
| Properties.RangeDraws | src/dot.ts:155-162 | a range statement draws every single-byte edge whose key lies in the range |
| Properties.EdgeDraws | src/dot.ts:164-183 | a sequence or code statement draws its edge in the colour of its kind. A code label reads back as the code. A byte-sequence label is single-quoted and, for ASCII bytes, reads back as the bytes |
| Properties.SingleDrawn | src/dot.ts:113-141 | every single-byte edge of an entry is covered by one of the entry's range statements |
| Properties.GroupMemberDrawn | src/dot.ts:139-149 | every edge of a classified entry is drawn by one of its statements |
| Properties.GroupDraws | src/dot.ts:96-150 | every edge of an entry is drawn by the entry's statements |
| Properties.MapEntries | src/dot.ts:71-80 | every edge of a bucket is in the map entry of its target, and every entry has the bucket's flag |
| Properties.EdgeMapDraws | src/dot.ts:93-153 | every edge of every entry of an edge map is drawn by the map's statements, to the entry's target |
| Properties.NodeParts | src/dot.ts:82-88 | a node's block is its advancing map, then its non-advancing map, then its otherwise statement |
| Properties.RegularEdgesDrawn | src/dot.ts:67-91 | every regular edge of the node is drawn in its block |
| Properties.NodeDraws | src/dot.ts:67-91 | a node's block draws every regular edge and the otherwise edge, if any, with its label and colour |
| Properties.NodesDraw | src/dot.ts:33-35 | the body draws every edge of every enumerated node |
| Properties.DocumentDraws | src/dot.ts:23-40 | the document is header, body and `}`, and the body draws every edge of every node reachable from the root, each in the colour of its kind. Its label reads back as its code or single byte, and as its byte sequence when the bytes are ASCII |

## Left out

- The llparse-builder classes `Node`, `Edge` and `Builder` are not part of this model. A node is an index into a sequence of records, and node identity is index equality. `Symbol.iterator` is the `edges` field and `getOtherwiseEdge` is the `otherwise` field.
- The maps of `buildNode` and the arrays of `buildEdgeMap` are sequences that the methods reassign, not objects updated in place. The one alias in the source is `targets` (src/dot.ts:74-78), a second name for one of the two maps through which an entry's array is pushed or a new entry set. `Dot.SplitEdges` models it by copying the chosen map into `targets`, updating the copy and writing it back to the map it came from. Nothing else is shared.
- DotText.DecodeText: `Buffer.toString()` decodes UTF-8. The model maps each byte to the character of the same code, which agrees for ASCII. Multi-byte UTF-8 sequences and replacement characters are not modelled, so for bytes from 0x80 on the model's label text differs from the program's.
- DotText.BufferReadsBack: the read-back is promised only for ASCII bytes. The program decodes two different invalid bytes to the same replacement character, so their labels cannot be told apart.
- Rendering.BuildEdgeReadsBack: for a byte sequence with a byte from 0x80 on, only the single-quoted shape of the label is promised, not its read-back.
- Properties.EdgeDraws: for a byte sequence with a byte from 0x80 on, the label is only promised to be single-quoted.
- Properties.DocumentDraws: for a byte sequence with a byte from 0x80 on, the label is only promised to be single-quoted.
- Strings.NumberRoundTrip: JavaScript's number-to-string is modelled for integers as plain decimal with a leading '-'. The exponent form used from 1e21 on and non-integer codes are not modelled.
- The `assert` module: a failed assertion becomes a `Failure` result, with no exception object and no stack.
- The escaped `name` computed at src/dot.ts:69 and the constant `COLOR_OTHERWISE` (src/dot.ts:14) are never used by the code, so neither appears in the model.
- Some methods split one source function into parts, and each part is proved separately: `Dot.EmitRanges`, `Dot.EmitEdges`, `Dot.BuildGroup`, `Dot.SplitEdges`, `Dot.BuildOtherwise` and `Traversal.PushSuccessors`.
- test/dot-test.ts writes its output to a file and asserts nothing. Its scenario appears only as `Ranges.DigitsExample`.
- The model follows the code where a richer design is imaginable:
  - Node names are not disambiguated; two nodes with the same name produce the same DOT identifier.
  - Labels of one target are not joined with `|`; every range, sequence and code gets its own statement.
  - A range is always labelled `start:end`, even for a single byte.
  - Newline, carriage return and tab print as hex, like any other byte outside 0x20-0x7e.
