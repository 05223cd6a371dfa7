# ParsedDocument: newline index and whole-document source range

This project models the shared base of polymer-analyzer's parsed documents
(`ParsedDocument` in `src/parser/document.ts`). A parser builds one from an
`Options` bundle: URL, optional base URL, text, AST, optional location offset,
parent node and inline flag. The constructor copies these into fields and
defaults the base URL to the URL. It then scans the text for every `'\n'`
using repeated `indexOf` calls and records the offsets in `newlineIndexes`.
Finally it builds the source range spanning the whole document and corrects
that range into the enclosing file's coordinates with the stored location
offset. `sourceRangeForNode` uses that same offset to correct the range that
a syntax-specific subclass gives for a node.

Modules:

- `Wrappers` (`wrappers.dfy`): `Option`, used for `T | undefined` and `T | null`.
- `SourceRanges` (`source_range.dfy`): `SourcePosition`, `SourceRange`,
  `LocationOffset`, and the `Corrector` shape of `correctSourceRange`.
  The module that defines `correctSourceRange` (`src/model/source-range.ts`)
  is not part of this model. The document therefore receives the corrector
  as a constructor parameter. The model assumes only the one fact the source
  relies on with its `!` at line 75: a present range is corrected into a
  present range (`KeepsPresent`).
- `NewlineScan` (`newlines.dfy`): JavaScript's `indexOf` for one character,
  the reference list of newline offsets (`Newlines`, `NewlineIndexes`), and
  an independent definition of the length of the last line (`LastLineLength`).
- `Documents` (`document.dfy`): `Options`, the base-URL default, the
  whole-document range arithmetic, and the `ParsedDocument` class. The
  syntax-specific hook `_sourceRangeForNode` is supplied as the function
  field `nodeRange`.

The constructor keeps the source's `while (true)` loop, including its `break`.
The loop appends to the `newlineIndexes` field. Its invariant says that the
field holds exactly the newlines before `lastSeen + 1`, in order. Its measure
is `|contents| - lastSeen`.

A behaviour the model keeps: the source reads the final newline's offset as
`newlineIndexes[len - 1] || -1`. An offset of 0 is falsy in JavaScript, so a
text whose only newline is its first character is treated as if it had no
newline. For example, `"\nabc"` ends at line 1, column 4, not column 3. The
model computes what the code computes. `FinalNewlineAtZero` and
`DocumentRangeEndColumn` state this case exactly.

## Model

| member | source | states |
|---|---|---|
| `NewlineScan.IndexOf` | src/parser/document.ts:59 | the result is -1 or the first offset at or after `from` holding the character; -1 exactly when no later offset holds it |
| `NewlineScan.LastLineLength` | src/parser/document.ts:72 | reference for the end column: at most `|s|`; no newline in the last `r` characters; the character just before them is a newline |
| `NewlineScan.NewlineIndexesExact` | src/parser/document.ts:41-46 | the newline offsets are strictly increasing, each is in range and holds `'\n'`, and every `'\n'` in the text is listed |
| `NewlineScan.NewlineIndexesUnique` | src/parser/document.ts:41-46 | any strictly increasing list of exactly the text's newline offsets is the newline index: the description determines it |
| `NewlineScan.NewlineIndexesCount` | src/parser/document.ts:71 | the number of newline offsets equals the number of `'\n'` characters in the text |
| `NewlineScan.NewlinesSkip` | src/parser/document.ts:59-61 | the loop step: skipping a stretch with no newline, as `indexOf` does, leaves the list of newlines found unchanged |
| `Documents.BaseUrlOf` | src/parser/document.ts:50 | the base URL is the given one when present and non-empty, the URL otherwise; it is empty only if the URL is |
| `Documents.ParsedDocument.constructor` | src/parser/document.ts:48-76 | fields copied from the options; `newlineIndexes` equals the text's newline offsets; the loop terminates; `sourceRange` is the corrected whole-document range, which is present |
| `Documents.FinalNewline` | src/parser/document.ts:65-66 | the final newline's offset read with JavaScript falsiness: -1, or the last entry when that entry is not 0; a last entry of 0, like an empty list, gives -1 (see `FinalNewlineAtZero`) |
| `Documents.DocumentRange` | src/parser/document.ts:67-74 | the uncorrected whole-document range: the document's URL, start 0:0; built from the text's newline offsets it ends on the line numbered by the count of `'\n'` characters, at a column in `[0, |contents|]` (exact column in `DocumentRangeEndColumn`) |
| `Documents.DocumentRangeLines` | src/parser/document.ts:67-71 | the uncorrected range has the document's URL as its file, starts at 0:0, and ends on the line numbered by the count of newlines |
| `Documents.DocumentRangeEndColumn` | src/parser/document.ts:65-72 | the uncorrected end column lies in `[0, |contents|]`; it is the last line's length, or one more when the only newline is at offset 0 |
| `Documents.FinalNewlineAtZero` | src/parser/document.ts:65-66 | a text whose only newline is at offset 0 ends at line 1, column `|contents|` |
| `Documents.EmptyDocument` | src/parser/document.ts:57-74 | empty text gives no newline offsets and an uncorrected range from 0:0 to 0:0 |
| `Documents.ThreeLineExample` | src/parser/document.ts:57-74 | `"a\nbb\nccc"` has newlines at 1 and 4, and its range ends at 2:3 |
| `Documents.ParsedDocument.SourceRangeForNode` | src/parser/document.ts:91-94 | a node that the syntax-specific hook locates always gets a corrected range |
| `Documents.ParsedDocument.WholeDocumentNode` | src/parser/document.ts:75 | a node whose uncorrected range is the whole document's gets exactly the document's `sourceRange`, because both use one correction with one stored offset |

## Left out

- `correctSourceRange` internals (the line shift, the line-0 column shift and the filename override): `src/model/source-range.ts` is not part of this model. The corrector is a parameter, and the only fact assumed about it is that it keeps a present range present.
- `visit`, `forEachNode`, `_sourceRangeForNode` and `stringify` (src/parser/document.ts:81, 89, 96, 101) are abstract and have no body. The document-order and completeness promise of `forEachNode` binds the concrete subclasses, which are not modelled. `_sourceRangeForNode` appears only as the supplied function `nodeRange`.
- The abstract `type` field (src/parser/document.ts:24) and `StringifyOptions` (src/parser/document.ts:114-123) are used only by the subclasses and by `stringify`.
- `offsetToSourcePosition` through `sourceRangeToOffsets` are declared in lib/parser/document.d.ts:52-61. src/parser/document.ts at the modelled revision does not define them, so they are not modelled.
- lib/javascript/function.d.ts (`ScannedFunction`, `Function`) and lib/polymer/polymer2-config.d.ts are declaration files. `resolve`, `kinds` and `identifiers` are declared there without bodies.
- `toString`, warnings, and any parsing or I/O.
- JavaScript numbers are modelled as unbounded integers. Offsets stay far below 2^53, so this changes nothing.
- JavaScript strings are sequences of UTF-16 code units. The model uses `seq<char>`, and offsets count its elements.
  A Dafny `char` is a Unicode scalar value. For text with characters outside the Basic Multilingual Plane, every offset and the end column are therefore smaller than JavaScript's, by one for each such character before them. A lone surrogate cannot be represented at all.
- `url`, `baseUrl`, `contents`, `isInline` and `astNode` are public, reassignable fields in the source (src/parser/document.ts:25-35). The model treats them as immutable after construction (`const`). As a result, the model does not capture that reassigning `contents` leaves `newlineIndexes` and `sourceRange` stale.
- `newlineIndexes` is a `readonly` reference to a mutable array in the source (src/parser/document.ts:46). Other code holding that array can `push` into it and make it stale. The model stores it as a `seq<int>` field, which cannot be aliased, and no operation changes it after construction.
- In-place mutation of `ast` by later passes is outside the model. No operation of the model changes `ast` after construction.
- `astNode: any | null` is modelled as `Option` of a node type. The model does not distinguish `null` from `undefined`.
