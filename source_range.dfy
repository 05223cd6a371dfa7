/**
 * Source positions and ranges, and the location offset of an inline document
 * inside its parent. The correction function that applies a location offset
 * lives in a module that is not part of this model; it is taken as a
 * parameter of type `Corrector`, and the only fact the document relies on
 * about it is `KeepsPresent`.
 */
module SourceRanges {
  import opened Wrappers

  /** A 0-based line and column within one file. */
  datatype SourcePosition = SourcePosition(line: int, column: int)

  /** The region from `start` to `end` of the file `file`. */
  datatype SourceRange = SourceRange(file: string, start: SourcePosition, end: SourcePosition)

  /**
   * Where line 0 of an inline document sits in its parent: its lines are
   * shifted by `line`, columns on its line 0 by `col`, and `filename`, when
   * present, names the file the corrected range belongs to.
   */
  datatype LocationOffset = LocationOffset(line: int, col: int, filename: Option<string>)

  /** The shape of `correctSourceRange(range, locationOffset)`. */
  type Corrector = (Option<SourceRange>, Option<LocationOffset>) -> Option<SourceRange>

  /** A present range is corrected into a present range, whatever the offset. */
  ghost predicate KeepsPresent(correct: Corrector)
  {
    forall r: SourceRange, o: Option<LocationOffset> :: correct(Some(r), o).Some?
  }
}
