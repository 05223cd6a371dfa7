/**
 * A parsed document: the text of one file (or of a fragment inlined in
 * another file), its AST, the offsets of its newlines and the source range
 * spanning all of it, corrected into the coordinates of the enclosing file.
 */
module Documents {
  import opened Wrappers
  import opened SourceRanges
  import opened NewlineScan

  /**
   * What a parser hands to the document: the AST has type `A`, and the node
   * of the parent document an inline document sits in has type `P`.
   */
  datatype Options<A, P> = Options(
    url: string,
    baseUrl: Option<string>,
    contents: string,
    ast: A,
    locationOffset: Option<LocationOffset>,
    astNode: Option<P>,
    isInline: bool)

  /**
   * `from.baseUrl || from.url`: an absent or empty base URL (both falsy in
   * JavaScript) falls back to the document's URL.
   */
  function BaseUrlOf<A, P>(from: Options<A, P>): (r: string)
    ensures from.baseUrl.Some? && from.baseUrl.value != "" ==> r == from.baseUrl.value
    ensures from.baseUrl.None? || from.baseUrl.value == "" ==> r == from.url
    ensures r == "" ==> from.url == ""
  {
    if from.baseUrl.Some? && from.baseUrl.value != "" then from.baseUrl.value else from.url
  }

  /**
   * `newlineIndexes[newlineIndexes.length - 1] || -1`: both a missing last
   * entry (no newline at all) and a last entry of 0 are falsy in JavaScript,
   * so both give -1.
   */
  function FinalNewline(newlineIndexes: seq<int>): (r: int)
    ensures r == -1 || (|newlineIndexes| > 0 && r == newlineIndexes[|newlineIndexes| - 1] && r != 0)
    ensures |newlineIndexes| > 0 && newlineIndexes[|newlineIndexes| - 1] != 0 ==>
      r == newlineIndexes[|newlineIndexes| - 1]
  {
    if |newlineIndexes| == 0 || newlineIndexes[|newlineIndexes| - 1] == 0 then -1
    else newlineIndexes[|newlineIndexes| - 1]
  }

  /**
   * The whole-document range before correction, as the constructor builds it.
   * Built from the text's own newline offsets, it ends on the line numbered
   * by the count of newlines, at a column within the text.
   */
  function DocumentRange(url: string, contents: string, newlineIndexes: seq<int>): (r: SourceRange)
    ensures r.file == url && r.start == SourcePosition(0, 0)
    ensures newlineIndexes == NewlineIndexes(contents) ==>
      r.end.line == multiset(contents)['\n'] && 0 <= r.end.column <= |contents|
  {
    NewlineIndexesExact(contents);
    NewlineIndexesCount(contents);
    SourceRange(url, SourcePosition(0, 0),
      SourcePosition(|newlineIndexes|, |contents| - (FinalNewline(newlineIndexes) + 1)))
  }

  /**
   * The uncorrected range belongs to the document's URL, starts at line 0,
   * column 0, and ends on the line numbered by the count of newlines. This
   * restates `DocumentRange`'s contract for the text's own newline offsets.
   */
  lemma DocumentRangeLines(url: string, contents: string)
    ensures var r := DocumentRange(url, contents, NewlineIndexes(contents));
      r.file == url && r.start == SourcePosition(0, 0) &&
      r.end.line == multiset(contents)['\n']
  {
    NewlineIndexesCount(contents);
  }

  /**
   * The uncorrected end column is the length of the text after the last
   * newline, except when the only newline is at offset 0: that newline is
   * taken for none, and the column is one more.
   */
  lemma DocumentRangeEndColumn(url: string, contents: string)
    ensures var r := DocumentRange(url, contents, NewlineIndexes(contents));
      0 <= r.end.column <= |contents| &&
      r.end.column == if NewlineIndexes(contents) == [0] then LastLineLength(contents) + 1
                      else LastLineLength(contents)
  {
    var n := NewlineIndexes(contents);
    LastLineFromNewlines(contents, |contents|);
    assert contents[..|contents|] == contents;
    NewlineIndexesExact(contents);
    if |n| > 0 && n[|n| - 1] == 0 {
      EndsAtZero(n);
    }
  }

  /**
   * The final-newline-at-offset-0 case: a text whose one newline is its first
   * character ends at line 1, column `|contents|` (so "\nabc" ends at
   * column 4 rather than 3).
   */
  lemma FinalNewlineAtZero(url: string, contents: string)
    requires |contents| > 0 && contents[0] == '\n'
    requires forall i :: 0 < i < |contents| ==> contents[i] != '\n'
    ensures DocumentRange(url, contents, NewlineIndexes(contents)).end
      == SourcePosition(1, |contents|)
  {
    NewlineIndexesExact(contents);
    var n := NewlineIndexes(contents);
    assert 0 in n;
    EndsAtZero(n);
  }

  /** An empty text has no newlines and an uncorrected range that is the single point 0:0. */
  lemma EmptyDocument(url: string)
    ensures NewlineIndexes("") == []
    ensures DocumentRange(url, "", NewlineIndexes(""))
      == SourceRange(url, SourcePosition(0, 0), SourcePosition(0, 0))
  {
  }

  /** "a\nbb\nccc" has newlines at 1 and 4, and its uncorrected range ends at 2:3. */
  lemma ThreeLineExample(url: string)
    ensures NewlineIndexes("a\nbb\nccc") == [1, 4]
    ensures DocumentRange(url, "a\nbb\nccc", [1, 4]).end == SourcePosition(2, 3)
  {
    var s := "a\nbb\nccc";
    assert Newlines(s, 2) == [1];
    assert Newlines(s, 5) == [1, 4];
    NewlinesSkip(s, 5, 8);
  }

  /**
   * A parsed document. `AstNode` is the type of the document's AST nodes and
   * `ParentNode` that of the parent node an inline document sits in.
   * `correct` stands for `correctSourceRange`, and `nodeRange` for the
   * syntax-specific `_sourceRangeForNode` a concrete document type supplies.
   * The source's `Visitor` type parameter is dropped together with `visit`,
   * the only member that uses it.
   */
  class ParsedDocument<AstNode, ParentNode> {
    const url: string
    const baseUrl: string
    const contents: string
    var ast: AstNode
    const isInline: bool
    /** The node of the parent document this inline document sits in, if any. */
    const astNode: Option<ParentNode>
    var sourceRange: SourceRange
    const locationOffset: Option<LocationOffset>
    /** The 0-based offsets into `contents` of all newline characters. */
    var newlineIndexes: seq<int>
    const correct: Corrector
    const nodeRange: AstNode -> Option<SourceRange>

    ghost predicate Valid()
      reads this
    {
      KeepsPresent(correct) &&
      newlineIndexes == NewlineIndexes(contents) &&
      correct(Some(DocumentRange(url, contents, newlineIndexes)), locationOffset) == Some(sourceRange)
    }

    constructor (from: Options<AstNode, ParentNode>, correct: Corrector,
                 nodeRange: AstNode -> Option<SourceRange>)
      requires KeepsPresent(correct)
      ensures url == from.url && baseUrl == BaseUrlOf(from) && contents == from.contents
      ensures ast == from.ast && locationOffset == from.locationOffset
      ensures astNode == from.astNode && isInline == from.isInline
      ensures this.correct == correct && this.nodeRange == nodeRange
      ensures newlineIndexes == NewlineIndexes(from.contents)
      ensures correct(Some(DocumentRange(from.url, from.contents, newlineIndexes)), from.locationOffset)
        == Some(sourceRange)
      ensures Valid()
    {
      url := from.url;
      baseUrl := BaseUrlOf(from);
      contents := from.contents;
      ast := from.ast;
      locationOffset := from.locationOffset;
      astNode := from.astNode;
      isInline := from.isInline;
      this.correct := correct;
      this.nodeRange := nodeRange;
      newlineIndexes := [];
      new;
      var lastSeen := -1;
      while true
        invariant -1 <= lastSeen < |from.contents|
        invariant newlineIndexes == Newlines(from.contents, lastSeen + 1)
        invariant ast == from.ast
        decreases |from.contents| - lastSeen
      {
        ghost var previous := lastSeen;
        lastSeen := IndexOf(from.contents, '\n', lastSeen + 1);
        if lastSeen == -1 {
          NewlinesSkip(from.contents, previous + 1, |from.contents|);
          break;
        }
        NewlinesSkip(from.contents, previous + 1, lastSeen);
        newlineIndexes := newlineIndexes + [lastSeen];
      }
      var range := DocumentRange(url, from.contents, newlineIndexes);
      sourceRange := correct(Some(range), locationOffset).value;
    }

    /**
     * The node's range from the syntax-specific hook, corrected with the same
     * location offset as the document's own range; a node the hook locates
     * always gets a range.
     */
    function SourceRangeForNode(node: AstNode): (r: Option<SourceRange>)
      requires KeepsPresent(correct)
      ensures nodeRange(node).Some? ==> r.Some?
    {
      correct(nodeRange(node), locationOffset)
    }

    /**
     * A node whose uncorrected range is the whole document's gets exactly the
     * document's `sourceRange`: both go through one correction with one offset.
     */
    lemma WholeDocumentNode(node: AstNode)
      requires Valid()
      requires nodeRange(node) == Some(DocumentRange(url, contents, newlineIndexes))
      ensures SourceRangeForNode(node) == Some(sourceRange)
    {
    }
  }
}
