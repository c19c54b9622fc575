/** The units of a node's columns. Tree-sitter reports `Point.column` as a byte offset into the
    UTF-8 text of the line, while `Rope::line_to_char`, `slice`, `remove` and `insert` count
    characters; src/parser.rs:31-33, 66-73 and src/import_replacer.rs:53-57 add the one to the
    other. The two agree on lines whose text before the node is ASCII. `ByteColumnsMisread` shows
    the source's reading on a line where they do not, and `CharNode` is the corrected reading,
    which gives the character-column nodes the rest of the model takes. */
module Columns {
  import opened Parser
  import Rope
  import Seqs
  import Rewrite

  /** The number of bytes UTF-8 writes a character in. */
  function Utf8Width(c: char): (w: nat)
    ensures 1 <= w <= 4
    ensures w == 1 <==> c as int < 0x80
  {
    if c as int < 0x80 then 1
    else if c as int < 0x800 then 2
    else if c as int < 0x1_0000 then 3
    else 4
  }

  predicate IsAscii(s: string) {
    forall i :: 0 <= i < |s| ==> s[i] as int < 0x80
  }

  /** The byte offset of character column `col` of `line`, as tree-sitter reports it: it is never
      less than the character column, and equals it exactly when the characters before it are
      ASCII. */
  function ByteColumn(line: string, col: nat): (b: nat)
    requires col <= |line|
    ensures b >= col
    ensures b == col <==> IsAscii(line[..col])
    decreases col
  {
    if col == 0 then 0
    else
      var rest := ByteColumn(line[1..], col - 1);
      assert line[..col] == [line[0]] + line[1..][..col - 1];
      Utf8Width(line[0]) + rest
  }

  /** The character column at byte offset `b` of `line`: the characters are walked until their
      bytes reach `b`. An offset inside a character counts as that character's column. */
  function CharColumn(line: string, b: nat): (c: nat)
    ensures c <= |line|
    decreases |line|
  {
    if b == 0 || |line| == 0 then 0
    else if b < Utf8Width(line[0]) then 0
    else 1 + CharColumn(line[1..], b - Utf8Width(line[0]))
  }

  /** The character column of a character column's byte offset is that column. */
  lemma {:induction false} CharColumnOfByteColumn(line: string, col: nat)
    requires col <= |line|
    ensures CharColumn(line, ByteColumn(line, col)) == col
    decreases col
  {
    if col > 0 {
      CharColumnOfByteColumn(line[1..], col - 1);
    }
  }

  /** The corrected reading of a node: its byte columns taken back to character columns of their
      lines. */
  function CharNode(ls: seq<string>, node: Node): (r: Node)
    requires node.start.row < |ls| && node.end.row < |ls|
    ensures r.start.row == node.start.row && r.end.row == node.end.row
    ensures r.start.column <= |ls[node.start.row]| && r.end.column <= |ls[node.end.row]|
  {
    Node(Point(node.start.row, CharColumn(ls[node.start.row], node.start.column)),
         Point(node.end.row, CharColumn(ls[node.end.row], node.end.column)))
  }

  /** A quoted literal at characters [c0, c1) of a line, reported by tree-sitter in bytes: read back
      in characters, the node is [c0, c1) and its slice reads the literal without its quotes,
      whatever characters the line holds. */
  lemma CharNodeReadsLiteral(ls: seq<string>, row: nat, c0: nat, c1: nat)
    requires |ls| > 0 && Rope.NoNewlines(ls) && row < |ls|
    requires c0 + 2 <= c1 <= |ls[row]|
    ensures var node := Node(Point(row, ByteColumn(ls[row], c0)), Point(row, ByteColumn(ls[row], c1)));
            CharNode(ls, node) == Node(Point(row, c0), Point(row, c1))
    ensures WithinLine(ls, SliceOf(Node(Point(row, c0), Point(row, c1))))
    ensures row <= Rope.NewlineCount(Rope.JoinLines(ls))
    ensures var range := ToIndexRange(SliceOf(Node(Point(row, c0), Point(row, c1))), Rope.JoinLines(ls));
            && range.1 <= |Rope.JoinLines(ls)|
            && Rope.JoinLines(ls)[range.0..range.1] == ls[row][c0 + 1..c1 - 1]
  {
    CharColumnOfByteColumn(ls[row], c0);
    CharColumnOfByteColumn(ls[row], c1);
    var lit := Node(Point(row, c0), Point(row, c1));
    SliceSkipsQuotes(ls, lit);
    Seqs.SliceOfPiece(ls[row], c0, c1 - c0, 1, c1 - c0 - 1);
  }

  /** The bytes of a column past a prefix are the prefix's bytes and the column's bytes in the rest. */
  lemma {:induction false} ByteColumnAppend(a: string, b: string, k: nat)
    requires k <= |b|
    ensures ByteColumn(a + b, |a| + k) == ByteColumn(a, |a|) + ByteColumn(b, k)
    decreases |a|
  {
    if |a| > 0 {
      assert (a + b)[1..] == a[1..] + b;
      ByteColumnAppend(a[1..], b, k);
    } else {
      assert a + b == b;
    }
  }

  /** A comment holding one two-byte character, and the import after it. */
  const Comment: string := "/*\U{E9}*/"
  const Code: string := "import a from './b';"

  /** The line with the comment before the import. */
  const CommentedLine: string := Comment + Code

  lemma CommentBytes()
    ensures |Comment| == 5 && ByteColumn(Comment, 5) == 6
  {
    var c := Comment;
    assert c[1..] == "*\U{E9}*/" && c[2..] == "\U{E9}*/" && c[3..] == "*/" && c[4..] == "/" && c[5..] == "";
    assert Utf8Width(c[2]) == 2;
  }

  lemma CodeIsAscii()
    ensures |Code| == 20 && IsAscii(Code[..14]) && IsAscii(Code[..19])
  {
    assert IsAscii(Code) by {
      forall i | 0 <= i < |Code| ensures Code[i] as int < 0x80 {}
    }
    assert IsAscii(Code[..14]) && IsAscii(Code[..19]);
  }

  lemma ByteColumnsOfCommentedLine()
    ensures |CommentedLine| == 25
    ensures ByteColumn(CommentedLine, 19) == 20 && ByteColumn(CommentedLine, 24) == 25
  {
    CommentBytes();
    CodeIsAscii();
    ByteColumnAppend(Comment, Code, 14);
    ByteColumnAppend(Comment, Code, 19);
  }

  lemma PiecesOfCommentedLine()
    ensures CommentedLine[19..24] == "'./b'" && CommentedLine[20..23] == "./b" && CommentedLine[21..24] == "/b'"
  {
    CommentBytes();
    CodeIsAscii();
    assert CommentedLine[19..24] == Code[14..19];
    assert CommentedLine[20..23] == Code[15..18];
    assert CommentedLine[21..24] == Code[16..19];
  }

  /** On the first line, the range of a slice is its columns. */
  lemma RangeOnFirstLine(slice: TextSlice, t: string)
    requires slice.startRow == 0 && slice.endRow == 0
    ensures ToIndexRange(slice, t) == (slice.startCol, slice.endCol)
  {
  }

  /** As written, the source adds the byte columns to the character offset of the line. On
      `CommentedLine`, whose literal `'./b'` stands at characters [19, 24) and at bytes [20, 25),
      it reads `/b'` instead of `./b`, which does not start with '.', so the import is skipped. */
  lemma ByteColumnsMisread()
    ensures var node := Node(Point(0, ByteColumn(CommentedLine, 19)), Point(0, ByteColumn(CommentedLine, 24)));
            && CommentedLine[19..24] == "'./b'"
            && node == Node(Point(0, 20), Point(0, 25))
            && ToIndexRange(SliceOf(node), Rope.JoinLines([CommentedLine])) == (21, 24)
            && CommentedLine[21..24] == "/b'"
            && !Rewrite.IsRelative(CommentedLine[21..24])
  {
    ByteColumnsOfCommentedLine();
    PiecesOfCommentedLine();
    RangeOnFirstLine(TextSlice(0, 21, 0, 24), Rope.JoinLines([CommentedLine]));
  }

  /** With the columns read back in characters, the same node reads `./b`. */
  lemma CharNodeOfCommentedLine()
    ensures var node := Node(Point(0, ByteColumn(CommentedLine, 19)), Point(0, ByteColumn(CommentedLine, 24)));
            var range := ToIndexRange(SliceOf(CharNode([CommentedLine], node)), Rope.JoinLines([CommentedLine]));
            && CharNode([CommentedLine], node) == Node(Point(0, 19), Point(0, 24))
            && range == (20, 23)
            && CommentedLine[range.0..range.1] == "./b"
            && Rewrite.IsRelative(CommentedLine[range.0..range.1])
  {
    ByteColumnsOfCommentedLine();
    CharColumnOfByteColumn(CommentedLine, 19);
    CharColumnOfByteColumn(CommentedLine, 24);
    PiecesOfCommentedLine();
    RangeOnFirstLine(TextSlice(0, 20, 0, 23), Rope.JoinLines([CommentedLine]));
  }
}
