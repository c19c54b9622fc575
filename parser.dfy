/** The pure parts of src/parser.rs: the grammar chosen by a file's suffix, the `TextSlice` built
    for a captured string-literal node, and `TextSlice::to_index_range`. Parsing and running the
    query are foreign; the captured nodes are an input. */
module Parser {
  import opened Wrappers
  import opened Paths
  import Rope
  import Seqs

  /** The two tree-sitter grammars of `tree_sitter_typescript`. */
  datatype Grammar = TypeScriptGrammar | TsxGrammar

  /** The extension of the file name, or `MissingSuffix` when it has none. */
  function Suffix(fileName: Path): (r: Result<string>)
    ensures r.Err? <==> Extension(fileName).None?
    ensures r.Err? ==> r.error == MissingSuffix
    ensures r.Ok? ==> Extension(fileName) == Some(r.value)
  {
    match Extension(fileName)
    case None => Err(MissingSuffix)
    case Some(s) => Ok(s)
  }

  /** `infer_langauge`: `ts` files use the TypeScript grammar and `tsx` files the TSX grammar. */
  function InferLanguage(fileName: Path): (r: Result<Grammar>)
    ensures r == Ok(TypeScriptGrammar) <==> Extension(fileName) == Some("ts")
    ensures r == Ok(TsxGrammar) <==> Extension(fileName) == Some("tsx")
    ensures Extension(fileName).None? ==> r == Err(MissingSuffix)
    ensures Extension(fileName).Some? && Extension(fileName).value != "ts" && Extension(fileName).value != "tsx" ==>
              r == Err(UnsupportedSuffix(Extension(fileName).value))
  {
    var suffix :- Suffix(fileName);
    if suffix == "ts" then Ok(TypeScriptGrammar)
    else if suffix == "tsx" then Ok(TsxGrammar)
    else Err(UnsupportedSuffix(suffix))
  }

  /** The suffix is what follows the last dot of the name: `x.d.ts` is a TypeScript file, and `ts`
      alone, without a dot, has no suffix. */
  lemma SuffixAfterLastDot(dir: Path, stem: string, ext: string)
    requires |stem| > 0 && stem[0] != '.' && '/' !in stem
    requires |ext| > 0 && '.' !in ext && '/' !in ext
    ensures Suffix(dir + [Normal(stem + "." + ext)]) == Ok(ext)
  {
    var p := dir + [Normal(stem + "." + ext)];
    var n := stem + "." + ext;
    assert FileName(p) == Some(n);
    assert n[0] == stem[0];
    assert n[|stem|] == '.';
    assert n != "..";
    var r := Extension(p);
    assert r.Some?;
    assert '.' !in n[|n| - |r.value|..] by {
      assert n == n[..|n| - |r.value| - 1] + "." + r.value;
      assert n[|n| - |r.value|..] == r.value;
    }
    DotSplitUnique(n, stem, ext, n[..|n| - |r.value| - 1], r.value);
  }

  /** A name split at a '.' with no '.' after it is split at its last dot. */
  lemma DotSplitUnique(n: string, s1: string, e1: string, s2: string, e2: string)
    requires n == s1 + "." + e1 && n == s2 + "." + e2
    requires '.' !in e1 && '.' !in e2
    ensures e1 == e2
  {
    if |e1| < |e2| {
      DotInLongerTail(n, s1, e1, s2, e2);
      assert false;
    } else if |e2| < |e1| {
      DotInLongerTail(n, s2, e2, s1, e1);
      assert false;
    }
    assert e1 == n[|n| - |e1|..] == e2;
  }

  lemma DotInLongerTail(n: string, s1: string, e1: string, s2: string, e2: string)
    requires n == s1 + "." + e1 && n == s2 + "." + e2
    requires |e1| < |e2|
    ensures e2[|e2| - |e1| - 1] == '.'
  {
    var k := |e2| - |e1| - 1;
    assert n[|s1|] == '.';
    assert e2[k] == n[|s2| + 1 + k];
  }

  /** A file named without a dot has no suffix and is refused. */
  lemma NoDotNoLanguage(dir: Path, name: string)
    requires PlainName(name) && '.' !in name
    ensures InferLanguage(dir + [Normal(name)]) == Err(MissingSuffix)
  {
    assert FileName(dir + [Normal(name)]) == Some(name);
  }

  // ---------------------------------------------------------------------------------------------
  // TextSlice (src/parser.rs:22-36, 59-76)

  /** A position in the text, as tree-sitter reports it: a row and a column within it. */
  datatype Point = Point(row: nat, column: nat)

  /** A captured string-literal node, from its opening quote to just after its closing quote. */
  datatype Node = Node(start: Point, end: Point)

  /** The literal's characters without its quotes: rows and columns of the first character and of
      the position just after the last. */
  datatype TextSlice = TextSlice(startRow: nat, startCol: nat, endRow: nat, endCol: nat)

  /** The captures of one query match. */
  datatype QueryMatch = QueryMatch(captures: seq<Node>)

  /** The slice of a node, one column in from each end; the column before the end is a `usize`
      subtraction, which needs the end column to be at least 1. */
  function SliceOf(node: Node): (r: TextSlice)
    requires node.end.column >= 1
    ensures r.startRow == node.start.row && r.endRow == node.end.row
    ensures r.startCol == node.start.column + 1 && r.endCol + 1 == node.end.column
  {
    TextSlice(node.start.row, node.start.column + 1, node.end.row, node.end.column - 1)
  }

  /** All captures of all matches, in order. */
  function Captures(matches: seq<QueryMatch>): seq<Node>
    decreases |matches|
  {
    if |matches| == 0 then [] else matches[0].captures + Captures(matches[1..])
  }

  predicate EndsPastColumnZero(nodes: seq<Node>) {
    forall i :: 0 <= i < |nodes| ==> nodes[i].end.column >= 1
  }

  /** The slice of each node, in order. */
  function SlicesOf(nodes: seq<Node>): (r: seq<TextSlice>)
    requires EndsPastColumnZero(nodes)
    ensures |r| == |nodes|
    ensures forall i :: 0 <= i < |r| ==> r[i] == SliceOf(nodes[i])
    decreases |nodes|
  {
    if |nodes| == 0 then [] else [SliceOf(nodes[0])] + SlicesOf(nodes[1..])
  }

  /** `find_imports`: a slice for every captured node of every match, in order. */
  function FindImports(matches: seq<QueryMatch>): (r: seq<TextSlice>)
    requires EndsPastColumnZero(Captures(matches))
    ensures |r| == |Captures(matches)|
    ensures forall i :: 0 <= i < |r| ==> r[i] == SliceOf(Captures(matches)[i])
  {
    SlicesOf(Captures(matches))
  }

  /** `TextSlice::to_index_range`: the character offsets of the slice's two ends in `text`. */
  function ToIndexRange(slice: TextSlice, text: string): (r: (nat, nat))
    requires slice.startRow <= Rope.NewlineCount(text) + 1
    requires slice.endRow <= Rope.NewlineCount(text) + 1
    ensures r.0 - slice.startCol == Rope.LineToChar(text, slice.startRow)
    ensures r.1 - slice.endCol == Rope.LineToChar(text, slice.endRow)
  {
    (Rope.LineToChar(text, slice.startRow) + slice.startCol, Rope.LineToChar(text, slice.endRow) + slice.endCol)
  }

  /** The slice stays on one line and inside it. */
  predicate WithinLine(ls: seq<string>, slice: TextSlice) {
    && slice.startRow == slice.endRow
    && slice.startRow < |ls|
    && slice.startCol <= slice.endCol <= |ls[slice.startRow]|
  }

  /** On a text made of lines, the range of a slice within one line holds the slice's columns of
      that line. */
  lemma IndexRangeOfLine(ls: seq<string>, slice: TextSlice)
    requires |ls| > 0 && Rope.NoNewlines(ls)
    requires WithinLine(ls, slice)
    ensures slice.startRow <= Rope.NewlineCount(Rope.JoinLines(ls))
    ensures ToIndexRange(slice, Rope.JoinLines(ls)) ==
              (Rope.LineStart(ls, slice.startRow) + slice.startCol, Rope.LineStart(ls, slice.startRow) + slice.endCol)
    ensures ToIndexRange(slice, Rope.JoinLines(ls)).1 <= |Rope.JoinLines(ls)|
    ensures Rope.JoinLines(ls)[ToIndexRange(slice, Rope.JoinLines(ls)).0..ToIndexRange(slice, Rope.JoinLines(ls)).1]
         == ls[slice.startRow][slice.startCol..slice.endCol]
  {
    var r := slice.startRow;
    var t := Rope.JoinLines(ls);
    Rope.LineToCharOfJoin(ls, r);
    Rope.LineInJoin(ls, r);
    var o := Rope.LineStart(ls, r);
    var range := ToIndexRange(slice, t);
    assert range == (o + slice.startCol, o + slice.endCol);
    Seqs.SliceOfPiece(t, o, |ls[r]|, slice.startCol, slice.endCol);
    assert t[range.0..range.1] == ls[r][slice.startCol..slice.endCol];
  }

  /** The slice of a quoted literal node covers the literal without its two quotes. */
  lemma SliceSkipsQuotes(ls: seq<string>, node: Node)
    requires |ls| > 0 && Rope.NoNewlines(ls)
    requires node.start.row == node.end.row < |ls|
    requires node.start.column + 2 <= node.end.column <= |ls[node.start.row]|
    ensures WithinLine(ls, SliceOf(node))
    ensures node.start.row <= Rope.NewlineCount(Rope.JoinLines(ls))
    ensures var lit := ls[node.start.row][node.start.column..node.end.column];
            var range := ToIndexRange(SliceOf(node), Rope.JoinLines(ls));
            && range.0 == Rope.LineStart(ls, node.start.row) + node.start.column + 1
            && range.1 + 1 == Rope.LineStart(ls, node.start.row) + node.end.column
            && range.1 <= |Rope.JoinLines(ls)|
            && Rope.JoinLines(ls)[range.0..range.1] == lit[1..|lit| - 1]
  {
    var s := SliceOf(node);
    IndexRangeOfLine(ls, s);
    var line := ls[node.start.row];
    var lit := line[node.start.column..node.end.column];
    assert lit[1..|lit| - 1] == line[s.startCol..s.endCol];
  }
}
