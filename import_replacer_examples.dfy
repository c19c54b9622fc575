/** The test of src/import_replacer.rs:87-107: a replacer that answers `WORKS` for every literal
    leaves `import some from 'WORKS';` in the text. */
module ImportReplacerExamples {
  import opened Wrappers
  import Seqs
  import opened Rope
  import opened Parser
  import opened Rewrite
  import opened ImportReplacer
  import opened Edit

  /** The replacer of the test. */
  function Works(lit: string): (r: Result<string>)
    ensures r == Ok("WORKS")
  {
    Ok("WORKS")
  }

  /** A text holding `a + w + b` holds `w`. */
  lemma ContainsInner(t: string, a: string, w: string, b: string)
    requires Contains(t, a + w + b)
    ensures Contains(t, w)
  {
    var i, j :| 0 <= i <= j <= |t| && t[i..j] == a + w + b;
    Seqs.SliceOfPiece(t, i, j - i, |a|, |a| + |w|);
    assert (a + w + b)[|a|..|a| + |w|] == w;
    assert t[i + |a|..i + |a| + |w|] == w;
  }

  /** On the text, the line of capture `k` reads `…import some from 'WORKS';…` after the rewrite. */
  lemma WorksInText(sourceCode: string, slices: seq<TextSlice>, k: nat, pre: string, lit: string, post: string)
    requires ValidSlices(Lines(sourceCode), slices)
    requires k < |slices| && IsRelative(lit)
    requires Lines(sourceCode)[slices[k].startRow] == pre + "import some from " + "'" + lit + "'" + ";" + post
    requires slices[k].startCol == |pre + "import some from "| + 1
    requires slices[k].endCol == |pre + "import some from "| + 1 + |lit|
    ensures RewriteText(sourceCode, slices, Works).Ok?
    ensures Contains(RewriteText(sourceCode, slices, Works).value, "import some from 'WORKS';")
  {
    var p := pre + "import some from ";
    var q := ";" + post;
    assert p + "'" + lit + "'" + ";" + post == p + "'" + lit + "'" + q;
    ReplacedInPlace(sourceCode, slices, Works, k, p, lit, q);
    assert p + "'" + "WORKS" + "'" + q == pre + "import some from 'WORKS';" + post;
    ContainsInner(RewriteText(sourceCode, slices, Works).value, pre, "import some from 'WORKS';", post);
  }

  /** it_works: when the visited capture `k` is the relative literal of a line reading
      `…import some from '<lit>';…`, `replace_imports` with the `WORKS` replacer succeeds and the
      text it leaves holds `import some from 'WORKS';`. */
  method ItWorks(sourceCode: string, steps: seq<CaptureStep>, k: nat, pre: string, lit: string, post: string)
    returns (r: Result<()>, text: string)
    requires IndicesInRange(steps) && EndsPastColumnZero(Visited(steps))
    requires ValidSlices(Lines(sourceCode), SlicesOf(Visited(steps)))
    requires k < |Visited(steps)| && IsRelative(lit)
    requires Lines(sourceCode)[Visited(steps)[k].start.row] ==
               pre + "import some from " + "'" + lit + "'" + ";" + post
    requires Visited(steps)[k].start.column == |pre + "import some from "|
    requires Visited(steps)[k].end.column == |pre + "import some from "| + |lit| + 2
    ensures r.Ok?
    ensures Contains(text, "import some from 'WORKS';")
  {
    var replacer := new ImportReplacer(sourceCode, steps);
    ghost var slices := SlicesOf(Visited(steps));
    assert SingleLine(Works);
    r := replacer.ReplaceImports(Works);
    text := replacer.ToString();
    assert slices[k] == SliceOf(Visited(steps)[k]);
    WorksInText(sourceCode, slices, k, pre, lit, post);
  }
}
