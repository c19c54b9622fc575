/** The two scenarios of src/edit.rs:117-163, in which `/src/a/b/c/d/source.ts` is moved and its
    imports `'../../some'` and `'../../other'` are rewritten. `rename_source_file` is not part of
    this model; the scenarios use a stand-in rename that keeps the file an import names and writes
    the import afresh from the new location: `to_path` from the old location, then `from_paths`
    from the new one. */
module EditExamples {
  import opened Wrappers
  import Seqs
  import opened Paths
  import opened ImportString
  import opened Rope
  import opened Parser
  import opened Rewrite
  import opened Edit

  /** The stand-in rename: the file the import names, seen from the file's new location. */
  function RebaseImport(importString: string, oldLocation: Path, newLocation: Path): (r: Result<string>)
    ensures ToPath(oldLocation, importString).Err? ==> r == Err(ToPath(oldLocation, importString).error)
    ensures ToPath(oldLocation, importString).Ok? ==> r == FromPaths(newLocation, ToPath(oldLocation, importString).value)
  {
    var required :- ToPath(oldLocation, importString);
    FromPaths(newLocation, required)
  }

  const root := RootDir
  const src := Normal("src")
  const a := Normal("a")
  const b := Normal("b")
  const c := Normal("c")
  const d := Normal("d")

  /** The paths of the scenarios. */
  const source: Path := [root, src, a, b, c, d, Normal("source.ts")]
  const deeperTarget: Path := [root, src, a, b, c, d, Normal("e"), Normal("target.ts")]
  const upperTarget: Path := [root, src, a, Normal("target.ts")]

  /** Two paths that agree on `p` and then part have `p` as their common prefix. */
  lemma {:induction false} CommonPrefixOfFork(p: Path, u: Path, v: Path)
    requires |u| == 0 || |v| == 0 || u[0] != v[0]
    ensures CommonPrefixLength(p + u, p + v) == |p|
    decreases |p|
  {
    if |p| > 0 {
      assert (p + u)[1..] == p[1..] + u && (p + v)[1..] == p[1..] + v;
      CommonPrefixOfFork(p[1..], u, v);
    } else {
      assert p + u == u && p + v == v;
    }
  }

  /** `../../y` reads as two `..` and `y`. */
  lemma ParseUpTwo(y: string)
    requires PlainName(y)
    ensures Paths.Parse("../../" + y) == [ParentDir, ParentDir, Normal(y)]
  {
    var pieces := ["..", "..", y];
    assert pieces[1..] == ["..", y] && pieces[1..][1..] == [y];
    assert Seqs.Join(pieces[1..], '/') == ".." + "/" + y;
    assert Seqs.Join(pieces, '/') == "../../" + y;
    ParseJoined(pieces);
    assert ComponentsOf(pieces[1..][1..], false) == [Normal(y)];
    assert ComponentsOf(pieces, true) == [ParentDir, ParentDir, Normal(y)];
  }

  /** The two `..` cancel `d` and `c`. */
  lemma NormalizeUpTwo(y: string)
    requires PlainName(y)
    ensures Normalized([root, src, a, b, c, d, ParentDir, ParentDir, Normal(y)]) == Ok([root, src, a, b, Normal(y)])
  {
    assert [root, src, a, b, c, d, ParentDir, ParentDir, Normal(y)] ==
           [root, src, a, b, c] + [Normal("d"), ParentDir] + [ParentDir, Normal(y)];
    NormalizeCancelsPair([root, src, a, b, c], "d", [ParentDir, Normal(y)]);
    assert [root, src, a, b, c] + [ParentDir, Normal(y)] == [root, src, a, b] + [Normal("c"), ParentDir] + [Normal(y)];
    NormalizeCancelsPair([root, src, a, b], "c", [Normal(y)]);
    assert [root, src, a, b] + [Normal(y)] == [root, src, a, b, Normal(y)];
    NormalizeClean([root, src, a, b, Normal(y)]);
  }

  /** `../../y`, read from the directory of `source`, is `/src/a/b/y`. */
  lemma UpTwoFromSource(y: string)
    requires PlainName(y)
    ensures ToPath(source, "../../" + y) == Ok([root, src, a, b, Normal(y)])
  {
    ParseUpTwo(y);
    var dir := [root, src, a, b, c, d];
    assert GetParent(source) == dir;
    assert !IsAbsolute([ParentDir, ParentDir, Normal(y)]);
    assert dir + [ParentDir, ParentDir, Normal(y)] == [root, src, a, b, c, d, ParentDir, ParentDir, Normal(y)];
    NormalizeUpTwo(y);
  }

  /** Seen from `deeperTarget`, `/src/a/b/y` is `../../../y`. */
  lemma DeeperImportOf(y: string)
    requires PlainName(y) && '.' !in y && y != "c"
    ensures FromPaths(deeperTarget, [root, src, a, b, Normal(y)]) == Ok("../../../" + y)
  {
    var dir := [root, src, a, b, c, d, Normal("e")];
    var req := [root, src, a, b, Normal(y)];
    var common := [root, src, a, b];
    assert GetParent(deeperTarget) == dir;
    NormalizeClean(dir);
    NormalizeClean(req);
    assert req == common + [Normal(y)] && dir == common + [c, d, Normal("e")];
    CommonPrefixOfFork(common, [Normal(y)], [c, d, Normal("e")]);
    assert req[4..] == [Normal(y)];
    var rel := [ParentDir, ParentDir, ParentDir, Normal(y)];
    assert Ups(3) + req[4..] == rel;
    assert Diff(dir, req) == Ok(rel);
    UpThreeImport(y);
  }

  lemma UpThreeImport(y: string)
    requires PlainName(y) && '.' !in y
    ensures FromRelativePath([ParentDir, ParentDir, ParentDir, Normal(y)]) == "../../../" + y
  {
    var rel := [ParentDir, ParentDir, ParentDir, Normal(y)];
    var ts := ["..", "..", "..", y];
    assert rel[1..] == [ParentDir, ParentDir, Normal(y)] && rel[2..] == [ParentDir, Normal(y)];
    assert rel[3..] == [Normal(y)] && rel[4..] == [];
    assert Texts(rel[3..]) == [y];
    assert Texts(rel[2..]) == [".."] + [y];
    assert Texts(rel[1..]) == [".."] + ["..", y];
    assert Texts(rel) == ts;
    assert ts[1..] == ["..", "..", y] && ts[1..][1..] == ["..", y] && ts[1..][1..][1..] == [y];
    assert Seqs.Join(ts[1..][1..], '/') == ".." + "/" + y;
    assert Seqs.Join(ts[1..], '/') == ".." + "/" + (".." + "/" + y);
    var u := "../../../" + y;
    assert Seqs.Join(ts, '/') == ".." + "/" + (".." + "/" + (".." + "/" + y)) == u;
    assert Render(rel) == u;
    JoinDotsInert(ts);
    StripInert(u);
  }

  /** Seen from `upperTarget`, `/src/a/b/y` is `./b/y`. */
  lemma UpperImportOf(y: string)
    requires PlainName(y) && '.' !in y
    ensures FromPaths(upperTarget, [root, src, a, b, Normal(y)]) == Ok("./b/" + y)
  {
    var dir := [root, src, a];
    var req := [root, src, a, b, Normal(y)];
    assert GetParent(upperTarget) == dir;
    UpperDiff(y);
    DownTwoImport(y);
  }

  lemma UpperDiff(y: string)
    requires PlainName(y)
    ensures Diff([root, src, a], [root, src, a, b, Normal(y)]) == Ok([b, Normal(y)])
  {
    var dir := [root, src, a];
    var req := [root, src, a, b, Normal(y)];
    NormalizeClean(dir);
    NormalizeClean(req);
    assert req == dir + [b, Normal(y)] && dir == dir + [];
    CommonPrefixOfFork(dir, [b, Normal(y)], []);
    assert req[3..] == [b, Normal(y)];
    assert Ups(0) + [b, Normal(y)] == [b, Normal(y)];
  }

  lemma DownTwoImport(y: string)
    requires PlainName(y) && '.' !in y
    ensures FromRelativePath([b, Normal(y)]) == "./b/" + y
  {
    var u := "b/" + y;
    assert ImportText(u) == "./" + u by {
      assert '.' !in "b/" && u[1] == '/';
      DotFreeImport(u);
    }
    assert FromRelativePath([b, Normal(y)]) == ImportText(u) by { RenderDownTwo(y); }
    assert "./" + u == "./b/" + y by {
      assert "./b/" == "./" + "b/";
      Associate("./", "b/", y);
    }
  }

  /** A text without '.' that is not `index` gets `./` in front and nothing else. */
  lemma DotFreeImport(u: string)
    requires '.' !in u && u != "index"
    ensures ImportText(u) == "./" + u
  {
    StripDotFree(u);
  }

  lemma RenderDownTwo(y: string)
    requires PlainName(y)
    ensures Render([b, Normal(y)]) == "b/" + y
  {
    var rel := [b, Normal(y)];
    var ts := ["b", y];
    assert Texts(rel) == ts by {
      assert rel[1..] == [Normal(y)] && rel[1..][1..] == [];
      assert Texts(rel[1..]) == [y];
    }
    assert Seqs.Join(ts, '/') == "b" + ['/'] + y by {
      assert ts[1..] == [y];
    }
  }

  /** it_updates_imports_0, for one import: moving the source one directory deeper turns
      `'../../y'` into `'../../../y'`. */
  lemma RebaseDeeper(y: string)
    requires PlainName(y) && '.' !in y && y != "c"
    ensures RebaseImport("../../" + y, source, deeperTarget) == Ok("../../../" + y)
  {
    UpTwoFromSource(y);
    DeeperImportOf(y);
  }

  /** it_updates_imports_1, for one import: moving the source up to `/src/a` turns `'../../y'` into
      `'./b/y'`. */
  lemma RebaseUpper(y: string)
    requires PlainName(y) && '.' !in y
    ensures RebaseImport("../../" + y, source, upperTarget) == Ok("./b/" + y)
  {
    UpTwoFromSource(y);
    UpperImportOf(y);
  }

  lemma Associate(u: string, v: string, w: string)
    ensures u + v + w == u + (v + w)
  {
  }

  /** The line of `s` reads `p'../../y'q`, and `s` covers the literal between the quotes: one of
      the imports of it_updates_imports_0 and _1. */
  predicate UpTwoAt(ls: seq<string>, s: TextSlice, p: string, y: string, q: string) {
    && s.startRow < |ls|
    && ls[s.startRow] == p + "'" + "../../" + y + "'" + q
    && s.startCol == |p| + 1 && s.endCol == |p| + 1 + |"../../" + y|
  }

  /** An import that climbs two directories is read off its line and rebased without failing. */
  lemma UpTwoRead(ls: seq<string>, s: TextSlice, p: string, y: string, q: string, target: Path, want: string)
    requires WithinLine(ls, s) && UpTwoAt(ls, s, p, y, q)
    requires SourceRenamer(RebaseImport, source, target)("../../" + y) == Ok(want)
    ensures Literal(ls, s) == "../../" + y
    ensures !Fails(ls, s, SourceRenamer(RebaseImport, source, target))
  {
    Associate(p + "'", "../../", y);
    QuotesKept(ls, s, p, "../../" + y, q, "");
  }

  /** it_updates_imports_0 on a text: when every captured slice sits on a line `p'../../y'q`, the
      rewrite for the deeper move succeeds and the text returned holds `p'../../../y'q` for each. */
  lemma MoveDeeperScenario(sourceCode: string, slices: seq<TextSlice>, ps: seq<string>, ys: seq<string>, qs: seq<string>)
    requires ValidSlices(Lines(sourceCode), slices)
    requires |ps| == |slices| && |ys| == |slices| && |qs| == |slices|
    requires forall j :: 0 <= j < |slices| ==> PlainName(ys[j]) && '.' !in ys[j] && ys[j] != "c"
    requires forall j :: 0 <= j < |slices| ==> UpTwoAt(Lines(sourceCode), slices[j], ps[j], ys[j], qs[j])
    ensures var out := RewriteText(sourceCode, slices, SourceRenamer(RebaseImport, source, deeperTarget));
            && out.Ok?
            && forall j :: 0 <= j < |slices| ==> Contains(out.value, ps[j] + "'" + "../../../" + ys[j] + "'" + qs[j])
  {
    var ls := Lines(sourceCode);
    var rep := SourceRenamer(RebaseImport, source, deeperTarget);
    forall j | 0 <= j < |slices|
      ensures !Fails(ls, slices[j], rep) && rep("../../" + ys[j]) == Ok("../../../" + ys[j])
    {
      RebaseDeeper(ys[j]);
      UpTwoRead(ls, slices[j], ps[j], ys[j], qs[j], deeperTarget, "../../../" + ys[j]);
    }
    RewriteFailsIff(ls, slices, rep);
    forall j | 0 <= j < |slices|
      ensures Contains(RewriteText(sourceCode, slices, rep).value, ps[j] + "'" + "../../../" + ys[j] + "'" + qs[j])
    {
      var lit := "../../" + ys[j];
      assert IsRelative(lit);
      Associate(ps[j] + "'", "../../", ys[j]);
      ReplacedInPlace(sourceCode, slices, rep, j, ps[j], lit, qs[j]);
      Associate(ps[j] + "'", "../../../", ys[j]);
    }
  }

  /** it_updates_imports_1 on a text: the move up to `/src/a` succeeds and turns each line into
      `p'./b/y'q`. */
  lemma MoveUpperScenario(sourceCode: string, slices: seq<TextSlice>, ps: seq<string>, ys: seq<string>, qs: seq<string>)
    requires ValidSlices(Lines(sourceCode), slices)
    requires |ps| == |slices| && |ys| == |slices| && |qs| == |slices|
    requires forall j :: 0 <= j < |slices| ==> PlainName(ys[j]) && '.' !in ys[j]
    requires forall j :: 0 <= j < |slices| ==> UpTwoAt(Lines(sourceCode), slices[j], ps[j], ys[j], qs[j])
    ensures var out := RewriteText(sourceCode, slices, SourceRenamer(RebaseImport, source, upperTarget));
            && out.Ok?
            && forall j :: 0 <= j < |slices| ==> Contains(out.value, ps[j] + "'" + "./b/" + ys[j] + "'" + qs[j])
  {
    var ls := Lines(sourceCode);
    var rep := SourceRenamer(RebaseImport, source, upperTarget);
    forall j | 0 <= j < |slices|
      ensures !Fails(ls, slices[j], rep) && rep("../../" + ys[j]) == Ok("./b/" + ys[j])
    {
      RebaseUpper(ys[j]);
      UpTwoRead(ls, slices[j], ps[j], ys[j], qs[j], upperTarget, "./b/" + ys[j]);
    }
    RewriteFailsIff(ls, slices, rep);
    forall j | 0 <= j < |slices|
      ensures Contains(RewriteText(sourceCode, slices, rep).value, ps[j] + "'" + "./b/" + ys[j] + "'" + qs[j])
    {
      var lit := "../../" + ys[j];
      assert IsRelative(lit);
      Associate(ps[j] + "'", "../../", ys[j]);
      ReplacedInPlace(sourceCode, slices, rep, j, ps[j], lit, qs[j]);
      Associate(ps[j] + "'", "./b/", ys[j]);
    }
  }
}
