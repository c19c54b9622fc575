/** The pure functions of src/main.rs: its own copy of the import-string rewrite, the imports
    between two files computed with `diff_paths` directly (no normalizing), the directory-walk
    filter and the grammar chosen by suffix. */
module Cli {
  import opened Wrappers
  import Seqs
  import opened Paths
  import opened ImportString
  import Parser

  /** `to_typesript_import_string` (src/main.rs:201-212): the three rewrites, on any text. */
  function ToTypeScriptImportString(importString: string): (r: string)
    ensures |r| > 0 && r[0] == '.'
    ensures r == ImportText(importString)
  {
    var stripped := StripModuleSuffix(importString);
    var elided := if stripped == "index" then "." else stripped;
    if |elided| > 0 && elided[0] == '.' then elided else "./" + elided
  }

  /** `to_nodejs_import` (src/main.rs:228-241): the same rewrite on the text of a relative path. */
  function ToNodejsImport(relPath: Path): (r: string)
    ensures |r| > 0 && r[0] == '.'
    ensures r == ToTypeScriptImportString(Render(relPath))
    ensures r == FromRelativePath(relPath)
  {
    var stripped := StripModuleSuffix(Render(relPath));
    var elided := if stripped == "index" then "." else stripped;
    if |elided| > 0 && elided[0] == '.' then elided else "./" + elided
  }

  /** `get_nodejs_imports_from_paths`: the import of `requiredFile` written in `file`, found with
      `diff_paths` on the paths as they are. */
  function GetNodejsImportsFromPaths(file: Path, requiredFile: Path): (r: Result<string>)
    ensures r.Err? <==> !IsAbsolute(requiredFile) && IsAbsolute(GetParent(file))
    ensures r.Err? ==> r.error == NoRelativePath
    ensures r.Ok? ==> |r.value| > 0 && r.value[0] == '.'
  {
    match DiffPaths(requiredFile, GetParent(file))
    case None => Err(NoRelativePath)
    case Some(relPath) => Ok(ToNodejsImport(relPath))
  }

  /** `get_ts_import`: the import of `fromFile` written in `intoFile`. */
  function GetTsImport(fromFile: Path, intoFile: Path): (r: Result<string>)
    ensures r.Err? <==> !IsAbsolute(fromFile) && IsAbsolute(GetParent(intoFile))
    ensures r.Err? ==> r.error == NoRelativePath
    ensures r.Ok? ==> |r.value| > 0 && r.value[0] == '.'
  {
    match DiffPaths(fromFile, GetParent(intoFile))
    case None => Err(NoRelativePath)
    case Some(p) => Ok(ToTypeScriptImportString(Render(p)))
  }

  /** The two functions of src/main.rs compute the same import, with their arguments swapped. */
  lemma TsImportIsNodejsImport(fromFile: Path, intoFile: Path)
    ensures GetTsImport(fromFile, intoFile) == GetNodejsImportsFromPaths(intoFile, fromFile)
  {
  }

  /** On paths that are already normalized, skipping normalization changes nothing: the import is
      the one `from_paths` of src/import_string.rs gives, and so is the error. */
  lemma NodejsImportIsFromPaths(file: Path, requiredFile: Path)
    requires Normalized(GetParent(file)) == Ok(GetParent(file))
    requires Normalized(requiredFile) == Ok(requiredFile)
    ensures GetNodejsImportsFromPaths(file, requiredFile) == FromPaths(file, requiredFile)
  {
  }

  /** Without normalizing, a `..` inside the directory is a component like any other: seen from
      `x/../f.ts`, the file `y` is `../../y`, not `./y`. */
  lemma NodejsImportKeepsParentComponents(file: Path, y: string)
    requires file == [Normal("x"), ParentDir, Normal("f.ts")]
    requires PlainName(y) && '.' !in y && y != "x" && y != "index"
    ensures GetNodejsImportsFromPaths(file, [Normal(y)]) == Ok("../../" + y)
    ensures FromPaths(file, [Normal(y)]) == Ok("./" + y)
  {
    var dir := [Normal("x"), ParentDir];
    assert GetParent(file) == dir;
    assert CommonPrefixLength([Normal(y)], dir) == 0;
    assert Ups(2) + [Normal(y)] == [ParentDir, ParentDir, Normal(y)];
    UpUpImport(y);
    FromPathsCancels(file, y);
  }

  /** With normalizing, `x/..` cancels, and `y` is seen from the top directory. */
  lemma FromPathsCancels(file: Path, y: string)
    requires file == [Normal("x"), ParentDir, Normal("f.ts")]
    requires PlainName(y) && '.' !in y && y != "index"
    ensures FromPaths(file, [Normal(y)]) == Ok("./" + y)
  {
    var dir := [Normal("x"), ParentDir];
    assert GetParent(file) == dir;
    assert Normalized(dir) == Ok([]) by {
      assert dir == [] + [Normal("x"), ParentDir] + [];
      NormalizeCancelsPair([], "x", []);
      NormalizeClean([]);
    }
    NormalizeClean([Normal(y)]);
    assert Diff(dir, [Normal(y)]) == Ok([Normal(y)]) by {
      assert CommonPrefixLength([Normal(y)], []) == 0;
      assert Ups(0) + [Normal(y)] == [Normal(y)];
    }
    assert Render([Normal(y)]) == y by {
      assert [Normal(y)][1..] == [];
      assert Texts([Normal(y)]) == [y];
    }
    StripDotFree(y);
  }

  lemma UpUpImport(y: string)
    requires PlainName(y) && '.' !in y
    ensures ToNodejsImport([ParentDir, ParentDir, Normal(y)]) == "../../" + y
  {
    var d := [ParentDir, ParentDir, Normal(y)];
    var ts := ["..", "..", y];
    assert d[1..] == [ParentDir, Normal(y)] && d[2..] == [Normal(y)] && d[3..] == [];
    assert Texts(d[2..]) == [y];
    assert Texts(d[1..]) == [".."] + [y];
    assert Texts(d) == ts;
    assert ts[1..] == ["..", y] && ts[1..][1..] == [y];
    assert Seqs.Join(ts[1..], '/') == ".." + "/" + y;
    var u := "../../" + y;
    assert Seqs.Join(ts, '/') == ".." + "/" + (".." + "/" + y) == u;
    assert Render(d) == u;
    JoinDotsInert(ts);
    StripInert(u);
  }

  /** `filter_file`: the entries the directory walk descends into. `None` stands for a file name
      that is not UTF-8. */
  function FilterFile(fileName: Option<string>): (r: bool)
    ensures fileName.None? ==> !r
    ensures fileName == Some(".") ==> r
    ensures fileName == Some("node_modules") ==> !r
    ensures fileName.Some? && fileName.value != "." && |fileName.value| > 0 && fileName.value[0] == '.' ==> !r
    ensures fileName.Some? && fileName.value != "node_modules" && !(|fileName.value| > 0 && fileName.value[0] == '.') ==> r
  {
    match fileName
    case None => false
    case Some(s) =>
      var isHiddenFile := s != "." && |s| > 0 && s[0] == '.';
      var isNodeModule := s == "node_modules";
      !isHiddenFile && !isNodeModule
  }

  /** `infer_langauge_from_suffix` of src/main.rs: `ts` and `tsx` files only. */
  function InferLanguageFromSuffix(fileName: Path): (r: Result<Parser.Grammar>)
    ensures r == Parser.InferLanguage(fileName)
    ensures r.Ok? <==> Extension(fileName) == Some("ts") || Extension(fileName) == Some("tsx")
  {
    var suffix :- Parser.Suffix(fileName);
    match suffix
    case "ts" => Ok(Parser.TypeScriptGrammar)
    case "tsx" => Ok(Parser.TsxGrammar)
    case _ => Err(UnsupportedSuffix(suffix))
  }
}
