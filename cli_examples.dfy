/** The test vectors of src/main.rs:278-307: `to_nodejs_import` on the texts of relative paths, and
    `get_nodejs_imports_from_paths` on pairs of files. */
module CliExamples {
  import opened Wrappers
  import opened Paths
  import opened ImportString
  import opened Cli
  import opened ImportStringExamples

  /** node_js_import_0, _1, _3 and _4: an index file of any of the four extensions is `.`. */
  lemma NodejsIndexFiles(name: string)
    requires name in {"index.ts", "index.js", "index.jsx", "index.tsx"}
    ensures ToNodejsImport([Normal(name)]) == "."
  {
    assert Render([Normal(name)]) == name by {
      assert [Normal(name)][1..] == [];
      assert Texts([Normal(name)]) == [name];
    }
    IndexFiles(name);
  }

  /** node_js_import_5: `juuh/elikkas/index.ts` is the directory `./juuh/elikkas`. */
  lemma NodejsIndexTs(p: Path)
    requires p == [Normal("juuh"), Normal("elikkas"), Normal("index.ts")]
    ensures ToNodejsImport(p) == "./juuh/elikkas"
  {
    RenderThree("juuh", "elikkas", "index.ts");
    IndexTsDirectory(Render(p));
  }

  /** node_js_import_6: `juuh/elikkas/joo.tsx` loses its extension. */
  lemma NodejsFinalExtension(p: Path)
    requires p == [Normal("juuh"), Normal("elikkas"), Normal("joo.tsx")]
    ensures ToNodejsImport(p) == "./juuh/elikkas/joo"
  {
    RenderThree("juuh", "elikkas", "joo.tsx");
    FinalExtension(Render(p));
  }

  /** gets_import_from_path_0: `src/store/index.ts` seen from `src/views/some/Juuh.tsx`. */
  lemma NodejsFromPaths0(f: Path, req: Path)
    requires f == [src, Normal("views"), Normal("some"), Normal("Juuh.tsx")] && req == [src, store, indexTs]
    ensures GetNodejsImportsFromPaths(f, req) == Ok("../../store")
  {
    assert GetParent(f) == [src, Normal("views"), Normal("some")];
    NormalizeClean(GetParent(f));
    NormalizeClean(req);
    NodejsImportIsFromPaths(f, req);
    FromPaths0(f, req);
  }

  /** gets_import_from_path_1: `other/no/common` seen from `some/index.ts`. */
  lemma NodejsFromPaths1(f: Path, req: Path)
    requires f == [Normal("some"), indexTs] && req == [other, Normal("no"), Normal("common")]
    ensures GetNodejsImportsFromPaths(f, req) == Ok("../other/no/common")
  {
    assert GetParent(f) == [Normal("some")];
    NormalizeClean(GetParent(f));
    NormalizeClean(req);
    NodejsImportIsFromPaths(f, req);
    FromPaths1(f, req);
  }

  /** gets_import_from_path_2: `deeper/in/path` seen from `index.ts`. */
  lemma NodejsFromPaths2(f: Path, req: Path)
    requires f == [indexTs] && req == [Normal("deeper"), Normal("in"), Normal("path")]
    ensures GetNodejsImportsFromPaths(f, req) == Ok("./deeper/in/path")
  {
    assert GetParent(f) == [];
    NormalizeClean(GetParent(f));
    NormalizeClean(req);
    NodejsImportIsFromPaths(f, req);
    FromPaths2(f, req);
  }

  /** gets_import_from_path_3: `index.ts` seen from `lol.ts`. */
  lemma NodejsFromPaths3(f: Path, req: Path)
    requires f == [Normal("lol.ts")] && req == [indexTs]
    ensures GetNodejsImportsFromPaths(f, req) == Ok(".")
  {
    assert GetParent(f) == [];
    NormalizeClean(GetParent(f));
    NormalizeClean(req);
    NodejsImportIsFromPaths(f, req);
    FromPaths3(f, req);
  }
}
