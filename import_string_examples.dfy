/** The test vectors of src/import_string.rs:55-112, with the paths of the vectors written as the
    components their texts read as. */
module ImportStringExamples {
  import opened Wrappers
  import Seqs
  import opened Paths
  import opened ImportString

  const a := Normal("a")
  const b := Normal("b")
  const c := Normal("c")

  lemma WordRuns()
    ensures IsWordRun("ts") && IsWordRun("js") && IsWordRun("jsx") && IsWordRun("tsx") && IsWordRun("svg")
  {
  }

  /** rel_path_to_import_0 to _4: `index` with the extensions `ts`, `js`, `jsx` and `tsx` is `.`. */
  lemma IndexFiles(s: string)
    requires s in {"index.ts", "index.js", "index.jsx", "index.tsx"}
    ensures ImportText(s) == "."
  {
    WordRuns();
    var ext := s[6..];
    assert s == "index." + ext;
    IndexFileIsDot(ext);
  }

  /** rel_path_to_import_5: `juuh/elikkas/index.ts` is `./juuh/elikkas`. */
  lemma IndexTsDirectory(s: string)
    requires s == "juuh/elikkas/index.ts"
    ensures ImportText(s) == "./juuh/elikkas"
  {
    var u := "juuh/elikkas";
    assert DotsInert(u) by {
      forall i | 0 <= i < |u| ensures u[i] != '.' {}
    }
    InertHasNoIndexTs(u);
    assert u + "/index.ts" == "juuh/elikkas/index.ts";
    IndexTsIsDirectory(u);
  }

  lemma JooStem(u: string)
    requires u == "juuh/elikkas/joo"
    ensures DotsInert(u) && !EndsWithIndex(u)
    ensures "./" + u == "./juuh/elikkas/joo"
  {
    forall i | 0 <= i < |u| ensures u[i] != '.' {}
    assert u[|u| - 6] == 'a';
  }

  /** rel_path_to_import_6: `juuh/elikkas/joo.tsx` is `./juuh/elikkas/joo`. */
  lemma FinalExtension(s: string)
    requires s == "juuh/elikkas/joo.tsx"
    ensures ImportText(s) == "./juuh/elikkas/joo"
  {
    var u, ext := s[..16], s[17..];
    JooStem(u);
    assert IsWordRun(ext);
    assert s == u + "." + ext;
    InertHasNoIndexTs(u);
    StripFinalExtension(u, ext);
  }

  /** An `/index.js` keeps its `index`, and an `.svg` goes like any other extension. */
  lemma OtherExtensions(s: string, t: string)
    requires s == "x/index.js" && t == "icon.svg"
    ensures ImportText(s) == "./x/index"
    ensures ImportText(t) == "./icon"
  {
    IndexJs(s);
    IconSvg(t);
  }

  lemma IndexJs(s: string)
    requires s == "x/index.js"
    ensures ImportText(s) == "./x/index"
  {
    WordRuns();
    var u := "x/index";
    assert DotsInert(u) by {
      forall i | 0 <= i < |u| ensures u[i] != '.' {}
    }
    assert u + "." + "js" == s;
    assert !("ts" <= "js") by { assert "js"[0] != "ts"[0]; }
    InertHasNoIndexTs(u);
    StripFinalExtension(u, "js");
  }

  lemma IconSvg(t: string)
    requires t == "icon.svg"
    ensures ImportText(t) == "./icon"
  {
    WordRuns();
    var v := "icon";
    assert DotsInert(v) by {
      forall i | 0 <= i < |v| ensures v[i] != '.' {}
    }
    assert v + "." + "svg" == t;
    InertHasNoIndexTs(v);
    StripFinalExtension(v, "svg");
  }

  /** The `/index.ts` match wins over the extension match: `a/index.tsx` is `./ax`. */
  lemma IndexTsWinsOverExtension(s: string)
    requires s == "a/index.tsx"
    ensures ImportText(s) == "./ax"
  {
    WordRuns();
    var u := "a/index";
    assert DotsInert(u) by {
      forall i | 0 <= i < |u| ensures u[i] != '.' {}
    }
    assert u + "." + "tsx" == "a/index.tsx";
    assert EndsWithIndex(u) by { assert u[|u| - 6..] == "/index"; }
    assert "ts" <= "tsx";
    InertHasNoIndexTs(u);
    StripIndexTsFirst(u, "tsx");
    assert u[..|u| - 6] + "tsx"[2..] == "ax";
  }

  /** A `/index.ts` has an `x`, so a text without one holds none. */
  lemma WithoutX(u: string)
    requires 'x' !in u
    ensures NoIndexTs(u) && !EndsWithIndex(u)
  {
    forall i | 0 <= i < |u| ensures !(IndexTs <= u[i..]) {
      if i + |IndexTs| <= |u| {
        assert u[i..][5] == u[i + 5];
      }
    }
    if |u| >= 6 {
      assert u[|u| - 6..][5] == u[|u| - 1];
    }
  }

  /** Dots inside the stem stay and only the last extension goes: `vendor/jquery.min.js` is
      `./vendor/jquery.min`. */
  lemma DottedStem(u: string)
    requires u == "vendor/jquery.min"
    ensures ImportText(u + ".js") == "./" + u
  {
    assert 'x' !in u by {
      forall i | 0 <= i < |u| ensures u[i] != 'x' {}
    }
    WithoutX(u);
    assert IsWordRun("js");
    assert u + ".js" == u + "." + "js";
    StripFinalExtension(u, "js");
  }

  /** A stripped text that is not `index` and does not start with '.' gets `./` in front. */
  lemma ImportOfStripped(s: string, u: string)
    requires StripModuleSuffix(s) == u && u != "index" && |u| > 0 && u[0] != '.'
    ensures ImportText(s) == "./" + u
  {
  }

  /** `foo.test.ts` is `./foo.test`. */
  lemma TestFile(s: string)
    requires s == "foo.test.ts"
    ensures ImportText(s) == "./foo.test"
  {
    var u := s[..8];
    assert u == "foo.test";
    assert StripModuleSuffix(s) == u by {
      WithoutX(u);
      assert IsWordRun("ts");
      assert s == u + "." + "ts";
      StripFinalExtension(u, "ts");
    }
    ImportOfStripped(s, u);
  }

  /** A dotted directory keeps its name when its `/index.ts` goes: `lib.v2/index.ts` is `./lib.v2`. */
  lemma DottedDirectory(s: string)
    requires s == "lib.v2/index.ts"
    ensures ImportText(s) == "./lib.v2"
  {
    var u := s[..6];
    assert u == "lib.v2";
    assert StripModuleSuffix(s) == u by {
      WithoutX(u);
      assert s == u + "/index.ts";
      IndexTsIsDirectory(u);
    }
    ImportOfStripped(s, u);
  }

  // ---------------------------------------------------------------------------------------------
  // to_path_0 to _3: imports read from `a/b/c/file.ts`

  const file := [a, b, c, Normal("file.ts")]
  const other := Normal("other")

  /** The import texts of the vectors, read as paths; a trailing slash adds nothing. */
  lemma ParseImport0(s0: string)
    requires s0 == "../../other"
    ensures Parse(s0) == [ParentDir, ParentDir, other]
  {
    var p0 := ["..", "..", "other"];
    assert Seqs.Join(p0, '/') == s0;
    ParseJoined(p0);
    assert ComponentsOf(p0, true) == [ParentDir, ParentDir, other];
  }

  lemma ParseImport1(s1: string)
    requires s1 == "."
    ensures Parse(s1) == [CurDir]
  {
    ParseJoined(["."]);
  }

  lemma ParseImport2(s2: string)
    requires s2 == "./d/e"
    ensures Parse(s2) == [CurDir, Normal("d"), Normal("e")]
  {
    var p2 := [".", "d", "e"];
    assert Seqs.Join(p2, '/') == s2;
    ParseJoined(p2);
    assert ComponentsOf(p2, true) == [CurDir, Normal("d"), Normal("e")];
  }

  lemma ParseImport3(s3: string)
    requires s3 == "../"
    ensures Parse(s3) == [ParentDir]
  {
    var p3 := ["..", ""];
    assert Seqs.Join(p3, '/') == s3;
    ParseJoined(p3);
    assert ComponentsOf(p3, true) == [ParentDir];
  }

  /** The joined components behind to_path_0 to _3, normalized; ToPathVectors reads them off the
      import texts. */
  lemma NormalizeVectors()
    ensures Normalized([a, b, c, ParentDir, ParentDir, other]) == Ok([a, other])
    ensures Normalized([a, b, c, CurDir]) == Ok([a, b, c])
    ensures Normalized([a, b, c, CurDir, Normal("d"), Normal("e")]) == Ok([a, b, c, Normal("d"), Normal("e")])
    ensures Normalized([a, b, c, ParentDir]) == Ok([a, b])
  {
    var de := [Normal("d"), Normal("e")];
    assert [a, b, c, ParentDir, ParentDir, other] == [a, b] + [Normal("c"), ParentDir] + [ParentDir, other];
    NormalizeCancelsPair([a, b], "c", [ParentDir, other]);
    assert [a, b] + [ParentDir, other] == [a] + [Normal("b"), ParentDir] + [other];
    NormalizeCancelsPair([a], "b", [other]);
    assert [a] + [other] == [a, other];
    NormalizeClean([a, other]);
    assert [a, b, c, CurDir] == [a, b, c] + [CurDir] + [];
    NormalizeDropsCurDir([a, b, c], []);
    assert [a, b, c] + [] == [a, b, c];
    NormalizeClean([a, b, c]);
    assert [a, b, c, CurDir, Normal("d"), Normal("e")] == [a, b, c] + [CurDir] + de;
    NormalizeDropsCurDir([a, b, c], de);
    assert [a, b, c] + de == [a, b, c, Normal("d"), Normal("e")];
    NormalizeClean([a, b, c, Normal("d"), Normal("e")]);
    assert [a, b, c, ParentDir] == [a, b] + [Normal("c"), ParentDir] + [];
    NormalizeCancelsPair([a, b], "c", []);
    assert [a, b] + [] == [a, b];
    NormalizeClean([a, b]);
  }

  /** to_path_0 to _3: `../../other` is `a/other`, `.` is `a/b/c`, `./d/e` is `a/b/c/d/e` and
      `../` is `a/b`. */
  lemma ToPathVectors(s0: string, s1: string, s2: string, s3: string)
    requires s0 == "../../other" && s1 == "." && s2 == "./d/e" && s3 == "../"
    ensures ToPath(file, s0) == Ok([a, other])
    ensures ToPath(file, s1) == Ok([a, b, c])
    ensures ToPath(file, s2) == Ok([a, b, c, Normal("d"), Normal("e")])
    ensures ToPath(file, s3) == Ok([a, b])
  {
    ParseImport0(s0);
    ParseImport1(s1);
    ParseImport2(s2);
    ParseImport3(s3);
    NormalizeVectors();
    assert GetParent(file) == [a, b, c];
    assert [a, b, c] + Parse(s0) == [a, b, c, ParentDir, ParentDir, other];
    assert [a, b, c] + Parse(s1) == [a, b, c, CurDir];
    assert [a, b, c] + Parse(s2) == [a, b, c, CurDir, Normal("d"), Normal("e")];
    assert [a, b, c] + Parse(s3) == [a, b, c, ParentDir];
  }

  // ---------------------------------------------------------------------------------------------
  // gets_import_from_paths_0 to _3

  const src := Normal("src")
  const store := Normal("store")
  const indexTs := Normal("index.ts")

  lemma DiffVectors(dir0: Path, req0: Path, req1: Path, req2: Path)
    requires dir0 == [src, Normal("views"), Normal("some")] && req0 == [src, store, indexTs]
    requires req1 == [other, Normal("no"), Normal("common")]
    requires req2 == [Normal("deeper"), Normal("in"), Normal("path")]
    ensures Diff(dir0, req0) == Ok([ParentDir, ParentDir, store, indexTs])
    ensures Diff([Normal("some")], req1) == Ok([ParentDir] + req1)
    ensures Diff([], req2) == Ok(req2)
    ensures Diff([], [indexTs]) == Ok([indexTs])
  {
    DiffToStore(dir0, req0);
    DiffToCommon(req1);
    DiffFromTop(req2);
    DiffFromTop([indexTs]);
  }

  lemma DiffToStore(dir0: Path, req0: Path)
    requires dir0 == [src, Normal("views"), Normal("some")] && req0 == [src, store, indexTs]
    ensures Diff(dir0, req0) == Ok([ParentDir, ParentDir, store, indexTs])
  {
    NormalizeClean(dir0);
    NormalizeClean(req0);
    assert req0[1] != dir0[1] by { assert "store"[1] != "views"[1]; }
    assert CommonPrefixLength(req0[1..], dir0[1..]) == 0;
    assert CommonPrefixLength(req0, dir0) == 1;
    assert req0[1..] == [store, indexTs];
    assert DiffPaths(req0, dir0) == Some(Ups(2) + req0[1..]);
    assert Ups(2) + req0[1..] == [ParentDir, ParentDir, store, indexTs];
  }

  lemma DiffToCommon(req1: Path)
    requires req1 == [other, Normal("no"), Normal("common")]
    ensures Diff([Normal("some")], req1) == Ok([ParentDir] + req1)
  {
    NormalizeClean([Normal("some")]);
    NormalizeClean(req1);
    assert req1[0] != Normal("some") by { assert "other"[0] != "some"[0]; }
    assert DiffPaths(req1, [Normal("some")]) == Some(Ups(1) + req1);
    assert Ups(1) == [ParentDir];
  }

  /** Seen from the top directory, a relative path of names is itself. */
  lemma DiffFromTop(req: Path)
    requires forall i | 0 <= i < |req| :: req[i].Normal?
    ensures Diff([], req) == Ok(req)
  {
    NormalizeClean([]);
    NormalizeClean(req);
    assert DiffPaths(req, []) == Some(Ups(0) + req);
    assert Ups(0) + req == req;
  }


  lemma StoreImport(t: string)
    requires t == "../../store/index.ts"
    ensures ImportText(t) == "../../store"
  {
    var u := t[..11];
    assert u == ".." + "/" + (".." + "/" + "store");
    assert DotsInert("..") by {
      assert forall i :: 0 <= i < 2 ==> ".."[i] == '.';
    }
    assert '.' !in "store";
    DotsInertSlash("..", "store");
    DotsInertSlash("..", ".." + "/" + "store");
    assert t == u + "/index.ts";
    InertHasNoIndexTs(u);
    IndexTsIsDirectory(u);
  }

  lemma CommonImport(t: string)
    requires t == "../other/no/common"
    ensures ImportText(t) == t
  {
    var rest := "other/no/common";
    assert t == ".." + "/" + rest;
    assert DotsInert("..") by {
      assert forall i :: 0 <= i < 2 ==> ".."[i] == '.';
    }
    assert '.' !in rest by {
      forall i | 0 <= i < |rest| ensures rest[i] != '.' {}
    }
    DotsInertSlash("..", rest);
    StripInert(t);
  }

  lemma DeeperImport(t: string)
    requires t == "deeper/in/path"
    ensures ImportText(t) == "./" + t
  {
    assert '.' !in t by {
      forall i | 0 <= i < |t| ensures t[i] != '.' {}
    }
    StripDotFree(t);
  }

  lemma RelativeImport0(d0: Path)
    requires d0 == [ParentDir, ParentDir, store, indexTs]
    ensures FromRelativePath(d0) == "../../store"
  {
    assert Render([ParentDir, ParentDir, Normal("store"), Normal("index.ts")]) == "../../store/index.ts";
    StoreImport(Render(d0));
  }

  lemma RelativeImport1(d1: Path)
    requires d1 == [ParentDir, Normal("other"), Normal("no"), Normal("common")]
    ensures FromRelativePath(d1) == "../other/no/common"
  {
    assert Render([ParentDir, Normal("other"), Normal("no"), Normal("common")]) == "../other/no/common";
    CommonImport(Render(d1));
  }

  lemma RelativeImport2(d2: Path)
    requires d2 == [Normal("deeper"), Normal("in"), Normal("path")]
    ensures FromRelativePath(d2) == "./deeper/in/path"
  {
    RenderThree("deeper", "in", "path");
    DeeperImport(Render(d2));
  }

  /** The text of three names is the names with a '/' between each two. */
  lemma RenderThree(x: string, y: string, z: string)
    ensures Render([Normal(x), Normal(y), Normal(z)]) == x + "/" + y + "/" + z
  {
    var p := [Normal(x), Normal(y), Normal(z)];
    assert p[1..] == [Normal(y), Normal(z)] && p[1..][1..] == [Normal(z)];
    assert Texts([Normal(z)]) == [z] by {
      assert [Normal(z)][1..] == [];
    }
    assert Texts(p[1..]) == [y, z];
    assert Texts(p) == [x, y, z];
    var ts := [x, y, z];
    assert ts[1..] == [y, z] && ts[1..][1..] == [z];
    assert Seqs.Join(ts[1..], '/') == y + "/" + z;
    assert Seqs.Join(ts, '/') == x + "/" + (y + "/" + z);
  }

  lemma RelativeImport3(d3: Path)
    requires d3 == [indexTs]
    ensures FromRelativePath(d3) == "."
  {
    assert Render([Normal("index.ts")]) == "index.ts";
    IndexFiles(Render(d3));
  }

  /** gets_import_from_paths_0: `src/store/index.ts` seen from `src/views/some/Juuh.tsx` is `../../store`. */
  lemma FromPaths0(f: Path, req: Path)
    requires f == [src, Normal("views"), Normal("some"), Normal("Juuh.tsx")] && req == [src, store, indexTs]
    ensures FromPaths(f, req) == Ok("../../store")
  {
    assert GetParent(f) == [src, Normal("views"), Normal("some")];
    DiffVectors(GetParent(f), req, [other, Normal("no"), Normal("common")], [Normal("deeper"), Normal("in"), Normal("path")]);
    RelativeImport0(Diff(GetParent(f), req).value);
  }

  /** gets_import_from_paths_1: `other/no/common` seen from `some/index.ts` is `../other/no/common`. */
  lemma FromPaths1(f: Path, req: Path)
    requires f == [Normal("some"), indexTs] && req == [other, Normal("no"), Normal("common")]
    ensures FromPaths(f, req) == Ok("../other/no/common")
  {
    assert GetParent(f) == [Normal("some")];
    DiffVectors([src, Normal("views"), Normal("some")], [src, store, indexTs], req, [Normal("deeper"), Normal("in"), Normal("path")]);
    RelativeImport1(Diff(GetParent(f), req).value);
  }

  /** gets_import_from_paths_2: `deeper/in/path` seen from `index.ts` is `./deeper/in/path`. */
  lemma FromPaths2(f: Path, req: Path)
    requires f == [indexTs] && req == [Normal("deeper"), Normal("in"), Normal("path")]
    ensures FromPaths(f, req) == Ok("./deeper/in/path")
  {
    assert GetParent(f) == [];
    DiffVectors([src, Normal("views"), Normal("some")], [src, store, indexTs], [other, Normal("no"), Normal("common")], req);
    RelativeImport2(Diff(GetParent(f), req).value);
  }

  /** gets_import_from_paths_3: `index.ts` seen from `lol.ts` is `.`. */
  lemma FromPaths3(f: Path, req: Path)
    requires f == [Normal("lol.ts")] && req == [indexTs]
    ensures FromPaths(f, req) == Ok(".")
  {
    assert GetParent(f) == [];
    DiffVectors([src, Normal("views"), Normal("some")], [src, store, indexTs], [other, Normal("no"), Normal("common")], [Normal("deeper"), Normal("in"), Normal("path")]);
    RelativeImport3(Diff(GetParent(f), req).value);
  }
}
