/** The import-string codec of src/import_string.rs: between a relative path and the text of a
    TypeScript import, `from_relative_path` drops a `/index.ts` and a trailing extension, writes
    `index` as `.` and makes sure the text starts with `.`; `to_path` reads an import back into a
    path next to the importing file. */
module ImportString {
  import opened Wrappers
  import Seqs
  import opened Paths

  // ---------------------------------------------------------------------------------------------
  // The regex `/index\.ts|\.\w+$`, replaced everywhere by nothing

  /** `\w`, taken as the ASCII letters, digits and underscore. */
  predicate IsWordChar(ch: char) {
    ('a' <= ch <= 'z') || ('A' <= ch <= 'Z') || ('0' <= ch <= '9') || ch == '_'
  }

  /** `\w+$`: one or more word characters running to the end of the text. */
  predicate IsWordRun(s: string) {
    |s| > 0 && forall i :: 0 <= i < |s| ==> IsWordChar(s[i])
  }

  const IndexTs: string := "/index.ts"

  /** The regex matches at position `i` of `s`. Its two alternatives begin with different
      characters, so at most one of them matches there. */
  predicate MatchAt(s: string, i: nat)
    requires i < |s|
  {
    IndexTs <= s[i..] || (s[i] == '.' && IsWordRun(s[i + 1..]))
  }

  /** Replace-all of `/index\.ts|\.\w+$` with the empty string: scanning left to right, the leftmost
      match is dropped and the scan goes on after it; every other character is kept. */
  function StripModuleSuffix(s: string): (r: string)
    ensures |r| <= |s|
    decreases |s|
  {
    if |s| == 0 then ""
    else if IndexTs <= s then StripModuleSuffix(s[|IndexTs|..])
    else if s[0] == '.' && IsWordRun(s[1..]) then ""
    else [s[0]] + StripModuleSuffix(s[1..])
  }

  /** Every '.' of `s` stands next to a '.', a '/' or an end of the text on both sides, as in the
      `.` and `..` components of a rendered path. */
  predicate DotsInert(s: string) {
    forall i :: 0 <= i < |s| && s[i] == '.' ==>
      && (i == 0 || s[i - 1] == '.' || s[i - 1] == '/')
      && (i + 1 == |s| || s[i + 1] == '.' || s[i + 1] == '/')
  }

  predicate EndsWithIndex(u: string) {
    |u| >= 6 && u[|u| - 6..] == "/index"
  }

  /** No `/index.ts` in `u`. */
  predicate NoIndexTs(u: string) {
    forall i :: 0 <= i < |u| ==> !(IndexTs <= u[i..])
  }

  /** No match of the regex starts inside `u` when `t` follows it. */
  predicate KeptPrefix(u: string, t: string) {
    forall i :: 0 <= i < |u| ==> !MatchAt(u + t, i)
  }

  /** What may follow `u` without a match that starts inside `u` and ends after it. */
  predicate SafeBoundary(u: string, t: string) {
    || |t| == 0
    || t[0] == '/'
    || (t[0] == '.' && !(EndsWithIndex(u) && "ts" <= t[1..]))
  }

  /** A `/index.ts` holds an `x` right before its '.', which a text of `.` and `..` components
      has not. */
  lemma InertHasNoIndexTs(u: string)
    requires DotsInert(u)
    ensures NoIndexTs(u)
  {
    forall i | 0 <= i < |u| ensures !(IndexTs <= u[i..]) {
      if i + |IndexTs| <= |u| {
        assert u[i..][5] == u[i + 5] && u[i..][6] == u[i + 6];
      }
    }
  }

  lemma NoIndexTsPrefix(u: string, n: nat)
    requires NoIndexTs(u) && n <= |u|
    ensures NoIndexTs(u[..n])
  {
    forall i | 0 <= i < n ensures !(IndexTs <= u[..n][i..]) {
      assert !(IndexTs <= u[i..]);
      assert u[..n][i..] <= u[i..];
    }
  }

  /** No match starts inside a text without `/index.ts` that is followed by a '/' or a '.' (or by
      nothing, when its own dots are inert). */
  lemma NoMatchInside(u: string, t: string)
    requires NoIndexTs(u) && SafeBoundary(u, t)
    requires DotsInert(u) || |t| > 0
    ensures KeptPrefix(u, t)
  {
    forall i | 0 <= i < |u| ensures !MatchAt(u + t, i) {
      IndexTsOverlap(u, t, i);
      NoFinalDotInside(u, t, i);
    }
  }

  /** A `/index.ts` starting inside `u` either lies inside `u` or overlaps the boundary, which a
      safe boundary rules out. */
  lemma IndexTsOverlap(u: string, t: string, i: nat)
    requires NoIndexTs(u) && SafeBoundary(u, t)
    requires i < |u|
    ensures !(IndexTs <= (u + t)[i..])
  {
    var s := u + t;
    if i + |IndexTs| <= |u| {
      assert s[i..][..9] == u[i..][..9];
    } else if IndexTs <= s[i..] {
      OverlapAtBoundary(u, t, i);
    }
  }

  /** A `/index.ts` that starts inside `u` and ends after it, with a '/' or a '.' after `u`, starts
      exactly at the `/index` that ends `u`, and `t` goes on with `.ts`. */
  lemma OverlapAtBoundary(u: string, t: string, i: nat)
    requires i < |u| < i + |IndexTs|
    requires IndexTs <= (u + t)[i..]
    requires |t| > 0 && (t[0] == '/' || t[0] == '.')
    ensures t[0] == '.' && EndsWithIndex(u) && "ts" <= t[1..]
  {
    var w := (u + t)[i..];
    var k := |u| - i;
    assert w[k] == IndexTs[k] && t[0] == w[k];
    assert k == 6;
    assert u[|u| - 6..] == w[..6];
    assert t[1] == w[7] && t[2] == w[8];
    assert t[1..][..2] == "ts";
  }

  /** A '.' inside `u` is not followed by word characters up to the end: after it comes a
      non-word character of `u` or the '/' or '.' that opens `t`. */
  lemma NoFinalDotInside(u: string, t: string, i: nat)
    requires SafeBoundary(u, t) && (DotsInert(u) || |t| > 0)
    requires i < |u|
    ensures !((u + t)[i] == '.' && IsWordRun((u + t)[i + 1..]))
  {
    var s := u + t;
    if s[i] == '.' {
      if |t| > 0 {
        assert s[i + 1..][|u| - i - 1] == t[0];
      } else if i + 1 < |u| {
        assert u[i] == '.';
        assert s[i + 1..][0] == u[i + 1];
      } else {
        assert s[i + 1..] == [];
      }
    }
  }

  /** A match one character further into a text is a match in its tail. */
  lemma MatchAtTail(s: string, i: nat)
    requires i + 1 < |s|
    ensures MatchAt(s, i + 1) == MatchAt(s[1..], i)
  {
    assert s[i + 1..] == s[1..][i..];
    assert s[i + 2..] == s[1..][i + 1..];
  }

  /** A prefix in which no match starts is kept as it is. */
  lemma {:induction false} StripPassThrough(u: string, t: string)
    requires KeptPrefix(u, t)
    ensures StripModuleSuffix(u + t) == u + StripModuleSuffix(t)
    decreases |u|
  {
    if |u| > 0 {
      KeptPrefixTail(u, t);
      StripKeepsFirst(u + t);
      StripPassThrough(u[1..], t);
      ConsTail(u, t, StripModuleSuffix(t));
    } else {
      assert u + t == t;
    }
  }

  /** Taking the first character off a concatenation, and putting it back in front. */
  lemma ConsTail(u: string, t: string, r: string)
    requires |u| > 0
    ensures (u + t)[0] == u[0] && (u + t)[1..] == u[1..] + t
    ensures [u[0]] + (u[1..] + r) == u + r
  {
    assert [u[0]] + u[1..] == u;
  }

  /** What is kept of a prefix is kept of its tail. */
  lemma KeptPrefixTail(u: string, t: string)
    requires |u| > 0 && KeptPrefix(u, t)
    ensures !MatchAt(u + t, 0) && (u + t)[0] == u[0]
    ensures KeptPrefix(u[1..], t)
  {
    var s := u + t;
    assert s[1..] == u[1..] + t;
    forall i | 0 <= i < |u[1..]| ensures !MatchAt(u[1..] + t, i) {
      assert !MatchAt(s, i + 1);
      MatchAtTail(s, i);
    }
  }

  /** A character at which no match starts is kept. */
  lemma StripKeepsFirst(s: string)
    requires |s| > 0 && !MatchAt(s, 0)
    ensures StripModuleSuffix(s) == [s[0]] + StripModuleSuffix(s[1..])
  {
    assert s[0..] == s;
  }

  /** A text whose dots all belong to `.` and `..` components passes unchanged. */
  lemma StripInert(s: string)
    requires DotsInert(s)
    ensures StripModuleSuffix(s) == s
  {
    InertHasNoIndexTs(s);
    NoMatchInside(s, "");
    StripPassThrough(s, "");
    assert s + "" == s;
  }

  /** A text without '.' passes unchanged. */
  lemma StripDotFree(s: string)
    requires '.' !in s
    ensures StripModuleSuffix(s) == s
  {
    StripInert(s);
  }

  /** A final `.ext` of word characters is dropped, whatever the stem and the extension, unless
      the stem itself holds a `/index.ts` (which the scan then drops as well); when the stem ends in
      `/index` and the extension begins with `ts`, the `/index.ts` match comes first and what the
      extension has after `ts` is kept, so `a/index.tsx` becomes `ax`. */
  lemma StripExtension(u: string, ext: string)
    requires NoIndexTs(u) && IsWordRun(ext)
    ensures StripModuleSuffix(u + "." + ext) ==
              if EndsWithIndex(u) && "ts" <= ext then u[..|u| - 6] + ext[2..] else u
  {
    if EndsWithIndex(u) && "ts" <= ext {
      StripIndexTsFirst(u, ext);
    } else {
      StripFinalExtension(u, ext);
    }
  }

  lemma StripFinalExtension(u: string, ext: string)
    requires NoIndexTs(u) && IsWordRun(ext)
    requires !(EndsWithIndex(u) && "ts" <= ext)
    ensures StripModuleSuffix(u + "." + ext) == u
  {
    var t := "." + ext;
    assert u + "." + ext == u + t;
    assert t[1..] == ext;
    NoMatchInside(u, t);
    StripPassThrough(u, t);
    assert t[0] == '.';
    assert !(IndexTs <= t);
    assert u + "" == u;
  }

  lemma StripIndexTsFirst(u: string, ext: string)
    requires NoIndexTs(u) && IsWordRun(ext)
    requires EndsWithIndex(u) && "ts" <= ext
    ensures StripModuleSuffix(u + "." + ext) == u[..|u| - 6] + ext[2..]
  {
    var v := u[..|u| - 6];
    var t := "/index." + ext;
    assert u == v + "/index";
    assert u + "." + ext == v + t;
    NoIndexTsPrefix(u, |u| - 6);
    NoMatchInside(v, t);
    StripPassThrough(v, t);
    IndexTsThenRest(ext);
  }

  /** After a `/index.ts` match, the rest of a word-character extension has no '.' and stays. */
  lemma IndexTsThenRest(ext: string)
    requires IsWordRun(ext) && "ts" <= ext
    ensures StripModuleSuffix("/index." + ext) == ext[2..]
  {
    var t := "/index." + ext;
    assert t[..9] == IndexTs;
    assert t[|IndexTs|..] == ext[2..];
    assert '.' !in ext[2..] by {
      forall i | 0 <= i < |ext[2..]| ensures ext[2..][i] != '.' {
        assert ext[2..][i] == ext[i + 2];
        assert IsWordChar(ext[i + 2]);
      }
    }
    StripDotFree(ext[2..]);
  }

  // ---------------------------------------------------------------------------------------------
  // from_relative_path (src/import_string.rs:15-28)

  /** `^index$` replaced by `.`. */
  function ElideIndex(s: string): (r: string)
    ensures r != "index"
    ensures s != "index" ==> r == s
  {
    if s == "index" then "." else s
  }

  /** A `./` in front unless the text already starts with '.'. */
  function WithDotPrefix(s: string): (r: string)
    ensures |r| > 0 && r[0] == '.'
    ensures |s| > 0 && s[0] == '.' ==> r == s
    ensures !(|s| > 0 && s[0] == '.') ==> r == "./" + s
  {
    if |s| > 0 && s[0] == '.' then s else "./" + s
  }

  /** The three rewrites of `from_relative_path` on the text of a path. */
  function ImportText(s: string): (r: string)
    ensures |r| > 0 && r[0] == '.'
  {
    WithDotPrefix(ElideIndex(StripModuleSuffix(s)))
  }

  /** `from_relative_path`: the import string for a relative path. */
  function FromRelativePath(relPath: Path): (r: string)
    ensures |r| > 0 && r[0] == '.'
  {
    ImportText(Render(relPath))
  }

  /** `index` with any extension becomes `.`. */
  lemma IndexFileIsDot(ext: string)
    requires IsWordRun(ext)
    ensures ImportText("index." + ext) == "."
  {
    assert "index." + ext == "index" + "." + ext;
    assert NoIndexTs("index") by {
      forall i | 0 <= i < 5 ensures !(IndexTs <= "index"[i..]) {}
    }
    StripFinalExtension("index", ext);
  }

  /** A path to an `index.ts` becomes the import of its directory, whatever the directory is
      called, unless it holds a `/index.ts` itself. */
  lemma IndexTsIsDirectory(u: string)
    requires NoIndexTs(u)
    ensures StripModuleSuffix(u + "/index.ts") == u
  {
    NoMatchInside(u, "/index.ts");
    StripPassThrough(u, "/index.ts");
    assert "/index.ts"[|IndexTs|..] == "";
    assert u + "" == u;
  }

  // ---------------------------------------------------------------------------------------------
  // to_path and from_paths (src/import_string.rs:7-13, 30-35)

  /** `to_path`: the path an import written in `file` refers to, that is the import read as a path,
      joined to the directory of `file` and normalized. */
  function ToPath(file: Path, importString: string): (r: Result<Path>)
    ensures r.Ok? ==> Clean(r.value)
  {
    NormalizedIsClean(JoinRaw(GetParent(file), Parse(importString)));
    Join(GetParent(file), Parse(importString))
  }

  /** `from_paths`: the import string through which `file` refers to `requiredFile`. */
  function FromPaths(file: Path, requiredFile: Path): (r: Result<string>)
    ensures r.Err? <==> Diff(GetParent(file), requiredFile).Err?
    ensures r.Ok? ==> |r.value| > 0 && r.value[0] == '.'
  {
    var relPath :- Diff(GetParent(file), requiredFile);
    Ok(FromRelativePath(relPath))
  }

  /** A directory of names, after a root when it is absolute: the shape of the parent of a
      canonical file. */
  predicate NamedDirectory(dir: Path) {
    forall i :: RootLength(dir) <= i < |dir| ==> dir[i].Normal?
  }

  function RootLength(dir: Path): nat {
    if |dir| > 0 && dir[0] == RootDir then 1 else 0
  }

  /** An import that climbs more `..` than the file's directory has names cannot be resolved, in a
      relative directory and under the root alike. */
  lemma ToPathClimbsAbove(file: Path, importString: string, up: nat)
    requires NamedDirectory(GetParent(file))
    requires up > |GetParent(file)| - RootLength(GetParent(file)) && Ups(up) <= Parse(importString)
    ensures ToPath(file, importString).Err?
  {
    var dir := GetParent(file);
    var q := Parse(importString);
    var full := dir + q;
    var k := |dir| - RootLength(dir) + 1;
    assert !IsAbsolute(q) by {
      assert q[0] == Ups(up)[0];
    }
    var cut := |dir| + k;
    assert full[..cut] == dir + Ups(k) by {
      assert q[..k] == Ups(up)[..k];
    }
    CountsOfDirectory(dir);
    CountsOfUps(dir, k);
    NormalizeFailsIff(full);
  }

  lemma CountsOfDirectory(dir: Path)
    requires NamedDirectory(dir)
    ensures NameCount(dir) == |dir| - RootLength(dir) && ParentCount(dir) == 0
  {
    if RootLength(dir) == 1 {
      var names := dir[1..];
      assert forall i :: 0 <= i < |names| ==> names[i] == dir[i + 1];
      CountsOfNames(names);
    } else {
      CountsOfNames(dir);
    }
  }

  lemma {:induction false} CountsOfNames(dir: Path)
    requires forall i :: 0 <= i < |dir| ==> dir[i].Normal?
    ensures NameCount(dir) == |dir| && ParentCount(dir) == 0
    decreases |dir|
  {
    if |dir| > 0 {
      CountsOfNames(dir[1..]);
    }
  }

  lemma {:induction false} CountsOfUps(p: Path, k: nat)
    ensures NameCount(p + Ups(k)) == NameCount(p)
    ensures ParentCount(p + Ups(k)) == ParentCount(p) + k
    decreases k
  {
    if k > 0 {
      assert p + Ups(k) == (p + Ups(k - 1)) + [ParentDir];
      CountsOfUps(p, k - 1);
      CountsSnoc(p + Ups(k - 1), ParentDir);
    } else {
      assert p + Ups(k) == p;
    }
  }

  // ---------------------------------------------------------------------------------------------
  // The round trip: `to_path` reads back what `from_paths` writes

  /** Names that the codec carries through unchanged: no '.', and not `index`. */
  predicate PlainNames(p: Path) {
    forall i :: 0 <= i < |p| ==> p[i].Normal? ==> '.' !in p[i].name && p[i].name != "index"
  }

  lemma {:induction false} SubsequenceMembers(a: Path, b: Path)
    requires IsSubsequence(a, b)
    ensures forall i :: 0 <= i < |a| ==> a[i] in b
    decreases |b|
  {
    if |a| > 0 && |b| > 0 {
      if a[0] == b[0] && IsSubsequence(a[1..], b[1..]) {
        SubsequenceMembers(a[1..], b[1..]);
        assert forall i :: 0 < i < |a| ==> a[i] == a[1..][i - 1];
      } else {
        SubsequenceMembers(a, b[1..]);
      }
    }
  }

  lemma DotsInertSlash(a: string, b: string)
    requires DotsInert(a) && DotsInert(b)
    ensures DotsInert(a + "/" + b)
  {
    var s := a + "/" + b;
    forall i | 0 <= i < |s| && s[i] == '.'
      ensures (i == 0 || s[i - 1] == '.' || s[i - 1] == '/')
      ensures (i + 1 == |s| || s[i + 1] == '.' || s[i + 1] == '/')
    {
      if i < |a| {
        assert s[i] == a[i];
        if i > 0 { assert s[i - 1] == a[i - 1]; }
        if i + 1 < |a| { assert s[i + 1] == a[i + 1]; }
      } else {
        var j := i - |a| - 1;
        assert s[i] == b[j];
        if j > 0 { assert s[i - 1] == b[j - 1]; }
        if j + 1 < |b| { assert s[i + 1] == b[j + 1]; }
      }
    }
  }

  /** Joining `..` and dot-free pieces with '/' leaves every '.' inside a `..`. */
  lemma {:induction false} JoinDotsInert(pieces: seq<string>)
    requires |pieces| > 0
    requires forall i :: 0 <= i < |pieces| ==> pieces[i] == ".." || '.' !in pieces[i]
    ensures DotsInert(Seqs.Join(pieces, '/'))
    decreases |pieces|
  {
    assert DotsInert(pieces[0]) by {
      if pieces[0] == ".." {
        assert forall i :: 0 <= i < 2 ==> pieces[0][i] == '.';
      }
    }
    if |pieces| > 1 {
      JoinDotsInert(pieces[1..]);
      DotsInertSlash(pieces[0], Seqs.Join(pieces[1..], '/'));
    }
  }

  /** A `./` in front of a relative path reads as one `.` component more. */
  lemma ParseDotSlash(d: Path)
    requires WellFormed(d)
    requires forall i :: 0 <= i < |d| ==> !d[i].IsAnchor() && !d[i].CurDir?
    ensures Parse("./" + Render(d)) == [CurDir] + d
  {
    if |d| == 0 {
      assert "./" + Render(d) == Seqs.Join([".", ""], '/');
      Seqs.SplitJoin([".", ""], '/');
      assert ComponentsOf([""], false) == [];
    } else {
      var texts := Texts(d);
      TextsNoSlash(d);
      var pieces := ["."] + texts;
      assert pieces[1..] == texts;
      assert "./" + Render(d) == Seqs.Join(pieces, '/');
      Seqs.SplitJoin(pieces, '/');
      ComponentsOfTexts(d, false);
    }
  }

  lemma ParseIndex()
    ensures Parse("index") == [Normal("index")]
  {
    assert Seqs.Join(["index"], '/') == "index";
    ParseJoined(["index"]);
  }

  /** The components that make up a relative path the codec carries over unchanged. */
  predicate UpsAndPlainNames(d: Path) {
    forall i :: 0 <= i < |d| ==>
      d[i] == ParentDir || (d[i].Normal? && PlainName(d[i].name) && '.' !in d[i].name && d[i].name != "index")
  }

  /** What `diff` gives between two paths of the same kind is made of `..` and names of the target. */
  lemma DiffShape(dir: Path, requiredFile: Path)
    requires WellFormed(dir) && WellFormed(requiredFile)
    requires IsAbsolute(dir) == IsAbsolute(requiredFile)
    requires Normalized(dir).Ok? && Normalized(requiredFile).Ok?
    requires PlainNames(requiredFile)
    ensures Diff(dir, requiredFile).Ok?
    ensures UpsAndPlainNames(Diff(dir, requiredFile).value)
  {
    var nf, nt := Normalized(dir).value, Normalized(requiredFile).value;
    NormalizeShape(dir);
    NormalizeShape(requiredFile);
    NormalizedIsClean(requiredFile);
    NormalizeKeepsOrderAndAnchors(requiredFile);
    SubsequenceMembers(nt, requiredFile);
    var n := CommonPrefixLength(nt, nf);
    var m := |nf| - n;
    var d := Diff(dir, requiredFile).value;
    assert d == Ups(m) + nt[n..];
    assert IsAbsolute(nt) ==> n > 0 by {
      if IsAbsolute(nt) {
        assert nt[0] == requiredFile[0] == RootDir;
        assert nf[0] == dir[0] == RootDir;
      }
    }
    forall i | m <= i < |d|
      ensures d[i].Normal? && PlainName(d[i].name) && '.' !in d[i].name && d[i].name != "index"
    {
      var j := n + i - m;
      assert d[i] == nt[j];
      assert !nt[j].IsDot();
      assert j > 0 || !IsAbsolute(nt);
      assert !nt[j].IsAnchor();
      assert nt[j] in requiredFile;
    }
  }

  /** The text of such a path has only the dots of its `..` components. */
  lemma RenderInert(d: Path)
    requires UpsAndPlainNames(d)
    ensures DotsInert(Render(d))
  {
    if |d| > 0 {
      TextsNoSlash(d);
      JoinDotsInert(Texts(d));
    }
  }

  /** Reading back the import string of such a path, next to any directory, finds the same path. */
  lemma ImportReadsBack(dir: Path, d: Path)
    requires UpsAndPlainNames(d)
    ensures Join(dir, Parse(FromRelativePath(d))) == Join(dir, d)
  {
    var text := Render(d);
    ImportOfInert(d);
    assert !IsAbsolute(d) by {
      if |d| > 0 { assert !d[0].IsAnchor(); }
    }
    if |text| > 0 && text[0] == '.' {
      ParseRender(d);
    } else {
      DotSlashReadsBack(dir, d);
    }
  }

  /** The import string of `..` components and plain names is their text, with `./` in front when
      it does not start with '.'. */
  lemma ImportOfInert(d: Path)
    requires UpsAndPlainNames(d)
    ensures WellFormed(d)
    ensures FromRelativePath(d) == WithDotPrefix(Render(d))
  {
    assert WellFormed(d);
    var text := Render(d);
    RenderInert(d);
    StripInert(text);
    assert text != "index" by {
      if text == "index" {
        ParseRender(d);
        ParseIndex();
        assert false;
      }
    }
  }

  /** A leading `./` does not change where a relative path leads. */
  lemma DotSlashReadsBack(dir: Path, d: Path)
    requires UpsAndPlainNames(d) && WellFormed(d) && !IsAbsolute(d)
    ensures Join(dir, Parse("./" + Render(d))) == Join(dir, d)
  {
    ParseDotSlash(d);
    var cd := [CurDir] + d;
    assert cd[0] == CurDir;
    assert Join(dir, cd) == Normalized(dir + cd);
    assert dir + cd == dir + [CurDir] + d;
    NormalizeDropsCurDir(dir, d);
  }

  /** Writing the import of `requiredFile` from `file` and reading it back gives the normalized
      `requiredFile`, for files named without extensions: the one thing the codec loses is the
      extension and the `/index.ts`, which the module resolution of TypeScript adds back. */
  lemma FromPathsToPath(file: Path, requiredFile: Path)
    requires WellFormed(file) && WellFormed(requiredFile)
    requires IsAbsolute(GetParent(file)) == IsAbsolute(requiredFile)
    requires Normalized(GetParent(file)).Ok? && Normalized(requiredFile).Ok?
    requires PlainNames(requiredFile)
    ensures FromPaths(file, requiredFile).Ok?
    ensures ToPath(file, FromPaths(file, requiredFile).value) == Normalized(requiredFile)
  {
    var dir := GetParent(file);
    assert dir <= file;
    assert WellFormed(dir);
    assert AnchorsOnlyFirst(dir) && AnchorsOnlyFirst(requiredFile);
    DiffJoinRoundTrip(dir, requiredFile);
    DiffShape(dir, requiredFile);
    ImportReadsBack(dir, Diff(dir, requiredFile).value);
  }

  // The round trip for files with an extension, and for an `index.ts`

  lemma {:induction false} TextsSnoc(p: Path, c: Component)
    ensures Texts(p + [c]) == Texts(p) + [Text(c)]
    decreases |p|
  {
    if |p| == 0 {
      assert p + [c] == [c];
    } else {
      assert (p + [c])[1..] == p[1..] + [c];
      TextsSnoc(p[1..], c);
    }
  }

  /** The text of a relative path with a name added at the end. */
  lemma RenderSnoc(d: Path, name: string)
    requires UpsAndPlainNames(d)
    ensures Render(d + [Normal(name)]) == if |d| == 0 then name else Render(d) + "/" + name
  {
    var e := d + [Normal(name)];
    assert e[0] != RootDir by {
      if |d| > 0 { assert e[0] == d[0]; }
    }
    TextsSnoc(d, Normal(name));
    if |d| == 0 {
      assert Texts(e) == [name];
    } else {
      assert d[0] != RootDir;
      TextsNoSlash(d);
      Seqs.JoinSnoc(Texts(d), name, '/');
    }
  }

  /** A text that ends in a slash-free name other than `index` does not end in `/index`. */
  lemma EndsWithOtherName(x: string, stem: string)
    requires '/' !in stem && stem != "index"
    ensures !EndsWithIndex(stem) && !EndsWithIndex(x + "/" + stem)
  {
    if |stem| >= 6 {
      assert stem[|stem| - 6..][0] == stem[|stem| - 6];
    }
    var w := x + "/" + stem;
    var k := |stem|;
    if k >= 6 {
      assert w[|w| - 6..][0] == stem[k - 6];
    } else if k == 5 {
      assert w[|w| - 6..][1..] == stem;
    } else if |w| >= 6 {
      assert w[|w| - 6..][5 - k] == '/';
      assert forall j :: 1 <= j < 6 ==> "/index"[j] != '/';
    }
  }

  /** `diff` between a file's directory and a directory it reaches: it succeeds, gives `..` and
      plain names, and joining it back leads to the directory. */
  lemma DiffToDirectory(dir: Path, dirOfRequired: Path)
    requires WellFormed(dir) && WellFormed(dirOfRequired)
    requires IsAbsolute(dir) == IsAbsolute(dirOfRequired)
    requires Normalized(dir).Ok? && Normalized(dirOfRequired).Ok?
    requires PlainNames(dirOfRequired)
    ensures Diff(dir, dirOfRequired).Ok?
    ensures UpsAndPlainNames(Diff(dir, dirOfRequired).value)
    ensures Join(dir, Diff(dir, dirOfRequired).value) == Normalized(dirOfRequired)
  {
    assert AnchorsOnlyFirst(dir) && AnchorsOnlyFirst(dirOfRequired);
    DiffShape(dir, dirOfRequired);
    DiffJoinRoundTrip(dir, dirOfRequired);
  }

  /** `diff` towards a file named `name` in a directory, from a directory not inside one called
      `name`: the path to the directory with the name added. */
  lemma DiffSnocName(dir: Path, dirOfRequired: Path, name: string)
    requires AnchorsOnlyFirst(dir) && AnchorsOnlyFirst(dirOfRequired)
    requires IsAbsolute(dir) == IsAbsolute(dirOfRequired)
    requires Normalized(dir).Ok? && Normalized(dirOfRequired).Ok?
    requires Normal(name) !in dir
    ensures Diff(dir, dirOfRequired).Ok?
    ensures Diff(dir, dirOfRequired + [Normal(name)]) == Ok(Diff(dir, dirOfRequired).value + [Normal(name)])
  {
    var r := dirOfRequired;
    var x := Normal(name);
    NormalizeSnocName(r, name);
    var nf, nr := Normalized(dir).value, Normalized(r).value;
    assert x !in nf by {
      NormalizeKeepsOrderAndAnchors(dir);
      SubsequenceMembers(nf, dir);
    }
    assert IsAbsolute(nf) == IsAbsolute(nr) by {
      NormalizeShape(dir);
      NormalizeShape(r);
    }
    DiffPathsSnoc(nr, x, nf);
  }

  /** `diff_paths` towards a path with a component added that the base does not hold: the same
      answer with the component added. */
  lemma DiffPathsSnoc(nr: Path, x: Component, nf: Path)
    requires x !in nf && x.Normal?
    requires IsAbsolute(nf) == IsAbsolute(nr)
    ensures DiffPaths(nr, nf).Some?
    ensures DiffPaths(nr + [x], nf) == Some(DiffPaths(nr, nf).value + [x])
  {
    CommonPrefixSnoc(nr, x, nf);
    assert IsAbsolute(nr + [x]) == IsAbsolute(nr) by {
      if |nr| > 0 { assert (nr + [x])[0] == nr[0]; }
    }
    var n := CommonPrefixLength(nr, nf);
    assert (nr + [x])[n..] == nr[n..] + [x];
    assert Ups(|nf| - n) + (nr[n..] + [x]) == Ups(|nf| - n) + nr[n..] + [x];
  }

  /** The import of `stem.ext` is the import of `stem`. */
  lemma ImportOfExtension(d0: Path, stem: string, ext: string)
    requires UpsAndPlainNames(d0)
    requires PlainName(stem) && '.' !in stem && stem != "index" && IsWordRun(ext)
    ensures UpsAndPlainNames(d0 + [Normal(stem)])
    ensures FromRelativePath(d0 + [Normal(stem + "." + ext)]) == FromRelativePath(d0 + [Normal(stem)])
  {
    var d1 := d0 + [Normal(stem)];
    assert UpsAndPlainNames(d1);
    RenderWithExtension(d0, stem, ext);
    RenderInert(d1);
    ExtensionOfInert(Render(d1), ext);
  }

  /** The text of `d/stem.ext` is that of `d/stem` followed by `.ext`, and it does not end in
      `/index`. */
  lemma RenderWithExtension(d0: Path, stem: string, ext: string)
    requires UpsAndPlainNames(d0)
    requires '/' !in stem && stem != "index"
    ensures Render(d0 + [Normal(stem + "." + ext)]) == Render(d0 + [Normal(stem)]) + "." + ext
    ensures !EndsWithIndex(Render(d0 + [Normal(stem)]))
  {
    RenderSnoc(d0, stem + "." + ext);
    RenderSnoc(d0, stem);
    EndsWithOtherName(Render(d0), stem);
  }

  /** A final extension after a text whose dots belong to `.` and `..` goes, and nothing else. */
  lemma ExtensionOfInert(u: string, ext: string)
    requires DotsInert(u) && !EndsWithIndex(u) && IsWordRun(ext)
    ensures ImportText(u + "." + ext) == ImportText(u)
  {
    InertHasNoIndexTs(u);
    StripExtension(u, ext);
    StripInert(u);
  }

  /** The import of `index.ts` is `.` in the directory itself and the import of the directory
      elsewhere. */
  lemma ImportOfIndexTs(d0: Path)
    requires UpsAndPlainNames(d0)
    ensures FromRelativePath(d0 + [Normal("index.ts")]) == if |d0| == 0 then "." else FromRelativePath(d0)
  {
    var full := d0 + [Normal("index.ts")];
    RenderSnoc(d0, "index.ts");
    if |d0| == 0 {
      assert Render(full) == "index.ts";
      IndexTsIsDot();
    } else {
      var u := Render(d0);
      assert Render(full) == u + "/index.ts" by {
        assert u + "/" + "index.ts" == u + "/index.ts";
      }
      assert ImportText(u + "/index.ts") == ImportText(u) by {
        RenderInert(d0);
        IndexTsOfInert(u);
      }
    }
  }

  /** `index.ts` alone is the current directory. */
  lemma IndexTsIsDot()
    ensures ImportText("index.ts") == "."
  {
    assert IsWordRun("ts");
    assert "index." + "ts" == "index.ts";
    IndexFileIsDot("ts");
  }

  /** Under a directory text whose dots all belong to `.` and `..`, `/index.ts` imports the
      directory. */
  lemma IndexTsOfInert(u: string)
    requires DotsInert(u)
    ensures ImportText(u + "/index.ts") == ImportText(u)
  {
    InertHasNoIndexTs(u);
    IndexTsIsDirectory(u);
    StripInert(u);
  }

  /** Writing the import of a file `stem.ext` and reading it back gives the file without its
      extension, which is what TypeScript resolves back to `stem.ext`. */
  lemma FromPathsToPathWithExtension(file: Path, dirOfRequired: Path, stem: string, ext: string)
    requires WellFormed(file) && WellFormed(dirOfRequired)
    requires IsAbsolute(GetParent(file)) == IsAbsolute(dirOfRequired)
    requires Normalized(GetParent(file)).Ok? && Normalized(dirOfRequired).Ok?
    requires PlainNames(dirOfRequired)
    requires PlainName(stem) && '.' !in stem && stem != "index" && IsWordRun(ext)
    requires Normal(stem + "." + ext) !in GetParent(file)
    ensures FromPaths(file, dirOfRequired + [Normal(stem + "." + ext)]).Ok?
    ensures ToPath(file, FromPaths(file, dirOfRequired + [Normal(stem + "." + ext)]).value)
         == Normalized(dirOfRequired + [Normal(stem)])
  {
    var dir := GetParent(file);
    assert dir <= file;
    assert WellFormed(dir);
    DiffToDirectory(dir, dirOfRequired);
    DiffSnocName(dir, dirOfRequired, stem + "." + ext);
    var d0 := Diff(dir, dirOfRequired).value;
    var d1 := d0 + [Normal(stem)];
    ImportOfExtension(d0, stem, ext);
    ImportReadsBack(dir, d1);
    ReadBackSnoc(dir, d0, dirOfRequired, stem);
  }

  /** With the directory reached, a name added to the relative path is added to the result. */
  lemma ReadBackSnoc(dir: Path, d0: Path, dirOfRequired: Path, name: string)
    requires UpsAndPlainNames(d0)
    requires Join(dir, d0) == Normalized(dirOfRequired)
    ensures Join(dir, d0 + [Normal(name)]) == Normalized(dirOfRequired + [Normal(name)])
  {
    var d1 := d0 + [Normal(name)];
    assert !IsAbsolute(d1) by { assert !d1[0].IsAnchor(); }
    assert !IsAbsolute(d0) by {
      if |d0| > 0 { assert !d0[0].IsAnchor(); }
    }
    assert dir + d1 == (dir + d0) + [Normal(name)];
    NormalizeSnocName(dir + d0, name);
    NormalizeSnocName(dirOfRequired, name);
  }

  /** Writing the import of an `index.ts` and reading it back gives its directory. */
  lemma FromPathsToPathOfIndexTs(file: Path, dirOfRequired: Path)
    requires WellFormed(file) && WellFormed(dirOfRequired)
    requires IsAbsolute(GetParent(file)) == IsAbsolute(dirOfRequired)
    requires Normalized(GetParent(file)).Ok? && Normalized(dirOfRequired).Ok?
    requires PlainNames(dirOfRequired)
    requires Normal("index.ts") !in GetParent(file)
    ensures FromPaths(file, dirOfRequired + [Normal("index.ts")]).Ok?
    ensures ToPath(file, FromPaths(file, dirOfRequired + [Normal("index.ts")]).value) == Normalized(dirOfRequired)
  {
    var dir := GetParent(file);
    assert dir <= file;
    assert WellFormed(dir);
    DiffToDirectory(dir, dirOfRequired);
    DiffSnocName(dir, dirOfRequired, "index.ts");
    var d0 := Diff(dir, dirOfRequired).value;
    ImportOfIndexTs(d0);
    if |d0| == 0 {
      DotReadsBack(dir);
      assert dir + [] == dir + d0;
    } else {
      ImportReadsBack(dir, d0);
    }
  }

  /** The import `.` reads back as the directory itself. */
  lemma DotReadsBack(dir: Path)
    ensures Join(dir, Parse(".")) == Normalized(dir + [])
  {
    ParseJoined(["."]);
    assert Parse(".") == [CurDir];
    assert dir + [CurDir] == dir + [CurDir] + [];
    NormalizeDropsCurDir(dir, []);
  }
}
