/** src/edit.rs: the grammar chosen by a file's suffix, the loop that rewrites the relative import
    strings of a source text through a rope, and the two wrappers that rewrite them for a moved
    source file and for a moved required file. Parsing and running the query are foreign: a
    `Parse` stands for `ImportFinder::new` followed by the query's matches. */
module Edit {
  import opened Wrappers
  import opened Paths
  import opened Rope
  import opened Parser
  import opened Rewrite
  import opened ImportReplacer

  /** `infer_langauge_from_suffix`: `ts` files are TypeScript and `tsx` files TSX; any other suffix,
      and a missing one, is an error. It agrees with the grammar `infer_langauge` of src/parser.rs
      picks, and fails exactly when that does. */
  function InferLanguageFromSuffix(fileName: Path): (r: Result<Lang>)
    ensures r == Ok(TypeScript) <==> Extension(fileName) == Some("ts")
    ensures r == Ok(TypeScriptTsx) <==> Extension(fileName) == Some("tsx")
    ensures Extension(fileName).None? ==> r == Err(MissingSuffix)
    ensures r.Ok? ==> InferLanguage(fileName) == Ok(ToLanguage(r.value))
    ensures r.Err? ==> InferLanguage(fileName) == Err(r.error)
  {
    var suffix :- Suffix(fileName);
    match suffix
    case "ts" => Ok(TypeScript)
    case "tsx" => Ok(TypeScriptTsx)
    case _ => Err(UnsupportedSuffix(suffix))
  }

  /** The foreign parse of a text in a dialect: the query's matches, or the parser's error. */
  type Parse = (string, Lang) -> Result<seq<QueryMatch>>

  /** The captured literals lie inside single lines of the text, no two on one line. */
  predicate Addressable(sourceCode: string, matches: seq<QueryMatch>) {
    && EndsPastColumnZero(Captures(matches))
    && ValidSlices(Lines(sourceCode), FindImports(matches))
  }

  /** What the loop of `replace_rel_imports` returns: the rewritten text, or the replacer's first
      error. */
  function RewriteText(sourceCode: string, slices: seq<TextSlice>, replace: Replacer): (r: Result<string>)
    requires ValidSlices(Lines(sourceCode), slices)
    ensures r.Ok? && SingleLine(replace) ==> |Lines(r.value)| == |Lines(sourceCode)|
  {
    var o := RewriteLines(Lines(sourceCode), slices, replace);
    if o.error.Some? then Err(o.error.value)
    else
      assert SingleLine(replace) ==> Lines(JoinLines(o.lines)) == o.lines by {
        if SingleLine(replace) {
          LinesOfJoin(o.lines);
        }
      }
      Ok(JoinLines(o.lines))
  }

  /** One pass of the loop, at `slice`, on `rope`, the text of the lines `ls`. */
  method ReplaceSlice(rope: string, slice: TextSlice, ghost ls: seq<string>, ghost rest: seq<TextSlice>,
                      replace: Replacer, ghost goal: Outcome)
    returns (r: Result<string>, ghost ls': seq<string>)
    requires Reaches(ls, rest, replace, goal) && rope == JoinLines(ls)
    requires |rest| > 0 && rest[0] == slice
    ensures r.Ok? ==> Reaches(ls', rest[1..], replace, goal) && r.value == JoinLines(ls')
    ensures r.Err? ==> goal == Outcome(ls', Some(r.error))
  {
    ls' := ls;
    Rewrite.Step(ls, rest, replace, goal);
    StepOnText(ls, slice, "");
    var range := ToIndexRange(slice, rope);
    var startIdx, endIdx := range.0, range.1;
    var oldImport := Slice(rope, startIdx, endIdx);
    assert oldImport == Literal(ls, slice);
    if !IsRelative(oldImport) {
      return Ok(rope), ls';
    }
    var newImport :- replace(oldImport);
    if oldImport == newImport {
      EditWithOwnLiteral(ls, slice);
      return Ok(rope), ls';
    }
    assert Reaches(EditLine(ls, slice, newImport), rest[1..], replace, goal);
    StepOnText(ls, slice, newImport);
    ls' := EditLine(ls, slice, newImport);
    r := Ok(Insert(Remove(rope, startIdx, endIdx), startIdx, newImport));
  }

  /** `replace_rel_imports`: every relative literal the query captures is replaced by what the
      replacer makes of it, unless that is the literal itself; a failing parse or a failing
      replacer ends the call with its error. */
  method ReplaceRelImports(sourceCode: string, lang: Lang, parse: Parse, replace: Replacer)
    returns (r: Result<string>)
    requires SingleLine(replace)
    requires parse(sourceCode, lang).Ok? ==> Addressable(sourceCode, parse(sourceCode, lang).value)
    ensures parse(sourceCode, lang).Err? ==> r == Err(parse(sourceCode, lang).error)
    ensures parse(sourceCode, lang).Ok? ==>
              r == RewriteText(sourceCode, FindImports(parse(sourceCode, lang).value), replace)
  {
    var matches :- parse(sourceCode, lang);
    var slices := FindImports(matches);
    var rope := sourceCode;
    ghost var ls := Lines(sourceCode);
    ghost var goal := RewriteLines(ls, slices, replace);
    assert slices[0..] == slices;
    for k := 0 to |slices|
      invariant Reaches(ls, slices[k..], replace, goal) && rope == JoinLines(ls)
    {
      assert slices[k..][1..] == slices[k + 1..];
      var next;
      next, ls := ReplaceSlice(rope, slices[k], ls, slices[k..], replace, goal);
      if next.Err? {
        return Err(next.error);
      }
      rope := next.value;
    }
    assert slices[|slices|..] == [];
    r := Ok(rope);
  }

  /** `replace_imports`: the same loop, for the dialect the file's suffix names. The source writes
      the loop out a second time; here it is the one of `replace_rel_imports`. */
  method ReplaceImports(sourceFile: Path, sourceCode: string, parse: Parse, replace: Replacer)
    returns (r: Result<string>)
    requires SingleLine(replace)
    requires InferLanguageFromSuffix(sourceFile).Ok? &&
             parse(sourceCode, InferLanguageFromSuffix(sourceFile).value).Ok? ==>
               Addressable(sourceCode, parse(sourceCode, InferLanguageFromSuffix(sourceFile).value).value)
    ensures InferLanguageFromSuffix(sourceFile).Err? ==> r == Err(InferLanguageFromSuffix(sourceFile).error)
    ensures InferLanguageFromSuffix(sourceFile).Ok? ==>
              var lang := InferLanguageFromSuffix(sourceFile).value;
              && (parse(sourceCode, lang).Err? ==> r == Err(parse(sourceCode, lang).error))
              && (parse(sourceCode, lang).Ok? ==>
                    r == RewriteText(sourceCode, FindImports(parse(sourceCode, lang).value), replace))
  {
    var lang :- InferLanguageFromSuffix(sourceFile);
    r := ReplaceRelImports(sourceCode, lang, parse, replace);
  }

  // ---------------------------------------------------------------------------------------------
  // move_source_file and move_required_file

  /** `rename_source_file` of src/import_string.rs, given the import string and the old and new
      locations of the file that holds it. */
  type SourceFileRename = (string, Path, Path) -> Result<string>

  /** `rename_required_file`, given the file holding the import, the import string and the old and
      new locations of the file it names. */
  type RequiredFileRename = (Path, string, Path, Path) -> Result<string>

  /** The closure `move_source_file` hands to the loop. */
  function SourceRenamer(rename: SourceFileRename, sourceFile: Path, targetFile: Path): (r: Replacer)
    ensures forall s :: r(s) == rename(s, sourceFile, targetFile)
  {
    s => rename(s, sourceFile, targetFile)
  }

  /** The closure `move_required_file` hands to the loop. */
  function RequiredRenamer(rename: RequiredFileRename, sourceFile: Path, oldLocation: Path, newLocation: Path)
    : (r: Replacer)
    ensures forall s :: r(s) == rename(sourceFile, s, oldLocation, newLocation)
  {
    s => rename(sourceFile, s, oldLocation, newLocation)
  }

  /** `move_source_file`: the imports of a file moved from `sourceFile` to `targetFile`, each
      rewritten by the rename for that move. */
  method MoveSourceFile(sourceCode: string, sourceFile: Path, targetFile: Path, parse: Parse,
                        rename: SourceFileRename)
    returns (r: Result<string>)
    requires SingleLine(SourceRenamer(rename, sourceFile, targetFile))
    requires InferLanguageFromSuffix(sourceFile).Ok? &&
             parse(sourceCode, InferLanguageFromSuffix(sourceFile).value).Ok? ==>
               Addressable(sourceCode, parse(sourceCode, InferLanguageFromSuffix(sourceFile).value).value)
    ensures InferLanguageFromSuffix(sourceFile).Err? ==> r == Err(InferLanguageFromSuffix(sourceFile).error)
    ensures InferLanguageFromSuffix(sourceFile).Ok? ==>
              var lang := InferLanguageFromSuffix(sourceFile).value;
              && (parse(sourceCode, lang).Err? ==> r == Err(parse(sourceCode, lang).error))
              && (parse(sourceCode, lang).Ok? ==>
                    r == RewriteText(sourceCode, FindImports(parse(sourceCode, lang).value),
                                     SourceRenamer(rename, sourceFile, targetFile)))
  {
    var lang :- InferLanguageFromSuffix(sourceFile);
    r := ReplaceRelImports(sourceCode, lang, parse, SourceRenamer(rename, sourceFile, targetFile));
  }

  /** `move_required_file`: the imports in `sourceFile` rewritten by the rename for a required file
      moved from `oldLocation` to `newLocation`. */
  method MoveRequiredFile(sourceCode: string, sourceFile: Path, oldLocation: Path, newLocation: Path,
                          parse: Parse, rename: RequiredFileRename)
    returns (r: Result<string>)
    requires SingleLine(RequiredRenamer(rename, sourceFile, oldLocation, newLocation))
    requires InferLanguageFromSuffix(sourceFile).Ok? &&
             parse(sourceCode, InferLanguageFromSuffix(sourceFile).value).Ok? ==>
               Addressable(sourceCode, parse(sourceCode, InferLanguageFromSuffix(sourceFile).value).value)
    ensures InferLanguageFromSuffix(sourceFile).Err? ==> r == Err(InferLanguageFromSuffix(sourceFile).error)
    ensures InferLanguageFromSuffix(sourceFile).Ok? ==>
              var lang := InferLanguageFromSuffix(sourceFile).value;
              && (parse(sourceCode, lang).Err? ==> r == Err(parse(sourceCode, lang).error))
              && (parse(sourceCode, lang).Ok? ==>
                    r == RewriteText(sourceCode, FindImports(parse(sourceCode, lang).value),
                                     RequiredRenamer(rename, sourceFile, oldLocation, newLocation)))
  {
    var lang :- InferLanguageFromSuffix(sourceFile);
    r := ReplaceRelImports(sourceCode, lang, parse, RequiredRenamer(rename, sourceFile, oldLocation, newLocation));
  }

  // ---------------------------------------------------------------------------------------------
  // What the loop promises

  /** The result of the loop, in terms of the original text: without a failing relative literal it
      is the text with every relative literal replaced in place and every line without a slice
      kept; otherwise it is the error of the first failing one. */
  lemma RewriteTextSubstitutes(sourceCode: string, slices: seq<TextSlice>, replace: Replacer)
    requires ValidSlices(Lines(sourceCode), slices) && SingleLine(replace)
    ensures var ls := Lines(sourceCode);
            (RewriteText(sourceCode, slices, replace).Err? <==>
               exists k :: 0 <= k < |slices| && Fails(ls, slices[k], replace))
    ensures var ls := Lines(sourceCode);
            (forall k :: 0 <= k < |slices| ==> !Fails(ls, slices[k], replace)) ==>
              && RewriteText(sourceCode, slices, replace).Ok?
              && var out := Lines(RewriteText(sourceCode, slices, replace).value);
                 && |out| == |ls|
                 && (forall i :: 0 <= i < |ls| && (forall k :: 0 <= k < |slices| ==> slices[k].startRow != i) ==>
                       out[i] == ls[i])
                 && (forall k :: 0 <= k < |slices| ==> out[slices[k].startRow] == NewLine(ls, slices[k], replace))
  {
    var ls := Lines(sourceCode);
    RewriteFailsIff(ls, slices, replace);
    if forall k :: 0 <= k < |slices| ==> !Fails(ls, slices[k], replace) {
      RewriteSubstitutes(ls, slices, replace);
      LinesOfJoin(RewriteLines(ls, slices, replace).lines);
    }
  }

  /** A replacer that gives every relative literal back returns the text unchanged. */
  lemma IdentityKeepsText(sourceCode: string, slices: seq<TextSlice>, replace: Replacer)
    requires ValidSlices(Lines(sourceCode), slices)
    requires forall lit :: IsRelative(lit) ==> replace(lit) == Ok(lit)
    ensures RewriteText(sourceCode, slices, replace) == Ok(sourceCode)
  {
    RewriteIdentity(Lines(sourceCode), slices, replace);
  }

  /** On a failure the call returns the error of the first failing relative literal, and no text. */
  lemma FirstFailureIsReported(sourceCode: string, slices: seq<TextSlice>, replace: Replacer, k: nat)
    requires ValidSlices(Lines(sourceCode), slices)
    requires k < |slices| && Fails(Lines(sourceCode), slices[k], replace)
    requires forall j :: 0 <= j < k ==> !Fails(Lines(sourceCode), slices[j], replace)
    ensures RewriteText(sourceCode, slices, replace) == Err(replace(Literal(Lines(sourceCode), slices[k])).error)
  {
    RewriteStopsAtFirstFailure(Lines(sourceCode), slices, replace, k);
  }

  /** `w` occurs in `t`. */
  predicate Contains(t: string, w: string) {
    exists i, j :: 0 <= i <= j <= |t| && t[i..j] == w
  }

  /** A relative literal written between two quotes on a line is replaced between the same two
      quotes, and the line so changed is part of the returned text. */
  lemma ReplacedInPlace(sourceCode: string, slices: seq<TextSlice>, replace: Replacer, k: nat,
                        p: string, lit: string, q: string)
    requires ValidSlices(Lines(sourceCode), slices)
    requires forall j :: 0 <= j < |slices| ==> !Fails(Lines(sourceCode), slices[j], replace)
    requires k < |slices| && IsRelative(lit)
    requires Lines(sourceCode)[slices[k].startRow] == p + "'" + lit + "'" + q
    requires slices[k].startCol == |p| + 1 && slices[k].endCol == |p| + 1 + |lit|
    ensures replace(lit).Ok? && RewriteText(sourceCode, slices, replace).Ok?
    ensures Contains(RewriteText(sourceCode, slices, replace).value, p + "'" + replace(lit).value + "'" + q)
  {
    var ls := Lines(sourceCode);
    var s := slices[k];
    assert WithinLine(ls, s);
    QuotesKept(ls, s, p, lit, q, "");
    assert !Fails(ls, s, replace);
    var x := replace(lit).value;
    var want := p + "'" + x + "'" + q;
    QuotesKept(ls, s, p, lit, q, x);
    RewriteSubstitutes(ls, slices, replace);
    var o := RewriteLines(ls, slices, replace);
    assert o.lines[s.startRow] == want;
    LineInJoin(o.lines, s.startRow);
    var i := LineStart(o.lines, s.startRow);
    assert JoinLines(o.lines)[i..i + |want|] == want;
  }
}
