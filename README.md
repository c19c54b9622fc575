# mvts in Dafny

mvts moves TypeScript files and rewrites the relative import strings that refer to them. This
project models its core in three layers and proves properties of each:

- **the path algebra** of `src/path.rs`. A path is a sequence of components (`RootDir`,
  `Prefix`, `CurDir`, `ParentDir`, `Normal(name)`). It covers the imperative `normalize` (a
  reversed scan with a `skip` counter) and `diff`, `get_parent`, `join` and `move_path` on top of
  it. The external `pathdiff::diff_paths` gets a small specification: it drops the common prefix,
  adds one `..` for every remaining component of the base, then appends the rest of the target.
- **the import-string codec** of `src/import_string.rs` and its copies in `src/main.rs`. Here
  `from_relative_path`'s regex `/index\.ts|\.\w+$` becomes an explicit left-to-right scan, followed
  by the `^index$` → `.` rewrite and the `./` prefix. `to_path` and `from_paths` compose the codec
  with the path algebra.
- **the rewrite loop**. This covers the span-to-offset mapping of `src/parser.rs` and the loops of
  `src/edit.rs` and `src/import_replacer.rs`:
  - The text (a ropey `Rope` in the source) is a `string`, and `line_to_char` is the offset just
    after the r-th `'\n'`.
  - The import spans that tree-sitter finds are an input: the captured string-literal nodes.
  - `ImportReplacer` is a class whose `text` field is rewritten in place.
  - `replace_rel_imports` is a method with a loop over the slices.
  - Both are proved against one specification: the simultaneous substitution `RewriteLines`, over
    the lines of the ORIGINAL text, of every relative literal by the replacer's output.

Files:

| file | module | models |
|---|---|---|
| wrappers.dfy | Wrappers | `Option` and `Result`, with the error kinds the code raises. |
| seqs.dfy | Seqs | Split, join, count and reverse on sequences. |
| paths.dfy | Paths | `src/path.rs`, `Path::components`, `Path::extension` and `diff_paths`. |
| path_examples.dfy | PathExamples | The test vectors of `src/path.rs`. |
| import_string.dfy | ImportString | `src/import_string.rs`. |
| import_string_examples.dfy | ImportStringExamples | The test vectors of `src/import_string.rs`. |
| cli.dfy | Cli | The pure functions of `src/main.rs`. |
| cli_examples.dfy | CliExamples | The test vectors of `src/main.rs`. |
| rope.dfy | Rope | The ropey operations the loops use. |
| parser.dfy | Parser | `src/parser.rs`. |
| columns.dfy | Columns | Tree-sitter's byte columns against the character columns of the rope. |
| rewrite.dfy | Rewrite | The rewrite both loops perform, as a function over lines. |
| import_replacer.dfy | ImportReplacer | `src/import_replacer.rs`. |
| import_replacer_examples.dfy | ImportReplacerExamples | The test `it_works`. |
| edit.dfy | Edit | `src/edit.rs`. |
| edit_examples.dfy | EditExamples | The tests `it_updates_imports_0` and `it_updates_imports_1`. |

Where source files disagree with each other, the model follows the code that runs:

- `src/parser.rs` queries both `import_statement` and `export_statement` strings.
  `src/import_replacer.rs` queries only `import_statement` strings. Both take the captured nodes as
  an input, so the model covers either query.
- `src/edit.rs:6` imports `Lang` from `crate::parser`, but `Lang` is declared in
  `src/import_replacer.rs:8-11`. The model declares it there too.
- `src/edit.rs:25` calls `ImportFinder::new` with a `Lang`, but `src/parser.rs:45` takes a file
  path. The model follows the intended flow: the parse is a function of the text and the
  language (`Edit.Parse`).

## Model

| member | source | states |
|---|---|---|
| Paths.Normalized | src/path.rs:6-32 | What `normalize` computes: the kept components when every `..` found a name, and `NormalizeFailed` otherwise; a success is never longer than the path (its meaning is given by NormalizedIsResolve and NormalizeFailsIff). |
| Paths.Normalize | src/path.rs:6-32 | What the reversed loop with its `skip` counter returns is `Normalized(path)`: the scan's kept components when no `..` is left waiting, otherwise an error. |
| Paths.NormalizedIsResolve | src/path.rs:10-31 | The right-to-left scan agrees with an independent left-to-right resolution in which every `..` pops the last name kept. |
| Paths.NormalizeFailsIff | src/path.rs:20-31 | `normalize` fails exactly when some prefix of the path holds more `..` than names; a leading `../x` is the simplest case. |
| Paths.ResolveDepth | src/path.rs:12-22 | On success, names kept plus the `..` in the input equal the names in the input; success holds exactly when every prefix holds at least as many names as `..`. |
| Paths.NormalizedIsClean | src/path.rs:19-31 | A successful result holds no `.` and no `..`. |
| Paths.NormalizeClean | src/path.rs:6-32 | A path without `.` and `..` normalizes to itself. |
| Paths.NormalizeIdempotent | src/path.rs:6-32 | Normalizing a normalized path changes nothing. |
| Paths.NormalizeKeepsOrderAndAnchors | src/path.rs:10-29 | The result is a subsequence of the input (order kept, reversed twice), and the root and prefix components all stay. |
| Paths.NormalizeShape | src/path.rs:23-25 | A path that is absolute stays absolute with the same first component, and anchors stay first. |
| Paths.NormalizeDropsCurDir | src/path.rs:19 | A `.` anywhere has no effect. |
| Paths.NormalizeCancelsPair | src/path.rs:12-22 | A name followed by `..` cancels, wherever the pair stands. |
| Paths.NormalizeSnocName | src/path.rs:6-32 | A name added at the end of a path stays at the end of the normalized result, and a path that fails still fails with the same error. |
| Paths.FileName | src/parser.rs:10-11 | `Path::file_name`: present exactly when the last component is a name, and then the path is its parent followed by that name. |
| Paths.Extension | src/parser.rs:10-13 | `Path::extension`: none for no file name, for `..` and for a name whose only dot is its first character; otherwise the text after the last dot, which holds no dot. |
| Paths.CommonPrefixLength | src/path.rs:38 | The length of the longest common prefix: both paths agree up to it and differ right after it. |
| Paths.CommonPrefixSnoc | src/path.rs:38 | A component the base path does not hold, added to the end of the target, leaves the common prefix as it was. |
| Paths.DiffPaths | src/path.rs:38 | Under the prefix rule by which `diff_paths` is specified (see Left out), there is no answer exactly when a relative path is seen from an absolute base. |
| Paths.Diff | src/path.rs:34-45 | `diff` fails when either argument fails to normalize; otherwise it is `diff_paths` of the normalized paths with the arguments swapped, and it fails when that has no answer. |
| Paths.DiffJoinRoundTrip | src/path.rs:34-56 | Joining `from` with `diff(from, to)` gives `to`, normalized. |
| Paths.GetParent | src/path.rs:47-51 | `get_parent` drops only the last component, and keeps a lone root or an empty path. |
| Paths.JoinRaw | src/path.rs:54 | `PathBuf::join` as components: an absolute `path` replaces `dir`, a relative one follows it, and a leading `.` of `path` goes when `dir` is not empty, since the text `dir/./rest` reads back without it. The result is absolute exactly when one of the two is, and well formed whenever both are. |
| Paths.Join | src/path.rs:53-56 | `join` is `dir` followed by `path` (or `path` alone when it is absolute), normalized. |
| Paths.JoinRawNormalized | src/path.rs:53-56 | Once normalized, the joined path is the same whether or not `join` dropped a leading `.`. |
| Paths.MovePath | src/path.rs:58-66 | `move_path` has an answer exactly when `sourcePath` is a component-wise prefix of `filePath`. The answer is the target followed by the rest of the file path, with two exceptions. When the rest opens with `.` (a relative `./…` file path under an empty `sourcePath`), that `.` goes, unless the target is empty. When the rest is absolute (an empty `sourcePath` under an absolute `filePath`), `join` keeps the rest alone, so the answer is `filePath` itself. The answer is well formed whenever the file path and the target are. |
| Paths.MovePathInverse | src/path.rs:58-66 | Moving a path back from the target to the source restores it, when the rest of the path under the source is relative and does not open with `.`. |
| Paths.Parse | src/import_string.rs:9 | `Path::components` of a text: the result is well formed (no drive prefix, only plain names, a root or `.` only first) and absolute exactly when the text starts with `/`. |
| Paths.Render | src/import_string.rs:16 | The text of a path: a path under the root starts with `/` and the empty path is the empty text; ParseRender reads it back. |
| Paths.ParseRender | src/import_string.rs:9 | Reading a path's text back gives the path, for every path Unix text can produce. |
| PathExamples.ParseStrips1 | src/path.rs:118 | `a/b/./../c` reads as `a`, `b`, `..`, `c`, with the interior `.` dropped. |
| PathExamples.Strips0 | src/path.rs:117-118 | On the components of `a/b/../c` as Parse gives them, `normalize` yields those of `a/c`. |
| PathExamples.Strips2 | src/path.rs:119 | On the components of `a/b/./../c/d` as Parse gives them (the interior `.` already dropped, see ParseStrips1), `normalize` yields those of `a/c/d`. |
| PathExamples.Strips3 | src/path.rs:120 | On the parsed components of `a/b/./../c/d/e/../f`, `normalize` yields those of `a/c/d/f`. |
| PathExamples.Strips4 | src/path.rs:121-122 | On the parsed components of the same texts under a leading `/`, the same holds and the root is kept, with or without an extension on the last name. |
| PathExamples.CancelTwice | src/path.rs:120-122 | Both cancellations of `b/../c/d/e/../last`, after any prefix without `.` and `..`. |
| PathExamples.Move0 | src/path.rs:93 | `/a/b/c` moved from `/a/b` to `/a/z` is `/a/z/c`. |
| PathExamples.Move1 | src/path.rs:94 | `a/b/c` moved from `a/b` to `a/z` is `a/z/c`. |
| PathExamples.Move2 | src/path.rs:95 | `x/b/c` is not under `a/b`. |
| PathExamples.Move3 | src/path.rs:96 | `a/b/c/d` moved from `a` to `z` is `z/b/c/d`. |
| PathExamples.Move4 | src/path.rs:97 | `src/some/juuh.ts` is not under `src/other/juuh.ts`. |
| PathExamples.Move5 | src/path.rs:98 | `src/some/juuh.ts` moved from `src/some` to `src/other` is `src/other/juuh.ts`. |
| PathExamples.MoveDropsCurDir | src/path.rs:58-66 | `./a` moved from the empty path to `z` is `z/a`, and moving `z/a` back gives `a`: here the move has no inverse. |
| ImportString.StripModuleSuffix | src/import_string.rs:18-19 | The leftmost-first replace-all of the regex that matches `/index.ts` or a final `.` and word characters (also copied at src/main.rs:202-203 and 231-232): it never lengthens the text; what it leaves is stated by StripPassThrough, StripExtension, StripIndexTsFirst and IndexTsIsDirectory. |
| ImportString.StripPassThrough | src/import_string.rs:18-19 | A prefix at which no match of the regex starts is kept as it is, followed by the scan of the rest. |
| ImportString.NoMatchInside | src/import_string.rs:18-19 | No match starts inside a text holding no `/index.ts` when a '/' follows it, or a '.' that does not complete a `/index.ts` with it, or nothing at all when the text's own dots sit inside `.` and `..` components. |
| ImportString.InertHasNoIndexTs | src/import_string.rs:18 | A text whose dots all sit inside `.` and `..` components holds no `/index.ts`. |
| ImportString.StripInert | src/import_string.rs:18-19 | A text whose dots all sit inside `.` and `..` components passes the scan unchanged. |
| ImportString.StripExtension | src/import_string.rs:18-19 | For any stem holding no `/index.ts`, dotted names included, a final `.ext` of word characters is removed whatever the extension, and the dots inside the stem stay. When the stem ends in `/index` and the extension starts with `ts`, the `/index.ts` match wins and the rest of the extension stays. |
| ImportString.StripFinalExtension | src/import_string.rs:18-19 | For a stem holding no `/index.ts`, outside that overlap, `u.ext` becomes `u`. |
| ImportString.StripIndexTsFirst | src/import_string.rs:18-19 | For a stem holding no `/index.ts`, in the overlap `u/index.tsx` becomes `u` + `x`. |
| ImportString.IndexTsIsDirectory | src/import_string.rs:18-19 | A trailing `/index.ts` is removed from any directory text that holds no other `/index.ts`, dotted names included. |
| ImportString.StripDotFree | src/import_string.rs:18-19 | A text without a dot passes the scan unchanged. |
| ImportString.ElideIndex | src/import_string.rs:21-22 | `^index$` becomes `.`: the result is never `index`, and any other text is unchanged. |
| ImportString.ImportText | src/import_string.rs:18-27 | The three rewrites of `from_relative_path` in order; the result always starts with `.`. |
| ImportString.WithDotPrefix | src/import_string.rs:24-27 | The result always starts with `.`; `./` is added only when the text does not already start with `.`. |
| ImportString.FromRelativePath | src/import_string.rs:15-28 | The import string for a relative path always starts with `.`. |
| ImportString.IndexFileIsDot | src/import_string.rs:18-22 | `index` with any extension of word characters becomes `.`. |
| ImportString.ToPath | src/import_string.rs:7-13 | A resolved import holds no `.` and no `..`. |
| ImportString.ToPathClimbsAbove | src/import_string.rs:7-13 | An import that climbs more `..` than the file's directory has names does not resolve, for a directory of names and for a canonical absolute one (the root followed by names). |
| ImportString.FromPaths | src/import_string.rs:30-35 | `from_paths` fails exactly when `diff` of the file's directory and the required file fails, and its result starts with `.`. |
| ImportString.DiffShape | src/import_string.rs:30-35 | Between two normalizable paths of the same kind, where no name of the required file holds a dot or is `index`, `diff` succeeds and yields `..` components followed by such names. |
| ImportString.RenderInert | src/import_string.rs:15-19 | The text of a path made of `..` and names without dots has no dot outside its `..` components. |
| ImportString.ImportReadsBack | src/import_string.rs:7-35 | Reading the import string of a relative path made of `..` and such names back, from any directory, resolves where the path itself does. |
| ImportString.FromPathsToPath | src/import_string.rs:7-35 | Round trip for a required file none of whose names holds a dot or is `index`: `to_path(file, from_paths(file, required))` is `required`, normalized. The next two rows cover a final `stem.ext` and an `index.ts`. |
| ImportString.FromPathsToPathWithExtension | src/import_string.rs:7-35 | Round trip for a file `stem.ext` in such a directory, seen from a directory without a component `stem.ext`: the import read back is the directory followed by `stem`, the file without its extension, which is what TypeScript's module resolution completes. |
| ImportString.FromPathsToPathOfIndexTs | src/import_string.rs:7-35 | Round trip for `index.ts` in such a directory, seen from a directory without a component `index.ts`: the import read back is the directory itself. |
| ImportString.DiffToDirectory | src/import_string.rs:30-35 | `diff` towards a directory of such names succeeds, yields `..` and such names, and joining it back to the base gives the directory, normalized. |
| ImportString.DiffSnocName | src/path.rs:34-45 | When the base holds no component `name`, `diff` towards `dir/name` is `diff` towards `dir` with `name` added. |
| ImportString.DiffPathsSnoc | src/path.rs:38 | A name the base does not hold, added to the target, is added to the end of what `diff_paths` yields. |
| ImportString.ImportOfExtension | src/import_string.rs:15-28 | The import string of `d/stem.ext` is that of `d/stem`, for a stem without dots other than `index`. |
| ImportString.ImportOfIndexTs | src/import_string.rs:15-28 | The import string of `d/index.ts` is `.` when `d` is empty and that of `d` otherwise. |
| ImportString.ReadBackSnoc | src/path.rs:53-56 | When joining `d` to a directory reaches a target, joining `d/name` reaches the target with `name` added. |
| ImportStringExamples.IndexFiles | src/import_string.rs:56-59 | `index.ts`, `index.js`, `index.jsx` and `index.tsx` all become `.`. |
| ImportStringExamples.IndexTsDirectory | src/import_string.rs:60 | `juuh/elikkas/index.ts` becomes `./juuh/elikkas`. |
| ImportStringExamples.FinalExtension | src/import_string.rs:61 | `juuh/elikkas/joo.tsx` becomes `./juuh/elikkas/joo`. |
| ImportStringExamples.OtherExtensions | src/import_string.rs:18 | `x/index.js` keeps its `/index` and only loses `.js`; `icon.svg` loses `.svg`. |
| ImportStringExamples.IndexTsWinsOverExtension | src/import_string.rs:18-19 | `a/index.tsx` becomes `./ax`. |
| ImportStringExamples.DottedStem | src/import_string.rs:18-19 | `vendor/jquery.min.js` becomes `./vendor/jquery.min`: only the final extension goes. |
| ImportStringExamples.TestFile | src/import_string.rs:18-19 | `foo.test.ts` becomes `./foo.test`. |
| ImportStringExamples.DottedDirectory | src/import_string.rs:18-19 | `lib.v2/index.ts` becomes `./lib.v2`. |
| ImportStringExamples.ToPathVectors | src/import_string.rs:108-111 | From `a/b/c/file.ts`: `../../other` is `a/other`, `.` is `a/b/c`, `./d/e` is `a/b/c/d/e` and `../` is `a/b`. |
| ImportStringExamples.DiffVectors | src/import_string.rs:81-84 | The relative paths `diff` yields for the four `from_paths` vectors. |
| ImportStringExamples.FromPaths0 | src/import_string.rs:81 | `src/store/index.ts` seen from `src/views/some/Juuh.tsx` is `../../store`. |
| ImportStringExamples.FromPaths1 | src/import_string.rs:82 | `other/no/common` seen from `some/index.ts` is `../other/no/common`. |
| ImportStringExamples.FromPaths2 | src/import_string.rs:83 | `deeper/in/path` seen from `index.ts` is `./deeper/in/path`. |
| ImportStringExamples.FromPaths3 | src/import_string.rs:84 | `index.ts` seen from `lol.ts` is `.`. |
| Cli.ToTypeScriptImportString | src/main.rs:201-212 | The result starts with `.` and is the same three rewrites `from_relative_path` performs. |
| Cli.ToNodejsImport | src/main.rs:228-241 | `to_nodejs_import` of a path, read through the text `Paths.Render` gives its components (see Left out), equals `to_typesript_import_string` of that text and `from_relative_path` of the path. |
| Cli.GetNodejsImportsFromPaths | src/main.rs:243-254 | Under the prefix rule by which `diff_paths` is specified (see Left out), fails exactly when a relative required file is seen from an absolute directory; otherwise the result starts with `.`. |
| Cli.GetTsImport | src/main.rs:214-226 | Under the same prefix rule of `diff_paths`, fails exactly when a relative `from_file` is seen from the absolute directory of `into_file`; otherwise the result starts with `.`. |
| Cli.TsImportIsNodejsImport | src/main.rs:214-254 | `get_ts_import(from, into)` is `get_nodejs_imports_from_paths(into, from)`. |
| Cli.NodejsImportIsFromPaths | src/main.rs:243-254 | On normalized paths, `get_nodejs_imports_from_paths` agrees with `from_paths`. |
| Cli.NodejsImportKeepsParentComponents | src/main.rs:243-254 | Without normalizing, `x/../f.ts` gives `../../y` where `from_paths` gives `./y`. |
| Cli.UpUpImport | src/main.rs:304 | `../../y` passes `to_nodejs_import` unchanged. |
| Cli.FilterFile | src/main.rs:58-68 | `.` is kept; every other name starting with `.` is rejected; `node_modules` is rejected; a name that is not UTF-8 is rejected; every other name is kept. |
| Cli.InferLanguageFromSuffix | src/main.rs:103-114 | The same as the grammar choice of `src/parser.rs`; succeeds exactly for the suffixes `ts` and `tsx`. |
| CliExamples.NodejsIndexFiles | src/main.rs:279-282 | node_js_import_0, _1, _3 and _4: `index.ts`, `index.js`, `index.jsx` and `index.tsx` become `.`. |
| CliExamples.NodejsIndexTs | src/main.rs:283 | node_js_import_5: `juuh/elikkas/index.ts` becomes `./juuh/elikkas`. |
| CliExamples.NodejsFinalExtension | src/main.rs:284 | node_js_import_6: `juuh/elikkas/joo.tsx` becomes `./juuh/elikkas/joo`. |
| CliExamples.NodejsFromPaths0 | src/main.rs:304 | `src/store/index.ts` seen from `src/views/some/Juuh.tsx` is `../../store`. |
| CliExamples.NodejsFromPaths1 | src/main.rs:305 | `other/no/common` seen from `some/index.ts` is `../other/no/common`. |
| CliExamples.NodejsFromPaths2 | src/main.rs:306 | `deeper/in/path` seen from `index.ts` is `./deeper/in/path`. |
| CliExamples.NodejsFromPaths3 | src/main.rs:307 | `index.ts` seen from `lol.ts` is `.`. |
| Parser.Suffix | src/parser.rs:10-13 | The suffix is the file's extension; a missing extension is the error `MissingSuffix`. |
| Parser.InferLanguage | src/parser.rs:9-20 | `ts` selects the TypeScript grammar and `tsx` the TSX grammar. A missing suffix is an error, and so is any other suffix, which the error names. |
| Parser.SuffixAfterLastDot | src/parser.rs:10-13 | The suffix of `stem.ext` is the text after the last dot. |
| Parser.NoDotNoLanguage | src/parser.rs:13 | A file name without a dot has no suffix and is refused. |
| Parser.SliceOf | src/parser.rs:65-74 | The rows are copied from the node; the start column is one past the node's start (the opening quote) and the end column one before its end (the closing quote). |
| Parser.SlicesOf | src/parser.rs:63-75 | One slice per node, in order. |
| Parser.FindImports | src/parser.rs:59-76 | One slice for every capture of every match, in order. |
| Parser.ToIndexRange | src/parser.rs:30-35 | Each end of the range is the offset at which its row starts in the given text plus its column. |
| Parser.IndexRangeOfLine | src/parser.rs:30-35 | When the text is made of lines, the range of a slice inside one line covers exactly those columns of that line. |
| Parser.SliceSkipsQuotes | src/parser.rs:65-74 | The range of a quoted node's slice covers the literal without its two quotes. |
| Columns.ByteColumn | src/parser.rs:66-67 | The byte offset tree-sitter reports for a character column is never less than that column, and equals it exactly when the characters before it are ASCII. |
| Columns.CharColumnOfByteColumn | src/parser.rs:66-73 | Walking a line's characters back from a column's byte offset gives the column. |
| Columns.CharNode | src/parser.rs:66-73 | The corrected reading keeps a node's rows and gives columns inside their lines. |
| Columns.CharNodeReadsLiteral | src/parser.rs:65-74 | For a quoted literal at characters `[c0, c1)` of any line, the byte-column node read back in characters is `[c0, c1)`, and its range covers the literal without its quotes. |
| Columns.ByteColumnsMisread | src/parser.rs:66-73 | As written: on `/*é*/import a from './b';` the node of `'./b'` has byte columns 20 and 25, its range is 21..24, and it reads `/b'`, which does not start with `.`. |
| Columns.CharNodeOfCommentedLine | src/parser.rs:66-73 | Corrected: on the same line the node read in characters is 19..24, its range is 20..23, and it reads `./b`. |
| Rope.LineToChar | src/parser.rs:32-33 | `line_to_char(r)` is the offset just after the r-th newline, or the end of the text one row past the last. |
| Rope.Lines | src/edit.rs:26 | The text splits into one more line than it has newlines; the lines join back to the text. |
| Rope.LinesOfJoin | src/edit.rs:26 | Joining lines without newlines and splitting again gives the lines back. |
| Rope.LineToCharOfJoin | src/parser.rs:32-33 | On joined lines, `line_to_char(r)` is where line r starts. |
| Rope.ReplaceLineInJoin | src/edit.rs:43-44 | Replacing one line of the lines replaces exactly its characters in the joined text. |
| Rope.Slice | src/edit.rs:31 | `slice(start..end)` has the characters from `start` up to `end`. |
| Rope.Remove | src/edit.rs:43 | `remove(start..end)` shortens the text by the length of the range. |
| Rope.RemoveKeepsTheRest | src/edit.rs:43 | `remove(start..end)` keeps the text before `start` and the text from `end` on. |
| Rope.Insert | src/edit.rs:44 | `insert(at, s)` lengthens the text by the length of `s`. |
| Rope.InsertKeepsTheRest | src/edit.rs:44 | `insert(at, s)` places `s` at `at` and keeps the text on both sides. |
| Rope.RemoveInsertSplices | src/edit.rs:43-44 | Remove, then insert at the same place, replaces exactly `[start, end)` by the new text; text before and after is unchanged. |
| Rope.RemoveInsertRestores | src/edit.rs:39-44 | Removing a range and inserting what it held restores the text. |
| Rewrite.Splice | src/edit.rs:43-44 | Within a line, the columns `[from, to)` are replaced and the rest kept. |
| Rewrite.RewriteLines | src/edit.rs:28-46 | The rewrite keeps the number of lines, and puts no newline into them when the replacer produces none. |
| Rewrite.LiteralElsewhere | src/edit.rs:28-45 | An edit on one line leaves the literal of every slice on another line as it was. |
| Rewrite.ValidAfterEdit | src/edit.rs:28-45 | After an edit, the remaining slices still lie inside their lines, on distinct rows. |
| Rewrite.EditWithOwnLiteral | src/edit.rs:39-41 | Replacing a literal by itself changes nothing, which is why the equality skip is harmless. |
| Rewrite.Step | src/edit.rs:28-45 | One pass of the loop: skip a literal that does not start with `.`; stop with the replacer's error; or continue from the edited lines. |
| Rewrite.RewriteFailsIff | src/edit.rs:37 | The rewrite fails exactly when some slice holds a relative literal the replacer refuses. |
| Rewrite.RewriteSubstitutes | src/edit.rs:28-46 | Without a failure, every line without a slice is kept verbatim (so every non-relative literal stays), and every sliced line becomes its original with the literal replaced by the replacer's answer. |
| Rewrite.RewriteStopsAtFirstFailure | src/edit.rs:37 | The error reported is that of the first refused literal, together with the lines edited before it. |
| Rewrite.RewriteIdentity | src/edit.rs:39-46 | With a replacer that returns every relative literal unchanged, the lines come out unchanged. |
| Rewrite.RewriteSeesOnlyRelative | src/edit.rs:33-35 | Two replacers that agree on relative literals give the same rewrite: the replacer is never consulted on any other literal. |
| Rewrite.StepOnText | src/edit.rs:29-44 | On the text, the offsets of a slice hold its literal, and removing and inserting there performs the line edit. |
| Rewrite.EditInText | src/edit.rs:43-44 | The remove and insert at a slice's offsets give the text of the edited lines. |
| Rewrite.OtherSliceUnmoved | src/edit.rs:28-45 | After an edit without newlines, every slice on another line still addresses the same literal when its offsets are recomputed against the new text. |
| Rewrite.EditKeepsNoNewlines | src/edit.rs:43-44 | An edit without newlines keeps the lines free of newlines. |
| Rewrite.QuotesKept | src/import_replacer.rs:54-57 | The literal between the quotes of `p'lit'q` is `lit`, and the edit turns that line into `p'x'q`, quotes kept. |
| ImportReplacer.ToLanguage | src/import_replacer.rs:13-18 | Each dialect has its own grammar. |
| ImportReplacer.OneCaptureVisitsEachOnce | src/import_replacer.rs:48-50 | With a one-capture query, the nested loop visits every captured node once, in order. |
| ImportReplacer.NodeStep | src/import_replacer.rs:50-68 | One pass of the inner loop, on the lines: skip, fail, or continue from the edited lines. |
| ImportReplacer.NodeOffsets | src/import_replacer.rs:53-59 | The offsets one column inside each end of a node address the node's literal. |
| ImportReplacer.NodeEdit | src/import_replacer.rs:67-68 | The remove and insert at those offsets perform the line edit. |
| ImportReplacer.ImportReplacer.constructor | src/import_replacer.rs:30-34 | The object built once the parse has succeeded holds the source code as its text, and the captures given. |
| ImportReplacer.ImportReplacer.New | src/import_replacer.rs:27-35 | `new` parses the text in the grammar of its dialect. A failing parse is the error of the call; otherwise the new object holds the source code as its text and the captures of the parse. |
| ImportReplacer.ImportReplacer.ToString | src/import_replacer.rs:37-39 | `to_string` returns the current text. |
| ImportReplacer.ImportReplacer.ReplaceImports | src/import_replacer.rs:41-72 | The new `text` consists of the lines of `RewriteLines` over the original lines and the visited nodes. Each relative literal is replaced without an equality check, the quotes are kept, and other literals are skipped. The call fails exactly when the rewrite meets a refusal, with that error, and the edits made before it stay in `text`. |
| ImportReplacer.ImportReplacer.ReplaceCaptures | src/import_replacer.rs:50-69 | The inner loop over one match's captures keeps the rewrite on course toward the same final outcome. |
| ImportReplacer.ImportReplacer.ReplaceNode | src/import_replacer.rs:51-68 | One node: recompute the offsets, read the literal, skip, fail, or remove and insert. |
| ImportReplacerExamples.WorksInText | src/import_replacer.rs:97-106 | With the replacer answering `WORKS`, a line `import some from '<relative>';` turns into one holding `import some from 'WORKS';`. |
| ImportReplacerExamples.ItWorks | src/import_replacer.rs:97-106 | `new`, then `replace_imports` with that replacer, succeeds and leaves `import some from 'WORKS';` in the text. |
| Edit.InferLanguageFromSuffix | src/edit.rs:8-19 | `ts` selects `TypeScript` and `tsx` selects `TypeScriptTsx`. A missing suffix is an error, and so is any other suffix, with the error of the grammar choice. |
| Edit.ReplaceSlice | src/edit.rs:29-44 | One pass of the loop keeps the text equal to the rewritten lines, and on an error the outcome is that error. |
| Edit.ReplaceRelImports | src/edit.rs:21-47 | A parse error is returned as it is. Otherwise the result is `RewriteText`: the simultaneous substitution over the original lines, or the first refusal's error. |
| Edit.ReplaceImports | src/edit.rs:49-76 | The language is taken from the suffix, and its error is returned. Then the same result as `replace_rel_imports`. |
| Edit.SourceRenamer | src/edit.rs:84-91 | The closure hands each import string, with the old and new locations, to the rename. |
| Edit.RequiredRenamer | src/edit.rs:101-109 | The closure hands the source file, each import string and both locations to the rename. |
| Edit.MoveSourceFile | src/edit.rs:78-92 | The suffix error or parse error is returned as it is; otherwise the result is the rewrite with each relative import renamed for the move. |
| Edit.MoveRequiredFile | src/edit.rs:94-110 | The same, with the rename for a moved required file. |
| Edit.RewriteText | src/edit.rs:28-46 | What `replace_rel_imports` returns: the rope's text after the loop, or the replacer's first error; with a newline-free replacer the text keeps its number of lines. |
| Edit.RewriteTextSubstitutes | src/edit.rs:28-46 | The call fails exactly when a relative literal is refused. Otherwise the text has as many lines as before; every line without a slice is kept; every sliced line has its literal replaced. |
| Edit.IdentityKeepsText | src/edit.rs:39-46 | With an identity replacer, the output equals the input. |
| Edit.FirstFailureIsReported | src/edit.rs:37 | A replacer error aborts the call with the error for the first refused literal, and no text is returned. |
| Edit.ReplacedInPlace | src/edit.rs:43-44 | A line `p'lit'q` with a relative `lit` appears in the output as `p'x'q`, where `x` is the replacer's answer. |
| EditExamples.RebaseImport | src/edit.rs:128-131 | The stand-in rename: resolve the import from the old location, then write it from the new one. |
| EditExamples.UpTwoFromSource | src/edit.rs:119-128 | `../../y` read from `/src/a/b/c/d/source.ts` is `/src/a/b/y`. |
| EditExamples.DeeperImportOf | src/edit.rs:129-133 | `/src/a/b/y` seen from `/src/a/b/c/d/e/target.ts` is `../../../y`. |
| EditExamples.UpperImportOf | src/edit.rs:153-157 | `/src/a/b/y` seen from `/src/a/target.ts` is `./b/y`. |
| EditExamples.RebaseDeeper | src/edit.rs:128-134 | Moving the source one directory deeper turns `../../y` into `../../../y`. |
| EditExamples.RebaseUpper | src/edit.rs:152-158 | Moving the source up to `/src/a` turns `../../y` into `./b/y`. |
| EditExamples.MoveDeeperScenario | src/edit.rs:117-139 | it_updates_imports_0: when every captured literal sits on a line `p'../../y'q` with a plain, dot-free `y` other than `c`, the rewrite for the deeper move succeeds and its text holds `p'../../../y'q` for each of them. |
| EditExamples.MoveUpperScenario | src/edit.rs:141-163 | it_updates_imports_1: when every captured literal sits on a line `p'../../y'q` with a plain, dot-free `y`, the move up succeeds and its text holds `p'./b/y'q` for each of them. |

## Findings

| source | as written | input that shows it | evidently intended | confidence | as-written member | corrected member |
|---|---|---|---|---|---|---|
| src/parser.rs:66-73 | The byte columns of tree-sitter's `Point` are added to `line_to_char`, which counts characters (src/parser.rs:31-33); src/import_replacer.rs:53-57 does the same. | `/*é*/import a from './b';`: the range is 21..24 and reads `/b'`, so the import is skipped. | The columns are taken back to characters of their line, and the range reads `./b`. | not executed | Columns.ByteColumnsMisread | Columns.CharNodeOfCommentedLine |

## Left out

- Tree-sitter is not modelled: loading a grammar, parsing, and running the query (`src/parser.rs:79-87`, `src/import_replacer.rs:75-83`). The captured nodes are an input. In `src/edit.rs` a parse is a function `Edit.Parse` that may fail.
- Which nodes the query captures, import strings only (`src/import_replacer.rs:6`) or import and export strings (`src/parser.rs:7`), is decided by the foreign query and is not modelled.
- ropey is specified only through the operations the loops call. Only `'\n'` counts as a line break; ropey also breaks at `\r\n`, `\r` and the Unicode line and paragraph separators.
- `diff_paths` is specified by its prefix rule, without pathdiff's handling of `.` and `..` inside the base path.
- Disk access, directory walking, canonicalisation, printing and argument parsing in `src/main.rs` are left out: `main`, `move_and_replace`, `get_canon_dir`, `find_references`, `sniff_ref_for_file`, `update_imports` and `update_import_string`.
- Paths and names that are not UTF-8 have no counterpart, since a Dafny string is always text. `from_relative_path` and `to_nodejs_import` therefore cannot fail in the model. `Cli.FilterFile` takes the name as an `Option`, with `None` standing for a name that is not UTF-8.
- Unicode word characters in `\w` are taken to be ASCII letters, digits and `_`.
- Windows path prefixes are kept by `normalize` as anchors but never produced by parsing, since paths follow Unix rules.
- `import_string::rename_source_file` and `import_string::rename_required_file`, which `src/edit.rs:85-90` and `src/edit.rs:102-108` call, are not part of this model. The renames are parameters of `Edit.MoveSourceFile` and `Edit.MoveRequiredFile`, and the scenarios of `src/edit.rs:117-163` use the stand-in `EditExamples.RebaseImport` instead.
- Edit.ReplaceRelImports: requires that the captured literals lie within single lines, on distinct rows, and that the replacer puts no newline into them. Outside these conditions the source goes wrong and the contract says nothing. All slices come from the tree of the unedited text. So on `import a from './a'; import b from './b';`, a first replacement of a different length moves the second literal, and the second slice reads the wrong columns. A replacement holding a newline moves every later row in the same way.
- Cli.ToNodejsImport: a `PathBuf` is modelled by its components, and `to_str()` (src/main.rs:229) by `Paths.Render` of them, so text that is not canonical is outside the model. `PathBuf::from("a/")` gives `./a/` in the source but `./a` in the model, and `a//b.ts` gives `./a//b` against `./a/b`; the same holds for an interior `/./`. Such text can reach `Cli.GetNodejsImportsFromPaths` and `Cli.GetTsImport`, because `diff_paths` passes an absolute path through unchanged when the base is relative. `ImportString.FromRelativePath` (src/import_string.rs:16) reads its path the same way, but its caller passes it the diff of two normalized paths.
- Paths.MovePathInverse: does not hold for a relative file path opening with `./` under an empty source, because `join` drops that `.` (`PathExamples.MoveDropsCurDir`); the requires leaves that case out.
- Edit.ReplaceImports: the same conditions as `Edit.ReplaceRelImports`.
- Edit.MoveSourceFile: the same conditions, on the rename for the move.
- Edit.MoveRequiredFile: the same conditions, on the rename for the moved required file.
- ImportReplacer.ImportReplacer.ReplaceImports: the same conditions. It also requires every visited node to end past column 0, because the end offset subtracts 1 in unsigned arithmetic.
- `src/grep.rs`, `src/parse.rs`, `src/query.rs`, `src/tsconfig.rs`, `src/import_updater.rs`, `src/fault.rs`, `src/error.rs` and `build.rs` are not part of this model. They hold file walking, foreign-function experiments, JSON configuration, an empty struct and error enums.
- Error messages are recorded as error kinds, not as their formatted text.
- Node columns: tree-sitter reports them in bytes, while the rope counts characters. The rewrite loops take the captured nodes in character columns, which is the reading `Columns.CharNode` gives (see Findings). On lines that are ASCII before each literal, the two agree.
- ImportReplacer.ImportReplacer.constructor: cannot fail. The failing parse of `ImportReplacer::new` (src/import_replacer.rs:32) is in `ImportReplacer.ImportReplacer.New`, which calls the constructor only after the parse has succeeded.
- ImportString.FromPathsToPath: no round-trip lemma covers a directory name holding a dot (`lib.v2/x.ts`) or named `index`. The scan's handling of such names is covered by `ImportString.StripExtension` and `ImportString.IndexTsIsDirectory`.
