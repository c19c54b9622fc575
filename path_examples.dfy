/** The test vectors of src/path.rs:92-123, over the components the texts of the vectors read as
    (an interior `.` is gone once the text is read, see `Paths.ComponentOf`). */
module PathExamples {
  import opened Wrappers
  import opened Paths
  import Seqs

  const a := Normal("a")
  const b := Normal("b")
  const c := Normal("c")
  const d := Normal("d")
  const e := Normal("e")
  const f := Normal("f")
  const z := Normal("z")

  /** The text `a/b/./../c` reads as `a`, `b`, `..`, `c`. */
  lemma ParseStrips1()
    ensures Parse("a/b/./../c") == [Normal("a"), Normal("b"), ParentDir, Normal("c")]
  {
    var pieces := ["a", "b", ".", "..", "c"];
    assert Seqs.Join(pieces, '/') == "a/b/./../c";
    ParseJoined(pieces);
    assert ComponentsOf(pieces, true) == [Normal("a"), Normal("b"), ParentDir, Normal("c")];
  }

  /** strips_0 and strips_1: `a/b/../c` becomes `a/c`. */
  lemma Strips0()
    ensures Normalized([a, b, ParentDir, c]) == Ok([a, c])
  {
    assert [a, b, ParentDir, c] == [a] + [Normal("b"), ParentDir] + [c];
    NormalizeCancelsPair([a], "b", [c]);
    assert [a] + [c] == [a, c];
    NormalizeClean([a, c]);
  }

  /** strips_2: `a/b/./../c/d` becomes `a/c/d`. */
  lemma Strips2()
    ensures Normalized([a, b, ParentDir, c, d]) == Ok([a, c, d])
  {
    assert [a, b, ParentDir, c, d] == [a] + [Normal("b"), ParentDir] + [c, d];
    NormalizeCancelsPair([a], "b", [c, d]);
    assert [a] + [c, d] == [a, c, d];
    NormalizeClean([a, c, d]);
  }

  /** Both cancellations of `x/b/../c/d/e/../last`, after the first components `x`. */
  lemma CancelTwice(x: Path, last: string)
    requires Clean(x)
    requires PlainName(last)
    ensures Normalized(x + [b, ParentDir, c, d, e, ParentDir, Normal(last)]) == Ok(x + [c, d, Normal(last)])
  {
    var l := Normal(last);
    assert x + [b, ParentDir, c, d, e, ParentDir, l] == x + [Normal("b"), ParentDir] + [c, d, e, ParentDir, l];
    NormalizeCancelsPair(x, "b", [c, d, e, ParentDir, l]);
    assert x + [c, d, e, ParentDir, l] == (x + [c, d]) + [Normal("e"), ParentDir] + [l];
    NormalizeCancelsPair(x + [c, d], "e", [l]);
    assert (x + [c, d]) + [l] == x + [c, d, l];
    NormalizeClean(x + [c, d, l]);
  }

  /** strips_3: `a/b/./../c/d/e/../f` becomes `a/c/d/f`. */
  lemma Strips3()
    ensures Normalized([a, b, ParentDir, c, d, e, ParentDir, f]) == Ok([a, c, d, f])
  {
    CancelTwice([a], "f");
    assert [a] + [b, ParentDir, c, d, e, ParentDir, f] == [a, b, ParentDir, c, d, e, ParentDir, f];
    assert [a] + [c, d, f] == [a, c, d, f];
  }

  /** strips_4 and strips_5: the same under the root, with and without an extension. */
  lemma Strips4()
    ensures Normalized([RootDir, a, b, ParentDir, c, d, e, ParentDir, f]) == Ok([RootDir, a, c, d, f])
    ensures Normalized([RootDir, a, b, ParentDir, c, d, e, ParentDir, Normal("f.svg")])
         == Ok([RootDir, a, c, d, Normal("f.svg")])
  {
    var svg := Normal("f.svg");
    CancelTwice([RootDir, a], "f");
    assert [RootDir, a] + [b, ParentDir, c, d, e, ParentDir, f] == [RootDir, a, b, ParentDir, c, d, e, ParentDir, f];
    assert [RootDir, a] + [c, d, f] == [RootDir, a, c, d, f];
    CancelTwice([RootDir, a], "f.svg");
    assert [RootDir, a] + [b, ParentDir, c, d, e, ParentDir, svg] == [RootDir, a, b, ParentDir, c, d, e, ParentDir, svg];
    assert [RootDir, a] + [c, d, svg] == [RootDir, a, c, d, svg];
  }

  /** move_0: `/a/b/c` moved from `/a/b` to `/a/z` is `/a/z/c`. */
  lemma Move0()
    ensures MovePath([RootDir, a, b, c], [RootDir, a, b], [RootDir, a, z]) == Some([RootDir, a, z, c])
  {
    var file := [RootDir, a, b, c];
    assert file[..3] == [RootDir, a, b] && file[3..] == [c];
    assert JoinRaw([RootDir, a, z], [c]) == [RootDir, a, z, c];
  }

  /** move_1: `a/b/c` moved from `a/b` to `a/z` is `a/z/c`. */
  lemma Move1()
    ensures MovePath([a, b, c], [a, b], [a, z]) == Some([a, z, c])
  {
    var file := [a, b, c];
    assert file[..2] == [a, b] && file[2..] == [c];
    assert JoinRaw([a, z], [c]) == [a, z, c];
  }

  /** move_2: `x/b/c` is not under `a/b`. */
  lemma Move2()
    ensures MovePath([Normal("x"), b, c], [a, b], [a, z]) == None
  {
    assert [Normal("x"), b, c][0] != [a, b][0] by { assert "x"[0] != "a"[0]; }
  }

  /** move_3: `a/b/c/d` moved from `a` to `z` is `z/b/c/d`. */
  lemma Move3()
    ensures MovePath([a, b, c, d], [a], [z]) == Some([z, b, c, d])
  {
    var file := [a, b, c, d];
    assert file[..1] == [a] && file[1..] == [b, c, d];
    assert JoinRaw([z], [b, c, d]) == [z, b, c, d];
  }

  /** move_4: `src/some/juuh.ts` is not under the single file `src/other/juuh.ts`. */
  lemma Move4()
    ensures MovePath([Normal("src"), Normal("some"), Normal("juuh.ts")],
                     [Normal("src"), Normal("other"), Normal("juuh.ts")],
                     [Normal("src"), Normal("other"), Normal("elikkas.ts")]) == None
  {
    var file := [Normal("src"), Normal("some"), Normal("juuh.ts")];
    var source := [Normal("src"), Normal("other"), Normal("juuh.ts")];
    assert file[1] != source[1] by { assert "some"[0] != "other"[0]; }
  }

  /** move_5: `src/some/juuh.ts` moved from `src/some` to `src/other` is `src/other/juuh.ts`. */
  lemma Move5()
    ensures MovePath([Normal("src"), Normal("some"), Normal("juuh.ts")], [Normal("src"), Normal("some")],
                     [Normal("src"), Normal("other")]) == Some([Normal("src"), Normal("other"), Normal("juuh.ts")])
  {
    var file := [Normal("src"), Normal("some"), Normal("juuh.ts")];
    assert file[..2] == [Normal("src"), Normal("some")] && file[2..] == [Normal("juuh.ts")];
    assert JoinRaw([Normal("src"), Normal("other")], [Normal("juuh.ts")]) == [Normal("src"), Normal("other"), Normal("juuh.ts")];
  }

  /** A file path `./a` moved from the empty path to `z` is `z/a`: the text `z/./a` reads back
      without its `.`. Moving `z/a` back gives `a`, not `./a`, so the move has no inverse there. */
  lemma MoveDropsCurDir()
    ensures MovePath([CurDir, a], [], [z]) == Some([z, a])
    ensures MovePath([z, a], [z], []) == Some([a])
  {
    var file: Path := [CurDir, a];
    var none: Path := [];
    assert none <= file && file[|none|..] == file && file[1..] == [a];
    assert StartsWithCurDir(file) && !IsAbsolute(file);
    assert [z] + file[1..] == [z, a];
    var moved: Path := [z, a];
    assert moved[..1] == [z] && moved[1..] == [a];
  }
}
