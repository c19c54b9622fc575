/** The path algebra of `src/path.rs`: paths as sequences of components, `normalize`, `diff`,
    `get_parent`, `join` and `move_path`, together with the pieces of Rust's `std::path` and of
    the `pathdiff` crate they are built on. Paths follow the Unix flavour of `std::path`. */
module Paths {
  import Seqs
  import opened Wrappers

  /** One component of a path, as `std::path::Component` yields it. `Prefix` is the Windows drive
      anchor; parsing Unix text never produces it, but `normalize` keeps it like the root. */
  datatype Component = RootDir | Prefix(text: string) | CurDir | ParentDir | Normal(name: string) {
    predicate IsAnchor() { RootDir? || Prefix? }
    predicate IsDot() { CurDir? || ParentDir? }
  }

  /** A path is its sequence of components: two `PathBuf`s are equal exactly when these are. */
  type Path = seq<Component>

  predicate IsAbsolute(p: Path) {
    |p| > 0 && p[0].IsAnchor()
  }

  /** No `.` and no `..` component. */
  predicate Clean(p: Path) {
    forall i :: 0 <= i < |p| ==> !p[i].IsDot()
  }

  /** An anchor can only be the first component, as in every path parsed from text. */
  predicate AnchorsOnlyFirst(p: Path) {
    forall i :: 0 < i < |p| ==> !p[i].IsAnchor()
  }

  // ---------------------------------------------------------------------------------------------
  // Text form of a path

  /** The component one piece of slash-separated text stands for; `first` says whether the piece
      opens a relative path, the one place where a `.` survives. */
  function ComponentOf(piece: string, first: bool): Path {
    if piece == "" then []
    else if piece == "." then (if first then [CurDir] else [])
    else if piece == ".." then [ParentDir]
    else [Normal(piece)]
  }

  function ComponentsOf(pieces: seq<string>, first: bool): Path
    decreases |pieces|
  {
    if |pieces| == 0 then [] else ComponentOf(pieces[0], first) + ComponentsOf(pieces[1..], false)
  }

  /** `Path::components` of a text: a leading '/' is the root, repeated and trailing slashes are
      ignored, and a `.` is dropped unless it opens a relative path. */
  function Parse(s: string): (r: Path)
    ensures WellFormed(r)
    ensures IsAbsolute(r) <==> |s| > 0 && s[0] == '/'
  {
    if |s| > 0 && s[0] == '/' then
      ComponentsOfPieces(Seqs.Split(s[1..], '/'), false);
      [RootDir] + ComponentsOf(Seqs.Split(s[1..], '/'), false)
    else
      ComponentsOfPieces(Seqs.Split(s, '/'), true);
      ComponentsOf(Seqs.Split(s, '/'), true)
  }

  /** Slash-free pieces give `..` and plain names, and a `.` only first in a relative path. */
  lemma {:induction false} ComponentsOfPieces(pieces: seq<string>, first: bool)
    requires forall i :: 0 <= i < |pieces| ==> '/' !in pieces[i]
    ensures forall i :: 0 <= i < |ComponentsOf(pieces, first)| ==>
              && (ComponentsOf(pieces, first)[i].ParentDir? || ComponentsOf(pieces, first)[i].Normal?
                  || (ComponentsOf(pieces, first)[i].CurDir? && i == 0 && first))
              && (ComponentsOf(pieces, first)[i].Normal? ==> PlainName(ComponentsOf(pieces, first)[i].name))
    decreases |pieces|
  {
    if |pieces| > 0 {
      ComponentsOfPieces(pieces[1..], false);
      var head, rest := ComponentOf(pieces[0], first), ComponentsOf(pieces[1..], false);
      assert ComponentsOf(pieces, first) == head + rest;
      assert '/' !in pieces[0];
      assert forall i :: 0 <= i < |rest| ==> (head + rest)[|head| + i] == rest[i];
    }
  }

  function Text(c: Component): string {
    match c
    case RootDir => "/"
    case Prefix(t) => t
    case CurDir => "."
    case ParentDir => ".."
    case Normal(n) => n
  }

  function Texts(p: Path): seq<string>
    decreases |p|
  {
    if |p| == 0 then [] else [Text(p[0])] + Texts(p[1..])
  }

  /** The text of a `PathBuf` collected from components: one '/' between components, none after the root. */
  function Render(p: Path): (r: string)
    ensures |p| > 0 && p[0] == RootDir ==> |r| > 0 && r[0] == '/'
    ensures |p| == 0 ==> r == ""
  {
    if |p| == 0 then ""
    else if p[0] == RootDir then "/" + (if |p| == 1 then "" else Seqs.Join(Texts(p[1..]), '/'))
    else Seqs.Join(Texts(p), '/')
  }

  predicate PlainName(n: string) {
    n != "" && n != "." && n != ".." && '/' !in n
  }

  /** The shape of every path parsed from Unix text. */
  predicate WellFormed(p: Path) {
    && (forall i :: 0 <= i < |p| ==> !p[i].Prefix?)
    && (forall i :: 0 <= i < |p| ==> p[i].Normal? ==> PlainName(p[i].name))
    && (forall i :: 0 < i < |p| ==> !p[i].RootDir? && !p[i].CurDir?)
  }

  /** Rendering a well-formed path and parsing the text gives the path back. */
  lemma ParseRender(p: Path)
    requires WellFormed(p)
    ensures Parse(Render(p)) == p
  {
    if |p| == 0 {
    } else if p[0] == RootDir {
      var q := p[1..];
      if |q| == 0 {
        assert Render(p) == "/";
        assert Render(p)[1..] == "";
        assert p == [RootDir];
        assert Seqs.Split("", '/') == [""];
        assert ComponentsOf([""], false) == [];
      } else {
        var body := Seqs.Join(Texts(q), '/');
        assert Render(p)[1..] == body;
        TextsNoSlash(q);
        Seqs.SplitJoin(Texts(q), '/');
        ComponentsOfTexts(q, false);
      }
    } else {
      TextsNoSlash(p);
      Seqs.SplitJoin(Texts(p), '/');
      assert Texts(p)[0] == Text(p[0]);
      JoinStartsWith(Texts(p), '/');
      ComponentsOfTexts(p, true);
    }
  }

  lemma {:induction false} TextsNoSlash(q: Path)
    requires forall i :: 0 <= i < |q| ==> !q[i].Prefix? && !q[i].RootDir?
    requires forall i :: 0 <= i < |q| ==> q[i].Normal? ==> PlainName(q[i].name)
    ensures |Texts(q)| == |q|
    ensures forall i :: 0 <= i < |q| ==> '/' !in Texts(q)[i] && Texts(q)[i] == Text(q[i])
    decreases |q|
  {
    if |q| > 0 {
      TextsNoSlash(q[1..]);
    }
  }

  lemma JoinStartsWith(pieces: seq<string>, sep: char)
    requires |pieces| > 0 && |pieces[0]| > 0
    ensures |Seqs.Join(pieces, sep)| > 0 && Seqs.Join(pieces, sep)[0] == pieces[0][0]
  {
  }

  /** A text joined from slash-free pieces parses piece by piece; the second form is the text
      with a leading '/'. */
  lemma ParseJoined(pieces: seq<string>)
    requires |pieces| > 0 && pieces[0] != ""
    requires forall i :: 0 <= i < |pieces| ==> '/' !in pieces[i]
    ensures Parse(Seqs.Join(pieces, '/')) == ComponentsOf(pieces, true)
    ensures Parse("/" + Seqs.Join(pieces, '/')) == [RootDir] + ComponentsOf(pieces, false)
  {
    Seqs.SplitJoin(pieces, '/');
    JoinStartsWith(pieces, '/');
    assert ("/" + Seqs.Join(pieces, '/'))[1..] == Seqs.Join(pieces, '/');
  }

  lemma {:induction false} ComponentsOfTexts(q: Path, first: bool)
    requires forall i :: 0 <= i < |q| ==> !q[i].Prefix? && !q[i].RootDir?
    requires forall i :: 0 <= i < |q| ==> q[i].Normal? ==> PlainName(q[i].name)
    requires forall i :: 0 <= i < |q| ==> q[i].CurDir? ==> i == 0 && first
    ensures ComponentsOf(Texts(q), first) == q
    decreases |q|
  {
    if |q| > 0 {
      ComponentsOfTexts(q[1..], false);
      assert Texts(q)[1..] == Texts(q[1..]);
      assert [q[0]] + q[1..] == q;
    }
  }

  // ---------------------------------------------------------------------------------------------
  // File name and extension, as `Path::file_name` and `Path::extension` give them

  /** The position of the last '.' in `name`, if there is one. */
  function LastDot(name: string): (r: Option<nat>)
    ensures r.None? <==> '.' !in name
    ensures r.Some? ==> r.value < |name| && name[r.value] == '.' && '.' !in name[r.value + 1..]
    decreases |name|
  {
    if |name| == 0 then None
    else if name[|name| - 1] == '.' then Some(|name| - 1)
    else
      var r := LastDot(name[..|name| - 1]);
      assert name == name[..|name| - 1] + [name[|name| - 1]];
      if r.Some? then
        assert name[r.value + 1..] == name[..|name| - 1][r.value + 1..] + [name[|name| - 1]];
        r
      else r
  }

  /** `Path::file_name`: the last component, when it is a name. */
  function FileName(p: Path): (r: Option<string>)
    ensures r.Some? <==> |p| > 0 && p[|p| - 1].Normal?
    ensures r.Some? ==> p == p[..|p| - 1] + [Normal(r.value)]
  {
    if |p| > 0 && p[|p| - 1].Normal? then Some(p[|p| - 1].name) else None
  }

  /** `Path::extension`: what follows the last '.' of the file name. A name without a '.', a name
      whose only '.' is its first character, and `..` have none. */
  function Extension(p: Path): (r: Option<string>)
    ensures r.None? <==>
              (FileName(p).None? || FileName(p).value == ".."
               || forall i :: 0 < i < |FileName(p).value| ==> FileName(p).value[i] != '.')
    ensures r.Some? ==>
              var n := FileName(p).value;
              && |r.value| + 1 < |n|
              && n == n[..|n| - |r.value| - 1] + "." + r.value
              && '.' !in r.value
  {
    match FileName(p)
    case None => None
    case Some(n) =>
      if n == ".." then None
      else
        match LastDot(n)
        case None => None
        case Some(i) =>
          if i == 0 then
            assert forall j :: 0 < j < |n| ==> n[j] == n[1..][j - 1];
            None
          else
            assert n == n[..i] + "." + n[i + 1..];
            Some(n[i + 1..])
  }

  // ---------------------------------------------------------------------------------------------
  // normalize (src/path.rs:6-32)

  /** The state of the reversed scan: the components kept so far (in path order) and the number
      of `..` still waiting for a name to cancel. */
  datatype ScanState = ScanState(kept: Path, skip: nat)

  /** One iteration of the loop body of `normalize`. */
  function Step(c: Component, st: ScanState): ScanState {
    match c
    case Normal(_) => if st.skip > 0 then ScanState(st.kept, st.skip - 1) else ScanState([c] + st.kept, 0)
    case CurDir => st
    case ParentDir => ScanState(st.kept, st.skip + 1)
    case _ => ScanState([c] + st.kept, st.skip)
  }

  /** The scan of `p` from its last component to its first, starting in `st`. */
  function ScanFrom(p: Path, st: ScanState): ScanState
    decreases |p|
  {
    if |p| == 0 then st else Step(p[0], ScanFrom(p[1..], st))
  }

  /** What `normalize` computes: the kept components when every `..` found a name, otherwise an error. */
  function Normalized(p: Path): (r: Result<Path>)
    ensures r.Ok? ==> |r.value| <= |p|
  {
    ScanKeptLength(p, ScanState([], 0));
    var st := ScanFrom(p, ScanState([], 0));
    if st.skip == 0 then Ok(st.kept) else Err(NormalizeFailed)
  }

  /** The scan keeps at most one component per component it reads. */
  lemma {:induction false} ScanKeptLength(p: Path, st: ScanState)
    ensures |ScanFrom(p, st).kept| <= |p| + |st.kept|
    decreases |p|
  {
    if |p| > 0 {
      ScanKeptLength(p[1..], st);
    }
  }

  /** `normalize`: walks the components in reverse, counting pending `..` in `skip` and pushing
      kept components onto a vector that is reversed at the end. */
  method Normalize(path: Path) returns (r: Result<Path>)
    ensures r == Normalized(path)
  {
    var skip: nat := 0;
    var components: Path := [];
    var i := |path|;
    while i > 0
      invariant 0 <= i <= |path|
      invariant ScanFrom(path[i..], ScanState([], 0)) == ScanState(Seqs.Reverse(components), skip)
    {
      i := i - 1;
      var component := path[i];
      assert path[i..][1..] == path[i + 1..];
      match component
      case Normal(_) =>
        if skip > 0 {
          skip := skip - 1;
        } else {
          Seqs.ReverseSnoc(components, component);
          components := components + [component];
        }
      case CurDir =>
      case ParentDir =>
        skip := skip + 1;
      case _ =>
        Seqs.ReverseSnoc(components, component);
        components := components + [component];
    }
    assert path[0..] == path;
    if skip == 0 {
      r := Ok(Seqs.Reverse(components));
    } else {
      r := Err(NormalizeFailed);
    }
  }

  // An independent reading of `normalize`, left to right: a stack of the components seen so far,
  // where a `..` removes the last name on the stack and fails when there is none.

  predicate HasNormal(k: Path) {
    exists i :: 0 <= i < |k| && k[i].Normal?
  }

  /** `k` without its last `Normal` component (unchanged when it has none). */
  function RemoveLastNormal(k: Path): Path
    decreases |k|
  {
    if |k| == 0 then []
    else if HasNormal(k[1..]) then [k[0]] + RemoveLastNormal(k[1..])
    else if k[0].Normal? then k[1..]
    else k
  }

  function StepLeft(stack: Path, c: Component): Result<Path> {
    match c
    case CurDir => Ok(stack)
    case ParentDir => if HasNormal(stack) then Ok(RemoveLastNormal(stack)) else Err(NormalizeFailed)
    case _ => Ok(stack + [c])
  }

  function ResolveFrom(stack: Path, p: Path): Result<Path>
    decreases |p|
  {
    if |p| == 0 then Ok(stack)
    else match StepLeft(stack, p[0])
      case Err(e) => Err(e)
      case Ok(s) => ResolveFrom(s, p[1..])
  }

  /** The left-to-right resolution of `p` from an empty stack. */
  function Resolve(p: Path): Result<Path> {
    ResolveFrom([], p)
  }

  lemma {:induction false} ScanConcat(a: Path, b: Path, st: ScanState)
    ensures ScanFrom(a + b, st) == ScanFrom(a, ScanFrom(b, st))
    decreases |a|
  {
    if |a| == 0 {
      assert a + b == b;
    } else {
      assert (a + b)[1..] == a[1..] + b;
      ScanConcat(a[1..], b, st);
    }
  }

  /** Components kept before the scan starts stay behind everything the scan keeps. */
  lemma {:induction false} ScanKept(a: Path, k: Path, s: nat)
    ensures ScanFrom(a, ScanState(k, s)).skip == ScanFrom(a, ScanState([], s)).skip
    ensures ScanFrom(a, ScanState(k, s)).kept == ScanFrom(a, ScanState([], s)).kept + k
    decreases |a|
  {
    if |a| > 0 {
      ScanKept(a[1..], k, s);
    }
  }

  /** One more pending `..` at the start of the scan cancels the last name the scan keeps. */
  lemma {:induction false} ScanIncrement(a: Path, s: nat)
    ensures var st := ScanFrom(a, ScanState([], s));
            ScanFrom(a, ScanState([], s + 1)) ==
              if HasNormal(st.kept) then ScanState(RemoveLastNormal(st.kept), st.skip)
              else ScanState(st.kept, st.skip + 1)
    decreases |a|
  {
    if |a| > 0 {
      ScanIncrement(a[1..], s);
      var st' := ScanFrom(a[1..], ScanState([], s));
      var c := a[0];
      if c.Normal? {
        var k := [c] + st'.kept;
        assert k[0].Normal?;
        assert k[1..] == st'.kept;
      } else if c.IsAnchor() {
        var k := [c] + st'.kept;
        assert k[1..] == st'.kept;
        assert HasNormal(k) == HasNormal(st'.kept) by {
          if HasNormal(k) {
            var i :| 0 <= i < |k| && k[i].Normal?;
            assert i > 0 && k[1..][i - 1].Normal?;
          }
          if HasNormal(st'.kept) {
            var i :| 0 <= i < |st'.kept| && st'.kept[i].Normal?;
            assert k[i + 1].Normal?;
          }
        }
      }
    }
  }

  lemma {:induction false} ResolveSnoc(stack: Path, a: Path, c: Component)
    ensures ResolveFrom(stack, a + [c]) ==
              match ResolveFrom(stack, a)
              case Err(e) => Err(e)
              case Ok(s) => StepLeft(s, c)
    decreases |a|
  {
    if |a| == 0 {
      assert a + [c] == [c];
    } else {
      assert (a + [c])[1..] == a[1..] + [c];
      match StepLeft(stack, a[0])
      case Err(_) =>
      case Ok(s) => ResolveSnoc(s, a[1..], c);
    }
  }

  lemma {:induction false} ResolveConcat(stack: Path, a: Path, b: Path)
    ensures ResolveFrom(stack, a + b) ==
              match ResolveFrom(stack, a)
              case Err(e) => Err(e)
              case Ok(s) => ResolveFrom(s, b)
    decreases |a|
  {
    if |a| == 0 {
      assert a + b == b;
    } else {
      assert (a + b)[1..] == a[1..] + b;
      match StepLeft(stack, a[0])
      case Err(_) =>
      case Ok(s) => ResolveConcat(s, a[1..], b);
    }
  }

  /** `normalize` agrees with the left-to-right reading: each `..` cancels the nearest name before
      it that is not cancelled yet, and the path fails exactly when some `..` finds none. */
  lemma {:induction false} NormalizedIsResolve(p: Path)
    ensures Normalized(p) == Resolve(p)
    decreases |p|
  {
    if |p| > 0 {
      var a, c := p[..|p| - 1], p[|p| - 1];
      assert p == a + [c];
      NormalizedIsResolve(a);
      ResolveSnoc([], a, c);
      ScanConcat(a, [c], ScanState([], 0));
      var sa := ScanFrom(a, ScanState([], 0));
      assert ScanFrom([c], ScanState([], 0)) == Step(c, ScanState([], 0));
      match c
      case CurDir =>
      case ParentDir =>
        ScanIncrement(a, 0);
      case _ =>
        assert Step(c, ScanState([], 0)) == ScanState([c], 0);
        ScanKept(a, [c], 0);
        ResolveErrorKind([], a);
    }
  }

  /** A resolution from a stack only ever fails with `NormalizeFailed`. */
  lemma {:induction false} ResolveErrorKind(stack: Path, p: Path)
    ensures ResolveFrom(stack, p).Err? ==> ResolveFrom(stack, p).error == NormalizeFailed
    decreases |p|
  {
    if |p| > 0 {
      match StepLeft(stack, p[0])
      case Err(_) =>
      case Ok(s) => ResolveErrorKind(s, p[1..]);
    }
  }

  function NameCount(p: Path): nat
    decreases |p|
  {
    if |p| == 0 then 0 else (if p[0].Normal? then 1 else 0) + NameCount(p[1..])
  }

  function ParentCount(p: Path): nat
    decreases |p|
  {
    if |p| == 0 then 0 else (if p[0].ParentDir? then 1 else 0) + ParentCount(p[1..])
  }

  lemma {:induction false} CountsSnoc(p: Path, c: Component)
    ensures NameCount(p + [c]) == NameCount(p) + (if c.Normal? then 1 else 0)
    ensures ParentCount(p + [c]) == ParentCount(p) + (if c.ParentDir? then 1 else 0)
    decreases |p|
  {
    if |p| == 0 {
      assert p + [c] == [c];
    } else {
      assert (p + [c])[1..] == p[1..] + [c];
      CountsSnoc(p[1..], c);
    }
  }

  lemma {:induction false} RemoveLastNormalCount(k: Path)
    requires HasNormal(k)
    ensures NameCount(RemoveLastNormal(k)) + 1 == NameCount(k)
    decreases |k|
  {
    if HasNormal(k[1..]) {
      RemoveLastNormalCount(k[1..]);
      assert RemoveLastNormal(k)[1..] == RemoveLastNormal(k[1..]);
    } else {
      NoNormalCount(k[1..]);
    }
  }

  lemma {:induction false} NoNormalCount(k: Path)
    requires !HasNormal(k)
    ensures NameCount(k) == 0
    decreases |k|
  {
    if |k| > 0 {
      assert !k[0].Normal?;
      NoNormalCount(k[1..]);
    }
  }

  lemma {:induction false} PositiveCountHasNormal(k: Path)
    requires NameCount(k) > 0
    ensures HasNormal(k)
    decreases |k|
  {
    if !k[0].Normal? {
      PositiveCountHasNormal(k[1..]);
      var i :| 0 <= i < |k[1..]| && k[1..][i].Normal?;
      assert k[i + 1].Normal?;
    }
  }

  /** While the resolution succeeds, the stack holds one name per name of the path not yet
      cancelled by a `..`. */
  lemma {:induction false} ResolveDepth(p: Path)
    ensures Resolve(p).Ok? ==> NameCount(Resolve(p).value) + ParentCount(p) == NameCount(p)
    ensures Resolve(p).Ok? <==> forall i :: 0 <= i <= |p| ==> ParentCount(p[..i]) <= NameCount(p[..i])
    decreases |p|
  {
    if |p| == 0 {
      assert forall i :: 0 <= i <= |p| ==> p[..i] == [];
    } else {
      var a, c := p[..|p| - 1], p[|p| - 1];
      assert p == a + [c];
      assert forall i :: 0 <= i <= |a| ==> p[..i] == a[..i];
      assert p[..|p|] == a + [c];
      ResolveDepth(a);
      ResolveSnoc([], a, c);
      CountsSnoc(a, c);
      assert a[..|a|] == a;
      match Resolve(a)
      case Err(_) =>
      case Ok(s) =>
        CountsSnoc(s, c);
        if c.ParentDir? {
          if HasNormal(s) {
            RemoveLastNormalCount(s);
          } else {
            NoNormalCount(s);
          }
          if NameCount(s) > 0 {
            PositiveCountHasNormal(s);
          }
        }
    }
  }

  /** `normalize` fails exactly when some prefix of the path holds more `..` than names. */
  lemma NormalizeFailsIff(p: Path)
    ensures Normalized(p).Err? <==> exists i :: 0 <= i <= |p| && ParentCount(p[..i]) > NameCount(p[..i])
  {
    NormalizedIsResolve(p);
    ResolveDepth(p);
  }

  /** On success the result has no `.` and no `..`. */
  lemma {:induction false} ScanKeepsClean(a: Path, st: ScanState)
    requires Clean(st.kept)
    ensures Clean(ScanFrom(a, st).kept)
    decreases |a|
  {
    if |a| > 0 {
      ScanKeepsClean(a[1..], st);
    }
  }

  lemma NormalizedIsClean(p: Path)
    ensures Normalized(p).Ok? ==> Clean(Normalized(p).value)
  {
    ScanKeepsClean(p, ScanState([], 0));
  }

  lemma {:induction false} ScanOfClean(q: Path)
    requires Clean(q)
    ensures ScanFrom(q, ScanState([], 0)) == ScanState(q, 0)
    decreases |q|
  {
    if |q| > 0 {
      ScanOfClean(q[1..]);
      assert [q[0]] + q[1..] == q;
    }
  }

  /** A path without `.` and `..` is already normal. */
  lemma NormalizeClean(q: Path)
    requires Clean(q)
    ensures Normalized(q) == Ok(q)
  {
    ScanOfClean(q);
  }

  /** `normalize` is idempotent. */
  lemma NormalizeIdempotent(p: Path)
    requires Normalized(p).Ok?
    ensures Normalized(Normalized(p).value) == Normalized(p)
  {
    NormalizedIsClean(p);
    NormalizeClean(Normalized(p).value);
  }

  /** `a` is `b` with some components left out, the rest in the same order. */
  predicate IsSubsequence(a: Path, b: Path)
    decreases |b|
  {
    if |a| == 0 then true
    else if |b| == 0 then false
    else (a[0] == b[0] && IsSubsequence(a[1..], b[1..])) || IsSubsequence(a, b[1..])
  }

  function Anchors(p: Path): Path
    decreases |p|
  {
    if |p| == 0 then [] else (if p[0].IsAnchor() then [p[0]] else []) + Anchors(p[1..])
  }

  lemma {:induction false} ScanOrder(a: Path, s: nat)
    ensures IsSubsequence(ScanFrom(a, ScanState([], s)).kept, a)
    ensures Anchors(ScanFrom(a, ScanState([], s)).kept) == Anchors(a)
    decreases |a|
  {
    if |a| > 0 {
      ScanOrder(a[1..], s);
      var st' := ScanFrom(a[1..], ScanState([], s));
      StepKeepsOrDrops(a[0], st');
      var k := Step(a[0], st').kept;
      if k == st'.kept && !a[0].IsAnchor() {
        if |k| > 0 {
          assert IsSubsequence(k, a[1..]);
        }
        assert Anchors(a) == Anchors(a[1..]);
      } else {
        assert k == [a[0]] + st'.kept;
        assert k[1..] == st'.kept;
      }
    }
  }

  /** A step either drops its component, which is then no root and no prefix, or puts it in front. */
  lemma StepKeepsOrDrops(c: Component, st: ScanState)
    ensures || (Step(c, st).kept == st.kept && !c.IsAnchor())
            || Step(c, st).kept == [c] + st.kept
  {
  }

  /** The retained components keep their relative order, and every root or prefix is retained. */
  lemma NormalizeKeepsOrderAndAnchors(p: Path)
    requires Normalized(p).Ok?
    ensures IsSubsequence(Normalized(p).value, p)
    ensures Anchors(Normalized(p).value) == Anchors(p)
  {
    ScanOrder(p, 0);
  }

  lemma {:induction false} AnchorsEmpty(p: Path)
    ensures Anchors(p) == [] <==> forall i :: 0 <= i < |p| ==> !p[i].IsAnchor()
    decreases |p|
  {
    if |p| > 0 {
      AnchorsEmpty(p[1..]);
      assert forall i :: 0 < i < |p| ==> p[i] == p[1..][i - 1];
    }
  }

  /** Normalizing a parsed-shape path keeps its shape and whether it is absolute. */
  lemma NormalizeShape(p: Path)
    requires AnchorsOnlyFirst(p)
    requires Normalized(p).Ok?
    ensures AnchorsOnlyFirst(Normalized(p).value)
    ensures IsAbsolute(Normalized(p).value) == IsAbsolute(p)
    ensures IsAbsolute(p) ==> Normalized(p).value[0] == p[0]
  {
    var q := Normalized(p).value;
    if |p| > 0 {
      ScanOrder(p[1..], 0);
      AnchorsEmpty(p[1..]);
      var st' := ScanFrom(p[1..], ScanState([], 0));
      AnchorsEmpty(st'.kept);
      assert q == st'.kept || q == [p[0]] + st'.kept;
      if q == [p[0]] + st'.kept {
        assert forall i :: 0 < i < |q| ==> q[i] == st'.kept[i - 1];
      }
    }
  }

  /** A `.` anywhere can be dropped without changing the outcome of `normalize`. */
  lemma NormalizeDropsCurDir(a: Path, b: Path)
    ensures Normalized(a + [CurDir] + b) == Normalized(a + b)
  {
    NormalizedIsResolve(a + [CurDir] + b);
    NormalizedIsResolve(a + b);
    assert a + [CurDir] + b == a + ([CurDir] + b);
    ResolveConcat([], a, [CurDir] + b);
    ResolveConcat([], a, b);
  }

  /** A name directly followed by `..` cancels out. */
  lemma NormalizeCancelsPair(a: Path, x: string, b: Path)
    ensures Normalized(a + [Normal(x), ParentDir] + b) == Normalized(a + b)
  {
    NormalizedIsResolve(a + [Normal(x), ParentDir] + b);
    NormalizedIsResolve(a + b);
    ResolveCancelsPair(a, x, b);
  }

  lemma ResolveCancelsPair(a: Path, x: string, b: Path)
    ensures Resolve(a + [Normal(x), ParentDir] + b) == Resolve(a + b)
  {
    assert a + [Normal(x), ParentDir] + b == a + ([Normal(x), ParentDir] + b);
    ResolveConcat([], a, [Normal(x), ParentDir] + b);
    ResolveConcat([], a, b);
    match Resolve(a)
    case Err(_) =>
    case Ok(s) =>
      var t := [Normal(x), ParentDir] + b;
      assert t[1..][1..] == b;
      RemoveLastNormalOfLast(s + [Normal(x)]);
      assert (s + [Normal(x)])[..|s|] == s;
  }

  /** A name added at the end is kept at the end, and an error stays an error. */
  lemma NormalizeSnocName(p: Path, x: string)
    ensures Normalized(p + [Normal(x)]) ==
              if Normalized(p).Ok? then Ok(Normalized(p).value + [Normal(x)]) else Normalized(p)
  {
    NormalizedIsResolve(p + [Normal(x)]);
    NormalizedIsResolve(p);
    ResolveSnoc([], p, Normal(x));
  }

  // ---------------------------------------------------------------------------------------------
  // pathdiff::diff_paths, an external crate, specified by the behaviour its callers rely on

  function CommonPrefixLength(a: Path, b: Path): (n: nat)
    ensures n <= |a| && n <= |b| && a[..n] == b[..n]
    ensures n < |a| && n < |b| ==> a[n] != b[n]
    decreases |a|
  {
    if |a| == 0 || |b| == 0 || a[0] != b[0] then 0
    else
      var m := CommonPrefixLength(a[1..], b[1..]);
      assert a[..m + 1] == [a[0]] + a[1..][..m];
      assert b[..m + 1] == [b[0]] + b[1..][..m];
      m + 1
  }

  /** A component that `b` does not hold, added to `a`, does not lengthen the common prefix. */
  lemma {:induction false} CommonPrefixSnoc(a: Path, x: Component, b: Path)
    requires x !in b
    ensures CommonPrefixLength(a + [x], b) == CommonPrefixLength(a, b)
    decreases |a|
  {
    if |a| == 0 {
      assert a + [x] == [x];
      if |b| > 0 {
        assert b[0] != x;
      }
    } else if |b| > 0 && a[0] == b[0] {
      assert (a + [x])[1..] == a[1..] + [x];
      assert x !in b[1..];
      CommonPrefixSnoc(a[1..], x, b[1..]);
    }
  }

  function Ups(k: nat): (r: Path)
    ensures |r| == k && forall i :: 0 <= i < k ==> r[i] == ParentDir
  {
    seq(k, _ => ParentDir)
  }

  /** `diff_paths(path, base)`: the path that leads from `base` to `path`. An absolute `path` seen
      from a relative `base` is returned as it is; a relative one seen from an absolute base has none. */
  function DiffPaths(path: Path, base: Path): (r: Option<Path>)
    ensures r.None? <==> !IsAbsolute(path) && IsAbsolute(base)
  {
    if IsAbsolute(path) != IsAbsolute(base) then
      if IsAbsolute(path) then Some(path) else None
    else
      var n := CommonPrefixLength(path, base);
      Some(Ups(|base| - n) + path[n..])
  }

  // ---------------------------------------------------------------------------------------------
  // diff, get_parent, join, move_path (src/path.rs:34-66)

  /** `diff`: the relative path from `fromPath` to `toPath`, both normalized first. */
  function Diff(fromPath: Path, toPath: Path): (r: Result<Path>)
    ensures Normalized(fromPath).Err? ==> r == Err(NormalizeFailed)
    ensures Normalized(fromPath).Ok? && Normalized(toPath).Err? ==> r == Err(NormalizeFailed)
    ensures Normalized(fromPath).Ok? && Normalized(toPath).Ok? ==>
              r == match DiffPaths(Normalized(toPath).value, Normalized(fromPath).value)
                   case None => Err(NoRelativePath)
                   case Some(d) => Ok(d)
  {
    var nf :- Normalized(fromPath);
    var nt :- Normalized(toPath);
    match DiffPaths(nt, nf)
    case None => Err(NoRelativePath)
    case Some(d) => Ok(d)
  }

  /** `get_parent`: `PathBuf::pop` on a copy, which drops the last component unless there is none
      or it is the root. */
  function GetParent(p: Path): (r: Path)
    ensures |p| > 0 && !p[|p| - 1].IsAnchor() ==> r + [p[|p| - 1]] == p
    ensures |p| == 0 || p[|p| - 1].IsAnchor() ==> r == p
  {
    if |p| > 0 && !p[|p| - 1].IsAnchor() then p[..|p| - 1] else p
  }

  /** `PathBuf::join`: an absolute `path` replaces `dir`, a relative one is appended to it. The
      text `dir/./rest` reads back without its `.`, so a leading `.` of `path` goes unless `dir`
      is empty. */
  function JoinRaw(dir: Path, path: Path): (r: Path)
    ensures IsAbsolute(r) <==> IsAbsolute(dir) || IsAbsolute(path)
    ensures WellFormed(dir) && WellFormed(path) ==> WellFormed(r)
  {
    if IsAbsolute(path) then path
    else if |dir| > 0 && |path| > 0 && path[0] == CurDir then
      assert forall i :: 0 <= i < |path| - 1 ==> path[1..][i] == path[i + 1];
      dir + path[1..]
    else dir + path
  }

  /** After normalizing, it makes no difference whether `join` dropped a leading `.`. */
  lemma JoinRawNormalized(dir: Path, path: Path)
    requires !IsAbsolute(path)
    ensures Normalized(JoinRaw(dir, path)) == Normalized(dir + path)
  {
    if |dir| > 0 && |path| > 0 && path[0] == CurDir {
      assert dir + path == dir + [CurDir] + path[1..];
      NormalizeDropsCurDir(dir, path[1..]);
    }
  }

  /** `join`: `dir` joined with `path`, normalized. */
  function Join(dir: Path, path: Path): (r: Result<Path>)
    ensures !IsAbsolute(path) ==> r == Normalized(dir + path)
    ensures IsAbsolute(path) ==> r == Normalized(path)
  {
    if !IsAbsolute(path) then JoinRawNormalized(dir, path); Normalized(JoinRaw(dir, path))
    else Normalized(JoinRaw(dir, path))
  }

  /** What follows a prefix of a well-formed path is well formed. */
  lemma WellFormedRest(p: Path, k: nat)
    requires k <= |p|
    ensures WellFormed(p) ==> WellFormed(p[k..])
  {
    assert forall i :: 0 <= i < |p| - k ==> p[k..][i] == p[k + i];
  }

  /** `move_path`: where `filePath` lands when the tree at `sourcePath` is moved to `targetPath`.
      The rest of the file path follows the target; a `.` opening that rest (a relative file path
      `./…` under an empty `sourcePath`) goes with the join, and an absolute rest replaces the
      target. */
  function MovePath(filePath: Path, sourcePath: Path, targetPath: Path): (r: Option<Path>)
    ensures r.Some? <==> sourcePath <= filePath
    ensures r.Some? && !IsAbsolute(filePath[|sourcePath|..]) && !StartsWithCurDir(filePath[|sourcePath|..]) ==>
              r.value == targetPath + filePath[|sourcePath|..]
    ensures r.Some? && StartsWithCurDir(filePath[|sourcePath|..]) ==>
              r.value == if |targetPath| == 0 then filePath[|sourcePath|..] else targetPath + filePath[|sourcePath|..][1..]
    ensures r.Some? && IsAbsolute(filePath[|sourcePath|..]) ==> r.value == filePath[|sourcePath|..]
    ensures r.Some? && WellFormed(filePath) && WellFormed(targetPath) ==> WellFormed(r.value)
  {
    if sourcePath <= filePath then
      WellFormedRest(filePath, |sourcePath|);
      Some(JoinRaw(targetPath, filePath[|sourcePath|..]))
    else None
  }

  predicate StartsWithCurDir(p: Path) {
    |p| > 0 && p[0] == CurDir
  }

  /** Moving a file back to where the tree came from restores its path, unless a leading `.` of
      the rest went in the first join. */
  lemma MovePathInverse(filePath: Path, sourcePath: Path, targetPath: Path)
    requires sourcePath <= filePath
    requires !IsAbsolute(filePath[|sourcePath|..]) && !StartsWithCurDir(filePath[|sourcePath|..])
    ensures MovePath(filePath, sourcePath, targetPath).Some?
    ensures MovePath(MovePath(filePath, sourcePath, targetPath).value, targetPath, sourcePath) == Some(filePath)
  {
    var rest := filePath[|sourcePath|..];
    var moved := targetPath + rest;
    assert moved[|targetPath|..] == rest;
    assert sourcePath + rest == filePath;
  }

  // ---------------------------------------------------------------------------------------------
  // The round trip of diff and join

  lemma {:induction false} ResolveCleanTail(stack: Path, q: Path)
    requires Clean(q)
    ensures ResolveFrom(stack, q) == Ok(stack + q)
    decreases |q|
  {
    if |q| == 0 {
      assert stack + q == stack;
    } else {
      assert !q[0].IsDot();
      ResolveCleanTail(stack + [q[0]], q[1..]);
      assert stack + [q[0]] + q[1..] == stack + q;
    }
  }

  lemma {:induction false} RemoveLastNormalOfLast(k: Path)
    requires |k| > 0 && k[|k| - 1].Normal?
    ensures HasNormal(k) && RemoveLastNormal(k) == k[..|k| - 1]
    decreases |k|
  {
    assert k[|k| - 1].Normal?;
    if |k| == 1 {
      assert !HasNormal(k[1..]);
    } else {
      RemoveLastNormalOfLast(k[1..]);
      assert k[1..][|k| - 2].Normal?;
      assert k[..|k| - 1] == [k[0]] + k[1..][..|k| - 2];
    }
  }

  /** `m` parent steps pop the last `m` names off the stack. */
  lemma {:induction false} ResolveUps(stack: Path, m: nat)
    requires m <= |stack|
    requires forall i :: |stack| - m <= i < |stack| ==> stack[i].Normal?
    ensures ResolveFrom(stack, Ups(m)) == Ok(stack[..|stack| - m])
    decreases m
  {
    if m > 0 {
      RemoveLastNormalOfLast(stack);
      var s := stack[..|stack| - 1];
      assert StepLeft(stack, ParentDir) == Ok(s);
      assert Ups(m)[0] == ParentDir;
      assert Ups(m)[1..] == Ups(m - 1);
      ResolveUps(s, m - 1);
      assert s[..|s| - (m - 1)] == stack[..|stack| - m];
      assert ResolveFrom(stack, Ups(m)) == ResolveFrom(s, Ups(m - 1));
    } else {
      assert stack[..|stack|] == stack;
    }
  }

  /** Joining a base with the path that `diff` gives from it leads to the normalized target
      (the round trip between `diff` and `join`). */
  lemma DiffJoinRoundTrip(fromPath: Path, toPath: Path)
    requires AnchorsOnlyFirst(fromPath) && AnchorsOnlyFirst(toPath)
    requires IsAbsolute(fromPath) ==> IsAbsolute(toPath) && toPath[0] == fromPath[0]
    requires Normalized(fromPath).Ok? && Normalized(toPath).Ok?
    ensures Diff(fromPath, toPath).Ok?
    ensures Join(fromPath, Diff(fromPath, toPath).value) == Normalized(toPath)
  {
    var nf, nt := Normalized(fromPath).value, Normalized(toPath).value;
    NormalizeShape(fromPath);
    NormalizeShape(toPath);
    NormalizedIsClean(fromPath);
    NormalizedIsClean(toPath);
    var d := Diff(fromPath, toPath).value;
    if IsAbsolute(nt) && !IsAbsolute(nf) {
      assert d == nt;
      NormalizeClean(nt);
    } else {
      var n := CommonPrefixLength(nt, nf);
      assert d == Ups(|nf| - n) + nt[n..];
      assert IsAbsolute(nf) ==> nt[0] == nf[0];
      DiffTail(nf, nt);
      UpsThenTail(fromPath, nf, nt, n);
    }
  }

  /** Between two clean paths of the same kind, past their common prefix the base holds only names,
      the target is clean, and the path `diff_paths` builds is relative. */
  lemma DiffTail(nf: Path, nt: Path)
    requires Clean(nf) && Clean(nt) && AnchorsOnlyFirst(nf) && AnchorsOnlyFirst(nt)
    requires IsAbsolute(nf) == IsAbsolute(nt)
    requires IsAbsolute(nf) ==> nt[0] == nf[0]
    ensures var n := CommonPrefixLength(nt, nf);
            && (forall i | n <= i < |nf| :: nf[i].Normal?)
            && Clean(nt[n..])
            && !IsAbsolute(Ups(|nf| - n) + nt[n..])
  {
    var n := CommonPrefixLength(nt, nf);
    if IsAbsolute(nf) {
      SharedRootInPrefix(nt, nf);
    }
    NamesPastPrefix(nf, n);
    CleanRest(nt, n);
    UpsTailRelative(nt, n, |nf| - n);
  }

  lemma SharedRootInPrefix(a: Path, b: Path)
    requires |a| > 0 && |b| > 0 && a[0] == b[0]
    ensures CommonPrefixLength(a, b) > 0
  {
  }

  lemma NamesPastPrefix(p: Path, n: nat)
    requires Clean(p) && AnchorsOnlyFirst(p) && n <= |p| && (IsAbsolute(p) ==> n > 0)
    ensures forall i | n <= i < |p| :: p[i].Normal?
  {
    forall i | n <= i < |p| ensures p[i].Normal? {
      assert !p[i].IsDot();
      assert i > 0 || !IsAbsolute(p);
    }
  }

  lemma CleanRest(p: Path, n: nat)
    requires Clean(p) && n <= |p|
    ensures Clean(p[n..])
  {
    forall i | 0 <= i < |p[n..]| ensures !p[n..][i].IsDot() {
      assert p[n..][i] == p[n + i];
    }
  }

  lemma UpsTailRelative(p: Path, n: nat, m: nat)
    requires AnchorsOnlyFirst(p) && n <= |p| && (IsAbsolute(p) ==> n > 0)
    ensures !IsAbsolute(Ups(m) + p[n..])
  {
    var d := Ups(m) + p[n..];
    if m == 0 {
      assert d == p[n..];
      if |d| > 0 {
        assert d[0] == p[n];
      }
    } else {
      assert d[0] == Ups(m)[0];
    }
  }

  /** From a path that normalizes to `nf`, climbing out of the names of `nf` past `n` and then
      descending into what `nt` has past `n` reaches `nt`, when both agree up to `n`. */
  lemma UpsThenTail(fromPath: Path, nf: Path, nt: Path, n: nat)
    requires Normalized(fromPath) == Ok(nf)
    requires n <= |nf| && n <= |nt| && nf[..n] == nt[..n]
    requires forall i | n <= i < |nf| :: nf[i].Normal?
    requires Clean(nt[n..])
    ensures Normalized(fromPath + (Ups(|nf| - n) + nt[n..])) == Ok(nt)
  {
    var m := |nf| - n;
    NormalizedIsResolve(fromPath + (Ups(m) + nt[n..]));
    NormalizedIsResolve(fromPath);
    ResolveConcat([], fromPath, Ups(m) + nt[n..]);
    ResolveConcat(nf, Ups(m), nt[n..]);
    ResolveUps(nf, m);
    ResolveCleanTail(nt[..n], nt[n..]);
    assert nt[..n] + nt[n..] == nt;
  }
}
