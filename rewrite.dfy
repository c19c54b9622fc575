/** What the rewrite loops of src/edit.rs and src/import_replacer.rs compute, stated on the lines of
    the text. Each slice addresses a literal inside one line; a literal that does not start with '.'
    is left alone, a relative one is handed to the replacer, and its replacement is spliced into the
    line. A failing replacer stops the rewrite. */
module Rewrite {
  import opened Wrappers
  import opened Rope
  import opened Parser

  /** A caller-supplied rewrite of one import string, which may fail. */
  type Replacer = string -> Result<string>

  /** Only literals that start with '.' are rewritten. */
  predicate IsRelative(lit: string) {
    |lit| > 0 && lit[0] == '.'
  }

  /** Slices the loops can address by line offsets: each inside one line, no two on the same line. */
  predicate ValidSlices(ls: seq<string>, slices: seq<TextSlice>) {
    && (forall k :: 0 <= k < |slices| ==> WithinLine(ls, slices[k]))
    && (forall j, k :: 0 <= j < k < |slices| ==> slices[j].startRow != slices[k].startRow)
  }

  /** The replacer puts no line break into the replacement of a relative literal. */
  ghost predicate SingleLine(replace: Replacer) {
    forall lit :: IsRelative(lit) && replace(lit).Ok? ==> '\n' !in replace(lit).value
  }

  /** The literal a slice addresses. */
  function Literal(ls: seq<string>, s: TextSlice): string
    requires WithinLine(ls, s)
  {
    ls[s.startRow][s.startCol..s.endCol]
  }

  /** `line` with the characters in `[from, to)` replaced by `x`. */
  function Splice(line: string, from: nat, to: nat, x: string): (r: string)
    requires from <= to <= |line|
    ensures |r| == |line| - (to - from) + |x|
    ensures r[..from] == line[..from] && r[from..from + |x|] == x && r[from + |x|..] == line[to..]
  {
    line[..from] + x + line[to..]
  }

  /** The line of slice `s` with `x` in place of its literal. */
  function EditLine(ls: seq<string>, s: TextSlice, x: string): seq<string>
    requires WithinLine(ls, s)
  {
    ls[s.startRow := Splice(ls[s.startRow], s.startCol, s.endCol, x)]
  }

  /** The replacer is called on the literal of `s`, and fails. */
  predicate Fails(ls: seq<string>, s: TextSlice, replace: Replacer)
    requires WithinLine(ls, s)
  {
    IsRelative(Literal(ls, s)) && replace(Literal(ls, s)).Err?
  }

  /** The lines reached and, when the replacer failed, its error. */
  datatype Outcome = Outcome(lines: seq<string>, error: Option<Error>)

  /** The rewrite, slice by slice, against the lines as the earlier slices left them. */
  function RewriteLines(ls: seq<string>, slices: seq<TextSlice>, replace: Replacer): (o: Outcome)
    requires ValidSlices(ls, slices)
    ensures |o.lines| == |ls|
    ensures NoNewlines(ls) && SingleLine(replace) ==> NoNewlines(o.lines)
    decreases |slices|
  {
    if |slices| == 0 then Outcome(ls, None)
    else
      var s := slices[0];
      var lit := Literal(ls, s);
      if !IsRelative(lit) then RewriteLines(ls, slices[1..], replace)
      else
        match replace(lit)
        case Err(e) => Outcome(ls, Some(e))
        case Ok(x) =>
          ValidAfterEdit(ls, slices, x);
          RewriteLines(EditLine(ls, s, x), slices[1..], replace)
  }

  /** A literal on a line that is not edited stays where it was. */
  lemma LiteralElsewhere(ls: seq<string>, s: TextSlice, other: TextSlice, x: string)
    requires WithinLine(ls, s) && WithinLine(ls, other)
    requires s.startRow != other.startRow
    ensures WithinLine(EditLine(ls, s, x), other)
    ensures Literal(EditLine(ls, s, x), other) == Literal(ls, other)
  {
  }

  /** The slices after the first still fit after the first one's edit. */
  lemma ValidAfterEdit(ls: seq<string>, slices: seq<TextSlice>, x: string)
    requires ValidSlices(ls, slices) && |slices| > 0
    ensures ValidSlices(ls, slices[1..])
    ensures ValidSlices(EditLine(ls, slices[0], x), slices[1..])
  {
    var ls' := EditLine(ls, slices[0], x);
    forall k | 0 <= k < |slices[1..]|
      ensures WithinLine(ls', slices[1..][k])
    {
      assert slices[1..][k] == slices[k + 1];
      LiteralElsewhere(ls, slices[0], slices[k + 1], x);
    }
  }

  /** An edit that puts back the literal it replaces changes nothing. */
  lemma EditWithOwnLiteral(ls: seq<string>, s: TextSlice)
    requires WithinLine(ls, s)
    ensures EditLine(ls, s, Literal(ls, s)) == ls
  {
    var line := ls[s.startRow];
    assert line == line[..s.startCol] + line[s.startCol..s.endCol] + line[s.endCol..];
  }

  /** A state of the loops: lines without a line break, the remaining slices addressable in them,
      and the rest of the rewrite from there reaching `goal`. */
  ghost predicate Reaches(ls: seq<string>, slices: seq<TextSlice>, replace: Replacer, goal: Outcome) {
    && |ls| > 0 && NoNewlines(ls) && SingleLine(replace)
    && ValidSlices(ls, slices)
    && RewriteLines(ls, slices, replace) == goal
  }

  /** One step of the rewrite from such a state, in each of its three cases. */
  lemma Step(ls: seq<string>, slices: seq<TextSlice>, replace: Replacer, goal: Outcome)
    requires Reaches(ls, slices, replace, goal) && |slices| > 0
    ensures WithinLine(ls, slices[0])
    ensures var lit := Literal(ls, slices[0]);
            && (!IsRelative(lit) ==> Reaches(ls, slices[1..], replace, goal))
            && (IsRelative(lit) && replace(lit).Err? ==> goal == Outcome(ls, Some(replace(lit).error)))
            && (IsRelative(lit) && replace(lit).Ok? ==>
                  Reaches(EditLine(ls, slices[0], replace(lit).value), slices[1..], replace, goal))
  {
    ValidAfterEdit(ls, slices, "");
    var lit := Literal(ls, slices[0]);
    if IsRelative(lit) && replace(lit).Ok? {
      EditKeepsNoNewlines(ls, slices[0], replace(lit).value);
      ValidAfterEdit(ls, slices, replace(lit).value);
    }
  }

  // ---------------------------------------------------------------------------------------------
  // What the rewrite computes

  /** What line `s` becomes when its literal is rewritten on its own. */
  function NewLine(ls: seq<string>, s: TextSlice, replace: Replacer): string
    requires WithinLine(ls, s) && !Fails(ls, s, replace)
  {
    var lit := Literal(ls, s);
    if IsRelative(lit) then Splice(ls[s.startRow], s.startCol, s.endCol, replace(lit).value)
    else ls[s.startRow]
  }

  /** The rewrite fails exactly when the replacer fails on one of the relative literals of the
      original lines. */
  lemma {:induction false} RewriteFailsIff(ls: seq<string>, slices: seq<TextSlice>, replace: Replacer)
    requires ValidSlices(ls, slices)
    ensures RewriteLines(ls, slices, replace).error.Some? <==>
            exists k :: 0 <= k < |slices| && Fails(ls, slices[k], replace)
    decreases |slices|
  {
    if |slices| > 0 {
      var s := slices[0];
      var lit := Literal(ls, s);
      ValidAfterEdit(ls, slices, "");
      var ls' := if IsRelative(lit) && replace(lit).Ok? then EditLine(ls, s, replace(lit).value) else ls;
      if IsRelative(lit) && replace(lit).Ok? {
        ValidAfterEdit(ls, slices, replace(lit).value);
      }
      assert RewriteLines(ls, slices, replace) ==
             if Fails(ls, s, replace) then Outcome(ls, Some(replace(lit).error))
             else RewriteLines(ls', slices[1..], replace);
      forall k | 1 <= k < |slices|
        ensures Fails(ls', slices[1..][k - 1], replace) == Fails(ls, slices[k], replace)
      {
        assert slices[1..][k - 1] == slices[k];
        if ls' != ls {
          LiteralElsewhere(ls, s, slices[k], replace(lit).value);
        }
      }
      RewriteFailsIff(ls', slices[1..], replace);
      if !Fails(ls, s, replace) && exists k :: 0 <= k < |slices| && Fails(ls, slices[k], replace) {
        var k :| 0 <= k < |slices| && Fails(ls, slices[k], replace);
        assert k >= 1;
        assert Fails(ls', slices[1..][k - 1], replace);
      }
    }
  }

  /** Without a failure, every line holding a slice becomes that slice's `NewLine` over the
      ORIGINAL lines, and every other line is kept: the edits act as one simultaneous substitution,
      and a literal that does not start with '.' stays verbatim. */
  lemma {:induction false} RewriteSubstitutes(ls: seq<string>, slices: seq<TextSlice>, replace: Replacer)
    requires ValidSlices(ls, slices)
    requires forall k :: 0 <= k < |slices| ==> !Fails(ls, slices[k], replace)
    ensures RewriteLines(ls, slices, replace).error.None?
    ensures forall i :: 0 <= i < |ls| && (forall k :: 0 <= k < |slices| ==> slices[k].startRow != i) ==>
              RewriteLines(ls, slices, replace).lines[i] == ls[i]
    ensures forall k :: 0 <= k < |slices| ==>
              RewriteLines(ls, slices, replace).lines[slices[k].startRow] == NewLine(ls, slices[k], replace)
    decreases |slices|
  {
    RewriteFailsIff(ls, slices, replace);
    if |slices| > 0 {
      var s := slices[0];
      var lit := Literal(ls, s);
      ValidAfterEdit(ls, slices, "");
      var ls' := if IsRelative(lit) then EditLine(ls, s, replace(lit).value) else ls;
      if IsRelative(lit) {
        ValidAfterEdit(ls, slices, replace(lit).value);
      }
      assert RewriteLines(ls, slices, replace) == RewriteLines(ls', slices[1..], replace);
      forall k | 1 <= k < |slices|
        ensures slices[1..][k - 1] == slices[k]
        ensures WithinLine(ls', slices[k]) && Literal(ls', slices[k]) == Literal(ls, slices[k])
        ensures ls'[slices[k].startRow] == ls[slices[k].startRow]
      {
        if IsRelative(lit) {
          LiteralElsewhere(ls, s, slices[k], replace(lit).value);
        }
      }
      RewriteSubstitutes(ls', slices[1..], replace);
      var o := RewriteLines(ls', slices[1..], replace);
      forall k | 0 <= k < |slices|
        ensures o.lines[slices[k].startRow] == NewLine(ls, slices[k], replace)
      {
        if k == 0 {
          assert forall j :: 0 <= j < |slices[1..]| ==> slices[1..][j].startRow != s.startRow;
        } else {
          assert NewLine(ls', slices[1..][k - 1], replace) == NewLine(ls, slices[k], replace);
        }
      }
    }
  }

  /** On a failure, the rewrite stops at the first failing slice, with its error and with the lines
      the slices before it produced. */
  lemma {:induction false} RewriteStopsAtFirstFailure(ls: seq<string>, slices: seq<TextSlice>, replace: Replacer, k: nat)
    requires ValidSlices(ls, slices)
    requires k < |slices| && Fails(ls, slices[k], replace)
    requires forall j :: 0 <= j < k ==> !Fails(ls, slices[j], replace)
    ensures ValidSlices(ls, slices[..k])
    ensures RewriteLines(ls, slices, replace) ==
              Outcome(RewriteLines(ls, slices[..k], replace).lines, Some(replace(Literal(ls, slices[k])).error))
    decreases k
  {
    var s := slices[0];
    var lit := Literal(ls, s);
    ValidAfterEdit(ls, slices, "");
    if k > 0 {
      var ls' := if IsRelative(lit) then EditLine(ls, s, replace(lit).value) else ls;
      if IsRelative(lit) {
        ValidAfterEdit(ls, slices, replace(lit).value);
      }
      assert slices[..k][0] == s;
      assert slices[..k][1..] == slices[1..][..k - 1];
      forall j | 1 <= j < |slices|
        ensures slices[1..][j - 1] == slices[j]
        ensures WithinLine(ls', slices[j]) && Literal(ls', slices[j]) == Literal(ls, slices[j])
      {
        if IsRelative(lit) {
          LiteralElsewhere(ls, s, slices[j], replace(lit).value);
        }
      }
      RewriteStopsAtFirstFailure(ls', slices[1..], replace, k - 1);
      assert RewriteLines(ls, slices, replace) == RewriteLines(ls', slices[1..], replace);
      assert RewriteLines(ls, slices[..k], replace) == RewriteLines(ls', slices[1..][..k - 1], replace);
    }
  }

  /** A replacer that gives every relative literal back unchanged leaves the lines as they are. */
  lemma {:induction false} RewriteIdentity(ls: seq<string>, slices: seq<TextSlice>, replace: Replacer)
    requires ValidSlices(ls, slices)
    requires forall lit :: IsRelative(lit) ==> replace(lit) == Ok(lit)
    ensures RewriteLines(ls, slices, replace) == Outcome(ls, None)
    decreases |slices|
  {
    if |slices| > 0 {
      var s := slices[0];
      ValidAfterEdit(ls, slices, Literal(ls, s));
      EditWithOwnLiteral(ls, s);
      RewriteIdentity(ls, slices[1..], replace);
    }
  }

  /** Only relative literals reach the replacer: two replacers that agree on them rewrite alike. */
  lemma {:induction false} RewriteSeesOnlyRelative(ls: seq<string>, slices: seq<TextSlice>, f: Replacer, g: Replacer)
    requires ValidSlices(ls, slices)
    requires forall lit :: IsRelative(lit) ==> f(lit) == g(lit)
    ensures RewriteLines(ls, slices, f) == RewriteLines(ls, slices, g)
    decreases |slices|
  {
    if |slices| > 0 {
      var s := slices[0];
      var lit := Literal(ls, s);
      if IsRelative(lit) && f(lit).Ok? {
        ValidAfterEdit(ls, slices, f(lit).value);
        RewriteSeesOnlyRelative(EditLine(ls, s, f(lit).value), slices[1..], f, g);
      } else if !IsRelative(lit) {
        ValidAfterEdit(ls, slices, "");
        RewriteSeesOnlyRelative(ls, slices[1..], f, g);
      }
    }
  }

  // ---------------------------------------------------------------------------------------------
  // The same steps on the text

  /** One step of the loops on the text is one step on its lines: the offsets of a slice address
      its literal, and removing that range and inserting `x` there edits the slice's line. */
  lemma StepOnText(ls: seq<string>, s: TextSlice, x: string)
    requires |ls| > 0 && NoNewlines(ls) && WithinLine(ls, s)
    ensures s.startRow <= NewlineCount(JoinLines(ls))
    ensures var range := ToIndexRange(s, JoinLines(ls));
            && range.0 <= range.1 <= |JoinLines(ls)|
            && Slice(JoinLines(ls), range.0, range.1) == Literal(ls, s)
            && Insert(Remove(JoinLines(ls), range.0, range.1), range.0, x) == JoinLines(EditLine(ls, s, x))
  {
    var t := JoinLines(ls);
    var o := LineStart(ls, s.startRow);
    IndexRangeOfLine(ls, s);
    var range := ToIndexRange(s, t);
    assert range == (o + s.startCol, o + s.endCol);
    EditInText(ls, s, x);
  }

  /** Removing the columns of a slice from the joined text and inserting `x` there edits the
      slice's line. */
  lemma EditInText(ls: seq<string>, s: TextSlice, x: string)
    requires |ls| > 0 && WithinLine(ls, s)
    ensures LineStart(ls, s.startRow) + s.endCol <= |JoinLines(ls)|
    ensures var o := LineStart(ls, s.startRow);
            Insert(Remove(JoinLines(ls), o + s.startCol, o + s.endCol), o + s.startCol, x)
              == JoinLines(EditLine(ls, s, x))
  {
    LineInJoin(ls, s.startRow);
    EditLineInJoin(ls, s, x);
    RemoveInsertGives(JoinLines(ls), LineStart(ls, s.startRow), ls[s.startRow], s.startCol, s.endCol, x,
                      JoinLines(EditLine(ls, s, x)));
  }

  /** The remove and insert inside a piece give a text known to be that piece spliced. */
  lemma RemoveInsertGives(t: string, o: nat, line: string, a: nat, b: nat, x: string, spliced: string)
    requires o + |line| <= |t| && t[o..o + |line|] == line
    requires a <= b <= |line|
    requires spliced == t[..o] + Splice(line, a, b, x) + t[o + |line|..]
    ensures Insert(Remove(t, o + a, o + b), o + a, x) == spliced
  {
    RemoveInsertInside(t, o, line, a, b, x);
  }

  /** The text of the edited lines: the slice's line spliced in place. */
  lemma EditLineInJoin(ls: seq<string>, s: TextSlice, x: string)
    requires |ls| > 0 && WithinLine(ls, s)
    ensures LineStart(ls, s.startRow) + |ls[s.startRow]| <= |JoinLines(ls)|
    ensures JoinLines(EditLine(ls, s, x)) ==
              JoinLines(ls)[..LineStart(ls, s.startRow)] + Splice(ls[s.startRow], s.startCol, s.endCol, x)
              + JoinLines(ls)[LineStart(ls, s.startRow) + |ls[s.startRow]|..]
  {
    ReplaceLineInJoin(ls, s.startRow, Splice(ls[s.startRow], s.startCol, s.endCol, x));
  }

  /** Removing and inserting inside a piece of a sequence splices the piece. */
  lemma RemoveInsertInside(t: string, o: nat, line: string, a: nat, b: nat, x: string)
    requires o + |line| <= |t| && t[o..o + |line|] == line
    requires a <= b <= |line|
    ensures Insert(Remove(t, o + a, o + b), o + a, x) == t[..o] + Splice(line, a, b, x) + t[o + |line|..]
  {
    RemoveInsertSplices(t, o + a, o + b, x);
    SpliceInside(t, o, line, a, b, x);
  }

  /** Splicing inside a piece of a sequence splices the sequence. */
  lemma SpliceInside(t: string, o: nat, line: string, a: nat, b: nat, x: string)
    requires o + |line| <= |t| && t[o..o + |line|] == line
    requires a <= b <= |line|
    ensures t[..o + a] + x + t[o + b..] == t[..o] + Splice(line, a, b, x) + t[o + |line|..]
  {
    PrefixThrough(t, o, line, a);
    SuffixThrough(t, o, line, b);
  }

  lemma PrefixThrough(t: string, o: nat, line: string, a: nat)
    requires o + |line| <= |t| && t[o..o + |line|] == line
    requires a <= |line|
    ensures t[..o + a] == t[..o] + line[..a]
  {
    assert forall i :: o <= i < o + a ==> t[i] == line[i - o];
  }

  lemma SuffixThrough(t: string, o: nat, line: string, b: nat)
    requires o + |line| <= |t| && t[o..o + |line|] == line
    requires b <= |line|
    ensures t[o + b..] == line[b..] + t[o + |line|..]
  {
    assert forall i :: o + b <= i < o + |line| ==> t[i] == line[i - o];
  }

  /** A single-line edit leaves every other slice addressing the same literal in the new text. */
  lemma OtherSliceUnmoved(ls: seq<string>, s: TextSlice, other: TextSlice, x: string)
    requires |ls| > 0 && NoNewlines(ls) && WithinLine(ls, s) && WithinLine(ls, other)
    requires s.startRow != other.startRow && '\n' !in x
    ensures s.startRow <= NewlineCount(JoinLines(ls))
    ensures var t := JoinLines(ls);
            var range := ToIndexRange(s, t);
            && range.0 <= range.1 <= |t|
            && var t' := Insert(Remove(t, range.0, range.1), range.0, x);
               && other.startRow <= NewlineCount(t')
               && var range' := ToIndexRange(other, t');
                  && range'.0 <= range'.1 <= |t'|
                  && t'[range'.0..range'.1] == Literal(ls, other)
  {
    StepOnText(ls, s, x);
    EditKeepsNoNewlines(ls, s, x);
    LiteralElsewhere(ls, s, other, x);
    StepOnText(EditLine(ls, s, x), other, "");
  }

  /** An edit without a line break adds no line break. */
  lemma EditKeepsNoNewlines(ls: seq<string>, s: TextSlice, x: string)
    requires NoNewlines(ls) && WithinLine(ls, s) && '\n' !in x
    ensures |EditLine(ls, s, x)| == |ls| && NoNewlines(EditLine(ls, s, x))
  {
    var line := ls[s.startRow];
    assert EditLine(ls, s, x)[s.startRow] == line[..s.startCol] + x + line[s.endCol..];
    assert '\n' !in line;
  }

  /** A literal between two quotes is replaced between the same two quotes. */
  lemma QuotesKept(ls: seq<string>, s: TextSlice, p: string, lit: string, q: string, x: string)
    requires WithinLine(ls, s)
    requires ls[s.startRow] == p + "'" + lit + "'" + q
    requires s.startCol == |p| + 1 && s.endCol == |p| + 1 + |lit|
    ensures Literal(ls, s) == lit
    ensures EditLine(ls, s, x)[s.startRow] == p + "'" + x + "'" + q
  {
    var line := ls[s.startRow];
    assert line[..s.startCol] == p + "'";
    assert line[s.startCol..s.endCol] == lit;
    assert line[s.endCol..] == "'" + q;
  }
}
