/** The part of the `ropey` crate the rewrite loops use, over a plain character sequence:
    `line_to_char`, `slice`, `remove` and `insert`, and the text seen as '\n'-separated lines.
    Only '\n' counts as a line break. */
module Rope {
  import Seqs

  function NewlineCount(t: string): nat {
    Seqs.Count(t, '\n')
  }

  /** `Rope::line_to_char`: where line `row` starts, just after the row-th '\n'. The line one past the
      last one starts at the end of the text; any later line is out of bounds and panics in `ropey`. */
  function LineToChar(t: string, row: nat): (r: nat)
    requires row <= NewlineCount(t) + 1
    ensures r <= |t|
    ensures row <= NewlineCount(t) ==> NewlineCount(t[..r]) == row && (row > 0 ==> t[r - 1] == '\n')
    ensures row == NewlineCount(t) + 1 ==> r == |t|
    decreases |t|
  {
    if row == 0 then 0
    else if |t| == 0 then 0
    else
      var rest := LineToChar(t[1..], if t[0] == '\n' then row - 1 else row);
      assert t[..rest + 1] == [t[0]] + t[1..][..rest];
      Seqs.CountAppend([t[0]], t[1..][..rest], '\n');
      assert t == [t[0]] + t[1..];
      Seqs.CountAppend([t[0]], t[1..], '\n');
      rest + 1
  }

  /** The lines of a text: the pieces between its '\n's. */
  function Lines(t: string): (ls: seq<string>)
    ensures |ls| == NewlineCount(t) + 1
    ensures forall i :: 0 <= i < |ls| ==> '\n' !in ls[i]
    ensures JoinLines(ls) == t
  {
    var ls := Seqs.Split(t, '\n');
    Seqs.JoinSplit(t, '\n');
    Seqs.CountJoin(ls, '\n');
    ls
  }

  /** The text of some lines: one '\n' between each two of them. */
  function JoinLines(ls: seq<string>): string
    requires |ls| > 0
  {
    Seqs.Join(ls, '\n')
  }

  predicate NoNewlines(ls: seq<string>) {
    forall i :: 0 <= i < |ls| ==> '\n' !in ls[i]
  }

  /** Lines without '\n' are what their text splits into. */
  lemma LinesOfJoin(ls: seq<string>)
    requires |ls| > 0 && NoNewlines(ls)
    ensures Lines(JoinLines(ls)) == ls
    ensures NewlineCount(JoinLines(ls)) == |ls| - 1
  {
    Seqs.SplitJoin(ls, '\n');
    Seqs.CountJoin(ls, '\n');
  }

  /** The offset of line `r` when the lines `ls` are joined. */
  function LineStart(ls: seq<string>, r: nat): nat
    requires r <= |ls|
    decreases r
  {
    if r == 0 then 0 else |ls[0]| + 1 + LineStart(ls[1..], r - 1)
  }

  lemma JoinCons(ls: seq<string>)
    requires |ls| > 1
    ensures JoinLines(ls) == ls[0] + "\n" + JoinLines(ls[1..])
  {
  }

  /** A '\n'-free head is skipped, with its '\n', by one line. */
  lemma {:induction false} LineToCharAfter(p: string, tail: string, row: nat)
    requires '\n' !in p
    requires 0 < row <= NewlineCount(tail) + 1
    ensures NewlineCount(p + "\n" + tail) == NewlineCount(tail) + 1
    ensures LineToChar(p + "\n" + tail, row) == |p| + 1 + LineToChar(tail, row - 1)
    decreases |p|
  {
    var t := p + "\n" + tail;
    Seqs.CountAbsent(p, '\n');
    Seqs.CountAppend(p, "\n" + tail, '\n');
    Seqs.CountAppend("\n", tail, '\n');
    assert p + "\n" + tail == p + ("\n" + tail);
    if |p| == 0 {
      assert t == "\n" + tail;
      assert t[1..] == tail;
    } else {
      assert t[0] == p[0] && t[0] != '\n';
      assert t[1..] == p[1..] + "\n" + tail;
      LineToCharAfter(p[1..], tail, row);
    }
  }

  /** `line_to_char` on joined lines is the offset of the line. */
  lemma {:induction false} LineToCharOfJoin(ls: seq<string>, r: nat)
    requires |ls| > 0 && NoNewlines(ls)
    requires r < |ls|
    ensures NewlineCount(JoinLines(ls)) == |ls| - 1
    ensures LineToChar(JoinLines(ls), r) == LineStart(ls, r)
    decreases r
  {
    if r == 0 {
      Seqs.CountJoin(ls, '\n');
    } else {
      JoinCons(ls);
      LineToCharOfJoin(ls[1..], r - 1);
      LineToCharAfter(ls[0], JoinLines(ls[1..]), r);
    }
  }

  /** Line `r` sits in the joined text at its offset. */
  lemma {:induction false} LineInJoin(ls: seq<string>, r: nat)
    requires |ls| > 0 && r < |ls|
    ensures LineStart(ls, r) + |ls[r]| <= |JoinLines(ls)|
    ensures JoinLines(ls)[LineStart(ls, r)..LineStart(ls, r) + |ls[r]|] == ls[r]
    decreases r
  {
    if r == 0 {
      if |ls| > 1 { JoinCons(ls); }
    } else {
      JoinCons(ls);
      LineInJoin(ls[1..], r - 1);
      var h := |ls[0]| + 1;
      var t := JoinLines(ls);
      assert t[h..] == JoinLines(ls[1..]);
      var s := LineStart(ls[1..], r - 1);
      assert t[h + s..h + s + |ls[r]|] == t[h..][s..s + |ls[r]|];
    }
  }

  /** Replacing line `r` replaces its characters in the text and nothing else. */
  lemma {:induction false} ReplaceLineInJoin(ls: seq<string>, r: nat, x: string)
    requires |ls| > 0 && r < |ls|
    ensures LineStart(ls, r) + |ls[r]| <= |JoinLines(ls)|
    ensures JoinLines(ls[r := x]) ==
              JoinLines(ls)[..LineStart(ls, r)] + x + JoinLines(ls)[LineStart(ls, r) + |ls[r]|..]
    decreases r
  {
    LineInJoin(ls, r);
    if r == 0 {
      ReplaceFirstLine(ls, x);
    } else {
      var ls' := ls[r := x];
      var head := ls[0] + "\n";
      var tail := JoinLines(ls[1..]);
      JoinCons(ls);
      JoinCons(ls');
      assert ls'[1..] == ls[1..][r - 1 := x];
      ReplaceLineInJoin(ls[1..], r - 1, x);
      var s := LineStart(ls[1..], r - 1);
      assert LineStart(ls, r) == |head| + s && ls[1..][r - 1] == ls[r];
      SpliceAfterHead(head, tail, s, |ls[r]|, x);
    }
  }

  /** Replacing the first line replaces the text up to the first '\n'. */
  lemma ReplaceFirstLine(ls: seq<string>, x: string)
    requires |ls| > 0
    ensures |ls[0]| <= |JoinLines(ls)|
    ensures JoinLines(ls[0 := x]) == x + JoinLines(ls)[|ls[0]|..]
  {
    LineInJoin(ls, 0);
    if |ls| > 1 {
      var ls' := ls[0 := x];
      JoinCons(ls);
      JoinCons(ls');
      assert ls'[1..] == ls[1..];
      assert JoinLines(ls)[|ls[0]|..] == "\n" + JoinLines(ls[1..]);
    }
  }

  /** A splice inside the part after a head is a splice of the whole, shifted by the head. */
  lemma SpliceAfterHead(head: string, tail: string, s: nat, len: nat, x: string)
    requires s + len <= |tail|
    ensures head + (tail[..s] + x + tail[s + len..])
         == (head + tail)[..|head| + s] + x + (head + tail)[|head| + s + len..]
  {
    AfterHead(head, tail, s);
    AfterHead(head, tail, s + len);
  }

  /** Cutting a concatenation inside its second part. */
  lemma AfterHead(u: string, v: string, k: nat)
    requires k <= |v|
    ensures (u + v)[..|u| + k] == u + v[..k]
    ensures (u + v)[|u| + k..] == v[k..]
  {
  }

  // ---------------------------------------------------------------------------------------------
  // RopeSlice, Rope::remove and Rope::insert

  /** `rope.slice(start..end)`: the characters in `[start, end)`. */
  function Slice(t: string, start: nat, end: nat): (r: string)
    requires start <= end <= |t|
    ensures |r| == end - start
    ensures forall i :: 0 <= i < |r| ==> r[i] == t[start + i]
  {
    t[start..end]
  }

  /** `rope.remove(start..end)`: the text without the characters in `[start, end)`. */
  function Remove(t: string, start: nat, end: nat): (r: string)
    requires start <= end <= |t|
    ensures |r| == |t| - (end - start)
  {
    t[..start] + t[end..]
  }

  /** The characters before the range stay, and those after it close up. */
  lemma RemoveKeepsTheRest(t: string, start: nat, end: nat)
    requires start <= end <= |t|
    ensures |Remove(t, start, end)| == |t| - (end - start)
    ensures Remove(t, start, end)[..start] == t[..start] && Remove(t, start, end)[start..] == t[end..]
  {
  }

  /** `rope.insert(at, s)`: `s` put in front of the character at `at`. */
  function Insert(t: string, at: nat, s: string): (r: string)
    requires at <= |t|
    ensures |r| == |t| + |s|
  {
    t[..at] + s + t[at..]
  }

  /** The characters before `at` stay, `s` follows, and then the rest of the text. */
  lemma InsertKeepsTheRest(t: string, at: nat, s: string)
    requires at <= |t|
    ensures |Insert(t, at, s)| == |t| + |s|
    ensures Insert(t, at, s)[..at] == t[..at] && Insert(t, at, s)[at..at + |s|] == s
    ensures Insert(t, at, s)[at + |s|..] == t[at..]
  {
  }

  /** A removal followed by an insertion at the same place replaces the range by the new text. */
  lemma RemoveInsertSplices(t: string, start: nat, end: nat, s: string)
    requires start <= end <= |t|
    ensures Insert(Remove(t, start, end), start, s) == t[..start] + s + t[end..]
  {
    var r := Insert(Remove(t, start, end), start, s);
    RemoveKeepsTheRest(t, start, end);
    InsertKeepsTheRest(Remove(t, start, end), start, s);
    assert r == r[..start] + r[start..start + |s|] + r[start + |s|..];
  }

  /** Putting back what was removed restores the text. */
  lemma RemoveInsertRestores(t: string, start: nat, end: nat)
    requires start <= end <= |t|
    ensures Insert(Remove(t, start, end), start, Slice(t, start, end)) == t
  {
    RemoveInsertSplices(t, start, end, t[start..end]);
    assert t == t[..start] + t[start..end] + t[end..];
  }
}
