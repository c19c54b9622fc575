/** src/import_replacer.rs: an object holding the text of a source file whose `replace_imports`
    rewrites the relative import strings of the file in place. The parse tree and the query are
    foreign; what the capture iterator yields over them is given to the constructor. */
module ImportReplacer {
  import opened Wrappers
  import opened Rope
  import opened Parser
  import opened Rewrite

  /** The two TypeScript dialects. */
  datatype Lang = TypeScript | TypeScriptTsx

  /** `to_language`: the grammar of each dialect, one grammar per dialect. */
  function ToLanguage(lang: Lang): (r: Grammar)
    ensures r == TypeScriptGrammar <==> lang == TypeScript
    ensures r == TsxGrammar <==> lang == TypeScriptTsx
  {
    match lang
    case TypeScript => TypeScriptGrammar
    case TypeScriptTsx => TsxGrammar
  }

  /** One item of `QueryCursor::captures`: a match and the index of the capture it reports. */
  datatype CaptureStep = CaptureStep(m: QueryMatch, index: nat)

  predicate IndicesInRange(steps: seq<CaptureStep>) {
    forall k :: 0 <= k < |steps| ==> steps[k].index < |steps[k].m.captures|
  }

  /** The nodes the nested loop visits: for each step, the captures of its match up to and
      including the reported one. */
  function Visited(steps: seq<CaptureStep>): seq<Node>
    requires IndicesInRange(steps)
    decreases |steps|
  {
    if |steps| == 0 then []
    else steps[0].m.captures[..steps[0].index + 1] + Visited(steps[1..])
  }

  /** With a query of one capture, as `(import_statement (string) @import)` is, every step reports
      capture 0 of a one-capture match, and the loop visits each captured node once, in order. */
  lemma {:induction false} OneCaptureVisitsEachOnce(steps: seq<CaptureStep>)
    requires forall k :: 0 <= k < |steps| ==> |steps[k].m.captures| == 1 && steps[k].index == 0
    ensures IndicesInRange(steps)
    ensures Visited(steps) == Captures(seq(|steps|, k requires 0 <= k < |steps| => steps[k].m))
    decreases |steps|
  {
    var ms := seq(|steps|, k requires 0 <= k < |steps| => steps[k].m);
    if |steps| > 0 {
      OneCaptureVisitsEachOnce(steps[1..]);
      assert ms[1..] == seq(|steps[1..]|, k requires 0 <= k < |steps[1..]| => steps[1..][k].m);
      assert steps[0].m.captures[..1] == steps[0].m.captures;
    }
  }

  /** The loop's state: the remaining nodes have slices, and the rewrite reaches `goal` from
      them. */
  ghost predicate Pending(ls: seq<string>, nodes: seq<Node>, replace: Replacer, goal: Outcome) {
    EndsPastColumnZero(nodes) && Reaches(ls, SlicesOf(nodes), replace, goal)
  }

  /** The rewrite of the lines at the first of the remaining nodes. */
  lemma NodeStep(ls: seq<string>, nodes: seq<Node>, replace: Replacer, goal: Outcome)
    requires Pending(ls, nodes, replace, goal) && |nodes| > 0
    ensures WithinLine(ls, SliceOf(nodes[0]))
    ensures var lit := Literal(ls, SliceOf(nodes[0]));
            && (!IsRelative(lit) ==> Pending(ls, nodes[1..], replace, goal))
            && (IsRelative(lit) && replace(lit).Err? ==> goal == Outcome(ls, Some(replace(lit).error)))
            && (IsRelative(lit) && replace(lit).Ok? ==>
                  Pending(EditLine(ls, SliceOf(nodes[0]), replace(lit).value), nodes[1..], replace, goal))
  {
    var sl := SlicesOf(nodes);
    assert sl[0] == SliceOf(nodes[0]) && sl[1..] == SlicesOf(nodes[1..]);
    Step(ls, sl, replace, goal);
  }

  /** The offsets `replace_imports` computes from a node, one column inside each end of it,
      address the node's literal. */
  lemma NodeOffsets(ls: seq<string>, node: Node)
    requires |ls| > 0 && NoNewlines(ls)
    requires node.end.column >= 1 && WithinLine(ls, SliceOf(node))
    ensures node.start.row == node.end.row <= NewlineCount(JoinLines(ls))
    ensures var t := JoinLines(ls);
            var a := LineToChar(t, node.start.row) + node.start.column + 1;
            var b := LineToChar(t, node.end.row) + node.end.column - 1;
            && a <= b <= |t|
            && t[a..b] == Literal(ls, SliceOf(node))
  {
    var s := SliceOf(node);
    StepOnText(ls, s, "");
    var range := ToIndexRange(s, JoinLines(ls));
    assert range.0 == LineToChar(JoinLines(ls), node.start.row) + node.start.column + 1;
    assert range.1 == LineToChar(JoinLines(ls), node.end.row) + node.end.column - 1;
  }

  /** Removing that range and inserting `x` there edits the node's line. */
  lemma NodeEdit(ls: seq<string>, node: Node, a: nat, b: nat, x: string)
    requires |ls| > 0 && NoNewlines(ls)
    requires node.end.column >= 1 && WithinLine(ls, SliceOf(node))
    requires node.start.row <= NewlineCount(JoinLines(ls))
    requires a == LineToChar(JoinLines(ls), node.start.row) + node.start.column + 1
    requires b == LineToChar(JoinLines(ls), node.end.row) + node.end.column - 1
    requires a <= b <= |JoinLines(ls)|
    ensures Insert(Remove(JoinLines(ls), a, b), a, x) == JoinLines(EditLine(ls, SliceOf(node), x))
  {
    var s := SliceOf(node);
    assert s.startRow == node.start.row == s.endRow && s.startCol == node.start.column + 1;
    assert s.endCol == node.end.column - 1;
    var range := ToIndexRange(s, JoinLines(ls));
    assert range.0 == a && range.1 == b;
    StepOnText(ls, s, x);
  }

  class ImportReplacer {
    /** The text, which the `Rope` field holds. */
    var text: string
    /** What the capture iterator yields over the tree parsed from the original text; the tree is
        not re-parsed after edits. */
    const steps: seq<CaptureStep>

    /** The object `ImportReplacer::new` builds once the parse has succeeded. */
    constructor (sourceCode: string, steps: seq<CaptureStep>)
      ensures text == sourceCode
      ensures this.steps == steps
    {
      text := sourceCode;
      this.steps := steps;
    }

    /** `ImportReplacer::new`: the text is parsed in the grammar of `lang`, and a failing parse is
        the call's error. `parse` stands for the tree-sitter parse followed by the capture iterator
        over its tree. */
    static method New(sourceCode: string, lang: Lang, parse: (string, Grammar) -> Result<seq<CaptureStep>>)
      returns (r: Result<ImportReplacer>)
      ensures r.Err? <==> parse(sourceCode, ToLanguage(lang)).Err?
      ensures r.Err? ==> r.error == parse(sourceCode, ToLanguage(lang)).error
      ensures r.Ok? ==> && fresh(r.value)
                        && r.value.text == sourceCode
                        && r.value.steps == parse(sourceCode, ToLanguage(lang)).value
    {
      var parsed := parse(sourceCode, ToLanguage(lang));
      if parsed.Err? {
        return Err(parsed.error);
      }
      var replacer := new ImportReplacer(sourceCode, parsed.value);
      return Ok(replacer);
    }

    /** `to_string`: the current text. */
    function ToString(): (r: string)
      reads this
      ensures r == text
    {
      text
    }

    /** The captures lie inside single lines of the text, no two on one line. */
    predicate Addressable()
      reads this
    {
      && IndicesInRange(steps)
      && EndsPastColumnZero(Visited(steps))
      && ValidSlices(Lines(text), SlicesOf(Visited(steps)))
    }

    /** `replace_imports`: every relative literal is replaced by what the replacer makes of it,
        with no check whether it changed; the quotes stay, since the range is one column inside
        each end of the node. A failing replacer ends the call with its error, and the edits made
        before it stay in the text. */
    method ReplaceImports(replace: Replacer) returns (r: Result<()>)
      requires Addressable()
      requires SingleLine(replace)
      modifies this
      ensures var o := RewriteLines(Lines(old(text)), SlicesOf(Visited(steps)), replace);
              && text == JoinLines(o.lines)
              && (r.Ok? <==> o.error.None?)
              && (r.Err? ==> o.error == Some(r.error))
    {
      ghost var ls := Lines(text);
      ghost var goal := RewriteLines(ls, SlicesOf(Visited(steps)), replace);
      assert steps[0..] == steps;
      for e := 0 to |steps|
        invariant Pending(ls, Visited(steps[e..]), replace, goal) && text == JoinLines(ls)
      {
        var captures := steps[e].m.captures;
        var u := steps[e].index;
        assert steps[e..][0] == steps[e] && steps[e..][1..] == steps[e + 1..];
        assert Visited(steps[e..]) == captures[..u + 1] + Visited(steps[e + 1..]);
        var done;
        done, ls := ReplaceCaptures(captures[..u + 1], ls, Visited(steps[e + 1..]), replace, goal);
        if done.Err? {
          return Err(done.error);
        }
      }
      assert steps[|steps|..] == [] && Visited(steps[|steps|..]) == [];
      assert RewriteLines(ls, SlicesOf([]), replace) == Outcome(ls, None);
      r := Ok(());
    }

    /** One pass of the inner loop of `replace_imports`, at `node`. */
    method ReplaceNode(node: Node, ghost ls0: seq<string>, ghost rest: seq<Node>, replace: Replacer,
                       ghost goal: Outcome)
      returns (r: Result<()>, ghost ls: seq<string>)
      requires Pending(ls0, rest, replace, goal) && text == JoinLines(ls0)
      requires |rest| > 0 && rest[0] == node
      modifies this
      ensures |ls| > 0 && text == JoinLines(ls)
      ensures r.Ok? ==> Pending(ls, rest[1..], replace, goal)
      ensures r.Err? ==> goal == Outcome(ls, Some(r.error))
    {
      ls := ls0;
      NodeStep(ls, rest, replace, goal);
      NodeOffsets(ls, node);
      var startIdx := LineToChar(text, node.start.row) + node.start.column + 1;
      var endIdx: nat := LineToChar(text, node.end.row) + node.end.column - 1;
      var importString := Slice(text, startIdx, endIdx);
      ghost var lit := Literal(ls, SliceOf(node));
      assert importString == lit;
      if !IsRelative(importString) {
        return Ok(()), ls;
      }
      var newImport :- replace(importString);
      assert Pending(EditLine(ls, SliceOf(node), newImport), rest[1..], replace, goal);
      NodeEdit(ls, node, startIdx, endIdx, newImport);
      text := Insert(Remove(text, startIdx, endIdx), startIdx, newImport);
      ls := EditLine(ls, SliceOf(node), newImport);
      r := Ok(());
    }

    /** The inner loop of `replace_imports`, over the captures of one match, with `tail` the nodes
        the later matches visit. */
    method ReplaceCaptures(nodes: seq<Node>, ghost ls0: seq<string>, ghost tail: seq<Node>, replace: Replacer,
                           ghost goal: Outcome)
      returns (r: Result<()>, ghost ls: seq<string>)
      requires Pending(ls0, nodes + tail, replace, goal) && text == JoinLines(ls0)
      modifies this
      ensures |ls| > 0 && text == JoinLines(ls)
      ensures r.Ok? ==> Pending(ls, tail, replace, goal)
      ensures r.Err? ==> goal == Outcome(ls, Some(r.error))
    {
      ls := ls0;
      ghost var rest := nodes + tail;
      for i := 0 to |nodes|
        invariant rest == nodes[i..] + tail
        invariant Pending(ls, rest, replace, goal) && text == JoinLines(ls)
      {
        assert rest[0] == nodes[i] && rest[1..] == nodes[i + 1..] + tail;
        var done;
        done, ls := ReplaceNode(nodes[i], ls, rest, replace, goal);
        if done.Err? {
          return done, ls;
        }
        rest := rest[1..];
      }
      assert rest == tail;
      r := Ok(());
    }
  }
}
