/**
 * The analysis pipeline (`CodeAnalyzer.analyze`): parse the source into a
 * metadata record, then let the heuristics fill in loop invariant
 * candidates and recursion base cases on that same record.
 */
module Analyzer {
  import opened Options
  import opened Strings
  import opened Tree
  import opened Models
  import opened Parser
  import opened Heuristics

  /** `analyze`: the parser's record, enriched in place by the heuristics. */
  function Analyze(tree: Node, code: string): (m: CodeMetadata)
    ensures m.rawCode == code
    ensures Aliased(m)
    ensures Skeleton(m) == Skeleton(Parse(tree, code))
  {
    var p := Parse(tree, code);
    AliasedListsOnce(p, 0);
    Apply(p)
  }

  /** Every loop the parser records is a `for` or `while` loop that has no candidate yet. */
  lemma LoopsOfAreBare(ns: seq<Node>, code: string)
    ensures forall i :: 0 <= i < |LoopsOf(ns, code)| ==>
              && LoopsOf(ns, code)[i].candidateInvariant.None?
              && LoopsOf(ns, code)[i].flow.kind in {"for_loop", "while_loop"}
  {
  }

  /** Every recursion the parser records has no base case condition yet. */
  lemma RecursionsOfAreBare(ns: seq<Node>, code: string, name: string)
    ensures forall i :: 0 <= i < |RecursionsOf(ns, code, name)| ==>
              RecursionsOf(ns, code, name)[i].baseCaseCondition.None?
  {
  }

  /**
   * The heuristics only annotate: the name, the arguments, the source, the
   * control flow, the variables and every loop and recursion apart from its
   * candidate invariant and base case condition are exactly what parsing
   * found.
   */
  lemma AnalyzeKeepsParse(tree: Node, code: string)
    ensures var m := Analyze(tree, code);
            var p := Parse(tree, code);
            && m.functionName == p.functionName && m.args == p.args && m.rawCode == p.rawCode
            && m.controlFlow == p.controlFlow && m.variables == p.variables
            && |m.loops| == |p.loops| && |m.recursions| == |p.recursions|
            && (forall i :: 0 <= i < |m.loops| ==>
                  m.loops[i] == p.loops[i].(candidateInvariant := m.loops[i].candidateInvariant))
            && (forall i :: 0 <= i < |m.recursions| ==>
                  m.recursions[i] == p.recursions[i].(baseCaseCondition := m.recursions[i].baseCaseCondition))
  {
    var m := Analyze(tree, code);
    var p := Parse(tree, code);
    assert Skeleton(m) == Skeleton(p);
    assert |m.loops| == |Skeleton(m).loops| == |Skeleton(p).loops| == |p.loops|;
    assert |m.recursions| == |Skeleton(m).recursions| == |Skeleton(p).recursions| == |p.recursions|;
    forall i | 0 <= i < |m.loops|
      ensures m.loops[i] == p.loops[i].(candidateInvariant := m.loops[i].candidateInvariant)
    {
      assert Skeleton(m).loops[i] == Skeleton(p).loops[i];
    }
    forall i | 0 <= i < |m.recursions|
      ensures m.recursions[i] == p.recursions[i].(baseCaseCondition := m.recursions[i].baseCaseCondition)
    {
      assert Skeleton(m).recursions[i] == Skeleton(p).recursions[i];
    }
  }

  /**
   * The loop candidates after analysis: a `for` loop over a `range(...)`
   * iterable gets the range template (which names its loop variable), a
   * `while` loop with a non-empty condition gets the condition template,
   * and every other loop stays without a candidate.
   */
  lemma AnalyzeLoopCandidate(tree: Node, code: string, i: nat)
    requires i < |Parse(tree, code).loops|
    ensures var l := Parse(tree, code).loops[i];
            var c := Analyze(tree, code).loops[i].candidateInvariant;
            && (l.flow.kind == "for_loop" && Truthy(l.loopVariable) && Truthy(l.iterable)
                && Contains(l.iterable.value, "range") ==>
                  c == Some(RangeInvariant(l.loopVariable.value, l.iterable.value))
                  && Contains(c.value, l.loopVariable.value))
            && (l.flow.kind == "while_loop" && Truthy(l.flow.condition) ==>
                  c == Some(WhileInvariant(l.flow.condition.value)))
            && (c.Some? <==>
                  (l.flow.kind == "for_loop" && Truthy(l.loopVariable) && Truthy(l.iterable)
                   && Contains(l.iterable.value, "range"))
                  || (l.flow.kind == "while_loop" && Truthy(l.flow.condition)))
  {
    var p := Parse(tree, code);
    AliasedListsOnce(p, 0);
    ParseRecords(tree, code);
    LoopsOfAreBare(PreOrder(TraversalRoot(tree)), code);
    ApplyLoopCandidate(p, i);
  }

  /**
   * The base case conditions after analysis: when the function has base
   * cases, every recursion carries all their conditions joined by " OR ";
   * otherwise no recursion has one.
   */
  lemma AnalyzeRecursionBaseCases(tree: Node, code: string, i: nat)
    requires i < |Parse(tree, code).recursions|
    ensures RefsValid(Parse(tree, code))
    ensures var b := BaseCases(Parse(tree, code));
            Analyze(tree, code).recursions[i].baseCaseCondition
              == if |b| > 0 then Some(Join(" OR ", ConditionsOf(b))) else None
  {
    var p := Parse(tree, code);
    AliasedListsOnce(p, 0);
    ParseRecords(tree, code);
    RecursionsOfAreBare(PreOrder(TraversalRoot(tree)), code, p.functionName);
    ApplyRecursionBaseCases(p);
  }

  /** What analysis records, counted over the traversed subtree (see `Parser.ParseRecords`). */
  lemma AnalyzeCounts(tree: Node, code: string)
    ensures var m := Analyze(tree, code);
            var ns := PreOrder(TraversalRoot(tree));
            && |m.loops| == Count(ns, Loops)
            && |m.recursions| == Count(ns, RecursiveCallsTo(code, m.functionName))
            && |m.variables| == Count(ns, Assignments)
            && |m.controlFlow| == |m.loops| + |m.recursions| + Count(ns, Ifs)
  {
    AnalyzeKeepsParse(tree, code);
    ParseRecords(tree, code);
  }

  /** Running the heuristics again on an analysed record changes nothing. */
  lemma AnalyzeIdempotent(tree: Node, code: string)
    ensures RefsValid(Analyze(tree, code))
    ensures Apply(Analyze(tree, code)) == Analyze(tree, code)
  {
    var p := Parse(tree, code);
    AliasedListsOnce(p, 0);
    AliasedListsOnce(Analyze(tree, code), 0);
    ApplyIdempotent(p);
  }
}
