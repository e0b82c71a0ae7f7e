/**
 * The heuristics engine (`HeuristicsEngine`): textual guesses attached to
 * an extracted record. Loops get a candidate invariant; recursive calls get
 * the disjunction of the conditions of `if`s that look like base cases.
 * The source mutates the record in place; here `Apply` returns the updated
 * record.
 */
module Heuristics {
  import opened Options
  import opened Strings
  import opened Models

  /** Python truthiness of an optional string: present and non-empty. */
  predicate Truthy(o: Option<string>)
  {
    o.Some? && |o.value| > 0
  }

  function RangeInvariant(variable: string, iterable: string): string
  {
    "0 <= " + variable + " < len(" + iterable + ") (approx)"
  }

  function WhileInvariant(condition: string): string
  {
    "Loop maintains logical consistency with: " + condition
  }

  /** The range template mentions the loop variable and the iterable. */
  lemma RangeInvariantMentions(variable: string, iterable: string)
    ensures Contains(RangeInvariant(variable, iterable), variable)
    ensures Contains(RangeInvariant(variable, iterable), iterable)
  {
    OccursInConcat("0 <= ", variable, " < len(" + iterable + ") (approx)");
    assert "0 <= " + variable + (" < len(" + iterable + ") (approx)") == RangeInvariant(variable, iterable);
    OccursInConcat("0 <= " + variable + " < len(", iterable, ") (approx)");
  }

  /** The loop pass applied to one loop. */
  function DetectLoop(loop: LoopInfo): LoopInfo
  {
    if loop.flow.kind == "for_loop" && Truthy(loop.loopVariable) && Truthy(loop.iterable) then
      if Contains(loop.iterable.value, "range") then
        loop.(candidateInvariant := Some(RangeInvariant(loop.loopVariable.value, loop.iterable.value)))
      else loop
    else if loop.flow.kind == "while_loop" && Truthy(loop.flow.condition) then
      loop.(candidateInvariant := Some(WhileInvariant(loop.flow.condition.value)))
    else loop
  }

  /** `_detect_loop_invariants`: the loop pass over every loop. */
  function DetectLoopInvariants(m: CodeMetadata): (r: CodeMetadata)
    ensures r == m.(loops := r.loops)
    ensures |r.loops| == |m.loops|
    ensures forall i :: 0 <= i < |m.loops| ==> r.loops[i] == DetectLoop(m.loops[i])
  {
    m.(loops := seq(|m.loops|, i requires 0 <= i < |m.loops| => DetectLoop(m.loops[i])))
  }

  /** Is this control-flow element taken for a base case: an `if` whose source mentions "return"? */
  predicate IsBaseCase(el: ControlFlowElement)
  {
    el.kind == "if_condition" && Contains(el.source, "return")
  }

  /** The base-case elements among `cf`, in `control_flow` order. */
  function BaseCasesIn(m: CodeMetadata, cf: seq<FlowEntry>): (r: seq<ControlFlowElement>)
    requires forall e :: e in cf ==> ValidRef(m, e)
    ensures |r| <= |cf|
    ensures forall k :: 0 <= k < |r| ==> IsBaseCase(r[k])
    ensures forall j :: 0 <= j < |cf| && IsBaseCase(FlowElement(m, cf[j])) ==> FlowElement(m, cf[j]) in r
  {
    if |cf| == 0 then []
    else
      var el := FlowElement(m, cf[0]);
      (if IsBaseCase(el) then [el] else []) + BaseCasesIn(m, cf[1..])
  }

  /** The filter goes entry by entry: the base cases of `a + b` are those of `a`, then those of `b`. */
  lemma {:induction false} BaseCasesInConcat(m: CodeMetadata, a: seq<FlowEntry>, b: seq<FlowEntry>)
    requires forall e :: e in a ==> ValidRef(m, e)
    requires forall e :: e in b ==> ValidRef(m, e)
    ensures forall e :: e in a + b ==> ValidRef(m, e)
    ensures BaseCasesIn(m, a + b) == BaseCasesIn(m, a) + BaseCasesIn(m, b)
  {
    if |a| > 0 {
      assert (a + b)[1..] == a[1..] + b;
      BaseCasesInConcat(m, a[1..], b);
    } else {
      assert a + b == b;
    }
  }

  /** Every base case found is the element of some entry of `cf`. */
  lemma {:induction false} BaseCasesInComeFrom(m: CodeMetadata, cf: seq<FlowEntry>)
    requires forall e :: e in cf ==> ValidRef(m, e)
    ensures forall k :: 0 <= k < |BaseCasesIn(m, cf)| ==>
              exists j :: 0 <= j < |cf| && BaseCasesIn(m, cf)[k] == FlowElement(m, cf[j])
  {
    if |cf| > 0 {
      BaseCasesInComeFrom(m, cf[1..]);
      var r := BaseCasesIn(m, cf);
      var here := if IsBaseCase(FlowElement(m, cf[0])) then [FlowElement(m, cf[0])] else [];
      var rest := BaseCasesIn(m, cf[1..]);
      assert r == here + rest;
      forall k | 0 <= k < |BaseCasesIn(m, cf)|
        ensures exists j :: 0 <= j < |cf| && BaseCasesIn(m, cf)[k] == FlowElement(m, cf[j])
      {
        var j: nat;
        if k < |here| {
          j := 0;
        } else {
          var i :| 0 <= i < |cf[1..]| && rest[k - |here|] == FlowElement(m, cf[1..][i]);
          j := i + 1;
        }
        assert 0 <= j < |cf| && r[k] == FlowElement(m, cf[j]);
      }
    } else {
      assert BaseCasesIn(m, cf) == [];
    }
  }

  /** A single entry is kept exactly when its element is a base case. */
  lemma BaseCasesInOne(m: CodeMetadata, e: FlowEntry)
    requires ValidRef(m, e)
    ensures IsBaseCase(FlowElement(m, e)) ==> BaseCasesIn(m, [e]) == [FlowElement(m, e)]
    ensures !IsBaseCase(FlowElement(m, e)) ==> BaseCasesIn(m, [e]) == []
  {
    assert [e][1..] == [];
  }

  function BaseCases(m: CodeMetadata): seq<ControlFlowElement>
    requires RefsValid(m)
  {
    BaseCasesIn(m, m.controlFlow)
  }

  /** The present, non-empty conditions of the base cases, in order. */
  function ConditionsOf(bcs: seq<ControlFlowElement>): (r: seq<string>)
    ensures forall k :: 0 <= k < |r| ==> |r[k]| > 0
    ensures forall k :: 0 <= k < |bcs| && Truthy(bcs[k].condition) ==> bcs[k].condition.value in r
  {
    if |bcs| == 0 then []
    else (if Truthy(bcs[0].condition) then [bcs[0].condition.value] else []) + ConditionsOf(bcs[1..])
  }

  /** The text attached to every recursion when base cases exist. */
  function BaseCaseText(m: CodeMetadata): string
    requires RefsValid(m)
  {
    Join(" OR ", ConditionsOf(BaseCases(m)))
  }

  /** `_analyze_recursion`. */
  function AnalyzeRecursion(m: CodeMetadata): (r: CodeMetadata)
    requires RefsValid(m)
    ensures r == m.(recursions := r.recursions)
    ensures |r.recursions| == |m.recursions|
  {
    if |m.recursions| == 0 then m
    else if |BaseCases(m)| > 0 then
      var text := BaseCaseText(m);
      m.(recursions := seq(|m.recursions|, i requires 0 <= i < |m.recursions| =>
                             m.recursions[i].(baseCaseCondition := Some(text))))
    else m
  }

  /** The record with every heuristic output cleared: what the heuristics read and never write. */
  function Skeleton(m: CodeMetadata): CodeMetadata
  {
    m.(loops := seq(|m.loops|, i requires 0 <= i < |m.loops| => m.loops[i].(candidateInvariant := None)),
       recursions := seq(|m.recursions|, i requires 0 <= i < |m.recursions| =>
                           m.recursions[i].(baseCaseCondition := None)))
  }

  /** `apply`: the loop pass, then the recursion pass, on the same record. */
  function Apply(m: CodeMetadata): (r: CodeMetadata)
    requires RefsValid(m)
    ensures Skeleton(r) == Skeleton(m)
    ensures RefsValid(r)
    ensures Aliased(m) ==> Aliased(r)
  {
    var d := DetectLoopInvariants(m);
    var r := AnalyzeRecursion(d);
    assert Skeleton(r) == Skeleton(m) by {
      SkeletonOfLoopPass(m);
      SkeletonOfRecursionPass(d);
    }
    r
  }

  lemma SkeletonOfLoopPass(m: CodeMetadata)
    ensures Skeleton(DetectLoopInvariants(m)) == Skeleton(m)
  {
    var d := DetectLoopInvariants(m);
    assert Skeleton(d).loops == Skeleton(m).loops;
  }

  lemma SkeletonOfRecursionPass(m: CodeMetadata)
    requires RefsValid(m)
    ensures Skeleton(AnalyzeRecursion(m)) == Skeleton(m)
  {
    var r := AnalyzeRecursion(m);
    assert Skeleton(r).recursions == Skeleton(m).recursions;
  }

  /** Base cases are read only from what the heuristics never write. */
  lemma {:induction false} BaseCasesInReadSkeleton(m: CodeMetadata, m': CodeMetadata, cf: seq<FlowEntry>)
    requires Skeleton(m) == Skeleton(m')
    requires forall e :: e in cf ==> ValidRef(m, e)
    ensures forall e :: e in cf ==> ValidRef(m', e)
    ensures BaseCasesIn(m, cf) == BaseCasesIn(m', cf)
  {
    assert |m.loops| == |Skeleton(m).loops| && |m'.loops| == |Skeleton(m').loops|;
    assert |m.recursions| == |Skeleton(m).recursions| && |m'.recursions| == |Skeleton(m').recursions|;
    if |cf| > 0 {
      assert cf[0] in cf;
      if cf[0].LoopEntry? {
        var i := cf[0].loopIndex;
        assert Skeleton(m).loops[i].flow == m.loops[i].flow;
        assert Skeleton(m').loops[i].flow == m'.loops[i].flow;
      } else if cf[0].RecursionEntry? {
        var i := cf[0].recursionIndex;
        assert Skeleton(m).recursions[i].flow == m.recursions[i].flow;
        assert Skeleton(m').recursions[i].flow == m'.recursions[i].flow;
      }
      BaseCasesInReadSkeleton(m, m', cf[1..]);
    }
  }

  lemma DetectLoopIdempotent(loop: LoopInfo)
    ensures DetectLoop(DetectLoop(loop)) == DetectLoop(loop)
  {
  }

  /**
   * Running the heuristics twice gives what running them once gives: every
   * write overwrites, and every written value depends only on fields that
   * are never written.
   */
  lemma ApplyIdempotent(m: CodeMetadata)
    requires RefsValid(m)
    ensures Apply(Apply(m)) == Apply(m)
  {
    var a := Apply(m);
    var d := DetectLoopInvariants(m);
    var d2 := DetectLoopInvariants(a);
    assert a.loops == d.loops;
    assert d2.loops == d.loops by {
      forall i | 0 <= i < |d.loops|
        ensures d2.loops[i] == d.loops[i]
      {
        DetectLoopIdempotent(m.loops[i]);
      }
    }
    assert Skeleton(d2) == Skeleton(m) by {
      SkeletonOfLoopPass(a);
    }
    assert Skeleton(d) == Skeleton(m) by {
      SkeletonOfLoopPass(m);
    }
    BaseCasesInReadSkeleton(d, d2, m.controlFlow);
    assert |a.recursions| == |m.recursions|;
    if |m.recursions| > 0 && |BaseCases(d)| > 0 {
      assert AnalyzeRecursion(d2).recursions == a.recursions;
    }
  }

  /**
   * What the loop pass does to loop `i`: a `for_loop` with a non-empty
   * variable and an iterable containing "range" gets the range template,
   * which mentions the variable; a `while_loop` with a non-empty condition
   * gets the consistency template; every other loop keeps its previous
   * candidate.
   */
  lemma ApplyLoopCandidate(m: CodeMetadata, i: nat)
    requires RefsValid(m) && i < |m.loops|
    ensures var l := m.loops[i];
            var c := Apply(m).loops[i].candidateInvariant;
            && (l.flow.kind == "for_loop" && Truthy(l.loopVariable) && Truthy(l.iterable)
                && Contains(l.iterable.value, "range") ==>
                  c == Some(RangeInvariant(l.loopVariable.value, l.iterable.value))
                  && Contains(c.value, l.loopVariable.value))
            && (l.flow.kind == "for_loop"
                && !(Truthy(l.loopVariable) && Truthy(l.iterable) && Contains(l.iterable.value, "range")) ==>
                  c == l.candidateInvariant)
            && (l.flow.kind == "while_loop" && Truthy(l.flow.condition) ==>
                  c == Some(WhileInvariant(l.flow.condition.value)))
            && (l.flow.kind == "while_loop" && !Truthy(l.flow.condition) ==> c == l.candidateInvariant)
            && (l.flow.kind != "for_loop" && l.flow.kind != "while_loop" ==> c == l.candidateInvariant)
  {
    var l := m.loops[i];
    if l.loopVariable.Some? && l.iterable.Some? {
      RangeInvariantMentions(l.loopVariable.value, l.iterable.value);
    }
  }

  /**
   * What the recursion pass does: nothing without recursions; with base
   * cases, every recursion's `base_case_condition` becomes their non-empty
   * conditions joined by " OR " in `control_flow` order; without base cases,
   * `base_case_condition` is untouched.
   */
  lemma ApplyRecursionBaseCases(m: CodeMetadata)
    requires RefsValid(m)
    ensures |m.recursions| == 0 ==> Apply(m).recursions == m.recursions
    ensures |BaseCases(m)| == 0 ==> Apply(m).recursions == m.recursions
    ensures |BaseCases(m)| > 0 ==>
              forall i :: 0 <= i < |m.recursions| ==>
                Apply(m).recursions[i].baseCaseCondition == Some(Join(" OR ", ConditionsOf(BaseCases(m))))
  {
    var d := DetectLoopInvariants(m);
    SkeletonOfLoopPass(m);
    assert Skeleton(d) == Skeleton(m);
    BaseCasesInReadSkeleton(m, d, m.controlFlow);
  }

  /**
   * The joined text is empty exactly when no base case carries a non-empty
   * condition, and otherwise mentions every such condition.
   */
  lemma BaseCaseTextMeaning(m: CodeMetadata)
    requires RefsValid(m)
    ensures BaseCaseText(m) == "" <==> forall k :: 0 <= k < |BaseCases(m)| ==> !Truthy(BaseCases(m)[k].condition)
    ensures forall k :: 0 <= k < |ConditionsOf(BaseCases(m))| ==>
              Contains(BaseCaseText(m), ConditionsOf(BaseCases(m))[k])
    ensures forall j :: 0 <= j < |m.controlFlow| && IsBaseCase(FlowElement(m, m.controlFlow[j]))
                        && Truthy(FlowElement(m, m.controlFlow[j]).condition) ==>
              Contains(BaseCaseText(m), FlowElement(m, m.controlFlow[j]).condition.value)
  {
    var conds := ConditionsOf(BaseCases(m));
    JoinEmptyIff(" OR ", conds);
    ConditionsOfEmptyIff(BaseCases(m));
    forall k | 0 <= k < |conds|
      ensures Contains(BaseCaseText(m), conds[k])
    {
      JoinContainsEach(" OR ", conds, k);
    }
    forall j | 0 <= j < |m.controlFlow| && IsBaseCase(FlowElement(m, m.controlFlow[j]))
                && Truthy(FlowElement(m, m.controlFlow[j]).condition)
      ensures Contains(BaseCaseText(m), FlowElement(m, m.controlFlow[j]).condition.value)
    {
      var el := FlowElement(m, m.controlFlow[j]);
      var b := BaseCases(m);
      assert el in b;
      var i :| 0 <= i < |b| && b[i] == el;
      assert el.condition.value in conds;
      var c :| 0 <= c < |conds| && conds[c] == el.condition.value;
    }
  }

  lemma {:induction false} ConditionsOfEmptyIff(bcs: seq<ControlFlowElement>)
    ensures |ConditionsOf(bcs)| == 0 <==> forall k :: 0 <= k < |bcs| ==> !Truthy(bcs[k].condition)
  {
    if |bcs| > 0 {
      ConditionsOfEmptyIff(bcs[1..]);
      assert forall k :: 1 <= k < |bcs| ==> bcs[k] == bcs[1..][k - 1];
    }
  }

}
