/**
 * The records shared by the extractor, the heuristics and the verification
 * engine, with the source's defaults written as default constructor values.
 */
module Models {
  import opened Options

  /** A variable and the role the extractor gives it ("mutated_variable" for every assignment target). */
  datatype VariableRole = VariableRole(name: string, role: string, extractedSource: Option<string> := None)

  /**
   * Anything found in the function body. `kind` is the source's `type`
   * string: "for_loop", "while_loop", "if_condition" or "recursion".
   * Rows are 0-based.
   */
  datatype ControlFlowElement = ControlFlowElement(
    kind: string,
    source: string,
    lineStart: int,
    lineEnd: int,
    condition: Option<string> := None)

  /** A loop: the common element fields plus the loop-specific ones. */
  datatype LoopInfo = LoopInfo(
    flow: ControlFlowElement,
    loopVariable: Option<string> := None,
    iterable: Option<string> := None,
    candidateInvariant: Option<string> := None)

  /** A recursive call: the common element fields plus the recursion-specific ones. */
  datatype RecursionInfo = RecursionInfo(
    flow: ControlFlowElement,
    baseCaseCondition: Option<string> := None,
    recursiveStep: Option<string> := None)

  /**
   * One entry of `control_flow`. A loop or recursion is the SAME object in
   * its own list and in `control_flow`, so its entry here is a reference by
   * position into `loops` or `recursions`; a conditional lives only here.
   */
  datatype FlowEntry =
    | Plain(element: ControlFlowElement)
    | LoopEntry(loopIndex: nat)
    | RecursionEntry(recursionIndex: nat)

  /** The structural summary of one analysed function. */
  datatype CodeMetadata = CodeMetadata(
    functionName: string,
    args: seq<string>,
    controlFlow: seq<FlowEntry> := [],
    loops: seq<LoopInfo> := [],
    recursions: seq<RecursionInfo> := [],
    variables: seq<VariableRole> := [],
    rawCode: string)

  /** The verdict of one verification run. */
  datatype VerificationResult = VerificationResult(
    verified: bool,
    output: string,
    counterExample: Option<string> := None,
    failureReason: Option<string> := None,
    numTests: int := 0)

  /** The loop listed as the `j`-th loop appears somewhere in `cf`. */
  predicate LoopListed(cf: seq<FlowEntry>, j: nat)
  {
    exists p :: 0 <= p < |cf| && cf[p] == LoopEntry(j)
  }

  /** The recursion listed as the `j`-th recursion appears somewhere in `cf`. */
  predicate RecursionListed(cf: seq<FlowEntry>, j: nat)
  {
    exists p :: 0 <= p < |cf| && cf[p] == RecursionEntry(j)
  }

  /**
   * `loops` and `recursions` are views of `control_flow`: every reference
   * points into its list, every loop and every recursion is referenced, and
   * references occur in list order (so none is referenced twice).
   */
  predicate Aliased(m: CodeMetadata)
  {
    var cf := m.controlFlow;
    && (forall p :: 0 <= p < |cf| && cf[p].LoopEntry? ==> cf[p].loopIndex < |m.loops|)
    && (forall p :: 0 <= p < |cf| && cf[p].RecursionEntry? ==> cf[p].recursionIndex < |m.recursions|)
    && (forall j :: 0 <= j < |m.loops| ==> LoopListed(cf, j))
    && (forall j :: 0 <= j < |m.recursions| ==> RecursionListed(cf, j))
    && (forall p, q :: 0 <= p < q < |cf| && cf[p].LoopEntry? && cf[q].LoopEntry? ==>
          cf[p].loopIndex < cf[q].loopIndex)
    && (forall p, q :: 0 <= p < q < |cf| && cf[p].RecursionEntry? && cf[q].RecursionEntry? ==>
          cf[p].recursionIndex < cf[q].recursionIndex)
  }

  /** Every reference in `control_flow` points at an existing loop or recursion. */
  predicate RefsValid(m: CodeMetadata)
  {
    forall e :: e in m.controlFlow ==> ValidRef(m, e)
  }

  predicate ValidRef(m: CodeMetadata, e: FlowEntry)
  {
    match e
    case Plain(_) => true
    case LoopEntry(i) => i < |m.loops|
    case RecursionEntry(i) => i < |m.recursions|
  }

  /** The element an entry of `control_flow` stands for. */
  function FlowElement(m: CodeMetadata, e: FlowEntry): ControlFlowElement
    requires ValidRef(m, e)
  {
    match e
    case Plain(el) => el
    case LoopEntry(i) => m.loops[i].flow
    case RecursionEntry(i) => m.recursions[i].flow
  }

  /**
   * Every loop and every recursion of an aliased record is referenced exactly
   * once from `control_flow`.
   */
  lemma AliasedListsOnce(m: CodeMetadata, j: nat)
    requires Aliased(m)
    ensures RefsValid(m)
    ensures j < |m.loops| ==> exists p :: 0 <= p < |m.controlFlow| && m.controlFlow[p] == LoopEntry(j)
    ensures forall p, q ::
              (0 <= p < |m.controlFlow| && 0 <= q < |m.controlFlow| &&
               m.controlFlow[p] == LoopEntry(j) && m.controlFlow[q] == LoopEntry(j)) ==> p == q
    ensures j < |m.recursions| ==> exists p :: 0 <= p < |m.controlFlow| && m.controlFlow[p] == RecursionEntry(j)
    ensures forall p, q ::
              (0 <= p < |m.controlFlow| && 0 <= q < |m.controlFlow| &&
               m.controlFlow[p] == RecursionEntry(j) && m.controlFlow[q] == RecursionEntry(j)) ==> p == q
  {
    if j < |m.loops| {
      assert LoopListed(m.controlFlow, j);
    }
    if j < |m.recursions| {
      assert RecursionListed(m.controlFlow, j);
    }
  }

  /** A fresh record, as `CodeMetadata(function_name=..., args=..., raw_code=...)` builds it. */
  function NewMetadata(name: string, args: seq<string>, code: string): (m: CodeMetadata)
    ensures m.functionName == name && m.args == args && m.rawCode == code
    ensures m.controlFlow == [] && m.loops == [] && m.recursions == [] && m.variables == []
    ensures Aliased(m)
  {
    CodeMetadata(name, args, rawCode := code)
  }

}
