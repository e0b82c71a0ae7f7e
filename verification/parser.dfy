/**
 * The structural extractor (`PythonParser`): finds the function definition,
 * reads its name and parameters, then walks the tree and records loops,
 * conditionals, recursive calls and assignments into a `CodeMetadata`.
 */
module Parser {
  import opened Options
  import opened Tree
  import opened Models

  const FunctionDefinition: string := "function_definition"

  /** The name recorded when the input holds no function definition. */
  const FallbackName: string := "unknown"

  // ---------------------------------------------------------------------
  // `_find_node`: pre-order search for the first node of a given type.
  // ---------------------------------------------------------------------

  function FindNode(n: Node, t: string): (r: Option<Node>)
    ensures r.Some? ==> r.value.kind == t
    decreases n
  {
    if n.kind == t then Some(n) else FindInChildren(n.children, t)
  }

  function FindInChildren(cs: seq<Node>, t: string): (r: Option<Node>)
    ensures r.Some? ==> r.value.kind == t
    decreases cs
  {
    if |cs| == 0 then None
    else
      var res := FindNode(cs[0], t);
      if res.Some? then res else FindInChildren(cs[1..], t)
  }

  /** Position of the first node of type `t` in `ns`, or -1 when there is none. */
  function FirstOfKind(ns: seq<Node>, t: string): (i: int)
    ensures -1 <= i < |ns|
    ensures i >= 0 ==> ns[i].kind == t
    ensures forall j :: 0 <= j < |ns| && (i < 0 || j < i) ==> ns[j].kind != t
  {
    if |ns| == 0 then -1
    else if ns[0].kind == t then 0
    else
      var k := FirstOfKind(ns[1..], t);
      if k < 0 then -1 else k + 1
  }

  lemma {:induction false} FirstOfKindConcat(a: seq<Node>, b: seq<Node>, t: string)
    ensures FirstOfKind(a + b, t) ==
              if FirstOfKind(a, t) >= 0 then FirstOfKind(a, t)
              else if FirstOfKind(b, t) >= 0 then |a| + FirstOfKind(b, t)
              else -1
  {
    if |a| > 0 {
      assert (a + b)[1..] == a[1..] + b;
      FirstOfKindConcat(a[1..], b, t);
    } else {
      assert a + b == b;
    }
  }

  /**
   * `_find_node` answers the first node of the requested type in pre-order
   * (the node itself, then its children left to right), and nothing exactly
   * when the subtree holds no such node.
   */
  lemma {:induction false} FindNodeIsFirstInPreOrder(n: Node, t: string)
    ensures var i := FirstOfKind(PreOrder(n), t);
            FindNode(n, t) == if i < 0 then None else Some(PreOrder(n)[i])
    ensures FindNode(n, t).None? <==> forall x :: x in PreOrder(n) ==> x.kind != t
    decreases n, 1
  {
    FindInChildrenIsFirst(n.children, t);
    FirstOfKindConcat([n], PreOrderAll(n.children), t);
  }

  lemma {:induction false} FindInChildrenIsFirst(cs: seq<Node>, t: string)
    ensures var i := FirstOfKind(PreOrderAll(cs), t);
            FindInChildren(cs, t) == if i < 0 then None else Some(PreOrderAll(cs)[i])
    decreases cs, 0
  {
    if |cs| > 0 {
      FindNodeIsFirstInPreOrder(cs[0], t);
      FindInChildrenIsFirst(cs[1..], t);
      FirstOfKindConcat(PreOrder(cs[0]), PreOrderAll(cs[1..]), t);
    }
  }

  // ---------------------------------------------------------------------
  // `_extract_args`: parameter names, in order.
  // ---------------------------------------------------------------------

  /** What one child of the parameter list contributes to `args`. */
  function ParamName(c: Node, code: string): seq<string>
  {
    if c.kind == "identifier" then [NodeText(c, code)]
    else if c.kind == "typed_parameter" || c.kind == "default_parameter" then
      match FirstChild(c)
      case Some(first) => [NodeText(first, code)]
      case None => []
    else []
  }

  function ArgNames(cs: seq<Node>, code: string): (r: seq<string>)
    ensures |r| <= |cs|
  {
    if |cs| == 0 then [] else ParamName(cs[0], code) + ArgNames(cs[1..], code)
  }

  function ExtractArgs(params: Option<Node>, code: string): (r: seq<string>)
    ensures params.None? ==> r == []
    ensures params.Some? ==> |r| <= |params.value.children|
  {
    match params
    case None => []
    case Some(p) => ArgNames(p.children, code)
  }

  /** Parameter extraction keeps the children's order: it distributes over concatenation. */
  lemma {:induction false} ArgNamesConcat(a: seq<Node>, b: seq<Node>, code: string)
    ensures ArgNames(a + b, code) == ArgNames(a, code) + ArgNames(b, code)
  {
    if |a| == 0 {
      assert a + b == b;
    } else {
      assert (a + b)[1..] == a[1..] + b;
      ArgNamesConcat(a[1..], b, code);
    }
  }

  /**
   * One child contributes its own text when it is an `identifier`, the text
   * of its first child when it is a `typed_parameter` or `default_parameter`
   * that has children, and nothing otherwise.
   */
  lemma ArgNamesOfOneChild(c: Node, code: string)
    ensures c.kind == "identifier" ==> ArgNames([c], code) == [NodeText(c, code)]
    ensures (c.kind == "typed_parameter" || c.kind == "default_parameter") && |c.children| > 0 ==>
              ArgNames([c], code) == [NodeText(c.children[0], code)]
    ensures c.kind != "identifier" && c.kind != "typed_parameter" && c.kind != "default_parameter" ==>
              ArgNames([c], code) == []
    ensures |c.children| == 0 && c.kind != "identifier" ==> ArgNames([c], code) == []
  {
    assert [c][1..] == [];
  }

  // ---------------------------------------------------------------------
  // `_has_return`.
  // ---------------------------------------------------------------------

  function HasReturn(n: Node): (r: bool)
    ensures r <==> exists x :: x in PreOrder(n) && x.kind == "return_statement"
    decreases n
  {
    n.kind == "return_statement" || AnyHasReturn(n.children)
  }

  function AnyHasReturn(cs: seq<Node>): (r: bool)
    ensures r <==> exists x :: x in PreOrderAll(cs) && x.kind == "return_statement"
    decreases cs
  {
    |cs| > 0 && (HasReturn(cs[0]) || AnyHasReturn(cs[1..]))
  }

  // ---------------------------------------------------------------------
  // The handlers. Each appends to the record; loops and recursions go both
  // to their own list and, by reference, to `control_flow`.
  // ---------------------------------------------------------------------

  predicate IsLoopNode(n: Node)
  {
    n.kind == "for_statement" || n.kind == "while_statement"
  }

  /** A `call` whose callee text equals the function's name, character for character. */
  predicate IsRecursiveCall(n: Node, code: string, name: string)
  {
    n.kind == "call" && Text(FieldChild(n, "function"), code) == name
  }

  /** The `LoopInfo` recorded for a `for_statement` or `while_statement`. */
  function LoopRecord(n: Node, code: string): LoopInfo
  {
    if n.kind == "for_statement" then
      LoopInfo(ControlFlowElement("for_loop", NodeText(n, code), n.startRow, n.endRow),
               loopVariable := Some(Text(FieldChild(n, "left"), code)),
               iterable := Some(Text(FieldChild(n, "right"), code)))
    else
      LoopInfo(ControlFlowElement("while_loop", NodeText(n, code), n.startRow, n.endRow,
                                  Some(Text(FieldChild(n, "condition"), code))))
  }

  /** The element recorded for an `if_statement`. */
  function IfRecord(n: Node, code: string): ControlFlowElement
  {
    ControlFlowElement("if_condition", NodeText(n, code), n.startRow, n.endRow,
                       Some(Text(FieldChild(n, "condition"), code)))
  }

  /** The `RecursionInfo` recorded for a recursive call. */
  function RecursionRecord(n: Node, code: string): RecursionInfo
  {
    RecursionInfo(ControlFlowElement("recursion", NodeText(n, code), n.startRow, n.endRow),
                  recursiveStep := Some(NodeText(n, code)))
  }

  /** The `VariableRole` recorded for an `assignment`. */
  function VariableRecord(n: Node, code: string): VariableRole
  {
    VariableRole(Text(FieldChild(n, "left"), code), "mutated_variable")
  }

  /** Appending to `control_flow` keeps every existing reference listed. */
  lemma ListedExtends(cf: seq<FlowEntry>, more: seq<FlowEntry>)
    ensures forall j :: LoopListed(cf, j) ==> LoopListed(cf + more, j)
    ensures forall j :: RecursionListed(cf, j) ==> RecursionListed(cf + more, j)
  {
    forall j | LoopListed(cf, j)
      ensures LoopListed(cf + more, j)
    {
      var p :| 0 <= p < |cf| && cf[p] == LoopEntry(j);
      assert (cf + more)[p] == LoopEntry(j);
    }
    forall j | RecursionListed(cf, j)
      ensures RecursionListed(cf + more, j)
    {
      var p :| 0 <= p < |cf| && cf[p] == RecursionEntry(j);
      assert (cf + more)[p] == RecursionEntry(j);
    }
  }

  function AddLoop(m: CodeMetadata, loop: LoopInfo): (r: CodeMetadata)
    ensures Aliased(m) ==> Aliased(r)
  {
    var r := m.(loops := m.loops + [loop], controlFlow := m.controlFlow + [LoopEntry(|m.loops|)]);
    assert Aliased(m) ==> LoopListed(r.controlFlow, |m.loops|) by {
      assert r.controlFlow[|m.controlFlow|] == LoopEntry(|m.loops|);
    }
    ListedExtends(m.controlFlow, r.controlFlow[|m.controlFlow|..]);
    assert r.controlFlow == m.controlFlow + r.controlFlow[|m.controlFlow|..];
    r
  }

  function AddRecursion(m: CodeMetadata, rec: RecursionInfo): (r: CodeMetadata)
    ensures Aliased(m) ==> Aliased(r)
  {
    var r := m.(recursions := m.recursions + [rec],
                controlFlow := m.controlFlow + [RecursionEntry(|m.recursions|)]);
    assert Aliased(m) ==> RecursionListed(r.controlFlow, |m.recursions|) by {
      assert r.controlFlow[|m.controlFlow|] == RecursionEntry(|m.recursions|);
    }
    ListedExtends(m.controlFlow, r.controlFlow[|m.controlFlow|..]);
    assert r.controlFlow == m.controlFlow + r.controlFlow[|m.controlFlow|..];
    r
  }

  function AddPlain(m: CodeMetadata, el: ControlFlowElement): (r: CodeMetadata)
    ensures Aliased(m) ==> Aliased(r)
  {
    var r := m.(controlFlow := m.controlFlow + [Plain(el)]);
    ListedExtends(m.controlFlow, r.controlFlow[|m.controlFlow|..]);
    assert r.controlFlow == m.controlFlow + r.controlFlow[|m.controlFlow|..];
    r
  }

  function HandleForLoop(n: Node, code: string, m: CodeMetadata): CodeMetadata
    requires n.kind == "for_statement"
  {
    AddLoop(m, LoopRecord(n, code))
  }

  function HandleWhileLoop(n: Node, code: string, m: CodeMetadata): CodeMetadata
    requires n.kind == "while_statement"
  {
    AddLoop(m, LoopRecord(n, code))
  }

  /**
   * `_handle_if`. The source also computes whether the consequence holds a
   * `return` (`HasReturn`), but that flag changes nothing in the record.
   */
  function HandleIf(n: Node, code: string, m: CodeMetadata): CodeMetadata
  {
    AddPlain(m, IfRecord(n, code))
  }

  function HandleCall(n: Node, code: string, m: CodeMetadata): CodeMetadata
  {
    if Text(FieldChild(n, "function"), code) == m.functionName then AddRecursion(m, RecursionRecord(n, code))
    else m
  }

  function HandleAssignment(n: Node, code: string, m: CodeMetadata): CodeMetadata
  {
    m.(variables := m.variables + [VariableRecord(n, code)])
  }

  /**
   * The dispatch at the head of `_traverse`: at most one handler runs, chosen
   * by the node's type, and it only ever appends.
   */
  function Dispatch(n: Node, code: string, m: CodeMetadata): (r: CodeMetadata)
    ensures r.functionName == m.functionName && r.args == m.args && r.rawCode == m.rawCode
    ensures Aliased(m) ==> Aliased(r)
    ensures r.loops == m.loops + (if IsLoopNode(n) then [LoopRecord(n, code)] else [])
    ensures r.recursions ==
              m.recursions + (if IsRecursiveCall(n, code, m.functionName) then [RecursionRecord(n, code)] else [])
    ensures r.variables == m.variables + (if n.kind == "assignment" then [VariableRecord(n, code)] else [])
    ensures |r.controlFlow| == |m.controlFlow| +
              (if IsLoopNode(n) || n.kind == "if_statement" || IsRecursiveCall(n, code, m.functionName) then 1 else 0)
    ensures r.controlFlow[..|m.controlFlow|] == m.controlFlow
  {
    if n.kind == "for_statement" then HandleForLoop(n, code, m)
    else if n.kind == "while_statement" then HandleWhileLoop(n, code, m)
    else if n.kind == "if_statement" then HandleIf(n, code, m)
    else if n.kind == "call" then HandleCall(n, code, m)
    else if n.kind == "assignment" then HandleAssignment(n, code, m)
    else m
  }

  /**
   * A `call` records a recursion exactly when the text of its "function"
   * field equals the function's name; the recursion's step is the call's
   * own text, and it is also appended to `control_flow`.
   */
  lemma CallRecordsRecursionIff(n: Node, code: string, m: CodeMetadata)
    requires n.kind == "call"
    ensures var r := Dispatch(n, code, m);
            && (|r.recursions| == |m.recursions| + 1 <==> Text(FieldChild(n, "function"), code) == m.functionName)
            && (|r.recursions| == |m.recursions| <==> Text(FieldChild(n, "function"), code) != m.functionName)
            && (|r.recursions| > |m.recursions| ==>
                  r.recursions[|m.recursions|].recursiveStep == Some(NodeText(n, code))
                  && |r.controlFlow| == |m.controlFlow| + 1)
            && r.loops == m.loops && r.variables == m.variables
  {
  }

  /**
   * An `assignment` adds exactly one variable, named by the text of its
   * "left" field ("" when that field is absent) with role
   * "mutated_variable", and adds nothing to the loops, the recursions or
   * `control_flow`.
   */
  lemma AssignmentAddsOneVariable(n: Node, code: string, m: CodeMetadata)
    requires n.kind == "assignment"
    ensures var r := Dispatch(n, code, m);
            && |r.variables| == |m.variables| + 1
            && r.variables[..|m.variables|] == m.variables
            && r.variables[|m.variables|].role == "mutated_variable"
            && (FieldChild(n, "left").None? ==> r.variables[|m.variables|].name == "")
            && (FieldChild(n, "left").Some? ==>
                  r.variables[|m.variables|].name == NodeText(FieldChild(n, "left").value, code))
            && r.loops == m.loops && r.recursions == m.recursions && |r.controlFlow| == |m.controlFlow|
  {
  }

  // ---------------------------------------------------------------------
  // `_traverse`: dispatch on the node, then recurse into every child.
  // ---------------------------------------------------------------------

  function Traverse(n: Node, code: string, m: CodeMetadata): (r: CodeMetadata)
    ensures r.functionName == m.functionName && r.args == m.args && r.rawCode == m.rawCode
    ensures Aliased(m) ==> Aliased(r)
    decreases n
  {
    TraverseAll(n.children, code, Dispatch(n, code, m))
  }

  function TraverseAll(cs: seq<Node>, code: string, m: CodeMetadata): (r: CodeMetadata)
    ensures r.functionName == m.functionName && r.args == m.args && r.rawCode == m.rawCode
    ensures Aliased(m) ==> Aliased(r)
    decreases cs
  {
    if |cs| == 0 then m else TraverseAll(cs[1..], code, Traverse(cs[0], code, m))
  }

  /** Reference semantics of the traversal: the dispatch applied to a list of nodes in order. */
  function Collect(ns: seq<Node>, code: string, m: CodeMetadata): CodeMetadata
  {
    if |ns| == 0 then m else Collect(ns[1..], code, Dispatch(ns[0], code, m))
  }

  lemma {:induction false} CollectConcat(a: seq<Node>, b: seq<Node>, code: string, m: CodeMetadata)
    ensures Collect(a + b, code, m) == Collect(b, code, Collect(a, code, m))
  {
    if |a| == 0 {
      assert a + b == b;
    } else {
      assert (a + b)[1..] == a[1..] + b;
      CollectConcat(a[1..], b, code, Dispatch(a[0], code, m));
    }
  }

  /**
   * The recursive walk visits every node of the subtree exactly once, in
   * pre-order, dispatching at each: it equals the dispatch folded over
   * `PreOrder(n)`.
   */
  lemma {:induction false} TraverseIsPreOrderFold(n: Node, code: string, m: CodeMetadata)
    ensures Traverse(n, code, m) == Collect(PreOrder(n), code, m)
    decreases n, 1
  {
    TraverseAllIsPreOrderFold(n.children, code, Dispatch(n, code, m));
    assert PreOrder(n)[1..] == PreOrderAll(n.children);
  }

  lemma {:induction false} TraverseAllIsPreOrderFold(cs: seq<Node>, code: string, m: CodeMetadata)
    ensures TraverseAll(cs, code, m) == Collect(PreOrderAll(cs), code, m)
    decreases cs, 0
  {
    if |cs| > 0 {
      TraverseIsPreOrderFold(cs[0], code, m);
      TraverseAllIsPreOrderFold(cs[1..], code, Traverse(cs[0], code, m));
      CollectConcat(PreOrder(cs[0]), PreOrderAll(cs[1..]), code, m);
    }
  }

  // ---------------------------------------------------------------------
  // What the traversal records, stated over the pre-order node list.
  // ---------------------------------------------------------------------

  /** The node classes whose members the extractor records. */
  datatype NodeClass = Loops | Ifs | Assignments | RecursiveCallsTo(code: string, name: string)

  predicate InClass(n: Node, c: NodeClass)
  {
    match c
    case Loops => IsLoopNode(n)
    case Ifs => n.kind == "if_statement"
    case Assignments => n.kind == "assignment"
    case RecursiveCallsTo(code, name) => IsRecursiveCall(n, code, name)
  }

  function Count(ns: seq<Node>, c: NodeClass): nat
  {
    if |ns| == 0 then 0 else (if InClass(ns[0], c) then 1 else 0) + Count(ns[1..], c)
  }

  /** The loops recorded for `ns`, one per loop node, in order. */
  function LoopsOf(ns: seq<Node>, code: string): (r: seq<LoopInfo>)
    ensures |r| == Count(ns, Loops)
  {
    if |ns| == 0 then []
    else (if IsLoopNode(ns[0]) then [LoopRecord(ns[0], code)] else []) + LoopsOf(ns[1..], code)
  }

  /** The recursions recorded for `ns`, one per call of `name`, in order. */
  function RecursionsOf(ns: seq<Node>, code: string, name: string): (r: seq<RecursionInfo>)
    ensures |r| == Count(ns, RecursiveCallsTo(code, name))
  {
    if |ns| == 0 then []
    else (if IsRecursiveCall(ns[0], code, name) then [RecursionRecord(ns[0], code)] else [])
         + RecursionsOf(ns[1..], code, name)
  }

  /** The variables recorded for `ns`, one per assignment, in order. */
  function VariablesOf(ns: seq<Node>, code: string): (r: seq<VariableRole>)
    ensures |r| == Count(ns, Assignments)
  {
    if |ns| == 0 then []
    else (if ns[0].kind == "assignment" then [VariableRecord(ns[0], code)] else []) + VariablesOf(ns[1..], code)
  }

  /** The conditionals stored inline in a control-flow list, in order. */
  function PlainElements(cf: seq<FlowEntry>): seq<ControlFlowElement>
  {
    if |cf| == 0 then [] else PlainElements(cf[..|cf| - 1]) + (if cf[|cf| - 1].Plain? then [cf[|cf| - 1].element] else [])
  }

  /** The conditionals recorded for `ns`, one per `if_statement`, in order. */
  function IfsOf(ns: seq<Node>, code: string): (r: seq<ControlFlowElement>)
    ensures |r| == Count(ns, Ifs)
  {
    if |ns| == 0 then []
    else (if ns[0].kind == "if_statement" then [IfRecord(ns[0], code)] else []) + IfsOf(ns[1..], code)
  }

  /**
   * The `control_flow` entries one node contributes when `loops` loops and
   * `recs` recursions were recorded before it: a reference to the loop or
   * recursion it records, or its `if` element inline.
   */
  function FlowStep(n: Node, code: string, name: string, loops: nat, recs: nat): seq<FlowEntry>
  {
    if IsLoopNode(n) then [LoopEntry(loops)]
    else if n.kind == "if_statement" then [Plain(IfRecord(n, code))]
    else if IsRecursiveCall(n, code, name) then [RecursionEntry(recs)]
    else []
  }

  /**
   * The `control_flow` recorded for `ns` after `loops` loops and `recs`
   * recursions: the entries of the nodes in order, each loop and recursion
   * referenced by the position it takes in its own list.
   */
  function FlowOf(ns: seq<Node>, code: string, name: string, loops: nat, recs: nat): (r: seq<FlowEntry>)
    ensures |r| == Count(ns, Loops) + Count(ns, Ifs) + Count(ns, RecursiveCallsTo(code, name))
  {
    if |ns| == 0 then []
    else
      FlowStep(ns[0], code, name, loops, recs)
      + FlowOf(ns[1..], code, name,
               loops + (if IsLoopNode(ns[0]) then 1 else 0),
               recs + (if IsRecursiveCall(ns[0], code, name) then 1 else 0))
  }

  lemma PlainElementsSnoc(cf: seq<FlowEntry>, more: seq<FlowEntry>)
    requires |more| <= 1
    ensures PlainElements(cf + more) ==
              PlainElements(cf) + (if |more| == 1 && more[0].Plain? then [more[0].element] else [])
  {
    if |more| == 1 {
      assert (cf + more)[..|cf + more| - 1] == cf;
    } else {
      assert cf + more == cf;
    }
  }

  lemma {:induction false} CollectKeepsHeader(ns: seq<Node>, code: string, m: CodeMetadata)
    ensures var r := Collect(ns, code, m);
            r.functionName == m.functionName && r.args == m.args && r.rawCode == m.rawCode
            && (Aliased(m) ==> Aliased(r))
  {
    if |ns| > 0 {
      CollectKeepsHeader(ns[1..], code, Dispatch(ns[0], code, m));
    }
  }

  lemma {:induction false} CollectLoops(ns: seq<Node>, code: string, m: CodeMetadata)
    ensures Collect(ns, code, m).loops == m.loops + LoopsOf(ns, code)
  {
    if |ns| > 0 {
      var d := Dispatch(ns[0], code, m);
      var here := if IsLoopNode(ns[0]) then [LoopRecord(ns[0], code)] else [];
      var rest := LoopsOf(ns[1..], code);
      calc {
        Collect(ns, code, m).loops;
        Collect(ns[1..], code, d).loops;
        { CollectLoops(ns[1..], code, d); }
        d.loops + rest;
        m.loops + here + rest;
        m.loops + (here + rest);
        m.loops + LoopsOf(ns, code);
      }
    }
  }

  lemma {:induction false} CollectRecursions(ns: seq<Node>, code: string, m: CodeMetadata)
    ensures Collect(ns, code, m).recursions == m.recursions + RecursionsOf(ns, code, m.functionName)
  {
    if |ns| > 0 {
      var d := Dispatch(ns[0], code, m);
      var here := if IsRecursiveCall(ns[0], code, m.functionName) then [RecursionRecord(ns[0], code)] else [];
      var rest := RecursionsOf(ns[1..], code, m.functionName);
      assert d.functionName == m.functionName;
      calc {
        Collect(ns, code, m).recursions;
        Collect(ns[1..], code, d).recursions;
        { CollectRecursions(ns[1..], code, d); }
        d.recursions + rest;
        m.recursions + here + rest;
        m.recursions + (here + rest);
        m.recursions + RecursionsOf(ns, code, m.functionName);
      }
    }
  }

  lemma {:induction false} CollectVariables(ns: seq<Node>, code: string, m: CodeMetadata)
    ensures Collect(ns, code, m).variables == m.variables + VariablesOf(ns, code)
  {
    if |ns| > 0 {
      var d := Dispatch(ns[0], code, m);
      var here := if ns[0].kind == "assignment" then [VariableRecord(ns[0], code)] else [];
      var rest := VariablesOf(ns[1..], code);
      calc {
        Collect(ns, code, m).variables;
        Collect(ns[1..], code, d).variables;
        { CollectVariables(ns[1..], code, d); }
        d.variables + rest;
        m.variables + here + rest;
        m.variables + (here + rest);
        m.variables + VariablesOf(ns, code);
      }
    }
  }

  /** Only an `if_statement` adds an inline element to `control_flow`. */
  lemma DispatchIfs(n: Node, code: string, m: CodeMetadata)
    ensures PlainElements(Dispatch(n, code, m).controlFlow) ==
              PlainElements(m.controlFlow) + (if n.kind == "if_statement" then [IfRecord(n, code)] else [])
  {
    var d := Dispatch(n, code, m);
    var added := d.controlFlow[|m.controlFlow|..];
    assert d.controlFlow == m.controlFlow + added;
    PlainElementsSnoc(m.controlFlow, added);
    if n.kind == "if_statement" {
      assert added == [Plain(IfRecord(n, code))];
    } else if |added| == 1 {
      assert !added[0].Plain?;
    }
  }

  lemma {:induction false} CollectIfs(ns: seq<Node>, code: string, m: CodeMetadata)
    ensures PlainElements(Collect(ns, code, m).controlFlow) == PlainElements(m.controlFlow) + IfsOf(ns, code)
  {
    if |ns| > 0 {
      var d := Dispatch(ns[0], code, m);
      var here := if ns[0].kind == "if_statement" then [IfRecord(ns[0], code)] else [];
      var rest := IfsOf(ns[1..], code);
      calc {
        PlainElements(Collect(ns, code, m).controlFlow);
        PlainElements(Collect(ns[1..], code, d).controlFlow);
        { CollectIfs(ns[1..], code, d); }
        PlainElements(d.controlFlow) + rest;
        { DispatchIfs(ns[0], code, m); }
        PlainElements(m.controlFlow) + here + rest;
        PlainElements(m.controlFlow) + (here + rest);
        PlainElements(m.controlFlow) + IfsOf(ns, code);
      }
    }
  }

  /** One dispatch appends exactly the node's `FlowStep`, numbered after the loops and recursions so far. */
  lemma DispatchFlow(n: Node, code: string, m: CodeMetadata)
    ensures Dispatch(n, code, m).controlFlow == m.controlFlow + FlowStep(n, code, m.functionName, |m.loops|, |m.recursions|)
  {
  }

  /**
   * The traversal appends to `control_flow` exactly `FlowOf` the nodes: the
   * loop, `if` and recursion entries interleaved in pre-order.
   */
  lemma {:induction false} CollectFlow(ns: seq<Node>, code: string, m: CodeMetadata)
    ensures Collect(ns, code, m).controlFlow == m.controlFlow + FlowOf(ns, code, m.functionName, |m.loops|, |m.recursions|)
  {
    if |ns| > 0 {
      var name := m.functionName;
      var d := Dispatch(ns[0], code, m);
      var here := FlowStep(ns[0], code, name, |m.loops|, |m.recursions|);
      var rest := FlowOf(ns[1..], code, name, |d.loops|, |d.recursions|);
      DispatchFlow(ns[0], code, m);
      CollectFlow(ns[1..], code, d);
      FlowOfCons(ns, code, name, |m.loops|, |m.recursions|, |d.loops|, |d.recursions|);
      assert Collect(ns, code, m) == Collect(ns[1..], code, d);
      assert m.controlFlow + here + rest == m.controlFlow + (here + rest);
    }
  }

  /** Unfolding `FlowOf` once, with the counters the head node leaves behind. */
  lemma FlowOfCons(ns: seq<Node>, code: string, name: string, loops: nat, recs: nat, loops': nat, recs': nat)
    requires |ns| > 0
    requires loops' == loops + (if IsLoopNode(ns[0]) then 1 else 0)
    requires recs' == recs + (if IsRecursiveCall(ns[0], code, name) then 1 else 0)
    ensures FlowOf(ns, code, name, loops, recs) == FlowStep(ns[0], code, name, loops, recs) + FlowOf(ns[1..], code, name, loops', recs')
  {
  }

  lemma {:induction false} CollectFlowLength(ns: seq<Node>, code: string, m: CodeMetadata)
    ensures |Collect(ns, code, m).controlFlow| ==
              |m.controlFlow| + Count(ns, Loops) + Count(ns, Ifs) + Count(ns, RecursiveCallsTo(code, m.functionName))
  {
    if |ns| > 0 {
      CollectFlowLength(ns[1..], code, Dispatch(ns[0], code, m));
    }
  }

  // ---------------------------------------------------------------------
  // `parse`.
  // ---------------------------------------------------------------------

  /** Where the traversal starts: the first function definition, or the whole tree when there is none. */
  function TraversalRoot(tree: Node): Node
  {
    match FindNode(tree, FunctionDefinition)
    case Some(f) => f
    case None => tree
  }

  function Parse(tree: Node, code: string): (m: CodeMetadata)
    ensures m.rawCode == code
    ensures Aliased(m)
    ensures FindNode(tree, FunctionDefinition).None? ==> m.functionName == FallbackName && m.args == []
  {
    var found := FindNode(tree, FunctionDefinition);
    var name := if found.None? then FallbackName else Text(FieldChild(found.value, "name"), code);
    var args := if found.None? then [] else ExtractArgs(FieldChild(found.value, "parameters"), code);
    Traverse(TraversalRoot(tree), code, NewMetadata(name, args, code))
  }

  /**
   * Without any `function_definition` node, parsing does not fail: the name
   * is "unknown", there are no arguments, and the whole tree is traversed.
   */
  lemma ParseFallback(tree: Node, code: string)
    requires forall x :: x in PreOrder(tree) ==> x.kind != FunctionDefinition
    ensures Parse(tree, code).functionName == "unknown"
    ensures Parse(tree, code).args == []
    ensures TraversalRoot(tree) == tree
  {
    FindNodeIsFirstInPreOrder(tree, FunctionDefinition);
  }

  /** With a function definition, its name and parameters come from its "name" and "parameters" fields. */
  lemma ParseNamesDefinition(tree: Node, code: string)
    requires FindNode(tree, FunctionDefinition).Some?
    ensures var f := FindNode(tree, FunctionDefinition).value;
            && Parse(tree, code).functionName == Text(FieldChild(f, "name"), code)
            && Parse(tree, code).args == ExtractArgs(FieldChild(f, "parameters"), code)
            && TraversalRoot(tree) == f
  {
  }

  /** Parsing folds the dispatch over the traversed subtree in pre-order, from a fresh record. */
  lemma ParseIsCollect(tree: Node, code: string)
    ensures var m := Parse(tree, code);
            m == Collect(PreOrder(TraversalRoot(tree)), code, NewMetadata(m.functionName, m.args, code))
  {
    var found := FindNode(tree, FunctionDefinition);
    var name := if found.None? then FallbackName else Text(FieldChild(found.value, "name"), code);
    var args := if found.None? then [] else ExtractArgs(FieldChild(found.value, "parameters"), code);
    var m0 := NewMetadata(name, args, code);
    TraverseIsPreOrderFold(TraversalRoot(tree), code, m0);
    CollectKeepsHeader(PreOrder(TraversalRoot(tree)), code, m0);
  }

  /**
   * What parsing records, node by node of the traversed subtree in
   * pre-order: one loop per `for`/`while`, one recursion per call whose
   * callee text equals the function name, one variable per assignment, one
   * inline conditional per `if`; so `control_flow` has exactly
   * `len(loops) + len(recursions) + #if` entries.
   */
  lemma ParseRecords(tree: Node, code: string)
    ensures var m := Parse(tree, code);
            var ns := PreOrder(TraversalRoot(tree));
            && m.loops == LoopsOf(ns, code)
            && m.recursions == RecursionsOf(ns, code, m.functionName)
            && m.variables == VariablesOf(ns, code)
            && PlainElements(m.controlFlow) == IfsOf(ns, code)
            && m.controlFlow == FlowOf(ns, code, m.functionName, 0, 0)
            && |m.loops| == Count(ns, Loops)
            && |m.recursions| == Count(ns, RecursiveCallsTo(code, m.functionName))
            && |m.variables| == Count(ns, Assignments)
            && |m.controlFlow| == |m.loops| + |m.recursions| + Count(ns, Ifs)
  {
    ParseLists(tree, code);
    ParseFlow(tree, code);
  }

  /** The loops, recursions, variables and inline conditionals of `ParseRecords`. */
  lemma ParseLists(tree: Node, code: string)
    ensures var m := Parse(tree, code);
            var ns := PreOrder(TraversalRoot(tree));
            && m.loops == LoopsOf(ns, code)
            && m.recursions == RecursionsOf(ns, code, m.functionName)
            && m.variables == VariablesOf(ns, code)
            && PlainElements(m.controlFlow) == IfsOf(ns, code)
  {
    var m := Parse(tree, code);
    var m0 := NewMetadata(m.functionName, m.args, code);
    var ns := PreOrder(TraversalRoot(tree));
    ParseIsCollect(tree, code);
    CollectLoops(ns, code, m0);
    CollectRecursions(ns, code, m0);
    CollectVariables(ns, code, m0);
    CollectIfs(ns, code, m0);
  }

  /** The `control_flow` of `ParseRecords`: its entries and their number. */
  lemma ParseFlow(tree: Node, code: string)
    ensures var m := Parse(tree, code);
            var ns := PreOrder(TraversalRoot(tree));
            && m.controlFlow == FlowOf(ns, code, m.functionName, 0, 0)
            && |m.controlFlow| == Count(ns, Loops) + Count(ns, RecursiveCallsTo(code, m.functionName)) + Count(ns, Ifs)
  {
    var m := Parse(tree, code);
    var m0 := NewMetadata(m.functionName, m.args, code);
    var ns := PreOrder(TraversalRoot(tree));
    ParseIsCollect(tree, code);
    CollectFlow(ns, code, m0);
  }

  /** The call `unknown()`: "function" is the identifier `unknown`, "arguments" an empty argument list. */
  function UnknownCall(): Node
  {
    var callee := Node("identifier", [], map[], 0, 7, 0, 0);
    var arguments := Node("argument_list", [], map[], 7, 9, 0, 0);
    Node("call", [callee, arguments], map["function" := 0, "arguments" := 1], 0, 9, 0, 0)
  }

  /** The tree of the source "unknown()": a module holding one expression statement, that call. */
  function UnknownCallTree(): Node
  {
    Node("module", [Node("expression_statement", [UnknownCall()], map[], 0, 9, 0, 0)], map[], 0, 9, 0, 0)
  }

  /** A search for a type absent from a one-child node's kind reduces to the child. */
  lemma FindThroughOnlyChild(n: Node, t: string)
    requires |n.children| == 1 && n.kind != t
    ensures FindNode(n, t) == FindNode(n.children[0], t)
  {
    var c := n.children[0];
    assert n.children[1..] == [];
    assert FindInChildren(n.children[1..], t) == None;
    assert FindInChildren(n.children, t) == FindNode(c, t);
  }

  lemma UnknownCallTreeHasNoDefinition()
    ensures FindNode(UnknownCallTree(), FunctionDefinition) == None
  {
    var tree := UnknownCallTree();
    var statement := tree.children[0];
    var call := UnknownCall();
    var callee := call.children[0];
    var arguments := call.children[1];
    assert FindNode(callee, FunctionDefinition) == None;
    assert FindNode(arguments, FunctionDefinition) == None;
    assert FindInChildren([arguments], FunctionDefinition) == None by { assert [arguments][1..] == []; }
    assert FindInChildren(call.children, FunctionDefinition) == None by {
      assert call.children[1..] == [arguments];
    }
    assert FindNode(call, FunctionDefinition) == None;
    FindThroughOnlyChild(statement, FunctionDefinition);
    FindThroughOnlyChild(tree, FunctionDefinition);
  }

  lemma UnknownCallIsRecursive()
    ensures IsRecursiveCall(UnknownCall(), "unknown()", FallbackName)
  {
    var code := "unknown()";
    var call := UnknownCall();
    var callee := call.children[0];
    NodeTextAsciiAgrees(callee, code);
    assert FieldChild(call, "function") == Some(callee);
  }

  /** A node that no handler matches passes the record on to its only child. */
  lemma TraverseThroughUnhandled(n: Node, code: string, m: CodeMetadata)
    requires |n.children| == 1
    requires n.kind !in {"for_statement", "while_statement", "if_statement", "call", "assignment"}
    ensures Traverse(n, code, m) == Traverse(n.children[0], code, m)
  {
    assert Dispatch(n, code, m) == m;
    assert n.children[1..] == [];
    assert TraverseAll(n.children, code, m) == TraverseAll([], code, Traverse(n.children[0], code, m));
  }

  /** A leaf records only what its own dispatch records. */
  lemma TraverseLeaf(n: Node, code: string, m: CodeMetadata)
    requires |n.children| == 0
    ensures Traverse(n, code, m) == Dispatch(n, code, m)
  {
  }

  /** A node whose two children are unhandled leaves records only what its own dispatch records. */
  lemma TraverseOverUnhandledLeaves(n: Node, code: string, m: CodeMetadata)
    requires |n.children| == 2
    requires |n.children[0].children| == 0 && |n.children[1].children| == 0
    requires n.children[0].kind !in {"for_statement", "while_statement", "if_statement", "call", "assignment"}
    requires n.children[1].kind !in {"for_statement", "while_statement", "if_statement", "call", "assignment"}
    ensures Traverse(n, code, m) == Dispatch(n, code, m)
  {
    var d := Dispatch(n, code, m);
    var c0 := n.children[0];
    var c1 := n.children[1];
    TraverseLeaf(c0, code, d);
    assert Dispatch(c0, code, d) == d;
    TraverseLeaf(c1, code, d);
    assert Dispatch(c1, code, d) == d;
    assert n.children[1..][1..] == [];
    assert TraverseAll(n.children[1..], code, d) == d;
  }

  /** Neither the module nor the expression statement records anything: the walk reaches the call. */
  lemma UnknownCallTreeReachesCall(code: string, m: CodeMetadata)
    ensures Traverse(UnknownCallTree(), code, m) == Traverse(UnknownCall(), code, m)
  {
    var tree := UnknownCallTree();
    var statement := tree.children[0];
    TraverseThroughUnhandled(tree, code, m);
    TraverseThroughUnhandled(statement, code, m);
  }

  /** The call's two children are unhandled leaves: walking the call is dispatching on it. */
  lemma UnknownCallTraversal(code: string, m: CodeMetadata)
    ensures Traverse(UnknownCall(), code, m) == Dispatch(UnknownCall(), code, m)
  {
    var call := UnknownCall();
    assert call.children[0].kind == "identifier" && call.children[1].kind == "argument_list";
    TraverseOverUnhandledLeaves(call, code, m);
  }

  lemma UnknownCallTreeTraversal(m0: CodeMetadata)
    requires m0.functionName == FallbackName && |m0.recursions| == 0
    ensures |Traverse(UnknownCallTree(), "unknown()", m0).recursions| == 1
  {
    var code := "unknown()";
    UnknownCallTreeReachesCall(code, m0);
    UnknownCallTraversal(code, m0);
    UnknownCallIsRecursive();
    assert Dispatch(UnknownCall(), code, m0).recursions == m0.recursions + [RecursionRecord(UnknownCall(), code)];
  }

  /**
   * The name test is plain text equality, so in the fallback case a call to
   * a function literally named `unknown` counts as recursion.
   */
  lemma CallToUnknownCountsAsRecursion()
    ensures Parse(UnknownCallTree(), "unknown()").functionName == "unknown"
    ensures |Parse(UnknownCallTree(), "unknown()").recursions| == 1
  {
    UnknownCallTreeHasNoDefinition();
    UnknownCallTreeTraversal(NewMetadata(FallbackName, [], "unknown()"));
  }

}
