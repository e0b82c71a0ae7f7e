# Verifex core in Dafny

A Dafny model of the analysis core of Verifex, a backend that explains Python functions and checks
invariants on them. The model covers four pieces:

- **The structural extractor** (`PythonParser`). It walks a tree-sitter syntax tree of the user's
  code and fills a `CodeMetadata` record with the function's name and arguments, its loops, its
  recursive calls, its `if` conditions and its assignment targets.
- **The heuristics** (`HeuristicsEngine`). They write loop-invariant candidates and recursion
  base-case conditions into that record.
- **The verification engine's text logic** (`VerificationEngine`). It builds the Hypothesis test
  script, scans the script's output for a counterexample and a failure reason, and classifies the
  run into a verdict.
- **The pipeline** (`CodeAnalyzer.analyze`): parse, then apply the heuristics.

Modules, one per file:

| file | module | models |
|---|---|---|
| options.dfy | `Options` | `Optional[...]` |
| strings.dfy | `Strings` | `in`, `str.split('\n')`, `str.join`, `str.strip()`, `str(int)`, and the leftmost match that `re.search` finds for a literal prefix (`Strings.Find`) |
| tree.dfy | `Tree` | the tree-sitter `Node` as an immutable tree; `_get_node_text` |
| models.dfy | `Models` | models.py: the six records and their defaults |
| parser.dfy | `Parser` | parser.py |
| heuristics.dfy | `Heuristics` | heuristics.py |
| verifier.dfy | `Verifier` | verifier.py, apart from the subprocess |
| analyzer.dfy | `Analyzer` | analyzer.py |

Design choices that follow the source:

- **Syntax nodes.** A `Node` carries:
  - its type string;
  - its children, in order;
  - its byte offsets and its 0-based rows;
  - a map from field names to child positions.

  `child_by_field_name` becomes `Tree.FieldChild` and `child(0)` becomes `Tree.FirstChild`. Both
  return an `Option`, so an absent field reads as `""` through `Tree.Text`, as
  `_get_node_text(None)` does.
- **Aliasing.** In Python the same `LoopInfo`/`RecursionInfo` object sits both in `loops` (or
  `recursions`) and in `control_flow`. So when the heuristics write to it, the write shows through
  both lists. The model keeps this sharing:
  - `control_flow` is a `seq<FlowEntry>`. A loop or a recursion appears there as a reference by
    position (`LoopEntry(i)` or `RecursionEntry(i)`). An `if` element is stored inline (`Plain`).
  - `Models.Aliased` states that every loop and every recursion is referenced exactly once.
- **Mutation.** In-place updates (`metadata.loops.append`, `loop.candidate_invariant = ...`) become
  functions that return the updated record.
- **The subprocess.** `Verifier.Verify` takes the runner as its first parameter `run: string -> RunOutcome`,
  so that `preconditions`, `arg_types` and `num_tests` can keep their defaults (`[]`, empty, 100).
  A `RunOutcome` is either `TimedOut` or `Exited(returnCode, stdout, stderr)`.
- **`arg_types`.** This insertion-ordered dict is a `seq<ArgSpec>`. Each `ArgSpec` has a name and a
  `map<string, string>` of details.

## Model

| member | source | states |
|---|---|---|
| Parser.FindNodeIsFirstInPreOrder | backend/code_explainer/core/parser.py:35-42 | the search returns the first node of the requested type in pre-order (the node itself, then its children left to right), and returns nothing exactly when no node of the subtree has that type |
| Parser.FindInChildrenIsFirst | backend/code_explainer/core/parser.py:38-42 | over a list of children, the search returns the first match in the concatenated pre-orders of the children |
| Parser.FirstOfKindConcat | backend/code_explainer/core/parser.py:38-41 | the first match in `a + b` is the first match in `a` if there is one, else `|a|` plus the first match in `b` |
| Parser.ParseFallback | backend/code_explainer/core/parser.py:16-21 | without any `function_definition` node, the name is "unknown", there are no arguments and the traversal starts at the root; no error is possible |
| Parser.ParseNamesDefinition | backend/code_explainer/core/parser.py:22-24 | with a definition, the name is the text of its "name" field, the arguments come from its "parameters" field, and the traversal starts at that definition |
| Parser.Parse | backend/code_explainer/core/parser.py:11-33 | the record keeps the raw code, its loops and recursions are each referenced exactly once from `control_flow`, and the "unknown"/[] fallback applies when the search finds nothing |
| Parser.ExtractArgs | backend/code_explainer/core/parser.py:49-51 | an absent parameters node gives no arguments, and there is never more than one argument per child |
| Parser.ArgNamesConcat | backend/code_explainer/core/parser.py:53-61 | argument extraction goes child by child: the names of `a + b` are the names of `a` followed by those of `b` |
| Parser.ArgNamesOfOneChild | backend/code_explainer/core/parser.py:54-60 | an `identifier` child contributes its own text; a `typed_parameter` or `default_parameter` child contributes its first child's text (nothing when it has no children); every other child contributes nothing |
| Parser.Dispatch | backend/code_explainer/core/parser.py:65-74 | one node adds at most one entry to each list: a loop exactly for a `for`/`while` statement, a recursion exactly for a call of the function's own name, a variable exactly for an assignment, and one `control_flow` entry for a loop, an `if` or a recursion; existing entries, the name, the arguments and the code are untouched, and the exactly-once referencing is kept |
| Parser.TraverseIsPreOrderFold | backend/code_explainer/core/parser.py:63-77 | the recursive walk dispatches on every node of the subtree exactly once, in pre-order: it equals the dispatch folded over the pre-order list |
| Parser.TraverseAllIsPreOrderFold | backend/code_explainer/core/parser.py:76-77 | walking a list of children equals the dispatch folded over their concatenated pre-orders |
| Parser.CollectLoops | backend/code_explainer/core/parser.py:100-129 | the loops list gains one record per `for_statement`/`while_statement` node, in pre-order |
| Parser.CollectRecursions | backend/code_explainer/core/parser.py:155-170 | the recursions list gains one record per call whose callee text equals the function name, in pre-order |
| Parser.CollectVariables | backend/code_explainer/core/parser.py:172-176 | the variables list gains one role per assignment node, in pre-order |
| Parser.CollectIfs | backend/code_explainer/core/parser.py:131-149 | the inline conditionals of `control_flow` are one per `if_statement` node, in pre-order |
| Parser.CollectFlow | backend/code_explainer/core/parser.py:114-170 | the traversal appends to `control_flow` exactly the reference list `FlowOf` of the visited nodes: a loop reference, an inline `if` or a recursion reference per node, interleaved in pre-order, each reference numbered by its position in `loops` or `recursions` |
| Parser.DispatchFlow | backend/code_explainer/core/parser.py:65-74 | one node appends exactly its own entry, numbered after the loops and recursions recorded so far |
| Parser.CollectFlowLength | backend/code_explainer/core/parser.py:114-170 | `control_flow` grows by one per loop, per `if` and per recursive call |
| Parser.ParseRecords | backend/code_explainer/core/parser.py:63-77 | the loops, recursions, variables and inline conditionals of the parsed record are exactly those of the traversed subtree's nodes, in pre-order; their counts equal the numbers of matching nodes, and `len(control_flow) == len(loops) + len(recursions) + #if`; `control_flow` itself is `FlowOf` the pre-order list, so loop and recursion references sit among the `if` entries in node order |
| Models.AliasedListsOnce | backend/code_explainer/core/parser.py:114-115 | in a record built as the extractor builds it, every loop and every recursion appears in `control_flow`, and appears there only once |
| Parser.CallRecordsRecursionIff | backend/code_explainer/core/parser.py:155-170 | a `call` node adds a recursion if and only if its "function" field text equals the function name exactly; the recursive step is the call's own text, and the recursion is also appended to `control_flow` |
| Parser.AssignmentAddsOneVariable | backend/code_explainer/core/parser.py:172-176 | an assignment adds exactly one variable, with role "mutated_variable", named by the text of its "left" field or `""` when that field is absent; loops, recursions and `control_flow` are unchanged |
| Parser.HasReturn | backend/code_explainer/core/parser.py:178-184 | true if and only if some node of the subtree, the node itself included, is a `return_statement` |
| Parser.CallToUnknownCountsAsRecursion | backend/code_explainer/core/parser.py:155-170 | for the code `unknown()`, which has no definition, the fallback name "unknown" makes the call to `unknown` count as one recursion |
| Tree.FieldChild | backend/code_explainer/core/parser.py:100-101 | a field lookup finds the child the field names, and finds nothing when the node has no such field |
| Tree.PySlice | backend/code_explainer/core/parser.py:47 | Python slicing on non-negative bounds: in-range bounds slice exactly, an end past the string is clamped to it (`s[a:]`), and a start at or past the end or an end at or before the start gives `""` |
| Tree.NodeTextSpansBytes | backend/code_explainer/core/parser.py:44-47 | a node's text is the span of characters whose UTF-8 bytes are `start_byte..end_byte`, and that span's encoding is exactly `end_byte - start_byte` bytes long |
| Tree.NodeTextAsciiAgrees | backend/code_explainer/core/parser.py:44-47 | on ASCII code, slicing the string by byte offsets reads the same text as the byte-accurate reading |
| Tree.ByteOffsetSliceMisreadsNonAscii | backend/code_explainer/core/parser.py:47 | on `"#é\nx=1"`, the identifier at bytes 4..5 reads as "=" when the string is sliced by byte offsets, and as "x" byte-accurately |
| Tree.CharIndexAtBoundary | backend/code_explainer/core/parser.py:47 | the byte-to-character conversion returns `i` for the byte offset at which character `i` starts |
| Heuristics.DetectLoopInvariants | backend/code_explainer/core/heuristics.py:8-9 | the loop pass rewrites each loop independently and touches no other field of the record |
| Heuristics.ApplyLoopCandidate | backend/code_explainer/core/heuristics.py:8-21 | a `for_loop` with a non-empty variable and an iterable containing "range" gets the range template, and that template names the loop variable; a `while_loop` with a non-empty condition gets the condition template; every other loop keeps its previous candidate |
| Heuristics.RangeInvariantMentions | backend/code_explainer/core/heuristics.py:18 | the range template mentions both the loop variable and the iterable |
| Heuristics.ApplyRecursionBaseCases | backend/code_explainer/core/heuristics.py:23-33 | with no recursions nothing changes; with base cases (`if` elements whose source contains "return"), every recursion gets their non-empty conditions joined by " OR ", in `control_flow` order; with no base cases, `base_case_condition` is untouched |
| Heuristics.BaseCasesIn | backend/code_explainer/core/heuristics.py:28 | every result is an `if_condition` whose source contains "return", and every `control_flow` element of that kind is among the results |
| Heuristics.BaseCasesInComeFrom | backend/code_explainer/core/heuristics.py:28 | every base case found is the element of some `control_flow` entry, so the filter invents nothing |
| Heuristics.BaseCasesInConcat | backend/code_explainer/core/heuristics.py:28 | the filter keeps `control_flow` order: the base cases of `a + b` are those of `a` followed by those of `b` |
| Heuristics.BaseCasesInOne | backend/code_explainer/core/heuristics.py:28 | a single entry is kept exactly when its element is a base case |
| Heuristics.BaseCaseTextMeaning | backend/code_explainer/core/heuristics.py:33 | the joined text is `""` exactly when no base case has a non-empty condition, and it contains the condition of every `if` entry of `control_flow` whose source contains "return" and whose condition is non-empty |
| Heuristics.ConditionsOfEmptyIff | backend/code_explainer/core/heuristics.py:33 | the filtered conditions are empty exactly when every base case's condition is empty or absent |
| Heuristics.AnalyzeRecursion | backend/code_explainer/core/heuristics.py:23-33 | the recursion pass changes only the recursions list, and keeps its length |
| Heuristics.Apply | backend/code_explainer/core/heuristics.py:4-6 | `apply` writes only loop candidates and recursion base cases: clearing those gives back the input, all lengths and orders are kept, and the exactly-once referencing is kept |
| Heuristics.SkeletonOfLoopPass | backend/code_explainer/core/heuristics.py:8-21 | the loop pass writes nothing but `candidate_invariant` |
| Heuristics.SkeletonOfRecursionPass | backend/code_explainer/core/heuristics.py:23-33 | the recursion pass writes nothing but `base_case_condition` |
| Heuristics.BaseCasesInReadSkeleton | backend/code_explainer/core/heuristics.py:28 | the base cases depend only on fields the heuristics never write |
| Heuristics.DetectLoopIdempotent | backend/code_explainer/core/heuristics.py:9-21 | rewriting one loop twice gives the same loop as rewriting it once |
| Heuristics.ApplyIdempotent | backend/code_explainer/core/heuristics.py:4-6 | running `apply` twice gives the same record as running it once |
| Verifier.StrategyCode | backend/code_explainer/core/verifier.py:75-78 | the strategy code always starts with "st."; it is the strategy unchanged when that already starts with "st.", and "st." followed by the strategy otherwise |
| Verifier.StrategyCodeIdempotent | backend/code_explainer/core/verifier.py:75-78 | prefixing a strategy that is already code changes nothing |
| Verifier.TestSignatureMeaning | backend/code_explainer/core/verifier.py:70-89 | `given_args` holds the `name=strategy_code` entries (default strategy "integers()") and `func_args` the names, both joined by ", " in `arg_types` order; empty `arg_types` gives the fallback argument `n` |
| Verifier.GeneratedScriptEmbeds | backend/code_explainer/core/verifier.py:91-109 | the script embeds the code verbatim, sets `max_examples={num_tests}` and calls the function with the test's parameters |
| Verifier.GeneratedScriptAssumes | backend/code_explainer/core/verifier.py:105 | the script holds `assume(pre)` for every precondition |
| Verifier.GeneratedScriptAsserts | backend/code_explainer/core/verifier.py:118 | the script holds `assert inv, "Invariant violation: inv"` for every invariant |
| Verifier.SampleCountReadsBack | backend/code_explainer/core/verifier.py:99 | the decimal sample count written into the script reads back as `num_tests` |
| Verifier.FirstLineWith | backend/code_explainer/core/verifier.py:133-134 | the index found is that of the first line containing the marker, or -1 when no line contains it |
| Verifier.ExtractCounterExample | backend/code_explainer/core/verifier.py:130-136 | there is a result exactly when "Falsifying example" occurs in the output; it is the first line that mentions it followed by the next line (`""` after the last line), and it contains the marker |
| Strings.ContainsIffSomeLine | backend/code_explainer/core/verifier.py:131-134 | a pattern without newlines occurs in a text exactly when it occurs in one of the text's lines |
| Strings.Split | backend/code_explainer/core/verifier.py:132 | splitting on `'\n'` gives at least one line, no line contains a newline, and joining the lines with `'\n'` gives back the text |
| Verifier.UpToNewline | backend/code_explainer/core/verifier.py:143 | what `(.*)` captures: the longest newline-free prefix of the text |
| Verifier.ExtractFailureReason | backend/code_explainer/core/verifier.py:138-151 | the stripped rest of the line after the first "AssertionError: "; else the fixed recursion message when "RecursionError" occurs; else "Unknown failure (check formatting)"; never absent |
| Strings.FindAfterPrefix | backend/code_explainer/core/verifier.py:143 | the search finds the leftmost marker: one right after a marker-free prefix is the first |
| Verifier.FailureReasonReadsLine | backend/code_explainer/core/verifier.py:143-145 | a message that is the first assertion error, on a line of its own and without surrounding whitespace, is read back exactly |
| Verifier.FailureReasonReadsInvariant | backend/code_explainer/core/verifier.py:143-145 | the script's own assertion message "Invariant violation: inv", printed after "AssertionError: ", is read back as the failure reason |
| Strings.Strip | backend/code_explainer/core/verifier.py:40 | `strip()` removes exactly the leading and trailing whitespace (Python's `isspace` set): the result is a slice of the input with only whitespace around it, and it neither starts nor ends with whitespace |
| Verifier.Classify | backend/code_explainer/core/verifier.py:37-54 | verified exactly when the run exited with code 0; a pass gives the stripped output and `num_tests`; a failure adds the extracted counterexample and failure reason; a timeout gives "Verification timed out.", no counterexample and 0 samples |
| Verifier.Verify | backend/code_explainer/core/verifier.py:19-20 | with no invariants: verified, "No invariants to verify.", 0 samples, nothing extracted |
| Verifier.VerifyDefaults | backend/code_explainer/core/verifier.py:15 | called with only the code, the name and some invariants, `verify` runs a script with `max_examples=100` that calls the function on the fallback argument `n`, and a completed run reports 100 samples |
| Verifier.VerifyEmptyRunsNothing | backend/code_explainer/core/verifier.py:19-22 | with no invariants the verdict does not depend on the runner, so nothing is run |
| Verifier.VerifyClassifiesRun | backend/code_explainer/core/verifier.py:22-54 | with invariants, the verdict is verified exactly when running the generated script exits with code 0; a timeout reports 0 samples, and any exit reports `num_tests` |
| Models.NewMetadata | backend/code_explainer/core/models.py:25-32 | a fresh record has the given name, arguments and code and empty `control_flow`, `loops`, `recursions` and `variables` |
| Analyzer.Analyze | backend/code_explainer/core/analyzer.py:10-13 | the analysed record keeps the raw code and the exactly-once referencing, and equals the parsed record once candidates and base cases are cleared |
| Analyzer.AnalyzeKeepsParse | backend/code_explainer/core/analyzer.py:11-13 | name, arguments, code, `control_flow` and variables are exactly the parser's; loops and recursions keep their lengths, their order and every field except the candidate and the base case |
| Analyzer.AnalyzeLoopCandidate | backend/code_explainer/core/analyzer.py:12 | after analysis, a `range` for-loop with a non-empty variable has a candidate that contains the variable; a while-loop with a non-empty condition has the condition template; every other loop has no candidate |
| Analyzer.AnalyzeRecursionBaseCases | backend/code_explainer/core/analyzer.py:12 | after analysis, every recursion carries the joined base-case conditions when the function has base cases, and no base case condition otherwise |
| Analyzer.AnalyzeCounts | backend/code_explainer/core/analyzer.py:11-13 | the analysed record has one loop per loop node, one recursion per recursive call and one variable per assignment in the traversed subtree, and `len(control_flow) == len(loops) + len(recursions) + #if` |
| Analyzer.AnalyzeIdempotent | backend/code_explainer/core/analyzer.py:12 | applying the heuristics again to an analysed record changes nothing |

## Left out

- The tree-sitter grammar and parser construction, and the parse of text into a tree. The tree is an
  input. Field lookup and `child(0)` are accessors over the node's children.
- The temporary file, the `python` subprocess, its 30-second timeout and the file cleanup. They are
  OS I/O; their result is the `run` parameter of `Verifier.Verify`.
- What Python and Hypothesis do when they run the generated script. Only the script text is modelled.
- The LLM client, the prompts, the HTTP routes, the application startup, the frontend and the two
  scripts that call the endpoint or print output. None of them is part of the analysis core.
- Python's recursion limit. A syntax tree deep enough to make `_find_node`, `_traverse` or
  `_has_return` raise `RecursionError` is not modelled; the model's recursion has no depth bound.
- Parser.Parse: reads node text byte-accurately (`Tree.NodeText`), not by the source's byte-offset slice
  of the `str`; so its names, conditions, sources and recursion detection match the source only on
  ASCII code (`Tree.NodeTextAsciiAgrees`); see Findings.
- Parser.ParseRecords: the same byte-accurate reading applies to every record it describes.
- `_handle_if` computes whether the consequence holds a `return` (`Parser.HasReturn`) and then never
  uses that flag, so the model's `HandleIf` records the same element either way.
- `arg_types` values are modelled as string-to-string maps. Only their "strategy" entry is read, and
  duplicate names are not ruled out, since a Python dict cannot hold them anyway.
- Verifier.GeneratedScriptEmbeds: states that the code, the sample count and the call occur in the
  script, not where. The exact layout is the template itself (`Verifier.ScriptPieces`).
- Verifier.GeneratedScriptAssumes: states that every `assume(pre)` occurs in the script, not that they
  share one line separated by single spaces. That layout is the definition of `AssumeLine`.
- Verifier.GeneratedScriptAsserts: states that every assertion occurs in the script, not that they
  share one line separated by single spaces. That layout is the definition of `AssertLine`.
- Verifier.FailureReasonReadsInvariant: covers invariants without newlines whose last character is
  not whitespace. Other invariants are read back stripped or cut at the newline, as
  `Verifier.ExtractFailureReason` states.

## Findings

| source | as written | input that shows it | evidently intended | confidence | as-written member | corrected member |
|---|---|---|---|---|---|---|
| backend/code_explainer/core/parser.py:47 | `code[node.start_byte:node.end_byte]` slices the Python `str` by character index using tree-sitter's UTF-8 byte offsets | code `"#é\nx=1"`: the identifier `x` spans bytes 4..5, but characters 4..5 are `"="` | the node's own text, i.e. the characters whose UTF-8 bytes lie in `start_byte..end_byte` | not executed | Tree.SliceAsWritten (exhibited by Tree.ByteOffsetSliceMisreadsNonAscii) | Tree.NodeText (proved by Tree.NodeTextSpansBytes and Tree.NodeTextAsciiAgrees) |

`Tree.NodeText` is what the rest of the model uses as `_get_node_text`. On ASCII code the two agree
(`Tree.NodeTextAsciiAgrees`). After any non-ASCII character, names, conditions, sources and
recursion detection read the wrong characters as written.

The fallback name "unknown" is the source's behaviour, and the model keeps it: in a snippet without
a definition, a call to a function literally named `unknown` counts as a recursion
(`Parser.CallToUnknownCountsAsRecursion`).
