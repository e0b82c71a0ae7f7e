/**
 * The verification engine (`VerificationEngine`) without the subprocess:
 * the short-circuit for an empty invariant list, the synthesis of the
 * Hypothesis test script as text, the two scanners over the script's
 * output, and the classification of a run's outcome into a verdict.
 * The run itself (temporary file, `python` subprocess, 30-second timeout,
 * cleanup) is the `run` parameter of `Verify`.
 */
module Verifier {
  import opened Options
  import opened Strings
  import opened Models

  /** What running a script can come back with. */
  datatype RunOutcome =
    | TimedOut
    | Exited(returnCode: int, stdout: string, stderr: string)

  /** One entry of `arg_types`: an argument name and its details dict ("type", "strategy", ...). */
  datatype ArgSpec = ArgSpec(name: string, details: map<string, string>)

  const NoInvariantsMessage: string := "No invariants to verify."
  const TimeoutMessage: string := "Verification timed out."
  const DefaultStrategy: string := "integers()"
  const StrategyPrefix: string := "st."
  const FallbackGivenArgs: string := "n=st.integers(min_value=-1000, max_value=1000)"
  const FallbackFuncArgs: string := "n"
  const FalsifyingMarker: string := "Falsifying example"
  const AssertionMarker: string := "AssertionError: "
  const RecursionMarker: string := "RecursionError"
  const RecursionReason: string := "RecursionError: Maximum recursion depth exceeded"
  const UnknownReason: string := "Unknown failure (check formatting)"
  const ViolationPrefix: string := "Invariant violation: "

  // ---------------------------------------------------------------------
  // Strategies and the test signature.
  // ---------------------------------------------------------------------

  /** `details.get("strategy", "integers()")`. */
  function StrategyOf(details: map<string, string>): string
  {
    if "strategy" in details then details["strategy"] else DefaultStrategy
  }

  /** The strategy as Hypothesis code: kept when it already starts with "st.", prefixed otherwise. */
  function StrategyCode(strategy: string): (r: string)
    ensures StartsWith(r, StrategyPrefix)
    ensures StartsWith(strategy, StrategyPrefix) ==> r == strategy
    ensures !StartsWith(strategy, StrategyPrefix) ==> r[|StrategyPrefix|..] == strategy
  {
    if StartsWith(strategy, StrategyPrefix) then strategy else StrategyPrefix + strategy
  }

  /** Prefixing is stable: a strategy already turned into code is left alone. */
  lemma StrategyCodeIdempotent(strategy: string)
    ensures StrategyCode(StrategyCode(strategy)) == StrategyCode(strategy)
  {
  }

  /** The `name=strategy_code` entry of one argument. */
  function GivenEntry(a: ArgSpec): (r: string)
    ensures |r| > 0
  {
    a.name + "=" + StrategyCode(StrategyOf(a.details))
  }

  function GivenEntries(argTypes: seq<ArgSpec>): (r: seq<string>)
    ensures |r| == |argTypes|
    ensures forall k :: 0 <= k < |r| ==> |r[k]| > 0
  {
    seq(|argTypes|, i requires 0 <= i < |argTypes| => GivenEntry(argTypes[i]))
  }

  function ArgNamesOf(argTypes: seq<ArgSpec>): (r: seq<string>)
    ensures |r| == |argTypes|
  {
    seq(|argTypes|, i requires 0 <= i < |argTypes| => argTypes[i].name)
  }

  /** The `@given(...)` arguments and the test function's parameters. */
  datatype Signature = Signature(givenArgs: string, funcArgs: string)

  function TestSignature(argTypes: seq<ArgSpec>): Signature
  {
    var given := Join(", ", GivenEntries(argTypes));
    var funcArgs := Join(", ", ArgNamesOf(argTypes));
    if |given| == 0 then Signature(FallbackGivenArgs, FallbackFuncArgs) else Signature(given, funcArgs)
  }

  /**
   * The signature lists every argument in `arg_types` order, as
   * `name=strategy_code` entries and as bare names, both joined by ", ";
   * the single fallback argument `n` appears exactly when `arg_types` is
   * empty.
   */
  lemma TestSignatureMeaning(argTypes: seq<ArgSpec>)
    ensures |argTypes| == 0 ==> TestSignature(argTypes) == Signature(FallbackGivenArgs, FallbackFuncArgs)
    ensures |argTypes| > 0 ==>
              TestSignature(argTypes) == Signature(Join(", ", GivenEntries(argTypes)), Join(", ", ArgNamesOf(argTypes)))
    ensures forall k :: 0 <= k < |argTypes| ==>
              Contains(TestSignature(argTypes).givenArgs, argTypes[k].name + "=" + StrategyCode(StrategyOf(argTypes[k].details)))
  {
    JoinEmptyIff(", ", GivenEntries(argTypes));
    forall k | 0 <= k < |argTypes|
      ensures Contains(TestSignature(argTypes).givenArgs, GivenEntry(argTypes[k]))
    {
      JoinContainsEach(", ", GivenEntries(argTypes), k);
    }
  }

  // ---------------------------------------------------------------------
  // The script text.
  // ---------------------------------------------------------------------

  function AssumeOf(pre: string): string
  {
    "assume(" + pre + ")"
  }

  function AssertOf(inv: string): string
  {
    "assert " + inv + ", \"" + ViolationPrefix + inv + "\""
  }

  /** All `assume(pre)` calls, space-separated on one line. */
  function AssumeLine(preconditions: seq<string>): string
  {
    Join(" ", seq(|preconditions|, i requires 0 <= i < |preconditions| => AssumeOf(preconditions[i])))
  }

  /** All invariant assertions, space-separated on one line. */
  function AssertLine(invariants: seq<string>): string
  {
    Join(" ", seq(|invariants|, i requires 0 <= i < |invariants| => AssertOf(invariants[i])))
  }

  // The fixed text of the script template, between the pieces filled in.
  const ScriptHeader: string :=
    "\nimport sys\nfrom hypothesis import given, settings, assume, strategies as st\n\n# User Code\n"
  const SettingsOpen: string := "\n\n# Test\n@settings("
  const GivenOpen: string := ", deadline=None)\n@given("
  const TestOpen: string := ")\ndef test_property("
  const PreconditionsOpen: string := "):\n    # Preconditions\n    # Filter inputs using assume()\n    \n    "
  const ExecuteOpen: string := "\n\n    # Execute\n    try:\n        result = "
  const InvariantsOpen: string :=
    "\n    except RecursionError:\n        return # Recursion limit is not a logic failure for invariants per se\n"
    + "    except Exception:\n        return # Ignore other runtime errors for now, focus on invariants\n\n"
    + "    # Check Invariants\n    # The LLM invariants use argument names and 'result' (output).\n    \n    "
  const ScriptFooter: string :=
    "\n\nif __name__ == \"__main__\":\n    try:\n        test_property()\n        print(\"Verified!\")\n"
    + "    except Exception as e:\n        print(e)\n        sys.exit(1)\n"

  /** The pieces of the script, in order; the script is their concatenation. */
  function ScriptPieces(code: string, functionName: string, invariants: seq<string>,
                        preconditions: seq<string>, argTypes: seq<ArgSpec>, numTests: int): seq<string>
  {
    var sig := TestSignature(argTypes);
    [ ScriptHeader, code, SettingsOpen, "max_examples=" + IntToString(numTests), GivenOpen, sig.givenArgs,
      TestOpen, sig.funcArgs, PreconditionsOpen, AssumeLine(preconditions), ExecuteOpen,
      functionName + "(" + sig.funcArgs + ")", InvariantsOpen, AssertLine(invariants), ScriptFooter ]
  }

  /** `_generate_test_script`. */
  function GenerateTestScript(code: string, functionName: string, invariants: seq<string>,
                              preconditions: seq<string>, argTypes: seq<ArgSpec>, numTests: int): string
  {
    Join("", ScriptPieces(code, functionName, invariants, preconditions, argTypes, numTests))
  }

  /** Every piece of the template can be found in the script. */
  lemma ScriptHasPiece(code: string, functionName: string, invariants: seq<string>,
                       preconditions: seq<string>, argTypes: seq<ArgSpec>, numTests: int, k: nat)
    requires k < |ScriptPieces(code, functionName, invariants, preconditions, argTypes, numTests)|
    ensures Contains(GenerateTestScript(code, functionName, invariants, preconditions, argTypes, numTests),
                     ScriptPieces(code, functionName, invariants, preconditions, argTypes, numTests)[k])
  {
    JoinContainsEach("", ScriptPieces(code, functionName, invariants, preconditions, argTypes, numTests), k);
  }

  /**
   * The script embeds the source verbatim, samples `max_examples=num_tests`
   * and calls the function under test with the signature's parameters.
   */
  lemma GeneratedScriptEmbeds(code: string, functionName: string, invariants: seq<string>,
                              preconditions: seq<string>, argTypes: seq<ArgSpec>, numTests: int)
    ensures var script := GenerateTestScript(code, functionName, invariants, preconditions, argTypes, numTests);
            && Contains(script, code)
            && Contains(script, "max_examples=" + IntToString(numTests))
            && Contains(script, functionName + "(" + TestSignature(argTypes).funcArgs + ")")
  {
    var pieces := ScriptPieces(code, functionName, invariants, preconditions, argTypes, numTests);
    assert pieces[1] == code;
    assert pieces[3] == "max_examples=" + IntToString(numTests);
    assert pieces[11] == functionName + "(" + TestSignature(argTypes).funcArgs + ")";
    ScriptHasPiece(code, functionName, invariants, preconditions, argTypes, numTests, 1);
    ScriptHasPiece(code, functionName, invariants, preconditions, argTypes, numTests, 3);
    ScriptHasPiece(code, functionName, invariants, preconditions, argTypes, numTests, 11);
  }

  /** The script filters with one `assume(pre)` per precondition. */
  lemma GeneratedScriptAssumes(code: string, functionName: string, invariants: seq<string>,
                               preconditions: seq<string>, argTypes: seq<ArgSpec>, numTests: int, k: nat)
    requires k < |preconditions|
    ensures Contains(GenerateTestScript(code, functionName, invariants, preconditions, argTypes, numTests),
                     AssumeOf(preconditions[k]))
  {
    var pieces := ScriptPieces(code, functionName, invariants, preconditions, argTypes, numTests);
    assert pieces[9] == AssumeLine(preconditions);
    ScriptHasPiece(code, functionName, invariants, preconditions, argTypes, numTests, 9);
    var calls := seq(|preconditions|, i requires 0 <= i < |preconditions| => AssumeOf(preconditions[i]));
    JoinContainsEach(" ", calls, k);
    ContainsTransitive(GenerateTestScript(code, functionName, invariants, preconditions, argTypes, numTests),
                       AssumeLine(preconditions), AssumeOf(preconditions[k]));
  }

  /** The script checks one `assert inv, "Invariant violation: inv"` per invariant. */
  lemma GeneratedScriptAsserts(code: string, functionName: string, invariants: seq<string>,
                               preconditions: seq<string>, argTypes: seq<ArgSpec>, numTests: int, k: nat)
    requires k < |invariants|
    ensures Contains(GenerateTestScript(code, functionName, invariants, preconditions, argTypes, numTests),
                     AssertOf(invariants[k]))
  {
    var pieces := ScriptPieces(code, functionName, invariants, preconditions, argTypes, numTests);
    assert pieces[13] == AssertLine(invariants);
    ScriptHasPiece(code, functionName, invariants, preconditions, argTypes, numTests, 13);
    var checks := seq(|invariants|, i requires 0 <= i < |invariants| => AssertOf(invariants[i]));
    JoinContainsEach(" ", checks, k);
    ContainsTransitive(GenerateTestScript(code, functionName, invariants, preconditions, argTypes, numTests),
                       AssertLine(invariants), AssertOf(invariants[k]));
  }

  /** The sample count written into the script reads back as `num_tests`. */
  lemma SampleCountReadsBack(numTests: nat)
    ensures IntToString(numTests) == NatToString(numTests)
    ensures DecimalValue(IntToString(numTests)) == numTests
  {
    NatToStringRoundTrip(numTests);
  }

  // ---------------------------------------------------------------------
  // Output scanners.
  // ---------------------------------------------------------------------

  /** Index of the first line containing `p`, or -1. */
  function FirstLineWith(lines: seq<string>, p: string): (i: int)
    ensures -1 <= i < |lines|
    ensures i >= 0 ==> Contains(lines[i], p)
    ensures forall j :: 0 <= j < |lines| && (i < 0 || j < i) ==> !Contains(lines[j], p)
  {
    if |lines| == 0 then -1
    else if Contains(lines[0], p) then 0
    else
      var k := FirstLineWith(lines[1..], p);
      if k < 0 then -1 else k + 1
  }

  /**
   * `_extract_counter_example`: the first line mentioning "Falsifying
   * example" followed directly by the next line (nothing when it is the
   * last line).
   */
  function ExtractCounterExample(output: string): (r: Option<string>)
    ensures r.Some? <==> Contains(output, FalsifyingMarker)
    ensures r.Some? ==>
              var lines := Split(output, '\n');
              var i := FirstLineWith(lines, FalsifyingMarker);
              && 0 <= i < |lines|
              && r.value == lines[i] + (if i + 1 < |lines| then lines[i + 1] else "")
              && Contains(r.value, FalsifyingMarker)
  {
    if !Contains(output, FalsifyingMarker) then None
    else
      var lines := Split(output, '\n');
      var i := FirstLineWith(lines, FalsifyingMarker);
      ContainsIffSomeLine(output, '\n', FalsifyingMarker);
      if i < 0 then None
      else
        var next := if i + 1 < |lines| then lines[i + 1] else "";
        ContainsWidened("", lines[i], next, FalsifyingMarker);
        assert "" + lines[i] + next == lines[i] + next;
        Some(lines[i] + next)
  }

  /** What a regular expression `.` can match: the text up to, not including, the first newline. */
  function UpToNewline(s: string): (r: string)
    ensures StartsWith(s, r)
    ensures '\n' !in r
    ensures |r| < |s| ==> s[|r|] == '\n'
  {
    var j := Find(s, "\n");
    var end := if j < 0 then |s| else j;
    assert forall k :: 0 <= k < end ==> s[k] != '\n' by {
      forall k | 0 <= k < end ensures s[k] != '\n' {
        OccursAtChar(s, k, '\n');
      }
    }
    s[..end]
  }

  /**
   * `_extract_failure_reason`: the stripped rest of the line after the first
   * "AssertionError: ", else the fixed recursion message when
   * "RecursionError" occurs, else the generic message. Never absent.
   */
  function ExtractFailureReason(output: string): (r: string)
    ensures Contains(output, AssertionMarker) ==>
              var i := Find(output, AssertionMarker);
              r == Strip(UpToNewline(output[i + |AssertionMarker|..]))
    ensures !Contains(output, AssertionMarker) && Contains(output, RecursionMarker) ==> r == RecursionReason
    ensures !Contains(output, AssertionMarker) && !Contains(output, RecursionMarker) ==> r == UnknownReason
  {
    var i := Find(output, AssertionMarker);
    if i >= 0 then Strip(UpToNewline(output[i + |AssertionMarker|..]))
    else if Contains(output, RecursionMarker) then RecursionReason
    else UnknownReason
  }

  /** Strip leaves a string alone when it neither starts nor ends with whitespace. */
  lemma StripKeepsTrimmed(s: string)
    requires |s| > 0 && !IsSpace(s[0]) && !IsSpace(s[|s| - 1])
    ensures Strip(s) == s
  {
    var r := Strip(s);
    var a :| StrippedAt(s, r, a);
    assert a == 0;
    assert a + |r| == |s|;
  }

  /** The rest of the line is exactly the newline-free text before the newline. */
  lemma UpToNewlineStopsAtNewline(line: string, post: string)
    requires '\n' !in line
    ensures UpToNewline(line + "\n" + post) == line
  {
    var s := line + "\n" + post;
    assert s[|line|] == '\n';
    assert s[..|line|] == line;
  }

  /** After a first "AssertionError: ", the failure reason is the stripped rest of that line. */
  lemma FailureReasonAfterMarker(pre: string, rest: string)
    requires !Contains(pre, AssertionMarker)
    ensures ExtractFailureReason(pre + AssertionMarker + rest) == Strip(UpToNewline(rest))
  {
    var output := pre + AssertionMarker + rest;
    assert HeadUnique(AssertionMarker);
    FindAfterPrefix(pre, AssertionMarker, rest);
    OccursInConcat(pre, AssertionMarker, rest);
    assert output[|pre| + |AssertionMarker|..] == rest;
  }

  /**
   * A message that is the first assertion error, on a line of its own and
   * without surrounding whitespace, is read back exactly.
   */
  lemma FailureReasonReadsLine(pre: string, message: string, post: string)
    requires !Contains(pre, AssertionMarker)
    requires |message| > 0 && '\n' !in message && !IsSpace(message[0]) && !IsSpace(message[|message| - 1])
    ensures ExtractFailureReason(pre + AssertionMarker + message + "\n" + post) == message
  {
    var rest := message + "\n" + post;
    calc {
      ExtractFailureReason(pre + AssertionMarker + message + "\n" + post);
      { assert pre + AssertionMarker + message + "\n" + post == pre + AssertionMarker + rest; }
      ExtractFailureReason(pre + AssertionMarker + rest);
      { FailureReasonAfterMarker(pre, rest); }
      Strip(UpToNewline(rest));
      { UpToNewlineStopsAtNewline(message, post); }
      Strip(message);
      { StripKeepsTrimmed(message); }
      message;
    }
  }

  /**
   * Reading back the script's own assertion message: when the output shows
   * "AssertionError: Invariant violation: inv" as the first assertion
   * error, on a line of its own, the failure reason is exactly
   * "Invariant violation: inv" (for an invariant without newlines whose
   * last character is not whitespace).
   */
  lemma FailureReasonReadsInvariant(pre: string, inv: string, post: string)
    requires !Contains(pre, AssertionMarker)
    requires |inv| > 0 && '\n' !in inv && !IsSpace(inv[|inv| - 1])
    ensures ExtractFailureReason(pre + AssertionMarker + (ViolationPrefix + inv) + "\n" + post)
              == ViolationPrefix + inv
  {
    var message := ViolationPrefix + inv;
    assert message[0] == 'I' && message[|message| - 1] == inv[|inv| - 1];
    assert forall k :: 0 <= k < |message| ==> message[k] != '\n';
    FailureReasonReadsLine(pre, message, post);
  }

  // ---------------------------------------------------------------------
  // Classification and `verify`.
  // ---------------------------------------------------------------------

  /** The verdict for one run of the script that sampled `num_tests` inputs. */
  function Classify(outcome: RunOutcome, numTests: int): (r: VerificationResult)
    ensures r.verified <==> outcome.Exited? && outcome.returnCode == 0
    ensures outcome.TimedOut? ==>
              r == VerificationResult(false, TimeoutMessage, counterExample := None, failureReason := None, numTests := 0)
    ensures outcome.Exited? ==>
              var output := outcome.stdout + outcome.stderr;
              && r.output == Strip(output)
              && r.numTests == numTests
              && (outcome.returnCode == 0 ==> r.counterExample.None? && r.failureReason.None?)
              && (outcome.returnCode != 0 ==>
                    r.counterExample == ExtractCounterExample(output)
                    && r.failureReason == Some(ExtractFailureReason(output)))
  {
    match outcome
    case TimedOut =>
      VerificationResult(false, TimeoutMessage, counterExample := None)
    case Exited(code, out, err) =>
      var output := out + err;
      if code == 0 then VerificationResult(true, Strip(output), numTests := numTests)
      else VerificationResult(false, Strip(output),
                              counterExample := ExtractCounterExample(output),
                              failureReason := Some(ExtractFailureReason(output)),
                              numTests := numTests)
  }

  /**
   * `verify`: with no invariants, the fixed "nothing to verify" verdict;
   * otherwise the classification of running the generated script. `run`
   * stands for writing the script to a temporary file and executing it
   * under the 30-second timeout.
   */
  function Verify(run: string -> RunOutcome, code: string, functionName: string, invariants: seq<string>,
                  preconditions: seq<string> := [], argTypes: seq<ArgSpec> := [], numTests: int := 100)
    : (r: VerificationResult)
    ensures |invariants| == 0 ==>
              r.verified && r.output == NoInvariantsMessage && r.numTests == 0
              && r.counterExample.None? && r.failureReason.None?
  {
    if |invariants| == 0 then VerificationResult(true, NoInvariantsMessage, numTests := 0)
    else Classify(run(GenerateTestScript(code, functionName, invariants, preconditions, argTypes, numTests)), numTests)
  }

  /** With no invariants nothing is run: the verdict is the same whatever the runner would do. */
  lemma VerifyEmptyRunsNothing(code: string, functionName: string, preconditions: seq<string>,
                               argTypes: seq<ArgSpec>, numTests: int,
                               run1: string -> RunOutcome, run2: string -> RunOutcome)
    ensures Verify(run1, code, functionName, [], preconditions, argTypes, numTests)
         == Verify(run2, code, functionName, [], preconditions, argTypes, numTests)
  {
  }

  /**
   * With invariants, the verdict depends on the runner only through what it
   * answers for the generated script: a pass verifies with `num_tests`
   * samples, a failure or a timeout does not, and only a timeout reports
   * zero samples.
   */
  lemma VerifyClassifiesRun(code: string, functionName: string, invariants: seq<string>,
                            preconditions: seq<string>, argTypes: seq<ArgSpec>, numTests: int,
                            run: string -> RunOutcome)
    requires |invariants| > 0
    ensures var script := GenerateTestScript(code, functionName, invariants, preconditions, argTypes, numTests);
            var r := Verify(run, code, functionName, invariants, preconditions, argTypes, numTests);
            && (r.verified <==> run(script).Exited? && run(script).returnCode == 0)
            && (run(script).TimedOut? ==> r.output == TimeoutMessage && r.counterExample.None? && r.numTests == 0)
            && (run(script).Exited? ==> r.numTests == numTests)
            && (!r.verified && run(script).Exited? ==> r.failureReason.Some?)
  {
  }

  /** The default sample count, as written into the script. */
  lemma DefaultSampleCount()
    ensures IntToString(100) == "100"
  {
    assert NatToString(100) == NatToString(10) + [DigitChar(0)];
    assert NatToString(10) == NatToString(1) + [DigitChar(0)];
  }

  /**
   * The defaults of `verify`: no preconditions, no argument types (so the
   * fallback argument `n`) and 100 samples.
   */
  lemma VerifyDefaults(run: string -> RunOutcome, code: string, functionName: string, invariants: seq<string>)
    requires |invariants| > 0
    ensures var script := GenerateTestScript(code, functionName, invariants, [], [], 100);
            var r := Verify(run, code, functionName, invariants);
            && Contains(script, "max_examples=100")
            && Contains(script, functionName + "(n)")
            && (r.verified <==> run(script).Exited? && run(script).returnCode == 0)
            && (run(script).Exited? ==> r.numTests == 100)
  {
    GeneratedScriptEmbeds(code, functionName, invariants, [], [], 100);
    TestSignatureMeaning([]);
    DefaultSampleCount();
    assert "max_examples=" + IntToString(100) == "max_examples=100";
    assert TestSignature([]).funcArgs == "n";
    assert functionName + "(" + TestSignature([]).funcArgs + ")" == functionName + "(n)";
  }
}
