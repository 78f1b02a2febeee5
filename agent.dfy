/**
 * The `CodeActAgent` controller (agents/codeact.py:11-272): the
 * thought-execute-observe loop that asks the model for a reply, runs the
 * code blocks in it, writes the results back into the reply and decides
 * whether to go on.
 *
 * The model behind `planner_tool`, the sandbox that runs code and the file
 * holding the system prompt are outside the model: a `World` value stands
 * for all three. The pure functions `Cycle` and `Run` say what one cycle and
 * a whole session produce; the class's methods are proved to compute them,
 * and the lemmas state what the loop promises about them.
 */
module Agent {
  import opened Text
  import opened Extraction
  import opened Execution
  import opened Rewriter

  datatype Role = System | User | Assistant

  /** One chat message, `{"role": ..., "content": ...}`. */
  datatype Message = Message(role: Role, content: string)

  const ContinuePrompt := "Continue with the next cycle of thought-execute-observe to make further progress."

  /** What the agent consults but does not compute: the system prompt read
      from its file, the model (given the messages and the cycle number) and
      the sandbox (given the code and the run's sequence number). */
  datatype World = World(
    systemPrompt: string,
    planner: (seq<Message>, int) -> string,
    sandbox: (string, nat) -> Outcome)

  /** A cycle is complete when its transcript mentions a final answer or a
      conclusion in any letter case, or when it is the last cycle allowed. */
  predicate IsComplete(response: string, cycle: int, maxCycles: int)
  {
    Contains(Lower(response), "final answer")
      || Contains(Lower(response), "conclusion")
      || cycle >= maxCycles
  }

  /** The messages sent to the model: the system prompt, the user's query,
      then the conversation so far. */
  function Prompt(systemPrompt: string, userQuery: string, history: seq<Message>): seq<Message>
  {
    [Message(System, systemPrompt), Message(User, userQuery)] + history
  }

  /** The results of running `codes` in order when `count` runs have
      happened before: the i-th code is the (count + i + 1)-th run. */
  function Runs(w: World, codes: seq<string>, count: nat): (r: seq<ExecResult>)
    ensures |r| == |codes| && AllWellFormed(r)
  {
    seq(|codes|, i requires 0 <= i < |codes| => ToResult(w.sandbox(codes[i], count + i + 1)))
  }

  /** What one cycle yields: its transcript, whether it completes, and the
      conversation and run count after it. */
  datatype CycleOutcome = CycleOutcome(response: string, complete: bool,
                                       history: seq<Message>, count: nat)

  /** Cycle number `cycle` of a session whose conversation so far is
      `history` and which has run code `count` times. Only an incomplete
      cycle adds the prompt to go on, so the check against the cycle limit
      in the source never decides anything. */
  function Cycle(w: World, userQuery: string, maxCycles: int, cycle: int,
                 history: seq<Message>, count: nat): (r: CycleOutcome)
    ensures r.complete <==> IsComplete(r.response, cycle, maxCycles)
    ensures |r.history| == |history| + (if r.complete then 1 else 2)
    ensures r.history[..|history|] == history
    ensures r.history[|history|] == Message(Assistant, r.response)
    ensures !r.complete ==> r.history[|history| + 1] == Message(User, ContinuePrompt)
    ensures r.count - count == |Blocks(w.planner(Prompt(w.systemPrompt, userQuery, history), cycle), 0)|
  {
    var reply := w.planner(Prompt(w.systemPrompt, userQuery, history), cycle);
    var codes := Blocks(reply, 0);
    var response := Rewritten(reply, Runs(w, codes, count));
    var complete := IsComplete(response, cycle, maxCycles);
    var turns := if !complete && cycle < maxCycles
      then [Message(Assistant, response), Message(User, ContinuePrompt)]
      else [Message(Assistant, response)];
    CycleOutcome(response, complete, history + turns, count + |codes|)
  }

  /** What a session yields: the last transcript, the conversation, the run
      count, and the number of the last cycle run (one less than the first
      cycle when none ran). */
  datatype RunOutcome = RunOutcome(response: string, history: seq<Message>,
                                   count: nat, lastCycle: int)

  /** One cycle of a given session, as a function of the cycle number, the
      conversation so far and the run count. */
  type Step = (int, seq<Message>, nat) -> CycleOutcome

  function CycleOf(w: World, userQuery: string, maxCycles: int): Step
  {
    (cycle: int, history: seq<Message>, count: nat) =>
      Cycle(w, userQuery, maxCycles, cycle, history, count)
  }

  /** The session from cycle `cycle` on: cycles run while the previous one
      was incomplete and the cycle number is within the limit. */
  function Run(step: Step, maxCycles: int, cycle: int,
               history: seq<Message>, count: nat, last: string): RunOutcome
    decreases if cycle <= maxCycles then maxCycles - cycle + 1 else 0
  {
    if cycle > maxCycles then RunOutcome(last, history, count, cycle - 1)
    else
      var o := step(cycle, history, count);
      if o.complete then RunOutcome(o.response, o.history, o.count, cycle)
      else Run(step, maxCycles, cycle + 1, o.history, o.count, o.response)
  }

  /** A whole session: from cycle 1, with an empty conversation and no
      answer yet. */
  function Solved(w: World, userQuery: string, maxCycles: int, count: nat): RunOutcome
  {
    Run(CycleOf(w, userQuery, maxCycles), maxCycles, 1, [], count, "")
  }

  /** What the session lemmas need to know of a cycle: the contract of
      `Cycle`. */
  ghost predicate CycleShaped(step: Step, maxCycles: int)
  {
    forall cycle, history, count :: var o := step(cycle, history, count);
      && (o.complete <==> IsComplete(o.response, cycle, maxCycles))
      && |o.history| == |history| + (if o.complete then 1 else 2)
      && o.history[..|history|] == history
      && o.history[|history|] == Message(Assistant, o.response)
      && (!o.complete ==> o.history[|history| + 1] == Message(User, ContinuePrompt))
      && o.count >= count
  }

  /** The conversation alternates: each cycle's transcript, followed by the
      prompt to go on when another cycle comes. */
  predicate Alternating(h: seq<Message>)
  {
    forall j :: 0 <= j < |h| ==>
      if j % 2 == 0 then h[j].role == Assistant else h[j] == Message(User, ContinuePrompt)
  }

  /** Every transcript in `h` from index `from` on, except the last message,
      is the transcript of an incomplete cycle, numbered from `first`. */
  predicate EarlierIncomplete(h: seq<Message>, from: nat, first: int, maxCycles: int)
  {
    forall j :: from <= j < |h| - 1 && (j - from) % 2 == 0 ==>
      !IsComplete(h[j].content, first + (j - from) / 2, maxCycles)
  }

  /** What a session from cycle `cycle` on does: when that cycle is within
      the limit, it runs cycles `cycle` to `lastCycle`, adding two messages
      for each incomplete cycle and one for the complete last one, whose
      transcript is the answer; otherwise it changes nothing. Either way the
      earlier conversation is kept. */
  lemma {:induction false} RunShape(step: Step, maxCycles: int, cycle: int,
                                    history: seq<Message>, count: nat, last: string)
    requires CycleShaped(step, maxCycles)
    ensures var r := Run(step, maxCycles, cycle, history, count, last);
      && (cycle > maxCycles ==> r == RunOutcome(last, history, count, cycle - 1))
      && (cycle <= maxCycles ==>
            && cycle <= r.lastCycle <= maxCycles
            && |r.history| == |history| + 2 * (r.lastCycle - cycle) + 1
            && IsComplete(r.response, r.lastCycle, maxCycles)
            && r.history[|r.history| - 1] == Message(Assistant, r.response))
      && |r.history| >= |history| && r.history[..|history|] == history
      && r.count >= count
    decreases if cycle <= maxCycles then maxCycles - cycle + 1 else 0
  {
    if cycle <= maxCycles {
      var o := step(cycle, history, count);
      if !o.complete {
        RunShape(step, maxCycles, cycle + 1, o.history, o.count, o.response);
        var r := Run(step, maxCycles, cycle + 1, o.history, o.count, o.response);
        PrefixOfPrefix(history, o.history, r.history);
      }
    }
  }

  /** A sequence identity for the session proofs; it models nothing. */
  lemma PrefixOfPrefix<T>(a: seq<T>, b: seq<T>, c: seq<T>)
    requires |a| <= |b| <= |c| && b[..|a|] == a && c[..|b|] == b
    ensures c[..|a|] == a
  {
    assert c[..|a|] == c[..|b|][..|a|];
  }

  /** One cycle keeps the conversation alternating, and an incomplete one
      leaves it of even length. */
  lemma CycleAlternates(step: Step, maxCycles: int, cycle: int, history: seq<Message>, count: nat)
    requires CycleShaped(step, maxCycles)
    requires Alternating(history) && |history| % 2 == 0
    ensures var o := step(cycle, history, count);
      && Alternating(o.history)
      && (!o.complete ==> |o.history| % 2 == 0)
  {
    var o := step(cycle, history, count);
    forall j | 0 <= j < |o.history|
      ensures if j % 2 == 0 then o.history[j].role == Assistant
              else o.history[j] == Message(User, ContinuePrompt)
    {
      if j < |history| {
        assert o.history[j] == o.history[..|history|][j];
      }
    }
  }

  /** The conversation of a session alternates between transcripts and
      prompts to go on, and every transcript but the last is that of an
      incomplete cycle: the session stops at the first complete cycle. */
  lemma {:induction false} RunAlternates(step: Step, maxCycles: int, cycle: int,
                                         history: seq<Message>, count: nat, last: string)
    requires CycleShaped(step, maxCycles)
    requires Alternating(history) && |history| % 2 == 0
    ensures var r := Run(step, maxCycles, cycle, history, count, last);
      && Alternating(r.history)
      && EarlierIncomplete(r.history, |history|, cycle, maxCycles)
    decreases if cycle <= maxCycles then maxCycles - cycle + 1 else 0
  {
    if cycle <= maxCycles {
      var o := step(cycle, history, count);
      CycleAlternates(step, maxCycles, cycle, history, count);
      if !o.complete {
        RunAlternates(step, maxCycles, cycle + 1, o.history, o.count, o.response);
        RunShape(step, maxCycles, cycle + 1, o.history, o.count, o.response);
        var r := Run(step, maxCycles, cycle + 1, o.history, o.count, o.response);
        assert r.history[|history|] == r.history[..|o.history|][|history|];
      }
    }
  }

  /** `Cycle` has the shape the session lemmas need. */
  lemma CycleOfShaped(w: World, userQuery: string, maxCycles: int)
    ensures CycleShaped(CycleOf(w, userQuery, maxCycles), maxCycles)
  {
  }

  /** A whole session, for any cycle with the contract of `Cycle` (as
      `CycleOf` has, by `CycleOfShaped`, so this is what `Solved` yields):
      with a limit below one no cycle runs and the answer is empty;
      otherwise it runs `k` cycles for some `1 <= k <= maxCycles`, stops at
      the first complete one, leaves `2k - 1` alternating messages and
      answers with the last transcript. */
  lemma SessionShape(step: Step, maxCycles: int, count: nat)
    requires CycleShaped(step, maxCycles)
    ensures var r := Run(step, maxCycles, 1, [], count, "");
      && (maxCycles < 1 ==> r == RunOutcome("", [], count, 0))
      && (maxCycles >= 1 ==>
            && 1 <= r.lastCycle <= maxCycles
            && |r.history| == 2 * r.lastCycle - 1
            && IsComplete(r.response, r.lastCycle, maxCycles)
            && r.history[|r.history| - 1] == Message(Assistant, r.response))
      && Alternating(r.history)
      && EarlierIncomplete(r.history, 0, 1, maxCycles)
      && r.count >= count
  {
    RunShape(step, maxCycles, 1, [], count, "");
    RunAlternates(step, maxCycles, 1, [], count, "");
  }

  /** The same, for the agent's own session `Solved`, the one `Solve`
      computes. */
  lemma SolvedShape(w: World, userQuery: string, maxCycles: int, count: nat)
    ensures var r := Solved(w, userQuery, maxCycles, count);
      && (maxCycles < 1 ==> r == RunOutcome("", [], count, 0))
      && (maxCycles >= 1 ==>
            && 1 <= r.lastCycle <= maxCycles
            && |r.history| == 2 * r.lastCycle - 1
            && IsComplete(r.response, r.lastCycle, maxCycles)
            && r.history[|r.history| - 1] == Message(Assistant, r.response))
      && Alternating(r.history)
      && EarlierIncomplete(r.history, 0, 1, maxCycles)
      && r.count >= count
  {
    CycleOfShaped(w, userQuery, maxCycles);
    SessionShape(CycleOf(w, userQuery, maxCycles), maxCycles, count);
  }

  /** The completion test in the terms of the source: the transcript holds
      "final answer" or "conclusion" with letters in any case, or the cycle
      is the last one allowed. */
  lemma IsCompleteMeaning(response: string, cycle: int, maxCycles: int)
    ensures IsComplete(response, cycle, maxCycles) <==>
      (exists i :: MatchesIgnoringCase(response, "final answer", i))
      || (exists i :: MatchesIgnoringCase(response, "conclusion", i))
      || cycle >= maxCycles
  {
    ContainsLower(response, "final answer");
    ContainsLower(response, "conclusion");
  }

  /** `_clean_response_for_output`: the response is returned as it is. */
  function CleanResponseForOutput(response: string): string
  {
    response
  }

  class CodeActAgent {
    const maxCycles: int
    var conversationHistory: seq<Message>
    var executionCount: nat

    /** A new agent has no conversation and has run no code. */
    constructor(maxCycles: int)
      ensures this.maxCycles == maxCycles
      ensures conversationHistory == [] && executionCount == 0
    {
      this.maxCycles := maxCycles;
      conversationHistory := [];
      executionCount := 0;
    }

    /** `_execute_code`: counts the run, then runs the code in the sandbox
        as the run with that number. */
    method ExecuteCode(code: string, w: World) returns (result: ExecResult)
      modifies this
      ensures executionCount == old(executionCount) + 1
      ensures conversationHistory == old(conversationHistory)
      ensures result == ToResult(w.sandbox(code, executionCount))
    {
      executionCount := executionCount + 1;
      result := ToResult(w.sandbox(code, executionCount));
    }

    /** `_process_cycle`: one thought-execute-observe cycle. */
    method ProcessCycle(userQuery: string, cycleNumber: int, w: World)
      returns (response: string, complete: bool)
      modifies this
      ensures var o := Cycle(w, userQuery, maxCycles, cycleNumber,
                             old(conversationHistory), old(executionCount));
        && response == o.response && complete == o.complete
        && conversationHistory == o.history && executionCount == o.count
    {
      var messages := [Message(System, w.systemPrompt), Message(User, userQuery)];
      var k := 0;
      while k < |conversationHistory|
        invariant k <= |conversationHistory|
        invariant messages == Prompt(w.systemPrompt, userQuery, conversationHistory[..k])
      {
        messages := messages + [conversationHistory[k]];
        k := k + 1;
      }
      assert conversationHistory[..k] == conversationHistory;
      var llmResponse := w.planner(messages, cycleNumber);
      var codeBlocks := ExtractCodeBlocks(llmResponse);
      var executionResults: seq<ExecResult> := [];
      var i := 0;
      while i < |codeBlocks|
        invariant i <= |codeBlocks|
        invariant conversationHistory == old(conversationHistory)
        invariant executionCount == old(executionCount) + i
        invariant executionResults == Runs(w, codeBlocks[..i], old(executionCount))
      {
        var result := ExecuteCode(codeBlocks[i], w);
        assert codeBlocks[..i + 1] == codeBlocks[..i] + [codeBlocks[i]];
        executionResults := executionResults + [result];
        i := i + 1;
      }
      assert codeBlocks[..i] == codeBlocks;
      var modified := RewriteTranscript(llmResponse, codeBlocks, executionResults);
      conversationHistory := conversationHistory + [Message(Assistant, modified)];
      complete := IsComplete(modified, cycleNumber, maxCycles);
      if !complete && cycleNumber < maxCycles {
        conversationHistory := conversationHistory + [Message(User, ContinuePrompt)];
      }
      response := modified;
    }

    /** `solve`: a fresh conversation, then cycles 1, 2, ... until one is
        complete or the limit is passed; the answer is the last transcript. */
    method Solve(userQuery: string, w: World) returns (answer: string)
      modifies this
      ensures var r := Solved(w, userQuery, maxCycles, old(executionCount));
        && answer == CleanResponseForOutput(r.response)
        && conversationHistory == r.history && executionCount == r.count
    {
      ghost var session := Solved(w, userQuery, maxCycles, executionCount);
      conversationHistory := [];
      var currentCycle := 1;
      var complete := false;
      var finalResponse := "";
      while !complete && currentCycle <= maxCycles
        invariant !complete ==> session == Run(CycleOf(w, userQuery, maxCycles), maxCycles, currentCycle,
                                               conversationHistory, executionCount, finalResponse)
        invariant complete ==> session == RunOutcome(finalResponse, conversationHistory,
                                                     executionCount, currentCycle - 1)
        decreases maxCycles + 1 - currentCycle
      {
        var cycleResponse;
        cycleResponse, complete := ProcessCycle(userQuery, currentCycle, w);
        finalResponse := cycleResponse;
        currentCycle := currentCycle + 1;
      }
      answer := CleanResponseForOutput(finalResponse);
    }
  }
}
