# CodeActAgent controller, modelled in Dafny

CodeActAgent answers a user's query with a thought-execute-observe loop, implemented in
`agents/codeact.py`. Each cycle:

- builds the prompt from the system prompt, the query and the conversation so far;
- asks the language model for a reply;
- extracts the `<execute>` ... `</execute>` code blocks from the reply;
- runs each block in a sandbox;
- splices the code and an `<execution_result>` block back into the reply;
- records the result in the conversation, and decides whether another cycle is needed.

`solve` runs cycles until one is complete or the cycle limit is passed, and returns the last
transcript.

The model has six modules:

- `Text`: the Python string operations the controller relies on.
  - `Find` is `str.find`.
  - `Strip` is `str.strip`, over the whitespace characters listed under Left out.
  - `Lower` is `str.lower` on ASCII letters.
  - `Contains` is `in`.
- `Protocol`: the four tags of the wire format, and how they can and cannot overlap.
- `Extraction`: `_extract_code_blocks` as a method with a `while` loop, proved against the
  recursive scan `Blocks`. The scan's properties are lemmas about `Blocks` and the tag
  positions `Spans`.
- `Execution`: the result dictionary of `_execute_code`.
  - An `Outcome` (exited, timed out, raised) stands for the subprocess run.
  - `ToResult` builds the dictionary from it.
  - `ErrorMessage` is the error text the rewrite reports.
- `Rewriter`: the rewrite loop of `_process_cycle`, as a method proved to produce the closed
  form `AsWritten`. It also holds what the next cycle's extraction reads back from that text,
  and the rewrite the code evidently intends (`Corrected`); see Findings.
- `Agent`: the class `CodeActAgent`.
  - Its fields are `maxCycles`, `conversationHistory` and `executionCount`.
  - Its methods are `ExecuteCode`, `ProcessCycle` and `Solve`.
  - `Cycle` and `Run` are pure functions that state what one cycle and a whole session
    produce.
  - The lemmas about them cover the cycle count, the history length and the conversation's
    shape.
  - `CleanResponseForOutput` is the identity, as in the source; `Solve` returns through it.

The model follows the code. In one place the code and its own comments disagree:

- The comments on the rewrite loop (agents/codeact.py:181 and 184) say that each block is
  replaced by its code and result, and that each pass finds "the current execute block".
- The code searches from index 0 on every pass (agents/codeact.py:185), so it replaces the
  reply's first block every time.

`ProcessCycle` uses the loop as written. The intended rewrite is modelled beside it and
compared with it under Findings.

The language model, the sandbox and the prompt file are not modelled. A `World` value supplies
them:

- `planner` maps the messages and the cycle number to a reply.
- `sandbox` maps a code block and its run number to an `Outcome`.
- `systemPrompt` is the prompt text.

## Model

| member | source | states |
|---|---|---|
| `Text.FindSpec` | agents/codeact.py:111-117 | `str.find` returns -1 or an index where the pattern occurs, and the pattern occurs at no earlier index from the start position |
| `Text.FindIs` | agents/codeact.py:111-117 | conversely, the first occurrence at or after the start position (or -1 when there is none) is what `str.find` returns |
| `Text.StripRangeSpec` | agents/codeact.py:120 | stripping a slice yields a contiguous part of it with no whitespace at either end, and everything cut off is whitespace |
| `Text.StripRangeIsStrip` | agents/codeact.py:120 | stripping the slice in place equals `strip()` of the copied slice |
| `Text.ContainsLower` | agents/codeact.py:213-215 | `kw in s.lower()` holds iff some run of characters of `s` lower-cases to `kw` |
| `Protocol.CloseNotInsideOpen` | agents/codeact.py:115 | no closing tag starts inside an opening tag, so the closing tag found from an opening tag lies after it |
| `Protocol.ResultTagsHaveNoOpenTag` | agents/codeact.py:194-197 | neither result tag contains `<execute>` |
| `Extraction.ExtractCodeBlocks` | agents/codeact.py:97-125 | the scanning loop returns exactly the blocks of the recursive scan `Blocks(text, 0)` |
| `Extraction.BlocksNonEmpty` | agents/codeact.py:110-117 | the scan yields at least one block iff some opening tag at or after the position has a closing tag after it; with no opening tag, or none closed, it yields nothing |
| `Extraction.UnmatchedOpenAddsNothing` | agents/codeact.py:115-117 | appending an opening tag with no closing tag after it adds no block: the scan stops there |
| `Extraction.InnerText` | agents/codeact.py:115-120 | the text between an opening tag and the first closing tag after it lies after the opening tag and contains no closing tag |
| `Extraction.BlocksCount` | agents/codeact.py:110-123 | there are as many blocks as matched tag pairs found by the scan |
| `Extraction.BlockAt` | agents/codeact.py:115-121 | the i-th block is the stripped text strictly between the i-th opening tag and the first closing tag after it |
| `Extraction.BlocksAtSpans` | agents/codeact.py:115-121 | every block is the stripped text between its tag pair, and every pair lies inside the text |
| `Extraction.SpansOrdered` | agents/codeact.py:111-123 | the tag pairs come left to right and do not overlap: each closing tag ends at or before the next opening tag |
| `Extraction.BlocksClean` | agents/codeact.py:119-121 | every block is stripped and contains no `</execute>` |
| `Extraction.BlocksSameOpen` | agents/codeact.py:111 | scanning from two positions that share the same next opening tag yields the same blocks |
| `Extraction.BlocksOfPair` | agents/codeact.py:110-123 | a text starting with a tag pair yields that pair's stripped body, then the blocks of the rest |
| `Execution.ToResultSuccess` | agents/codeact.py:67-91 | a run succeeds iff the process exited with return code 0, and a successful result carries the captured output |
| `Execution.ErrorMessageOfRun` | agents/codeact.py:81-91 | the error text of a failed run is the captured standard error, the time-out message or the exception text; the "Unknown error" fallback is never reached for a run's result |
| `Rewriter.RewriteTranscript` | agents/codeact.py:181-204 | with no blocks the reply is returned unchanged; otherwise the loop yields the text before the first block, the first block rebuilt with the last code, the results newest first, then the reply after its first block |
| `Rewriter.RewriteFirst` | agents/codeact.py:185-204 | the first pass finds the reply's first block, and replacing it gives the closed form for one result |
| `Rewriter.AsWrittenTags` | agents/codeact.py:185-188 | on the text rewritten so far, the first opening tag is still at the reply's first-tag index, and the closing tag found from it ends the rebuilt block |
| `Rewriter.AsWrittenPush` | agents/codeact.py:190-204 | one more pass replaces that rebuilt block with the next code, and pushes the next result in front of the earlier ones |
| `Rewriter.AsWrittenFrame` | agents/codeact.py:182-204 | the rewritten text keeps the text before the reply's first opening tag as its prefix, and the reply after the first block (with all later blocks) as its suffix |
| `Rewriter.HeaderClean` | agents/codeact.py:193-197 | both result headings end a line and contain no opening tag |
| `Rewriter.ResultBlockClean` | agents/codeact.py:194-197 | a result block whose reported text has no opening tag has none itself, and ends a line |
| `Rewriter.StackedClean` | agents/codeact.py:183-204 | the stacked result blocks contain no opening tag when no reported text does |
| `Rewriter.CodeBlockBlocks` | agents/codeact.py:191 | extraction reads a rebuilt code block back as its code |
| `Rewriter.ExecutionBlockBlocks` | agents/codeact.py:191-197 | extraction reads a code block plus its result block back as the code alone |
| `Rewriter.BlocksBehindFirst` | agents/codeact.py:123 | the blocks after the first are the blocks of the text after the first closing tag |
| `Rewriter.AsWrittenBlocks` | agents/codeact.py:181-204 | read back, the as-written transcript yields the last code and then the reply's blocks after the first: the first block's code is gone |
| `Rewriter.AsWrittenLosesFirstBlock` | agents/codeact.py:185 | for the reply with blocks `x` and `y`, extraction of the as-written transcript gives `y, y` |
| `Rewriter.CorrectedBlocks` | agents/codeact.py:181-204 | read back, the intended rewrite yields exactly the reply's blocks |
| `Rewriter.SingleBlockAgrees` | agents/codeact.py:181-204 | for a reply with exactly one block, the loop as written and the intended rewrite give the same text |
| `Agent.Runs` | agents/codeact.py:164-171 | one result per extracted block, each of which can be rendered (a successful one carries its output) |
| `Agent.Cycle` | agents/codeact.py:207-226 | a cycle is complete iff the completion test holds; it appends one assistant message holding the transcript, plus the continuation prompt iff the cycle is not complete; earlier history is kept; the run count grows by the number of blocks in the reply |
| `Agent.IsCompleteMeaning` | agents/codeact.py:213-217 | complete iff the transcript holds "final answer" or "conclusion" in any ASCII letter case, or the cycle number is at least the limit |
| `Agent.CycleAlternates` | agents/codeact.py:207-226 | a cycle keeps the conversation alternating between transcripts and continuation prompts, and an incomplete cycle leaves it of even length |
| `Agent.RunShape` | agents/codeact.py:245-250 | from a cycle within the limit, the session runs consecutive cycles up to a last one within the limit, adds two messages per incomplete cycle and one for the last, which is complete and is the answer; past the limit nothing runs |
| `Agent.RunAlternates` | agents/codeact.py:219-250 | the conversation alternates, and every transcript but the last is of an incomplete cycle: the session stops at the first complete cycle |
| `Agent.SessionShape` | agents/codeact.py:240-258 | with a limit below 1 no cycle runs and the answer is ""; otherwise k cycles run with 1 <= k <= limit, the history has 2k - 1 alternating messages and ends with the answer, and cycle k is the first complete one |
| `Agent.SolvedShape` | agents/codeact.py:240-258 | the same for the agent's own session `Solved`, which `Solve` computes: no cycle and the answer "" below a limit of 1; otherwise 1 <= k <= limit cycles, 2k - 1 alternating messages ending with the answer, and cycle k the first complete one |
| `Agent.CodeActAgent.constructor` | agents/codeact.py:17-36 | a new agent has the given cycle limit, an empty conversation and no runs |
| `Agent.CodeActAgent.ExecuteCode` | agents/codeact.py:48-59 | the run count grows by one, and the sandbox is given the code with the new count; the conversation is untouched |
| `Agent.CodeActAgent.ProcessCycle` | agents/codeact.py:127-228 | the method's transcript, completion flag, new conversation and run count are those of `Cycle` for the old conversation and count |
| `Agent.CodeActAgent.Solve` | agents/codeact.py:230-272 | the answer, conversation and run count are those of the session `Solved` (from cycle 1 with an empty conversation); the answer goes through `CleanResponseForOutput` unchanged |

## Left out

- The internals of `_execute_code` are not modelled: writing the temporary file, `subprocess.run`,
  the 30-second limit and the clean-up (agents/codeact.py:60-95). They are operating-system
  process and file I/O. The sandbox is a function in `World` returning an `Outcome`. Only the
  counter increment and the shape of the result dictionary are modelled.
- The random part of the temporary file name is not modelled. The sandbox receives the run
  number in its place.
- `_construct_system_prompt` reads a file; the model takes its text as `World.systemPrompt`. The
  source re-reads the file on every cycle, so a prompt file that changes during a session is not
  modelled.
- `planner_tool`, and the network model client behind it, are an oracle, `World.planner`, of the
  messages and the cycle number. That covers tools/planner.py, llms/litellm.py, main.py and llm.py.
- Failures of `World.planner` and `World.systemPrompt` are not modelled: both always return. In
  the source, an exception from `planner_tool` (agents/codeact.py:155) or from the prompt-file
  read (agents/codeact.py:44, called at 142) propagates out of `_process_cycle` and `solve`
  uncaught. The agent is then left with the conversation of the cycles already finished.
- `async`/`await` and the `debug` prints are not modelled: the cycle is sequential and printing
  changes no state. The `model` and `debug` fields are left out with them.
- `str.strip` is modelled over the ASCII whitespace characters only: tab through carriage return,
  `\x1c` through `\x1f`, and space. Python also strips other Unicode whitespace.
- `str.lower` is modelled on ASCII letters only.
- The rewrite loop's case where `find` returns -1 is not modelled. It cannot happen here:
  `Rewriter.AsWrittenTags` proves that every pass finds both tags.
- Agent.Runs: its contract states one renderable result per block. Which sandbox call produces
  each result is stated by its definition, and by the loop invariant of `ProcessCycle`.
- Rewriter.AsWrittenBlocks: holds only when no reported output or error text contains
  `<execute>`. Such text would add blocks when the next cycle reads the transcript back.
- Rewriter.CorrectedBlocks: holds under the same condition as `AsWrittenBlocks`.

## Findings

| source | as written | input that shows it | evidently intended | confidence | as-written member | corrected member |
|---|---|---|---|---|---|---|
| agents/codeact.py:185 | each pass looks for the first `<execute>` of the text rewritten so far, from index 0, so every pass rewrites the reply's first block again and the later blocks keep their original text | a reply `<execute>x</execute><execute>y</execute>` with two results: the transcript's blocks read back as `y, y`, so code `x` disappears, `y` appears twice and the second original block gets no result | each pass rewrites the next block not yet rewritten (the comment on line 184 speaks of the current block), so that reading back the transcript yields the reply's blocks `x, y` | not executed | `Rewriter.AsWrittenLosesFirstBlock` | `Rewriter.CorrectedBlocks` |

`Rewriter.Corrected` annotates each block in place with its own result.

- `Rewriter.CorrectedBlocks` proves that extraction reads the corrected transcript back as the
  reply's own blocks.
- `Rewriter.SingleBlockAgrees` proves that for a reply with one block, the corrected rewrite
  gives the same text as the loop as written.
- `ProcessCycle` keeps the loop as written, because the model follows the code.
