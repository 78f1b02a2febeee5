/**
 * How `_process_cycle` rewrites the model's reply after running its code
 * blocks (agents/codeact.py:181-204): each block is replaced by the block
 * followed by an execution-result block that reports what the run printed
 * or the error it raised.
 *
 * The loop as written looks for the FIRST opening tag of the text being
 * rewritten on every iteration, not for the block it is annotating. After
 * the first iteration the first opening tag is the one the loop itself
 * inserted, so every iteration rewrites the same spot: the first block of
 * the reply ends up holding the last block's code, the result blocks stack
 * up behind it newest first, and the reply's other blocks are left as they
 * were. `RewriteTranscript` models that loop and `AsWritten` is its closed
 * form; `Corrected` is the transcript that annotates each block in place.
 */
module Rewriter {
  import opened Text
  import opened Protocol
  import opened Extraction
  import opened Execution

  const SuccessHeader := "Execution successful. Output:\n"
  const FailureHeader := "Execution failed with error:\n"

  /** The text a result reports: the captured output of a successful run, or
      the error message of a failed one. */
  function Reported(r: ExecResult): string
    requires WellFormed(r)
  {
    if r.success then r.stdout.value else ErrorMessage(r)
  }

  /** The line that heads a result's report. */
  function Header(r: ExecResult): string
  {
    if r.success then SuccessHeader else FailureHeader
  }

  /** The execution-result block for one result, ending in a line break. */
  function ResultBlock(r: ExecResult): string
    requires WellFormed(r)
  {
    ResultOpenTag + "\n" + Header(r) + Reported(r) + ResultCloseTag + "\n"
  }

  /** A code block written back with its code on lines of its own. */
  function Padded(code: string): string
  {
    "\n" + code + "\n"
  }

  function CodeBlock(code: string): string
  {
    OpenTag + Padded(code) + CloseTag
  }

  /** What replaces a block: the block, a line break and its result. */
  function ExecutionBlock(code: string, r: ExecResult): string
    requires WellFormed(r)
  {
    CodeBlock(code) + "\n" + ResultBlock(r)
  }

  predicate AllWellFormed(rs: seq<ExecResult>)
  {
    forall i :: 0 <= i < |rs| ==> WellFormed(rs[i])
  }

  /** Results whose reported text holds no opening tag. */
  predicate TagFree(rs: seq<ExecResult>)
  {
    AllWellFormed(rs) && forall i :: 0 <= i < |rs| ==> !Contains(Reported(rs[i]), OpenTag)
  }

  /** The result blocks the as-written loop leaves behind the first block,
      newest first, each after a line break. */
  function Stacked(rs: seq<ExecResult>): string
    requires AllWellFormed(rs)
    decreases |rs|
  {
    if rs == [] then "" else "\n" + ResultBlock(rs[|rs| - 1]) + Stacked(rs[..|rs| - 1])
  }

  /** The reply after the as-written loop has run for every result in
      `results` (at least one), `last` being the code of the last block run:
      the text before the first block, that block rewritten with `last`, the
      stacked results, and the text after the first block. */
  function AsWritten(response: string, last: string, results: seq<ExecResult>): string
    requires HasBlock(response, 0) && results != [] && AllWellFormed(results)
  {
    NextTags(response, 0);
    response[..Find(response, OpenTag, 0)]
      + (CodeBlock(last) + (Stacked(results) + response[NextPos(response, 0)..]))
  }

  /** The transcript the rewrite loop produces for any number of blocks:
      the reply itself when it has none. */
  function Rewritten(response: string, results: seq<ExecResult>): string
    requires |results| == |Blocks(response, 0)| && AllWellFormed(results)
  {
    if Blocks(response, 0) == [] then response
    else
      BlocksNonEmpty(response, 0);
      AsWritten(response, Blocks(response, 0)[|Blocks(response, 0)| - 1], results)
  }

  // ---------------------------------------------------------------------
  // The rewrite loop
  // ---------------------------------------------------------------------

  /** A padded code without closing tags holds none either. */
  lemma PaddedClean(code: string)
    requires !Contains(code, CloseTag)
    ensures !Contains(Padded(code), CloseTag)
  {
    ShortHasNoTag("\n", CloseTag);
    TagsJoin("\n", code);
    AbsentConcat("\n", code, CloseTag);
    TagsJoin("\n" + code, "\n");
    AbsentConcat("\n" + code, "\n", CloseTag);
  }

  /** Behind a prefix without opening tags, a text that starts with an
      opening tag keeps its first opening and closing tags, shifted. */
  lemma FirstAfterPrefix(p: string, t: string, e: nat)
    requires !Contains(p, OpenTag) && |t| > 0 && t[0] == '<'
    requires Find(t, OpenTag, 0) == 0 && Find(t, CloseTag, 0) == e
    ensures Find(p + t, OpenTag, 0) == |p|
    ensures Find(p + t, CloseTag, |p|) == |p| + e
  {
    TagsJoin(p, t);
    FindPastLeft(p, t, OpenTag, 0);
    FindInRight(p, t, CloseTag, 0);
  }

  /** In a text made of a prefix without opening tags and a code block, the
      first opening tag is the code block's and the first closing tag after
      it ends the code block. */
  lemma SpliceAt(p: string, code: string, rest: string)
    requires !Contains(p, OpenTag) && !Contains(code, CloseTag)
    ensures Find(p + (CodeBlock(code) + rest), OpenTag, 0) == |p|
    ensures Find(p + (CodeBlock(code) + rest), CloseTag, |p|) + |CloseTag|
      == |p| + |CodeBlock(code)|
  {
    var t := (OpenTag + Padded(code)) + (CloseTag + rest);
    Regroup(OpenTag, Padded(code), CloseTag, rest);
    PaddedClean(code);
    PairTags(Padded(code), rest);
    FirstAfterPrefix(p, t, |OpenTag| + |Padded(code)|);
  }

  /** The splice the loop performs, on a text of that shape, swaps the code
      block for `block` and keeps both sides. */
  lemma SpliceParts(p: string, cb: string, rest: string, block: string)
    ensures (p + (cb + rest))[..|p|] + block + (p + (cb + rest))[|p| + |cb|..]
      == p + block + rest
  {
    var m := p + (cb + rest);
    assert m[..|p|] == p;
    assert m[|p| + |cb|..] == rest;
  }

  /** Putting an execution block in front of the stacked results gives the
      as-written shape with one more result on the stack. */
  lemma PushBlock(p: string, code: string, r: ExecResult, stack: string, tail: string)
    requires WellFormed(r)
    ensures p + ExecutionBlock(code, r) + (stack + tail)
      == p + (CodeBlock(code) + (("\n" + ResultBlock(r) + stack) + tail))
  {
    Regroup6(p, CodeBlock(code), "\n", ResultBlock(r), stack, tail);
  }

  /** A single result on the stack. */
  lemma StackedOne(rs: seq<ExecResult>)
    requires |rs| == 1 && AllWellFormed(rs)
    ensures Stacked(rs) == "\n" + ResultBlock(rs[0])
  {
    assert rs[..0] == [];
  }

  /** The first iteration of the rewrite loop turns the reply's first block,
      from `s` up to `e`, into an execution block. */
  lemma RewriteFirst(response: string, code: string, rs: seq<ExecResult>, s: nat, e: nat)
    requires HasBlock(response, 0) && |rs| == 1 && AllWellFormed(rs)
    requires s == Find(response, OpenTag, 0) && e == NextPos(response, 0)
    ensures s <= e <= |response| && Find(response, CloseTag, s) + |CloseTag| == e
    ensures response[..s] + ExecutionBlock(code, rs[0]) + response[e..] == AsWritten(response, code, rs)
  {
    NextTags(response, 0);
    StackedOne(rs);
    PushBlock(response[..s], code, rs[0], "", response[e..]);
    assert "" + response[e..] == response[e..];
  }

  /** On the as-written text, the first opening tag is still the reply's
      first one, at `s`, and the first closing tag after it ends the code
      block written there. */
  lemma AsWrittenTags(response: string, last: string, done: seq<ExecResult>, s: nat)
    requires HasBlock(response, 0) && done != [] && AllWellFormed(done)
    requires !Contains(last, CloseTag) && s == Find(response, OpenTag, 0)
    ensures Find(AsWritten(response, last, done), OpenTag, 0) == s
    ensures Find(AsWritten(response, last, done), CloseTag, s) + |CloseTag|
      == s + |CodeBlock(last)| <= |AsWritten(response, last, done)|
  {
    NextTags(response, 0);
    AbsentBeforeFirst(response, OpenTag, 0);
    assert response[0..s] == response[..s];
    SpliceAt(response[..s], last, Stacked(done) + response[NextPos(response, 0)..]);
  }

  /** Splicing an execution block over the code block at `s` of the
      as-written text pushes one more result onto the stack. */
  lemma AsWrittenPush(response: string, last: string, done: seq<ExecResult>,
                      code: string, r: ExecResult, s: nat)
    requires HasBlock(response, 0) && done != [] && AllWellFormed(done) && WellFormed(r)
    requires s == Find(response, OpenTag, 0)
    ensures s + |CodeBlock(last)| <= |AsWritten(response, last, done)|
    ensures var m := AsWritten(response, last, done);
      m[..s] + ExecutionBlock(code, r) + m[s + |CodeBlock(last)|..]
        == AsWritten(response, code, done + [r])
  {
    NextTags(response, 0);
    var p := response[..s];
    var tail := response[NextPos(response, 0)..];
    SpliceParts(p, CodeBlock(last), Stacked(done) + tail, ExecutionBlock(code, r));
    TakeOneMore(done + [r], |done|);
    PushBlock(p, code, r, Stacked(done), tail);
  }

  /** What the as-written loop leaves alone: the text before the reply's
      first opening tag stays in front, and the text after the first block's
      closing tag stays at the end; every later block of the reply is in
      that tail, untouched. */
  lemma AsWrittenFrame(response: string, last: string, results: seq<ExecResult>, s: nat, e: nat)
    requires HasBlock(response, 0) && results != [] && AllWellFormed(results)
    requires s == Find(response, OpenTag, 0) && e == NextPos(response, 0)
    ensures s <= e <= |response|
    ensures |AsWritten(response, last, results)|
      == s + |CodeBlock(last)| + |Stacked(results)| + (|response| - e)
    ensures AsWritten(response, last, results)[..s] == response[..s]
    ensures AsWritten(response, last, results)[s + |CodeBlock(last)| + |Stacked(results)|..]
      == response[e..]
  {
    NextTags(response, 0);
    Ends(response[..s], CodeBlock(last), Stacked(results), response[e..]);
  }

  /** `_process_cycle`'s rewrite loop: for each block and its result, find
      the first opening tag of the reply, the first closing tag after it,
      and replace that stretch with the block and its result. With no
      blocks the reply is unchanged; otherwise it is `AsWritten`. */
  method RewriteTranscript(response: string, codes: seq<string>, results: seq<ExecResult>)
    returns (modified: string)
    requires codes == Blocks(response, 0)
    requires |results| == |codes| && AllWellFormed(results)
    ensures codes == [] ==> modified == response
    ensures codes != [] ==> HasBlock(response, 0)
    ensures codes != [] ==> modified == AsWritten(response, codes[|codes| - 1], results)
  {
    BlocksNonEmpty(response, 0);
    BlocksClean(response, 0);
    modified := response;
    var i := 0;
    while i < |codes|
      invariant i <= |codes|
      invariant i == 0 ==> modified == response
      invariant i > 0 ==> modified == AsWritten(response, codes[i - 1], results[..i])
    {
      ghost var s := Find(response, OpenTag, 0);
      if i == 0 {
        RewriteFirst(response, codes[0], results[..1], s, NextPos(response, 0));
      } else {
        TakeOneMore(results, i);
        AsWrittenTags(response, codes[i - 1], results[..i], s);
        AsWrittenPush(response, codes[i - 1], results[..i], codes[i], results[i], s);
      }
      var startTag := Find(modified, OpenTag, 0);
      var endTag := Find(modified, CloseTag, startTag) + |CloseTag|;
      modified := modified[..startTag] + ExecutionBlock(codes[i], results[i]) + modified[endTag..];
      i := i + 1;
    }
    TakeAll(results);
  }

  // ---------------------------------------------------------------------
  // What the model's next turn reads back
  // ---------------------------------------------------------------------

  /** A report heading holds no `<`, so no opening tag, and ends a line. */
  lemma HeaderClean(r: ExecResult)
    ensures !Contains(Header(r), OpenTag)
    ensures |Header(r)| > 0 && Header(r)[|Header(r)| - 1] == '\n'
  {
    assert OpenTag[0] !in SuccessHeader;
    assert OpenTag[0] !in FailureHeader;
    AbsentByFirstChar(Header(r), OpenTag);
  }

  /** A result block whose reported text holds no opening tag holds none,
      and it ends a line. */
  lemma ResultBlockClean(r: ExecResult)
    requires WellFormed(r) && !Contains(Reported(r), OpenTag)
    ensures !Contains(ResultBlock(r), OpenTag)
    ensures ResultBlock(r)[|ResultBlock(r)| - 1] == '\n'
  {
    ResultTagsHaveNoOpenTag();
    HeaderClean(r);
    ShortHasNoTag("\n", OpenTag);
    var a1 := ResultOpenTag + "\n";
    TagsJoin(ResultOpenTag, "\n");
    AbsentConcat(ResultOpenTag, "\n", OpenTag);
    var a2 := a1 + Header(r);
    TagsJoin(a1, Header(r));
    AbsentConcat(a1, Header(r), OpenTag);
    var a3 := a2 + Reported(r);
    TagsJoin(a2, Reported(r));
    AbsentConcat(a2, Reported(r), OpenTag);
    var a4 := a3 + ResultCloseTag;
    TagsJoin(a3, ResultCloseTag);
    AbsentConcat(a3, ResultCloseTag, OpenTag);
    TagsJoin(a4, "\n");
    AbsentConcat(a4, "\n", OpenTag);
  }

  /** A line break and a result block: no opening tag, and a line end. */
  lemma NewlineResultClean(r: ExecResult)
    requires WellFormed(r) && !Contains(Reported(r), OpenTag)
    ensures !Contains("\n" + ResultBlock(r), OpenTag)
    ensures ("\n" + ResultBlock(r))[|"\n" + ResultBlock(r)| - 1] == '\n'
  {
    ResultBlockClean(r);
    ShortHasNoTag("\n", OpenTag);
    TagsJoin("\n", ResultBlock(r));
    AbsentConcat("\n", ResultBlock(r), OpenTag);
  }

  lemma TagFreeTake(rs: seq<ExecResult>, n: nat)
    requires TagFree(rs) && n <= |rs|
    ensures TagFree(rs[..n])
  {
    assert forall i :: 0 <= i < n ==> rs[..n][i] == rs[i];
  }

  lemma TagFreeDrop(rs: seq<ExecResult>)
    requires TagFree(rs) && rs != []
    ensures TagFree(rs[1..])
  {
    assert forall i :: 0 <= i < |rs| - 1 ==> rs[1..][i] == rs[i + 1];
  }

  /** Stacked results hold no opening tag when their reports hold none, and
      a non-empty stack ends a line. */
  lemma {:induction false} StackedClean(rs: seq<ExecResult>)
    requires TagFree(rs)
    ensures !Contains(Stacked(rs), OpenTag)
    ensures rs != [] ==> Stacked(rs)[|Stacked(rs)| - 1] == '\n'
    decreases |rs|
  {
    if rs == [] {
      ShortHasNoTag("", OpenTag);
    } else {
      var init := rs[..|rs| - 1];
      var top := "\n" + ResultBlock(rs[|rs| - 1]);
      TagFreeTake(rs, |rs| - 1);
      StackedClean(init);
      NewlineResultClean(rs[|rs| - 1]);
      TagsJoin(top, Stacked(init));
      AbsentConcat(top, Stacked(init), OpenTag);
      if init == [] {
        assert Stacked(rs) == top + "";
      }
    }
  }

  /** A code block yields its code back when extracted: the code sits
      between the tags on lines of its own. */
  lemma CodeBlockBlocks(code: string, rest: string)
    requires IsStripped(code) && !Contains(code, CloseTag)
    ensures Blocks(CodeBlock(code) + rest, 0) == [code] + Blocks(rest, 0)
  {
    PaddedClean(code);
    BlocksOfPair(Padded(code), rest);
    StripPadded("\n", code, "\n");
  }

  /** ... and so does an execution block, whose result adds no block. */
  lemma ExecutionBlockBlocks(code: string, r: ExecResult, rest: string)
    requires IsStripped(code) && !Contains(code, CloseTag)
    requires WellFormed(r) && !Contains(Reported(r), OpenTag)
    ensures Blocks(ExecutionBlock(code, r) + rest, 0) == [code] + Blocks(rest, 0)
  {
    var tail := "\n" + ResultBlock(r);
    RegroupInner(CodeBlock(code), "\n", ResultBlock(r), rest);
    CodeBlockBlocks(code, tail + rest);
    NewlineResultClean(r);
    TagsJoin(tail, rest);
    BlocksSkip(tail, rest);
  }

  /** The blocks after the first one of a reply are the blocks of the text
      behind it. */
  lemma BlocksBehindFirst(response: string)
    requires HasBlock(response, 0)
    ensures NextPos(response, 0) <= |response| && Blocks(response, 0) != []
    ensures Blocks(response, 0)[1..] == Blocks(response[NextPos(response, 0)..], 0)
  {
    NextTags(response, 0);
    BlocksNonEmpty(response, 0);
    var e := NextPos(response, 0);
    BlocksStep(response, 0);
    Halves(response, e);
    BlocksShift(response[..e], response[e..], 0, e);
  }

  /** What the model reads back from the as-written transcript: the first
      block carries the LAST block's code, and the reply's other blocks
      follow unchanged, so the first block's code is gone (unless the reply
      had a single block). */
  lemma AsWrittenBlocks(response: string, codes: seq<string>, results: seq<ExecResult>)
    requires codes == Blocks(response, 0) && codes != []
    requires |results| == |codes| && TagFree(results)
    ensures HasBlock(response, 0)
    ensures Blocks(AsWritten(response, codes[|codes| - 1], results), 0)
      == [codes[|codes| - 1]] + codes[1..]
  {
    BlocksNonEmpty(response, 0);
    NextTags(response, 0);
    var s := Find(response, OpenTag, 0);
    var p := response[..s];
    var last := codes[|codes| - 1];
    var stack := Stacked(results);
    var tail := response[NextPos(response, 0)..];
    AbsentBeforeFirst(response, OpenTag, 0);
    assert response[0..s] == p;
    var rest := CodeBlock(last) + (stack + tail);
    assert rest[0] == '<';
    TagsJoin(p, rest);
    BlocksSkip(p, rest);
    BlockClean(response, 0, |codes| - 1);
    CodeBlockBlocks(last, stack + tail);
    StackedClean(results);
    TagsJoin(stack, tail);
    BlocksSkip(stack, tail);
    BlocksBehindFirst(response);
  }

  /** A reply with two blocks, "x" then "y": the as-written transcript reads
      back as "y" twice, and "x" is lost. */
  lemma AsWrittenLosesFirstBlock(r0: ExecResult, r1: ExecResult)
    requires TagFree([r0, r1])
    ensures var reply := OpenTag + "x" + CloseTag + OpenTag + "y" + CloseTag;
      && Blocks(reply, 0) == ["x", "y"] && HasBlock(reply, 0)
      && Blocks(AsWritten(reply, "y", [r0, r1]), 0) == ["y", "y"]
  {
    var reply := OpenTag + "x" + CloseTag + OpenTag + "y" + CloseTag;
    var second := OpenTag + "y" + CloseTag + "";
    PairsJoin(OpenTag, "x", CloseTag, OpenTag, "y", CloseTag);
    ShortHasNoTag("x", CloseTag);
    ShortHasNoTag("y", CloseTag);
    StripPadded("", "x", "");
    StripPadded("", "y", "");
    NoPadding("x");
    NoPadding("y");
    BlocksStep("", 0);
    BlocksOfPair("y", "");
    BlocksOfPair("x", second);
    AsWrittenBlocks(reply, ["x", "y"], [r0, r1]);
  }

  // ---------------------------------------------------------------------
  // The rewrite as intended
  // ---------------------------------------------------------------------

  /** The transcript that annotates each block of `text` from `pos` on in
      place, the i-th block with the i-th result: the text up to the block,
      the block with its result, and the rest rewritten the same way. Text
      after the last annotated block is kept as it is. */
  function Corrected(text: string, pos: nat, results: seq<ExecResult>): string
    requires pos <= |text| && AllWellFormed(results)
    decreases |text| - pos
  {
    if results == [] || !HasBlock(text, pos) then text[pos..]
    else
      NextTags(text, pos);
      assert AllWellFormed(results[1..]) by {
        assert forall i :: 0 <= i < |results| - 1 ==> results[1..][i] == results[i + 1];
      }
      text[pos..Find(text, OpenTag, pos)] + ExecutionBlock(NextCode(text, pos), results[0])
        + Corrected(text, NextPos(text, pos), results[1..])
  }

  /** The tail of a text from a position with no block holds no block. */
  lemma NoBlockBehind(text: string, pos: nat)
    requires pos <= |text| && !HasBlock(text, pos)
    ensures Blocks(text[pos..], 0) == []
  {
    Halves(text, pos);
    ShiftTags(text[..pos], text[pos..], 0, pos);
    BlocksStep(text[pos..], 0);
  }

  /** Reading the corrected transcript back yields exactly the blocks of
      the reply: every block keeps its own code, in order, and the result
      blocks add none. */
  lemma {:induction false} CorrectedBlocks(text: string, pos: nat, results: seq<ExecResult>)
    requires pos <= |text| && TagFree(results) && |results| == |Blocks(text, pos)|
    ensures Blocks(Corrected(text, pos, results), 0) == Blocks(text, pos)
    decreases |text| - pos
  {
    BlocksStep(text, pos);
    if !HasBlock(text, pos) {
      NoBlockBehind(text, pos);
    } else {
      NextTags(text, pos);
      var g := text[pos..Find(text, OpenTag, pos)];
      var c := NextCode(text, pos);
      var np := NextPos(text, pos);
      TagFreeDrop(results);
      var rest := Corrected(text, np, results[1..]);
      var block := ExecutionBlock(c, results[0]);
      Regroup3(g, block, rest);
      AbsentBeforeFirst(text, OpenTag, pos);
      assert (block + rest)[0] == '<';
      TagsJoin(g, block + rest);
      BlocksSkip(g, block + rest);
      NextCodeClean(text, pos);
      ExecutionBlockBlocks(c, results[0], rest);
      CorrectedBlocks(text, np, results[1..]);
    }
  }

  /** On a reply with a single block the as-written loop and the corrected
      rewrite agree. */
  lemma SingleBlockAgrees(text: string, results: seq<ExecResult>)
    requires |Blocks(text, 0)| == 1 && |results| == 1 && AllWellFormed(results)
    ensures HasBlock(text, 0)
    ensures Corrected(text, 0, results) == AsWritten(text, Blocks(text, 0)[0], results)
  {
    BlocksNonEmpty(text, 0);
    BlocksStep(text, 0);
    NextTags(text, 0);
    var s := Find(text, OpenTag, 0);
    var c := NextCode(text, 0);
    assert results[1..] == [];
    assert text[0..s] == text[..s];
    StackedOne(results);
    RegroupSingle(text[..s], CodeBlock(c), "\n", ResultBlock(results[0]), text[NextPos(text, 0)..]);
  }

  // ---------------------------------------------------------------------
  // Sequence identities. They model nothing: each regroups or slices a
  // concatenation of plain variables, so that the proofs above can use the
  // identity without the solver searching for it among the literal tags.
  // ---------------------------------------------------------------------

  lemma TakeOneMore(rs: seq<ExecResult>, i: nat)
    requires i < |rs|
    ensures rs[..i + 1] == rs[..i] + [rs[i]]
    ensures (rs[..i] + [rs[i]])[..i] == rs[..i]
  {
  }

  lemma TakeAll(rs: seq<ExecResult>)
    ensures rs[..|rs|] == rs
  {
  }

  lemma Regroup(a: string, b: string, c: string, d: string)
    ensures (a + b + c) + d == (a + b) + (c + d)
  {
  }

  lemma Regroup6(p: string, a: string, b: string, c: string, d: string, e: string)
    ensures p + (a + b + c) + (d + e) == p + (a + ((b + c + d) + e))
  {
    assert (a + b + c) + (d + e) == a + ((b + c + d) + e);
  }

  lemma Ends(p: string, a: string, b: string, t: string)
    ensures (p + (a + (b + t)))[..|p|] == p
    ensures (p + (a + (b + t)))[|p| + |a| + |b|..] == t
  {
  }

  lemma RegroupInner(a: string, b: string, c: string, d: string)
    ensures (a + b + c) + d == a + ((b + c) + d)
  {
  }

  lemma Halves(s: string, k: nat)
    requires k <= |s|
    ensures s[..k] + s[k..] == s
  {
  }

  lemma PairsJoin(a: string, b: string, c: string, d: string, e: string, f: string)
    ensures a + b + c + d + e + f == a + b + c + (d + e + f + "")
  {
  }

  lemma NoPadding(c: string)
    ensures "" + c + "" == c
  {
  }

  lemma Regroup3(a: string, b: string, c: string)
    ensures (a + b) + c == a + (b + c)
  {
  }

  lemma RegroupSingle(p: string, a: string, b: string, c: string, t: string)
    ensures (p + ((a + b) + c)) + t == p + (a + ((b + c) + t))
  {
    assert ((a + b) + c) + t == a + ((b + c) + t);
  }
}
