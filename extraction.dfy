/**
 * The code-block extractor, `CodeActAgent._extract_code_blocks`
 * (agents/codeact.py:97-125): a left-to-right scan for an opening tag and
 * the first closing tag after it, resuming after that closing tag and
 * stopping at the first opening tag that has no closing tag.
 */
module Extraction {
  import opened Text
  import opened Protocol

  /** Where one extracted block sits: the index of its opening tag and the
      index of its closing tag. */
  datatype Span = Span(open: nat, close: nat)

  /** Some opening tag at or after `pos` has a closing tag after it. */
  predicate HasBlock(text: string, pos: nat)
  {
    Find(text, OpenTag, pos) >= 0 && Find(text, CloseTag, Find(text, OpenTag, pos)) >= 0
  }

  /** The closing tag found from an opening tag lies wholly after it. */
  lemma CloseAfterOpen(text: string, s: nat)
    requires OccursAt(text, OpenTag, s) && Find(text, CloseTag, s) >= 0
    ensures s + |OpenTag| <= Find(text, CloseTag, s)
  {
    FindSpec(text, CloseTag, s);
    CloseNotInsideOpen(text, s);
  }

  /** No closing tag occurs in the text strictly between an opening tag and
      the first closing tag after it. */
  lemma InnerText(text: string, s: nat)
    requires OccursAt(text, OpenTag, s) && Find(text, CloseTag, s) >= 0
    ensures s + |OpenTag| <= Find(text, CloseTag, s)
    ensures !Contains(text[s + |OpenTag|..Find(text, CloseTag, s)], CloseTag)
  {
    CloseAfterOpen(text, s);
    FindSpec(text, CloseTag, s);
    var e := Find(text, CloseTag, s);
    var inner := text[s + |OpenTag|..e];
    FindSpec(inner, CloseTag, 0);
    var f := Find(inner, CloseTag, 0);
    if f >= 0 {
      OccursInSlice(text, CloseTag, s + |OpenTag|, e, f);
    }
  }

  /** The index of the first closing tag after the next opening tag. */
  function NextClose(text: string, pos: nat): nat
    requires HasBlock(text, pos)
  {
    Find(text, CloseTag, Find(text, OpenTag, pos))
  }

  /** The next block: the stripped text between the next opening tag and the
      first closing tag after it. */
  function NextCode(text: string, pos: nat): string
    requires HasBlock(text, pos)
  {
    var s := Find(text, OpenTag, pos);
    FindSpec(text, OpenTag, pos);
    CloseAfterOpen(text, s);
    StripRange(text, s + |OpenTag|, NextClose(text, pos))
  }

  /** Where the scan resumes after the next block: just past its closing
      tag. */
  function NextPos(text: string, pos: nat): nat
    requires HasBlock(text, pos)
  {
    NextClose(text, pos) + |CloseTag|
  }

  /** The next block's tags: an opening tag at or after `pos`, and the first
      closing tag after it wholly after it and inside the text. */
  lemma NextTags(text: string, pos: nat)
    requires HasBlock(text, pos)
    ensures pos <= Find(text, OpenTag, pos)
    ensures OccursAt(text, OpenTag, Find(text, OpenTag, pos))
    ensures Find(text, OpenTag, pos) + |OpenTag| <= NextClose(text, pos)
    ensures NextPos(text, pos) <= |text|
  {
    FindSpec(text, OpenTag, pos);
    CloseAfterOpen(text, Find(text, OpenTag, pos));
  }

  /** The blocks the scan returns once it stands at `pos`: nothing when no
      opening tag is left, else the blocks from the next opening tag. */
  function Blocks(text: string, pos: nat): seq<string>
    decreases |text| - pos, 1
  {
    var s := Find(text, OpenTag, pos);
    if s < 0 then []
    else
      FindSpec(text, OpenTag, pos);
      BlocksFrom(text, s)
  }

  /** The blocks the scan returns from the opening tag at `s`: nothing when
      no closing tag follows it, else the stripped text between the two tags
      followed by the blocks from just past the closing tag. */
  function BlocksFrom(text: string, s: nat): seq<string>
    requires OccursAt(text, OpenTag, s)
    decreases |text| - s, 0
  {
    var e := Find(text, CloseTag, s);
    if e < 0 then []
    else
      CloseAfterOpen(text, s);
      [StripRange(text, s + |OpenTag|, e)] + Blocks(text, e + |CloseTag|)
  }

  /** One step of the scan: with no block left it yields nothing; otherwise
      it yields the next block and carries on past its closing tag. */
  lemma BlocksStep(text: string, pos: nat)
    ensures !HasBlock(text, pos) ==> Blocks(text, pos) == []
    ensures HasBlock(text, pos) ==>
      Blocks(text, pos) == [NextCode(text, pos)] + Blocks(text, NextPos(text, pos))
  {
    var s := Find(text, OpenTag, pos);
    if s >= 0 {
      FindSpec(text, OpenTag, pos);
      assert Blocks(text, pos) == BlocksFrom(text, s);
    }
  }

  /** The scan yields a block exactly when some opening tag from `pos` on
      has a closing tag after it. */
  lemma BlocksNonEmpty(text: string, pos: nat)
    ensures Blocks(text, pos) != [] <==> HasBlock(text, pos)
  {
    BlocksStep(text, pos);
  }

  /** A sequence identity for the loop below; it models nothing. */
  lemma AppendOne(a: seq<string>, b: string, c: seq<string>)
    ensures (a + [b]) + c == a + ([b] + c)
  {
  }

  /** `_extract_code_blocks(text)` (agents/codeact.py:97-125). */
  method ExtractCodeBlocks(text: string) returns (blocks: seq<string>)
    ensures blocks == Blocks(text, 0)
  {
    blocks := [];
    var pos: nat := 0;
    while true
      invariant pos <= |text|
      invariant blocks + Blocks(text, pos) == Blocks(text, 0)
      decreases |text| - pos
    {
      BlocksStep(text, pos);
      var startTag := Find(text, OpenTag, pos);
      if startTag == -1 {
        break;
      }
      var endTag := Find(text, CloseTag, startTag);
      if endTag == -1 {
        break;
      }
      NextTags(text, pos);
      var code := StripRange(text, startTag + |OpenTag|, endTag);
      AppendOne(blocks, code, Blocks(text, endTag + |CloseTag|));
      blocks := blocks + [code];
      pos := endTag + |CloseTag|;
    }
  }

  /** The source spans the scan visits from `pos`, in the order it visits
      them. */
  function Spans(text: string, pos: nat): seq<Span>
    decreases |text| - pos, 1
  {
    var s := Find(text, OpenTag, pos);
    if s < 0 then []
    else
      FindSpec(text, OpenTag, pos);
      SpansFrom(text, s)
  }

  /** The spans the scan visits from the opening tag at `s` on. */
  function SpansFrom(text: string, s: nat): seq<Span>
    requires OccursAt(text, OpenTag, s)
    decreases |text| - s, 0
  {
    var e := Find(text, CloseTag, s);
    if e < 0 then []
    else
      CloseAfterOpen(text, s);
      [Span(s, e)] + Spans(text, e + |CloseTag|)
  }

  lemma SpansStep(text: string, pos: nat)
    ensures !HasBlock(text, pos) ==> Spans(text, pos) == []
    ensures HasBlock(text, pos) ==>
      Spans(text, pos) == [Span(Find(text, OpenTag, pos), NextClose(text, pos))] + Spans(text, NextPos(text, pos))
  {
    var s := Find(text, OpenTag, pos);
    if s >= 0 {
      FindSpec(text, OpenTag, pos);
      assert Spans(text, pos) == SpansFrom(text, s);
    }
  }

  /** A span the scan can visit: an opening tag and the first closing tag
      after it, the closing tag wholly after the opening one. */
  predicate SpanAt(text: string, sp: Span)
  {
    && OccursAt(text, OpenTag, sp.open)
    && sp.close == Find(text, CloseTag, sp.open)
    && sp.open + |OpenTag| <= sp.close
    && sp.close + |CloseTag| <= |text|
  }

  /** Every visited span is an opening tag and the first closing tag after
      it, at or after `pos`. */
  lemma {:induction false} SpansPlaced(text: string, pos: nat)
    ensures forall i :: 0 <= i < |Spans(text, pos)| ==>
      pos <= Spans(text, pos)[i].open && SpanAt(text, Spans(text, pos)[i])
    decreases |text| - pos
  {
    SpansStep(text, pos);
    if HasBlock(text, pos) {
      NextTags(text, pos);
      SpansPlaced(text, NextPos(text, pos));
    }
  }

  /** No opening tag is skipped: the first span starts at the first opening
      tag from `pos`, and each next span at the first opening tag after the
      previous closing tag. */
  lemma {:induction false} SpansChained(text: string, pos: nat)
    ensures Spans(text, pos) != [] ==> Spans(text, pos)[0].open == Find(text, OpenTag, pos)
    ensures forall i :: 0 <= i < |Spans(text, pos)| - 1 ==>
      Spans(text, pos)[i + 1].open == Find(text, OpenTag, Spans(text, pos)[i].close + |CloseTag|)
    decreases |text| - pos
  {
    SpansStep(text, pos);
    if HasBlock(text, pos) {
      SpansChained(text, NextPos(text, pos));
    }
  }

  /** The scan stops where no opening tag is left with a closing tag after
      it. */
  lemma {:induction false} SpansEnd(text: string, pos: nat)
    ensures var r := Spans(text, pos);
      !HasBlock(text, if r == [] then pos else r[|r| - 1].close + |CloseTag|)
    decreases |text| - pos
  {
    SpansStep(text, pos);
    if HasBlock(text, pos) {
      SpansEnd(text, NextPos(text, pos));
    }
  }

  /** The visited spans are in increasing order and do not overlap: each
      opening tag comes after the previous block's closing tag. */
  lemma SpansOrdered(text: string, pos: nat)
    ensures forall i :: 0 <= i < |Spans(text, pos)| - 1 ==>
      Spans(text, pos)[i].close + |CloseTag| <= Spans(text, pos)[i + 1].open
  {
    SpansChained(text, pos);
  }

  /** The scan yields one block per visited span. */
  lemma {:induction false} BlocksCount(text: string, pos: nat)
    ensures |Blocks(text, pos)| == |Spans(text, pos)|
    decreases |text| - pos
  {
    BlocksStep(text, pos);
    SpansStep(text, pos);
    if HasBlock(text, pos) {
      BlocksCount(text, NextPos(text, pos));
    }
  }

  /** The i-th block is the stripped text between the i-th visited span's
      tags. */
  lemma {:induction false} BlockAt(text: string, pos: nat, i: nat)
    requires i < |Spans(text, pos)|
    ensures var sp := Spans(text, pos)[i];
      && sp.open + |OpenTag| <= sp.close <= |text|
      && i < |Blocks(text, pos)|
      && Blocks(text, pos)[i] == StripRange(text, sp.open + |OpenTag|, sp.close)
    decreases |text| - pos
  {
    SpansStep(text, pos);
    BlocksStep(text, pos);
    BlocksCount(text, pos);
    NextTags(text, pos);
    if i > 0 {
      BlockAt(text, NextPos(text, pos), i - 1);
    }
  }

  /** Each block is the stripped text between the tags of the span it was
      found at. */
  lemma BlocksAtSpans(text: string, pos: nat)
    ensures |Blocks(text, pos)| == |Spans(text, pos)|
    ensures forall i :: 0 <= i < |Spans(text, pos)| ==>
      var sp := Spans(text, pos)[i];
      && sp.open + |OpenTag| <= sp.close <= |text|
      && Blocks(text, pos)[i] == StripRange(text, sp.open + |OpenTag|, sp.close)
  {
    BlocksCount(text, pos);
    forall i | 0 <= i < |Spans(text, pos)|
      ensures var sp := Spans(text, pos)[i];
        && sp.open + |OpenTag| <= sp.close <= |text|
        && Blocks(text, pos)[i] == StripRange(text, sp.open + |OpenTag|, sp.close)
    {
      BlockAt(text, pos, i);
    }
  }

  /** The next block is stripped of surrounding whitespace and holds no
      closing tag. */
  lemma NextCodeClean(text: string, pos: nat)
    requires HasBlock(text, pos)
    ensures IsStripped(NextCode(text, pos)) && !Contains(NextCode(text, pos), CloseTag)
  {
    var s := Find(text, OpenTag, pos);
    NextTags(text, pos);
    InnerText(text, s);
    StripRangeSpec(text, s + |OpenTag|, NextClose(text, pos));
    StripRangeAbsent(text, s + |OpenTag|, NextClose(text, pos), CloseTag);
  }

  /** The i-th block is stripped of surrounding whitespace and holds no
      closing tag. */
  lemma {:induction false} BlockClean(text: string, pos: nat, i: nat)
    requires i < |Blocks(text, pos)|
    ensures IsStripped(Blocks(text, pos)[i]) && !Contains(Blocks(text, pos)[i], CloseTag)
    decreases |text| - pos
  {
    BlocksStep(text, pos);
    if i == 0 {
      NextCodeClean(text, pos);
    } else {
      NextTags(text, pos);
      BlockClean(text, NextPos(text, pos), i - 1);
    }
  }

  /** Every block is stripped of surrounding whitespace and holds no closing
      tag. */
  lemma BlocksClean(text: string, pos: nat)
    ensures forall i :: 0 <= i < |Blocks(text, pos)| ==>
      IsStripped(Blocks(text, pos)[i]) && !Contains(Blocks(text, pos)[i], CloseTag)
  {
    forall i | 0 <= i < |Blocks(text, pos)|
      ensures IsStripped(Blocks(text, pos)[i]) && !Contains(Blocks(text, pos)[i], CloseTag)
    {
      BlockClean(text, pos, i);
    }
  }

  /** Two scan positions with the same next opening tag yield the same
      blocks. */
  lemma BlocksSameOpen(text: string, p: nat, q: nat)
    requires Find(text, OpenTag, p) == Find(text, OpenTag, q)
    ensures Blocks(text, p) == Blocks(text, q)
  {
    BlocksStep(text, p);
    BlocksStep(text, q);
  }

  /** The next block of the right part of `x + rest`, seen from position
      `j == |x| + k` of the whole text, has its tags where the right part's
      next block has them, moved by `|x|`. */
  lemma ShiftTags(x: string, rest: string, k: nat, j: nat)
    requires j == |x| + k
    ensures HasBlock(x + rest, j) <==> HasBlock(rest, k)
    ensures HasBlock(rest, k) ==>
      && Find(x + rest, OpenTag, j) == |x| + Find(rest, OpenTag, k)
      && NextClose(x + rest, j) == |x| + NextClose(rest, k)
  {
    FindInRight(x, rest, OpenTag, k);
    var s := Find(rest, OpenTag, k);
    if s >= 0 {
      FindInRight(x, rest, CloseTag, s);
    }
  }

  /** ... and it is the right part's next block. */
  lemma ShiftNext(x: string, rest: string, k: nat, j: nat)
    requires j == |x| + k && HasBlock(rest, k)
    ensures HasBlock(x + rest, j)
    ensures NextCode(x + rest, j) == NextCode(rest, k)
    ensures NextPos(x + rest, j) == |x| + NextPos(rest, k)
  {
    ShiftTags(x, rest, k, j);
    NextTags(rest, k);
    var s := Find(rest, OpenTag, k);
    var s' := Find(x + rest, OpenTag, j);
    StripRangeShift(x, rest, s + |OpenTag|, NextClose(rest, k), s' + |OpenTag|, NextClose(x + rest, j));
  }

  /** A scan inside the right part of `x + rest` sees only the right part;
      `j` is the scan position in the whole text, `|x| + k`. */
  lemma {:induction false} BlocksShift(x: string, rest: string, k: nat, j: nat)
    requires j == |x| + k
    ensures Blocks(x + rest, j) == Blocks(rest, k)
    decreases |rest| - k
  {
    ShiftTags(x, rest, k, j);
    BlocksStep(x + rest, j);
    BlocksStep(rest, k);
    if HasBlock(rest, k) {
      ShiftNext(x, rest, k, j);
      NextTags(rest, k);
      BlocksShift(x, rest, NextPos(rest, k), NextPos(x + rest, j));
    }
  }

  /** Text without an opening tag, in front of the rest, adds no block. */
  lemma BlocksSkip(g: string, rest: string)
    requires !Contains(g, OpenTag) && Joinable(g, rest, OpenTag)
    ensures Blocks(g + rest, 0) == Blocks(rest, 0)
  {
    FindPastLeft(g, rest, OpenTag, 0);
    FindInRight(g, rest, OpenTag, 0);
    BlocksSameOpen(g + rest, 0, |g|);
    BlocksShift(g, rest, 0, |g|);
  }

  /** In a text that starts with an opening tag, a body without closing
      tags and a closing tag, the next block from 0 is that pair. */
  lemma PairTags(body: string, rest: string)
    requires !Contains(body, CloseTag)
    ensures var t := (OpenTag + body) + (CloseTag + rest);
      && HasBlock(t, 0)
      && Find(t, OpenTag, 0) == 0
      && NextClose(t, 0) == |OpenTag| + |body|
  {
    var a := OpenTag + body;
    var b := CloseTag + rest;
    var t := a + b;
    assert OccursAt(t, OpenTag, 0);
    FindIs(t, OpenTag, 0, 0);
    ShortHasNoTag(OpenTag, CloseTag);
    OpenTagJoinsClose(body);
    AbsentConcat(OpenTag, body, CloseTag);
    TagsJoin(a, b);
    assert OccursAt(b, CloseTag, 0);
    FindIs(b, CloseTag, 0, 0);
    FindPastLeft(a, b, CloseTag, 0);
  }

  /** ... and the block is the stripped body. */
  lemma PairNext(body: string, rest: string)
    requires !Contains(body, CloseTag)
    ensures var t := (OpenTag + body) + (CloseTag + rest);
      && HasBlock(t, 0)
      && NextCode(t, 0) == Strip(body)
      && NextPos(t, 0) == |OpenTag| + |body| + |CloseTag|
  {
    var t := (OpenTag + body) + (CloseTag + rest);
    PairTags(body, rest);
    var e := |OpenTag| + |body|;
    StripRangeIsStrip(t, |OpenTag|, e);
    var u := t[|OpenTag|..e];
    forall i | 0 <= i < |u|
      ensures u[i] == body[i]
    {
      assert u[i] == t[|OpenTag| + i];
    }
    assert u == body;
  }

  /** A text that starts with an opening tag, a body without closing tags
      and a closing tag yields the stripped body first, then the blocks of
      what follows. */
  lemma BlocksOfPair(body: string, rest: string)
    requires !Contains(body, CloseTag)
    ensures Blocks(OpenTag + body + CloseTag + rest, 0) == [Strip(body)] + Blocks(rest, 0)
  {
    var x := OpenTag + body + CloseTag;
    var t := (OpenTag + body) + (CloseTag + rest);
    assert t == x + rest;
    PairNext(body, rest);
    BlocksStep(t, 0);
    BlocksShift(x, rest, 0, NextPos(t, 0));
  }

  /** Text without closing tags appended to the end, with no tag across the
      seam, leaves the next block from `pos` where it was. */
  lemma AppendTags(text: string, u: string, pos: nat)
    requires pos <= |text| && !Contains(u, CloseTag)
    requires Joinable(text, u, OpenTag) && Joinable(text, u, CloseTag)
    ensures HasBlock(text + u, pos) <==> HasBlock(text, pos)
    ensures HasBlock(text, pos) ==>
      && Find(text + u, OpenTag, pos) == Find(text, OpenTag, pos)
      && NextClose(text + u, pos) == NextClose(text, pos)
  {
    AbsentFrom(u, CloseTag, 0);
    var s := Find(text, OpenTag, pos);
    if s >= 0 {
      FindInLeft(text, u, OpenTag, pos);
      if Find(text, CloseTag, s) >= 0 {
        FindInLeft(text, u, CloseTag, s);
      } else {
        FindPastLeft(text, u, CloseTag, s);
      }
    } else {
      FindPastLeft(text, u, OpenTag, pos);
      var f := Find(u, OpenTag, 0);
      if f >= 0 {
        AbsentFrom(u, CloseTag, f);
        FindInRight(text, u, CloseTag, f);
      }
    }
  }

  /** ... and that block is unchanged. */
  lemma AppendNext(text: string, u: string, pos: nat)
    requires pos <= |text| && !Contains(u, CloseTag)
    requires Joinable(text, u, OpenTag) && Joinable(text, u, CloseTag)
    requires HasBlock(text, pos)
    ensures HasBlock(text + u, pos)
    ensures NextCode(text + u, pos) == NextCode(text, pos)
    ensures NextPos(text + u, pos) == NextPos(text, pos)
  {
    AppendTags(text, u, pos);
    NextTags(text, pos);
    StripRangeLeft(text, u, Find(text, OpenTag, pos) + |OpenTag|, NextClose(text, pos));
  }

  /** Text without closing tags appended to the end, with no tag across the
      seam, adds no block. */
  lemma {:induction false} BlocksAppendNoClose(text: string, u: string, pos: nat)
    requires pos <= |text| && !Contains(u, CloseTag)
    requires Joinable(text, u, OpenTag) && Joinable(text, u, CloseTag)
    ensures Blocks(text + u, pos) == Blocks(text, pos)
    decreases |text| - pos
  {
    AppendTags(text, u, pos);
    BlocksStep(text + u, pos);
    BlocksStep(text, pos);
    if HasBlock(text, pos) {
      AppendNext(text, u, pos);
      NextTags(text, pos);
      BlocksAppendNoClose(text, u, NextPos(text, pos));
    }
  }

  /** An opening tag with no closing tag after it, at the end of a text,
      adds no block: the scan stops there. */
  lemma UnmatchedOpenAddsNothing(text: string, tail: string)
    requires !Contains(tail, CloseTag)
    ensures Blocks(text + OpenTag + tail, 0) == Blocks(text, 0)
  {
    var u := OpenTag + tail;
    assert text + OpenTag + tail == text + u;
    ShortHasNoTag(OpenTag, CloseTag);
    OpenTagJoinsClose(tail);
    AbsentConcat(OpenTag, tail, CloseTag);
    TagsJoin(text, u);
    BlocksAppendNoClose(text, u, 0);
  }
}
