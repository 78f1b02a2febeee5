/**
 * The four literal tags that make up the agent's wire format with the
 * model (agents/codeact.py:111-123 and 191-197), and the facts about how
 * they can overlap that the scanning proofs need.
 */
module Protocol {
  import opened Text

  const OpenTag := "<execute>"
  const CloseTag := "</execute>"
  const ResultOpenTag := "<execution_result>"
  const ResultCloseTag := "</execution_result>"

  /** A closing tag cannot start inside an opening tag, so the first closing
      tag found from an opening tag lies wholly after it. */
  lemma CloseNotInsideOpen(text: string, s: int)
    requires OccursAt(text, OpenTag, s)
    ensures forall j :: s <= j < s + |OpenTag| ==> !OccursAt(text, CloseTag, j)
  {
    forall j | s <= j < s + |OpenTag|
      ensures !OccursAt(text, CloseTag, j)
    {
      // The second character of the opening tag is not `/`, and no later
      // character of it is `<`.
      var k := if j == s then 1 else 0;
      assert text[j + k] == OpenTag[j + k - s];
      assert OpenTag[j + k - s] != CloseTag[k];
    }
  }

  /** Neither tag can straddle a seam where the right part starts with `<`
      or a line break, or the left part ends with a line break. */
  lemma TagsJoin(a: string, b: string)
    requires (|b| > 0 && (b[0] == '<' || b[0] == '\n')) || (|a| > 0 && a[|a| - 1] == '\n')
    ensures Joinable(a, b, OpenTag) && Joinable(a, b, CloseTag)
  {
  }

  /** Nothing straddles the seam after an opening tag when searching for a
      closing tag. */
  lemma OpenTagJoinsClose(b: string)
    ensures Joinable(OpenTag, b, CloseTag)
  {
  }

  /** A text that is too short holds no tag. */
  lemma ShortHasNoTag(s: string, pat: string)
    requires |s| < |pat|
    ensures !Contains(s, pat)
  {
  }

  /** The result tags hold no opening tag: "<execution_result>" parts from
      "<execute>" at its eighth character, and nothing else in either result
      tag is a `<`. */
  lemma ResultTagsHaveNoOpenTag()
    ensures !Contains(ResultOpenTag, OpenTag) && !Contains(ResultCloseTag, OpenTag)
  {
    forall j | 0 <= j
      ensures !OccursAt(ResultOpenTag, OpenTag, j)
    {
      if j == 0 {
        assert ResultOpenTag[0 + 7] != OpenTag[7];
      } else if j < |ResultOpenTag| {
        assert ResultOpenTag[j + 0] != OpenTag[0];
      }
    }
    forall j | 0 <= j
      ensures !OccursAt(ResultCloseTag, OpenTag, j)
    {
      if j == 0 {
        assert ResultCloseTag[0 + 1] != OpenTag[1];
      } else if j < |ResultCloseTag| {
        assert ResultCloseTag[j + 0] != OpenTag[0];
      }
    }
    FindIs(ResultOpenTag, OpenTag, 0, -1);
    FindIs(ResultCloseTag, OpenTag, 0, -1);
  }
}
