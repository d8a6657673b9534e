// Flagging scaffold text left in a manifest's text content.

module Placeholders {
  import opened Lsp
  import opened Xml

  /** The scaffold tokens a generated manifest contains until its author replaces them. */
  const TemplatedValues: seq<string> := ["__replace", "space_separated", "tag1"]

  const TemplatedMessage: string := "Templated value which should be removed"

  /** Ordinal case folding, restricted to ASCII letters: lower case maps to upper case. */
  function FoldCase(c: char): (u: char)
    ensures !('a' <= u <= 'z')
  {
    if 'a' <= c <= 'z' then (c as int - 32) as char else c
  }

  /**
   * Two characters are equal ignoring case iff they are the same character or
   * the lower- and upper-case forms of one ASCII letter; folding twice is folding once.
   */
  lemma FoldCaseEqual(a: char, b: char)
    ensures FoldCase(FoldCase(a)) == FoldCase(a)
    ensures FoldCase(a) == FoldCase(b) <==>
      a == b ||
      ('a' <= a <= 'z' && b as int == a as int - 32) ||
      ('a' <= b <= 'z' && a as int == b as int - 32)
  {
  }

  /** `t` occurs in `s` at offset `i`, ignoring case. */
  predicate MatchesAt(s: string, t: string, i: int)
  {
    0 <= i && i + |t| <= |s| &&
    forall k :: 0 <= k < |t| ==> FoldCase(s[i + k]) == FoldCase(t[k])
  }

  /** Substring search ignoring case: true iff `t` occurs somewhere in `s`. */
  function ContainsIgnoreCase(s: string, t: string): (r: bool)
    ensures r <==> exists i :: MatchesAt(s, t, i)
    decreases |s|
  {
    if |s| < |t| then false
    else if MatchesAt(s, t, 0) then
      true
    else
      MatchesAfterFirst(s, t);
      ContainsIgnoreCase(s[1..], t)
  }

  /** Past a failed first offset, `t` occurs in `s` iff it occurs in `s` without its first character. */
  lemma MatchesAfterFirst(s: string, t: string)
    requires |s| > 0 && !MatchesAt(s, t, 0)
    ensures (exists i :: MatchesAt(s, t, i)) <==> (exists j :: MatchesAt(s[1..], t, j))
  {
    if i :| MatchesAt(s, t, i) {
      assert i != 0;
      assert MatchesAt(s[1..], t, i - 1);
    }
    if j :| MatchesAt(s[1..], t, j) {
      assert MatchesAt(s, t, j + 1);
    }
  }

  /** A node is flagged iff it is text content holding one of the tokens, ignoring case. */
  predicate IsTemplated(node: XmlNode)
    ensures IsTemplated(node) <==>
      node.XmlText? && exists t, i :: t in TemplatedValues && MatchesAt(node.value, t, i)
  {
    node.XmlText? && exists t :: t in TemplatedValues && ContainsIgnoreCase(node.value, t)
  }

  /** One diagnostic per flagged node, in document order. */
  function ValidateTemplatedValues(nodes: seq<XmlNode>, getRange: (int, int) -> Range): (r: seq<Diagnostic>)
    ensures |r| <= |nodes|
    ensures forall d :: d in r ==> d.message == TemplatedMessage && d.severity == Error
    ensures forall d :: d in r ==>
      exists n :: n in nodes && IsTemplated(n) && d.range == getRange(n.start, n.end)
  {
    if nodes == [] then []
    else
      var rest := ValidateTemplatedValues(nodes[1..], getRange);
      assert forall n :: n in nodes[1..] ==> n in nodes;
      if IsTemplated(nodes[0]) then
        [Diagnostic(TemplatedMessage, Error, getRange(nodes[0].start, nodes[0].end))] + rest
      else rest
  }

  /** The scan distributes over concatenation: each node is judged on its own. */
  lemma {:induction false} ValidateTemplatedValuesAppend(a: seq<XmlNode>, b: seq<XmlNode>, getRange: (int, int) -> Range)
    ensures ValidateTemplatedValues(a + b, getRange) ==
      ValidateTemplatedValues(a, getRange) + ValidateTemplatedValues(b, getRange)
  {
    if a == [] {
      assert a + b == b;
    } else {
      assert (a + b)[0] == a[0];
      assert (a + b)[1..] == a[1..] + b;
      ValidateTemplatedValuesAppend(a[1..], b, getRange);
    }
  }

  /** A single node yields exactly one diagnostic if flagged and none otherwise. */
  lemma ValidateTemplatedValuesSingle(node: XmlNode, getRange: (int, int) -> Range)
    ensures ValidateTemplatedValues([node], getRange) ==
      if IsTemplated(node) then [Diagnostic(TemplatedMessage, Error, getRange(node.start, node.end))] else []
  {
    assert [node][1..] == [];
  }

  /** Every flagged node is reported, with the fixed message, as an error over its own offsets. */
  lemma {:induction false} OffendingNodeReported(nodes: seq<XmlNode>, i: int, getRange: (int, int) -> Range)
    requires 0 <= i < |nodes| && IsTemplated(nodes[i])
    ensures Diagnostic(TemplatedMessage, Error, getRange(nodes[i].start, nodes[i].end))
      in ValidateTemplatedValues(nodes, getRange)
  {
    if i > 0 {
      OffendingNodeReported(nodes[1..], i - 1, getRange);
    }
  }

  /** The scan reports nothing exactly when no node is flagged. */
  lemma {:induction false} NoPlaceholdersNoDiagnostics(nodes: seq<XmlNode>, getRange: (int, int) -> Range)
    ensures ValidateTemplatedValues(nodes, getRange) == [] <==>
      forall k :: 0 <= k < |nodes| ==> !IsTemplated(nodes[k])
  {
    if nodes != [] {
      NoPlaceholdersNoDiagnostics(nodes[1..], getRange);
      assert forall k :: 1 <= k < |nodes| ==> nodes[k] == nodes[1..][k - 1];
    }
  }

  /** Markup is never flagged: a markup node anywhere in the list changes nothing in the result. */
  lemma MarkupNeverFlagged(before: seq<XmlNode>, start: int, end: int, after: seq<XmlNode>,
                           getRange: (int, int) -> Range)
    ensures ValidateTemplatedValues(before + [XmlMarkup(start, end)] + after, getRange) ==
      ValidateTemplatedValues(before + after, getRange)
  {
    ValidateTemplatedValuesAppend(before + [XmlMarkup(start, end)], after, getRange);
    ValidateTemplatedValuesAppend(before, [XmlMarkup(start, end)], getRange);
    ValidateTemplatedValuesAppend(before, after, getRange);
    ValidateTemplatedValuesSingle(XmlMarkup(start, end), getRange);
  }

  /** The match is by substring and ignores case: a token in upper case inside other text is flagged. */
  lemma SubstringMatchIgnoresCase(start: int, end: int)
    ensures IsTemplated(XmlText("x__REPLACEy", start, end))
  {
    assert MatchesAt("x__REPLACEy", "__replace", 1);
    assert ContainsIgnoreCase("x__REPLACEy", "__replace");
    assert "__replace" in TemplatedValues;
  }

  /**
   * Text shorter than every token is never flagged; for instance "Tag", a
   * proper prefix of "tag1", is not.
   */
  lemma ShortTextNotFlagged(value: string, start: int, end: int)
    requires forall t :: t in TemplatedValues ==> |value| < |t|
    ensures !IsTemplated(XmlText(value, start, end))
  {
  }
}
