/**
 * Whitespace handling of a finished child list (`compress_whitespaces` in
 * crates/compiler/src/parser.rs): whitespace-only text nodes at either end
 * are dropped and, when condensing, so are those between two comments and
 * those holding a newline between two elements; the remaining text is marked
 * for whitespace compression.
 */
module Whitespace {
  import opened TextUtil
  import opened Ast

  predicate IsElement(n: AstNode)
  {
    n.ElementNode?
  }

  /** A text node with nothing but whitespace in it. */
  predicate IsBlankText(n: AstNode)
  {
    n.Text? && IsAllWhitespace(n.textNode)
  }

  /**
   * The newline test looks at the node as a string, which is its first
   * segment; a node without segments has no newline.
   */
  predicate FirstSegmentHasNewline(t: TextNode)
  {
    |t.text| > 0 && ('\r' in t.text[0].raw || '\n' in t.text[0].raw)
  }

  /** `compress_text_node`: every segment keeps its text and is marked for compression. */
  function CompressTextNode(t: TextNode): (r: TextNode)
    ensures |r.text| == |t.text|
    ensures forall k :: 0 <= k < |t.text| ==>
      r.text[k].raw == t.text[k].raw && r.text[k].ops == t.text[k].ops + {CompressWhitespace}
    ensures IsAllWhitespace(r) <==> IsAllWhitespace(t)
  {
    TextNode(seq(|t.text|, k requires 0 <= k < |t.text| => VStr(t.text[k].raw, t.text[k].ops + {CompressWhitespace})))
  }

  /** A node as the loop leaves it when it is kept. */
  function Condensed(n: AstNode, condense: bool): AstNode
  {
    if condense && n.Text? && !IsAllWhitespace(n.textNode) then Text(CompressTextNode(n.textNode)) else n
  }

  /** The removal test of the loop, on the list as it stands when node `i` is reached. */
  predicate ShouldRemove(nodes: seq<AstNode>, i: nat, condense: bool)
    requires i < |nodes|
  {
    IsBlankText(nodes[i]) &&
    (i == |nodes| - 1 || i == 0 ||
     (condense &&
      ((nodes[i - 1].Comment? && nodes[i + 1].Comment?) ||
       (IsElement(nodes[i - 1]) && IsElement(nodes[i + 1]) && FirstSegmentHasNewline(nodes[i].textNode)))))
  }

  /** The loop from position `i` on: a removed node shifts the rest left, a kept one is condensed. */
  function CompressFrom(nodes: seq<AstNode>, i: nat, condense: bool): seq<AstNode>
    decreases |nodes| - i
  {
    if i >= |nodes| then nodes
    else if ShouldRemove(nodes, i, condense) then CompressFrom(nodes[..i] + nodes[i + 1..], i, condense)
    else CompressFrom(nodes[i := Condensed(nodes[i], condense)], i + 1, condense)
  }

  function Compress(nodes: seq<AstNode>, condense: bool): seq<AstNode>
  {
    CompressFrom(nodes, 0, condense)
  }

  /** `compress_whitespaces`, removing and rewriting in place. */
  method CompressWhitespaces(nodes: seq<AstNode>, needCondense: bool) returns (out: seq<AstNode>)
    ensures out == Compress(nodes, needCondense)
  {
    out := nodes;
    var i := 0;
    while i < |out|
      invariant i <= |out|
      invariant CompressFrom(out, i, needCondense) == Compress(nodes, needCondense)
      decreases |out| - i
    {
      ghost var before := out;
      var shouldRemove := false;
      if out[i].Text? {
        var child := out[i].textNode;
        if !IsAllWhitespace(child) {
          if needCondense {
            out := out[i := Text(CompressTextNode(child))];
          }
        } else if i == |out| - 1 || i == 0 {
          shouldRemove := true;
        } else if needCondense {
          var prev, next := out[i - 1], out[i + 1];
          if prev.Comment? && next.Comment? {
            shouldRemove := true;
          } else {
            shouldRemove := IsElement(prev) && IsElement(next) && FirstSegmentHasNewline(child);
          }
        }
      }
      assert shouldRemove == ShouldRemove(before, i, needCondense);
      if shouldRemove {
        out := out[..i] + out[i + 1..];
      } else {
        assert out == before[i := Condensed(before[i], needCondense)];
        i := i + 1;
      }
    }
  }

  /** The nodes that are not whitespace-only text, in order. */
  function Solid(nodes: seq<AstNode>): seq<AstNode>
  {
    if nodes == [] then []
    else (if IsBlankText(nodes[0]) then [] else [nodes[0]]) + Solid(nodes[1..])
  }

  function CondenseAll(nodes: seq<AstNode>, condense: bool): (r: seq<AstNode>)
    ensures |r| == |nodes| && forall k :: 0 <= k < |nodes| ==> r[k] == Condensed(nodes[k], condense)
  {
    seq(|nodes|, k requires 0 <= k < |nodes| => Condensed(nodes[k], condense))
  }

  /** No two text nodes side by side (what the loop's debug assertion demands). */
  predicate NoAdjacentText(nodes: seq<AstNode>)
  {
    forall k :: 0 < k < |nodes| ==> !(nodes[k - 1].Text? && nodes[k].Text?)
  }

  lemma CondensedKeepsKind(n: AstNode, condense: bool)
    ensures IsBlankText(Condensed(n, condense)) <==> IsBlankText(n)
    ensures Condensed(n, condense).Text? <==> n.Text?
    ensures !n.Text? ==> Condensed(n, condense) == n
  {
  }

  lemma {:induction false} SolidConcat(a: seq<AstNode>, b: seq<AstNode>)
    ensures Solid(a + b) == Solid(a) + Solid(b)
    decreases |a|
  {
    if a == [] {
      assert a + b == b;
    } else {
      assert (a + b)[0] == a[0];
      assert (a + b)[1..] == a[1..] + b;
      SolidConcat(a[1..], b);
    }
  }

  lemma CondenseAllConcat(a: seq<AstNode>, b: seq<AstNode>, condense: bool)
    ensures CondenseAll(a + b, condense) == CondenseAll(a, condense) + CondenseAll(b, condense)
  {
  }

  /** Condensing a node does not change whether it counts as solid. */
  lemma SolidOfCondensed(n: AstNode, condense: bool)
    ensures Solid([Condensed(n, condense)]) == CondenseAll(Solid([n]), condense)
  {
    CondensedKeepsKind(n, condense);
    assert [n][1..] == [] && [Condensed(n, condense)][1..] == [];
  }

  /** What the loop does at position `i`, one step. */
  lemma CompressStep(cur: seq<AstNode>, i: nat, condense: bool)
    requires i < |cur|
    ensures ShouldRemove(cur, i, condense) ==> CompressFrom(cur, i, condense) == CompressFrom(cur[..i] + cur[i + 1..], i, condense)
    ensures !ShouldRemove(cur, i, condense) ==> CompressFrom(cur, i, condense) == CompressFrom(cur[i := Condensed(cur[i], condense)], i + 1, condense)
  {
  }

  lemma SolidSplitAt(cur: seq<AstNode>, i: nat, condense: bool)
    requires i < |cur|
    ensures CondenseAll(Solid(cur[i..]), condense) ==
      CondenseAll(Solid([cur[i]]), condense) + CondenseAll(Solid(cur[i + 1..]), condense)
  {
    assert cur[i..] == [cur[i]] + cur[i + 1..];
    SolidConcat([cur[i]], cur[i + 1..]);
    CondenseAllConcat(Solid([cur[i]]), Solid(cur[i + 1..]), condense);
  }

  lemma SolidRemoveStep(cur: seq<AstNode>, i: nat, condense: bool)
    requires i < |cur| && IsBlankText(cur[i])
    ensures var next := cur[..i] + cur[i + 1..];
      Solid(next[..i]) + CondenseAll(Solid(next[i..]), condense) == Solid(cur[..i]) + CondenseAll(Solid(cur[i..]), condense)
  {
    var next := cur[..i] + cur[i + 1..];
    assert next[..i] == cur[..i] && next[i..] == cur[i + 1..];
    SolidSplitAt(cur, i, condense);
    assert [cur[i]][1..] == [];
  }

  lemma SolidKeepStep(cur: seq<AstNode>, i: nat, condense: bool)
    requires i < |cur|
    ensures var next := cur[i := Condensed(cur[i], condense)];
      Solid(next[..i + 1]) + CondenseAll(Solid(next[i + 1..]), condense) == Solid(cur[..i]) + CondenseAll(Solid(cur[i..]), condense)
  {
    var c := Condensed(cur[i], condense);
    var next := cur[i := c];
    var a, b, rest := Solid(cur[..i]), CondenseAll(Solid([cur[i]]), condense), CondenseAll(Solid(cur[i + 1..]), condense);
    assert Solid(next[..i + 1]) == a + b by {
      assert next[..i + 1] == cur[..i] + [c];
      SolidConcat(cur[..i], [c]);
      SolidOfCondensed(cur[i], condense);
    }
    assert CondenseAll(Solid(next[i + 1..]), condense) == rest by {
      assert next[i + 1..] == cur[i + 1..];
    }
    assert CondenseAll(Solid(cur[i..]), condense) == b + rest by {
      SolidSplitAt(cur, i, condense);
    }
    assert (a + b) + rest == a + (b + rest);
  }

  lemma {:induction false} SolidFrom(cur: seq<AstNode>, i: nat, condense: bool)
    requires i <= |cur|
    ensures Solid(CompressFrom(cur, i, condense)) == Solid(cur[..i]) + CondenseAll(Solid(cur[i..]), condense)
    decreases |cur| - i
  {
    if i == |cur| {
      assert cur[..i] == cur;
      assert cur[i..] == [];
    } else {
      CompressStep(cur, i, condense);
      if ShouldRemove(cur, i, condense) {
        SolidFrom(cur[..i] + cur[i + 1..], i, condense);
        SolidRemoveStep(cur, i, condense);
      } else {
        SolidFrom(cur[i := Condensed(cur[i], condense)], i + 1, condense);
        SolidKeepStep(cur, i, condense);
      }
    }
  }

  /**
   * Only whitespace-only text is ever removed: every other node survives, in
   * order, condensed.
   */
  lemma CompressKeepsSolidNodes(nodes: seq<AstNode>, condense: bool)
    ensures Solid(Compress(nodes, condense)) == CondenseAll(Solid(nodes), condense)
  {
    SolidFrom(nodes, 0, condense);
    assert nodes[..0] == [] && nodes[0..] == nodes;
  }

  /** The outcome of deciding each of the first `n` nodes on the original list. */
  function Kept(nodes: seq<AstNode>, n: nat, condense: bool): seq<AstNode>
    requires n <= |nodes|
  {
    if n == 0 then []
    else Kept(nodes, n - 1, condense) + (if ShouldRemove(nodes, n - 1, condense) then [] else [Condensed(nodes[n - 1], condense)])
  }

  /** The node before a blank text node is kept unchanged, so it ends what is kept so far. */
  lemma KeptBeforeBlank(nodes: seq<AstNode>, j: nat, condense: bool)
    requires NoAdjacentText(nodes) && 0 < j < |nodes| && IsBlankText(nodes[j])
    ensures var done := Kept(nodes, j, condense); |done| > 0 && done[|done| - 1] == nodes[j - 1]
  {
    assert !nodes[j - 1].Text?;
    CondensedKeepsKind(nodes[j - 1], condense);
  }

  /** The removal test only looks at the node, its neighbours and whether it is first or last. */
  lemma SameDecision(nodes: seq<AstNode>, j: nat, cur: seq<AstNode>, i: nat, condense: bool)
    requires j < |nodes| && i < |cur| && |cur| - i == |nodes| - j
    requires cur[i] == nodes[j] && (j + 1 < |nodes| ==> cur[i + 1] == nodes[j + 1])
    requires j == 0 ==> i == 0
    requires IsBlankText(nodes[j]) && j > 0 ==> i > 0 && cur[i - 1] == nodes[j - 1]
    ensures ShouldRemove(cur, i, condense) == ShouldRemove(nodes, j, condense)
  {
  }

  /** The list the loop holds on reaching original node `j`, in closed form, decides `j` as the original does. */
  lemma KeptPrefixDecides(nodes: seq<AstNode>, j: nat, condense: bool)
    requires NoAdjacentText(nodes) && j < |nodes|
    ensures var done := Kept(nodes, j, condense);
      ShouldRemove(done + nodes[j..], |done|, condense) == ShouldRemove(nodes, j, condense)
  {
    var done := Kept(nodes, j, condense);
    var cur := done + nodes[j..];
    var i := |done|;
    assert cur[i] == nodes[j];
    if j + 1 < |nodes| { assert cur[i + 1] == nodes[j + 1]; }
    if IsBlankText(nodes[j]) && j > 0 {
      KeptBeforeBlank(nodes, j, condense);
      assert cur[i - 1] == done[i - 1];
    }
    SameDecision(nodes, j, cur, i, condense);
  }

  lemma KeptNext(nodes: seq<AstNode>, j: nat, condense: bool)
    requires j < |nodes|
    ensures var done := Kept(nodes, j, condense);
      var cur := done + nodes[j..];
      var i := |done|;
      var next := Kept(nodes, j + 1, condense) + nodes[j + 1..];
      (ShouldRemove(nodes, j, condense) ==> cur[..i] + cur[i + 1..] == next) &&
      (!ShouldRemove(nodes, j, condense) ==> cur[i := Condensed(cur[i], condense)] == next)
  {
    var done := Kept(nodes, j, condense);
    var cur := done + nodes[j..];
    assert cur[|done|] == nodes[j];
    assert cur[..|done|] == done && cur[|done| + 1..] == nodes[j + 1..];
  }

  lemma {:induction false} KeptFrom(nodes: seq<AstNode>, j: nat, condense: bool)
    requires NoAdjacentText(nodes) && j <= |nodes|
    ensures CompressFrom(Kept(nodes, j, condense) + nodes[j..], |Kept(nodes, j, condense)|, condense) == Kept(nodes, |nodes|, condense)
    decreases |nodes| - j
  {
    var done := Kept(nodes, j, condense);
    if j == |nodes| {
      assert done + nodes[j..] == done;
    } else {
      KeptPrefixDecides(nodes, j, condense);
      CompressStep(done + nodes[j..], |done|, condense);
      KeptNext(nodes, j, condense);
      KeptFrom(nodes, j + 1, condense);
    }
  }

  /**
   * When no two text nodes are adjacent, every node is decided by its
   * neighbours in the original list.
   */
  lemma CompressClosedForm(nodes: seq<AstNode>, condense: bool)
    requires NoAdjacentText(nodes)
    ensures Compress(nodes, condense) == Kept(nodes, |nodes|, condense)
  {
    KeptFrom(nodes, 0, condense);
    assert Kept(nodes, 0, condense) + nodes[0..] == nodes;
  }

  lemma {:induction false} KeptStartsSolid(nodes: seq<AstNode>, n: nat, condense: bool)
    requires NoAdjacentText(nodes) && n <= |nodes|
    ensures Kept(nodes, n, condense) != [] ==> !IsBlankText(Kept(nodes, n, condense)[0])
  {
    if n > 0 {
      KeptStartsSolid(nodes, n - 1, condense);
      var prev := Kept(nodes, n - 1, condense);
      if prev == [] && !ShouldRemove(nodes, n - 1, condense) {
        CondensedKeepsKind(nodes[n - 1], condense);
        if IsBlankText(nodes[n - 1]) {
          assert n - 1 > 0 && !nodes[n - 2].Text?;
          CondensedKeepsKind(nodes[n - 2], condense);
          assert false;
        }
      }
    }
  }

  lemma {:induction false} KeptEndsSolid(nodes: seq<AstNode>, n: nat, condense: bool)
    requires NoAdjacentText(nodes) && n <= |nodes|
    ensures var r := Kept(nodes, n, condense);
      r != [] && IsBlankText(r[|r| - 1]) ==> IsBlankText(nodes[n - 1]) && !ShouldRemove(nodes, n - 1, condense)
  {
    if n > 0 {
      KeptEndsSolid(nodes, n - 1, condense);
      CondensedKeepsKind(nodes[n - 1], condense);
    }
  }

  /**
   * With no adjacent text nodes, the result neither starts nor ends with
   * whitespace-only text.
   */
  lemma CompressTrimsEnds(nodes: seq<AstNode>, condense: bool)
    requires NoAdjacentText(nodes)
    ensures var r := Compress(nodes, condense);
      r != [] ==> !IsBlankText(r[0]) && !IsBlankText(r[|r| - 1])
  {
    CompressClosedForm(nodes, condense);
    KeptStartsSolid(nodes, |nodes|, condense);
    KeptEndsSolid(nodes, |nodes|, condense);
  }

  /**
   * Without that condition the loop can leave whitespace at the end: of two
   * trailing blank text nodes only the last is the last node when reached.
   */
  lemma AdjacentBlankTextSurvives(e: Element, a: TextNode, b: TextNode)
    requires IsAllWhitespace(a) && IsAllWhitespace(b)
    ensures Compress([ElementNode(e), Text(a), Text(b)], false) == [ElementNode(e), Text(a)]
  {
    var nodes := [ElementNode(e), Text(a), Text(b)];
    var kept := [ElementNode(e), Text(a)];
    assert nodes[0 := Condensed(nodes[0], false)] == nodes;
    assert nodes[1 := Condensed(nodes[1], false)] == nodes;
    assert nodes[..2] + nodes[3..] == kept;
    assert CompressFrom(kept, 2, false) == kept;
    assert CompressFrom(nodes, 2, false) == kept;
    assert CompressFrom(nodes, 1, false) == kept;
  }
}
