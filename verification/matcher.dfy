/**
 * Structural matching of a pattern ("goal") syntax tree against a candidate
 * syntax tree, as done by crates/ref_transform/src/matcher.rs.
 *
 * Trees are immutable values. The meta-variable classifier (`extract_meta_var`,
 * owned by another module) is a function-valued parameter. The capture
 * environment, which the source passes as `&mut Env`, is threaded in and out.
 */
module Matcher {
  import opened Wrappers

  /** A concrete-syntax-tree node as the tree producer exposes it. */
  datatype Node = Node(kindId: int, kind: string, named: bool, text: string, children: seq<Node>)
  {
    predicate IsLeaf() { |children| == 0 }
  }

  /** What the classifier makes of a leaf's text. */
  datatype MetaVariable = Named(name: string) | Anonymous | Ellipsis | NamedEllipsis(name: string)

  /** `extract_meta_var`: any pure, total function of the text. */
  type Classifier = string -> Option<MetaVariable>

  /** Capture environment: capture name to bound node. */
  type Env = map<string, Node>

  /** The name a meta-variable writes into the environment, if any. */
  function Binding(m: MetaVariable): Option<string>
  {
    if m.Named? || m.NamedEllipsis? then Some(m.name) else None
  }

  function ExtractVarFromNode(classify: Classifier, goal: Node): Option<MetaVariable>
  {
    classify(goal.text)
  }

  /** `match_leaf_meta_var`: a meta-variable leaf accepts any candidate. */
  function MatchLeafMetaVar(classify: Classifier, goal: Node, candidate: Node, env: Env): (r: (Option<Node>, Env))
    ensures r.0.None? <==> ExtractVarFromNode(classify, goal).None?
    ensures r.0.Some? ==> r.0.value == candidate
    ensures r.1 == if r.0.Some? && Binding(ExtractVarFromNode(classify, goal).value).Some?
                   then env[Binding(ExtractVarFromNode(classify, goal).value).value := candidate]
                   else env
  {
    match ExtractVarFromNode(classify, goal)
    case None => (None, env)
    case Some(Named(name)) => (Some(candidate), env[name := candidate])
    case Some(Anonymous) => (Some(candidate), env)
    case Some(Ellipsis) => (Some(candidate), env)
    case Some(NamedEllipsis(name)) => (Some(candidate), env[name := candidate])
  }

  /** `is_ellipsis`: the node's text is an anonymous or a named ellipsis. */
  predicate IsEllipsis(classify: Classifier, node: Node)
    ensures IsEllipsis(classify, node) <==>
      ExtractVarFromNode(classify, node) == Some(Ellipsis) ||
      (ExtractVarFromNode(classify, node).Some? && ExtractVarFromNode(classify, node).value.NamedEllipsis?)
  {
    match ExtractVarFromNode(classify, node)
    case Some(Ellipsis) => true
    case Some(NamedEllipsis(_)) => true
    case _ => false
  }

  /** `match_single_kind`: pre-order search for the first node of kind `goalKind`. */
  function MatchSingleKind(goalKind: string, candidate: Node): (r: Option<Node>)
    ensures r.Some? ==> r.value.kind == goalKind
    ensures candidate.kind == goalKind ==> r == Some(candidate)
    decreases candidate, 1, 0
  {
    if candidate.kind == goalKind then Some(candidate)
    else SingleKindInChildren(goalKind, candidate, 0)
  }

  /** The `find_map` over the children of `parent`, from child `i` on. */
  function SingleKindInChildren(goalKind: string, parent: Node, i: nat): (r: Option<Node>)
    requires i <= |parent.children|
    ensures r.Some? ==> r.value.kind == goalKind
    decreases parent, 0, |parent.children| - i
  {
    if i == |parent.children| then None
    else
      var hit := MatchSingleKind(goalKind, parent.children[i]);
      if hit.Some? then hit else SingleKindInChildren(goalKind, parent, i + 1)
  }

  /** The goal cursor after skipping unnamed goal children from index `i`. */
  function SkipUnnamed(gs: seq<Node>, i: nat): (j: nat)
    requires i <= |gs|
    ensures i <= j <= |gs|
    ensures forall k :: i <= k < j ==> !gs[k].named
    ensures j < |gs| ==> gs[j].named
    decreases |gs| - i
  {
    if i == |gs| then i
    else if gs[i].named then i
    else SkipUnnamed(gs, i + 1)
  }

  // ---------------------------------------------------------------------------
  // Specification of `match_node_exact`. Exact is the whole call; Walk is the
  // top of the cursor loop with the goal cursor at `gi` and the candidate cursor
  // at `ci`; Anchor is the forward scan after an ellipsis; Step is the shared
  // tail of the loop body (match the current pair, then advance both cursors).
  // ---------------------------------------------------------------------------

  function Exact(classify: Classifier, goal: Node, candidate: Node, env: Env): (Option<Node>, Env)
    decreases goal, 2, 0, 0
  {
    if goal.IsLeaf() && ExtractVarFromNode(classify, goal).Some? then
      MatchLeafMetaVar(classify, goal, candidate, env)
    else if goal.kindId != candidate.kindId then (None, env)
    else if goal.IsLeaf() then (if goal.text == candidate.text then Some(candidate) else None, env)
    else if |candidate.children| == 0 then (None, env)
    else Walk(classify, goal, candidate, 0, 0, env)
  }

  function Walk(classify: Classifier, goal: Node, candidate: Node, gi: nat, ci: nat, env: Env): (Option<Node>, Env)
    requires gi < |goal.children| && ci < |candidate.children|
    decreases goal, 1, (|goal.children| - gi) + (|candidate.children| - ci), 1
  {
    var gs := goal.children;
    var cs := candidate.children;
    if IsEllipsis(classify, gs[gi]) then
      var j := SkipUnnamed(gs, gi + 1);
      if j == |gs| then (Some(candidate), env)
      else if IsEllipsis(classify, gs[j]) then
        if ci + 1 == |cs| then (None, env)
        else Walk(classify, goal, candidate, j, ci + 1, env)
      else
        var anchor := Anchor(classify, gs[j], cs, ci, env);
        if anchor.0.None? then (None, anchor.1)
        else Step(classify, goal, candidate, j, anchor.0.value, anchor.1)
    else
      Step(classify, goal, candidate, gi, ci, env)
  }

  function Step(classify: Classifier, goal: Node, candidate: Node, gi: nat, ci: nat, env: Env): (Option<Node>, Env)
    requires gi < |goal.children| && ci < |candidate.children|
    decreases goal, 1, (|goal.children| - gi) + (|candidate.children| - ci), 0
  {
    var m := Exact(classify, goal.children[gi], candidate.children[ci], env);
    if m.0.None? then (None, m.1)
    else if gi + 1 == |goal.children| then (Some(candidate), m.1)
    else if ci + 1 == |candidate.children| then (None, m.1)
    else Walk(classify, goal, candidate, gi + 1, ci + 1, m.1)
  }

  function Anchor(classify: Classifier, p: Node, cs: seq<Node>, ci: nat, env: Env): (r: (Option<nat>, Env))
    requires ci < |cs|
    ensures r.0.Some? ==> ci <= r.0.value < |cs|
    decreases p, 3, |cs| - ci, 0
  {
    var probe := Exact(classify, p, cs[ci], env);
    if probe.0.Some? then (Some(ci), probe.1)
    else if ci + 1 == |cs| then (None, probe.1)
    else Anchor(classify, p, cs, ci + 1, probe.1)
  }

  /**
   * `match_node_exact`, with the two peekable iterators as indices `gi`, `ci`
   * into the goal's and the candidate's children.
   */
  method MatchNodeExact(classify: Classifier, goal: Node, candidate: Node, env: Env)
    returns (r: Option<Node>, envOut: Env)
    ensures (r, envOut) == Exact(classify, goal, candidate, env)
    decreases goal, 1
  {
    envOut := env;
    var isLeaf := goal.IsLeaf();
    if isLeaf {
      var leaf := MatchLeafMetaVar(classify, goal, candidate, envOut);
      if leaf.0.Some? {
        return leaf.0, leaf.1;
      }
    }
    if goal.kindId != candidate.kindId {
      return None, envOut;
    }
    if isLeaf {
      return if goal.text == candidate.text then Some(candidate) else None, envOut;
    }
    if |candidate.children| == 0 {
      return None, envOut;
    }
    r, envOut := WalkChildren(classify, goal, candidate, env);
  }

  /**
   * The cursor `loop` of `match_node_exact`, over the children of a goal and
   * a candidate of the same kind, the candidate having at least one child.
   */
  method WalkChildren(classify: Classifier, goal: Node, candidate: Node, env: Env)
    returns (r: Option<Node>, envOut: Env)
    requires |goal.children| > 0 && |candidate.children| > 0
    ensures (r, envOut) == Walk(classify, goal, candidate, 0, 0, env)
    decreases goal, 0
  {
    envOut := env;
    var gs, cs := goal.children, candidate.children;
    var gi, ci := 0, 0;
    while true
      invariant gi < |gs| && ci < |cs|
      invariant Walk(classify, goal, candidate, gi, ci, envOut) == Walk(classify, goal, candidate, 0, 0, env)
      decreases (|gs| - gi) + (|cs| - ci)
    {
      if IsEllipsis(classify, gs[gi]) {
        ghost var gi0, ci0, env0 := gi, ci, envOut;
        gi := SkipUnnamedGoals(gs, gi + 1);
        if gi == |gs| {
          return Some(candidate), envOut;
        }
        if IsEllipsis(classify, gs[gi]) {
          ci := ci + 1;
          if ci == |cs| {
            return None, envOut;
          }
          assert Walk(classify, goal, candidate, gi0, ci0, env0) == Walk(classify, goal, candidate, gi, ci, envOut);
          continue;
        }
        var anchor, anchorEnv := ScanForAnchor(classify, gs[gi], cs, ci, envOut);
        envOut := anchorEnv;
        if anchor.None? {
          return None, envOut;
        }
        ci := anchor.value;
        assert Walk(classify, goal, candidate, gi0, ci0, env0) == Step(classify, goal, candidate, gi, ci, envOut);
      }
      assert Step(classify, goal, candidate, gi, ci, envOut) == Walk(classify, goal, candidate, 0, 0, env);
      ghost var stepEnv := envOut;
      var m, mEnv := MatchNodeExact(classify, gs[gi], cs[ci], envOut);
      envOut := mEnv;
      if m.None? {
        return None, envOut;
      }
      gi := gi + 1;
      if gi == |gs| {
        return Some(candidate), envOut;
      }
      ci := ci + 1;
      if ci == |cs| {
        return None, envOut;
      }
      assert Step(classify, goal, candidate, gi - 1, ci - 1, stepEnv) == Walk(classify, goal, candidate, gi, ci, envOut);
    }
  }

  /** The `while` of `match_node_exact` that steps the goal cursor past unnamed children. */
  method SkipUnnamedGoals(gs: seq<Node>, i: nat) returns (j: nat)
    requires i <= |gs|
    ensures j == SkipUnnamed(gs, i)
  {
    j := i;
    while j < |gs| && !gs[j].named
      invariant i <= j <= |gs|
      invariant SkipUnnamed(gs, j) == SkipUnnamed(gs, i)
      decreases |gs| - j
    {
      j := j + 1;
    }
  }

  /**
   * The inner `loop` of `match_node_exact` after an ellipsis: probe the
   * candidate children from `ci` on (each probe may bind variables) until
   * one matches the anchor `p`.
   */
  method ScanForAnchor(classify: Classifier, p: Node, cs: seq<Node>, ci: nat, env: Env)
    returns (found: Option<nat>, envOut: Env)
    requires ci < |cs|
    ensures (found, envOut) == Anchor(classify, p, cs, ci, env)
    decreases p, 2
  {
    var i := ci;
    envOut := env;
    while true
      invariant ci <= i < |cs|
      invariant Anchor(classify, p, cs, i, envOut) == Anchor(classify, p, cs, ci, env)
      decreases |cs| - i
    {
      var probe, probeEnv := MatchNodeExact(classify, p, cs[i], envOut);
      envOut := probeEnv;
      if probe.Some? {
        return Some(i), envOut;
      }
      i := i + 1;
      if i == |cs| {
        return None, envOut;
      }
    }
  }

  /** `match_node_recursive`: pre-order, first-match search for the goal in the candidate tree. */
  function MatchNodeRecursive(classify: Classifier, goal: Node, candidate: Node, env: Env): (Option<Node>, Env)
    decreases candidate, 1, 0
  {
    var here := Exact(classify, goal, candidate, env);
    if here.0.Some? then here
    else RecursiveInChildren(classify, goal, candidate, 0, here.1)
  }

  /** The `find_map` over the children of `parent`, from child `i` on, threading `env`. */
  function RecursiveInChildren(classify: Classifier, goal: Node, parent: Node, i: nat, env: Env): (Option<Node>, Env)
    requires i <= |parent.children|
    decreases parent, 0, |parent.children| - i
  {
    if i == |parent.children| then (None, env)
    else
      var sub := MatchNodeRecursive(classify, goal, parent.children[i], env);
      if sub.0.Some? then sub
      else RecursiveInChildren(classify, goal, parent, i + 1, sub.1)
  }
}
