/**
 * Properties of the matcher in crates/ref_transform/src/matcher.rs, stated
 * about the specification functions of module Matcher.
 */
module MatcherProofs {
  import opened Wrappers
  import opened Matcher

  // ---------------------------------------------------------------------------
  // The capture environment is write-only: what was bound before a call never
  // changes its outcome, and the call only overrides names on top of it.
  // ---------------------------------------------------------------------------

  lemma MapPlusAssoc(a: Env, b: Env, c: Env)
    ensures (a + b) + c == a + (b + c)
  {
  }

  lemma MapPlusEmpty(a: Env)
    ensures a + map[] == a
  {
  }

  lemma {:induction false} ExactEnvWriteOnly(classify: Classifier, goal: Node, candidate: Node, env: Env)
    ensures Exact(classify, goal, candidate, env) ==
      (Exact(classify, goal, candidate, map[]).0, env + Exact(classify, goal, candidate, map[]).1)
    decreases goal, 2, 0, 0
  {
    if goal.IsLeaf() && ExtractVarFromNode(classify, goal).Some? {
      var b := Binding(ExtractVarFromNode(classify, goal).value);
      if b.Some? {
        assert env[b.value := candidate] == env + map[b.value := candidate];
      } else {
        MapPlusEmpty(env);
      }
    } else if goal.kindId != candidate.kindId || goal.IsLeaf() || |candidate.children| == 0 {
      MapPlusEmpty(env);
    } else {
      WalkEnvWriteOnly(classify, goal, candidate, 0, 0, env);
    }
  }

  lemma {:induction false} WalkEnvWriteOnly(classify: Classifier, goal: Node, candidate: Node, gi: nat, ci: nat, env: Env)
    requires gi < |goal.children| && ci < |candidate.children|
    ensures Walk(classify, goal, candidate, gi, ci, env) ==
      (Walk(classify, goal, candidate, gi, ci, map[]).0, env + Walk(classify, goal, candidate, gi, ci, map[]).1)
    decreases goal, 1, (|goal.children| - gi) + (|candidate.children| - ci), 1
  {
    var gs, cs := goal.children, candidate.children;
    if IsEllipsis(classify, gs[gi]) {
      var j := SkipUnnamed(gs, gi + 1);
      if j == |gs| {
        MapPlusEmpty(env);
      } else if IsEllipsis(classify, gs[j]) {
        if ci + 1 < |cs| {
          WalkEnvWriteOnly(classify, goal, candidate, j, ci + 1, env);
        } else {
          MapPlusEmpty(env);
        }
      } else {
        AnchorEnvWriteOnly(classify, gs[j], cs, ci, env);
        var a := Anchor(classify, gs[j], cs, ci, map[]);
        if a.0.Some? {
          StepEnvWriteOnly(classify, goal, candidate, j, a.0.value, env + a.1);
          StepEnvWriteOnly(classify, goal, candidate, j, a.0.value, a.1);
          MapPlusAssoc(env, a.1, Step(classify, goal, candidate, j, a.0.value, map[]).1);
        }
      }
    } else {
      StepEnvWriteOnly(classify, goal, candidate, gi, ci, env);
    }
  }

  lemma {:induction false} StepEnvWriteOnly(classify: Classifier, goal: Node, candidate: Node, gi: nat, ci: nat, env: Env)
    requires gi < |goal.children| && ci < |candidate.children|
    ensures Step(classify, goal, candidate, gi, ci, env) ==
      (Step(classify, goal, candidate, gi, ci, map[]).0, env + Step(classify, goal, candidate, gi, ci, map[]).1)
    decreases goal, 1, (|goal.children| - gi) + (|candidate.children| - ci), 0
  {
    var gs, cs := goal.children, candidate.children;
    ExactEnvWriteOnly(classify, gs[gi], cs[ci], env);
    var m := Exact(classify, gs[gi], cs[ci], map[]);
    if m.0.Some? && gi + 1 < |gs| && ci + 1 < |cs| {
      WalkEnvWriteOnly(classify, goal, candidate, gi + 1, ci + 1, env + m.1);
      WalkEnvWriteOnly(classify, goal, candidate, gi + 1, ci + 1, m.1);
      MapPlusAssoc(env, m.1, Walk(classify, goal, candidate, gi + 1, ci + 1, map[]).1);
    }
  }

  lemma {:induction false} AnchorEnvWriteOnly(classify: Classifier, p: Node, cs: seq<Node>, ci: nat, env: Env)
    requires ci < |cs|
    ensures Anchor(classify, p, cs, ci, env) ==
      (Anchor(classify, p, cs, ci, map[]).0, env + Anchor(classify, p, cs, ci, map[]).1)
    decreases p, 3, |cs| - ci, 0
  {
    ExactEnvWriteOnly(classify, p, cs[ci], env);
    var probe := Exact(classify, p, cs[ci], map[]);
    if probe.0.None? && ci + 1 < |cs| {
      AnchorEnvWriteOnly(classify, p, cs, ci + 1, env + probe.1);
      AnchorEnvWriteOnly(classify, p, cs, ci + 1, probe.1);
      MapPlusAssoc(env, probe.1, Anchor(classify, p, cs, ci + 1, map[]).1);
    }
  }

  // ---------------------------------------------------------------------------
  // Env-free reading of the matcher.
  // ---------------------------------------------------------------------------

  /** The goal matches the candidate (whatever was bound before, by ExactEnvWriteOnly). */
  ghost predicate Matches(classify: Classifier, goal: Node, candidate: Node)
  {
    Exact(classify, goal, candidate, map[]).0.Some?
  }

  lemma MatchesUnderAnyEnv(classify: Classifier, goal: Node, candidate: Node, env: Env)
    ensures Exact(classify, goal, candidate, env).0.Some? <==> Matches(classify, goal, candidate)
    ensures env.Keys <= Exact(classify, goal, candidate, env).1.Keys
  {
    ExactEnvWriteOnly(classify, goal, candidate, env);
  }

  /** On success `match_node_exact` returns the candidate it was given. */
  lemma {:induction false} ExactReturnsCandidate(classify: Classifier, goal: Node, candidate: Node, env: Env)
    ensures Exact(classify, goal, candidate, env).0.Some? ==> Exact(classify, goal, candidate, env).0 == Some(candidate)
  {
    if !goal.IsLeaf() && goal.kindId == candidate.kindId && |candidate.children| > 0 {
      WalkReturnsCandidate(classify, goal, candidate, 0, 0, env);
    }
  }

  lemma {:induction false} WalkReturnsCandidate(classify: Classifier, goal: Node, candidate: Node, gi: nat, ci: nat, env: Env)
    requires gi < |goal.children| && ci < |candidate.children|
    ensures Walk(classify, goal, candidate, gi, ci, env).0.Some? ==> Walk(classify, goal, candidate, gi, ci, env).0 == Some(candidate)
    decreases (|goal.children| - gi) + (|candidate.children| - ci), 1
  {
    var gs, cs := goal.children, candidate.children;
    if IsEllipsis(classify, gs[gi]) {
      var j := SkipUnnamed(gs, gi + 1);
      if j == |gs| {
      } else if IsEllipsis(classify, gs[j]) {
        if ci + 1 < |cs| {
          WalkReturnsCandidate(classify, goal, candidate, j, ci + 1, env);
        }
      } else {
        var a := Anchor(classify, gs[j], cs, ci, env);
        if a.0.Some? {
          StepReturnsCandidate(classify, goal, candidate, j, a.0.value, a.1);
        }
      }
    } else {
      StepReturnsCandidate(classify, goal, candidate, gi, ci, env);
    }
  }

  lemma {:induction false} StepReturnsCandidate(classify: Classifier, goal: Node, candidate: Node, gi: nat, ci: nat, env: Env)
    requires gi < |goal.children| && ci < |candidate.children|
    ensures Step(classify, goal, candidate, gi, ci, env).0.Some? ==> Step(classify, goal, candidate, gi, ci, env).0 == Some(candidate)
    decreases (|goal.children| - gi) + (|candidate.children| - ci), 0
  {
    var m := Exact(classify, goal.children[gi], candidate.children[ci], env);
    if m.0.Some? && gi + 1 < |goal.children| && ci + 1 < |candidate.children| {
      WalkReturnsCandidate(classify, goal, candidate, gi + 1, ci + 1, m.1);
    }
  }

  // ---------------------------------------------------------------------------
  // The three steps of match_node_exact before the cursor loop.
  // ---------------------------------------------------------------------------

  /** A meta-variable leaf matches any candidate, whatever its kind or children. */
  lemma LeafMetaVarMatchesAnything(classify: Classifier, goal: Node, candidate: Node, env: Env)
    requires goal.IsLeaf() && classify(goal.text).Some?
    ensures Exact(classify, goal, candidate, env).0 == Some(candidate)
    ensures Binding(classify(goal.text).value).None? ==> Exact(classify, goal, candidate, env).1 == env
    ensures Binding(classify(goal.text).value).Some? ==>
      Exact(classify, goal, candidate, env).1 == env[Binding(classify(goal.text).value).value := candidate]
  {
  }

  /** Goals that are not meta-variable leaves fail on a different `kind_id`. */
  lemma KindMismatchFails(classify: Classifier, goal: Node, candidate: Node, env: Env)
    requires !goal.IsLeaf() || classify(goal.text).None?
    requires goal.kindId != candidate.kindId
    ensures Exact(classify, goal, candidate, env) == (None, env)
  {
  }

  /** A literal leaf matches exactly the candidates of its kind and text. */
  lemma LiteralLeafMatchesIffSameText(classify: Classifier, goal: Node, candidate: Node, env: Env)
    requires goal.IsLeaf() && classify(goal.text).None?
    ensures Exact(classify, goal, candidate, env).0.Some? <==>
      goal.kindId == candidate.kindId && goal.text == candidate.text
    ensures Exact(classify, goal, candidate, env).1 == env
  {
  }

  /** An interior goal never matches a childless candidate. */
  lemma InteriorGoalFailsOnChildless(classify: Classifier, goal: Node, candidate: Node, env: Env)
    requires !goal.IsLeaf() && candidate.IsLeaf()
    ensures Exact(classify, goal, candidate, env) == (None, env)
  {
  }

  /**
   * A pattern whose only child is an ellipsis (`f($$$)` without the
   * parentheses) still needs one candidate child: the early return on an
   * empty candidate comes before the ellipsis is seen.
   */
  lemma LoneEllipsisNeedsACandidateChild(classify: Classifier, goal: Node, candidate: Node, env: Env)
    requires |goal.children| == 1 && IsEllipsis(classify, goal.children[0])
    requires goal.kindId == candidate.kindId
    ensures Exact(classify, goal, candidate, env).0.Some? <==> |candidate.children| > 0
  {
  }

  // ---------------------------------------------------------------------------
  // The cursor loop.
  // ---------------------------------------------------------------------------

  /**
   * Without ellipses the children are matched pairwise, position by position;
   * candidate children left over after the last goal child do not matter.
   */
  lemma NoEllipsisMatchesPairwise(classify: Classifier, goal: Node, candidate: Node, env: Env)
    requires !goal.IsLeaf() && goal.kindId == candidate.kindId
    requires forall k :: 0 <= k < |goal.children| ==> !IsEllipsis(classify, goal.children[k])
    ensures Exact(classify, goal, candidate, env).0.Some? <==>
      |goal.children| <= |candidate.children| &&
      forall k :: 0 <= k < |goal.children| ==> Matches(classify, goal.children[k], candidate.children[k])
  {
    if |candidate.children| > 0 {
      PairwiseFrom(classify, goal, candidate, 0, env);
    }
  }

  lemma {:induction false} PairwiseFrom(classify: Classifier, goal: Node, candidate: Node, i: nat, env: Env)
    requires i < |goal.children| && i < |candidate.children|
    requires forall k :: i <= k < |goal.children| ==> !IsEllipsis(classify, goal.children[k])
    ensures Walk(classify, goal, candidate, i, i, env).0.Some? <==>
      |goal.children| <= |candidate.children| &&
      forall k :: i <= k < |goal.children| ==> Matches(classify, goal.children[k], candidate.children[k])
    decreases |goal.children| - i
  {
    var gs, cs := goal.children, candidate.children;
    MatchesUnderAnyEnv(classify, gs[i], cs[i], env);
    var m := Exact(classify, gs[i], cs[i], env);
    if m.0.Some? && i + 1 < |gs| && i + 1 < |cs| {
      PairwiseFrom(classify, goal, candidate, i + 1, m.1);
    }
  }

  /** An ellipsis followed only by unnamed goal children swallows the rest of the candidates. */
  lemma EllipsisThenUnnamedSucceeds(classify: Classifier, goal: Node, candidate: Node, gi: nat, ci: nat, env: Env)
    requires gi < |goal.children| && ci < |candidate.children|
    requires IsEllipsis(classify, goal.children[gi])
    requires forall k :: gi < k < |goal.children| ==> !goal.children[k].named
    ensures Walk(classify, goal, candidate, gi, ci, env) == (Some(candidate), env)
  {
  }

  /** The forward scan stops at the first candidate child, from the cursor on, that the goal child matches. */
  lemma {:induction false} AnchorIsFirstMatch(classify: Classifier, p: Node, cs: seq<Node>, ci: nat, env: Env)
    requires ci < |cs|
    ensures Anchor(classify, p, cs, ci, env).0.Some? ==>
      var k := Anchor(classify, p, cs, ci, env).0.value;
      Matches(classify, p, cs[k]) && forall m :: ci <= m < k ==> !Matches(classify, p, cs[m])
    ensures Anchor(classify, p, cs, ci, env).0.None? ==>
      forall m :: ci <= m < |cs| ==> !Matches(classify, p, cs[m])
    decreases |cs| - ci
  {
    MatchesUnderAnyEnv(classify, p, cs[ci], env);
    var probe := Exact(classify, p, cs[ci], env);
    if probe.0.None? && ci + 1 < |cs| {
      AnchorIsFirstMatch(classify, p, cs, ci + 1, probe.1);
    }
  }

  /**
   * After an ellipsis the next named goal child (when it is no ellipsis) is
   * anchored at the first candidate child it matches, and the walk goes on
   * from there; without such a child the whole match fails.
   */
  lemma EllipsisAnchorsNextNamedChild(classify: Classifier, goal: Node, candidate: Node, gi: nat, ci: nat, env: Env)
    requires gi < |goal.children| && ci < |candidate.children|
    requires IsEllipsis(classify, goal.children[gi])
    requires SkipUnnamed(goal.children, gi + 1) < |goal.children|
    requires !IsEllipsis(classify, goal.children[SkipUnnamed(goal.children, gi + 1)])
    ensures var j := SkipUnnamed(goal.children, gi + 1);
      (forall m :: ci <= m < |candidate.children| ==> !Matches(classify, goal.children[j], candidate.children[m])) ==>
        Walk(classify, goal, candidate, gi, ci, env).0 == None
    ensures var j := SkipUnnamed(goal.children, gi + 1);
      forall k :: (ci <= k < |candidate.children| && Matches(classify, goal.children[j], candidate.children[k]) &&
                   (forall m :: ci <= m < k ==> !Matches(classify, goal.children[j], candidate.children[m]))) ==>
        Walk(classify, goal, candidate, gi, ci, env).0 == Step(classify, goal, candidate, j, k, map[]).0
  {
    var gs, cs := goal.children, candidate.children;
    var j := SkipUnnamed(gs, gi + 1);
    AnchorIsFirstMatch(classify, gs[j], cs, ci, env);
    var a := Anchor(classify, gs[j], cs, ci, env);
    var w := Walk(classify, goal, candidate, gi, ci, env);
    assert w == if a.0.None? then (None, a.1) else Step(classify, goal, candidate, j, a.0.value, a.1);
    if a.0.Some? {
      var k0 := a.0.value;
      StepEnvWriteOnly(classify, goal, candidate, j, k0, a.1);
      forall k | ci <= k < |cs| && Matches(classify, gs[j], cs[k]) && (forall m :: ci <= m < k ==> !Matches(classify, gs[j], cs[m]))
        ensures w.0 == Step(classify, goal, candidate, j, k, map[]).0
      {
        assert k == k0;
      }
    }
  }

  // ---------------------------------------------------------------------------
  // The two searches are pre-order and first-match.
  // ---------------------------------------------------------------------------

  /** Every node of the tree, the root first, then each child's subtree in source order. */
  function PreOrder(n: Node): (r: seq<Node>)
    ensures |r| > 0 && r[0] == n
    decreases n, 1, 0
  {
    [n] + PreOrderFrom(n, 0)
  }

  function PreOrderFrom(parent: Node, i: nat): seq<Node>
    requires i <= |parent.children|
    decreases parent, 0, |parent.children| - i
  {
    if i == |parent.children| then []
    else PreOrder(parent.children[i]) + PreOrderFrom(parent, i + 1)
  }

  /** Reference definition: the first node of `ns` whose kind is `kind`. */
  function FirstOfKind(ns: seq<Node>, kind: string): (r: Option<Node>)
    ensures r.Some? ==> r.value in ns && r.value.kind == kind
    ensures r.None? ==> forall n :: n in ns ==> n.kind != kind
  {
    if ns == [] then None
    else if ns[0].kind == kind then Some(ns[0])
    else FirstOfKind(ns[1..], kind)
  }

  /** Reference definition: the first node of `ns` that the goal matches. */
  ghost function FirstMatching(classify: Classifier, goal: Node, ns: seq<Node>): (r: Option<Node>)
    ensures r.Some? ==> r.value in ns && Matches(classify, goal, r.value)
    ensures r.None? ==> forall n :: n in ns ==> !Matches(classify, goal, n)
  {
    if ns == [] then None
    else if Matches(classify, goal, ns[0]) then Some(ns[0])
    else FirstMatching(classify, goal, ns[1..])
  }

  lemma {:induction false} FirstOfKindConcat(a: seq<Node>, b: seq<Node>, kind: string)
    ensures FirstOfKind(a + b, kind) == if FirstOfKind(a, kind).Some? then FirstOfKind(a, kind) else FirstOfKind(b, kind)
  {
    if a != [] {
      assert (a + b)[1..] == a[1..] + b;
      FirstOfKindConcat(a[1..], b, kind);
    } else {
      assert a + b == b;
    }
  }

  lemma {:induction false} FirstMatchingConcat(classify: Classifier, goal: Node, a: seq<Node>, b: seq<Node>)
    ensures FirstMatching(classify, goal, a + b) ==
      if FirstMatching(classify, goal, a).Some? then FirstMatching(classify, goal, a) else FirstMatching(classify, goal, b)
  {
    if a != [] {
      assert (a + b)[1..] == a[1..] + b;
      FirstMatchingConcat(classify, goal, a[1..], b);
    } else {
      assert a + b == b;
    }
  }

  /** `match_single_kind` returns the first node of the goal kind in pre-order. */
  lemma {:induction false} SingleKindIsFirstInPreOrder(goalKind: string, candidate: Node)
    ensures MatchSingleKind(goalKind, candidate) == FirstOfKind(PreOrder(candidate), goalKind)
    decreases candidate, 1, 0
  {
    var p := PreOrder(candidate);
    assert p[1..] == PreOrderFrom(candidate, 0);
    if candidate.kind != goalKind {
      SingleKindFromIsFirst(goalKind, candidate, 0);
    }
  }

  lemma {:induction false} SingleKindFromIsFirst(goalKind: string, parent: Node, i: nat)
    requires i <= |parent.children|
    ensures SingleKindInChildren(goalKind, parent, i) == FirstOfKind(PreOrderFrom(parent, i), goalKind)
    decreases parent, 0, |parent.children| - i
  {
    if i < |parent.children| {
      SingleKindIsFirstInPreOrder(goalKind, parent.children[i]);
      SingleKindFromIsFirst(goalKind, parent, i + 1);
      FirstOfKindConcat(PreOrder(parent.children[i]), PreOrderFrom(parent, i + 1), goalKind);
    }
  }

  /**
   * `match_node_recursive` returns the first subtree in pre-order that the goal
   * matches, and keeps every binding made on the way, those of failed attempts
   * included.
   */
  lemma {:induction false} RecursiveIsFirstInPreOrder(classify: Classifier, goal: Node, candidate: Node, env: Env)
    ensures MatchNodeRecursive(classify, goal, candidate, env).0 == FirstMatching(classify, goal, PreOrder(candidate))
    ensures Exact(classify, goal, candidate, env).1.Keys <= MatchNodeRecursive(classify, goal, candidate, env).1.Keys
    ensures env.Keys <= MatchNodeRecursive(classify, goal, candidate, env).1.Keys
    decreases candidate, 1, 0
  {
    var p := PreOrder(candidate);
    assert p[1..] == PreOrderFrom(candidate, 0);
    MatchesUnderAnyEnv(classify, goal, candidate, env);
    ExactReturnsCandidate(classify, goal, candidate, env);
    var here := Exact(classify, goal, candidate, env);
    if here.0.None? {
      RecursiveFromIsFirst(classify, goal, candidate, 0, here.1);
    }
  }

  lemma {:induction false} RecursiveFromIsFirst(classify: Classifier, goal: Node, parent: Node, i: nat, env: Env)
    requires i <= |parent.children|
    ensures RecursiveInChildren(classify, goal, parent, i, env).0 == FirstMatching(classify, goal, PreOrderFrom(parent, i))
    ensures env.Keys <= RecursiveInChildren(classify, goal, parent, i, env).1.Keys
    decreases parent, 0, |parent.children| - i
  {
    if i < |parent.children| {
      var child := parent.children[i];
      RecursiveIsFirstInPreOrder(classify, goal, child, env);
      var sub := MatchNodeRecursive(classify, goal, child, env);
      if sub.0.None? {
        RecursiveFromIsFirst(classify, goal, parent, i + 1, sub.1);
      }
      FirstMatchingConcat(classify, goal, PreOrder(child), PreOrderFrom(parent, i + 1));
    }
  }
}
