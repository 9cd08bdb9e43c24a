/**
 * Concrete argument lists, after the cases exercised by the tests at the end
 * of crates/ref_transform/src/matcher.rs. Only the `arguments` node of each
 * call is built: the callee `foo` matches itself by LiteralLeafMatchesIffSameText.
 * The classifier is any function that reads `$$$` as an anonymous ellipsis,
 * `$A` as the single named wildcard `A`, and the plain tokens as literals.
 */
module MatcherExamples {
  import opened Wrappers
  import opened Matcher

  function Ident(t: string): Node { Node(1, "identifier", true, t, []) }
  function LParen(): Node { Node(2, "(", false, "(", []) }
  function Comma(): Node { Node(3, ",", false, ",", []) }
  function RParen(): Node { Node(4, ")", false, ")", []) }
  function Args(xs: seq<Node>): Node { Node(5, "arguments", true, "", xs) }

  ghost predicate Convention(classify: Classifier)
  {
    && classify("$$$") == Some(Ellipsis)
    && classify("$A") == Some(Named("A"))
    && classify("$$$A") == Some(NamedEllipsis("A"))
    && classify("(") == None && classify(",") == None && classify(")") == None
    && classify("a") == None && classify("b") == None && classify("c") == None && classify("x") == None
  }

  /** `foo($$$)` matches `foo()`. */
  lemma EllipsisMatchesNoArguments(classify: Classifier)
    requires Convention(classify)
    ensures Exact(classify, Args([LParen(), Ident("$$$"), RParen()]), Args([LParen(), RParen()]), map[]).0.Some?
  {
    var g, c := Args([LParen(), Ident("$$$"), RParen()]), Args([LParen(), RParen()]);
    assert Walk(classify, g, c, 1, 1, map[]).0.Some?;
  }

  /** `foo($$$)` matches `foo(a, b, c)`: a lone ellipsis takes every argument. */
  lemma EllipsisMatchesAllArguments(classify: Classifier)
    requires Convention(classify)
    ensures Exact(classify,
                  Args([LParen(), Ident("$$$"), RParen()]),
                  Args([LParen(), Ident("a"), Comma(), Ident("b"), Comma(), Ident("c"), RParen()]),
                  map[]).0.Some?
  {
  }

  /**
   * `foo($$$A, c)` matches `foo(a, b, c)`; the named ellipsis is matched like
   * an anonymous one and binds nothing.
   */
  lemma NamedEllipsisBindsNothing(classify: Classifier)
    requires Convention(classify)
    ensures var c := Args([LParen(), Ident("a"), Comma(), Ident("b"), Comma(), Ident("c"), RParen()]);
      Exact(classify, Args([LParen(), Ident("$$$A"), Comma(), Ident("c"), RParen()]), c, map[]) == (Some(c), map[])
  {
  }

  /** `foo(a, $$$)` matches `foo(a, b, c)`: a trailing ellipsis takes the rest. */
  lemma TrailingEllipsisTakesRest(classify: Classifier)
    requires Convention(classify)
    ensures Exact(classify,
                  Args([LParen(), Ident("a"), Comma(), Ident("$$$"), RParen()]),
                  Args([LParen(), Ident("a"), Comma(), Ident("b"), Comma(), Ident("c"), RParen()]),
                  map[]).0.Some?
  {
  }

  /** `foo(a, b, c, $$$)` does not match `foo(b, c)`: the first argument differs. */
  lemma FixedPrefixMismatchFails(classify: Classifier)
    requires Convention(classify)
    ensures Exact(classify,
                  Args([LParen(), Ident("a"), Comma(), Ident("b"), Comma(), Ident("c"), Comma(), Ident("$$$"), RParen()]),
                  Args([LParen(), Ident("b"), Comma(), Ident("c"), RParen()]),
                  map[]).0.None?
  {
  }

  /** `foo($$$, c)` matches `foo(a, b, c)`: the `c` is anchored at the last argument. */
  lemma LeadingEllipsisAnchorsLastArgument(classify: Classifier)
    requires Convention(classify)
    ensures Exact(classify,
                  Args([LParen(), Ident("$$$"), Comma(), Ident("c"), RParen()]),
                  Args([LParen(), Ident("a"), Comma(), Ident("b"), Comma(), Ident("c"), RParen()]),
                  map[]).0.Some?
  {
    var g := Args([LParen(), Ident("$$$"), Comma(), Ident("c"), RParen()]);
    var c := Args([LParen(), Ident("a"), Comma(), Ident("b"), Comma(), Ident("c"), RParen()]);
    var cs := c.children;
    assert SkipUnnamed(g.children, 2) == 3;
    assert Anchor(classify, Ident("c"), cs, 5, map[]) == (Some(5), map[]);
    assert Anchor(classify, Ident("c"), cs, 4, map[]) == (Some(5), map[]);
    assert Anchor(classify, Ident("c"), cs, 3, map[]) == (Some(5), map[]);
    assert Anchor(classify, Ident("c"), cs, 2, map[]) == (Some(5), map[]);
    assert Anchor(classify, Ident("c"), cs, 1, map[]) == (Some(5), map[]);
    assert Step(classify, g, c, 4, 6, map[]).0.Some?;
    assert Step(classify, g, c, 3, 5, map[]).0.Some?;
    assert Walk(classify, g, c, 1, 1, map[]).0.Some?;
  }

  /** `foo($$$, a, b, c)` does not match `foo(b, c)`: `a` cannot be anchored. */
  lemma FixedSuffixTooLongFails(classify: Classifier)
    requires Convention(classify)
    ensures Exact(classify,
                  Args([LParen(), Ident("$$$"), Comma(), Ident("a"), Comma(), Ident("b"), Comma(), Ident("c"), RParen()]),
                  Args([LParen(), Ident("b"), Comma(), Ident("c"), RParen()]),
                  map[]).0.None?
  {
    var g := Args([LParen(), Ident("$$$"), Comma(), Ident("a"), Comma(), Ident("b"), Comma(), Ident("c"), RParen()]);
    var c := Args([LParen(), Ident("b"), Comma(), Ident("c"), RParen()]);
    var cs := c.children;
    assert SkipUnnamed(g.children, 2) == 3;
    assert Anchor(classify, Ident("a"), cs, 4, map[]).0.None?;
    assert Anchor(classify, Ident("a"), cs, 3, map[]).0.None?;
    assert Anchor(classify, Ident("a"), cs, 2, map[]).0.None?;
    assert Anchor(classify, Ident("a"), cs, 1, map[]).0.None?;
    assert Walk(classify, g, c, 1, 1, map[]).0.None?;
  }

  /**
   * Two ellipses that only punctuation separates consume one candidate child
   * between them: `foo($$$, $$$)` fails on `foo()` but matches `foo(a)`.
   */
  lemma AdjacentEllipsesNeedOneChild(classify: Classifier)
    requires Convention(classify)
    ensures Exact(classify, Args([LParen(), Ident("$$$"), Comma(), Ident("$$$"), RParen()]),
                  Args([LParen(), RParen()]), map[]).0.None?
    ensures Exact(classify, Args([LParen(), Ident("$$$"), Comma(), Ident("$$$"), RParen()]),
                  Args([LParen(), Ident("a"), RParen()]), map[]).0.Some?
  {
    var g := Args([LParen(), Ident("$$$"), Comma(), Ident("$$$"), RParen()]);
    assert SkipUnnamed(g.children, 2) == 3;
    assert SkipUnnamed(g.children, 4) == 5;
    var empty := Args([LParen(), RParen()]);
    assert Walk(classify, g, empty, 1, 1, map[]).0.None?;
    var one := Args([LParen(), Ident("a"), RParen()]);
    assert Walk(classify, g, one, 3, 2, map[]).0.Some?;
    assert Walk(classify, g, one, 1, 1, map[]).0.Some?;
  }

  /**
   * `foo($A, b)` against `foo(x, c)` fails, yet the binding of `A` made on the
   * way survives in the environment.
   */
  lemma FailedMatchKeepsBinding(classify: Classifier)
    requires Convention(classify)
    ensures Exact(classify, Args([LParen(), Ident("$A"), Comma(), Ident("b"), RParen()]),
                  Args([LParen(), Ident("x"), Comma(), Ident("c"), RParen()]), map[])
            == (None, map["A" := Ident("x")])
  {
    var g := Args([LParen(), Ident("$A"), Comma(), Ident("b"), RParen()]);
    var c := Args([LParen(), Ident("x"), Comma(), Ident("c"), RParen()]);
    var bound := map["A" := Ident("x")];
    assert Step(classify, g, c, 3, 3, bound) == (None, bound);
    assert Step(classify, g, c, 2, 2, bound) == (None, bound);
    assert Step(classify, g, c, 1, 1, map[]) == (None, bound);
  }
}
