/**
 * Round trips for the directive-name grammar: a directive written out in
 * `v-name:arg.mod` form, or with a shorthand, parses back to itself with no
 * error; and the error each malformed spelling reports.
 */
module DirectiveProofs {
  import opened Wrappers
  import opened TextUtil
  import opened Ast
  import opened Directives
  import Scanner

  /** An argument as written after its `:` or shorthand. */
  function ArgBody(a: DirectiveArg): string
  {
    match a
    case Static(s) => s
    case Dynamic(s) => "[" + s + "]"
  }

  /** The modifiers as written: each after a `.`. */
  function ModText(ms: seq<string>): string
  {
    if ms == [] then "" else "." + Join(ms, '.')
  }

  /**
   * An argument that reads back as itself: a static one is not empty, does
   * not start with `[` and, unless it is v-slot's, has no `.`; a dynamic one
   * has no `]`.
   */
  predicate ArgWritable(a: DirectiveArg, isVSlot: bool)
  {
    match a
    case Static(s) => s != [] && s[0] != '[' && (isVSlot || '.' !in s)
    case Dynamic(s) => ']' !in s
  }

  predicate ModsWritable(ms: seq<string>)
  {
    forall k :: 0 <= k < |ms| ==> ms[k] != [] && '.' !in ms[k]
  }

  /** `v-name`, then `:arg` when there is an argument, then `.mod` per modifier. */
  function Written(d: Directive): string
  {
    "v-" + d.name + (if d.argument.Some? then ":" + ArgBody(d.argument.value) else "") + ModText(d.modifiers)
  }

  lemma ModsParseBack(ms: seq<string>, isProp: bool)
    requires ModsWritable(ms)
    ensures ParseDirectiveMods(ModText(ms), isProp) == Reported(if isProp then ms + ["prop"] else ms, [])
  {
    EmptyModsReported(ms, isProp);
    MissingModsCount(ms);
  }

  /** Modifiers are kept even when empty, and each empty one is reported. */
  lemma EmptyModsReported(ms: seq<string>, isProp: bool)
    requires forall k :: 0 <= k < |ms| ==> '.' !in ms[k]
    ensures ParseDirectiveMods(ModText(ms), isProp) == Reported(if isProp then ms + ["prop"] else ms, MissingMods(ms))
  {
    assert ms + [] == ms;
    if ms != [] {
      SplitJoin(ms, '.');
      assert ModText(ms)[1..] == Join(ms, '.');
    } else {
      NoModsParsed(isProp);
    }
  }

  lemma OneModParsed(m: string)
    requires m != [] && '.' !in m
    ensures ParseDirectiveMods("." + m, false) == Reported([m], [])
  {
    ModsParseBack([m], false);
    assert ModText([m]) == "." + m;
  }

  lemma NoModsParsed(isProp: bool)
    ensures ParseDirectiveMods("", isProp) == Reported(if isProp then ["prop"] else [], [])
  {
    var none: seq<string> := [];
    assert none + (if isProp then ["prop"] else []) == (if isProp then ["prop"] else []);
    assert MissingMods(none) == [];
  }

  /** A static argument ends at the first `.`. */
  lemma StaticArgSplit(p: string, a: string, mods: string, isProp: bool)
    requires |p| > 1 && p[0] in {':', '@', '.'} && (p[0] != '.' || isProp)
    requires p[1..] == a + mods && a != [] && a[0] != '[' && '.' !in a
    requires mods == [] || mods[0] == '.'
    ensures SplitArgAndMods(p, false, isProp) == Reported((a, mods), [])
  {
    IndexOfAnyConcat(a, mods, {'.'});
    assert (a + mods)[..|a|] == a && (a + mods)[|a|..] == mods;
  }

  /** A dynamic argument ends at its `]`; the modifiers that follow are kept whole. */
  lemma DynamicArgSplit(p: string, x: string, mods: string, isProp: bool)
    requires |p| > 1 && p[0] in {':', '@', '.'} && (p[0] != '.' || isProp)
    requires p[1..] == "[" + x + "]" + mods && ']' !in x
    requires mods == [] || mods[0] == '.'
    ensures SplitArgAndMods(p, false, isProp) == Reported(("[" + x + "]", mods), [])
  {
    DynamicSplit(x, mods);
  }

  lemma DynamicSplit(x: string, mods: string)
    requires ']' !in x
    requires mods == [] || mods[0] == '.'
    ensures SplitDynamicArg("[" + x + "]" + mods) == Reported(("[" + x + "]", mods), [])
  {
    var arg := "[" + x + "]";
    IndexOfAnyConcat("[" + x, "]" + mods, {']'});
    assert arg + mods == ("[" + x) + ("]" + mods);
    assert (arg + mods)[..|arg|] == arg && (arg + mods)[|arg|..] == mods;
  }

  lemma DynamicArgParsed(x: string)
    requires ']' !in x
    ensures ParseDirectiveArg("[" + x + "]") == Reported(Some(Dynamic(x)), [])
  {
    var arg := "[" + x + "]";
    IndexOfAnyConcat("[" + x, "]", {']'});
    assert arg[1..|x| + 1] == x;
  }

  /**
   * The argument parser as written agrees with ParseDirectiveArg exactly when
   * there is no dynamic argument closed by `]`, or when the text between `[`
   * and that `]` is ASCII.
   */
  lemma ArgAsWrittenAgrees(arg: string)
    ensures var i := IndexOfAny(arg, {']'});
      ParseDirectiveArgAsWritten(arg) == Some(ParseDirectiveArg(arg)) <==>
        (arg == [] || arg[0] != '[' || i == |arg| || forall k :: 1 <= k < i ==> arg[k] as int < 0x80)
  {
    var i := IndexOfAny(arg, {']'});
    if arg != [] && arg[0] == '[' && i < |arg| {
      if forall k :: 1 <= k < i ==> arg[k] as int < 0x80 {
        AsciiArgAgrees(arg, i);
      } else {
        NonAsciiArgDisagrees(arg, i);
      }
    }
  }

  /** With ASCII between `[` and `]`, the byte count is the character count. */
  lemma AsciiArgAgrees(arg: string, i: nat)
    requires arg != [] && arg[0] == '[' && i == IndexOfAny(arg, {']'}) && i < |arg|
    requires forall k :: 1 <= k < i ==> arg[k] as int < 0x80
    ensures ParseDirectiveArgAsWritten(arg) == Some(ParseDirectiveArg(arg))
  {
    var s := arg[1..];
    assert forall k :: 0 <= k < i - 1 ==> s[k] == arg[k + 1];
    CharsInBytesAscii(s, i - 1);
  }

  /** A non-ASCII character between `[` and `]` makes the byte count cover fewer characters, or none. */
  lemma NonAsciiArgDisagrees(arg: string, i: nat)
    requires arg != [] && arg[0] == '[' && i == IndexOfAny(arg, {']'}) && i < |arg|
    requires exists k :: 1 <= k < i && arg[k] as int >= 0x80
    ensures ParseDirectiveArgAsWritten(arg) != Some(ParseDirectiveArg(arg))
  {
    var s := arg[1..];
    var c := CharsInBytes(s, i - 1);
    if c.Some? {
      var n := c.value;
      CharsInBytesSize(s, i - 1);
      Utf8SizeAtLeast(s[..n]);
      var k0 :| 1 <= k0 < i && arg[k0] as int >= 0x80;
      if k0 - 1 < n {
        assert s[..n][k0 - 1] == arg[k0];
      }
      assert n < i - 1;
      assert |arg[1..1 + n]| != |arg[1..i]|;
    }
  }

  /** A dynamic argument round-trips through the code as written exactly when it is ASCII. */
  lemma DynamicArgParsedAsWritten(x: string)
    requires ']' !in x
    ensures ParseDirectiveArgAsWritten("[" + x + "]") == Some(Reported(Some(Dynamic(x)), [])) <==>
      forall k :: 0 <= k < |x| ==> x[k] as int < 0x80
  {
    var arg := "[" + x + "]";
    DynamicArgParsed(x);
    IndexOfAnyConcat("[" + x, "]", {']'});
    ArgAsWrittenAgrees(arg);
    assert forall k :: 1 <= k < |x| + 1 ==> arg[k] == x[k - 1];
  }

  /** `[é]`: the slice ends inside `é`, so the code as written panics. */
  lemma NonAsciiDynamicArgPanics()
    ensures ParseDirectiveArgAsWritten("[\U{E9}]") == None
    ensures ParseDirectiveArg("[\U{E9}]") == Reported(Some(Dynamic("\U{E9}")), [])
  {
    DynamicArgParsed("\U{E9}");
    assert "[" + "\U{E9}" + "]" == "[\U{E9}]";
  }

  /** `[éa]`: the slice stops one byte short, after `é`, and `a` is lost. */
  lemma NonAsciiDynamicArgCut()
    ensures ParseDirectiveArgAsWritten("[\U{E9}a]") == Some(Reported(Some(Dynamic("\U{E9}")), []))
    ensures ParseDirectiveArg("[\U{E9}a]") == Reported(Some(Dynamic("\U{E9}a")), [])
  {
    var arg := "[\U{E9}a]";
    DynamicArgParsed("\U{E9}a");
    assert "[" + "\U{E9}a" + "]" == arg;
    IndexOfAnyConcat("[\U{E9}a", "]", {']'});
    assert CharsInBytes(arg[1..][1..], 0) == Some(0);
    assert CharsInBytes(arg[1..], 2) == Some(1);
    assert IndexOfAny(arg, {']'}) == 3;
    assert arg[1..1 + 1] == "\U{E9}";
  }

  /** The written argument parses back to itself. */
  lemma ArgParsed(a: DirectiveArg, isVSlot: bool)
    requires ArgWritable(a, isVSlot)
    ensures ParseDirectiveArg(ArgBody(a)) == Reported(Some(a), [])
  {
    if a.Dynamic? { DynamicArgParsed(a.name); }
  }

  /** ParseDirective is its stages in sequence, errors in stage order. */
  lemma ParseDirectiveStages(attr: Scanner.Attribute, name: string, prefixed: string,
                             split: Reported<(string, string)>, arg: Reported<Option<DirectiveArg>>,
                             mods: Reported<seq<string>>)
    requires ParseDirName(attr.name).value == Some((name, prefixed))
    requires SplitArgAndMods(prefixed, name == "slot", StartsWith(attr.name, ".")) == split
    requires ParseDirectiveArg(split.value.0) == arg
    requires split.value.1 == [] || split.value.1[0] == '.'
    requires ParseDirectiveMods(split.value.1, StartsWith(attr.name, ".")) == mods
    ensures ParseDirective(attr) ==
      Reported(Directive(name, arg.value, mods.value, TrimAttrValue(attr.value)), split.errors + arg.errors + mods.errors)
  {
  }

  /** A `v-` name whose directive name has no separator is detected with the rest as remainder. */
  lemma VNameDetected(dirName: string, rest: string)
    requires dirName != [] && ':' !in dirName && '.' !in dirName
    requires rest == [] || rest[0] in {':', '.'}
    ensures ParseDirName("v-" + dirName + rest).value == Some((dirName, rest))
    ensures !StartsWith("v-" + dirName + rest, ".")
  {
    var name := "v-" + dirName + rest;
    assert name == "v-" + (dirName + rest);
    assert name[2..] == dirName + rest;
    IndexOfAnyConcat(dirName, rest, {':', '.'});
    assert (dirName + rest)[..|dirName|] == dirName && (dirName + rest)[|dirName|..] == rest;
    FirstCharDiffers(name, ".");
  }

  /**
   * Writing a directive out in `v-` form and parsing it gives the directive
   * back, with the trimmed value, and reports nothing. v-slot is covered by
   * SlotRoundTrip.
   */
  lemma VDirectiveRoundTrip(d: Directive, v: Option<Scanner.AttributeValue>)
    requires d.name != [] && ':' !in d.name && '.' !in d.name && d.name != "slot"
    requires d.argument.Some? ==> ArgWritable(d.argument.value, false)
    requires ModsWritable(d.modifiers)
    ensures ParseDirName(Written(d)).value.Some?
    ensures ParseDirective(Scanner.Attribute(Written(d), v)) == Reported(d.(expression := TrimAttrValue(v)), [])
  {
    var mods := ModText(d.modifiers);
    if d.argument.None? {
      assert Written(d) == "v-" + d.name + mods;
      VNoArgRoundTrip(d.name, d.modifiers, v);
    } else {
      var rest := ":" + (ArgBody(d.argument.value) + mods);
      assert Written(d) == "v-" + d.name + rest;
      VArgRoundTrip(d.name, d.argument.value, d.modifiers, v);
    }
  }

  lemma VNoArgRoundTrip(dirName: string, ms: seq<string>, v: Option<Scanner.AttributeValue>)
    requires dirName != [] && ':' !in dirName && '.' !in dirName && dirName != "slot"
    requires ModsWritable(ms)
    ensures var name := "v-" + dirName + ModText(ms);
      ParseDirName(name).value.Some? &&
      ParseDirective(Scanner.Attribute(name, v)) == Reported(Directive(dirName, None, ms, TrimAttrValue(v)), [])
  {
    var mods := ModText(ms);
    var name := "v-" + dirName + mods;
    VNameDetected(dirName, mods);
    ModsParseBack(ms, false);
    var split := SplitArgAndMods(mods, false, false);
    assert split == Reported(("", mods), []);
    assert ParseDirectiveArg("") == Reported(None, []);
    ParseDirectiveStages(Scanner.Attribute(name, v), dirName, mods, split, Reported(None, []), Reported(ms, []));
  }

  lemma VArgRoundTrip(dirName: string, a: DirectiveArg, ms: seq<string>, v: Option<Scanner.AttributeValue>)
    requires dirName != [] && ':' !in dirName && '.' !in dirName && dirName != "slot"
    requires ArgWritable(a, false) && ModsWritable(ms)
    ensures var name := "v-" + dirName + (":" + (ArgBody(a) + ModText(ms)));
      ParseDirName(name).value.Some? &&
      ParseDirective(Scanner.Attribute(name, v)) == Reported(Directive(dirName, Some(a), ms, TrimAttrValue(v)), [])
  {
    var mods := ModText(ms);
    var rest := ":" + (ArgBody(a) + mods);
    var name := "v-" + dirName + rest;
    VNameDetected(dirName, rest);
    ModsParseBack(ms, false);
    assert rest[1..] == ArgBody(a) + mods;
    if a.Static? {
      StaticArgSplit(rest, a.name, mods, false);
    } else {
      assert rest[1..] == "[" + a.name + "]" + mods;
      DynamicArgSplit(rest, a.name, mods, false);
    }
    ArgParsed(a, false);
    ParseDirectiveStages(Scanner.Attribute(name, v), dirName, rest, Reported((ArgBody(a), mods), []),
      Reported(Some(a), []), Reported(ms, []));
  }

  /**
   * The shorthands `:x`, `@x` and `.x` (bind, on, and bind with the prop
   * modifier appended) parse back to their argument and modifiers.
   */
  lemma ShorthandRoundTrip(c: char, a: DirectiveArg, ms: seq<string>, v: Option<Scanner.AttributeValue>)
    requires c in {':', '@', '.'}
    requires ArgWritable(a, false) && ModsWritable(ms)
    ensures var name := [c] + ArgBody(a) + ModText(ms);
      ParseDirName(name).value.Some? &&
      ParseDirective(Scanner.Attribute(name, v)) ==
        Reported(Directive(ShorthandName(c), Some(a), if c == '.' then ms + ["prop"] else ms, TrimAttrValue(v)), [])
  {
    var mods := ModText(ms);
    var name := [c] + ArgBody(a) + mods;
    var isProp := c == '.';
    assert name[1..] == ArgBody(a) + mods;
    FirstCharDiffers(name, "v-");
    if c != '.' { FirstCharDiffers(name, "."); }
    assert StartsWith(name, ".") == isProp;
    assert ParseDirName(name).value == Some((ShorthandName(c), name));
    ModsParseBack(ms, isProp);
    if a.Static? {
      StaticArgSplit(name, a.name, mods, isProp);
    } else {
      assert name[1..] == "[" + a.name + "]" + mods;
      DynamicArgSplit(name, a.name, mods, isProp);
    }
    ArgParsed(a, false);
    ParseDirectiveStages(Scanner.Attribute(name, v), ShorthandName(c), name, Reported((ArgBody(a), mods), []),
      Reported(Some(a), []), Reported(if isProp then ms + ["prop"] else ms, []));
  }

  /**
   * `#arg` and `v-slot:arg` take everything after the shorthand as the
   * argument (a static one may contain `.`) and no modifiers.
   */
  lemma SlotRoundTrip(prefix: string, a: DirectiveArg, v: Option<Scanner.AttributeValue>)
    requires prefix == "#" || prefix == "v-slot:"
    requires ArgWritable(a, true)
    ensures var name := prefix + ArgBody(a);
      ParseDirName(name).value.Some? &&
      ParseDirective(Scanner.Attribute(name, v)) == Reported(Directive("slot", Some(a), [], TrimAttrValue(v)), [])
  {
    var body := ArgBody(a);
    var name := prefix + body;
    var prefixed := if prefix == "#" then name else ":" + body;
    if prefix == "v-slot:" {
      assert name == "v-" + "slot" + prefixed;
      VNameDetected("slot", prefixed);
    } else {
      FirstCharDiffers(name, "v-");
      FirstCharDiffers(name, ".");
    }
    assert prefixed[1..] == body;
    assert SplitArgAndMods(prefixed, true, false) == Reported((body, ""), []);
    NoModsParsed(false);
    ArgParsed(a, true);
    ParseDirectiveStages(Scanner.Attribute(name, v), "slot", prefixed, Reported((body, ""), []),
      Reported(Some(a), []), Reported([], []));
  }

  /**
   * v-slot does not look past the `]` of a dynamic argument: `#[x]y` is the
   * dynamic argument `x` with nothing reported, and `y` is lost.
   */
  lemma SlotDynamicArgDropsTrailingText()
    ensures ParseDirective(Scanner.Attribute("#[x]y", None)) ==
      Reported(Directive("slot", Some(Dynamic("x")), [], None), [])
  {
    var attr := Scanner.Attribute("#[x]y", None);
    FirstCharDiffers("#[x]y", "v-");
    FirstCharDiffers("#[x]y", ".");
    assert ParseDirName("#[x]y").value == Some(("slot", "#[x]y"));
    var split := SplitArgAndMods("#[x]y", true, false);
    assert split == Reported(("[x]y", ""), []);
    assert IndexOfAny("[x]y", {']'}) == 2;
    assert "[x]y"[1..2] == "x";
    assert ParseDirectiveArg("[x]y") == Reported(Some(Dynamic("x")), []);
    NoModsParsed(false);
    ParseDirectiveStages(attr, "slot", "#[x]y", split, Reported(Some(Dynamic("x")), []), Reported([], []));
  }

  /** `v-` alone, or followed directly by a separator, has no directive name. */
  lemma MissingNameReported()
    ensures ParseDirName("v-") == Reported(None, [MissingDirectiveName])
    ensures ParseDirName("v-:x") == Reported(None, [MissingDirectiveName])
    ensures ParseDirName("x") == Reported(None, [])
  {
    assert IndexOfAny(":x", {':', '.'}) == 0;
  }

  /** A separator with nothing after it is a missing argument. */
  lemma MissingArgReported()
    ensures ParseDirective(Scanner.Attribute("v-bind:", None)).errors == [MissingDirectiveArg]
  {
    assert "v-bind:" == "v-" + "bind" + ":";
    VNameDetected("bind", ":");
    var split := SplitArgAndMods(":", false, false);
    assert split == Reported(("", ""), [MissingDirectiveArg]);
    assert ParseDirectiveArg("") == Reported(None, []);
    NoModsParsed(false);
    ParseDirectiveStages(Scanner.Attribute("v-bind:", None), "bind", ":", split, Reported(None, []), Reported([], []));
  }

  /** v-slot takes no modifiers. */
  lemma SlotModifierReported()
    ensures ParseDirective(Scanner.Attribute("v-slot.x", None)).errors == [InvalidVSlotModifier]
  {
    assert "v-slot.x" == "v-" + "slot" + ".x";
    VNameDetected("slot", ".x");
    var split := SplitArgAndMods(".x", true, false);
    assert split == Reported(("", ".x"), [InvalidVSlotModifier]);
    assert ParseDirectiveArg("") == Reported(None, []);
    OneModParsed("x");
    assert "." + "x" == ".x";
    var mods := ParseDirectiveMods(".x", false);
    ParseDirectiveStages(Scanner.Attribute("v-slot.x", None), "slot", ".x", split, Reported(None, []), mods);
  }

  /** A dynamic argument without its `]` runs to the end. */
  lemma UnterminatedDynamicArgReported()
    ensures ParseDirective(Scanner.Attribute(":[x", None)) ==
      Reported(Directive("bind", Some(Dynamic("x")), [], None), [MissingDynamicDirectiveArgumentEnd])
  {
    FirstCharDiffers(":[x", "v-");
    FirstCharDiffers(":[x", ".");
    assert ParseDirName(":[x").value == Some(("bind", ":[x"));
    assert ":[x"[1..] == "[x";
    assert IndexOfAny("[x", {']'}) == 2;
    assert "[x"[..2] == "[x" && "[x"[2..] == "";
    assert SplitDynamicArg("[x") == Reported(("[x", ""), []);
    var split := SplitArgAndMods(":[x", false, false);
    assert split == Reported(("[x", ""), []);
    var arg := ParseDirectiveArg("[x");
    assert arg == Reported(Some(Dynamic("x")), [MissingDynamicDirectiveArgumentEnd]);
    NoModsParsed(false);
    ParseDirectiveStages(Scanner.Attribute(":[x", None), "bind", ":[x", split, arg, Reported([], []));
  }

  /** Text between a dynamic argument and the next `.` is reported and dropped. */
  lemma ContentAfterDynamicArgReported()
    ensures ParseDirective(Scanner.Attribute(":[x]y.m", None)) ==
      Reported(Directive("bind", Some(Dynamic("x")), ["m"], None), [UnexpectedContentAfterDynamicDirective])
  {
    TrailingTextSplit();
    TrailingTextParts();
    ParseDirectiveStages(Scanner.Attribute(":[x]y.m", None), "bind", ":[x]y.m",
      Reported(("[x]", ".m"), [UnexpectedContentAfterDynamicDirective]),
      Reported(Some(Dynamic("x")), []), Reported(["m"], []));
  }

  lemma TrailingTextSplit()
    ensures ParseDirName(":[x]y.m").value == Some(("bind", ":[x]y.m"))
    ensures !StartsWith(":[x]y.m", ".")
    ensures SplitArgAndMods(":[x]y.m", false, false) == Reported(("[x]", ".m"), [UnexpectedContentAfterDynamicDirective])
  {
    FirstCharDiffers(":[x]y.m", "v-");
    FirstCharDiffers(":[x]y.m", ".");
    assert ":[x]y.m"[1..] == "[x]y.m";
    assert IndexOfAny("[x]y.m", {']'}) == 2;
    assert "[x]y.m"[..3] == "[x]" && "[x]y.m"[3..] == "y.m";
    assert IndexOfAny("y.m", {'.'}) == 1;
    assert "y.m"[1..] == ".m";
  }

  lemma TrailingTextParts()
    ensures ParseDirectiveArg("[x]") == Reported(Some(Dynamic("x")), [])
    ensures ParseDirectiveMods(".m", false) == Reported(["m"], [])
  {
    DynamicArgParsed("x");
    assert "[" + "x" + "]" == "[x]";
    OneModParsed("m");
    assert "." + "m" == ".m";
  }

  /** Each empty modifier is reported, and kept. */
  lemma EmptyModifierReported()
    ensures ParseDirective(Scanner.Attribute("@click..stop", None)) ==
      Reported(Directive("on", Some(Static("click")), ["", "stop"], None), [MissingDirectiveMod])
  {
    ClickStopSplit();
    ClickStopMods();
    ParseDirectiveStages(Scanner.Attribute("@click..stop", None), "on", "@click..stop",
      Reported(("click", "..stop"), []), Reported(Some(Static("click")), []),
      Reported(["", "stop"], [MissingDirectiveMod]));
  }

  lemma ClickStopSplit()
    ensures ParseDirName("@click..stop").value == Some(("on", "@click..stop"))
    ensures !StartsWith("@click..stop", ".")
    ensures SplitArgAndMods("@click..stop", false, false) == Reported(("click", "..stop"), [])
    ensures ParseDirectiveArg("click") == Reported(Some(Static("click")), [])
  {
    FirstCharDiffers("@click..stop", "v-");
    FirstCharDiffers("@click..stop", ".");
    ClickStopArg();
  }

  lemma ClickStopArg()
    ensures SplitArgAndMods("@click..stop", false, false) == Reported(("click", "..stop"), [])
  {
    assert "@click..stop"[1..] == "click" + "..stop";
    StaticArgSplit("@click..stop", "click", "..stop", false);
  }

  lemma ClickStopMods()
    ensures ParseDirectiveMods("..stop", false) == Reported(["", "stop"], [MissingDirectiveMod])
  {
    var ms := ["", "stop"];
    assert Join(ms[1..], '.') == "stop";
    assert ModText(ms) == "..stop";
    EmptyModsReported(ms, false);
    assert MissingMods(ms[1..]) == [];
  }
}
