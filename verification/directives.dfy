/**
 * The directive-name grammar `v-name:arg.mod1.mod2` with the shorthands `:`
 * and `.` (bind), `@` (on) and `#` (slot): `DirectiveParser` in
 * crates/compiler/src/parser.rs. Every step is a function returning its value
 * together with the errors it reports, in order.
 */
module Directives {
  import opened Wrappers
  import opened TextUtil
  import opened Ast
  import Scanner

  /** A value and the errors reported while computing it. */
  datatype Reported<T> = Reported(value: T, errors: seq<ErrorKind>)

  const Shorthands: set<char> := {':', '.', '@', '#'}

  /** The directive a shorthand stands for. */
  function ShorthandName(c: char): string
  {
    if c == ':' || c == '.' then "bind" else if c == '@' then "on" else if c == '#' then "slot" else ""
  }

  /**
   * What the rest of the parser relies on from a detected (name, prefixed)
   * pair: the remainder is empty or starts with a shorthand, `#` only ever
   * introduces v-slot, and v-slot's remainder never starts with `@`.
   */
  predicate WellPrefixed(name: string, prefixed: string)
  {
    (prefixed == [] || prefixed[0] in Shorthands) &&
    (prefixed != [] && prefixed[0] == '#' ==> name == "slot") &&
    (name == "slot" && prefixed != [] ==> prefixed[0] in {'#', ':', '.'})
  }

  /**
   * `parse_dir_name`: the directive name and the shorthand-prefixed remainder
   * of an attribute name, or None when the attribute is not a directive.
   * What the result is, per kind of name, is ParseDirNameShorthand and
   * ParseDirNameV.
   */
  function ParseDirName(name: string): (r: Reported<Option<(string, string)>>)
    ensures r.value.Some? ==> r.value.value.0 != [] && WellPrefixed(r.value.value.0, r.value.value.1)
  {
    if !StartsWith(name, "v-") then
      if name == [] then Reported(None, [])
      else if name[0] in Shorthands then Reported(Some((ShorthandName(name[0]), name)), [])
      else Reported(None, [])
    else
      var n := name[2..];
      var i := IndexOfAny(n, {':', '.'});
      if i == 0 then Reported(None, [MissingDirectiveName])
      else Reported(Some((n[..i], n[i..])), [])
  }

  /** A name without `v-` is a directive exactly when it starts with a shorthand; it stays whole. */
  lemma ParseDirNameShorthand(name: string)
    requires !StartsWith(name, "v-")
    ensures var r := ParseDirName(name);
      r.errors == [] &&
      (r.value.Some? <==> |name| > 0 && name[0] in Shorthands) &&
      (r.value.Some? ==> r.value.value == (ShorthandName(name[0]), name))
  {
  }

  /**
   * A `v-` name splits into `v-`, a directive name up to the first `:` or
   * `.`, and the rest from that separator on; an empty directive name is
   * reported and the attribute is not a directive.
   */
  lemma ParseDirNameV(name: string)
    requires StartsWith(name, "v-")
    ensures var r := ParseDirName(name);
      r.errors == (if r.value.None? then [MissingDirectiveName] else []) &&
      (r.value.None? <==> |name| == 2 || name[2] in {':', '.'}) &&
      (r.value.Some? ==>
        var (d, p) := r.value.value;
        name == "v-" + d + p && ':' !in d && '.' !in d && (p == [] || p[0] in {':', '.'}))
  {
    var n := name[2..];
    var i := IndexOfAny(n, {':', '.'});
    assert name == "v-" + n[..i] + n[i..];
  }

  /**
   * `split_dynamic_arg`: the argument runs through the first `]`, inclusive,
   * or to the end; content after it that does not start with `.` is reported
   * and dropped up to the next `.` (SplitDynamicArgParts).
   */
  function SplitDynamicArg(remain: string): (r: Reported<(string, string)>)
    ensures r.value.1 == [] || r.value.1[0] == '.'
  {
    var i := IndexOfAny(remain, {']'});
    var end := if i < |remain| then i + 1 else |remain|;
    var arg := remain[..end];
    var mods := remain[end..];
    if mods != [] && mods[0] != '.' then
      Reported((arg, mods[IndexOfAny(mods, {'.'})..]), [UnexpectedContentAfterDynamicDirective])
    else
      Reported((arg, mods), [])
  }

  lemma SplitDynamicArgParts(remain: string)
    ensures var r := SplitDynamicArg(remain); var (arg, mods) := r.value;
      |arg| + |mods| <= |remain| && remain[..|arg|] == arg && remain[|remain| - |mods|..] == mods &&
      ((arg == remain && ']' !in remain) || (|arg| > 0 && arg[|arg| - 1] == ']' && ']' !in arg[..|arg| - 1])) &&
      var skipped := remain[|arg|..|remain| - |mods|];
      '.' !in skipped &&
      r.errors == (if skipped == [] then [] else [UnexpectedContentAfterDynamicDirective])
  {
    var i := IndexOfAny(remain, {']'});
    var end := if i < |remain| then i + 1 else |remain|;
    var arg := remain[..end];
    var mods := remain[end..];
    DynamicArgEnd(remain);
    if mods != [] && mods[0] != '.' {
      var k := IndexOfAny(mods, {'.'});
      assert mods[k..] == remain[|remain| - |mods[k..]|..];
      assert remain[|arg|..|remain| - |mods[k..]|] == mods[..k];
    } else {
      assert remain[|arg|..|remain| - |mods|] == [];
    }
  }

  lemma DynamicArgEnd(remain: string)
    ensures var arg := SplitDynamicArg(remain).value.0;
      |arg| <= |remain| && remain[..|arg|] == arg &&
      ((arg == remain && ']' !in remain) || (|arg| > 0 && arg[|arg| - 1] == ']' && ']' !in arg[..|arg| - 1]))
  {
    var i := IndexOfAny(remain, {']'});
    var end := if i < |remain| then i + 1 else |remain|;
    assert SplitDynamicArg(remain).value.0 == remain[..end];
    if i < |remain| {
      assert remain[..end][..i] == remain[..i];
    } else {
      assert remain[..end] == remain;
    }
  }

  /**
   * `split_arg_and_mods`: the argument without its shorthand, and the
   * modifier string, which is empty or starts with `.`
   * (SplitArgAndModsCases). The requires are the source's debug assertions.
   */
  function SplitArgAndMods(prefixed: string, isVSlot: bool, isProp: bool): (r: Reported<(string, string)>)
    requires prefixed == [] || prefixed[0] in Shorthands
    requires isVSlot && |prefixed| > 1 && prefixed[0] != '.' ==> prefixed[0] in {'#', ':'}
    requires !isVSlot && |prefixed| > 1 && (prefixed[0] != '.' || isProp) && prefixed[1] != '[' ==> prefixed[0] != '#'
    ensures r.value.1 == [] || r.value.1[0] == '.'
  {
    if |prefixed| == 0 then Reported(("", ""), [])
    else if |prefixed| == 1 then Reported(("", ""), [MissingDirectiveArg])
    else
      var remain := prefixed[1..];
      if isVSlot then
        if prefixed[0] == '.' then Reported(("", prefixed), [InvalidVSlotModifier])
        else Reported((remain, ""), [])
      else if prefixed[0] == '.' && !isProp then Reported(("", prefixed), [])
      else if remain[0] == '[' then SplitDynamicArg(remain)
      else
        var i := IndexOfAny(remain, {'.'});
        Reported((remain[..i], remain[i..]), [])
  }

  lemma SplitArgAndModsCases(prefixed: string, isVSlot: bool, isProp: bool)
    requires prefixed == [] || prefixed[0] in Shorthands
    requires isVSlot && |prefixed| > 1 && prefixed[0] != '.' ==> prefixed[0] in {'#', ':'}
    requires !isVSlot && |prefixed| > 1 && (prefixed[0] != '.' || isProp) && prefixed[1] != '[' ==> prefixed[0] != '#'
    ensures var r := SplitArgAndMods(prefixed, isVSlot, isProp);
      (|prefixed| == 0 ==> r == Reported(("", ""), [])) &&
      (|prefixed| == 1 ==> r == Reported(("", ""), [MissingDirectiveArg])) &&
      (|prefixed| > 1 && isVSlot ==>
        if prefixed[0] == '.' then r == Reported(("", prefixed), [InvalidVSlotModifier])
        else r == Reported((prefixed[1..], ""), [])) &&
      (|prefixed| > 1 && !isVSlot && prefixed[0] == '.' && !isProp ==> r == Reported(("", prefixed), [])) &&
      (|prefixed| > 1 && !isVSlot && (prefixed[0] != '.' || isProp) ==>
        if prefixed[1] == '[' then r == SplitDynamicArg(prefixed[1..])
        else
          var (arg, mods) := r.value;
          r.errors == [] && prefixed[1..] == arg + mods && '.' !in arg)
  {
    if |prefixed| > 1 {
      var remain := prefixed[1..];
      var i := IndexOfAny(remain, {'.'});
      assert remain == remain[..i] + remain[i..];
    }
  }

  /**
   * `parse_directive_arg`: no argument, a static one, or the dynamic one
   * between `[` and the first `]` (or the end, reporting the missing `]`);
   * see ParseDirectiveArgCases.
   */
  function ParseDirectiveArg(arg: string): (r: Reported<Option<DirectiveArg>>)
    ensures r.value.None? <==> arg == []
  {
    if arg == [] then Reported(None, [])
    else if arg[0] != '[' then Reported(Some(Static(arg)), [])
    else
      var i := IndexOfAny(arg, {']'});
      if i < |arg| then Reported(Some(Dynamic(arg[1..i])), [])
      else Reported(Some(Dynamic(arg[1..])), [MissingDynamicDirectiveArgumentEnd])
  }

  lemma ParseDirectiveArgCases(arg: string)
    ensures var r := ParseDirectiveArg(arg);
      (arg != [] && arg[0] != '[' ==> r == Reported(Some(Static(arg)), [])) &&
      (arg != [] && arg[0] == '[' ==>
        r.value.Some? && r.value.value.Dynamic? &&
        var x := r.value.value.name;
        ']' !in x &&
        if ']' in arg then r.errors == [] && StartsWith(arg, "[" + x + "]")
        else r.errors == [MissingDynamicDirectiveArgumentEnd] && arg == "[" + x)
  {
    if arg != [] && arg[0] == '[' {
      var i := IndexOfAny(arg, {']'});
      if i < |arg| {
        assert arg[..i + 1] == "[" + arg[1..i] + "]";
      } else {
        assert arg == "[" + arg[1..];
      }
    }
  }

  /**
   * `parse_directive_arg` as written: the position of `]` is counted in
   * characters but used as a byte offset to slice the argument. The result
   * is None where that slice is not on a character boundary, which is a
   * panic; a release build is modelled, so the debug assertion that `]` is
   * the last byte does not stop it.
   */
  function ParseDirectiveArgAsWritten(arg: string): (r: Option<Reported<Option<DirectiveArg>>>)
    ensures arg == [] || arg[0] != '[' || ']' !in arg ==> r == Some(ParseDirectiveArg(arg))
  {
    if arg == [] then Some(Reported(None, []))
    else if arg[0] != '[' then Some(Reported(Some(Static(arg)), []))
    else
      var i := IndexOfAny(arg, {']'});
      if i < |arg| then
        match CharsInBytes(arg[1..], i - 1)
        case None => None
        case Some(n) => Some(Reported(Some(Dynamic(arg[1..1 + n])), []))
      else Some(Reported(Some(Dynamic(arg[1..])), [MissingDynamicDirectiveArgumentEnd]))
  }

  /** One MissingDirectiveMod per empty modifier, in order. */
  function MissingMods(pieces: seq<string>): (r: seq<ErrorKind>)
    ensures forall k :: 0 <= k < |r| ==> r[k] == MissingDirectiveMod
  {
    if |pieces| == 0 then []
    else if pieces[0] == [] then [MissingDirectiveMod] + MissingMods(pieces[1..])
    else MissingMods(pieces[1..])
  }

  /** As many errors as empty pieces: none when no piece is empty, one each when all are. */
  lemma {:induction false} MissingModsCount(pieces: seq<string>)
    ensures |MissingMods(pieces)| <= |pieces|
    ensures |MissingMods(pieces)| == 0 <==> forall k :: 0 <= k < |pieces| ==> pieces[k] != []
    ensures |MissingMods(pieces)| == |pieces| <==> forall k :: 0 <= k < |pieces| ==> pieces[k] == []
  {
    if |pieces| > 0 {
      MissingModsCount(pieces[1..]);
      assert forall k :: 1 <= k < |pieces| ==> pieces[k] == pieces[1..][k - 1];
    }
  }

  /**
   * `parse_directive_mods`: the `.`-separated pieces after the leading `.`,
   * in order, then "prop" for the `.prop` shorthand; each empty piece is
   * reported (ParseDirectiveModsPieces). The requires is the source's debug
   * assertion.
   */
  function ParseDirectiveMods(mods: string, isProp: bool): (r: Reported<seq<string>>)
    requires mods == [] || mods[0] == '.'
    ensures isProp ==> |r.value| >= 1 && r.value[|r.value| - 1] == "prop"
  {
    var pieces := if mods == [] then [] else Split(mods[1..], '.');
    Reported(pieces + (if isProp then ["prop"] else []), MissingMods(pieces))
  }

  lemma ParseDirectiveModsPieces(mods: string, isProp: bool)
    requires mods == [] || mods[0] == '.'
    ensures var r := ParseDirectiveMods(mods, isProp);
      var pieces := if isProp then r.value[..|r.value| - 1] else r.value;
      (mods == [] ==> pieces == []) &&
      (mods != [] ==> |pieces| >= 1 && Join(pieces, '.') == mods[1..] && forall k :: 0 <= k < |pieces| ==> '.' !in pieces[k]) &&
      r.errors == MissingMods(pieces)
  {
    var pieces := if mods == [] then [] else Split(mods[1..], '.');
    var value := pieces + (if isProp then ["prop"] else []);
    assert (if isProp then value[..|value| - 1] else value) == pieces;
    if mods != [] { JoinSplit(mods[1..], '.'); }
  }

  /** `trim_attr_value`: the value with surrounding whitespace removed (TrimAttrValueTrims). */
  function TrimAttrValue(v: Option<Scanner.AttributeValue>): (r: Option<Scanner.AttributeValue>)
    ensures r.None? <==> v.None?
  {
    match v
    case None => None
    case Some(a) => Some(Scanner.AttributeValue(VStr(Trim(a.content.raw), a.content.ops)))
  }

  lemma TrimAttrValueTrims(v: Option<Scanner.AttributeValue>)
    requires v.Some?
    ensures var raw, t, i := v.value.content.raw, TrimAttrValue(v).value.content.raw, LeadingWhitespace(v.value.content.raw);
      TrimAttrValue(v).value.content.ops == v.value.content.ops &&
      i + |t| <= |raw| && raw[i..i + |t|] == t &&
      AllUnicodeWhitespace(raw[..i]) && AllUnicodeWhitespace(raw[i + |t|..]) &&
      (t == [] || (!IsUnicodeWhitespace(t[0]) && !IsUnicodeWhitespace(t[|t| - 1])))
  {
    TrimSurrounds(v.value.content.raw);
  }

  /**
   * `DirectiveParser::parse` on an attribute that detection found to be a
   * directive (the `expect` in the source). The pair cached by detection is
   * recomputed here: detection is a function of the attribute name.
   */
  function ParseDirective(attr: Scanner.Attribute): (r: Reported<Directive>)
    requires ParseDirName(attr.name).value.Some?
    ensures r.value.name == ParseDirName(attr.name).value.value.0 && r.value.name != []
    ensures r.value.expression == TrimAttrValue(attr.value)
    ensures StartsWith(attr.name, ".") ==> |r.value.modifiers| >= 1 && r.value.modifiers[|r.value.modifiers| - 1] == "prop"
  {
    var (name, prefixed) := ParseDirName(attr.name).value.value;
    var isProp := StartsWith(attr.name, ".");
    var isVSlot := name == "slot";
    var split := SplitArgAndMods(prefixed, isVSlot, isProp);
    var arg := ParseDirectiveArg(split.value.0);
    var mods := ParseDirectiveMods(split.value.1, isProp);
    Reported(
      Directive(name, arg.value, mods.value, TrimAttrValue(attr.value)),
      split.errors + arg.errors + mods.errors)
  }

  /** `is_special_template_directive`: the directives that make a `<template>` special. */
  function IsSpecialTemplateDirective(n: string): (r: bool)
    ensures r <==> n in {"if", "for", "else", "slot", "else-if"}
  {
    match |n|
    case 2 => n == "if"
    case 3 => n == "for"
    case 4 => n == "else" || n == "slot"
    case 7 => n == "else-if"
    case _ => false
  }
}
