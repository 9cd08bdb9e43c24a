# Vue template parser and syntax-tree matcher, modelled in Dafny

This project models two parts of a Vue template compiler written in Rust.

**The template parser** (`crates/compiler/src/parser.rs`) turns the scanner's
token stream into the template AST. It is modelled as the class
`TreeBuilder.AstBuilder`. The class keeps the source's mutable state as fields:
- the stack of open elements;
- the root nodes;
- the count of open `<pre>` tags;
- the stack index of the element that opened a `v-pre` region;
- the reported errors.

Each `parse_*`, `close_*` and `handle_*` method of the source is a method of
that class. Its postcondition gives the new state in terms of specification
functions. The class invariant `Valid` is established by the constructor, and
it is required and ensured by the methods that handle a whole token, close an
element or run a loop of `build_ast`: `ParseToken`, `ParseOpenTag`,
`PushElement`, `ParseEndTag`, `CloseFrom`, `CloseElement`, `ParseText`,
`InsertText`, `ParseComment`, `ParseInterpolation`, `ParseTokens`,
`CloseRemaining` and `BuildAst`; `FinishElement` ensures it. The steps the
source runs in the middle of a change to the stack (`handle_pre_like`,
`decrement_pre`, `close_v_pre`, `parse_element`, `insert_node` and the
attribute and text helpers) state only the fields they change. Directive
arguments are parsed as the corrected reading of parser.rs:788-790 under
"## Findings" gives them, not as the code as written does. The
decisions about one element live in module `ElementRules`, as functions with
their own lemmas:
- which properties its attributes become;
- its tag type;
- what closing does to its children;
- where a finished node goes.

The rest of the parser model is split into three modules:
- `Directives` models the directive-name grammar
  (`v-name:arg.mod`, with the shorthands `:`, `.`, `@` and `#`). Every step
  returns its value together with the errors it reports.
- `DirectiveProofs` proves round trips: a directive written out parses back
  to itself. It also proves the error each malformed spelling reports.
- `Whitespace` models `compress_whitespaces`, both as a loop and as a
  closed form.

**The structural matcher** (`crates/ref_transform/src/matcher.rs`) matches a
pattern tree against a candidate tree. Leaves that the meta-variable
classifier recognises match any node or bind it. Ellipses (`$$$`) absorb runs
of children. The model has two parts:
- Specification functions (`Exact`, `Walk`, `Step`, `Anchor`) follow the
  recursion and the cursor loop of `match_node_exact` branch by branch.
- `MatchNodeExact` and its loops are methods proved equal to those functions.

`MatcherProofs` states what the matcher guarantees:
- the capture environment is write-only;
- a success returns the candidate;
- the search is pre-order and first-match;
- an ellipsis anchors the next named pattern child at the first candidate it
  matches.

`MatcherExamples` replays the repository's ellipsis tests on concrete trees.

Inputs the core cannot see are parameters:
- the meta-variable classifier;
- the parse options' callbacks;
- the built-in component lookup;
- the token stream.

Some behaviours of the code that the model keeps:
- A pattern whose only child is an ellipsis still needs one candidate child (matcher.rs:72); see `MatcherProofs.LoneEllipsisNeedsACandidateChild`.
- `decrement_pre` trims the leading newline of the element's last child (parser.rs:499-501); see `ElementRules.TrimLastTextChild`.
- `#[x]y` drops `y` without a report (parser.rs:744-752); see `DirectiveProofs.SlotDynamicArgDropsTrailingText`.
- A named ellipsis binds nothing (matcher.rs:75-95); see `MatcherExamples.NamedEllipsisBindsNothing`.

## Model

| member | source | states |
|---|---|---|
| TextUtil.IndexOfAny | crates/compiler/src/parser.rs:719-723 | the index of the first character in the set, or the length: nothing before it is in the set |
| TextUtil.IndexOfAnyConcat | crates/compiler/src/parser.rs:719-723 | searching past a prefix with no character of the set continues in the suffix |
| TextUtil.AsciiLowercase | crates/compiler/src/parser.rs:913-915 | no upper-case ASCII letter is left, and a character changes exactly when it is one; the length is kept |
| TextUtil.AsciiLowercaseIdempotent | crates/compiler/src/parser.rs:913-915 | lower-casing a lower-cased name changes nothing |
| TextUtil.EqIgnoreAsciiCaseIsLowercaseEquality | crates/compiler/src/parser.rs:913-915 | two names are equal ignoring ASCII case exactly when their ASCII lower-casings are equal |
| TextUtil.Utf8Len | crates/compiler/src/parser.rs:788-790 | a character takes one to four bytes, and one exactly when it is ASCII |
| TextUtil.CharsInBytes | crates/compiler/src/parser.rs:788-790 | the number of characters that fill the first b bytes is at most the length; none when byte b is not a character boundary, where a byte slice panics |
| TextUtil.CharsInBytesSize | crates/compiler/src/parser.rs:788-790 | the characters counted take exactly b bytes |
| TextUtil.CharsInBytesAscii | crates/compiler/src/parser.rs:788-790 | over ASCII text b bytes are b characters |
| TextUtil.Utf8SizeAtLeast | crates/compiler/src/parser.rs:788-790 | a string takes at least one byte per character, and exactly one per character exactly when it is ASCII |
| TextUtil.Split | crates/compiler/src/parser.rs:807-813 | splitting yields at least one piece and no piece contains the separator |
| TextUtil.JoinSplit | crates/compiler/src/parser.rs:807-813 | joining the pieces of a split with the separator gives the string back |
| TextUtil.SplitJoin | crates/compiler/src/parser.rs:807-813 | splitting a join of separator-free pieces gives the pieces back |
| TextUtil.SplitWithoutSep | crates/compiler/src/parser.rs:807-813 | a string without the separator splits into itself alone |
| TextUtil.SplitLeadingSep | crates/compiler/src/parser.rs:807-813 | a leading separator contributes one empty first piece |
| TextUtil.LeadingWhitespace | crates/compiler/src/parser.rs:821-828 | the length of the maximal whitespace prefix |
| TextUtil.TrailingWhitespace | crates/compiler/src/parser.rs:821-828 | the length of the maximal whitespace suffix |
| TextUtil.TrimSurrounds | crates/compiler/src/parser.rs:821-828 | trimming keeps the middle of the string, only whitespace is removed around it, and the result neither starts nor ends with whitespace |
| TextUtil.LeadingWhitespaceIsWhitespace | crates/compiler/src/parser.rs:821-828 | what trimming removes in front is whitespace |
| TextUtil.TrimmedTailIsWhitespace | crates/compiler/src/parser.rs:821-828 | what trimming removes behind is whitespace |
| TextUtil.TrimmedEnds | crates/compiler/src/parser.rs:821-828 | a trimmed string is empty or has non-whitespace at both ends |
| Ast.AllWhitespaceIsOnRenderedText | crates/compiler/src/parser.rs:103-105 | `IsAllWhitespace` (`is_all_whitespace`): a text node is all whitespace, segment by segment, exactly when its rendered text is |
| Ast.LeadingNewline | crates/compiler/src/parser.rs:110-116 | the offset is 1 for a leading "\n", 2 for a leading "\r\n" and 0 otherwise |
| Ast.TrimLeadingNewline | crates/compiler/src/parser.rs:106-126 | the rendered text loses exactly the leading newline; a first segment left empty is removed; every other segment and the operations are kept |
| Ast.DecodedAttr | crates/compiler/src/parser.rs:142-147 | the attribute keeps its name and raw value; a present value is marked for entity decoding |
| Directives.ParseDirName | crates/compiler/src/parser.rs:707-729 | a detected directive has a non-empty name and a remainder that is empty or starts with a shorthand, where `#` only ever introduces v-slot |
| Directives.ParseDirNameShorthand | crates/compiler/src/parser.rs:707-717 | a name without `v-` is a directive exactly when it starts with a shorthand; the whole name is the remainder and nothing is reported |
| Directives.ParseDirNameV | crates/compiler/src/parser.rs:718-729 | a `v-` name splits at the first `:` or `.`; an empty directive name reports MissingDirectiveName and is no directive |
| Directives.SplitDynamicArg | crates/compiler/src/parser.rs:768-781 | the modifier part is empty or starts with `.` |
| Directives.SplitDynamicArgParts | crates/compiler/src/parser.rs:768-781 | the argument is a prefix of the input, running through the first `]`; text between the `]` and the next `.` is reported as UnexpectedContentAfterDynamicDirective and dropped |
| Directives.DynamicArgEnd | crates/compiler/src/parser.rs:768-781 | the argument is the whole input when it has no `]`, else it ends with its first `]` |
| Directives.SplitArgAndMods | crates/compiler/src/parser.rs:731-767 | the modifier string is empty or starts with `.` |
| Directives.SplitArgAndModsCases | crates/compiler/src/parser.rs:731-767 | a lone shorthand reports MissingDirectiveArg; v-slot takes all the rest as its argument, or reports InvalidVSlotModifier for `.`; a `.` without the prop shorthand starts the modifiers at once; a static argument ends before the first `.`; a dynamic one is split by SplitDynamicArg |
| Directives.ParseDirectiveArg | crates/compiler/src/parser.rs:782-795 | the intended parse (see Findings): there is no argument exactly when the argument text is empty |
| Directives.ParseDirectiveArgCases | crates/compiler/src/parser.rs:782-795 | for the intended parse: a text not starting with `[` is static and reports nothing; one starting with `[` is dynamic, holds no `]`, and is the text up to the first `]` with nothing reported, or the whole rest with MissingDynamicDirectiveArgumentEnd when there is no `]` |
| Directives.ParseDirectiveArgAsWritten | crates/compiler/src/parser.rs:782-795 | the code as written: empty, static and unterminated arguments parse as in the intended parse; a closed dynamic argument is sliced at the character index of `]` taken as a byte offset, and is None, a panic, where that offset falls inside a character |
| Directives.MissingMods | crates/compiler/src/parser.rs:799-803 | only MissingDirectiveMod errors are produced |
| Directives.MissingModsCount | crates/compiler/src/parser.rs:799-813 | one error per empty modifier: none exactly when no piece is empty, one per piece exactly when all are empty |
| Directives.ParseDirectiveMods | crates/compiler/src/parser.rs:797-819 | with the `.prop` shorthand, the last modifier is "prop" |
| Directives.ParseDirectiveModsPieces | crates/compiler/src/parser.rs:797-819 | the modifiers are the `.`-separated pieces after the leading `.`, in order, then "prop"; the errors are one per empty piece |
| Directives.TrimAttrValue | crates/compiler/src/parser.rs:821-828 | a value is present after trimming exactly when it was present before |
| Directives.TrimAttrValueTrims | crates/compiler/src/parser.rs:821-828 | the trimmed value is the raw value without its surrounding whitespace, with its operations kept |
| Directives.ParseDirective | crates/compiler/src/parser.rs:680-700 | the directive's name is the detected one and is non-empty, its expression is the trimmed value, and `.x` ends its modifiers with "prop" |
| Directives.IsSpecialTemplateDirective | crates/compiler/src/parser.rs:898-907 | exactly if, for, else, slot and else-if |
| DirectiveProofs.ModsParseBack | crates/compiler/src/parser.rs:797-819 | written non-empty modifiers parse back to themselves, with "prop" appended for `.x`, and nothing is reported |
| DirectiveProofs.EmptyModsReported | crates/compiler/src/parser.rs:797-819 | empty modifiers are kept in place, and each one is reported |
| DirectiveProofs.OneModParsed | crates/compiler/src/parser.rs:797-819 | `.m` is the single modifier m |
| DirectiveProofs.NoModsParsed | crates/compiler/src/parser.rs:797-819 | no modifier text gives no modifiers, or just "prop" |
| DirectiveProofs.StaticArgSplit | crates/compiler/src/parser.rs:758-766 | a static argument ends at the first `.` and the rest is the modifiers, with nothing reported |
| DirectiveProofs.DynamicArgSplit | crates/compiler/src/parser.rs:756-781 | a dynamic argument ends at its `]` and the modifiers that follow are kept whole |
| DirectiveProofs.DynamicSplit | crates/compiler/src/parser.rs:768-781 | `[x]` followed by modifiers splits there, with nothing reported |
| DirectiveProofs.DynamicArgParsed | crates/compiler/src/parser.rs:782-795 | in the intended parse, `[x]` with no `]` in x is the dynamic argument x with nothing reported |
| DirectiveProofs.ArgAsWrittenAgrees | crates/compiler/src/parser.rs:782-795 | the code as written gives the intended result exactly when the argument is empty, static or unterminated, or has only ASCII between `[` and the first `]` |
| DirectiveProofs.AsciiArgAgrees | crates/compiler/src/parser.rs:788-790 | with ASCII between `[` and `]` the code as written gives the intended result |
| DirectiveProofs.NonAsciiArgDisagrees | crates/compiler/src/parser.rs:788-790 | with a non-ASCII character between `[` and `]` the code as written does not give the intended result |
| DirectiveProofs.DynamicArgParsedAsWritten | crates/compiler/src/parser.rs:782-795 | `[x]` round-trips through the code as written exactly when x is ASCII |
| DirectiveProofs.NonAsciiDynamicArgPanics | crates/compiler/src/parser.rs:788-790 | `[é]` panics in the code as written, while the intended parse gives the dynamic argument `é` |
| DirectiveProofs.NonAsciiDynamicArgCut | crates/compiler/src/parser.rs:788-790 | `[éa]` is cut to the dynamic argument `é` by the code as written, while the intended parse gives `éa` |
| DirectiveProofs.ArgParsed | crates/compiler/src/parser.rs:782-795 | a written argument parses back to itself |
| DirectiveProofs.ParseDirectiveStages | crates/compiler/src/parser.rs:680-700 | parsing a directive runs detection, the split, the argument and the modifiers in order, and the errors come in stage order |
| DirectiveProofs.VNameDetected | crates/compiler/src/parser.rs:707-729 | `v-name` followed by a separator is detected as name plus remainder |
| DirectiveProofs.VDirectiveRoundTrip | crates/compiler/src/parser.rs:680-828 | any directive written in `v-name:arg.mods` form parses back to itself, with the trimmed value and no error |
| DirectiveProofs.VNoArgRoundTrip | crates/compiler/src/parser.rs:680-828 | the round trip for `v-name.mods` |
| DirectiveProofs.VArgRoundTrip | crates/compiler/src/parser.rs:680-828 | the round trip for `v-name:arg.mods` |
| DirectiveProofs.ShorthandRoundTrip | crates/compiler/src/parser.rs:642-647 | `:x`, `@x` and `.x` parse back to bind, on, and bind with "prop" appended |
| DirectiveProofs.SlotRoundTrip | crates/compiler/src/parser.rs:744-752 | `#arg` and `v-slot:arg` take everything after the shorthand as the argument, `.` included, and have no modifiers |
| DirectiveProofs.SlotDynamicArgDropsTrailingText | crates/compiler/src/parser.rs:744-752 | `#[x]y` is the dynamic argument x with nothing reported; the `y` is lost |
| DirectiveProofs.MissingNameReported | crates/compiler/src/parser.rs:709-728 | `v-` and `v-:x` report MissingDirectiveName and are no directive; a plain name is silently not one |
| DirectiveProofs.MissingArgReported | crates/compiler/src/parser.rs:737-740 | `v-bind:` reports MissingDirectiveArg |
| DirectiveProofs.SlotModifierReported | crates/compiler/src/parser.rs:744-748 | `v-slot.x` reports InvalidVSlotModifier |
| DirectiveProofs.UnterminatedDynamicArgReported | crates/compiler/src/parser.rs:786-794 | `:[x` is the dynamic argument x and reports MissingDynamicDirectiveArgumentEnd |
| DirectiveProofs.ContentAfterDynamicArgReported | crates/compiler/src/parser.rs:768-781 | `:[x]y.m` reports UnexpectedContentAfterDynamicDirective and gives argument x with modifier m |
| DirectiveProofs.EmptyModifierReported | crates/compiler/src/parser.rs:799-813 | `@click..stop` keeps an empty modifier and reports MissingDirectiveMod |
| Whitespace.CompressTextNode | crates/compiler/src/parser.rs:888-896 | every segment keeps its text and is marked for compression; the node stays all-whitespace exactly when it was |
| Whitespace.CompressWhitespaces | crates/compiler/src/parser.rs:831-881 | the in-place loop computes the specification `Compress` |
| Whitespace.CondensedKeepsKind | crates/compiler/src/parser.rs:849-856 | condensing keeps a node's kind and whitespace-only status, and leaves non-text nodes alone |
| Whitespace.CompressStep | crates/compiler/src/parser.rs:847-880 | one turn of the loop: a removed node shifts the rest left without advancing; a kept one is condensed and the cursor advances |
| Whitespace.SolidFrom | crates/compiler/src/parser.rs:847-880 | from any cursor position the loop keeps every non-blank node after it, in order, condensed |
| Whitespace.CompressKeepsSolidNodes | crates/compiler/src/parser.rs:831-881 | only whitespace-only text is ever removed: all other nodes survive in order |
| Whitespace.KeptBeforeBlank | crates/compiler/src/parser.rs:847-880 | the node before a blank text node has been kept unchanged when that node is reached |
| Whitespace.SameDecision | crates/compiler/src/parser.rs:849-874 | `ShouldRemove`, the removal test of the loop: it depends only on the node, its neighbours, and whether it is first or last |
| Whitespace.KeptPrefixDecides | crates/compiler/src/parser.rs:849-874 | on the list as the loop holds it, each node is decided as on the original list |
| Whitespace.KeptFrom | crates/compiler/src/parser.rs:847-880 | running the loop on the decided prefix plus the rest gives the closed form |
| Whitespace.CompressClosedForm | crates/compiler/src/parser.rs:831-881 | without adjacent text nodes (the source's debug assertion) each node is kept or dropped by looking at its original neighbours |
| Whitespace.KeptStartsSolid | crates/compiler/src/parser.rs:849-874 | the closed form never starts with whitespace-only text |
| Whitespace.KeptEndsSolid | crates/compiler/src/parser.rs:849-874 | the closed form never ends with whitespace-only text |
| Whitespace.CompressTrimsEnds | crates/compiler/src/parser.rs:831-881 | without adjacent text nodes, the result neither starts nor ends with whitespace-only text |
| Whitespace.AdjacentBlankTextSurvives | crates/compiler/src/parser.rs:847-880 | with two adjacent blank text nodes at the end, the first survives |
| ElementRules.EndTagMatchIsLowercaseEquality | crates/compiler/src/parser.rs:913-915 | `ElementMatchesEndTag` (`element_matches_end_tag`): an end tag matches an element exactly when their names agree after ASCII lower-casing |
| ElementRules.FindOpenElement | crates/compiler/src/parser.rs:449-454 | the innermost open element the end tag matches, none above it matching; with no result, none matches |
| ElementRules.TagTypeIgnoresChildren | crates/compiler/src/parser.rs:512-529 | the tag type depends on the name and the properties, never on the children |
| ElementRules.TagTypePrecedence | crates/compiler/src/parser.rs:512-529 | `TagTypeOf` with `IsTemplateElement` (`is_template_element`, parser.rs:909-911) and `IsComponent` (`is_component`, parser.rs:612-635): `slot` is an outlet first; a template with a special directive is a Template, and only then; a custom element is never a component; `component`, an upper-case initial or `is="vue:…"` make one |
| ElementRules.CountPreOfSameShape | crates/compiler/src/parser.rs:322-328 | changing children does not change the number of open pre tags |
| ElementRules.Inserted | crates/compiler/src/parser.rs:322-328 | the node becomes the last child of the innermost open element, or the last root; every open element keeps its shape |
| ElementRules.TrimLastTextChild | crates/compiler/src/parser.rs:491-503 | only the last child changes, and only when it is text: it loses its leading newline |
| ElementRules.VPreAt | crates/compiler/src/parser.rs:407-411 | the position of the first attribute named exactly `v-pre`, or the length |
| ElementRules.VPreParsed | crates/compiler/src/parser.rs:411-412 | a `v-pre` attribute is the directive `pre` with no argument and no modifiers, and reports nothing |
| ElementRules.MapReported | crates/compiler/src/parser.rs:417-427 | mapping keeps the length |
| ElementRules.MapReportedPointwise | crates/compiler/src/parser.rs:417-427 | each result is the mapped element in place, and the errors are those of each element, concatenated in list order |
| ElementRules.PropsOfInVPre | crates/compiler/src/parser.rs:403-405 | inside v-pre, the properties are the raw attributes and nothing is reported |
| ElementRules.PropsOfVPreFound | crates/compiler/src/parser.rs:407-415 | with a `v-pre`, it is parsed first and the rest become decoded attributes |
| ElementRules.PropsOfNoVPre | crates/compiler/src/parser.rs:416-427 | without a `v-pre`, each attribute is mapped on its own |
| ElementRules.PropOfCases | crates/compiler/src/parser.rs:419-425 | an attribute becomes a directive exactly when its name is detected as one, otherwise a decoded attribute |
| ElementRules.PropsInVPre | crates/compiler/src/parser.rs:403-405 | inside v-pre nothing is a directive, nothing is decoded and nothing is reported |
| ElementRules.VPreComesFirst | crates/compiler/src/parser.rs:407-415 | the `pre` directive comes first, the other attributes follow in order as decoded attributes even when directive-like, nothing is reported, and the element is a v-pre boundary |
| ElementRules.PropsWithoutVPre | crates/compiler/src/parser.rs:416-427 | without `v-pre`, each attribute is a directive in place exactly when its name is detected as one, the parsed directive, or else its decoded attribute; the errors are those of each attribute in order |
| ElementRules.VPreBoundaryFromAttrs | crates/compiler/src/parser.rs:401-428 | `IsVPreBoundary` (`is_v_pre_boundary`, parser.rs:917-919): an element with a `v-pre` attribute opens a v-pre region, and inside one no element does |
| ElementRules.MissingEndTagsAdd | crates/compiler/src/parser.rs:347-349 | closing a elements and then b more reports what closing a + b elements at once does |
| TreeBuilder.TextRunEnd | crates/compiler/src/parser.rs:535-542 | the end of the maximal run of text tokens |
| TreeBuilder.TextsOfConcat | crates/compiler/src/parser.rs:535-542 | gathering a run of text tokens in two pieces yields the texts of gathering it at once, in order |
| TreeBuilder.ParseAttr | crates/compiler/src/parser.rs:419-425 | one attribute's property and errors, as PropOf specifies |
| TreeBuilder.ParseAttrList | crates/compiler/src/parser.rs:416-427 | the loop over the attributes yields every property in order and the errors in order |
| TreeBuilder.AstBuilder.constructor | crates/compiler/src/parser.rs:277-293 | a builder over the tokens, with nothing open, built or reported, in a valid state |
| TreeBuilder.AstBuilder.CloseDownToFacts | crates/compiler/src/parser.rs:456-461 | closing down to depth i: the element at i, closed, becomes the last child of the element below it or the last root, and the elements below are otherwise unchanged; one MissingEndTag per element closed, except the last when its end tag matched; a v-pre boundary survives only below i; the builder stays valid |
| TreeBuilder.AstBuilder.CloseDownToValid | crates/compiler/src/parser.rs:456-461 | closing any number of elements keeps the pre count, the v-pre boundary and the plain open elements consistent |
| TreeBuilder.AstBuilder.CloseDownToShape | crates/compiler/src/parser.rs:456-461 | the element at depth i, with its name and properties, is what closing down to i inserts below it |
| TreeBuilder.AstBuilder.CloseDownToReports | crates/compiler/src/parser.rs:456-461 | closing down to i reports one MissingEndTag per element, the matched last excepted, and drops a v-pre boundary at or above i |
| TreeBuilder.AstBuilder.CloseDownToStep | crates/compiler/src/parser.rs:456-461 | one turn of a closing loop, `close_element` on the innermost element, leaves the same result to reach |
| TreeBuilder.AstBuilder.CloseTopValid | crates/compiler/src/parser.rs:468-490 | closing the innermost element keeps the builder valid |
| TreeBuilder.AstBuilder.CloseTopStep | crates/compiler/src/parser.rs:468-490 | closing the innermost element leaves the elements below and the roots as they were, reports MissingEndTag unless its end tag matched, and ends a v-pre region it opened |
| TreeBuilder.AstBuilder.CloseTopKeepsBelow | crates/compiler/src/parser.rs:468-490 | the elements further down keep their names and properties, and the roots are unchanged |
| TreeBuilder.AstBuilder.RunStep | crates/compiler/src/parser.rs:343-345 | the token loop takes the next token from the stream and parses it, then continues |
| TreeBuilder.AstBuilder.OpenedKeepsErrors | crates/compiler/src/parser.rs:371-400 | opening a tag only ever appends to the reported errors |
| TreeBuilder.AstBuilder.EndTagKeepsErrors | crates/compiler/src/parser.rs:447-467 | an end tag only ever appends to the reported errors |
| TreeBuilder.AstBuilder.NonTextKeepsErrors | crates/compiler/src/parser.rs:361-370 | a token other than text only ever appends to the reported errors |
| TreeBuilder.AstBuilder.AfterTokenKeepsErrors | crates/compiler/src/parser.rs:361-370 | parsing any token only ever appends to the reported errors |
| TreeBuilder.AstBuilder.CloseDownToKeepsErrors | crates/compiler/src/parser.rs:456-461 | closing elements only ever appends to the reported errors |
| TreeBuilder.AstBuilder.RunKeepsErrors | crates/compiler/src/parser.rs:343-345 | the token loop only ever appends to the reported errors |
| TreeBuilder.AstBuilder.InsertNode | crates/compiler/src/parser.rs:322-328 | the new state is `Inserted` of the old one |
| TreeBuilder.AstBuilder.FinishedFacts | crates/compiler/src/parser.rs:346-351 | once the stream is exhausted: nothing is left open, the pre count is 0 and there is no v-pre region; the errors are those of the token loop, then the unclosed-script-comment error, then one MissingEndTag per element left open; with nothing open the roots are unchanged, otherwise the outermost open element, closed with its name and properties, is the one root added |
| TreeBuilder.AstBuilder.BuildAst | crates/compiler/src/parser.rs:341-359 | the result is the whitespace-compressed root list of the state reached by parsing every token in turn (Run) and then finishing (Finished); the errors are the token loop's, then the unclosed-script-comment error, then one MissingEndTag per element left open |
| TreeBuilder.AstBuilder.ParseTokens | crates/compiler/src/parser.rs:343-345 | the token loop reaches the state Run gives |
| TreeBuilder.AstBuilder.CloseRemaining | crates/compiler/src/parser.rs:347-349 | every element left open is closed innermost first, with one MissingEndTag each; with none open the roots are unchanged, otherwise exactly one root is added, the outermost open element with its name and properties |
| TreeBuilder.AstBuilder.ParseToken | crates/compiler/src/parser.rs:361-370 | the new state is AfterToken: the state the matching `parse_*` gives for each token kind (OpenedState, EndTagState, TextState, an inserted interpolation, an inserted comment when comments are kept) |
| TreeBuilder.AstBuilder.ParseOpenTag | crates/compiler/src/parser.rs:371-400 | the new state is OpenedState: the properties and their errors as PropsOf gives; a self-closing or void element is finished and inserted with its tag type, any other is pushed with the pre count and v-pre boundary updated |
| TreeBuilder.AstBuilder.PushElement | crates/compiler/src/parser.rs:393-399 | the element is pushed after handle_pre_like, keeping the invariant |
| TreeBuilder.AstBuilder.ParseAttributes | crates/compiler/src/parser.rs:401-428 | the properties and appended errors are exactly `PropsOf` |
| TreeBuilder.AstBuilder.VPreFirst | crates/compiler/src/parser.rs:408-415 | with the first `v-pre` at i, the properties and appended errors are exactly PropsOf |
| TreeBuilder.AstBuilder.HandlePreLike | crates/compiler/src/parser.rs:430-446 | a pre tag is counted; a v-pre boundary records its stack index |
| TreeBuilder.AstBuilder.ParseEndTag | crates/compiler/src/parser.rs:447-467 | the new state is EndTagState: InvalidEndTag with nothing else changed when no open element matches, otherwise every element from the innermost match up is closed, only the match with its end tag |
| TreeBuilder.AstBuilder.CloseFrom | crates/compiler/src/parser.rs:455-461 | the loop closes the elements from index i up, innermost first, only the one at i with its end tag, leaving i elements open |
| TreeBuilder.AstBuilder.CloseElement | crates/compiler/src/parser.rs:468-490 | the new state is CloseTop: the innermost element is popped, its children processed as `Closed` says, its tag type set, and it is inserted into its parent; the pre count and v-pre region follow; MissingEndTag unless its end tag matched |
| TreeBuilder.AstBuilder.FinishElement | crates/compiler/src/parser.rs:390-392 | the element gets its tag type and is inserted; leaving the v-pre boundary clears the index |
| TreeBuilder.AstBuilder.CloseChildren | crates/compiler/src/parser.rs:482-487 | inside pre a pre tag's last text is trimmed and the count dropped; in data mode the children are compressed |
| TreeBuilder.AstBuilder.DecrementPre | crates/compiler/src/parser.rs:491-503 | a pre tag is uncounted and its last text child loses its leading newline; other elements are untouched |
| TreeBuilder.AstBuilder.CloseVPre | crates/compiler/src/parser.rs:504-511 | the v-pre region ends when its boundary element is the one leaving |
| TreeBuilder.AstBuilder.ParseElement | crates/compiler/src/parser.rs:512-529 | the node is the element with the tag type `TagTypeOf` gives; leaving the boundary ends the v-pre region |
| TreeBuilder.AstBuilder.ParseText | crates/compiler/src/parser.rs:530-550 | the new state is TextState: the text and every text token after it become one inserted text node, and the token that ends the run is taken and parsed |
| TreeBuilder.AstBuilder.InsertText | crates/compiler/src/parser.rs:531-549 | the new state is Gathered: the run is inserted as one text node and the cursor is past the token that ended it, which is returned |
| TreeBuilder.AstBuilder.GatherText | crates/compiler/src/parser.rs:531-542 | the node holds the first text and all following text tokens; the next token, when there is one, is not text |
| TreeBuilder.AstBuilder.ParseComment | crates/compiler/src/parser.rs:551-562 | a comment is inserted exactly when comments are preserved |
| TreeBuilder.AstBuilder.ParseInterpolation | crates/compiler/src/parser.rs:563-570 | the interpolation is inserted |
| TreeBuilder.AstBuilder.ReportUnclosedScriptComment | crates/compiler/src/parser.rs:573-596 | EofInScriptHtmlCommentLikeText is reported exactly when the innermost open `<script>` starts with text opening `<!--` that has no `-->` |
| Matcher.MatchLeafMetaVar | crates/ref_transform/src/matcher.rs:19-39 | the leaf is classified by `ExtractVarFromNode` (`extract_var_from_node`, matcher.rs:126-129), the classifier applied to the node text; a meta-variable leaf accepts any candidate; a named one binds its name to the candidate; a non-meta-variable fails without touching the environment |
| Matcher.IsEllipsis | crates/ref_transform/src/matcher.rs:41-46 | exactly the anonymous and the named ellipsis |
| Matcher.MatchSingleKind | crates/ref_transform/src/matcher.rs:4-17 | a found node has the goal kind, and the candidate itself is found when it has it |
| Matcher.SingleKindInChildren | crates/ref_transform/src/matcher.rs:13-16 | a node found among the children has the goal kind |
| Matcher.SkipUnnamed | crates/ref_transform/src/matcher.rs:82-88 | the cursor moves past unnamed children only, to the next named one or the end |
| Matcher.Anchor | crates/ref_transform/src/matcher.rs:96-109 | a found anchor lies between the cursor and the end |
| Matcher.MatchNodeExact | crates/ref_transform/src/matcher.rs:48-124 | the method computes `Exact`, result and environment |
| Matcher.WalkChildren | crates/ref_transform/src/matcher.rs:73-123 | the cursor loop computes `Walk` from the first children |
| Matcher.SkipUnnamedGoals | crates/ref_transform/src/matcher.rs:82-88 | the loop computes `SkipUnnamed` |
| Matcher.ScanForAnchor | crates/ref_transform/src/matcher.rs:96-109 | the forward scan computes `Anchor`, bindings of failed probes included |
| MatcherProofs.ExactEnvWriteOnly | crates/ref_transform/src/matcher.rs:48-124 | the outcome does not depend on the environment passed in, and the new environment is the old one overridden by the call's own bindings |
| MatcherProofs.WalkEnvWriteOnly | crates/ref_transform/src/matcher.rs:73-123 | the same for the cursor loop |
| MatcherProofs.StepEnvWriteOnly | crates/ref_transform/src/matcher.rs:111-122 | the same for one step of the loop |
| MatcherProofs.AnchorEnvWriteOnly | crates/ref_transform/src/matcher.rs:96-109 | the same for the forward scan |
| MatcherProofs.MatchesUnderAnyEnv | crates/ref_transform/src/matcher.rs:48-124 | success is independent of the environment, and no binding is ever removed |
| MatcherProofs.ExactReturnsCandidate | crates/ref_transform/src/matcher.rs:48-124 | on success the candidate it was given is returned |
| MatcherProofs.WalkReturnsCandidate | crates/ref_transform/src/matcher.rs:73-123 | the loop returns the candidate when it succeeds |
| MatcherProofs.StepReturnsCandidate | crates/ref_transform/src/matcher.rs:111-122 | one step returns the candidate when it succeeds |
| MatcherProofs.LeafMetaVarMatchesAnything | crates/ref_transform/src/matcher.rs:53-58 | a meta-variable leaf matches any candidate and binds exactly its own name, if it has one |
| MatcherProofs.KindMismatchFails | crates/ref_transform/src/matcher.rs:59-61 | any other goal fails on a different kind id, leaving the environment as it was |
| MatcherProofs.LiteralLeafMatchesIffSameText | crates/ref_transform/src/matcher.rs:62-69 | a literal leaf matches exactly the candidates of its kind and text |
| MatcherProofs.InteriorGoalFailsOnChildless | crates/ref_transform/src/matcher.rs:70-72 | an interior goal never matches a childless candidate |
| MatcherProofs.LoneEllipsisNeedsACandidateChild | crates/ref_transform/src/matcher.rs:72-81 | a goal whose only child is an ellipsis matches exactly the same-kind candidates that have a child |
| MatcherProofs.NoEllipsisMatchesPairwise | crates/ref_transform/src/matcher.rs:73-123 | without ellipses the children match position by position, and extra candidate children are ignored |
| MatcherProofs.PairwiseFrom | crates/ref_transform/src/matcher.rs:111-122 | the pairwise reading holds from any position |
| MatcherProofs.EllipsisThenUnnamedSucceeds | crates/ref_transform/src/matcher.rs:76-88 | an ellipsis followed only by unnamed goal children matches the rest of the candidate children |
| MatcherProofs.AnchorIsFirstMatch | crates/ref_transform/src/matcher.rs:96-109 | the scan stops at the first candidate child from the cursor that the goal child matches, and fails when none does |
| MatcherProofs.EllipsisAnchorsNextNamedChild | crates/ref_transform/src/matcher.rs:75-122 | after an ellipsis the next named goal child is anchored at the first candidate it matches, and the walk continues there; without one the match fails |
| MatcherProofs.PreOrder | crates/ref_transform/src/matcher.rs:131-141 | the traversal starts with the root |
| MatcherProofs.FirstOfKind | crates/ref_transform/src/matcher.rs:4-17 | the reference search: the first node of the kind, or none when no node has it |
| MatcherProofs.FirstMatching | crates/ref_transform/src/matcher.rs:131-141 | the reference search: the first node the goal matches, or none when no node matches |
| MatcherProofs.SingleKindIsFirstInPreOrder | crates/ref_transform/src/matcher.rs:4-17 | `match_single_kind` returns the first node of the goal kind in pre-order |
| MatcherProofs.SingleKindFromIsFirst | crates/ref_transform/src/matcher.rs:13-16 | the search among the children from i equals the reference search over their subtrees |
| MatcherProofs.RecursiveIsFirstInPreOrder | crates/ref_transform/src/matcher.rs:131-141 | `MatchNodeRecursive` (`match_node_recursive`) returns the first subtree in pre-order the goal matches and keeps every binding made on the way, failed attempts included |
| MatcherProofs.RecursiveFromIsFirst | crates/ref_transform/src/matcher.rs:136-140 | `RecursiveInChildren`, the `find_map` over the children, does the same from child i |
| MatcherExamples.EllipsisMatchesNoArguments | crates/ref_transform/src/matcher.rs:229 | `foo($$$)` matches `foo()` |
| MatcherExamples.EllipsisMatchesAllArguments | crates/ref_transform/src/matcher.rs:228 | `foo($$$)` matches `foo(a, b, c)` |
| MatcherExamples.NamedEllipsisBindsNothing | crates/ref_transform/src/matcher.rs:233 | `foo($$$A, c)` matches `foo(a, b, c)`, and the named ellipsis binds nothing |
| MatcherExamples.LeadingEllipsisAnchorsLastArgument | crates/ref_transform/src/matcher.rs:241 | `foo($$$, c)` matches `foo(a, b, c)` |
| MatcherExamples.FixedSuffixTooLongFails | crates/ref_transform/src/matcher.rs:244 | `foo($$$, a, b, c)` does not match `foo(b, c)` |
| MatcherExamples.TrailingEllipsisTakesRest | crates/ref_transform/src/matcher.rs:248 | `foo(a, $$$)` matches `foo(a, b, c)` |
| MatcherExamples.FixedPrefixMismatchFails | crates/ref_transform/src/matcher.rs:251 | `foo(a, b, c, $$$)` does not match `foo(b, c)` |
| MatcherExamples.AdjacentEllipsesNeedOneChild | crates/ref_transform/src/matcher.rs:90-95 | `foo($$$, $$$)` fails on `foo()` and matches `foo(a)` |
| MatcherExamples.FailedMatchKeepsBinding | crates/ref_transform/src/matcher.rs:96-109 | a failed match still leaves the bindings of its probes in the environment |

## Left out

- Source locations, spans and the token source's positions are not modelled. Errors are kept as a list of kinds, without locations, instead of going through the shared error handler.
- `set_scanner_flag` (parser.rs:600-610) and element namespaces (`get_namespace`) are left out. They feed the scanner and the namespace field, which are not part of this model.
- The scanner is not part of this model. The token stream is a plain sequence of tokens.
- `VStr` text operations are recorded as flags only. Entity decoding and whitespace compression are never computed, so every text test reads the raw text.
- `Deref` for text nodes (parser.rs:93-99) asserts a single segment and then reads it. The model reads the first segment, and a node without segments as "". That is what `FirstSegment` and `FirstSegmentHasNewline` do.
- `util::non_whitespace` is not part of this model. Whitespace in `is_all_whitespace` is taken as ASCII whitespace. `str::trim` uses Unicode `White_Space`, as in `TextUtil.IsUnicodeWhitespace`.
- `find_dir` and `is_core_component` are not part of this model. Directive search is `ElementRules.HasDir`, and the core-component lookup is a predicate parameter.
- The default `ParseOption` values (parser.rs:252-266) are not modelled. The options are a parameter.
- Serialization (`Serialize` for text nodes) is not modelled.
- The tree-sitter `Node` is a value with a kind id, kind name, named flag, text and children. `extract_meta_var` is a classifier parameter.
- The matcher's tests that go through the parser and `test_match`/`test_non_match` helpers are covered only as the argument-list examples in `MatcherExamples`.
- Debug assertions are modelled as preconditions where the model relies on them. Examples are the `split_arg_and_mods` shorthand assertions and the leading `.` of `parse_directive_mods`.
- ParseDirective: composes the intended argument parse `ParseDirectiveArg`, not `ParseDirectiveArgAsWritten`. The same holds for everything built on it: `ElementRules.PropOf` and `PropsOf`, `TreeBuilder.ParseAttr`, `ParseAttrList` and `AstBuilder.ParseAttributes`, `OpenedState` and `ParseOpenTag`, and through `Run` every `AstBuilder` state up to `BuildAst`. For a closed dynamic argument with a non-ASCII character before its `]`, the code as written cuts the argument short (`v-bind:[éa]` gives `é`) or panics (`:[é]`) instead (see Findings). The model gives the text between the brackets.
- ParseDirectiveArgCases: states the intended argument parse. For a dynamic argument with a non-ASCII character before its `]`, the code as written differs (see Findings); ParseDirectiveArgAsWritten and ArgAsWrittenAgrees state that difference.
- DynamicArgParsed: states the intended argument parse. The code as written satisfies it only for ASCII x, as DynamicArgParsedAsWritten states.
- ArgParsed: a written dynamic argument parses back to itself under the intended parse; under the code as written that holds only for ASCII arguments.
- VDirectiveRoundTrip: the round trip is stated for the intended argument parse. Under the code as written it holds only for ASCII dynamic arguments.
- VArgRoundTrip: as VDirectiveRoundTrip, the round trip holds under the code as written only for ASCII dynamic arguments.
- ShorthandRoundTrip: as VDirectiveRoundTrip, the round trip holds under the code as written only for ASCII dynamic arguments.
- SlotRoundTrip: as VDirectiveRoundTrip, the round trip holds under the code as written only for ASCII dynamic arguments.
- The debug assertion of parser.rs:789, that the `]` is the last byte of the argument, is not modelled. A release build is modelled, where it does not stop the parse.
- The no-adjacent-text assertion of `compress_whitespaces` is a precondition only of `Whitespace.CompressClosedForm` and the lemmas built on it. The loop itself is modelled for every input, and `Whitespace.AdjacentBlankTextSurvives` shows what it does without that condition.

## Findings

| source | as written | input that shows it | evidently intended | confidence | as-written member | corrected member |
|---|---|---|---|---|---|---|
| crates/compiler/src/parser.rs:788-790 | the position of `]` is counted in characters, then used as a byte offset to slice the argument | `v-bind:[éa]` gives the dynamic argument `é`; `:[é]` slices inside `é` and panics | the dynamic argument is the text between `[` and the first `]` | not executed | Directives.ParseDirectiveArgAsWritten, DirectiveProofs.NonAsciiDynamicArgCut, DirectiveProofs.NonAsciiDynamicArgPanics | Directives.ParseDirectiveArg, DirectiveProofs.DynamicArgParsed, DirectiveProofs.ArgAsWrittenAgrees |
