# Shortcode parser engine, modelled in Dafny

This project models the text-and-tree engine of the GovtNZ shortcode parser
(`src/Parsers/ShortcodeParser.php`). The parser turns `[name attr="v"]…[/name]`
shortcodes in HTML content into the output of their registered handlers. The model
covers the parser's own logic and proves properties of it:

- **Registration.** `register` updates a table from names to handlers and to
  optional metadata, merging in default options.
- **Token classification.** Each scanned shortcode gets a marker element: `div`
  for block results, `span` otherwise, or `undefined` for an unknown name. A
  one-token lookahead turns an unregistered open followed by its close into a
  legacy pair.
- **Depth-first ordering.** A stack matcher orders the shortcodes so that children
  are expanded before the shortcode enclosing them. Stray and mismatched closes go
  through the error policy (STRIP, WARN, LEAVE, ERROR).
- **Span rewriting.** A reverse-order pass splices a sorted list of disjoint spans
  in the content. It puts marker elements in place of shortcodes. A second variant
  replaces shortcodes in attribute values with handler output.
- **Placement.** The attributes `location` or `class` choose where the output goes
  relative to the block that holds the marker. `moveMarkerToCompliantHome` moves
  the marker before that block, after it, or splits every element up to it. The
  document is an ordered tree seen through a zipper: the frames from the marker's
  parent up to the outermost element.
- **Fragment detection.** A template fragment is a first `<script>` element that
  holds table rows but no table. `parse` returns such content untouched.

Modules, one file each:
- `Common` (`common.dfy`): `Result`/`Option`, PHP's `strpos`, `trim`,
  `strtolower` and decimal rendering.
- `Registry` (`registry.dfy`): handlers and options.
- `Tokens` (`tokens.dfy`): tokens, classification and the lookahead.
- `Errors` (`errors.dfy`): the error policy.
- `Nesting` (`nesting.dfy`): the stack matcher.
- `Spans` (`spans.dfy`): the span rewriting.
- `Placement` (`placement.dfy`): the location choice.
- `Tree` (`tree.dfy`): the marker moves.
- `Fragment` (`fragment.dfy`): fragment detection.
- `Parser` (`parser.dfy`): the parser class and the composition of the passes.

The loops of the source are methods with loop invariants. Each is proved equal to a
functional specification: `BuildTokens`, `MarkLegacyPairs`, `GenerateOrder`,
`RewriteSpans`, `ReplaceTagsWithText` and `MoveMarkerToCompliantHome`. The
properties are proved about those specifications. `MarkLegacyPairs` is the lookahead
in its corrected form (see "## Findings"). The lookahead as written is
`Tokens.LookaheadAsWritten`, and `Tokens.AsWrittenAgrees` proves the two equal
whenever no unregistered close comes directly before an open.

Every `user_error(..., E_USER_ERROR)` site is an abort (`Result.Abort`). So is every
site written with the misspelt constant `E_USER_ERRROR` (:551, :668, :873). Under
PHP 8 reading that undefined constant throws before `user_error` runs, which stops
the parse just as a fatal error does. Those aborts therefore carry PHP's
undefined-constant error (`Errors.UndefinedLevelError`), not the "Unknown shortcode
tag" message written at those sites. The configuration statics `$error_behavior` and `$marker_class` are
parameters. Handler calls (`callShortcode`) are a function parameter that returns
the output, or `None` for PHP's `false`.

## Model

All source paths are in `src/Parsers/ShortcodeParser.php`.

| member | source | states |
|---|---|---|
| Common.IndexOf | src/Parsers/ShortcodeParser.php:254-265 | `strpos`: the result is the first occurrence at or after the start, or none exists at or after the start |
| Common.TagIdRoundTrip | src/Parsers/ShortcodeParser.php:589-593 | the `data-tagid` written for a token index reads back as that same index when `parse` looks the tag up (:173) |
| Common.Trim | src/Parsers/ShortcodeParser.php:125 | `trim` gives the empty string exactly when the content is all space, tab, newline, carriage return, NUL or vertical tab; otherwise the result starts and ends with a kept character |
| Common.TrimPadded | src/Parsers/ShortcodeParser.php:125 | `trim` removes exactly the padding: text that neither starts nor ends with space, tab, newline, carriage return, NUL or vertical tab comes back unchanged from between any runs of those characters |
| Registry.MergeOptions | src/Parsers/ShortcodeParser.php:78-83 | each option the caller gives wins; a missing `hasStartAndEnd` defaults to false and a missing `expectedResult` to `text` |
| Parser.ShortcodeParser.Register | src/Parsers/ShortcodeParser.php:64-86 | a non-callable handler changes nothing. Otherwise the handler replaces the name's entry, and options that PHP finds truthy replace its metadata: any non-empty array, including one holding only keys the parser does not read. Without such options the old metadata stays. Afterwards the name is registered and never classified undefined; with options its tokens are registered, with `hasStartAndEnd` exactly as given |
| Tokens.Classify | src/Parsers/ShortcodeParser.php:329-371 | a token is registered iff its name has metadata; it is paired iff the metadata says so; it gets `div` iff the metadata expects a block; it is undefined iff the name has no metadata, no handler and is not numeric |
| Tokens.TokensFromWellFormed | src/Parsers/ShortcodeParser.php:291-326 | the tokens built from the scanned shortcodes are numbered consecutively from 0, each span holds the token's text, spans stay sorted and disjoint, and every token is classified from its name |
| Tokens.BuildTokens | src/Parsers/ShortcodeParser.php:291-375 | the scanning loop builds exactly the token list of the specification, which is well formed and classified |
| Tokens.MarkLegacyPairs | src/Parsers/ShortcodeParser.php:382-395 | the lookahead loop, corrected to start pairs only at opening tokens, computes `Marked`. `extractTags` is composed from this corrected form, so on an unknown close directly before an open it departs from the source (see `Tokens.AsWrittenAgrees` for the inputs on which both agree) |
| Tokens.MarkedFacts | src/Parsers/ShortcodeParser.php:382-395 | the lookahead changes only `hasStartAndEnd` and `markerTag` and never a token with metadata. A token becomes paired iff it starts a legacy pair, and becomes notranslate iff it is undefined and on either end of such a pair |
| Tokens.StrayCloseSilencesNextShortcode | src/Parsers/ShortcodeParser.php:382-395 | as written, an unknown `[/foo]` followed by a registered `[bar]` turns `[bar]` notranslate; the corrected pass leaves `[bar]` alone |
| Tokens.AsWrittenAgrees | src/Parsers/ShortcodeParser.php:382-395 | when no unregistered close comes directly before an open, the lookahead as written gives the same tokens as the corrected one |
| Errors.HandleError | src/Parsers/ShortcodeParser.php:436-458 | ERROR aborts with the message. Every other policy makes the token a literal whose content is empty (STRIP), the warning markup (WARN) or the token text (LEAVE); no other field changes |
| Errors.UndefinedReplacement | src/Parsers/ShortcodeParser.php:537-556 | an undefined token is deleted (STRIP), wrapped in the warning (WARN), left untouched (LEAVE, and only then) or aborts (ERROR, and only then) |
| Errors.ShortcodeReplacementText | src/Parsers/ShortcodeParser.php:866-888 | handler output is used as it is. A failed handler aborts exactly under ERROR; it gives the warning under WARN when HTML is allowed, the empty string under STRIP, and the token text otherwise |
| Errors.PolicySitesAgree | src/Parsers/ShortcodeParser.php:656-683 | the three error sites abort under the same policy, all delete under STRIP, keep the text under LEAVE; under WARN the two replacement sites (:537-556, :866-888) show the same warning |
| Nesting.NestTags | src/Parsers/ShortcodeParser.php:492-529 | after a run that does not abort, tokens not yet reached are untouched, and a reached token is unchanged or is a close turned into a literal by `handleError` |
| Nesting.NestOrder | src/Parsers/ShortcodeParser.php:492-529 | a run that does not abort builds the lists of the plain scan: opens with an end are pushed, other opens emitted, a registered close on an empty stack emitted, a mismatched close ignored, and a matching close pops the top into the order |
| Nesting.CloseHandling | src/Parsers/ShortcodeParser.php:504-526 | on an empty stack a close is ignored unless registered; if registered it goes through `handleError` and is emitted. A close that differs from the stack top goes through `handleError` and leaves both lists alone. A matching close pops the top into the order. Only ERROR aborts, and only on those error paths |
| Nesting.GenerateOrder | src/Parsers/ShortcodeParser.php:492-529 | the ordering loop computes `Nest` over the whole list, including the in-place rewriting of errored closes |
| Nesting.NestAbortPersists | src/Parsers/ShortcodeParser.php:455 | once a step aborts, the whole run reports that same abort |
| Nesting.NestTotalUnlessError | src/Parsers/ShortcodeParser.php:436-458 | only the ERROR policy can abort the matcher |
| Nesting.OrderIndependentOfPolicy | src/Parsers/ShortcodeParser.php:492-529 | the order and the final stack are the same under every policy that does not abort |
| Nesting.ChildrenBeforeParents | src/Parsers/ShortcodeParser.php:492-529 | with `ends` the step at which each entry is emitted: a paired shortcode is emitted at the close that popped it, a close of its name, after every shortcode opened between the two; any other entry at its own position. Of two emitted entries, the earlier one either lies inside the later one's pair or ends before the later one starts. So siblings keep source order, and every child comes before its parent |
| Nesting.EmittedExactlyOnce | src/Parsers/ShortcodeParser.php:492-529 | an open is emitted iff it is not left unclosed on the stack. No token is emitted twice. Emitted tokens are the scanned ones unchanged. A close is emitted only for a registered name, and the stack holds only paired opens |
| Nesting.UnpairedOpensEmitted | src/Parsers/ShortcodeParser.php:496-502 | every open that does not start a pair is emitted |
| Spans.Unwrapped | src/Parsers/ShortcodeParser.php:566-578 | stripping the escapes removes exactly one `[` when the open is escaped and one `]` when the close is; putting them back gives the token text |
| Spans.MarkerReplacementShapes | src/Parsers/ShortcodeParser.php:535-600 | in the marker pass an undefined span follows the policy. A notranslate span is untouched and a literal becomes its content. An escaped span is unwrapped and a close becomes `</m>`. A paired open becomes the opening marker carrying its index, and an unpaired open becomes that marker followed by `</m>`. Only undefined spans can abort |
| Spans.AttributeReplacementShapes | src/Parsers/ShortcodeParser.php:715-719 | in the attribute pass an escaped span loses one character at each end; any other is the handler's output or, on failure, the policy's fallback with HTML not allowed |
| Spans.SpliceAbortPersists | src/Parsers/ShortcodeParser.php:551 | an abort at any span is what the whole rewrite reports |
| Spans.SpliceTotalUnlessError | src/Parsers/ShortcodeParser.php:537-556 | neither pass can abort except under ERROR |
| Spans.SpliceIdentity | src/Parsers/ShortcodeParser.php:535-603 | when every span is kept or replaced by its own text, the content comes back unchanged: the text between spans is copied verbatim and in order |
| Spans.LeaveKeepsUnknownShortcodes | src/Parsers/ShortcodeParser.php:537-561 | under LEAVE, content whose shortcodes are all undefined or notranslate is unchanged |
| Spans.EscapeUnwrapping | src/Parsers/ShortcodeParser.php:566-578 | for a token escaped at both ends the two passes agree: `[[x]]` becomes `[x]`, keeping its own brackets |
| Spans.OneSidedEscapesDiffer | src/Parsers/ShortcodeParser.php:717-719 | for `[[b]`, escaped on one side only, the marker pass gives `[b]` and the attribute pass gives `[b` |
| Spans.MarkerSpanText | src/Parsers/ShortcodeParser.php:537-600 | one iteration of the marker pass: the piece it splices in is that span's replacement, or the span's own text when it is left alone |
| Spans.AttributeSpanText | src/Parsers/ShortcodeParser.php:715-719 | one iteration of the attribute pass: the piece is the escaped text less its outer characters or the handler result, with the same abort as the span's replacement |
| Spans.RewriteSpans | src/Parsers/ShortcodeParser.php:535-603 | the reverse loop that rewrites `$content` computes the marker-pass splice of all spans, with the same abort |
| Spans.ReplaceTagsWithText | src/Parsers/ShortcodeParser.php:702-731 | the `while ($i--)` loop with `$str` and `$li` computes the attribute-pass splice, keeping the text before the first tag and every gap |
| Placement.PlacementClass | src/Parsers/ShortcodeParser.php:186-193 | a non-empty `location` is used; otherwise a non-empty `class`; otherwise none |
| Placement.LocationOf | src/Parsers/ShortcodeParser.php:195-201 | `left`/`right` give BEFORE, `center`/`leftALone` give SPLIT, anything else gives INLINE; AFTER is never chosen |
| Placement.LocationTakesPrecedence | src/Parsers/ShortcodeParser.php:186-193 | with a non-empty `location` the `class` attribute has no effect |
| Placement.NoPlacementIsInline | src/Parsers/ShortcodeParser.php:186-201 | with neither attribute usable the output stays inline |
| Tree.BlockParent | src/Parsers/ShortcodeParser.php:611-620 | corrected `getParent`: the nearest ancestor whose lower-cased name is block level; there is none iff no ancestor is block level |
| Tree.GetParentAsWritten | src/Parsers/ShortcodeParser.php:611-620 | `getParent` as written returns the immediate parent |
| Tree.SplitKeepsDocumentOrder | src/Parsers/ShortcodeParser.php:819-836 | SPLIT keeps the document order of every text leaf and marker, the moved marker included |
| Tree.BeforeAfterOrder | src/Parsers/ShortcodeParser.php:809-816 | BEFORE moves the marker ahead of exactly the leaves of its block that preceded it, and AFTER behind exactly those that followed it; every other leaf keeps its place |
| Tree.MarkerLeavesBlockParent | src/Parsers/ShortcodeParser.php:806-836 | after BEFORE, AFTER or SPLIT the marker is a child of the block parent's own parent |
| Tree.MoveMarkerToCompliantHome | src/Parsers/ShortcodeParser.php:806-854 | the nested clone-and-move loops compute the specified move for every location |
| Tree.PlaceMarker | src/Parsers/ShortcodeParser.php:203-212 | without a block parent, any location but INLINE aborts and INLINE leaves the tree unchanged; with one, the marker is moved |
| Tree.SplitExample | src/Parsers/ShortcodeParser.php:794-798 | with the block parent found, SPLIT turns `<p>A<span>B<marker/>C</span>D</p>` into `<p>A<span>B</span></p><marker/><p><span>C</span>D</p>` |
| Tree.SplitExampleAsWritten | src/Parsers/ShortcodeParser.php:611-620 | with `getParent` as written, the same input only splits the `span`, and the marker stays inside the paragraph |
| Fragment.FragmentIsTableRowsInScript | src/Parsers/ShortcodeParser.php:252-273 | content is a fragment iff its first script element mentions `<tr` or `<td` and no `<table`; the position-0 falsiness of `strpos` cannot matter there |
| Parser.BlankReturnsEarly | src/Parsers/ShortcodeParser.php:124-127 | content made only of white space is returned untouched |
| Parser.PaddedZeroReturnsEarly | src/Parsers/ShortcodeParser.php:124-127 | content that is `0` padded with white space trims to a falsy string and is returned untouched |
| Parser.ShortcodeParser.ExtractTags | src/Parsers/ShortcodeParser.php:285-423 | `extractTags` builds, marks, orders and rewrites as the composed specification says, with the same abort |
| Parser.ExtractedTags | src/Parsers/ShortcodeParser.php:285-423 | a successful extraction returns one well-formed token per shortcode, each the scanned one or an errored close made literal, and an order of distinct scanned tokens that holds every unpaired open |
| Parser.ExtractTotalUnlessError | src/Parsers/ShortcodeParser.php:285-423 | extraction fails only under ERROR |
| Parser.NoShortcodesUnchanged | src/Parsers/ShortcodeParser.php:285-423 | content without shortcodes is extracted as it was, with no tags |
| Parser.ShortcodeParser.ReplaceAttributeValue | src/Parsers/ShortcodeParser.php:741-761 | an attribute value is extracted and, when it has tags, rewritten by the attribute pass |
| Parser.AttributeWithoutShortcodes | src/Parsers/ShortcodeParser.php:741-761 | an attribute value without shortcodes is unchanged |
| Parser.AttributeTotalUnlessError | src/Parsers/ShortcodeParser.php:741-761 | rewriting an attribute value fails only under ERROR |
| Parser.MarkersToPlace | src/Parsers/ShortcodeParser.php:157-165 | the candidates for placement are exactly the ordered entries that are neither undefined nor notranslate |
| Parser.MarkersToPlaceAppend | src/Parsers/ShortcodeParser.php:157-165 | the candidates keep the processing order: filtering two stretches of the order gives the first stretch's candidates, then the second's |
| Parser.MarkersToPlaceOne | src/Parsers/ShortcodeParser.php:160-163 | one entry is a candidate exactly when it is neither undefined nor notranslate |

## Left out

- DOM parsing and serialisation (`HTMLValue`, XPath queries, `saveHTML`, `insertAfter`,
  `insertListAfter`, `removeNode`) belong to the framework. The tree is a value, so
  node identity, aliasing and the `data-parentid` bookkeeping are not modelled.
- The HTML validity check and its abort (:139-147) depend on the HTML parser.
- Scanning by the `tagrx()`/`attrrx()` regexes lives in the base class. The scanner's
  matches are an input that satisfies `MatchesWellFormed`: each match lies at its
  offset, and matches are sorted and disjoint.
- Handler calls (`callShortcode`) are arbitrary user code: a function parameter.
- `replaceMarkerWithContent` and `getInnerHTML` (:629-692) splice handler output into
  the DOM. Only their error mapping is modelled (`Errors.ShortcodeReplacementText`
  with the handler's result as a parameter).
- The marker clean-up `preg_replace_callback` at the end of `parse` (:226-237) is a
  regex pass.
- The `<script>`/`<xscript>` swaps (:131-132, :223-224) are not modelled.
- `Debug::show` tracing is not modelled.
- `handle_blockelement_rules` (:763-778) is a regex rewrite with an unquoted name.
  For that reason `Parser.ShortcodeParser.ReturnsEarly` applies the blank and
  no-shortcode tests to the content as given. The source applies them after that
  rewrite, which changes nothing unless some shortcode expects a block or mixed result.
- Option keys other than `hasStartAndEnd` and `expectedResult` are not recorded. Only
  whether any are present is modelled, because that decides whether the options are truthy.
- Nesting.CloseHandling: names are compared as strings. PHP's loose `==` would also equate
  two numeric names such as `1` and `01`.
- Tokens.MarkLegacyPairs: the names in `$tags[$i + 1]['close'] == $tag['open']` (:385) are
  also compared as strings, with the same caveat for numeric names.
- Tokens.MarkLegacyPairs: `extractTags` (`Parser.Extract`, `Parser.ShortcodeParser.ExtractTags`)
  is composed from the corrected lookahead. On an unknown close directly followed by an open,
  the source's lookahead turns that open notranslate; the composed model does not
  (`Tokens.StrayCloseSilencesNextShortcode`).
- Parser.MarkersToPlace: `parse` also skips a candidate whose marker the XPath query does not
  find (:167-171). Such candidates include an escaped open that got paired and a registered
  stray close made literal. The query runs on the DOM, which is not part of this model.
- Tokens.Classify: `is_numeric` follows the PHP 7 grammar (leading white space only).
- Tree.Move: returns None when the block parent is the outermost modelled element, so
  the marker would have to move outside the model. `isset($parent->parentNode)` then
  decides in the source.
- Tree.MoveMarkerToCompliantHome: the error for an unknown location (:849) cannot
  arise, because `Location` has only the four values.
- The `E_USER_ERRROR` sites (:144, :551, :668, :873) abort as under PHP 8, with the
  undefined-constant error thrown before `user_error` runs. Under PHP 7 the undefined
  constant reads as a string, `user_error` only warns, and the parse goes on.

## Findings

| source | as written | input that shows it | evidently intended | confidence | as-written member | corrected member |
|---|---|---|---|---|---|---|
| src/Parsers/ShortcodeParser.php:382-395 | The lookahead tests `$tags[$i + 1]['close'] == $tag['open']` for any unregistered token. For a closing token both sides are empty, so PHP's `null == ''` holds. | An unknown `[/foo]` followed by a registered `[bar]`: `[bar]` becomes notranslate and is never expanded. | Only an opening token can start a legacy pair. | high; not executed | Tokens.StrayCloseSilencesNextShortcode | Tokens.MarkLegacyPairs |
| src/Parsers/ShortcodeParser.php:611-620 | `instanceof DOMElement` inside the `GovtNZ\SilverStripe\Parsers` namespace names a class that does not exist. The loop therefore stops at the immediate parent. | `<p>A<span>B[x class="center"]C</span>D</p>`: SPLIT splits only the `span` and leaves the marker inside the paragraph. | The nearest block-level ancestor, which gives the documented result at :794-798. | high; not executed | Tree.SplitExampleAsWritten | Tree.SplitExample |
