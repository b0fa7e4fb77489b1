# svelte-preprocess-import-assets, modelled in Dafny

This project models the `markup` preprocessor of `svelte-preprocess-import-assets`.
The preprocessor walks a parsed Svelte component. In each element that an asset rule
(`AssetSource`) names, it finds the static `src`-like and `srcset`-like attribute values
and checks them against an acceptance gate:

- no `#id` references;
- no `http(s)://` URLs unless `http` is on;
- an optional `urlFilter`.

It registers each accepted URL once under the name `importPrefix + k` and overwrites the
value with `{name}`. It then adds one `import name from "url";` per registered URL to the
module script, or else to the instance script, or else to a new `<script>` block at the
end. A comment holding the ignore directive makes the walk skip the next element.

Modules, in dependency order:

- `Js`: `Option`, and JavaScript's thrown errors (`Result`, `Completion`).
- `Text`: JavaScript white space, `trim`, `startsWith`, `slice` and decimal numerals.
- `Ast`: the parsed tree the preprocessor receives (elements, comments, other nodes,
  attributes), and the pre-order in which `walk` calls `enter`.
- `Splices`: the MagicString edit buffer as a list of overwrites and insertions, the
  conditions under which it is well formed (`WellFormed`), and `Apply`, the
  `toString()` of the edited text.
- `Gate`: the three rejection checks of `addImport`, in source order.
- `Registry`: the insertion-ordered `imports` map. It is specified on values by
  `Offers`, the fold of `addImport` over every candidate offered. Its closed form is
  `RegistryAfter`: the deduplicated accepted URLs, names `importPrefix + index`, and one
  overwrite per accepted candidate.
- `IgnoreFlag`: the one-shot ignore flag as a state machine over the visit order.
- `Srcset`: the regular expression `/\s*([^,\s]+).*?(?:,|$)\s*/gm` written as a
  scanner, `exec` with `lastIndex`, and the spans that `addImport` is given
  (`SrcsetSpansAsWritten`, which starts each span at `match.index` as the source does).
  Beside them, `SrcsetSpans` starts each span at its URL token; see "## Findings".
- `Attributes`: `attributes.find`, the single-literal check, and the filter map that
  `getAttributes` builds.
- `Output`: the import text and the choice of where it is inserted.
- `Rules`: what one attribute, rule, element and walk offer to `addImport`, as
  functions. Each is a `Result`, because reading `value` from a directive throws.
- `ImportAssets`: the class `Preprocessor`. It holds the state `markup` keeps in its
  closure: `imports` (as `order` plus `imports`), the edit list, `ignoreNextElement`
  and the memo `lazyAttributes`. It also holds the methods that loop and mutate as the
  source does. `Markup` runs the walk and the composer on a fresh preprocessor, and
  `MarkupResult` is its specification.

The class keeps one invariant, `Valid()`. It says that the registry and edit list are
exactly `Offers(offered, …)`, where the ghost `offered` is the sequence of candidates
handed to `addImport` so far. Every method states how `offered` grows, in terms of the
`Rules` functions, so the registry lemmas apply to whatever state the walk leaves.

## Model

| member | source | states |
|---|---|---|
| Gate.Admit | src/index.ts:40-45 | Accepted exactly when the URL does not start with `#`, is not remote while `http` is off, and passes the filter if there is one. Anchor and Remote are each characterised exactly, in source order. Filtered happens only with a filter, after the two earlier checks pass. |
| Gate.RemoteGating | src/index.ts:43 | An `https://` URL is refused as Remote when `http` is off and accepted when it is on. |
| Text.TrimShape | src/index.ts:38 | `trim()` returns a contiguous slice. Everything cut off on either side is white space, and the result neither starts nor ends with white space. |
| Text.NatToStringRoundTrip | src/index.ts:52 | The decimal numeral of `imports.size` reads back as that number. |
| Registry.ImportNamesDistinct | src/index.ts:52 | `importPrefix + m` and `importPrefix + n` differ when `m != n`. |
| Registry.DedupDistinct | src/index.ts:49-54 | The registered URLs never repeat. |
| Registry.DedupMembers | src/index.ts:49-54 | A URL is in the registry's insertion order exactly when it was registered at least once. |
| Registry.SequentialNaming | src/index.ts:52-53 | The URL first offered at position `f` gets index `k`, the number of distinct URLs registered before it. |
| Registry.RepeatIsNoOp | src/index.ts:49-50 | Offering an already registered URL again leaves the registry unchanged. |
| Registry.OffersClosedForm | src/index.ts:33-58 | Folding `addImport` over the candidates gives the closed form. The order is the deduplicated accepted URLs, the names are `importPrefix + index`, and there is one overwrite per accepted candidate, carrying its URL's name. |
| Registry.OffersShape | src/index.ts:49-54 | After any sequence of offers, the registry is duplicate-free and its size equals its key count. Its keys are the URLs of the accepted candidates, and entry `k` is named `importPrefix + k`. |
| Registry.OfferOutcome | src/index.ts:41-57 | A refused candidate changes neither the registry nor the edits. An accepted one adds exactly one overwrite of its range with `{name}` and keeps every earlier entry. A known URL leaves the registry as it was. A new URL is appended under `importPrefix + size`. |
| Registry.OfferPreserves | src/index.ts:33-58 | One `addImport` keeps the registry consistent with the closed form of the candidates offered so far. |
| IgnoreFlag.NextFlag | src/index.ts:64-72 | An ignore-directive comment sets the flag, and setting it again changes nothing. Any element clears it. Every other node leaves it unchanged. |
| IgnoreFlag.FlagAfterIsArmed | src/index.ts:60-72 | After a walk prefix, the flag is set if and only if the prefix has an ignore directive with no element after it. |
| IgnoreFlag.OnlyNextElementSkipped | src/index.ts:69-71 | Among the elements after an element, only the first one following an ignore directive can be skipped. Descendants, which come later in pre-order, are visited normally. |
| Srcset.Exec | src/index.ts:131-133 | `exec` from `lastIndex` returns the first position where the pattern matches, and no earlier one. It returns nothing only when no position from `lastIndex` on matches. |
| Srcset.Matches | src/index.ts:133 | The loop's matches form a chain: each is well formed and starts at or after the end of the one before. |
| Srcset.OrderedShape | src/index.ts:133 | Such a chain's matches are well formed, start at or after the given index, run left to right and never overlap. |
| Srcset.SrcsetSpansSound | src/index.ts:128-140 | Each corrected span holds a non-empty token with no comma or white space. It lies inside the attribute value, with length equal to its token. Spans are strictly ordered and disjoint. |
| Srcset.SrcsetSpansAsWrittenShape | src/index.ts:134-138 | As written, each span records a non-empty token with no comma or white space, is as long as that token and lies inside the value. It starts where its match starts and ends no later than its token, so in the text it covers only white space and token characters, never a comma or a descriptor. Each span ends strictly before the next one starts. |
| Srcset.AsWrittenMisplacesLeadingToken | src/index.ts:136 | For ` a.png`, the as-written overwrite covers ` a.pn`, not `a.png`. |
| Srcset.MatchesOfTwo | src/index.ts:131-133 | `./a.png 1x, ./b.png 2x` yields exactly two matches, at 0 and 12, with tokens `[0,7)` and `[12,19)`. |
| Srcset.SpansOfTwo | src/index.ts:134-138 | As the source computes them, that value yields exactly the spans of `./a.png` and `./b.png`. Descriptors and the comma lie outside them. |
| Srcset.TokenSpansOfTwo | src/index.ts:134-138 | The corrected spans of that value are the same two, since neither match has leading white space. |
| ImportAssets.SrcsetDecomposition | src/index.ts:128-140 | For that value, the registry holds `./a.png` then `./b.png` under the first two names, with exactly two overwrites, one over each token. |
| ImportAssets.SrcsetRewrite | src/index.ts:128-140 | Wherever that value sits in the component, the edited text replaces each URL by its `{name}` and keeps ` 1x, `, ` 2x` and the surrounding text verbatim. |
| ImportAssets.LeadingSpaceRewrite | src/index.ts:134-138 | For the value ` a.png`, `a.png` is registered, the overwrite covers the space and `a.pn`, and the edited text is `{name}g`. |
| Attributes.FindAttribute | src/index.ts:95-96 | Returns the first attribute with the name, or none exactly when no attribute has it. |
| Attributes.LiteralPart | src/index.ts:100-104 | The value is kept exactly when it is one Text part. Reading `value` from a directive throws. |
| Attributes.AttributeMapMeaning | src/index.ts:79-84 | Building the filter map throws exactly when some attribute's `value[0]` cannot be read. Otherwise its keys are the names of the recorded attributes, and each is bound to the last recorded value. An attribute is left out only when it has more than one part and the first is not Text. |
| Attributes.GetAttributes | src/index.ts:78-84 | The `forEach` computes that map. |
| Rules.LiteralValueMeaning | src/index.ts:94-118 | `getAttrValue` returns a value exactly when the first attribute with the name is a single Text part and the rule's filter accepts it. The filter receives the attribute's source text and the attribute map. The call throws exactly when that attribute is a directive, or when the filter's attribute map throws. |
| Rules.NoRuleNoOffers | src/index.ts:89-93 | A walk in which no rule's tag names any element offers nothing. |
| Rules.NoAttributeNoOffers | src/index.ts:89-140 | A walk in which no element carries any `srcAttributes` or `srcsetAttributes` name of a rule for its tag offers nothing and does not throw. |
| Rules.SkippedElementOffersNothing | src/index.ts:69-72 | An element visited while the flag is set offers nothing. |
| Output.ImportText | src/index.ts:148-151 | The `for…of` accumulates one `import N from "P";` per registered URL, in registration order. |
| Output.ImportLinesEmpty | src/index.ts:147 | The import text is empty exactly when nothing is registered. |
| Output.InsertionFor | src/index.ts:152-158 | The text is inserted at the module script's content start if there is one, else at the instance script's, else appended as a `<script>` block. |
| Splices.ApplyNoSplices | src/index.ts:162 | With no edits the output is the input. |
| Splices.ApplyOneOverwrite | src/index.ts:57 | One overwrite replaces exactly its range. |
| Splices.ApplyAppend | src/index.ts:157 | `append` adds its text at the very end. |
| Splices.ApplyAppendLeft | src/index.ts:153 | One `appendLeft` at `p` puts its text between `content[..p]` and `content[p..]`. |
| Splices.ApplyTwoOverwrites | src/index.ts:57 | Two disjoint overwrites replace their ranges; the text before, between and after them is kept. |
| Output.InsertionApplied | src/index.ts:152-158 | The import text lands at the start of the chosen script's content, or a new `<script>` block holding it ends the document. |
| ImportAssets.Preprocessor.AddImport | src/index.ts:33-58 | Keeps `Valid()` and records the candidate. The new registry and edits are `Offer` of the old ones; the registry lemmas describe that step. |
| ImportAssets.Preprocessor.CachedAttributes | src/index.ts:76-87 | Returns the filter map. It is computed at most once per element: a cached map is returned unchanged. |
| ImportAssets.Preprocessor.GetAttrValue | src/index.ts:94-118 | Returns `LiteralValue`, as characterised by `Rules.LiteralValueMeaning`. |
| ImportAssets.Preprocessor.OfferCandidates | src/index.ts:131-139 | The `while (exec)` loop offers `SrcsetSpansAsWritten`, the spans the source computes, in order. |
| ImportAssets.Preprocessor.CheckSrcAttributes | src/index.ts:120-125 | Offers the `srcAttributes` values, or stops with the first thrown error. |
| ImportAssets.Preprocessor.CheckSrcsetAttributes | src/index.ts:127-140 | Offers the srcset candidates of each `srcsetAttributes` value, as `SrcsetOffers` over the as-written spans, or stops with the first thrown error. |
| ImportAssets.Preprocessor.VisitElement | src/index.ts:74-142 | Applies every rule whose tag equals the element name, in rule order, with one attribute map per element. |
| ImportAssets.Preprocessor.Enter | src/index.ts:63-72 | One `enter` call: its offers, and the new flag as `NextFlag` gives it. |
| ImportAssets.Preprocessor.Walk | src/index.ts:62-145 | `walk` offers `WalkOffers` of the nodes in pre-order, and leaves the flag at `FlagAfter`. |
| ImportAssets.Preprocessor.Compose | src/index.ts:147-159 | Adds no edit when the registry is empty. Otherwise it adds one insertion of the import text, at the target `InsertionFor` picks. |
| ImportAssets.Markup | src/index.ts:25-164 | One `markup` call equals `MarkupResult`, which places each srcset overwrite at `value.start + match.index` as the source does. That is the walk's error, or the content with the offered overwrites and the import insertion applied, or SpliceError when the edits are not `Splices.WellFormed`. |
| ImportAssets.MarkupIdentity | src/index.ts:89-164 | When no element carries an attribute that a rule for its tag looks at (in particular when no rule names any element), the output is the input, unchanged. |

## Left out

- Parsing (`svelte-parse-markup`) and the `walk` library are foreign code. The tree is an input and `walk` is its pre-order `Ast.PreOrder`. Only the `enter` callback is modelled.
- MagicString's internals and `generateMap` are left out. Its rejections are approximated by `Splices.WellFormed`: overwrites must be in bounds, non-empty, and identical or disjoint, and no `appendLeft` may fall strictly inside one. The model reports a violation as `SpliceError` after the walk, not at the failing call. An overwrite repeated on an identical range (two rules naming the same tag and attribute) counts as well formed, and the later text wins. An overwrite that strictly contains an earlier one counts as not well formed, although MagicString accepts it (both of its ends fall outside the earlier chunk, and the chunks inside are blanked). This happens when one rule names attribute `x` as a srcset attribute and a later rule on the same tag names `x` as a source attribute; the model then reports `SpliceError` where the source succeeds.
- The contents of `./constants` (`DEFAULT_SOURCES`, `IGNORE_FLAG`, `DEFAULT_ASSET_PREFIX`) and `./types` are not part of this model. The rules, the directive and the prefix are parameters.
- The resolution of `sources` given as a function (src/index.ts:20-22) and the `PreprocessorGroup` wrapper are plumbing and are not modelled. `http` and `importPrefix` arrive already defaulted in `Options`.
- `filter` and `urlFilter` are total pure functions. Exceptions they might throw, and any state they might keep, are not modelled.
- The srcset regular expression is modelled by a hand-written scanner for this one pattern (including the `m` flag and `.` not matching line terminators), not by general regex semantics. The `http` regex is a prefix check.
- `srcAttributes?` and `srcsetAttributes?` are sequences, empty when they are absent.
- `Markup` checks `WellFormed` once, on the final edit list, rather than at each MagicString call. So when the walk throws after an edit that MagicString would already have refused, the model reports the walk's error, while the source raises the splice error first.
- The filename passed to `parse` and the source map are not modelled.
- Strings are sequences of Unicode scalar values. JavaScript indices, parser offsets and MagicString positions count UTF-16 code units. The model takes every offset in its own units, so it agrees with the source only where no character lies outside the Basic Multilingual Plane, and it cannot represent lone surrogates.
- Where the code's behaviour is surprising, the model follows the code. Reading `.value` of a directive in `getAttrValue` or `getAttributes` throws a TypeError. A multi-part value whose first part is Text is recorded in the filter map with that part's `raw`. A single non-Text part is recorded as `undefined` (`None`).

## Findings

| source | as written | input that shows it | evidently intended | confidence | as-written member | corrected member |
|---|---|---|---|---|---|---|
| src/index.ts:136 | The overwrite for a srcset candidate starts at `value.start + match.index`. That is the start of the whole match, including the white space `\s*` consumed before the token. | `srcset=" a.png"`: the overwrite covers ` a.pn`, leaving `g` after the placeholder. | Start at the token, `value.start + match.index + (offset of match[1] in the match)`. | high; not executed | Srcset.AsWrittenMisplacesLeadingToken | Srcset.SrcsetSpansSound |

The model itself follows the code as written: `Rules.SrcsetOfLiteral` and
`Preprocessor.OfferCandidates` use `SrcsetSpansAsWritten`, so `Markup` places the overwrite
where the source does (`ImportAssets.LeadingSpaceRewrite` shows the resulting text). The
corrected definition, `SrcsetSpans`, is proved sound by `Srcset.SrcsetSpansSound`.
