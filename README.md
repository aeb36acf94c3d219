# Pynliner, modelled in Dafny

Pynliner turns the CSS of an HTML page into inline `style` attributes. A
`Pynliner` object is given a page, from a string or fetched from a URL, and
optionally extra CSS strings. `run` then does four things:

- It collects every stylesheet into one buffer and parses it: first the linked
  sheets, then the `<style>` tags, then the extra strings. The `<link>` and
  `<style>` tags it takes are removed. In preserve mode a `<style>` tag keeps
  its `@media`, `@import` and `@font-face` rules.
- It matches every style rule's selectors against the document.
- For each matched element, it merges the properties of the matching rules in
  ascending order of specificity. The last write wins. The result is written
  in front of the element's own `style`.
- It serializes the document and un-escapes `<` and `>` in a conditional
  comment.

The project has these modules:

- `Css`: rules as cssutils reports them, and the specificity score. The score
  joins a selector's four specificity components as decimal text. It then sums
  that over every selector of a comma group, not only the selector that
  matched.
- `Declarations`: a `CSSStyleDeclaration` as an ordered list of properties.
  This covers property assignment, serialization with the property-name spacer,
  and the text written into `style`.
- `Ordering`: the stable ascending sort by specificity. It is specified by the
  positions it takes each entry from. It also proves which entry's value
  survives the merge.
- `Cascade`: `_apply_styles`. `Cascaded` is a function that gives the resulting
  document or the selector error. `CollectEntries`, `ResolveDeclarations` and
  `WriteStyles` are the loops that fill `elem_prop_map` and `elem_style_map`
  and then write the attributes. Each is proved against that function.
- `Stylesheets`: the buffer built by `_get_styles`,
  `_get_external_styles` and `_get_internal_styles`. It covers which tags are
  extracted or replaced, and the split of a `<style>` tag's rules in preserve
  mode.
- `Urls`: the relative and root base addresses `from_url` derives by splitting
  at `/`.
- `Sanitizer`: the entity replacement of `_clean_output` on one region.
- `Inliner`: the class `Pynliner` with its fields and step methods, and the
  class `SerializerPrefs`, which holds cssutils' global `propertyNameSpacer`.
  Each step method states the new state in terms of the functions above.
  `Run` states the result of the whole pipeline, including the spacer it sets
  and restores. The exceptions the code raises are `Html.Error` values: the
  unsupported selector, the `KeyError` of a stylesheet `<link>` without
  `href`, and the `AttributeError` of `run` on an object never given a page.

The libraries the code calls are parameters, bundled in `Html.Env`:

- BeautifulSoup parsing and serialization;
- cssutils parsing and sheet serialization;
- soupselect `select`;
- `urllib2` fetching;
- `urlparse.urljoin`;
- the conditional-comment regular expression.

The document is an arena of elements indexed by position, so two elements
with identical markup stay distinct. It also holds the `<link>` and `<style>`
tags in document order, each with a flag that is cleared when the tag is
extracted.

Where the code and its documentation differ, the model follows the code:

- cssutils writes the property-name spacer after the colon (`color: red`), so
  `DeclText` is `name + ":" + spacer + value`.
- `run` sets the spacer to `''` for `_apply_styles` and restores it only when
  `_apply_styles` returns normally. `run` has no `try`/`finally`, so after an
  unsupported-selector exception the spacer stays `''`.
- The specificity of a comma group is the sum over all its selectors, as
  `_get_rule_specificity` computes it, not the specificity of the selector that
  matched.

## Model

| member | source | states |
|---|---|---|
| Strings.StripIsTrimmedSlice | pynliner/__init__.py:274 | `s.strip()` is a slice of `s` that neither starts nor ends with whitespace, and only whitespace was cut |
| Strings.JoinSplit | pynliner/__init__.py:87 | joining the `/`-split pieces with `/` gives back the string |
| Strings.SplitJoin | pynliner/__init__.py:274 | splitting a join of separator-free pieces gives back the pieces |
| Strings.DecimalRoundTrip | pynliner/__init__.py:255 | `int(str(n)) == n` |
| Css.SpecificityFromList | pynliner/__init__.py:248-255 | a selector's score: its components' decimal texts joined and read back as one integer; `JoinedDigitsValue`, `SpecificityIsShiftedSum` and `SpecificityOfSmallComponents` state its value |
| Css.JoinedDigitsValue | pynliner/__init__.py:255 | the integer read from the joined digits equals each component shifting the earlier ones left by its own digit count |
| Css.SpecificityIsShiftedSum | pynliner/__init__.py:248-255 | a selector's specificity integer is that shifted sum of its components |
| Css.SpecificityOfSmallComponents | pynliner/__init__.py:248-255 | for components below 10 the integer is a·1000+b·100+c·10+d, as the docstring's `(1,0,0,1) => 1001` says |
| Css.LargeComponentShiftsNeighbours | pynliner/__init__.py:255 | a component of 10 or more shifts its neighbours: `(0,0,1,10)` scores 110, not 20 |
| Css.RuleSpecificity | pynliner/__init__.py:257-261 | a rule's score: the sum of its selectors' scores; `SumSpecificitiesAppend` and `EverySelectorCounts` state its properties |
| Css.SumSpecificitiesAppend | pynliner/__init__.py:257-261 | the rule's score is additive over the selectors of a comma group |
| Css.EverySelectorCounts | pynliner/__init__.py:257-261 | every selector of the group contributes, so the rule scores at least as much as any one of them |
| Css.CommaGroupOutranksSingleClass | pynliner/__init__.py:257-261 | `.b1,.b2` scores 20 and `.c` scores 10 |
| Declarations.SetProperty | pynliner/__init__.py:304 | one `style[prop.name] = prop.value`: the value replaces that of an existing property in place, or a new property is appended; `SetPropertyNames` and `SetPropertyValues` state the result |
| Declarations.SetPropertyNames | pynliner/__init__.py:304 | assigning a property keeps the existing names in place, appends a new name at the end, and keeps names distinct |
| Declarations.SetPropertyValues | pynliner/__init__.py:304 | after the assignment the property has the assigned value, and every other property keeps its value |
| Declarations.Merge | pynliner/__init__.py:302-304 | the declaration built by assigning the properties in turn to an empty one; `MergeDistinct`, `MergeLastWins` and `MergeOrder` state its names, values and order |
| Declarations.MergeDistinct | pynliner/__init__.py:302-304 | the declaration built by the assignments names each property once |
| Declarations.MergeLastWins | pynliner/__init__.py:302-304 | each property's value is the last value assigned to it |
| Declarations.MergeOrder | pynliner/__init__.py:302-304 | properties appear in the order of their first assignment |
| Declarations.StyleText | pynliner/__init__.py:310-312 | `cssText.replace('\n', '')` of a declaration with the given spacer; `StyleTextIsSemicolonJoin` and `StyleTextSplitsIntoProperties` state its shape |
| Declarations.StyleTextIsSemicolonJoin | pynliner/__init__.py:310-312 | `cssText.replace('\n', '')` is the properties' `name:value` texts joined by `;` |
| Declarations.TwoPropertiesText | pynliner/__init__.py:310-312 | two properties serialize as `a;b` with no trailing semicolon |
| Declarations.StyleTextSplitsIntoProperties | pynliner/__init__.py:310-312 | splitting the written style at `;` gives back one text per property |
| Ordering.StableSortBySpecificity | pynliner/__init__.py:300 | `sorted(props, key=lambda p: p['specificity'])`; `StableSortIsStable` states that it is a stable ascending permutation |
| Ordering.SortTagsIncreasing | pynliner/__init__.py:300 | the sort yields entries ordered by (specificity, original position) |
| Ordering.StableSortIsStable | pynliner/__init__.py:300 | `sorted(props, key=specificity)` is a permutation of the entries, ascending, with equal-specificity entries in their original order |
| Ordering.LastValueFlatten | pynliner/__init__.py:302-304 | the value a property ends with comes from the last entry that declares it |
| Ordering.CascadeWinner | pynliner/__init__.py:296-304 | a property is set iff some entry declares it, and its value is that of the winning entry: highest specificity, then latest |
| Ordering.WinnerUnique | pynliner/__init__.py:296-304 | there is at most one winning entry per property |
| Cascade.StyleRules | pynliner/__init__.py:267 | `rulesOfType(1)`: the sheet's style rules; its contract bounds the length, and `StyleRulesMembers` and `StyleRulesConcat` state which rules and in what order |
| Cascade.Selectors | pynliner/__init__.py:274 | `selectorText.split(',')` with each piece stripped; its contract gives one selector per piece, at least one, and `SelectorsAreTrimmedMembers` states their form |
| Cascade.StyleRulesMembers | pynliner/__init__.py:267 | `rulesOfType(1)` keeps exactly the style rules |
| Cascade.StyleRulesConcat | pynliner/__init__.py:267 | and keeps them in sheet order |
| Cascade.SelectorsAreTrimmedMembers | pynliner/__init__.py:274 | every selector of the split group is free of commas and of surrounding whitespace |
| Cascade.SelectAll | pynliner/__init__.py:277-284 | one rule's selection, or the first unsupported-selector exception; its contract says it cannot fail with the flag set, and `SelectAllOutcome` states the rest |
| Cascade.SelectAllOutcome | pynliner/__init__.py:277-284 | one rule's selection fails iff the flag is off and some selector is unsupported, and then with the first such error; otherwise it holds exactly the elements its selectors select |
| Cascade.SelectAllPrefixFails | pynliner/__init__.py:280-284 | once a selector raises, the selectors after it are not tried |
| Cascade.MatchAll | pynliner/__init__.py:272-284 | the selections of all style rules, or the first exception; its contract says it cannot fail with the flag set and gives one selection per rule |
| Cascade.MatchAllOutcome | pynliner/__init__.py:272-284 | on success each rule's selection is recorded in rule order; a failure is the error of some rule's selection |
| Cascade.MatchAllPrefixFails | pynliner/__init__.py:272-284 | an exception at one rule ends the loop with that exception |
| Cascade.MatchAllFailsOnUnsupported | pynliner/__init__.py:272-284 | matching fails iff the flag is off and some selector of some rule is unsupported |
| Cascade.EntriesOf | pynliner/__init__.py:287-293 | the `{specificity, props}` entries an element collects, in rule order; `EntriesOfEmpty`, `EntriesOfOrigin` and `EntriesOfCount` state which |
| Cascade.EntriesOfCount | pynliner/__init__.py:287-293 | an element collects one entry for each time any rule's selection lists it, duplicates included |
| Cascade.EntriesOfEmpty | pynliner/__init__.py:287-293 | an element collects entries iff some rule selects it |
| Cascade.EntriesOfOrigin | pynliner/__init__.py:287-293 | every collected entry is the `{specificity, props}` of a rule that selects the element |
| Cascade.Cascaded | pynliner/__init__.py:263-312 | with the flag set `_apply_styles` cannot fail; it keeps the link and style tags and the number of elements |
| Cascade.UnsupportedSelectorPolicy | pynliner/__init__.py:277-284 | the pass fails iff the flag is off and a selector of some style rule is unsupported; non-style rules' selectors are never tried |
| Cascade.UnselectedElementUnchanged | pynliner/__init__.py:308-312 | an element no selector of a style rule selects is left unchanged |
| Cascade.SelectedCollects | pynliner/__init__.py:287-293 | an element some selector selects collects at least one entry |
| Cascade.SelectedElementRestyled | pynliner/__init__.py:308-312 | a selected element gets a `style`, and where it had one its old style follows `computed;` |
| Cascade.OriginalStyleHasLastWord | pynliner/__init__.py:310 | the original inline style's declarations come after the computed ones, so it wins on reading |
| Cascade.NonStyleRuleInlinesNothing | pynliner/__init__.py:267 | removing a non-style rule such as `@media` from the sheet changes nothing in the result |
| Cascade.ComputedDecls | pynliner/__init__.py:296-304 | an element's computed declaration: its entries sorted by specificity, then their properties assigned in turn; `ComputedValue` states each property's value |
| Cascade.ComputedValue | pynliner/__init__.py:296-304 | an element's property is set iff one of its entries declares it, with the winning entry's value |
| Cascade.NewStyle | pynliner/__init__.py:308-312 | the new `style`: `computed;original`, or just `computed` without an original; `SelectedElementRestyled` and `OriginalStyleHasLastWord` state its use |
| Cascade.WinnerValue | pynliner/__init__.py:296-304 | the winning entry's value is the one written |
| Cascade.HigherSpecificityWins | pynliner/__init__.py:300-304 | the entry of strictly highest specificity wins whatever the rule order |
| Cascade.LaterWinsAtEqualSpecificity | pynliner/__init__.py:300-304 | at equal specificity the later rule wins |
| Cascade.IdBeatsType | pynliner/__init__.py:300-304 | `#test` beats `h1` in either rule order |
| Cascade.DuplicateEntryHarmless | pynliner/__init__.py:287-293 | the duplicate entry from an element selected by two selectors of one rule changes no value |
| Cascade.SortSwapsTwo | pynliner/__init__.py:300 | a less specific later entry is sorted first |
| Cascade.ClassThenGroupDecls | pynliner/__init__.py:302-304 | `color: red` then `font-weight: bold` merge to both, in that order |
| Cascade.CommaGroupExample | pynliner/__init__.py:291-304 | for the span with classes `b2 c`, the group `.b1,.b2` (20) sorts after `.c` (10), giving `color: red;font-weight: bold` |
| Cascade.SelectElements | pynliner/__init__.py:277-284 | the selector loop computes one rule's selection or its exception |
| Cascade.AppendEntries | pynliner/__init__.py:287-293 | the loop over the selected elements appends the rule's entry to each element's list, once per occurrence, and leaves other lists alone |
| Cascade.CollectEntries | pynliner/__init__.py:272-293 | the rule loop fails exactly when matching fails, with its error; otherwise `elem_prop_map` holds exactly each element's collected entries |
| Cascade.AssignProperties | pynliner/__init__.py:303-304 | assigning one entry's properties extends the merge of everything assigned so far |
| Cascade.Resolve | pynliner/__init__.py:299-304 | sorting and assigning one element's entries builds its computed declaration |
| Cascade.ResolveDeclarations | pynliner/__init__.py:296-304 | `elem_style_map` has the same elements as `elem_prop_map`, each mapped to its computed declaration |
| Cascade.WriteStyles | pynliner/__init__.py:307-312 | each element in the map gets `computed;original`, or `computed` without an original; others are unchanged |
| Cascade.WrittenIsCascaded | pynliner/__init__.py:263-312 | the document the three loops write is the one `Cascaded` specifies |
| Urls.RelativeUrl | pynliner/__init__.py:87 | `'/'.join(url.split('/')[:-1]) + '/'`; `RelativeUrlThenLastSegment` and `RelativeUrlWithoutSlash` state its value |
| Urls.RelativeUrlThenLastSegment | pynliner/__init__.py:87 | for a URL holding `/`, the relative base followed by the last segment is the URL, and the segment holds no `/` |
| Urls.RelativeUrlWithoutSlash | pynliner/__init__.py:87 | without a `/` the relative base is `/` |
| Urls.RootUrl | pynliner/__init__.py:88 | `'/'.join(url.split('/')[:3])`; `RootUrlIsPrefix` and `RootUrlOfAbsolute` state its value |
| Urls.RootUrlIsPrefix | pynliner/__init__.py:88 | the root base is a prefix of the URL |
| Urls.SplitAbsolute | pynliner/__init__.py:88 | `scheme://host/path` splits at `/` into the scheme, an empty piece, the host, then the path's pieces |
| Urls.RootUrlOfAbsolute | pynliner/__init__.py:88 | for `scheme://host/path` the root base is `scheme://host` |
| Stylesheets.LinkedSheet | pynliner/__init__.py:182-203 | one link's contribution: for a stylesheet link with an `href`, the fetched text at the resolved address when it parses to some rule; `TakenLinkIsExtracted` and `SkippedLinkStays` state both outcomes |
| Stylesheets.HrefGap | pynliner/__init__.py:189-190 | the position of the first stylesheet link without `href`: every link before it has one, and the link there lacks it |
| Stylesheets.LinkErrorIffMissingHref | pynliner/__init__.py:182-190 | reading the links raises `KeyError` iff some stylesheet link lacks `href` |
| Stylesheets.LinkedTextConcat | pynliner/__init__.py:189-203 | the linked sheets contribute their texts in document order |
| Stylesheets.LinkedTextAround | pynliner/__init__.py:189-203 | each link contributes its text, or nothing, between the texts of the links around it |
| Stylesheets.TakenLinkIsExtracted | pynliner/__init__.py:196-203 | a sheet that parses to some rule is added whole and its `<link>` is extracted |
| Stylesheets.SkippedLinkStays | pynliner/__init__.py:182-200 | a link that is not a stylesheet, or whose sheet parses to no rule, adds nothing and stays in the document |
| Stylesheets.PartitionIsPermutation | pynliner/__init__.py:229-234 | every rule goes to exactly one of the two sheets |
| Stylesheets.PartitionByKind | pynliner/__init__.py:229-234 | the preserved sheet holds exactly the media, import and font-face rules, plus unknown rules with the flag; the other sheet holds the rest |
| Stylesheets.PreservedKeepsOrder | pynliner/__init__.py:229-234 | the preserved sheet keeps the rules' order |
| Stylesheets.CascadingKeepsOrder | pynliner/__init__.py:229-234 | the other sheet keeps the rules' order |
| Stylesheets.PartitionRules | pynliner/__init__.py:229-234 | the partition loop builds those two sheets |
| Stylesheets.InternalStep | pynliner/__init__.py:219-246 | one `<style>` tag's contribution to the buffer and the tag left behind; `StyleTagKeptIffPreserved` and `StyleTagTextEndsInNewline` state it |
| Stylesheets.StyleTagKeptIffPreserved | pynliner/__init__.py:221-246 | a `<style>` tag stays iff preserve mode is on and some rule is preserved; it then has the same attributes and the preserved sheet's text, and the other rules' text followed by a newline goes to the buffer; otherwise the tag is extracted and its own text followed by a newline goes to the buffer |
| Stylesheets.StyleTagTextEndsInNewline | pynliner/__init__.py:221-246 | every `<style>` tag's contribution ends in a newline |
| Stylesheets.PlainInternalText | pynliner/__init__.py:217-223 | outside preserve mode the tags' texts, each followed by a newline, are added in order, and every tag is extracted |
| Stylesheets.ConcatAppend | pynliner/__init__.py:169-170 | the extra strings are appended in the order they were added |
| Stylesheets.Buffer | pynliner/__init__.py:161-172 | the buffer `_get_styles` assembles; `BufferOrder` and `BufferKeepsEarlierText` state its parts and their order |
| Stylesheets.BufferOrder | pynliner/__init__.py:161-172 | a fresh buffer is the linked sheets, then a newline only if they left text, then the `<style>` texts, then the extra strings |
| Stylesheets.BufferKeepsEarlierText | pynliner/__init__.py:177-180 | a buffer that already holds text keeps it in front, followed by a newline |
| Sanitizer.Unescape | pynliner/__init__.py:329-330 | `&gt;` then `&lt;` replaced in a comment; `UnescapeUndoesEscape` and `UnescapeWithoutAmpersand` state its effect |
| Sanitizer.ReplaceWithoutAmpersand | pynliner/__init__.py:329-330 | text without `&` is unchanged by either replacement |
| Sanitizer.UnescapeUndoesEscape | pynliner/__init__.py:328-330 | the two replacements undo the serializer's escaping of `<` and `>` in comment text without `&` |
| Sanitizer.UnescapeWithoutAmpersand | pynliner/__init__.py:328-330 | a comment without `&` is unchanged |
| Sanitizer.ReplaceNoLonger | pynliner/__init__.py:329-330 | replacing an entity by one character never lengthens the text |
| Sanitizer.CleanRegion | pynliner/__init__.py:331-332 | the output with one matched region un-escaped; `CleanRegionKeepsOutside` and `CleanRegionWithoutEntities` state its effect |
| Sanitizer.CleanRegionKeepsOutside | pynliner/__init__.py:331-332 | only the matched region changes: the text before and after it is kept, and the output does not grow |
| Sanitizer.CleanRegionWithoutEntities | pynliner/__init__.py:331-332 | a region without entities leaves the output unchanged |
| Inliner.Pynliner.constructor | pynliner/__init__.py:56-71 | the settings as given; no extra strings, URLs, source, document, buffer, sheet or output yet |
| Inliner.Pynliner.FromUrl | pynliner/__init__.py:86-89 | records the URL, its relative and root bases, and the fetched page as the source |
| Inliner.Pynliner.FromString | pynliner/__init__.py:101 | the source becomes the given string |
| Inliner.Pynliner.WithCssString | pynliner/__init__.py:115 | the string is appended to the extra strings, after those added before |
| Inliner.Pynliner.GetSoup | pynliner/__init__.py:147-159 | the document is the parse of the source; without a source it fails with the `AttributeError` and leaves the document alone |
| Inliner.Pynliner.ReadLinks | pynliner/__init__.py:182-203 | the loop over the links yields the taken sheets' texts in order and the links with exactly the taken ones extracted, up to the first stylesheet link without `href`, where it stops with `KeyError`; it fails iff there is such a link |
| Inliner.Pynliner.GetExternalStyles | pynliner/__init__.py:174-203 | the buffer becomes the old buffer (plus a newline if it held text) followed by the taken sheets' texts, and only the taken links are extracted, as far as the first link without `href`; it fails iff there is such a link |
| Inliner.Pynliner.ReadStyleTag | pynliner/__init__.py:219-246 | one `<style>` tag's contribution and replacement, as the loop body computes them |
| Inliner.Pynliner.ReadStyleTags | pynliner/__init__.py:217-246 | the loop over the `<style>` tags yields their contributions in order, and each tag extracted or replaced as one turn specifies |
| Inliner.Pynliner.GetInternalStyles | pynliner/__init__.py:205-246 | the buffer grows by the `<style>` tags' texts in order; each tag is extracted or replaced as specified |
| Inliner.Pynliner.GetStyles | pynliner/__init__.py:161-172 | fails iff a stylesheet link lacks `href`, then leaving the partial buffer and links and no sheet; otherwise the buffer is the whole assembled text, the document has lost the tags taken, and the sheet is the buffer's parse |
| Inliner.Pynliner.ApplyStyles | pynliner/__init__.py:263-312 | it succeeds iff the cascade does, leaving the cascade's document; on an exception the document is untouched |
| Inliner.Pynliner.GetOutput | pynliner/__init__.py:314-320 | the output is the serialized document |
| Inliner.Pynliner.Cleaned | pynliner/__init__.py:322-332 | the output after `_clean_output` for one found conditional comment, or unchanged when comments are not allowed or none is found |
| Inliner.Pynliner.CleanOutput | pynliner/__init__.py:322-332 | with conditional comments allowed, the matched comment is un-escaped; otherwise the output is unchanged |
| Inliner.Pynliner.Prepare | pynliner/__init__.py:128-131 | parses and reads the styles only if not done yet; fails with `AttributeError` without a source, with `KeyError` for a link without `href`, each leaving the state the exception leaves; otherwise the document, buffer and sheet are the prepared ones
| Inliner.Pynliner.Run | pynliner/__init__.py:118-140 | an exception before the cascade comes back with the state `Prepare` describes, the spacer and the output untouched; otherwise the sheet and buffer are the prepared ones, and it fails iff the cascade with spacer `''` fails, leaving the spacer `''`, the prepared document and the old output; on success it restores the spacer and returns the cleaned serialization of the cascaded document, which is also stored as the output |

## Left out

- Network access (`_get_url`, `urllib2`): a fetch is a total function given as a parameter. Fetch errors and their exceptions are not modelled.
- `urlparse.urljoin`: given as a parameter. Only the choice of the relative base over the root base, and the pass-through of a falsy base, are modelled.
- BeautifulSoup: parsing, including the `mod_wsgi`/html5lib probe, and serialization are parameters. The document keeps only what the inliner reads or writes: each element's `style` attribute, the `<link>` tags and the `<style>` tags.
- cssutils: parsing, value normalisation (`#ffcc00` becoming `#fc0`) and the pretty-printing of a sheet's `cssText` are parameters. A style rule's properties are taken as cssutils reports them, already de-duplicated.
- soupselect `select`: a parameter that returns the selected element positions or the unsupported-selector exception. Combinators and pseudo-classes belong to it.
- Logging, the `log` argument and `cssutils.log.enabled`.
- The module-level shortcuts `fromURL` and `fromString`.
- Inliner.Pynliner.CleanOutput: treats one conditional-comment match, found by a given function. The regular expression and the loop over several matches are left out. The source computes all match offsets before its first replacement, so after a shorter replacement the later offsets no longer line up.
- Inliner.Pynliner.Run: decides "no sheet yet" by a missing sheet. Python tests the sheet's truthiness, which is cssutils' business; the model assumes a parsed sheet is never falsy. A BeautifulSoup document is always truthy, so the document test matches the source.
- Attribute order and duplicate attributes when a preserved `<style>` tag is rebuilt: the new tag gets the old attribute list.
- Where cssutils places a re-assigned property in a declaration: the model keeps its first position. The values proved do not depend on this.
