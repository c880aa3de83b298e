# Kama_Contents: a Dafny model of the table-of-contents builder

Kama_Contents is a WordPress helper class. It turns the headings of a post
into a table of contents. Given a text and a parameter string such as
`h2|dt h3 .foo embed no_to_menu as_table="Title|Desc"`, `make_contents` does five things:

1. It parses the parameters into marker options and an ordered list of selectors.
2. It drops the selectors that never occur in the text.
3. It gives every remaining tag or class name a nesting level.
4. It rewrites each heading the heading regex finds, so that the heading carries:
   - a unique, URL-safe anchor;
   - an optional "back to top" link.
5. It returns the table of contents, or `''` when one of its three gates closes.

Two versions are modelled side by side:
- the current 4.3.13 version (`Kama_Contents.php`);
- the legacy 3.17 version (`class-Kama_Contents.php`).

They differ in these places:
- **Level resolution.** 4.3.13 shifts the levels to start at 0, lets `a|b` groups share a level, and clamps each step to 0 or +1. 3.17 uses plain positions.
- **The uniqueness suffix.** 4.3.13 first drops a trailing `-<digit>`; 3.17 appends to the whole anchor.
- **Token splitting.** 4.3.13 splits on runs of space, comma and `|`; 3.17 on runs of space and comma only.
- **State lifetime.** 4.3.13 builds a fresh `temp` object per call. In 3.17, `temp` is the options object itself, so the anchor registry, the counter and the recorded offsets survive from one call to the next.
- **Entity decoding.** 4.3.13 decodes HTML entities in the anchor text (Kama_Contents.php:672); 3.17 does not.
- **The rebuilt heading.** 3.17 deletes the `id` or `name` attribute that gave the anchor from the heading it writes back (class-Kama_Contents.php:292-293). 4.3.13 deletes it from a local copy only, so its heading keeps the attribute.
- **Default selectors.** 3.17 falls back to the default selectors only when the argument is empty, before the markers are taken out (class-Kama_Contents.php:124-125), so an argument made only of markers gives `''`. 4.3.13 falls back whenever no selector word is left.
- **The min_found gate.** 3.17 compares the replacement count of `preg_replace_callback` with min_found and also refuses a count of 0 (class-Kama_Contents.php:199-201). 4.3.13 compares the number of collected elements (Kama_Contents.php:304).
- **The quoting delimiter.** 4.3.13 passes `'/'` to `preg_quote` (Kama_Contents.php:622, 770); 3.17 does not (class-Kama_Contents.php:291, 390). In 3.17 a `'/'` in the spec option or in anchor_attr_name therefore breaks the pattern.

Modules:

- `Php` (php.dfy): the PHP built-ins the core relies on, about which the model proves facts:
  - truthiness, `strtolower`, `strlen` and `strpos`;
  - `trim`, `substr`;
  - `preg_split` on a character class, `explode`/`implode`, `str_replace` by `''`.
  - It also declares the `Library` record. Its fields (`strip_tags`, `html_entity_decode`, `strip_tags` with an allow-list) are functions the model does not look into.
- `Slug` (slug.dfy): the anchor slug of `_sanitaze_anchor` and the registry loop of `_unique_anchor`, in both versions.
- `Levels` (levels.dfy): the selector names, the tag and class pattern lists, and `array_flip`. Also the level resolution of `_set_tags_levels_and_regex_patt`, written both as functions and as the loops the source runs, plus the 3.17 level table.
- `Selectors` (selectors.dfy):
  - `parse_string_params` with its `as_table="…"` cut;
  - the default selectors;
  - the occurrence test and loop of `get_actual_tags`;
  - the 3.17 splitting of the tags argument.
- `Headings` (headings.dfy):
  - the capture groups of a heading match and `_replace_parse_match`;
  - the splice that `preg_replace_callback` performs;
  - the anchor-attribute regex;
  - the link and image scrubbing of the heading text, and `_strip_tags_in_elem_txt`;
  - the rebuilt opening tag, the "back to top" gate and the 3.17 `$sub` attribute.
- `Toc` (toc.dfy): one `collect_toc_replace_callback` step as a function of the state it changes (counter, registry, recorded offsets, elements), and the fold of that step over the matches.
- `Contents` (contents.dfy): the 4.3.13 class with its fresh `Temp` object, the methods that update them, and `make_contents` with its gates, all proved against the functions above.
- `Legacy` (legacy.dfy): the 3.17 class, with its callback, fold, gates and the state that persists across calls.

The heading regex itself enters as a parameter, a function from the text and the two pattern lists to the ordered list of matches, each a start offset and its capture groups. The rest of the pipeline works on that list.

## Model

| member | source | states |
|---|---|---|
| Php.Lower | Kama_Contents.php:772 | strtolower keeps the length and lowers exactly the ASCII capitals, each to the letter 32 code points above; every other character is kept |
| Php.ByteLen | Kama_Contents.php:436 | the byte length strpos counts in is at least the number of characters, and equal to it for ASCII text |
| Php.StrIndex | Kama_Contents.php:436 | strpos finds an occurrence of the needle, and no occurrence lies before it |
| Php.TrimSpec | Kama_Contents.php:772 | trim only drops characters of the given set, and what it keeps neither starts nor ends with one of them |
| Php.TrimLeftSpec | Kama_Contents.php:772 | the left half of trim: a suffix is kept, and every character dropped before it is in the set |
| Php.TrimRightSpec | Kama_Contents.php:772 | the right half of trim: a prefix is kept, and every character dropped after it is in the set |
| Php.Take | Kama_Contents.php:773 | substr($s, 0, n) is a prefix of at most n characters: exactly n when the string is longer, and the whole string otherwise |
| Php.SplitRunsShape | Kama_Contents.php:216 | preg_split on a run of separators gives pieces free of separators; only the first and last piece can be empty |
| Php.SplitRunsKeepsText | Kama_Contents.php:216 | the pieces of preg_split put together are the text without its separators, so nothing else is lost |
| Php.ExplodeJoin | Kama_Contents.php:212 | explode('\|') of the as_table value is undone by implode with the same separator |
| Php.RemoveAll | class-Kama_Contents.php:292-293 | str_replace($needle, '') never lengthens the text |
| Php.RemoveAllUnchanged | class-Kama_Contents.php:292-293 | str_replace($needle, '') leaves the text unchanged exactly when the needle occurs nowhere in it |
| Php.RemoveAllFound | class-Kama_Contents.php:292-293 | when strpos finds the needle at k, the result is the text before k followed by the rest after that occurrence with its own occurrences removed |
| Php.RemoveAllAt | class-Kama_Contents.php:292-293 | the same decomposition at any occurrence with no occurrence before it |
| Php.ByteLenPrefix | Kama_Contents.php:436 | a longer prefix has at least as many bytes |
| Slug.Iso9 | Kama_Contents.php:675-768 | every key of the transliteration table is a Cyrillic letter, and every value is at most three Latin letters |
| Slug.TransliterateRemovesTableLetters | Kama_Contents.php:675-768 | after strtr with the table no table letter is left, the hard and soft signs included |
| Slug.TransliterateAppend | Kama_Contents.php:675 | strtr with the table works character by character: it distributes over concatenation |
| Slug.TranslitAscii | Kama_Contents.php:675-768 | ASCII text passes the transliteration unchanged |
| Slug.TranslitExample | Kama_Contents.php:675-768 | "Привет, мир!" transliterates to "Privet, mir!" |
| Slug.CollapseAllowed | Kama_Contents.php:771 | after replacing runs of disallowed characters by '-', only [a-zA-Z0-9_-] and the spec characters remain |
| Slug.CollapseKeepsAllowed | Kama_Contents.php:771 | text made only of allowed characters is left as it is |
| Slug.CollapseRunToDash | Kama_Contents.php:771 | a non-empty run of disallowed characters becomes exactly one '-' |
| Slug.CollapseAppend | Kama_Contents.php:771 | the collapse works piece by piece when the cut does not fall inside a run |
| Slug.SlugShape | Kama_Contents.php:770-773 | a slug has at most 70 characters, each a lower-case letter, digit, '_', '-' or lowered spec character; none is upper case, and it never starts with '-' |
| Slug.SlugExample | Kama_Contents.php:675-773 | "Привет, мир!" becomes the anchor "privet-mir" |
| Slug.NextNumber | Kama_Contents.php:792-793 | the suffix number is one more than a final digit, otherwise 2, so it lies between 1 and 10 |
| Slug.NextCandidateGrows | Kama_Contents.php:790-797 | each 4.3.13 retry lengthens the candidate or raises its final digit, so the recursion ends |
| Slug.Uniquify | Kama_Contents.php:783-802 | the 4.3.13 anchor is never already registered, and it is the base itself exactly when the base is free |
| Slug.LegacyUniquify | class-Kama_Contents.php:400-417 | the 3.17 anchor is never already registered, and it is the base itself exactly when the base is free |
| Slug.UniquifyClimbs | Kama_Contents.php:783-802 | from base-j, with base-j … base-n registered and base-(n+1) free, the result is base-(n+1) |
| Slug.RepeatedBase | Kama_Contents.php:783-802 | for a base that is not shortened by the suffix step and n ≤ 9: after base, base-2 … base-n are registered, issuing the base again gives base-(n+1) |
| Slug.ThreeCopies | Kama_Contents.php:783-802 | three headings with the same base x, ending neither in a digit nor in "-<digit>" and a line feed, get x, x-2 and x-3 |
| Slug.DigitEndingBase | Kama_Contents.php:790-797 | a base that already ends in a digit is followed by a raised digit: "h2", then "h2-3" |
| Slug.LegacySteps | class-Kama_Contents.php:407-411 | the 3.17 retry appends to the whole candidate: x becomes x-2, and x-2 becomes x-2-3 |
| Slug.LegacyRetry | class-Kama_Contents.php:407-411 | a registered 3.17 candidate is replaced by its retry, which gives the same final anchor |
| Slug.LegacyThreeCopies | class-Kama_Contents.php:400-417 | three headings with the same base x, one not ending in a digit, get x, x-2 and x-2-3 in 3.17 |
| Slug.LegacySlashSpec | class-Kama_Contents.php:390-393 | with a '/' in the spec option, every 3.17 heading gets the empty anchor base, whatever its text |
| Levels.Names | Kama_Contents.php:337-350 | one name per selector, in order: a class selector without its '.', a tag as it is |
| Levels.PatternsPartitionNames | Kama_Contents.php:337-350 | every selector name lands in exactly one of the tag and class pattern lists |
| Levels.LookupSpec | Kama_Contents.php:408 | `$tags_levels[$key] ?? 0`: a key not in the table reads 0, a listed key reads its stored level |
| Levels.Flip | Kama_Contents.php:352 | array_flip gives one value per key, and a non-empty table exactly for a non-empty name list |
| Levels.FlipKeys | Kama_Contents.php:352 | the keys of array_flip are the distinct names, each once, the first name first |
| Levels.FlipVals | Kama_Contents.php:352 | each key's value is the index of its last occurrence in the name list |
| Levels.FlipSpec | Kama_Contents.php:352 | the keys and values of array_flip together: distinct keys, first name first, last-occurrence indices |
| Levels.FlipDistinct | Kama_Contents.php:352 | without repeated names, array_flip keeps the order and gives every name its own index |
| Levels.Step | Kama_Contents.php:376-386 | a clamped level is the previous level or one deeper, and equals the input exactly when the input already is one of those |
| Levels.ClampSteps | Kama_Contents.php:376-386 | every clamped level is one step from the clamped level before it, the first from 0 |
| Levels.ClampKeepsSteps | Kama_Contents.php:376-386 | levels that already start at 0 or 1 and climb by at most one pass the clamp unchanged |
| Levels.ClampIdempotent | Kama_Contents.php:376-386 | clamping twice is clamping once |
| Levels.ResolveShape | Kama_Contents.php:352-386 | the resolved table has the flipped keys; the first level is 0, none is negative, and each next level equals the one before or is one deeper |
| Levels.ResolveGrouped | Kama_Contents.php:364-386 | a key written as "prev\|key" is clamped towards prev's level from before grouping, not after |
| Levels.ResolveGroupedSameLevel | Kama_Contents.php:364-386 | when the first key of a group keeps its shifted level, the next key of the group ends on the same level |
| Levels.ChainedGroup | Kama_Contents.php:364-386 | a chain a\|b\|c gives the levels 0, 0, 1, not 0, 0, 0 |
| Levels.ChainedGroupExample | Kama_Contents.php:364-386 | "h2\|h3\|h4" resolves to 0, 0, 1 |
| Levels.SplitGroup | Kama_Contents.php:355-386 | "a b\|c d" gives 0, 1, 1, 2 |
| Levels.SplitGroupExample | Kama_Contents.php:355-386 | "h2 h3\|h4 h5" resolves to 0, 1, 1, 2 |
| Levels.SetTagsLevelsAndRegexPatt | Kama_Contents.php:332-392 | the loops compute the resolved level table and the tag and class pattern lists |
| Levels.ShiftLevels | Kama_Contents.php:355-361 | the while loop lowers every level until the first is 0 |
| Levels.GroupLevels | Kama_Contents.php:364-373 | the grouping loop reads its levels from the snapshot, not from the table it writes |
| Levels.ClampLevels | Kama_Contents.php:376-386 | the by-reference loop clamps each level against the level it wrote before |
| Levels.LegacyLevels | class-Kama_Contents.php:172-187 | the 3.17 table has exactly the selector names as keys, each at the index of its last occurrence |
| Levels.LegacyLevelsExample | class-Kama_Contents.php:172-187 | h3, h2, .foo get the plain positions 0, 1, 2 in 3.17, with no shift, grouping or clamp |
| Selectors.FilterSpec | Kama_Contents.php:220 | the filter keeps the order of what it keeps, keeps exactly the elements satisfying the test, and each of them as often as it occurs |
| Selectors.AsTableAt | Kama_Contents.php:210 | a match of as_table="…" is the opening, a non-empty quote-free value and the closing quote, at that position |
| Selectors.AsTableAtFinds | Kama_Contents.php:210 | every as_table="v" with a non-empty, quote-free v is matched there with value v |
| Selectors.FindAsTable | Kama_Contents.php:210 | preg_match finds the leftmost position where the as_table pattern matches, or none when it matches nowhere |
| Selectors.CutAsTable | Kama_Contents.php:210-214 | without a match the parameters pass unchanged; with one, every occurrence of " " plus the matched text is removed, the titles are the value exploded on '\|', and implode rebuilds the value |
| Selectors.TrimAll | Kama_Contents.php:216 | array_map('trim') trims every piece and keeps their number |
| Selectors.WordsShape | Kama_Contents.php:216-220 | the words of a split are truthy, hold no separator, and are the truthy trimmed pieces in order, each as often as it occurs |
| Selectors.ParseStringParamsTokens | Kama_Contents.php:204-221 | the parameter words are truthy, hold no ' ', ',' or '\|', and are exactly the truthy trimmed pieces in order, each as often as it was written |
| Selectors.TagOccurs | Kama_Contents.php:256-266 | a plain tag selector occurs exactly when it holds no '/' and "<tag" occurs in the text, ignoring ASCII case |
| Selectors.GetActualTags | Kama_Contents.php:256-270 | the unset loop keeps exactly the selectors whose pattern occurs in the text |
| Selectors.ActualTagsSpec | Kama_Contents.php:256-270 | get_actual_tags only removes entries: the rest keep their order, exactly the occurring ones stay, and each as often as it is listed |
| Selectors.LegacyKeepsPipes | class-Kama_Contents.php:127-137 | 3.17 words are truthy and free of ' ' and ','; a '\|' stays inside its word |
| Headings.ParseMatch | Kama_Contents.php:310-330 | the parsed match keeps the full text of the match |
| Headings.ParseMatchRoundTrip | Kama_Contents.php:310-330 | parsing recovers the fields from the groups of each kind of match: tag, class-only and class after tags |
| Headings.ParseMatchKey | Kama_Contents.php:310-330 | a tag match is keyed by its tag name, a class match by the class name it matched, with the matching text |
| Headings.SpliceIdentity | Kama_Contents.php:302 | replacing every match by its own text gives back the content, so the splice keeps every gap |
| Headings.SpliceNoMatch | Kama_Contents.php:302 | with no match the content is left as it is |
| Headings.CloseQuote | Kama_Contents.php:622 | the lazy value ends at the first repeat of the opening quote, with no newline before it |
| Headings.FindAttr | Kama_Contents.php:622 | a match of the anchor-attribute regex is never empty |
| Headings.FindAttrShape | Kama_Contents.php:622 | the attribute match captures the name up to ASCII case and a non-empty value without a newline |
| Headings.AttrAtStart | Kama_Contents.php:622 | NAME="value" after nothing but spaces (none, or the space a tag-selector match captures) is the match, leading spaces included, with that value |
| Headings.TagSelectorId | Kama_Contents.php:622 | the attributes ` id="v"` that a tag-selector match of `<h2 id="v">` captures give the id match, with its leading space, and the value v |
| Headings.AnchorSource | Kama_Contents.php:616-636 | the anchor comes from the attribute's value when anchor_attr_name is set and the attribute is present, otherwise from the heading text |
| Headings.LegacyAnchorSource | class-Kama_Contents.php:291-297 | the same choice in 3.17, except that a '/' in the name breaks the pattern, so the heading text is used |
| Headings.LegacyAttrs | class-Kama_Contents.php:291-294 | 3.17 cuts the matched attribute out of the attributes it writes back only when it is id or name |
| Headings.OpenTagLen | Kama_Contents.php:653-656 | a match of `<name[^>]+>` starts with "<name" and ends at a '>' |
| Headings.ScrubLinks | Kama_Contents.php:652-657 | heading text with neither "</a>" nor "<img" passes unchanged |
| Headings.ScrubLink | Kama_Contents.php:652-654 | a link around plain text is taken off, leaving the text |
| Headings.LinkDeleted | Kama_Contents.php:653 | deleting `<a[^>]+>\|</a>` from a link around plain text leaves the text |
| Headings.DeleteNoTag | Kama_Contents.php:653-656 | text in which no '<' comes passes the tag deletion unchanged |
| Headings.ElemText | Kama_Contents.php:638-661 | the element text is strip_tags when leave_tags is falsy, strip_tags with the allow-list when it is a truthy string, otherwise only links and images are dropped |
| Headings.HeadingCarriesAnchor | Kama_Contents.php:419-424 | with an id anchor the heading opens with its tag and the anchor as its id, keeps the matched attributes, and ends in its text and closing tag |
| Headings.PositionsAtOrBefore | Kama_Contents.php:436 | for matches found in order, strpos always finds each full text, and at the match or at an earlier copy: the offset is at most the bytes before the match |
| Headings.OrderedOccurs | Kama_Contents.php:302 | every match of an ordered run occurs in the content where it says it starts |
| Headings.LegacySubAttr | class-Kama_Contents.php:299-303 | a level not above 0 gives class "top"; a deeper level gives class "sub sub_<level>" |
| Toc.ElementAnchor | Kama_Contents.php:406 | the element's anchor is never in the registry it was made against |
| Toc.GotopLinkGate | Kama_Contents.php:429-456 | the link is the "back to top" anchor when shown, and it is shown exactly when to_menu is truthy and the offset lies at least tomenu_simcount after the previously recorded one (0 for the first) |
| Toc.Collect | Kama_Contents.php:302 | one replacement per match |
| Toc.CollectPositions | Kama_Contents.php:401-409 | the counter advances by one per match, and the i-th match adds the element at position counter + i + 1 after the elements already there |
| Toc.CollectFields | Kama_Contents.php:403-410 | each element records its match: the full text, the tag, the level (0 for a missing key) and the stripped text |
| Toc.CollectFieldAt | Kama_Contents.php:403-410 | the element the i-th match added records that match |
| Toc.CollectAnchors | Kama_Contents.php:406 | the anchors of one call are pairwise distinct, none was registered before, and all are registered afterwards |
| Toc.CollectOffsets | Kama_Contents.php:436-444 | with to_menu set, el_strpos gains the offset of every match in order; otherwise it is left as it was |
| Toc.CollectLength | Kama_Contents.php:412 | one element per match |
| Toc.CollectReplacements | Kama_Contents.php:412-426 | each replacement is the link decided on the offsets recorded before it, followed by the rebuilt heading with its element's anchor and the matched attributes |
| Toc.LastReplacement | Kama_Contents.php:412-426 | the last replacement uses the anchor of the last element and the offsets recorded before it |
| Toc.GateFromFresh | Kama_Contents.php:436-451 | in a call starting with nothing recorded, match i gets the link exactly when it lies at least tomenu_simcount after match i-1 (after 0 for the first) |
| Toc.NoMenuNoLinks | Kama_Contents.php:431-433 | without to_menu no replacement carries a link and no offset is recorded |
| Toc.RepeatedHeadingNoLink | Kama_Contents.php:436-451 | a heading repeating the full text of the one before it never gets the link when tomenu_simcount is positive |
| Contents.SplitOptionsSpec | Kama_Contents.php:228-241 | embed turns embed on; no_to_menu turns to_menu off; as_table replaces the titles; nothing else in the options changes |
| Contents.NoToMenuPersists | Kama_Contents.php:238-239 | once to_menu is off on an instance, no later call turns it back on |
| Contents.SplitTagsSpec | Kama_Contents.php:223-251 | without selector words the default selectors are used; otherwise the selectors are the non-marker words, in order, each as often as it was written |
| Contents.OutcomeGates | Kama_Contents.php:168-202 | too short a text changes nothing; with no result the content is left as it is; there is a result exactly when the text is long enough, a selector survives and min_found elements were found; the result is the collected elements |
| Contents.FreshElems | Kama_Contents.php:175 | collected from a fresh temp object, the elements are numbered 1, 2, 3, … and their anchors are pairwise distinct |
| Contents.OutcomeElems | Kama_Contents.php:175-197 | whenever make_contents yields a table of contents, its elements are numbered 1, 2, 3, … and their anchors are pairwise distinct |
| Contents.Temp.constructor | Kama_Contents.php:175 | a new temp object has nothing recorded |
| Contents.Temp.UniqueAnchor | Kama_Contents.php:783-802 | the recursion returns the unique anchor for the registry, which was not registered before, and registers exactly it |
| Contents.KamaContents.constructor | Kama_Contents.php:114-120 | the instance holds the given options and no elements |
| Contents.KamaContents.ParseStringParams | Kama_Contents.php:204-221 | the original parameter string is kept on temp, and the parsed parameters are returned |
| Contents.KamaContents.SplitParamsAndTags | Kama_Contents.php:223-251 | the loop sets the options the markers name and returns the selectors |
| Contents.KamaContents.SanitizeAnchor | Kama_Contents.php:666-778 | the anchor is the unique slug of the text against the registry, and exactly it is registered |
| Contents.KamaContents.TocElementAnchor | Kama_Contents.php:616-636 | the anchor is the unique slug of the attribute value or the heading text, and exactly it is registered |
| Contents.KamaContents.ToMenuLinkHtml | Kama_Contents.php:429-456 | returns the gated link and records the match's offset only when to_menu is set |
| Contents.KamaContents.Callback | Kama_Contents.php:397-427 | one callback updates the counter, registry, offsets and elements as one fold step, and returns its replacement |
| Contents.KamaContents.ReplaceAll | Kama_Contents.php:302 | the callbacks over the matches in order leave the state the fold computes and return its replacements |
| Contents.KamaContents.StoreTagsLevels | Kama_Contents.php:332-392 | temp gets the resolved level table and the tag and class pattern lists |
| Contents.KamaContents.CollectToc | Kama_Contents.php:279-308 | the new state and content are those of collect_toc on the state before the call; temp keeps the content, the resolved level table and the two pattern lists |
| Contents.KamaContents.MakeContents | Kama_Contents.php:168-202 | the options, the elements, the result and the content are those of make_contents, whose gates OutcomeGates states |
| Legacy.ItemAnchor | class-Kama_Contents.php:291-297 | the anchor of a heading is never in the registry it was made against |
| Legacy.GotopLinkGate | class-Kama_Contents.php:347-364 | the 3.17 link is shown exactly when to_menu is truthy and the offset lies at least tomenu_simcount after the previously recorded one |
| Legacy.Collect | class-Kama_Contents.php:199 | one replacement per match |
| Legacy.CollectItems | class-Kama_Contents.php:291-309 | each entry a call pushes records its match: the scrubbed text, the level (0 when the key is missing) and the sub attribute of that level |
| Legacy.CollectItemAt | class-Kama_Contents.php:291-309 | the entry the i-th match pushed records that match |
| Legacy.CollectCounter | class-Kama_Contents.php:309 | the counter goes on from where it stood, so the i-th match of a call is numbered counter + i + 1, after the items already there |
| Legacy.CollectAnchors | class-Kama_Contents.php:400-417 | every anchor of a call avoids the registry it started from, the anchors of the call are pairwise distinct, and all end up registered |
| Legacy.CollectOffsets | class-Kama_Contents.php:347-364 | with to_menu set, elpos keeps the earlier offsets and gains every match's offset; otherwise it stays as it was |
| Legacy.FirstReplacement | class-Kama_Contents.php:354-361 | the first replacement of a call is gated against the offsets recorded before the call, so against the previous call's last heading |
| Legacy.SplitOptionsStep | class-Kama_Contents.php:140-156 | each token: embed sets embed, no_to_menu clears to_menu, any other token leaves the options alone |
| Legacy.KeptSpec | class-Kama_Contents.php:140-165 | the check loop keeps exactly the non-marker tokens that occur in the text, in their order and as often as they were written |
| Legacy.GatheredShape | class-Kama_Contents.php:199-206 | one item per match; a result exactly when there is a match and at least min_found of them; with no result the content is unchanged; a result is the item list, and the instance keeps the rewritten content |
| Legacy.OutcomeGates | class-Kama_Contents.php:116-206 | too short a text changes nothing at all; there is a result exactly when the text is long enough, a selector survives the check loop and at least one and at least min_found items were collected; with no result the content is unchanged; a result is the item list |
| Legacy.GatheredPersists | class-Kama_Contents.php:121 | the items of a call are numbered after the counter, which ends at its old value plus their number, and they get fresh, distinct anchors |
| Legacy.OutcomePersists | class-Kama_Contents.php:121 | past the length gate the counter goes on, the new items are numbered after it, and their anchors are distinct and avoid the registry |
| Legacy.TwoCallsDistinctAnchors | class-Kama_Contents.php:121 | two calls on one instance never hand out the same anchor |
| Legacy.KamaContents.constructor | class-Kama_Contents.php:60-79 | the instance holds the given options and an empty registry, counter, offsets and contents |
| Legacy.KamaContents.UniqueAnchor | class-Kama_Contents.php:400-417 | returns the 3.17 unique anchor, which was not registered before, and registers exactly it |
| Legacy.KamaContents.SanitizeAnchor | class-Kama_Contents.php:370-397 | the anchor is the 3.17 unique slug of the text, and exactly it is registered |
| Legacy.KamaContents.ToMenuLink | class-Kama_Contents.php:347-364 | returns the gated link and records the offset only when to_menu is set |
| Legacy.KamaContents.PushItem | class-Kama_Contents.php:291-309 | registers the heading's unique anchor, bumps the counter and pushes the entry numbered with it |
| Legacy.KamaContents.AppendItem | class-Kama_Contents.php:309 | the counter is bumped by one and the entry appended |
| Legacy.KamaContents.Callback | class-Kama_Contents.php:252-367 | one callback updates the counter, registry, offsets and entries as one fold step and returns its replacement |
| Legacy.KamaContents.ReplaceAll | class-Kama_Contents.php:199 | the callbacks over the matches in order leave the state the fold computes and return its replacements |
| Legacy.KamaContents.CheckTags | class-Kama_Contents.php:140-165 | the check loop sets the marker options and keeps the occurring non-marker tokens |
| Legacy.KamaContents.Patterns | class-Kama_Contents.php:172-187 | the pattern loop gives the tag and class names and the 3.17 level table |
| Legacy.KamaContents.Gather | class-Kama_Contents.php:172-206 | the second half of make_contents leaves the options alone and gives the state, result and content of the fold and gate |
| Legacy.KamaContents.MakeContents | class-Kama_Contents.php:116-249 | the instance, the result and the content are those of the 3.17 make_contents on the old instance |

## Left out

- Generating HTML is not modelled, because it is presentation only. The affected parts:
  - `toc_html`, `_toc_html`, `render_item_html`, `replace_markup` and `replace_elem_markup` (Kama_Contents.php:460-610);
  - the 3.17 list and table markup and the CSS and JavaScript strings (class-Kama_Contents.php:208-248, 316-336).

  A table of contents is returned as the list of its elements instead.
- The title, css, js and markup options are not modelled; they only affect the HTML above. The margin option is modelled where 3.17 writes it into the `$sub` attribute of an entry (Headings.LegacySubAttr); its use in the 4.3.13 HTML is left out with that HTML.
- Shortcode handling is not modelled:
  - `shortcode`;
  - `apply_shortcode`;
  - `strip_shortcode`.

  These are whole-document regex scans outside the pipeline.
- The static `init` instance caches are process-wide and not modelled.
- The 3.17 `as_table` description lookup, a regex over the content that pairs each heading with the following paragraph (class-Kama_Contents.php:280-286), is not modelled. It feeds only the table markup.
- The heading regex is a parameter. The model takes the ordered, non-overlapping list of its matches as given, with their capture groups. PCRE backtracking, the back-references and the `/is` flags stay outside the model.
- Library functions as opaque parameters: `strip_tags`, `html_entity_decode` and `strip_tags` with an allow-list are fields of `Php.Library`, and the model proves nothing about their output. `mb_strlen` is the length of the character sequence.
- WordPress hooks and the environment are not modelled:
  - the `apply_filters` hooks are taken as the identity;
  - `esc_html` and `esc_attr` only touch the HTML output;
  - `home_url` and `$_SERVER` (Kama_Contents.php:187) feed only the HTML's page URL.
- Toc.GotopLinkGate, Legacy.GotopLinkGate: when strpos returns `false`, the subtraction uses it as 0. Since a match always occurs in the content, this case does not arise on real matches.
- Legacy.CollectItems: when a key is missing, `@$temp->level_tags[$key]` is null. It is modelled as level 0, which is how the comparison and the arithmetic treat null.
- Slug.LegacyUniquify: the registry is keyed by the anchor strings as PHP 7 keys them, where `substr('', 0, 70)` is `''` and every anchor string is a key of its own. Under PHP 5, `substr` of an empty slug returns `false` (class-Kama_Contents.php:393), and `false` as an array key is the integer 0, the same key as the anchor "0" (class-Kama_Contents.php:404-413). An empty slug and the slug "0" then share one registry slot: "0" followed by an empty slug gives "-2" rather than "", and the reverse order gives "0-1" rather than "0". This PHP 5 collision is not modelled, and Legacy.KamaContents.UniqueAnchor inherits the same reading.
- Slug.SlugShape: the spec option is taken as a list of characters, each of which the character class lists literally. `preg_quote` escapes every regex metacharacter, so this holds for ASCII characters. The pattern has no `/u` flag, though, so PCRE reads the class byte by byte. A non-ASCII spec character therefore adds each of its UTF-8 bytes to the class separately; this byte-level matching is not modelled.
- Selectors.SelectorOccurs: the selector is spliced into the pattern `/$patt/i` unquoted (Kama_Contents.php:261-265, class-Kama_Contents.php:160-161). The model treats `'|'` as alternation and a `'/'` as a failed match. It takes every other character literally, so a selector such as `h[23]`, which PCRE reads as a character class, is not modelled.
- The heading regex: when `preg_replace_callback` fails outright, for example on the backtracking limit, 4.3.13 casts its null result to `''` (Kama_Contents.php:302), and the content is lost. The model takes the search as always succeeding.
- Slug.SlugShape: the cut to 70 counts characters, while `substr` counts bytes. The two agree for ASCII slugs, which is every slug unless spec holds non-ASCII characters.
- Strings are sequences of characters. strpos offsets are converted to UTF-8 byte counts through `Php.ByteLen`, and no other operation depends on bytes.
