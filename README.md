# Productboard MCP server: post-processing, feature search and note listing

This project models, in Dafny, the core of a Model Context Protocol server
that exposes the Productboard REST API as tools. Three parts are modelled:

- **The post-processor** (`src/utils/post_processor.ts`) holds three record
  clean-up helpers: `removeFields`, `removeNestedFieldsIfPresent` and
  `removeEmptyFields`. It also holds the HTML clean-up `sanitizeHTMLContent`,
  which runs seven stages of global regular-expression replacements and then
  trims the result.
- **`search_features`** (`src/feature/search_features.ts`) walks every page
  of `/features`. It follows `links.next` while a page holds exactly 1000
  features. It then keeps the features whose name contains the query,
  ignoring case. When asked, it also searches the description with its tags
  removed.
- **`get_notes`** (`src/note/get_notes.ts`) rejects two forbidden parameter
  combinations. It then appends every truthy parameter to a
  `URLSearchParams` in a fixed order and requests `/notes` with that query.

The Dafny modules follow that structure:

- `JsonValues` (`json.dfy`): decoded JSON values, with an object as an
  ordered list of key/value fields.
- `Text` (`text.dfy`): the JavaScript `\s` class, ASCII case folding, and
  runs and searches over strings.
- `Lists` (`lists.dfy`): the subsequence relation used for "kept in order".
- `Rewrite` (`rewrite.dfy`): one `Rule` per regular expression of the clean-up.
  - `MatchAt` gives what the expression matches at a position.
  - `Replace` is a global `String.prototype.replace`.
- `PostProcessor` (`post_processor.dfy`): the three record helpers.
- `Sanitizer` (`sanitizer.dfy`): the HTML clean-up stage by stage, the
  properties of its output, and the corrected line-end rule.
- `FeatureSearch` (`search_features.dfy`): the paging loop and the filter.
- `Notes` (`get_notes.dfy`): the request builder. `URLSearchParams` is a
  class whose list of pairs `append` extends.

The loops of `removeFields`, `removeNestedFieldsIfPresent`,
`removeEmptyFields`, the paging loop and the `append` sequence are methods.
Each is proved against a function that states the same result, and the
properties are proved about those functions as lemmas.

## Model

| member | source | states |
|---|---|---|
| JsonValues.Lookup | src/utils/post_processor.ts:40 | `key in obj`: a value is found exactly when the object has the key |
| JsonValues.Put | src/utils/post_processor.ts:51 | after `obj[k] = v`, `k` reads `v` and every other key reads as before; an existing key keeps its place, and a new key is appended, which is where iteration order puts it in every use made of it here |
| JsonValues.Delete | src/utils/post_processor.ts:41-43 | after `delete obj[k]` the key is gone, every other key reads as before, and an absent key leaves the object as it was |
| JsonValues.PutExistingKeyKeepsDistinct | src/utils/post_processor.ts:50-51 | overwriting a key an object already has keeps its keys distinct |
| JsonValues.PutSameValue | src/utils/post_processor.ts:49-52 | writing back the value a key already holds gives the same object |
| Text.LowerString | src/feature/search_features.ts:53 | lower-casing keeps the length and lowers each character on its own |
| Text.NatToStringValue | src/note/get_notes.ts:141 | the decimal text of a natural number reads back as that number |
| PostProcessor.WithoutKeys | src/utils/post_processor.ts:2-13 | the result has a key exactly when the input has it and it is not listed; kept keys keep their values |
| PostProcessor.Without | src/utils/post_processor.ts:6-12 | no contract of its own: the entries whose key is not listed; its meaning is given by `WithoutKeys` and `WithoutInOrder` |
| PostProcessor.WithoutInOrder | src/utils/post_processor.ts:6-12 | the kept entries are a subsequence of the input, in their original order |
| PostProcessor.RemoveFields | src/utils/post_processor.ts:2-13 | the loop builds exactly the entries whose key is not listed, in order, with the same values |
| PostProcessor.RemoveFieldPath | src/utils/post_processor.ts:33-56 | no contract of its own: `removeFieldPath`; its meaning is given by `AbsentPathUnchanged`, `RemovedPathIsAbsent`, `OtherPathsUnchanged` and `RemovalKeepsAbsent` |
| PostProcessor.RemovePaths | src/utils/post_processor.ts:58-64 | no contract of its own: the paths removed one after another; its meaning is given by `EveryListedPathAbsent` and `UnrelatedPathsUnchanged` |
| PostProcessor.AbsentPathUnchanged | src/utils/post_processor.ts:33-56 | an empty path, or a path that leads nowhere, leaves the value untouched |
| PostProcessor.RemovedPathIsAbsent | src/utils/post_processor.ts:38-53 | after removing a non-empty path, nothing is found at that path |
| PostProcessor.OtherPathsUnchanged | src/utils/post_processor.ts:33-56 | a path that is neither a prefix nor an extension of the removed path reads as before |
| PostProcessor.RemovalKeepsAbsent | src/utils/post_processor.ts:33-56 | removing a path never brings back a path that was absent |
| PostProcessor.RemoveNestedFieldsIfPresent | src/utils/post_processor.ts:15-65 | the loop removes the paths one after another; an empty list returns the object; every listed non-empty path is absent afterwards |
| PostProcessor.EveryListedPathAbsent | src/utils/post_processor.ts:58-64 | a path removed early stays absent after the later removals |
| PostProcessor.UnrelatedPathsUnchanged | src/utils/post_processor.ts:58-64 | a path unrelated to every listed path reads the same after all removals |
| PostProcessor.NonEmptyKeys | src/utils/post_processor.ts:67-100 | a key survives exactly when its value is not null, not `[]` and not an object of nulls, and it keeps its value |
| PostProcessor.NonEmpty | src/utils/post_processor.ts:74-97 | no contract of its own: the entries the clean-up keeps; its meaning is given by `NonEmptyKeys`, `NonEmptyHasNoEmptyValue`, `NonEmptyIdempotent` and `NonEmptyInOrder` |
| PostProcessor.NonEmptyInOrder | src/utils/post_processor.ts:74-97 | the kept entries are a subsequence of the input, in their original order |
| PostProcessor.NonEmptyHasNoEmptyValue | src/utils/post_processor.ts:76-97 | no value the clean-up keeps is one it would remove |
| PostProcessor.NonEmptyIdempotent | src/utils/post_processor.ts:67-100 | cleaning twice is cleaning once |
| PostProcessor.NonEmptyKeysSubset | src/utils/post_processor.ts:67-100 | the clean-up never adds a key |
| PostProcessor.RemoveEmptyFields | src/utils/post_processor.ts:67-100 | the loop keeps exactly the non-empty entries, in order, with their values |
| Rewrite.MatchAt | src/utils/post_processor.ts:117-163 | a match lies inside the text and covers at least one character; the rules with a literal replacement substitute that literal |
| Rewrite.Replace | src/utils/post_processor.ts:117-163 | no contract of its own: a global `replace` that scans left to right and resumes after each match; its meaning is given by `Idle`, `OneHit` and `ReplaceAvoids` |
| Rewrite.Idle | src/utils/post_processor.ts:117-163 | a global replace with no match anywhere returns the text unchanged |
| Rewrite.OneHit | src/utils/post_processor.ts:117-163 | a global replace with a single match replaces exactly that span by its text and keeps what is on either side |
| Rewrite.ReplaceAvoids | src/utils/post_processor.ts:117-163 | a replace whose literal replacement holds no character of a set brings no such character into a text that holds none |
| Rewrite.BlockExtent | src/utils/post_processor.ts:119-121 | a lazy block match runs from the opening tag to the first closing tag after it, and there is none when no closing tag follows |
| Rewrite.HttpUrlExtent | src/utils/post_processor.ts:154 | a URL match starts with `http://` or `https://`, takes every following non-space character, and exists exactly when one follows the scheme |
| Rewrite.WwwTokenExtent | src/utils/post_processor.ts:155 | a `www.` match starts at a word boundary and takes every following non-space character |
| Rewrite.UpToGtExtent | src/utils/post_processor.ts:122 | `[^>]*>` matches exactly when a `>` follows, and ends at the first one |
| Rewrite.OpenTagExtent | src/utils/post_processor.ts:122-129 | an opening tag pattern matches exactly when its name starts there, ignoring case, and a `>` follows; the match ends at the first `>` and is replaced by the rule's text |
| Rewrite.ImgAndListItemExtent | src/utils/post_processor.ts:122-129 | `<img[^>]*>` and `<li[^>]*>` match exactly at `<img` or `<li` followed by some `>`, end at the first one, and become nothing and `- ` |
| Rewrite.BlockOpenExtent | src/utils/post_processor.ts:128 | the opening block rule matches exactly at `<p`, `<div` or `<h1` to `<h6` followed by some `>`, ends at the first one, and becomes nothing |
| Rewrite.CloseTagExtent | src/utils/post_processor.ts:127 | a closing tag matches exactly where it is spelled, ignoring case, and ends at its `>` |
| Rewrite.BlockCloseExtent | src/utils/post_processor.ts:127 | the closing block rule matches exactly at `</p>`, `</div>`, `</li>` or `</h1>` to `</h6>`, ignoring case, ends at its `>`, and becomes a line break |
| Rewrite.ClosesAfterSpacesRun | src/utils/post_processor.ts:126 | `\s*>` matches exactly when the white space run from that point stops at a `>` |
| Rewrite.LineBreakExtent | src/utils/post_processor.ts:126 | the break rule matches exactly at `<br`, an optional `/`, white space and a `>`, ends at that `>`, and becomes a line break |
| Sanitizer.Sanitize | src/utils/post_processor.ts:102-167 | empty input is returned as is; the output is trimmed, holds no tab, vertical tab, form feed, carriage return or no-break space, has no two blanks side by side and no white space before a line break |
| Sanitizer.RemoveHeavyBlocks | src/utils/post_processor.ts:117-122 | no contract of its own: step 1; its meaning is given by `BlockExtent` and `ImgAndListItemExtent` |
| Rewrite.BracketTagExtent | src/utils/post_processor.ts:134-135 | `<[^>]*>` matches exactly at a `<` that some `>` follows, and `<[^>]+>` exactly when in addition the next character is not that `>`; either match ends at the first `>` after the `<` and is deleted |
| Rewrite.AnchorExtent | src/utils/post_processor.ts:131-132 | the anchor rule matches exactly at a `<a`, ignoring case, whose opening tag is closed by a `>` and followed later by a `</a>`; the match runs to the end of the first such `</a>` and is replaced by the text between the first `>` and that `</a>` |
| Rewrite.DecimalRefExtent | src/utils/post_processor.ts:143-146 | `&#(\d+);` matches exactly where `&#`, one or more decimal digits and `;` stand; the match ends at the `;` and becomes the code unit the digits name |
| Rewrite.HexRefExtent | src/utils/post_processor.ts:147-150 | `&#x([0-9a-fA-F]+);` matches exactly where `&#x` (lower-case `x`), one or more hexadecimal digits and `;` stand; the match ends at the `;` and becomes the code unit the digits name |
| Sanitizer.NormalizeBreaks | src/utils/post_processor.ts:124-129 | no contract of its own: step 2; its meaning is given by `LineBreakExtent`, `BlockCloseExtent`, `BlockOpenExtent` and `ImgAndListItemExtent` |
| Sanitizer.UnwrapAnchors | src/utils/post_processor.ts:131-132 | no contract of its own: step 3; its meaning is given by `Rewrite.AnchorExtent` and `AnchorExample` |
| Sanitizer.StripTags | src/utils/post_processor.ts:134-135 | no contract of its own: step 4; its meaning is given by `Rewrite.BracketTagExtent` (each match runs from a `<` to the first `>` after it), `StripTagsLeavesNoFilledTag`, `StripTagsIdle` and `StripTagsIdempotent`; `StripTagsKeepsText`, `EscapedTagSurvives`, `LiteralTagStripped` and `SpacedBreakOnlyStripped` show what it removes and keeps |
| Sanitizer.DecodeEntities | src/utils/post_processor.ts:137-150 | no contract of its own: step 5; its meaning is given by `Rewrite.DecimalRefExtent`, `Rewrite.HexRefExtent`, `DecodeIdle`, `EscapedTagSurvives` and `DoubleEscapeDecodedTwice` |
| Sanitizer.DropUrls | src/utils/post_processor.ts:152-155 | no contract of its own: step 6; its meaning is given by `HttpUrlExtent` and `WwwTokenExtent` |
| Sanitizer.Markup | src/utils/post_processor.ts:117-155 | no contract of its own: steps 1 to 6 in order; its meaning is given by `PlainTextPassesMarkup`, `NoAngleIdle`, `EscapedTagMarkup` and `LiteralTagMarkup` |
| Sanitizer.SpacesToBlank | src/utils/post_processor.ts:159-160 | no contract of its own: the first two rules of step 7; its meaning is given by `SpacesToBlankClears` and `SpacesToBlankIdle` |
| Sanitizer.CollapseWhitespace | src/utils/post_processor.ts:158-164 | no contract of its own: step 7 as written; its meaning is given by `WhitespaceFacts`, `SettledWhitespace` and `CollapseAvoids` |
| Sanitizer.Trim | src/utils/post_processor.ts:164 | `trim` returns a slice of its input with only white space before and after it; the result has no white space at either end, trimmed text is returned unchanged, and the result is empty exactly for all-space text |
| Sanitizer.TrimKeeps | src/utils/post_processor.ts:164 | trimming keeps every property the earlier stages established |
| Sanitizer.TrimAvoids | src/utils/post_processor.ts:164 | trimming brings in no character the text did not hold |
| Sanitizer.ControlSpaceClears | src/utils/post_processor.ts:159 | no tab, vertical tab, form feed or carriage return survives the first whitespace rule |
| Sanitizer.NoBreakSpaceClears | src/utils/post_processor.ts:160 | after the no-break space rule none of the five control characters is left |
| Sanitizer.SpacesToBlankClears | src/utils/post_processor.ts:159-160 | the two rules together remove all five control characters |
| Sanitizer.LineEndsCollapsedFrom | src/utils/post_processor.ts:161 | after `\s+\n` no white space, not even another line break, stands before a line break |
| Sanitizer.LineEndsCollapsed | src/utils/post_processor.ts:161 | the same for the whole text |
| Sanitizer.NewlineRunIdle | src/utils/post_processor.ts:161-162 | `\n{3,}` changes nothing in text with no white space before a line break |
| Sanitizer.LineEndIdle | src/utils/post_processor.ts:161 | `\s+\n` changes nothing in text with no white space before a line break |
| Sanitizer.SettledWhitespace | src/utils/post_processor.ts:158-164 | text that is trimmed, free of the control characters and blank pairs, and has no white space before a line break passes step 7 unchanged |
| Sanitizer.SpacesToBlankAvoids | src/utils/post_processor.ts:159-160 | the first two rules of step 7 bring in no character other than a space |
| Sanitizer.LineBreakRulesAvoid | src/utils/post_processor.ts:161-162 | `\s+\n` and `\n{3,}` bring in no character other than a line break |
| Sanitizer.CollapseAvoids | src/utils/post_processor.ts:158-164 | step 7 brings in no character other than spaces and line breaks |
| Sanitizer.BlankRunMatchAt | src/utils/post_processor.ts:163 | `[ \t]{2,}` matches the whole run of blanks at a position, and fails only where no two blanks start |
| Sanitizer.BlanksCollapsedFrom | src/utils/post_processor.ts:163 | after `[ \t]{2,}` no two blanks stand side by side |
| Sanitizer.BlanksKeepLineEndsFrom | src/utils/post_processor.ts:163 | collapsing blanks never puts white space back in front of a line break |
| Sanitizer.BlanksKeepNewlineCapFrom | src/utils/post_processor.ts:163 | collapsing blanks never creates three line breaks in a row |
| Sanitizer.BlanksCollapsed | src/utils/post_processor.ts:163 | the blank rule gives no blank pair and keeps the line-end and line-break-run properties |
| Sanitizer.FinishKeeps | src/utils/post_processor.ts:163-164 | the last rule and `trim` give trimmed text and keep every earlier property |
| Sanitizer.WhitespaceFacts | src/utils/post_processor.ts:158-164 | step 7 as written gives trimmed text with no control character, no blank pair and no white space before a line break |
| Sanitizer.NoBlankLineSurvives | src/utils/post_processor.ts:161 | the output never holds two line breaks side by side |
| Sanitizer.NewlineRunNeverFires | src/utils/post_processor.ts:161-162 | `\n{3,}` changes nothing at the point where it runs |
| Sanitizer.SanitizeIntended | src/utils/post_processor.ts:161-162 | with the line-end rule narrowed to `[ \t]+\n`, the output is trimmed, free of the control characters and blank pairs, and holds at most one blank line in a row |
| Sanitizer.NewlineRunMatchAt | src/utils/post_processor.ts:162 | `\n{3,}` matches a whole run of three or more line breaks, and fails only where no three start |
| Sanitizer.NewlinesCappedFrom | src/utils/post_processor.ts:162 | after `\n{3,}` no three line breaks stand in a row |
| Sanitizer.NewlinesCapped | src/utils/post_processor.ts:162 | the same for the whole text |
| Sanitizer.IntendedWhitespaceFacts | src/utils/post_processor.ts:158-164 | the corrected step 7 gives trimmed text with no control character, no blank pair and no three line breaks in a row |
| Sanitizer.BlankLineEndIdle | src/utils/post_processor.ts:161 | `[ \t]+\n` changes nothing when no blank stands before a line break |
| Sanitizer.PlainTextPassesMarkup | src/utils/post_processor.ts:117-155 | text without `<`, `&`, `:` or `.` passes steps 1 to 6 unchanged |
| Sanitizer.NoAngleIdle | src/utils/post_processor.ts:117-132 | text without `<` passes steps 1 to 3 unchanged |
| Sanitizer.SettledTextIdle | src/utils/post_processor.ts:102-167 | text without `<`, `&`, `:` or `.` that already has the output's shape comes out of the clean-up unchanged |
| Sanitizer.SanitizeIdempotent | src/utils/post_processor.ts:102-167 | sanitizing twice equals sanitizing once whenever the first pass leaves no `<`, `&`, `:` or `.` |
| Sanitizer.PlainTextSanitizedOnce | src/utils/post_processor.ts:102-167 | for input without `<`, `&`, `:` or `.`, the output holds none of them either, and sanitizing twice equals sanitizing once |
| Sanitizer.LineBreakForms | src/utils/post_processor.ts:126 | `<br>` and `<BR >` each become a single line break |
| Sanitizer.SpacedBreakOnlyStripped | src/utils/post_processor.ts:126-135 | `<br/>` becomes a line break, while `<br />` does not match the break rule and is deleted by the tag rule |
| Sanitizer.AnyTagMatchAt | src/utils/post_processor.ts:134-135 | `<[^>]+>` deletes what it matches, from a `<` to the first `>` after it, and fails at a `<` only when a `>` follows at once or no `>` follows at all |
| Sanitizer.NoFilledTagFrom | src/utils/post_processor.ts:134-135 | after `<[^>]+>` is removed, every `<` left is followed at once by `>` or by no `>` at all |
| Sanitizer.StripTagsLeavesNoFilledTag | src/utils/post_processor.ts:134-135 | the same for the whole text given to step 4 |
| Sanitizer.StripTagsKeepsText | src/utils/post_processor.ts:134-135 | `<b>x</b>y` becomes `xy`: both tags go and the text between and after them stays |
| Sanitizer.StripTagsIdle | src/utils/post_processor.ts:134-135 | text in which every `<` is followed at once by `>` or by no `>` passes step 4 unchanged |
| Sanitizer.StripTagsIdempotent | src/utils/post_processor.ts:134-135 | applying step 4 twice gives what applying it once gives |
| Sanitizer.AnchorExample | src/utils/post_processor.ts:131-132 | in `<a href=x>hi</a>!` the anchor covers the first 16 characters and is replaced by `hi` |
| Sanitizer.DecimalRefExample | src/utils/post_processor.ts:143-146 | `&#65;` matches whole and becomes `A` |
| Sanitizer.HexRefExample | src/utils/post_processor.ts:147-150 | `&#x41;` matches whole and becomes `A` |
| Sanitizer.DecodeIdle | src/utils/post_processor.ts:138-150 | text without `&` passes the entity stage unchanged |
| Sanitizer.EscapedTagSurvives | src/utils/post_processor.ts:135-142 | `&lt;b&gt;` passes the tag removal and comes out of the entity stage as the tag `<b>` |
| Sanitizer.EscapedTagMarkup | src/utils/post_processor.ts:117-155 | `&lt;b&gt;` comes out of steps 1 to 6 as the tag `<b>` |
| Sanitizer.LiteralTagStripped | src/utils/post_processor.ts:134-135 | step 4 removes `<b>` whole |
| Sanitizer.LiteralTagMarkup | src/utils/post_processor.ts:117-155 | `<b>` comes out of steps 1 to 6 empty |
| Sanitizer.SanitizeNotIdempotent | src/utils/post_processor.ts:102-167 | sanitizing `&lt;b&gt;` gives `<b>`, and sanitizing that again gives the empty string |
| Sanitizer.DoubleEscapeDecodedTwice | src/utils/post_processor.ts:138-141 | `&amp;lt;` comes out as `<`, because `&amp;` is decoded before `&lt;` |
| Sanitizer.SpacesToBlankIdle | src/utils/post_processor.ts:159-160 | text without the control characters passes the first two whitespace rules unchanged |
| Sanitizer.BlankRunIdle | src/utils/post_processor.ts:163 | text without a blank pair passes `[ \t]{2,}` unchanged |
| Sanitizer.NewlineCapIdle | src/utils/post_processor.ts:162 | text without three line breaks in a row passes `\n{3,}` unchanged |
| Sanitizer.LineEndExample | src/utils/post_processor.ts:161 | `\s+\n` turns `a\n\nb` into `a\nb` |
| Sanitizer.CollapseExample | src/utils/post_processor.ts:158-164 | step 7 turns `a\n\nb` into `a\nb` |
| Sanitizer.CollapseIntendedExample | src/utils/post_processor.ts:158-164 | the corrected step 7 keeps `a\n\nb` |
| Sanitizer.ParagraphBreakLost | src/utils/post_processor.ts:102-167 | the clean-up turns the paragraph break in `a\n\nb` into a single line break |
| Sanitizer.ParagraphBreakKept | src/utils/post_processor.ts:102-167 | the corrected clean-up returns `a\n\nb` unchanged |
| FeatureSearch.CrawlOver | src/feature/search_features.ts:37-50 | a finished walk made at least one request and at most one per remaining response, the first for the page it started at |
| FeatureSearch.Decide | src/feature/search_features.ts:45-49 | no contract of its own: the loop condition from a page's `data` and `links.next`; its meaning is given by `ContinuesExactly`, `NoNextLinkStops` and `NextWithoutDataThrows` |
| FeatureSearch.Continues | src/feature/search_features.ts:45-49 | no contract of its own: the loop condition on a whole response; its meaning is given by `ContinuesExactly`, `FullPageContinues` and `ShortPageStops` |
| FeatureSearch.FetchAllFeatures | src/feature/search_features.ts:33-50 | the paging loop gathers the features and requests of the page walk, or fails as it does |
| FeatureSearch.CrawlStops | src/feature/search_features.ts:45-49 | when pages continue up to one that stops, the walk gathers exactly the data and requests of those pages |
| FeatureSearch.CrawlThrows | src/feature/search_features.ts:45 | when the first page that does not continue throws, the walk fails with that error |
| FeatureSearch.CrawlRunsOut | src/feature/search_features.ts:37-38 | when every page says continue, the walk asks past the last response and fails |
| FeatureSearch.CrawlShape | src/feature/search_features.ts:37-50 | every successful walk continues through some pages and stops at the next one, gathering exactly their data and requests |
| FeatureSearch.FullPageContinues | src/feature/search_features.ts:45-46 | a page with a next link and 1000 features leads to another request |
| FeatureSearch.ShortPageStops | src/feature/search_features.ts:45-48 | a page whose `data` is an array of fewer than 1000 features ends the loop, with or without a next link (`ContinuesExactly` covers every length other than 1000) |
| FeatureSearch.NoNextLinkStops | src/feature/search_features.ts:45-48 | a response without a truthy `links.next` ends the loop, whatever its `data` |
| FeatureSearch.ContinuesExactly | src/feature/search_features.ts:45-49 | another page is requested exactly when the response has a truthy `links.next` and a `data` of length 1000 |
| FeatureSearch.FullPagesThenShortPage | src/feature/search_features.ts:34-49 | full pages then a short page give one request per page, the first to the start URL and each later one to the previous `links.next`, gathering every page's data |
| FeatureSearch.NextWithoutDataThrows | src/feature/search_features.ts:40-45 | a page with a next link but no `data` makes the loop throw a `TypeError` |
| FeatureSearch.Matching | src/feature/search_features.ts:54-67 | the filter fails exactly when some feature throws; otherwise it keeps, in order, exactly the features that match, each as many times as it occurs in the input |
| FeatureSearch.FeatureMatchesThrows | src/feature/search_features.ts:56-62 | the test throws exactly for a null feature, a name that is neither null nor a string, or a searched truthy description that is not a string |
| FeatureSearch.NameMatch | src/feature/search_features.ts:56 | no contract of its own: `feature.name?.toLowerCase().includes(term)`; its meaning is given by `FeatureMatchesMeaning` and `FeatureMatchesThrows` |
| FeatureSearch.DescriptionMatch | src/feature/search_features.ts:59-64 | no contract of its own: the description test; its meaning is given by `FeatureMatchesMeaning` and `DescriptionIgnored` |
| FeatureSearch.FeatureMatches | src/feature/search_features.ts:54-66 | no contract of its own: the filter callback; its meaning is given by `FeatureMatchesMeaning` and `FeatureMatchesThrows` |
| FeatureSearch.FeatureMatchesMeaning | src/feature/search_features.ts:53-66 | a feature matches exactly when its lower-cased string name, or its searched non-empty description lower-cased with tags removed, contains the term |
| FeatureSearch.DescriptionIgnored | src/feature/search_features.ts:59-64 | without description search, or without a truthy description, only the name decides |
| FeatureSearch.EmptyQueryMatchesNamed | src/feature/search_features.ts:53-56 | an empty query matches every feature with a string name |
| FeatureSearch.EmptyQueryKeepsAll | src/feature/search_features.ts:53-67 | an empty query keeps every feature when all of them have string names |
| FeatureSearch.LooseTagMatchAt | src/feature/search_features.ts:62 | `<[^>]*>` deletes what it matches, from a `<` to the first `>` after it, and fails at a `<` only when no `>` follows |
| FeatureSearch.StripTags | src/feature/search_features.ts:62 | no contract of its own: `replace(/<[^>]*>/g, '')`; its meaning is given by `Rewrite.BracketTagExtent` (each match runs from a `<` to the first `>` after it), `StripTagsLeavesNoTag`, `TagsRemovedTextKept` and `EmptyBracketsRemoved` |
| FeatureSearch.NoTagLeftFrom | src/feature/search_features.ts:62 | after the tag removal, no `<` is followed later by a `>` |
| FeatureSearch.StripTagsLeavesNoTag | src/feature/search_features.ts:62 | the same for a whole description |
| FeatureSearch.TagsRemovedTextKept | src/feature/search_features.ts:62 | `<b>x</b>y` becomes `xy`: both tags go and the text between and after them stays |
| FeatureSearch.EmptyBracketsRemoved | src/feature/search_features.ts:62 | `<>` counts as a tag there, so `a<>b` becomes `ab` |
| FeatureSearch.SearchFeatures | src/feature/search_features.ts:29-76 | a failed fetch or a throwing filter fails the call; otherwise the result holds the matches, the number of features fetched, the number matched, the query and whether descriptions were searched |
| Notes.PageLimitText | src/note/get_notes.ts:140-141 | a page limit is appended exactly when it is present and not 0 |
| Notes.Serialize | src/note/get_notes.ts:147 | the query string is empty exactly when no pair was appended |
| Notes.SearchParams.constructor | src/note/get_notes.ts:102 | a new `URLSearchParams` holds no pairs |
| Notes.SearchParams.Append | src/note/get_notes.ts:104-106 | `append` adds one pair at the end |
| Notes.SearchParams.ToString | src/note/get_notes.ts:147 | the query string is empty exactly when nothing was appended |
| Notes.AppendIfGiven | src/note/get_notes.ts:104-145 | a parameter is appended exactly when it is truthy |
| Notes.PresentUpTo | src/note/get_notes.ts:104-145 | no contract of its own: the pairs the first `j` checks append; its meaning is given by `PresentInOrder` and `PresentMembers` |
| Notes.Query | src/note/get_notes.ts:102-145 | no contract of its own: every pair the checks append; its meaning is given by `QueryHolds`, `QueryEmpty`, `QueryInOrder` and `PageLimitVerbatim` |
| Notes.GetNotes | src/note/get_notes.ts:93-151 | `last` with a creation bound fails with the first message; otherwise both tag filters fail with the second; otherwise the endpoint is `/notes` with the query of the given parameters |
| Notes.PresentInOrder | src/note/get_notes.ts:104-145 | the appended names follow the fixed parameter order |
| Notes.PresentMembers | src/note/get_notes.ts:104-145 | a pair is appended exactly when it is some given parameter's name and value |
| Notes.QueryHolds | src/note/get_notes.ts:104-145 | a given parameter is in the query with its value, and any pair with its name carries that value |
| Notes.QueryEmpty | src/note/get_notes.ts:147-148 | the query is empty exactly when no parameter is given |
| Notes.QueryInOrder | src/note/get_notes.ts:104-145 | the query's names form a subsequence of the parameter order, so each appears at most once |
| Notes.Endpoint | src/note/get_notes.ts:147-148 | no contract of its own: `/notes`, then `?` and the query when it is not empty; its meaning is given by `EndpointShape` |
| Notes.PageLimitVerbatim | src/note/get_notes.ts:140-142 | a missing limit adds no `pageLimit`; a positive one appears as decimal digits that read back as the limit |
| Notes.LastWithUpdatesAccepted | src/note/get_notes.ts:95-97 | `last` combined with update bounds is accepted, and all three appear in the query |
| Notes.EndpointShape | src/note/get_notes.ts:147-148 | the endpoint is `/notes` exactly when the query is empty, and `/notes?` followed by the query otherwise |
| Notes.SerializeParses | src/note/get_notes.ts:147 | a query whose names hold no `&` or `=` and whose values hold no `&` reads back as its list of pairs |

## Left out

- The HTTP client, `fetch`, `async`/`await` and the access token are not modelled. The client in `search_features` is replaced by the list of decoded responses it would return, in order. Running past the end of that list is the error `FetchFailed`.
- `Notes.GetNotes`: returns the endpoint it would request instead of calling the client with it.
- `FeatureSearch.FetchAllFeatures`: records a later request as the `links.next` value it came from (`NextOf`). The path and search that `new URL(...)` would extract are not computed, and a link `URL` would reject is not modelled as a throw.
- `Notes.SerializeParses`: covers only queries that need no percent-encoding. The form encoding of `URLSearchParams` (spaces as `+`, escapes) is not modelled.
- `Text.LowerString`: folds ASCII letters only; `toLowerCase` on the rest of Unicode is not modelled. The `i` flag of the clean-up's expressions compares ASCII letters only, so those rules are exact.
- Numbers are integers. The floating-point `pageLimit`, `NaN` and the `toString` of non-integers are not modelled.
- Numeric character references are decoded as the code unit `value mod 65536`. A value too large for a JavaScript number (`Number.isFinite` false, or rounded above 2^53) is not modelled as it is there. A code unit in the surrogate range is left as the reference text, because a lone surrogate is not a Dafny `char`.
- JavaScript objects are ordered lists of distinct keys. The prototype chain that `in` also consults is not modelled.
- JsonValues.Put: a new key is appended at the end, while JavaScript puts array-index keys such as `"2"` first, in ascending order. No use here adds a key out of iteration order: `removeFields` and `removeEmptyFields` copy entries in `Object.entries` order into a fresh object, and `removeFieldPath` only overwrites keys that are already there, so no result is affected.
- `removeFieldPath` on an array inside a path leaves the array unchanged; JavaScript would index it or copy it into an object.
- `removeEmptyFields` drops `{}`, because an object with no values has no non-null value (lines 88-91). The comment at lines 69-73 asks for objects whose subfields are all null, and `{}` meets that vacuously, so code and comment agree.
- The header comment of `sanitizeHTMLContent` says URLs are replaced by their domains. The code deletes them (lines 152-155), and the model follows the code.
- Sanitizer.Sanitize: the clean-up is idempotent only where the first pass leaves no `<`, `&`, `:` or `.` (`SanitizeIdempotent`, `PlainTextSanitizedOnce`). Idempotence does not extend to every fragment free of tags and URLs: entities are decoded after the tags are stripped, so `&lt;b&gt;` gives `<b>`, which a second pass removes (`SanitizeNotIdempotent`). `&amp;lt;` is likewise decoded twice in one pass (`DoubleEscapeDecodedTwice`).
- `src/index.ts`, the tool schemas, and the other tools (companies, components, products, feature details, feature statuses, note details) are not part of this model.

## Findings

| source | as written | input that shows it | evidently intended | confidence | as-written member | corrected member |
|---|---|---|---|---|---|---|
| src/utils/post_processor.ts:161-162 | `\s+\n` also matches line breaks, so every run of line breaks collapses to one and `\n{3,}` can never fire | `a\n\nb` comes out as `a\nb` | remove only spaces and tabs before a line break (`[ \t]+\n`), so that one blank line survives and `\n{3,}` caps longer runs | not executed | Sanitizer.ParagraphBreakLost | Sanitizer.SanitizeIntended |
